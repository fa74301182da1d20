/** The deal listing (`fetch_all_deals`): cursor pagination with a pipeline
    filter, a retry counter per page and exponential back-off on rate limits.

    The API is a script: the i-th attempt, whatever cursor it asks for, gets
    `script[i]`. A script that runs out before the listing ends leaves the
    run unfinished; a rate-limited page can be retried forever, so no finite
    script describes every run. */
module DealFetch {
  import opened Wrappers
  import opened Properties
  import opened Backoff

  /** A deal as the API serves it: its properties. */
  datatype RawDeal = RawDeal(props: Props)

  function Prop(d: RawDeal, key: string): Option<string> {
    Value(d.props, key)
  }

  /** One attempt at fetching a page. */
  datatype Attempt =
    | Served(deals: seq<RawDeal>, next: Option<string>)
    | ApiError(status: int)
    | Unexpected

  predicate Failure(a: Attempt) {
    !a.Served?
  }

  predicate RateLimited(a: Attempt) {
    a.ApiError? && a.status == 429
  }

  /** What the run did on one attempt: the cursor it asked for and how long it
      then slept, in seconds. */
  datatype Request = Request(after: Option<string>, wait: nat)

  datatype Outcome =
    | Completed(deals: seq<RawDeal>, log: seq<Request>)
    | Raised(log: seq<Request>)
    | Unfinished(deals: seq<RawDeal>, log: seq<Request>)

  const MaxRetries: nat := 5
  const ErrorWait: nat := 5
  const MaxRateLimitWait: nat := 60

  /** The back-off after the k-th failed attempt of a page, when rate-limited. */
  function RateLimitWait(k: nat): (w: nat)
    ensures w <= MaxRateLimitWait && w <= 10 * Pow2(k)
    ensures w == MaxRateLimitWait || w == 10 * Pow2(k)
  {
    if 10 * Pow2(k) < MaxRateLimitWait then 10 * Pow2(k) else MaxRateLimitWait
  }

  /** Python truthiness of the target pipeline id. */
  predicate Truthy(target: Option<string>) {
    target.Some? && target.value != ""
  }

  /** The page filter: with a target, keep the deals in that pipeline. */
  function Keep(deals: seq<RawDeal>, target: Option<string>): (r: seq<RawDeal>)
    ensures |r| <= |deals|
    ensures !Truthy(target) ==> r == deals
    ensures forall d :: d in r ==> d in deals && (Truthy(target) ==> Prop(d, "pipeline") == target)
    ensures forall d :: d in deals && (!Truthy(target) || Prop(d, "pipeline") == target) ==> d in r
  {
    if !Truthy(target) then deals
    else if |deals| == 0 then []
    else (if Prop(deals[0], "pipeline") == target then [deals[0]] else []) + Keep(deals[1..], target)
  }

  /** The filter is a filter: it goes deal by deal, keeping a deal exactly
      when it is in the target pipeline (or there is no target), and keeps
      the kept deals in their order, duplicates included. */
  lemma KeepIsFilter(a: seq<RawDeal>, b: seq<RawDeal>, target: Option<string>)
    ensures Keep(a + b, target) == Keep(a, target) + Keep(b, target)
    ensures |a| == 1 ==> Keep(a, target) == if !Truthy(target) || Prop(a[0], "pipeline") == target then a else []
  {
    KeepAppend(a, b, target);
    if |a| == 1 && Truthy(target) {
      assert Keep(a, target) == (if Prop(a[0], "pipeline") == target then a else []) + Keep([], target);
    }
  }

  lemma {:induction false} KeepAppend(a: seq<RawDeal>, b: seq<RawDeal>, target: Option<string>)
    ensures Keep(a + b, target) == Keep(a, target) + Keep(b, target)
    decreases |a|
  {
    if Truthy(target) {
      if |a| == 0 {
        assert a + b == b;
      } else {
        var head := if Prop(a[0], "pipeline") == target then [a[0]] else [];
        assert (a + b)[0] == a[0] && (a + b)[1..] == a[1..] + b;
        assert Keep(a + b, target) == head + Keep(a[1..] + b, target);
        assert Keep(a, target) == head + Keep(a[1..], target);
        KeepAppend(a[1..], b, target);
      }
    }
  }


  /** The run from the i-th attempt on, asking for cursor `after` with `retry`
      failed attempts already made for this page. */
  function Run(script: seq<Attempt>, target: Option<string>, i: nat, after: Option<string>, retry: nat,
               acc: seq<RawDeal>, log: seq<Request>): Outcome
    decreases |script| - i
  {
    if i >= |script| then Unfinished(acc, log)
    else
      var a := script[i];
      if a.Served? then
        var acc' := acc + Keep(a.deals, target);
        var log' := log + [Request(after, 0)];
        if a.next.None? then Completed(acc', log')
        else Run(script, target, i + 1, a.next, 0, acc', log')
      else
        var k := retry + 1;
        if RateLimited(a) then
          // Out of retries, the inner loop ends and the outer one starts the
          // same page again with a fresh counter.
          Run(script, target, i + 1, after, if k >= MaxRetries then 0 else k, acc,
              log + [Request(after, RateLimitWait(k))])
        else if k >= MaxRetries then Raised(log + [Request(after, 0)])
        else Run(script, target, i + 1, after, k, acc, log + [Request(after, ErrorWait)])
  }

  /** `fetch_all_deals`. */
  function FetchAllDeals(script: seq<Attempt>, target: Option<string>): (o: Outcome)
    ensures |o.log| <= |script|
    ensures |script| > 0 <==> |o.log| > 0
  {
    RunLogLength(script, target, 0, None, 0, [], []);
    Run(script, target, 0, None, 0, [], [])
  }

  /** The deals of the pages served among some attempts, filtered. */
  function ServedDeals(attempts: seq<Attempt>, target: Option<string>): seq<RawDeal> {
    if |attempts| == 0 then []
    else (if attempts[0].Served? then Keep(attempts[0].deals, target) else []) + ServedDeals(attempts[1..], target)
  }

  /** The cursor asked for after an attempt. */
  function NextCursor(a: Attempt, after: Option<string>): Option<string> {
    if a.Served? then a.next else after
  }

  /** The log has one request per attempt made, in script order; each request
      asks for the cursor the previous attempt left; the run stops exactly at
      the first page without a successor or when it raises. */
  predicate Faithful(script: seq<Attempt>, log: seq<Request>) {
    |log| <= |script|
    && (|log| > 0 ==> log[0].after == None)
    && (forall k :: 0 <= k < |log| - 1 ==> log[k + 1].after == NextCursor(script[k], log[k].after))
    && (forall k :: 0 <= k < |log| - 1 ==> !(script[k].Served? && script[k].next.None?))
  }

  /** A completed run ends on a served page without a cursor, having
      collected exactly the served pages' deals. */
  predicate CompletedFrom(script: seq<Attempt>, target: Option<string>, i: nat, acc: seq<RawDeal>, o: Outcome) {
    o.Completed? ==>
      i < |o.log| <= |script|
      && o.deals == acc + ServedDeals(script[i..|o.log|], target)
      && script[|o.log| - 1].Served? && script[|o.log| - 1].next.None?
  }

  lemma {:induction false} RunCompleted(script: seq<Attempt>, target: Option<string>, i: nat, after: Option<string>,
                                        retry: nat, acc: seq<RawDeal>, log: seq<Request>)
    requires |log| == i
    ensures var o := Run(script, target, i, after, retry, acc, log);
            o.Completed? ==>
              i < |o.log| <= |script|
              && o.deals == acc + ServedDeals(script[i..|o.log|], target)
              && script[|o.log| - 1].Served? && script[|o.log| - 1].next.None?
    decreases |script| - i, 1
  {
    if i < |script| {
      var a := script[i];
      if a.Served? && a.next.Some? {
        CompletedAfterPage(script, target, i, after, retry, acc, log);
      } else if a.Served? {
        var o := Run(script, target, i, after, retry, acc, log);
        assert o == Completed(acc + Keep(a.deals, target), log + [Request(after, 0)]);
        var rest := script[i..i + 1];
        assert rest[0] == a && rest[1..] == [];
        assert ServedDeals(rest, target) == Keep(a.deals, target) + ServedDeals([], target);
      } else {
        CompletedAfterFailure(script, target, i, after, retry, acc, log);
      }
    }
  }

  lemma {:induction false} CompletedAfterPage(script: seq<Attempt>, target: Option<string>, i: nat,
                                              after: Option<string>, retry: nat, acc: seq<RawDeal>,
                                              log: seq<Request>)
    requires |log| == i < |script| && script[i].Served? && script[i].next.Some?
    ensures CompletedFrom(script, target, i, acc, Run(script, target, i, after, retry, acc, log))
    decreases |script| - i, 0
  {
    var a := script[i];
    var acc', log' := acc + Keep(a.deals, target), log + [Request(after, 0)];
    var o := Run(script, target, i + 1, a.next, 0, acc', log');
    assert Run(script, target, i, after, retry, acc, log) == o;
    RunCompleted(script, target, i + 1, a.next, 0, acc', log');
    if o.Completed? {
      var rest := script[i..|o.log|];
      assert rest[0] == a && rest[1..] == script[i + 1..|o.log|];
      assert ServedDeals(rest, target) == Keep(a.deals, target) + ServedDeals(rest[1..], target);
    }
  }

  lemma {:induction false} CompletedAfterFailure(script: seq<Attempt>, target: Option<string>, i: nat,
                                                 after: Option<string>, retry: nat, acc: seq<RawDeal>,
                                                 log: seq<Request>)
    requires |log| == i < |script| && !script[i].Served?
    ensures CompletedFrom(script, target, i, acc, Run(script, target, i, after, retry, acc, log))
    decreases |script| - i, 0
  {
    var a := script[i];
    var k := retry + 1;
    if RateLimited(a) || k < MaxRetries {
      var retry' := if RateLimited(a) && k >= MaxRetries then 0 else k;
      var log' := log + [Request(after, if RateLimited(a) then RateLimitWait(k) else ErrorWait)];
      var o := Run(script, target, i + 1, after, retry', acc, log');
      assert Run(script, target, i, after, retry, acc, log) == o;
      RunCompleted(script, target, i + 1, after, retry', acc, log');
      if o.Completed? {
        var rest := script[i..|o.log|];
        assert rest[0] == a && rest[1..] == script[i + 1..|o.log|];
        assert ServedDeals(rest, target) == ServedDeals(rest[1..], target);
      }
    }
  }

  lemma {:induction false} RunCursors(script: seq<Attempt>, target: Option<string>, i: nat, after: Option<string>,
                                      retry: nat, acc: seq<RawDeal>, log: seq<Request>)
    requires |log| == i <= |script|
    ensures var o := Run(script, target, i, after, retry, acc, log);
            |o.log| <= |script|
            && (|o.log| > i ==> o.log[i].after == after)
            && (forall k :: i <= k < |o.log| - 1 ==>
                  o.log[k + 1].after == NextCursor(script[k], o.log[k].after)
                  && !(script[k].Served? && script[k].next.None?))
    decreases |script| - i
  {
    var o := Run(script, target, i, after, retry, acc, log);
    if i < |script| {
      var a := script[i];
      var k := retry + 1;
      if a.Served? {
        var log' := log + [Request(after, 0)];
        if a.next.Some? {
          RunCursors(script, target, i + 1, a.next, 0, acc + Keep(a.deals, target), log');
          RunKeepsLog(script, target, i + 1, a.next, 0, acc + Keep(a.deals, target), log');
          assert o.log[i] == o.log[..i + 1][i] == log'[i];
        }
      } else if RateLimited(a) || k < MaxRetries {
        var log' := log + [Request(after, if RateLimited(a) then RateLimitWait(k) else ErrorWait)];
        var retry' := if RateLimited(a) && k >= MaxRetries then 0 else k;
        RunCursors(script, target, i + 1, after, retry', acc, log');
        RunKeepsLog(script, target, i + 1, after, retry', acc, log');
        assert o.log[i] == o.log[..i + 1][i] == log'[i];
      }
    }
  }

  /** A completed listing returns, in cursor order, the filtered deals of every
      page it was served, and stops at the first page without a successor. */
  lemma DealsAreServedPages(script: seq<Attempt>, target: Option<string>)
    ensures var o := FetchAllDeals(script, target);
            o.Completed? ==>
              Faithful(script, o.log) && 0 < |o.log|
              && o.deals == ServedDeals(script[..|o.log|], target)
              && script[|o.log| - 1].Served? && script[|o.log| - 1].next.None?
  {
    RunCompleted(script, target, 0, None, 0, [], []);
    RunCursors(script, target, 0, None, 0, [], []);
    RunCompleted(script, target, 0, None, 0, [], []);
    assert script[0..|FetchAllDeals(script, target).log|] == script[..|FetchAllDeals(script, target).log|];
  }

  /** Whatever the outcome, each attempt asks for the cursor the previous one
      left, starting from none, and no page without a successor is followed by
      another request. */
  lemma RequestsFollowCursors(script: seq<Attempt>, target: Option<string>)
    ensures Faithful(script, FetchAllDeals(script, target).log)
  {
    RunCursors(script, target, 0, None, 0, [], []);
  }

  /** Every `retry` attempts before the i-th are failures. */
  predicate FailedRun(script: seq<Attempt>, i: nat, retry: nat) {
    retry <= i <= |script| && forall k :: i - retry <= k < i ==> Failure(script[k])
  }

  lemma {:induction false} RunRaised(script: seq<Attempt>, target: Option<string>, i: nat, after: Option<string>,
                                     retry: nat, acc: seq<RawDeal>, log: seq<Request>)
    requires |log| == i && retry < MaxRetries && FailedRun(script, i, retry)
    ensures var o := Run(script, target, i, after, retry, acc, log);
            o.Raised? ==>
              MaxRetries <= |o.log| <= |script|
              && !RateLimited(script[|o.log| - 1])
              && FailedRun(script, |o.log|, MaxRetries)
    decreases |script| - i
  {
    if i < |script| && !script[i].Served? {
      var k := retry + 1;
      var log' := log + [Request(after, if RateLimited(script[i]) then RateLimitWait(k) else ErrorWait)];
      if RateLimited(script[i]) && k >= MaxRetries {
        RunRaised(script, target, i + 1, after, 0, acc, log');
      } else if RateLimited(script[i]) || k < MaxRetries {
        RunRaised(script, target, i + 1, after, k, acc, log');
      }
    } else if i < |script| && script[i].next.Some? {
      RunRaised(script, target, i + 1, script[i].next, 0, acc + Keep(script[i].deals, target),
                log + [Request(after, 0)]);
    }
  }

  /** The listing raises only on a failure that is not a rate limit and that
      ends five consecutive failed attempts. */
  lemma RaisesAfterFiveFailures(script: seq<Attempt>, target: Option<string>)
    ensures var o := FetchAllDeals(script, target);
            o.Raised? ==>
              MaxRetries <= |o.log| <= |script|
              && !RateLimited(script[|o.log| - 1])
              && forall k :: |o.log| - MaxRetries <= k < |o.log| ==> Failure(script[k])
  {
    RunRaised(script, target, 0, None, 0, [], []);
  }

  /** Once a page has `retry` failed attempts, the failures that are not rate
      limits and bring the count to five raise, whatever the cursor, the
      position in the run and the deals gathered so far; every failure before
      the last sleeps five seconds. */
  lemma {:induction false} ErrorsRaise(script: seq<Attempt>, target: Option<string>, i: nat, after: Option<string>,
                                       retry: nat, acc: seq<RawDeal>, log: seq<Request>)
    requires retry < MaxRetries && i + (MaxRetries - retry) <= |script|
    requires forall k :: i <= k < i + (MaxRetries - retry) ==> Failure(script[k]) && !RateLimited(script[k])
    ensures Run(script, target, i, after, retry, acc, log)
            == Raised(log + seq(MaxRetries - retry - 1, _ => Request(after, ErrorWait)) + [Request(after, 0)])
    decreases MaxRetries - retry
  {
    assert Failure(script[i]) && !RateLimited(script[i]);
    var waits := seq(MaxRetries - retry - 1, _ => Request(after, ErrorWait));
    if retry + 1 >= MaxRetries {
      assert waits == [];
      assert log + waits == log;
    } else {
      var log' := log + [Request(after, ErrorWait)];
      ErrorsRaise(script, target, i + 1, after, retry + 1, acc, log');
      var waits' := seq(MaxRetries - (retry + 1) - 1, _ => Request(after, ErrorWait));
      assert [Request(after, ErrorWait)] + waits' == waits;
      assert log' + waits' == log + waits;
    }
  }

  /** Five failures in a row that are not rate limits, from the first
      attempt, end the listing with an exception after five requests. */
  lemma FiveErrorsRaise(script: seq<Attempt>, target: Option<string>)
    requires |script| >= MaxRetries
    requires forall k :: 0 <= k < MaxRetries ==> Failure(script[k]) && !RateLimited(script[k])
    ensures FetchAllDeals(script, target).Raised?
    ensures |FetchAllDeals(script, target).log| == MaxRetries
  {
    ErrorsRaise(script, target, 0, None, 0, [], []);
  }


  lemma {:induction false} RunNeverRaises(script: seq<Attempt>, target: Option<string>, i: nat, after: Option<string>,
                                          retry: nat, acc: seq<RawDeal>, log: seq<Request>)
    requires forall k :: i <= k < |script| ==> !Failure(script[k]) || RateLimited(script[k])
    ensures !Run(script, target, i, after, retry, acc, log).Raised?
    decreases |script| - i
  {
    if i < |script| {
      var k := retry + 1;
      if script[i].Served? {
        if script[i].next.Some? {
          RunNeverRaises(script, target, i + 1, script[i].next, 0, acc + Keep(script[i].deals, target),
                         log + [Request(after, 0)]);
        }
      } else {
        RunNeverRaises(script, target, i + 1, after, if k >= MaxRetries then 0 else k, acc,
                       log + [Request(after, RateLimitWait(k))]);
      }
    }
  }

  /** Rate limits alone never make the listing raise, however many there are. */
  lemma RateLimitsNeverRaise(script: seq<Attempt>, target: Option<string>)
    requires forall k :: 0 <= k < |script| ==> !Failure(script[k]) || RateLimited(script[k])
    ensures !FetchAllDeals(script, target).Raised?
  {
    RunNeverRaises(script, target, 0, None, 0, [], []);
  }

  /** Five rate limits in a row do not raise: the waits double up to the one
      minute cap, and the listing then asks for the same cursor again with a
      fresh retry counter, as if starting over. */
  lemma FifthRateLimitRetries(rest: seq<Attempt>, target: Option<string>)
    ensures var script := [ApiError(429), ApiError(429), ApiError(429), ApiError(429), ApiError(429)] + rest;
            FetchAllDeals(script, target)
            == Run(script, target, 5, None, 0, [],
                   [Request(None, 20), Request(None, 40), Request(None, 60), Request(None, 60), Request(None, 60)])
  {
    var script := [ApiError(429), ApiError(429), ApiError(429), ApiError(429), ApiError(429)] + rest;
    var log := [Request(None, 20), Request(None, 40), Request(None, 60), Request(None, 60), Request(None, 60)];
    assert RateLimitWait(1) == 20 && RateLimitWait(2) == 40 && RateLimitWait(3) == 60;
    assert RateLimitWait(4) == 60 && RateLimitWait(5) == 60;
    assert forall n :: 0 <= n < 5 ==> log[..n] + [log[n]] == log[..n + 1];
    assert [] + [log[0]] == log[..1];
    assert log[..5] == log;
    assert FetchAllDeals(script, target) == Run(script, target, 0, None, 0, [], []);
    assert Run(script, target, 0, None, 0, [], []) == Run(script, target, 1, None, 1, [], log[..1]);
    assert Run(script, target, 1, None, 1, [], log[..1]) == Run(script, target, 2, None, 2, [], log[..2]);
    assert Run(script, target, 2, None, 2, [], log[..2]) == Run(script, target, 3, None, 3, [], log[..3]);
    assert Run(script, target, 3, None, 3, [], log[..3]) == Run(script, target, 4, None, 4, [], log[..4]);
  }

  /** Every wait is 0, the fixed error wait, or a rate-limit back-off of at
      most a minute. */
  predicate WaitsBounded(log: seq<Request>) {
    forall k :: 0 <= k < |log| ==> log[k].wait <= MaxRateLimitWait
  }

  /** Each attempt adds one request to the log, and the run makes one
      attempt at least when the script has one left. */
  lemma {:induction false} RunLogLength(script: seq<Attempt>, target: Option<string>, i: nat, after: Option<string>,
                                        retry: nat, acc: seq<RawDeal>, log: seq<Request>)
    ensures var o := Run(script, target, i, after, retry, acc, log);
            && (i >= |script| ==> |o.log| == |log|)
            && (i < |script| ==> |log| < |o.log| <= |log| + (|script| - i))
    decreases |script| - i
  {
    if i < |script| {
      var a := script[i];
      var k := retry + 1;
      if a.Served? {
        if a.next.Some? {
          RunLogLength(script, target, i + 1, a.next, 0, acc + Keep(a.deals, target), log + [Request(after, 0)]);
        }
      } else if RateLimited(a) || k < MaxRetries {
        RunLogLength(script, target, i + 1, after, if RateLimited(a) && k >= MaxRetries then 0 else k, acc,
                     log + [Request(after, if RateLimited(a) then RateLimitWait(k) else ErrorWait)]);
      }
    }
  }

  /** A run only ever appends to its log. */
  lemma {:induction false} RunKeepsLog(script: seq<Attempt>, target: Option<string>, i: nat, after: Option<string>,
                                       retry: nat, acc: seq<RawDeal>, log: seq<Request>)
    ensures var o := Run(script, target, i, after, retry, acc, log);
            |log| <= |o.log| && o.log[..|log|] == log
    decreases |script| - i
  {
    if i < |script| {
      var a := script[i];
      var k := retry + 1;
      var o := Run(script, target, i, after, retry, acc, log);
      if a.Served? {
        var log' := log + [Request(after, 0)];
        if a.next.Some? {
          RunKeepsLog(script, target, i + 1, a.next, 0, acc + Keep(a.deals, target), log');
          assert o.log[..|log|] == o.log[..|log'|][..|log|];
        }
      } else if RateLimited(a) || k < MaxRetries {
        var log' := log + [Request(after, if RateLimited(a) then RateLimitWait(k) else ErrorWait)];
        RunKeepsLog(script, target, i + 1, after, if RateLimited(a) && k >= MaxRetries then 0 else k, acc, log');
        assert o.log[..|log|] == o.log[..|log'|][..|log|];
      }
    }
  }

  lemma {:induction false} RunWaitsBounded(script: seq<Attempt>, target: Option<string>, i: nat, after: Option<string>,
                                           retry: nat, acc: seq<RawDeal>, log: seq<Request>)
    requires WaitsBounded(log)
    ensures WaitsBounded(Run(script, target, i, after, retry, acc, log).log)
    decreases |script| - i
  {
    if i < |script| {
      var a := script[i];
      var k := retry + 1;
      if a.Served? {
        if a.next.Some? {
          RunWaitsBounded(script, target, i + 1, a.next, 0, acc + Keep(a.deals, target), log + [Request(after, 0)]);
        }
      } else if RateLimited(a) || k < MaxRetries {
        var log' := log + [Request(after, if RateLimited(a) then RateLimitWait(k) else ErrorWait)];
        RunWaitsBounded(script, target, i + 1, after, if RateLimited(a) && k >= MaxRetries then 0 else k, acc, log');
      }
    }
  }

  /** No sleep between attempts exceeds a minute. */
  lemma WaitsAtMostAMinute(script: seq<Attempt>, target: Option<string>)
    ensures WaitsBounded(FetchAllDeals(script, target).log)
  {
    RunWaitsBounded(script, target, 0, None, 0, [], []);
  }
}
