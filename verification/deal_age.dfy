/** The deal-age classifier (`calculate_deal_age_status`): a first-match keyword
    bucket on the lower-cased stage label, then inclusive day thresholds. */
module DealAge {
  import opened Wrappers
  import opened Text

  datatype AgeStatus = Unknown | Green | Yellow | Red

  /** The stage buckets, in the order the keywords are tested. */
  datatype Bucket = StalledOrDelayed | Early | Mid | Late | Default

  const EarlyWords: seq<string> := ["nbm", "discovery", "qualification", "prospecting", "lead", "scheduled"]
  const MidWords: seq<string> := ["technical", "evaluation", "demo", "proposal"]
  const LateWords: seq<string> := ["negotiation", "contract", "closing", "final"]

  /** Python's `any(s in text for s in words)`. */
  predicate AnyIn(text: string, words: seq<string>) {
    exists i :: 0 <= i < |words| && Contains(text, words[i])
  }

  /** The stage's bucket: the first keyword group, in test order, with a
      word in the lower-cased label. */
  function BucketOf(stage: string): (b: Bucket)
    ensures b == StalledOrDelayed <==> StalledOrDelayedLabel(Lower(stage))
    ensures b == Early <==> !StalledOrDelayedLabel(Lower(stage)) && AnyIn(Lower(stage), EarlyWords)
    ensures b == Mid <==>
              !StalledOrDelayedLabel(Lower(stage)) && !AnyIn(Lower(stage), EarlyWords)
              && AnyIn(Lower(stage), MidWords)
    ensures b == Late <==>
              !StalledOrDelayedLabel(Lower(stage)) && !AnyIn(Lower(stage), EarlyWords + MidWords)
              && AnyIn(Lower(stage), LateWords)
    ensures b == Default <==>
              !StalledOrDelayedLabel(Lower(stage)) && !AnyIn(Lower(stage), EarlyWords + MidWords + LateWords)
  {
    var l := Lower(stage);
    AnyInAppend(l, EarlyWords, MidWords);
    AnyInAppend(l, EarlyWords + MidWords, LateWords);
    if Find(l, "stalled") || Find(l, "delayed") then StalledOrDelayed
    else if AnyIn(l, EarlyWords) then Early
    else if AnyIn(l, MidWords) then Mid
    else if AnyIn(l, LateWords) then Late
    else Default
  }

  predicate StalledOrDelayedLabel(l: string) {
    Contains(l, "stalled") || Contains(l, "delayed")
  }

  /** A word of either list is a word of their concatenation. */
  lemma AnyInAppend(text: string, a: seq<string>, b: seq<string>)
    ensures AnyIn(text, a + b) <==> AnyIn(text, a) || AnyIn(text, b)
  {
    if AnyIn(text, a + b) {
      var i :| 0 <= i < |a + b| && Contains(text, (a + b)[i]);
      if i < |a| {
        assert (a + b)[i] == a[i];
      } else {
        assert (a + b)[i] == b[i - |a|];
      }
    }
    if AnyIn(text, a) {
      var i :| 0 <= i < |a| && Contains(text, a[i]);
      assert (a + b)[i] == a[i];
    }
    if AnyIn(text, b) {
      var i :| 0 <= i < |b| && Contains(text, b[i]);
      assert (a + b)[|a| + i] == b[i];
    }
  }

  /** The last day counts that are still Green and still Yellow in each bucket
      (a stalled or delayed deal is never Green). */
  function GreenLimit(b: Bucket): Option<int> {
    match b
    case StalledOrDelayed => None
    case Early => Some(14)
    case Mid => Some(30)
    case Late => Some(45)
    case Default => Some(21)
  }

  function YellowLimit(b: Bucket): int {
    match b
    case StalledOrDelayed => 14
    case Early => 30
    case Mid => 45
    case Late => 60
    case Default => 45
  }

  /** `calculate_deal_age_status(days_in_stage, dealstage)`. */
  function AgeStatusOf(days: Option<int>, stage: string): (r: AgeStatus)
    ensures r == Unknown <==> days == None
    ensures r == Green ==> BucketOf(stage) != StalledOrDelayed
  {
    match days
    case None => Unknown
    case Some(d) =>
      var b := BucketOf(stage);
      if GreenLimit(b).Some? && d <= GreenLimit(b).value then Green
      else if d <= YellowLimit(b) then Yellow
      else Red
  }

  function Severity(s: AgeStatus): nat {
    match s
    case Unknown => 0
    case Green => 1
    case Yellow => 2
    case Red => 3
  }

  /** For a fixed stage, more days never make a deal look healthier. */
  lemma SeverityMonotone(stage: string, d1: int, d2: int)
    requires d1 <= d2
    ensures Severity(AgeStatusOf(Some(d1), stage)) <= Severity(AgeStatusOf(Some(d2), stage))
  {
  }

  /** Both thresholds are inclusive: the limit itself is in the healthier band,
      one day more is in the next. */
  lemma ThresholdsInclusive(stage: string)
    ensures var b := BucketOf(stage);
            GreenLimit(b).Some? ==>
              AgeStatusOf(Some(GreenLimit(b).value), stage) == Green
              && AgeStatusOf(Some(GreenLimit(b).value + 1), stage) == Yellow
    ensures AgeStatusOf(Some(YellowLimit(BucketOf(stage))), stage) == Yellow
    ensures AgeStatusOf(Some(YellowLimit(BucketOf(stage)) + 1), stage) == Red
  {
  }

  /** The keyword test ignores case, and a stalled or
      delayed label takes precedence over every other keyword. */
  lemma StalledWins(prefix: string, rest: string, days: int)
    ensures AgeStatusOf(Some(days), prefix + "Stalled" + rest) != Green
  {
    var stage := prefix + "Stalled" + rest;
    assert Lower(stage) == Lower(prefix) + "stalled" + Lower(rest);
    ContainsInfix(Lower(prefix), "stalled", Lower(rest));
  }
}
