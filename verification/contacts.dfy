/** A deal's associated contacts (`fetch_associated_contacts`): the association
    listing, retried up to three times on connection trouble, then one lookup
    per associated id, each retried the same way.

    The API is a pair of oracles: the listing's answer on each attempt, and
    each id's lookup answer on each attempt. */
module Contacts {
  import opened Wrappers
  import opened Text
  import opened Properties
  import opened Backoff

  /** How a call fails: an API exception with its status and message, a network
      error (`ConnectionError`, `TimeoutError`, `OSError`), or anything else. */
  datatype CallError = ApiFailure(status: int, message: string) | NetworkFailure | OtherFailure(message: string)

  datatype Listing = Listed(ids: seq<string>) | ListingFailed(err: CallError)

  datatype LookupAnswer = Found(props: Props) | LookupFailed(err: CallError)

  /** The fields of a contact the pipeline uses downstream. */
  datatype Contact = Contact(id: string, name: string, email: string)

  const MaxAttempts: nat := 3

  /** `props.get(key, '')`. */
  function Get(props: Props, key: string): string {
    Value(props, key).GetOr("")
  }

  /** The contact record built from a successful lookup. */
  function ContactOf(id: string, props: Props): Contact {
    Contact(id, Strip(Get(props, "firstname") + " " + Get(props, "lastname")), Get(props, "email"))
  }

  /** A message that reads like a dropped connection. */
  predicate ConnectionMessage(m: string) {
    Contains(m, "SSL") || Contains(m, "EOF") || Contains(Lower(m), "connection")
  }

  predicate PermissionMessage(m: string) {
    Contains(m, "403") || Contains(m, "Forbidden")
  }

  /** An id lookup failure that is retried: a network error, or an unexpected
      error whose message reads like a dropped connection. An API exception
      never is, whatever its status. */
  predicate LookupRetryable(e: CallError) {
    e.NetworkFailure? || (e.OtherFailure? && ConnectionMessage(e.message))
  }

  /** One id's lookup: the contact, if any, how many attempts were made and the
      waits between them. */
  datatype Hydration = Hydration(contact: Option<Contact>, attempts: nat, waits: seq<nat>)

  /** The lookup of `id` stops after attempt `n - 1`, having started at `k`:
      every attempt before it failed with an error that is retried, and it
      found the contact, failed with an error that is not retried, or was the
      third. */
  predicate LookupStopsAt(lookup: (string, nat) -> LookupAnswer, id: string, k: nat, n: nat) {
    && k < n <= MaxAttempts
    && (forall j :: k <= j < n - 1 ==> lookup(id, j).LookupFailed? && LookupRetryable(lookup(id, j).err))
    && (lookup(id, n - 1).LookupFailed? && LookupRetryable(lookup(id, n - 1).err) ==> n == MaxAttempts)
  }

  /** What the lookup's last attempt leaves: the contact built from its answer,
      or none after a failure. */
  predicate ContactOfLast(lookup: (string, nat) -> LookupAnswer, id: string, n: nat, c: Option<Contact>) {
    && n > 0
    && (lookup(id, n - 1).Found? ==> c == Some(ContactOf(id, lookup(id, n - 1).props)))
    && (lookup(id, n - 1).LookupFailed? ==> c == None)
  }

  function HydrateFrom(id: string, lookup: (string, nat) -> LookupAnswer, k: nat, waits: seq<nat>): (h: Hydration)
    requires k < MaxAttempts
    ensures LookupStopsAt(lookup, id, k, h.attempts)
    ensures ContactOfLast(lookup, id, h.attempts, h.contact)
    ensures |waits| <= |h.waits| && h.waits[..|waits|] == waits
    decreases MaxAttempts - k
  {
    match lookup(id, k)
    case Found(props) => Hydration(Some(ContactOf(id, props)), k + 1, waits)
    case LookupFailed(e) =>
      if LookupRetryable(e) && k < MaxAttempts - 1 then HydrateFrom(id, lookup, k + 1, waits + [Pow2(k)])
      else Hydration(None, k + 1, waits)
  }

  /** One id's lookup, from its first attempt: between one and three
      attempts, with one wait between each two; the contact is the last
      attempt's answer. Where it stops is `HydrateStops`. */
  function Hydrate(id: string, lookup: (string, nat) -> LookupAnswer): (h: Hydration)
    ensures 1 <= h.attempts <= MaxAttempts && |h.waits| == h.attempts - 1
    ensures ContactOfLast(lookup, id, h.attempts, h.contact)
  {
    HydrateFromWaits(id, lookup, 0, []);
    HydrateFrom(id, lookup, 0, [])
  }

  /** An id's lookup is retried only while the error is one that is retried:
      every attempt but the last failed that way, and the last found the
      contact, failed with an error that is not retried, or was the third. */
  lemma HydrateStops(id: string, lookup: (string, nat) -> LookupAnswer)
    ensures LookupStopsAt(lookup, id, 0, Hydrate(id, lookup).attempts)
  {
    assert Hydrate(id, lookup) == HydrateFrom(id, lookup, 0, []);
  }

  /** What one id adds to the contacts: its contact, if the lookup found one. */
  function HydrateOne(id: string, lookup: (string, nat) -> LookupAnswer): (cs: seq<Contact>)
    ensures |cs| <= 1
  {
    var h := Hydrate(id, lookup);
    if h.contact.Some? then [h.contact.value] else []
  }

  /** The contacts found for the ids, in id order. */
  function HydrateAll(ids: seq<string>, lookup: (string, nat) -> LookupAnswer): (cs: seq<Contact>)
    ensures |cs| <= |ids|
  {
    if |ids| == 0 then [] else HydrateOne(ids[0], lookup) + HydrateAll(ids[1..], lookup)
  }

  /** The outcome of the whole call: the contacts and the listing's attempts
      and waits. */
  datatype Fetched = Fetched(contacts: seq<Contact>, listingAttempts: nat, listingWaits: seq<nat>)

  /** The listing is retried on a network error or on an unexpected error that
      reads like a dropped connection, unless it reads like a permission error. */
  predicate ListingRetryable(e: CallError) {
    e.NetworkFailure? || (!PermissionMessage(e.message) && ConnectionMessage(e.message))
  }

  /** The listing stops after attempt `n - 1`, having started at `a`: every
      attempt before it failed with an error that is retried, and it listed,
      failed with an error that is not retried, or was the third. */
  predicate ListingStopsAt(listing: nat -> Listing, a: nat, n: nat) {
    && a < n <= MaxAttempts
    && (forall j :: a <= j < n - 1 ==> listing(j).ListingFailed? && ListingRetryable(listing(j).err))
    && (listing(n - 1).ListingFailed? && ListingRetryable(listing(n - 1).err) ==> n == MaxAttempts)
  }

  /** What the listing's last attempt leaves: the contacts of its ids, or none
      after a failure. */
  predicate ContactsOfLast(listing: nat -> Listing, lookup: (string, nat) -> LookupAnswer, n: nat, cs: seq<Contact>)
    requires n > 0
  {
    && (listing(n - 1).Listed? ==> cs == HydrateAll(listing(n - 1).ids, lookup))
    && (listing(n - 1).ListingFailed? ==> cs == [])
  }

  /** The listing loop from attempt `a`. */
  function FetchFrom(listing: nat -> Listing, lookup: (string, nat) -> LookupAnswer, a: nat, waits: seq<nat>)
    : (f: Fetched)
    requires a < MaxAttempts
    ensures ListingStopsAt(listing, a, f.listingAttempts)
    ensures ContactsOfLast(listing, lookup, f.listingAttempts, f.contacts)
    decreases MaxAttempts - a
  {
    match listing(a)
    case Listed(ids) => Fetched(HydrateAll(ids, lookup), a + 1, waits)
    case ListingFailed(e) =>
      if ListingRetryable(e) && a < MaxAttempts - 1 then FetchFrom(listing, lookup, a + 1, waits + [Pow2(a)])
      else Fetched([], a + 1, waits)
  }

  /** `fetch_associated_contacts`: a successful listing returns the contacts
      found for its ids; a listing that never succeeds returns none. */
  function FetchAssociatedContacts(listing: nat -> Listing, lookup: (string, nat) -> LookupAnswer): (f: Fetched)
    ensures 1 <= f.listingAttempts <= MaxAttempts
    ensures listing(f.listingAttempts - 1).Listed? ==>
              f.contacts == HydrateAll(listing(f.listingAttempts - 1).ids, lookup)
    ensures listing(f.listingAttempts - 1).ListingFailed? ==> f.contacts == []
  {
    FetchFrom(listing, lookup, 0, [])
  }

  /** Hydrating a concatenation of ids hydrates each part; a single id
      contributes its contact when its lookup finds one, and nothing
      otherwise. */
  lemma {:induction false} HydrateAllAppend(a: seq<string>, b: seq<string>, lookup: (string, nat) -> LookupAnswer)
    ensures HydrateAll(a + b, lookup) == HydrateAll(a, lookup) + HydrateAll(b, lookup)
    ensures |a| == 1 ==>
              HydrateAll(a, lookup)
                == if Hydrate(a[0], lookup).contact.Some? then [Hydrate(a[0], lookup).contact.value] else []
    decreases |a|
  {
    if |a| > 0 {
      assert (a + b)[0] == a[0];
      assert (a + b)[1..] == a[1..] + b;
      HydrateAllAppend(a[1..], b, lookup);
      if |a| == 1 {
        assert a[1..] == [];
        assert HydrateAll(a, lookup) == HydrateOne(a[0], lookup);
      }
    } else {
      assert a + b == b;
    }
  }

  /** Each id, in order, adds exactly the contact its lookup finds. */
  lemma HydrateAllSnoc(ids: seq<string>, i: nat, lookup: (string, nat) -> LookupAnswer)
    requires i < |ids|
    ensures HydrateAll(ids[..i + 1], lookup)
              == HydrateAll(ids[..i], lookup)
                 + (if Hydrate(ids[i], lookup).contact.Some? then [Hydrate(ids[i], lookup).contact.value] else [])
  {
    assert ids[..i + 1] == ids[..i] + [ids[i]];
    HydrateAllAppend(ids[..i], [ids[i]], lookup);
    HydrateAllAppend([ids[i]], [], lookup);
  }

  /** `a` is `b` with some elements left out. */
  predicate Subsequence<T(==)>(a: seq<T>, b: seq<T>)
    decreases |b|
  {
    |a| == 0 || (|b| > 0 && ((a[0] == b[0] && Subsequence(a[1..], b[1..])) || Subsequence(a, b[1..])))
  }

  function IdsOf(cs: seq<Contact>): seq<string> {
    seq(|cs|, i requires 0 <= i < |cs| => cs[i].id)
  }

  /** The contacts come back in id order, at most one per associated id, each
      carrying the id it was looked up under. */
  lemma {:induction false} ContactsFollowIds(ids: seq<string>, lookup: (string, nat) -> LookupAnswer)
    ensures Subsequence(IdsOf(HydrateAll(ids, lookup)), ids)
    ensures forall c :: c in HydrateAll(ids, lookup) ==> c.id in ids
    decreases |ids|
  {
    if |ids| > 0 {
      ContactsFollowIds(ids[1..], lookup);
      HydrationCarriesId(ids[0], lookup);
      var cs := HydrateAll(ids, lookup);
      var rest := HydrateAll(ids[1..], lookup);
      var a := IdsOf(cs);
      if Hydrate(ids[0], lookup).contact.Some? {
        var head := Hydrate(ids[0], lookup).contact.value;
        assert cs == [head] + rest;
        assert a[1..] == IdsOf(rest);
        assert a[0] == ids[0];
        forall c | c in cs ensures c.id in ids {
          if c != head {
            assert c in rest;
          }
        }
      } else {
        assert cs == rest;
        forall c | c in cs ensures c.id in ids {
          assert c in rest;
        }
      }
    }
  }

  lemma {:induction false} HydrationCarriesId(id: string, lookup: (string, nat) -> LookupAnswer)
    ensures Hydrate(id, lookup).contact.Some? ==> Hydrate(id, lookup).contact.value.id == id
  {
    var h := Hydrate(id, lookup);
    assert ContactOfLast(lookup, id, h.attempts, h.contact);
  }

  /** A lookup finds a contact exactly when one of its attempts is answered,
      and the contact is then built from an answer. */
  lemma FoundIffAnswered(id: string, lookup: (string, nat) -> LookupAnswer)
    ensures Hydrate(id, lookup).contact.Some? <==>
              exists j :: 0 <= j < Hydrate(id, lookup).attempts && lookup(id, j).Found?
    ensures Hydrate(id, lookup).contact.Some? ==>
              exists j :: 0 <= j < Hydrate(id, lookup).attempts && lookup(id, j).Found?
                && Hydrate(id, lookup).contact.value == ContactOf(id, lookup(id, j).props)
  {
    var h := Hydrate(id, lookup);
    var last := h.attempts - 1;
    assert ContactOfLast(lookup, id, h.attempts, h.contact);
    if h.contact.Some? {
      assert lookup(id, last).Found? && h.contact.value == ContactOf(id, lookup(id, last).props);
    } else {
      HydrateStops(id, lookup);
      assert forall j :: 0 <= j < h.attempts ==> lookup(id, j).LookupFailed?;
    }
  }

  /** An API exception on an id, permission or otherwise, ends its lookup after
      the one attempt. */
  lemma ApiErrorTriedOnce(id: string, lookup: (string, nat) -> LookupAnswer)
    requires lookup(id, 0).LookupFailed? && lookup(id, 0).err.ApiFailure?
    ensures Hydrate(id, lookup) == Hydration(None, 1, [])
  {
  }

  /** An unexpected error on an id's first attempt is retried exactly when
      its message reads like a dropped connection. */
  lemma OtherFailureRetriedIffConnection(id: string, lookup: (string, nat) -> LookupAnswer, m: string)
    requires lookup(id, 0) == LookupFailed(OtherFailure(m))
    ensures Hydrate(id, lookup).attempts > 1 <==> ConnectionMessage(m)
  {
    HydrateStops(id, lookup);
  }

  lemma {:induction false} HydrateFromWaits(id: string, lookup: (string, nat) -> LookupAnswer, k: nat, waits: seq<nat>)
    requires k < MaxAttempts && |waits| == k
    ensures var h := HydrateFrom(id, lookup, k, waits);
            |h.waits| == h.attempts - 1
            && forall j :: k <= j < |h.waits| ==> h.waits[j] == Pow2(j)
    decreases MaxAttempts - k
  {
    if lookup(id, k).LookupFailed? && LookupRetryable(lookup(id, k).err) && k < MaxAttempts - 1 {
      HydrateFromWaits(id, lookup, k + 1, waits + [Pow2(k)]);
      var h := HydrateFrom(id, lookup, k, waits);
      assert h.waits[..k + 1] == waits + [Pow2(k)];
      assert h.waits[k] == h.waits[..k + 1][k];
    }
  }

  /** Each id gets at most three attempts, with a wait of 2^j seconds after
      the j-th failed one. */
  lemma LookupBackoff(id: string, lookup: (string, nat) -> LookupAnswer)
    ensures var h := Hydrate(id, lookup);
            1 <= h.attempts <= MaxAttempts && |h.waits| == h.attempts - 1
            && forall j :: 0 <= j < |h.waits| ==> h.waits[j] == Pow2(j)
  {
    HydrateFromWaits(id, lookup, 0, []);
  }

  /** An id whose every attempt fails on the network is tried three times,
      waiting one then two seconds, and yields no contact. */
  lemma NetworkFailuresExhaust(id: string, lookup: (string, nat) -> LookupAnswer)
    requires forall j :: 0 <= j < MaxAttempts ==> lookup(id, j) == LookupFailed(NetworkFailure)
    ensures Hydrate(id, lookup) == Hydration(None, 3, [1, 2])
  {
    assert lookup(id, 0) == LookupFailed(NetworkFailure);
    assert lookup(id, 1) == LookupFailed(NetworkFailure);
    assert lookup(id, 2) == LookupFailed(NetworkFailure);
    assert [] + [Pow2(0)] == [1];
    assert [1] + [Pow2(1)] == [1, 2];
  }

  /** A deal without associated contacts yields none, after one listing call. */
  lemma NoIdsNoContacts(listing: nat -> Listing, lookup: (string, nat) -> LookupAnswer)
    requires listing(0) == Listed([])
    ensures FetchAssociatedContacts(listing, lookup) == Fetched([], 1, [])
  {
  }

  /** A permission error on the listing returns no contacts without a retry. */
  lemma ListingForbiddenNotRetried(listing: nat -> Listing, lookup: (string, nat) -> LookupAnswer)
    requires listing(0).ListingFailed? && !listing(0).err.NetworkFailure?
    requires PermissionMessage(listing(0).err.message)
    ensures FetchAssociatedContacts(listing, lookup) == Fetched([], 1, [])
  {
  }

  lemma {:induction false} FetchFromWaits(listing: nat -> Listing, lookup: (string, nat) -> LookupAnswer, a: nat,
                                          waits: seq<nat>)
    requires a < MaxAttempts && |waits| == a
    ensures var f := FetchFrom(listing, lookup, a, waits);
            |f.listingWaits| == f.listingAttempts - 1
            && forall j :: a <= j < |f.listingWaits| ==> f.listingWaits[j] == Pow2(j)
    decreases MaxAttempts - a
  {
    if listing(a).ListingFailed? && ListingRetryable(listing(a).err) && a < MaxAttempts - 1 {
      FetchFromWaits(listing, lookup, a + 1, waits + [Pow2(a)]);
      var f := FetchFrom(listing, lookup, a, waits);
      assert f.listingWaits[..a + 1] == waits + [Pow2(a)] by {
        ListingWaitsGrow(listing, lookup, a + 1, waits + [Pow2(a)]);
      }
      assert f.listingWaits[a] == f.listingWaits[..a + 1][a];
    }
  }

  lemma {:induction false} ListingWaitsGrow(listing: nat -> Listing, lookup: (string, nat) -> LookupAnswer, a: nat,
                                            waits: seq<nat>)
    requires a < MaxAttempts
    ensures var f := FetchFrom(listing, lookup, a, waits);
            |waits| <= |f.listingWaits| && f.listingWaits[..|waits|] == waits
    decreases MaxAttempts - a
  {
    if listing(a).ListingFailed? && ListingRetryable(listing(a).err) && a < MaxAttempts - 1 {
      ListingWaitsGrow(listing, lookup, a + 1, waits + [Pow2(a)]);
      var w := FetchFrom(listing, lookup, a + 1, waits + [Pow2(a)]).listingWaits;
      assert w[..|waits|] == w[..|waits| + 1][..|waits|];
    }
  }

  /** The association listing gets at most three attempts: every attempt but
      the last failed with an error that is retried, the last listed, failed
      with an error that is not retried, or was the third; after the j-th
      failed attempt it waits 2^j seconds. */
  lemma ListingBackoff(listing: nat -> Listing, lookup: (string, nat) -> LookupAnswer)
    ensures var f := FetchAssociatedContacts(listing, lookup);
            var last := f.listingAttempts - 1;
            && 1 <= f.listingAttempts <= MaxAttempts
            && (forall j :: 0 <= j < last ==> listing(j).ListingFailed? && ListingRetryable(listing(j).err))
            && (listing(last).ListingFailed? && ListingRetryable(listing(last).err) ==> f.listingAttempts == MaxAttempts)
            && |f.listingWaits| == last
            && (forall j :: 0 <= j < last ==> f.listingWaits[j] == Pow2(j))
  {
    FetchFromWaits(listing, lookup, 0, []);
    assert ListingStopsAt(listing, 0, FetchFrom(listing, lookup, 0, []).listingAttempts);
  }

  /** Contacts only ever come from a successful listing, one lookup per id, in
      id order: a listing that keeps failing yields none. */
  lemma ContactsComeFromListing(listing: nat -> Listing, lookup: (string, nat) -> LookupAnswer)
    ensures var f := FetchAssociatedContacts(listing, lookup);
            f.contacts != [] ==> listing(f.listingAttempts - 1).Listed?
    ensures var f := FetchAssociatedContacts(listing, lookup);
            listing(f.listingAttempts - 1).Listed? ==>
              var ids := listing(f.listingAttempts - 1).ids;
              f.contacts == HydrateAll(ids, lookup) && Subsequence(IdsOf(f.contacts), ids)
  {
    var f := FetchAssociatedContacts(listing, lookup);
    var last := listing(f.listingAttempts - 1);
    if last.Listed? {
      ContactsFollowIds(last.ids, lookup);
      assert f.contacts == HydrateAll(last.ids, lookup);
    } else {
      assert f.contacts == [];
    }
  }
}
