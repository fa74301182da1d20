/** Cursor pagination that stops softly: the owners and meetings listings keep
    every page served before the first failure or the first page without a
    successor.

    The pages are a script of what the API serves, in cursor order; the script
    is finite, so running out of it also ends the listing. */
module Paging {

  datatype PageResult<T> = Page(items: seq<T>, hasNext: bool) | Failed

  /** The page ends the listing. */
  predicate Stops<T>(p: PageResult<T>) {
    p.Failed? || !p.hasNext
  }

  /** What the listing returns. */
  function Collect<T>(pages: seq<PageResult<T>>): seq<T> {
    if |pages| == 0 then []
    else match pages[0]
      case Failed => []
      case Page(items, more) => items + (if more then Collect(pages[1..]) else [])
  }

  /** How many pages the listing requests: up to and including the first that
      stops it. */
  function Requested<T>(pages: seq<PageResult<T>>): (n: nat)
    ensures n <= |pages|
    ensures forall i :: 0 <= i < n - 1 ==> !Stops(pages[i])
    ensures n < |pages| ==> n > 0 && Stops(pages[n - 1])
    ensures n == |pages| && n > 0 && !Stops(pages[n - 1]) ==> forall i :: 0 <= i < n ==> !Stops(pages[i])
  {
    if |pages| == 0 then 0
    else if Stops(pages[0]) then 1
    else 1 + Requested(pages[1..])
  }

  /** The items of every successful page, in order. */
  function ItemsOf<T>(pages: seq<PageResult<T>>): seq<T> {
    if |pages| == 0 then []
    else (match pages[0] case Failed => [] case Page(items, _) => items) + ItemsOf(pages[1..])
  }

  /** The listing returns exactly the items of the pages it requested. */
  lemma {:induction false} CollectIsRequestedItems<T>(pages: seq<PageResult<T>>)
    ensures Collect(pages) == ItemsOf(pages[..Requested(pages)])
    decreases |pages|
  {
    if |pages| > 0 {
      var n := Requested(pages);
      if Stops(pages[0]) {
        assert pages[..n] == [pages[0]];
        assert ItemsOf(pages[..n]) == (match pages[0] case Failed => [] case Page(items, _) => items) + ItemsOf(pages[..n][1..]);
      } else {
        CollectIsRequestedItems(pages[1..]);
        assert pages[..n][1..] == pages[1..][..Requested(pages[1..])];
      }
    }
  }

  /** Pages scripted after the one that stops the listing are never requested. */
  lemma {:induction false} CollectIgnoresLaterPages<T>(pages: seq<PageResult<T>>, later: seq<PageResult<T>>)
    requires exists i :: 0 <= i < |pages| && Stops(pages[i])
    ensures Collect(pages + later) == Collect(pages)
    decreases |pages|
  {
    assert (pages + later)[0] == pages[0];
    if !Stops(pages[0]) {
      var i :| 0 <= i < |pages| && Stops(pages[i]);
      assert pages[1..][i - 1] == pages[i];
      assert (pages + later)[1..] == pages[1..] + later;
      CollectIgnoresLaterPages(pages[1..], later);
    }
  }
}
