/** The incremental reveal window (src/hooks/useInfiniteScroll.ts): a growing prefix
    of a list, advanced one page at a time. The viewport observer that calls
    `LoadMore` is not modelled; the list is a parameter of every operation, as it is
    an argument of the hook. */
module Reveal {

  /** The hook's state: how many items to show, and the page size it was created
      with. */
  datatype Window = Window(displayCount: nat, pageSize: nat)

  function Min(a: int, b: int): int {
    if a <= b then a else b
  }

  /** The initial state, and the state after `reset` or after the items or the page
      size change: one page. */
  function Init(pageSize: nat): (w: Window)
    ensures w.displayCount == w.pageSize == pageSize
  {
    Window(pageSize, pageSize)
  }

  /** `reset`, and the effect that runs when `items` or `pageSize` change. */
  function Reset(w: Window, pageSize: nat): (r: Window)
    ensures r == Init(pageSize)
  {
    Window(pageSize, pageSize)
  }

  /** `visibleItems`: the first `displayCount` items, or all of them if there are
      fewer. */
  function VisibleItems<T>(items: seq<T>, w: Window): (r: seq<T>)
    ensures |r| == Min(w.displayCount, |items|)
    ensures r == items[..|r|]
  {
    if w.displayCount <= |items| then items[..w.displayCount] else items
  }

  /** `hasMore`: some item is not shown yet. */
  predicate HasMore<T>(items: seq<T>, w: Window)
    ensures HasMore(items, w) <==> |VisibleItems(items, w)| < |items|
  {
    w.displayCount < |items|
  }

  /** `loadMore`: shows one more page, never more than the items there are, and does
      nothing when everything is already shown. */
  function LoadMore<T>(items: seq<T>, w: Window): (r: Window)
    ensures r.pageSize == w.pageSize
    ensures HasMore(items, w) ==> r.displayCount == Min(w.displayCount + w.pageSize, |items|)
    ensures !HasMore(items, w) ==> r == w
    ensures VisibleItems(items, w) <= VisibleItems(items, r)
  {
    if HasMore(items, w) then w.(displayCount := Min(w.displayCount + w.pageSize, |items|))
    else w
  }

  /** `k` calls of `loadMore` in a row. */
  function LoadMoreTimes<T>(items: seq<T>, w: Window, k: nat): Window
    decreases k
  {
    if k == 0 then w else LoadMoreTimes(items, LoadMore(items, w), k - 1)
  }

  /** The states the window can be in for a fixed list: one page, or more than a page
      but no more than the list holds. */
  predicate Reachable<T>(items: seq<T>, w: Window) {
    w.displayCount == w.pageSize || w.pageSize < w.displayCount <= |items|
  }

  /** `loadMore` keeps the window in a reachable state. */
  lemma LoadMorePreservesReachable<T>(items: seq<T>, w: Window)
    requires Reachable(items, w)
    ensures Reachable(items, LoadMore(items, w))
  {
  }

  /** Every state a fresh window reaches by loads alone is reachable. */
  lemma {:induction false} ReachableAfterLoads<T>(items: seq<T>, pageSize: nat, k: nat)
    ensures Reachable(items, LoadMoreTimes(items, Init(pageSize), k))
  {
    if k > 0 {
      ReachableAfterLoads(items, pageSize, k - 1);
      LoadMoreTimesLast(items, Init(pageSize), k - 1);
      LoadMorePreservesReachable(items, LoadMoreTimes(items, Init(pageSize), k - 1));
    }
  }

  /** After `k` calls of `loadMore` from a fresh window, `k + 1` pages are shown, or
      the whole list if it is shorter. */
  lemma {:induction false} PagesAfterLoads<T>(items: seq<T>, pageSize: nat, k: nat)
    ensures |VisibleItems(items, LoadMoreTimes(items, Init(pageSize), k))| == Min(pageSize * (k + 1), |items|)
    ensures LoadMoreTimes(items, Init(pageSize), k).pageSize == pageSize
  {
    if k > 0 {
      PagesAfterLoads(items, pageSize, k - 1);
      LoadMoreTimesLast(items, Init(pageSize), k - 1);
      var prev := LoadMoreTimes(items, Init(pageSize), k - 1);
      var target := pageSize * k;
      NextMultiple(pageSize, k);
      assert Min(prev.displayCount, |items|) == Min(target, |items|);
      LoadMoreAdvancesTarget(items, prev, target);
    }
  }

  /** One page more than `k` pages is `k + 1` pages. */
  lemma NextMultiple(pageSize: nat, k: nat)
    ensures pageSize * (k + 1) == pageSize * k + pageSize
  {
  }

  /** If the visible length is the smaller of some target and the list length, one
      load moves it to the smaller of the target plus a page and the list length. */
  lemma LoadMoreAdvancesTarget<T>(items: seq<T>, w: Window, target: int)
    requires Min(w.displayCount, |items|) == Min(target, |items|)
    ensures Min(LoadMore(items, w).displayCount, |items|) == Min(target + w.pageSize, |items|)
  {
  }

  /** One more load after `k` loads is `k + 1` loads. */
  lemma {:induction false} LoadMoreTimesLast<T>(items: seq<T>, w: Window, k: nat)
    ensures LoadMoreTimes(items, w, k + 1) == LoadMore(items, LoadMoreTimes(items, w, k))
    decreases k
  {
    if k > 0 {
      LoadMoreTimesLast(items, LoadMore(items, w), k - 1);
    }
  }

  /** No sequence of loads ever shows less than before: each visible list is a
      prefix of the next. */
  lemma {:induction false} LoadsOnlyGrow<T>(items: seq<T>, w: Window, k: nat)
    ensures VisibleItems(items, w) <= VisibleItems(items, LoadMoreTimes(items, w, k))
    decreases k
  {
    if k > 0 {
      LoadsOnlyGrow(items, LoadMore(items, w), k - 1);
    }
  }
}
