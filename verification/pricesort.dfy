/** The price ordering behind `[...list].sort((a, b) => a.price - b.price)` and its
    descending twin. `Array.prototype.sort` is stable (ECMA-262, 2019 edition
    onward), so the model is a stable insertion sort on a fresh sequence; the
    input list is a value and is never reordered. */
module PriceSort {
  import opened Seqs
  import opened Products

  datatype Direction = Ascending | Descending

  /** The sort key: products with a smaller key come first. */
  function Key(p: Product, d: Direction): int {
    match d
    case Ascending => p.price
    case Descending => -p.price
  }

  /** Keys never decrease along the list: prices rise for `Ascending` and fall for
      `Descending`. */
  predicate SortedBy(xs: seq<Product>, d: Direction) {
    forall i, j :: 0 <= i < j < |xs| ==> Key(xs[i], d) <= Key(xs[j], d)
  }

  /** The products of `xs` whose price is `v`, in their order in `xs`: the price
      filter, unfolded one element at a time (`AtPriceIsFilter`). */
  function AtPrice(xs: seq<Product>, v: int): seq<Product>
    decreases |xs|
  {
    if xs == [] then []
    else (if xs[0].price == v then [xs[0]] else []) + AtPrice(xs[1..], v)
  }

  /** Places `x` in front of the first element with a key at least as large, so it
      precedes every element of `xs` with an equal key. */
  function Insert(x: Product, xs: seq<Product>, d: Direction): (r: seq<Product>)
    requires SortedBy(xs, d)
    ensures SortedBy(r, d)
    ensures multiset(r) == multiset(xs) + multiset{x}
    ensures |r| == |xs| + 1
    ensures xs == [] ==> r == [x]
    ensures xs != [] ==> r[0] == x || r[0] == xs[0]
  {
    if xs == [] || Key(x, d) <= Key(xs[0], d) then
      LeastFirst(x, xs, d);
      [x] + xs
    else
      var head := xs[0];
      var tail := xs[1..];
      assert xs == [head] + tail;
      assert SortedBy(tail, d);
      var rest := Insert(x, tail, d);
      assert Key(head, d) <= Key(rest[0], d);
      LeastFirst(head, rest, d);
      ConsPermutes(head, tail, rest, x);
      [head] + rest
  }

  /** Putting the same element in front keeps "`rest` is `tail` plus `x`". */
  lemma ConsPermutes(head: Product, tail: seq<Product>, rest: seq<Product>, x: Product)
    requires multiset(rest) == multiset(tail) + multiset{x}
    ensures multiset([head] + rest) == multiset([head] + tail) + multiset{x}
  {
  }

  /** A sorted list stays sorted under a new first element whose key is no larger
      than the old first one's. */
  lemma LeastFirst(h: Product, t: seq<Product>, d: Direction)
    requires SortedBy(t, d) && (t != [] ==> Key(h, d) <= Key(t[0], d))
    ensures SortedBy([h] + t, d)
  {
    var r := [h] + t;
    forall i, j | 0 <= i < j < |r| ensures Key(r[i], d) <= Key(r[j], d) {
      if i == 0 && j > 1 {
        assert r[j] == t[j - 1];
        assert Key(t[0], d) <= Key(t[j - 1], d);
      }
    }
  }

  /** A stable sort of `xs` by price in direction `d`. */
  function Sort(xs: seq<Product>, d: Direction): (r: seq<Product>)
    ensures SortedBy(r, d)
    ensures multiset(r) == multiset(xs)
    ensures |r| == |xs|
  {
    if xs == [] then []
    else
      assert xs == [xs[0]] + xs[1..];
      Insert(xs[0], Sort(xs[1..], d), d)
  }

  /** Inserting `x` adds it in front of the equal-priced products and leaves the
      order among them alone. */
  lemma {:induction false} InsertAtPrice(x: Product, xs: seq<Product>, d: Direction, v: int)
    requires SortedBy(xs, d)
    ensures AtPrice(Insert(x, xs, d), v) == if x.price == v then [x] + AtPrice(xs, v) else AtPrice(xs, v)
    decreases |xs|
  {
    if xs == [] || Key(x, d) <= Key(xs[0], d) {
      InsertInFront(x, xs, d);
      AtPriceCons(x, xs, v);
    } else {
      InsertPasses(x, xs, d);
      InsertAtPrice(x, xs[1..], d, v);
      PassEqualPrice(x, xs, Insert(x, xs[1..], d), v);
    }
  }

  /** When `x` sorts no later than the first element, it goes in front. */
  lemma InsertInFront(x: Product, xs: seq<Product>, d: Direction)
    requires SortedBy(xs, d) && (xs == [] || Key(x, d) <= Key(xs[0], d))
    ensures Insert(x, xs, d) == [x] + xs
  {
  }

  /** When `x` sorts after the first element, it is inserted into the rest. */
  lemma InsertPasses(x: Product, xs: seq<Product>, d: Direction)
    requires SortedBy(xs, d) && xs != [] && Key(xs[0], d) < Key(x, d)
    ensures Insert(x, xs, d) == [xs[0]] + Insert(x, xs[1..], d)
    ensures x.price != xs[0].price
  {
  }

  /** Passing an element of a different price: `x` stays in front of the equal-priced
      products after the passed element is put back before both lists. */
  lemma PassEqualPrice(x: Product, xs: seq<Product>, rest: seq<Product>, v: int)
    requires xs != [] && x.price != xs[0].price
    requires AtPrice(rest, v) == if x.price == v then [x] + AtPrice(xs[1..], v) else AtPrice(xs[1..], v)
    ensures AtPrice([xs[0]] + rest, v) == if x.price == v then [x] + AtPrice(xs, v) else AtPrice(xs, v)
  {
    AtPriceCons(xs[0], rest, v);
  }

  /** `AtPrice` is the filter that keeps the products priced `v`. */
  lemma {:induction false} AtPriceIsFilter(xs: seq<Product>, v: int)
    ensures AtPrice(xs, v) == Filter(xs, (p: Product) => p.price == v)
    decreases |xs|
  {
    if xs != [] {
      AtPriceIsFilter(xs[1..], v);
    }
  }

  /** `AtPrice` on a list with a known first element. */
  lemma AtPriceCons(h: Product, t: seq<Product>, v: int)
    ensures AtPrice([h] + t, v) == (if h.price == v then [h] else []) + AtPrice(t, v)
  {
    assert ([h] + t)[1..] == t;
  }

  /** Stability: restricted to any one price, the sorted list is the input list. */
  lemma {:induction false} SortIsStable(xs: seq<Product>, d: Direction, v: int)
    ensures AtPrice(Sort(xs, d), v) == AtPrice(xs, v)
    decreases |xs|
  {
    if xs != [] {
      SortIsStable(xs[1..], d, v);
      InsertAtPrice(xs[0], Sort(xs[1..], d), d, v);
    }
  }

  /** Sorting an already sorted list returns it unchanged; in particular sorting is
      idempotent. */
  lemma {:induction false} SortOfSorted(xs: seq<Product>, d: Direction)
    requires SortedBy(xs, d)
    ensures Sort(xs, d) == xs
    decreases |xs|
  {
    if xs != [] {
      assert SortedBy(xs[1..], d);
      SortOfSorted(xs[1..], d);
      assert xs == [xs[0]] + xs[1..];
    }
  }
}
