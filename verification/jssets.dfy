/** The JavaScript `Set` the source uses for favourite ids and for de-duplicating
    categories: a duplicate-free sequence kept in insertion order, which is the
    order spreading a `Set` into an array (`[...set]`) yields. Adding a present
    value does not move it, and a value deleted and added again goes to the end. */
module JsSets {
  import opened Seqs

  /** `set.add(x)`: appends `x` unless it is already present. */
  function Add<T(==,!new)>(s: seq<T>, x: T): (r: seq<T>)
    requires NoDuplicates(s)
    ensures NoDuplicates(r)
    ensures forall y :: y in r <==> y in s || y == x
    ensures |r| == if x in s then |s| else |s| + 1
    ensures r[..|s|] == s
  {
    if x in s then s else s + [x]
  }

  /** `set.delete(x)`: removes `x` if present, keeping the order of the rest
      (`DeleteKeepsOrder`). */
  function Delete<T(==,!new)>(s: seq<T>, x: T): (r: seq<T>)
    requires NoDuplicates(s)
    ensures NoDuplicates(r)
    ensures forall y :: y in r <==> y in s && y != x
    ensures |r| == if x in s then |s| - 1 else |s|
  {
    if s == [] then []
    else
      NoDuplicatesTail(s);
      if s[0] == x then s[1..]
      else
        var rest := Delete(s[1..], x);
        assert s == [s[0]] + s[1..];
        [s[0]] + rest
  }

  /** Deleting an absent value changes nothing; deleting a present one cuts out
      exactly its position and leaves the values before and after it in order. */
  lemma DeleteKeepsOrder<T(!new)>(s: seq<T>, x: T)
    requires NoDuplicates(s)
    ensures x !in s ==> Delete(s, x) == s
    ensures x in s ==> Delete(s, x) == s[..FirstIndex(s, x)] + s[FirstIndex(s, x) + 1..]
  {
    if x in s {
      DeleteAt(s, x, FirstIndex(s, x));
    } else {
      DeleteAbsent(s, x);
    }
  }

  /** Deleting the value found at position `i` removes that position. */
  lemma {:induction false} DeleteAt<T(!new)>(s: seq<T>, x: T, i: nat)
    requires NoDuplicates(s)
    requires i < |s| && s[i] == x
    ensures Delete(s, x) == s[..i] + s[i + 1..]
    decreases i
  {
    if i == 0 {
      assert s[..0] + s[1..] == s[1..];
    } else {
      var tail := s[1..];
      DeleteUnfold(s, x, i);
      DeleteAt(tail, x, i - 1);
      SkipInTail(s, i - 1);
    }
  }

  /** Past a head that differs from `x`, deletion keeps the head and works on the tail. */
  lemma DeleteUnfold<T(!new)>(s: seq<T>, x: T, i: nat)
    requires NoDuplicates(s)
    requires 0 < i < |s| && s[i] == x
    ensures NoDuplicates(s[1..])
    ensures Delete(s, x) == [s[0]] + Delete(s[1..], x)
  {
    assert s[0] != s[i];
    NoDuplicatesTail(s);
  }

  /** Deleting a value that is not there gives back the same sequence. */
  lemma {:induction false} DeleteAbsent<T(!new)>(s: seq<T>, x: T)
    requires NoDuplicates(s)
    requires x !in s
    ensures Delete(s, x) == s
    decreases |s|
  {
    if s != [] {
      NoDuplicatesTail(s);
      assert x !in s[1..];
      DeleteAbsent(s[1..], x);
      assert s == [s[0]] + s[1..];
    }
  }

  /** Skipping position `k` of the tail is skipping position `k + 1` of the whole. */
  lemma SkipInTail<T>(s: seq<T>, k: nat)
    requires k + 1 < |s|
    ensures s[..k + 1] + s[k + 2..] == [s[0]] + (s[1..][..k] + s[1..][k + 1..])
  {
    assert s[..k + 1] == [s[0]] + s[1..][..k];
    assert s[k + 2..] == s[1..][k + 1..];
  }

  /** A value deleted and added again goes to the end, after every other value. */
  lemma ReAddGoesToEnd<T(!new)>(s: seq<T>, x: T)
    requires NoDuplicates(s) && x in s
    ensures Add(Delete(s, x), x) == Delete(s, x) + [x]
  {
  }

  /** Deleting a value that was just added restores the set, order included. */
  lemma {:induction false} DeleteAfterAdd<T(!new)>(s: seq<T>, x: T)
    requires NoDuplicates(s)
    requires x !in s
    ensures Delete(Add(s, x), x) == s
    decreases |s|
  {
    if s != [] {
      NoDuplicatesTail(s);
      DeleteAfterAdd(s[1..], x);
      var added := Add(s, x);
      assert added == s + [x];
      assert added[0] == s[0] != x;
      assert added[1..] == Add(s[1..], x);
    }
  }

  /** `new Set(array)`: adds the array's values one by one, so duplicates collapse
      onto their first occurrence. */
  function FromArray<T(==,!new)>(a: seq<T>): (r: seq<T>)
    ensures NoDuplicates(r)
    ensures forall x :: x in r <==> x in a
    ensures forall i, j :: 0 <= i < j < |r| ==> FirstIndex(a, r[i]) < FirstIndex(a, r[j])
    decreases |a|
  {
    if a == [] then []
    else
      var p := a[..|a| - 1];
      var last := a[|a| - 1];
      var rp := FromArray(p);
      assert a == p + [last];
      AddKeepsFirstSeenOrder(p, last, rp);
      Add(rp, last)
  }

  /** Appending an array element to the set built from the elements before it keeps
      the set ordered by first occurrence in the longer array. */
  lemma AddKeepsFirstSeenOrder<T(!new)>(p: seq<T>, last: T, rp: seq<T>)
    requires NoDuplicates(rp)
    requires forall x :: x in rp <==> x in p
    requires forall i, j :: 0 <= i < j < |rp| ==> FirstIndex(p, rp[i]) < FirstIndex(p, rp[j])
    ensures forall i, j :: 0 <= i < j < |Add(rp, last)| ==>
      FirstIndex(p + [last], Add(rp, last)[i]) < FirstIndex(p + [last], Add(rp, last)[j])
  {
    var a := p + [last];
    forall y | y in p ensures FirstIndex(a, y) == FirstIndex(p, y) {
      FirstIndexAppend(p, last, y);
    }
    if last !in p {
      assert FirstIndex(a, last) == |p|;
      forall i | 0 <= i < |rp| ensures FirstIndex(a, rp[i]) < |p| {
        assert rp[i] in p;
      }
    }
  }

  /** `[...set]`: the values in insertion order. Building a set from that array
      again gives back the same set, in the same order. */
  function ToArray<T(==,!new)>(s: seq<T>): (r: seq<T>)
    requires NoDuplicates(s)
    ensures NoDuplicates(r) && |r| == |s|
    ensures forall x :: x in r <==> x in s
    ensures FromArray(r) == s
  {
    FromArrayOfDistinct(s);
    s
  }

  /** `new Set(array)` over an array without duplicates keeps every element in
      place. */
  lemma {:induction false} FromArrayOfDistinct<T(!new)>(s: seq<T>)
    requires NoDuplicates(s)
    ensures FromArray(s) == s
    decreases |s|
  {
    if s != [] {
      var p := s[..|s| - 1];
      var last := s[|s| - 1];
      NoDuplicatesInit(s);
      FromArrayOfDistinct(p);
      assert FromArray(s) == Add(FromArray(p), last);
      SplitLast(s);
      assert Add(p, last) == p + [last];
    }
  }

  /** A set's size equals the number of distinct values it holds. */
  lemma SizeIsCardinality<T(!new)>(s: seq<T>)
    requires NoDuplicates(s)
    ensures |s| == |Elements(s)|
  {
    DistinctCardinality(s);
  }
}
