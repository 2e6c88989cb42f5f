/** Worked examples of the catalog pipeline on concrete products. */
module Scenarios {
  import opened Products
  import opened Text
  import opened PriceSort
  import opened Catalog

  /** Searching for "jacket" over a jacket and a T-shirt keeps only the jacket:
      the match ignores case. */
  lemma SearchExample(jacket: Product, shirt: Product, favoriteIds: seq<int>)
    requires jacket.title == "Men's Cotton Jacket" && shirt.title == "Slim Fit T-Shirt"
    ensures FilteredProducts([jacket, shirt], InitialFilters("jacket"), favoriteIds) == [jacket]
  {
    var f := InitialFilters("jacket");
    JacketMatches(jacket);
    ShirtDoesNotMatch(shirt);
    SearchOnly(jacket, f, favoriteIds);
    SearchOnly(shirt, f, favoriteIds);
    FilterStagePair(jacket, shirt, f, favoriteIds);
  }

  /** With every category and favourites-only off, a product passes exactly when it
      matches the search. */
  lemma SearchOnly(p: Product, f: Filters, favoriteIds: seq<int>)
    requires f.category == All && !f.showFavorites
    ensures Passes(p, f, favoriteIds) <==> MatchesSearch(p, f.search)
  {
  }

  /** The filter stage over two products. */
  lemma FilterStagePair(a: Product, b: Product, f: Filters, favoriteIds: seq<int>)
    ensures FilterStage([a, b], f, favoriteIds)
         == (if Passes(a, f, favoriteIds) then [a] else []) + (if Passes(b, f, favoriteIds) then [b] else [])
  {
    FilterStageCons(b, [], f, favoriteIds);
    assert [b] + [] == [b];
    FilterStageCons(a, [b], f, favoriteIds);
    assert [a] + [b] == [a, b];
  }

  /** "jacket" lower-cases to itself. */
  lemma NeedleIsLower()
    ensures Lower("jacket") == "jacket"
  {
    var needle := Lower("jacket");
    assert forall k :: 0 <= k < 6 ==> needle[k] == LowerChar("jacket"[k]);
  }

  /** Lower-cased, "Men's Cotton Jacket" holds "jacket" at positions 13 to 18. */
  lemma JacketLowered(t: string)
    requires t == "Men's Cotton Jacket"
    ensures Lower(t)[13..19] == "jacket"
  {
    var lj := Lower(t);
    assert t[13] == 'J' && t[14] == 'a' && t[15] == 'c' && t[16] == 'k' && t[17] == 'e' && t[18] == 't';
    assert lj[13] == LowerChar(t[13]) && lj[14] == LowerChar(t[14]) && lj[15] == LowerChar(t[15]);
    assert lj[16] == LowerChar(t[16]) && lj[17] == LowerChar(t[17]) && lj[18] == LowerChar(t[18]);
    var w := lj[13..19];
    assert w[0] == 'j' && w[1] == 'a' && w[2] == 'c' && w[3] == 'k' && w[4] == 'e' && w[5] == 't';
  }

  /** "jacket" occurs, lower-cased, in "Men's Cotton Jacket" at position 13. */
  lemma JacketMatches(jacket: Product)
    requires jacket.title == "Men's Cotton Jacket"
    ensures MatchesSearch(jacket, "jacket")
  {
    NeedleIsLower();
    JacketLowered(jacket.title);
    assert OccursAt(Lower(jacket.title), Lower("jacket"), 13);
  }

  /** "Slim Fit T-Shirt" has no "j" in any case, so "jacket" does not occur in it. */
  lemma ShirtDoesNotMatch(shirt: Product)
    requires shirt.title == "Slim Fit T-Shirt"
    ensures !MatchesSearch(shirt, "jacket")
  {
    NeedleIsLower();
    var needle := Lower("jacket");
    var ls := Lower(shirt.title);
    forall k | 0 <= k < |ls| ensures ls[k] != 'j' {
      assert ls[k] == LowerChar(shirt.title[k]);
      assert shirt.title[k] != 'j' && shirt.title[k] != 'J';
    }
    forall i | 0 <= i <= |ls| ensures !OccursAt(ls, needle, i) {
    }
  }

  /** Category "a" sorted by ascending price over three products: the two "a"
      products, reordered so the cheaper comes first. */
  lemma ScenarioExample(p1: Product, p2: Product, p3: Product, favoriteIds: seq<int>)
    requires p1.id == 1 && p1.price == 20 && p1.category == "a" && p1.title == ""
    requires p2.id == 2 && p2.price == 5 && p2.category == "b" && p2.title == ""
    requires p3.id == 3 && p3.price == 10 && p3.category == "a" && p3.title == ""
    ensures FilteredProducts([p1, p2, p3], Filters("", "a", false, PriceAsc), favoriteIds) == [p3, p1]
  {
    var f := Filters("", "a", false, PriceAsc);
    ScenarioFilterStage(p1, p2, p3, favoriteIds);
    ScenarioSort(p1, p3);
    assert FilteredProducts([p1, p2, p3], f, favoriteIds) == SortStage(FilterStage([p1, p2, p3], f, favoriteIds), PriceAsc);
  }

  /** With no search and favourites-only off, a product passes exactly when it is in
      the chosen category. */
  lemma CategoryOnly(p: Product, f: Filters, favoriteIds: seq<int>)
    requires f.search == "" && !f.showFavorites && f.category != All
    ensures Passes(p, f, favoriteIds) <==> p.category == f.category
  {
  }

  lemma ScenarioFilterStage(p1: Product, p2: Product, p3: Product, favoriteIds: seq<int>)
    requires p1.category == "a" && p1.title == ""
    requires p2.category == "b"
    requires p3.category == "a" && p3.title == ""
    ensures FilterStage([p1, p2, p3], Filters("", "a", false, PriceAsc), favoriteIds) == [p1, p3]
  {
    var f := Filters("", "a", false, PriceAsc);
    var tail := [p2, p3];
    ScenarioFilterTail(p2, p3, favoriteIds);
    CategoryOnly(p1, f, favoriteIds);
    FilterStageCons(p1, tail, f, favoriteIds);
    assert [p1] + tail == [p1, p2, p3];
    assert [p1] + [p3] == [p1, p3];
  }

  lemma ScenarioFilterTail(p2: Product, p3: Product, favoriteIds: seq<int>)
    requires p2.category == "b"
    requires p3.category == "a" && p3.title == ""
    ensures FilterStage([p2, p3], Filters("", "a", false, PriceAsc), favoriteIds) == [p3]
  {
    var f := Filters("", "a", false, PriceAsc);
    CategoryOnly(p2, f, favoriteIds);
    CategoryOnly(p3, f, favoriteIds);
    FilterStagePair(p2, p3, f, favoriteIds);
  }

  /** The more expensive product moves behind the cheaper one. */
  lemma ScenarioSort(p1: Product, p3: Product)
    requires p1.price == 20 && p3.price == 10
    ensures Sort([p1, p3], Ascending) == [p3, p1]
  {
    assert Sort([p3], Ascending) == [p3];
    assert [p1, p3][1..] == [p3];
    assert Insert(p1, [], Ascending) == [p1];
    assert Insert(p1, [p3], Ascending) == [p3] + Insert(p1, [], Ascending);
  }
}
