/** The category radiogroup (src/components/CategoryFilter.tsx): the choices, the
    arrow/Home/End navigation between them, and each choice's display label. */
module CategoryFilter {
  import opened Wrappers
  import opened Products
  import opened Keyboard
  import Catalog

  /** `allCategories`: "all" followed by the given categories. */
  function AllCategories(categories: seq<string>): (r: seq<string>)
    ensures |r| == |categories| + 1
    ensures r[0] == All && r[1..] == categories
  {
    [All] + categories
  }

  /** A handled key moves focus to `focus` and selects the category there. */
  datatype Move = Move(focus: nat, selected: string)

  /** `(currentIndex + 1) % n`: the next button, wrapping from the last to the first. */
  function NextIndex(i: int, n: int): (r: int)
    requires 0 <= i < n
    ensures 0 <= r < n
    ensures r == if i == n - 1 then 0 else i + 1
  {
    var r := JsRem(i + 1, n);
    assert r == if i == n - 1 then 0 else i + 1 by {
      if i == n - 1 {
        assert i + 1 == 1 * n + 0;
      } else {
        assert i + 1 == 0 * n + (i + 1);
      }
    }
    r
  }

  /** `(currentIndex - 1 + n) % n`: the previous button, wrapping from the first to
      the last. */
  function PrevIndex(i: int, n: int): (r: int)
    requires 0 <= i < n
    ensures 0 <= r < n
    ensures r == if i == 0 then n - 1 else i - 1
  {
    var r := JsRem(i - 1 + n, n);
    assert r == if i == 0 then n - 1 else i - 1 by {
      if i == 0 {
        assert i - 1 + n == 0 * n + (n - 1);
      } else {
        assert i - 1 + n == 1 * n + (i - 1);
      }
    }
    r
  }

  /** `handleKeyDown` on the button at `currentIndex`: arrows move cyclically, Home
      and End jump to the ends, and any other key is ignored. */
  function HandleKeyDown(categories: seq<string>, currentIndex: int, key: Key): (r: Option<Move>)
    requires 0 <= currentIndex < |categories| + 1
    ensures r.Some? <==> key in {ArrowRight, ArrowDown, ArrowLeft, ArrowUp, Home, End}
    ensures r.Some? ==> r.value.focus < |categories| + 1
    ensures r.Some? ==> r.value.selected == AllCategories(categories)[r.value.focus]
    ensures key.ArrowRight? || key.ArrowDown? ==>
      r.value.focus == if currentIndex == |categories| then 0 else currentIndex + 1
    ensures key.ArrowLeft? || key.ArrowUp? ==>
      r.value.focus == if currentIndex == 0 then |categories| else currentIndex - 1
    ensures key.Home? ==> r == Some(Move(0, All))
    ensures key.End? ==> r.value.focus == |categories|
  {
    var choices := AllCategories(categories);
    var n := |choices|;
    var newIndex :=
      match key
      case ArrowRight => NextIndex(currentIndex, n)
      case ArrowDown => NextIndex(currentIndex, n)
      case ArrowLeft => PrevIndex(currentIndex, n)
      case ArrowUp => PrevIndex(currentIndex, n)
      case Home => 0
      case End => n - 1
      case _ => -1;
    if newIndex < 0 then None else Some(Move(newIndex, choices[newIndex]))
  }

  /** Right then left, or left then right, comes back to the same button. */
  lemma ArrowsAreInverse(categories: seq<string>, i: int)
    requires 0 <= i < |categories| + 1
    ensures HandleKeyDown(categories, HandleKeyDown(categories, i, ArrowRight).value.focus, ArrowLeft).value.focus == i
    ensures HandleKeyDown(categories, HandleKeyDown(categories, i, ArrowLeft).value.focus, ArrowRight).value.focus == i
  {
  }

  /** Every selection the keyboard makes over the catalog's categories is "all" or a
      category some product has, so it never filters the catalog down to nothing
      on its own. */
  lemma KeyboardSelectsListedChoice(products: seq<Product>, currentIndex: int, key: Key, favoriteIds: seq<int>, sort: SortOption)
    requires 0 <= currentIndex < |Catalog.Categories(products)| + 1
    requires HandleKeyDown(Catalog.Categories(products), currentIndex, key).Some?
    ensures var c := HandleKeyDown(Catalog.Categories(products), currentIndex, key).value.selected;
      (c == All || c in Catalog.Categories(products)) &&
      (products != [] ==> Catalog.FilteredProducts(products, Filters("", c, false, sort), favoriteIds) != [])
  {
    var categories := Catalog.Categories(products);
    var m := HandleKeyDown(categories, currentIndex, key).value;
    if m.focus > 0 {
      assert m.selected == categories[m.focus - 1];
      Catalog.ListedCategoryIsInhabited(products, m.selected, favoriteIds, sort);
    } else if products != [] {
      assert Catalog.Passes(products[0], Filters("", All, false, sort), favoriteIds);
    }
  }

  /** `categoryLabels` */
  const CategoryLabels: map<string, string> := map[
    "all" := "All",
    "electronics" := "Electronics",
    "jewelery" := "Jewelry",
    "men's clothing" := "Men's",
    "women's clothing" := "Women's"
  ]

  /** `categoryLabels[category] || category`: the known label, or the raw category
      string for a category without one. */
  function DisplayLabel(category: string): (r: string)
    ensures category in CategoryLabels ==> r == CategoryLabels[category]
    ensures category !in CategoryLabels ==> r == category
  {
    if category in CategoryLabels && CategoryLabels[category] != "" then CategoryLabels[category]
    else category
  }
}
