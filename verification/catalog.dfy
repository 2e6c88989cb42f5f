/** The catalog's filter/sort pipeline and filter state (src/hooks/useProducts.ts).
    The hook's fetching and loading/error flags are left out; the product list and
    the favourite ids are inputs. */
module Catalog {
  import opened Seqs
  import JsSets
  import opened Products
  import opened Text
  import opened PriceSort

  /** The state the hook starts in: the given search text, every category,
      favourites-only off and source order. Only the search text can hold a
      product back, and the order is left as it is. */
  function InitialFilters(initialSearch: string): (r: Filters)
    ensures r.search == initialSearch && r.sort == Default
    ensures forall p, favoriteIds :: Passes(p, r, favoriteIds) <==> MatchesSearch(p, initialSearch)
  {
    Filters(initialSearch, All, false, Default)
  }

  /** `setSearch`; also what the effect does when the initial search text changes. */
  function SetSearch(f: Filters, search: string): (r: Filters)
    ensures r.search == search
    ensures r.category == f.category && r.showFavorites == f.showFavorites && r.sort == f.sort
  {
    f.(search := search)
  }

  /** `setCategory` */
  function SetCategory(f: Filters, category: string): (r: Filters)
    ensures r.category == category
    ensures r.search == f.search && r.showFavorites == f.showFavorites && r.sort == f.sort
  {
    f.(category := category)
  }

  /** `setSort` */
  function SetSort(f: Filters, sort: SortOption): (r: Filters)
    ensures r.sort == sort
    ensures r.search == f.search && r.category == f.category && r.showFavorites == f.showFavorites
  {
    f.(sort := sort)
  }

  /** An empty search matches everything; otherwise the lower-cased title must
      contain the lower-cased search text. */
  predicate MatchesSearch(p: Product, search: string) {
    search == "" || Contains(Lower(p.title), Lower(search))
  }

  /** `All` matches every category; anything else must equal the category exactly. */
  predicate MatchesCategory(p: Product, category: string) {
    category == All || p.category == category
  }

  /** With favourites-only on, the product's id must be a favourite. */
  predicate MatchesFavorites(p: Product, showFavorites: bool, favoriteIds: seq<int>) {
    !showFavorites || p.id in favoriteIds
  }

  /** The three checks of the filter callback, which all have to pass. */
  predicate Passes(p: Product, f: Filters, favoriteIds: seq<int>) {
    && MatchesSearch(p, f.search)
    && MatchesCategory(p, f.category)
    && MatchesFavorites(p, f.showFavorites, favoriteIds)
  }

  /** The products that pass every check, in source order. */
  function FilterStage(products: seq<Product>, f: Filters, favoriteIds: seq<int>): seq<Product> {
    Filter(products, (p: Product) => Passes(p, f, favoriteIds))
  }

  /** The filter stage on a list with a known first product. */
  lemma FilterStageCons(h: Product, t: seq<Product>, f: Filters, favoriteIds: seq<int>)
    ensures FilterStage([h] + t, f, favoriteIds)
         == (if Passes(h, f, favoriteIds) then [h] else []) + FilterStage(t, f, favoriteIds)
  {
    assert ([h] + t)[1..] == t;
  }

  /** The ordering step: price sorts work on a copy, `Default` keeps the order. */
  function SortStage(xs: seq<Product>, sort: SortOption): (r: seq<Product>)
    ensures multiset(r) == multiset(xs)
    ensures forall p :: p in r <==> p in xs
    ensures sort == Default ==> r == xs
    ensures sort == PriceAsc ==> SortedBy(r, Ascending)
    ensures sort == PriceDesc ==> SortedBy(r, Descending)
  {
    var r := match sort
      case Default => xs
      case PriceAsc => Sort(xs, Ascending)
      case PriceDesc => Sort(xs, Descending);
    assert forall p :: p in r <==> p in multiset(r);
    assert forall p :: p in xs <==> p in multiset(xs);
    r
  }

  /** `filteredProducts`: filter, then order. */
  function FilteredProducts(products: seq<Product>, f: Filters, favoriteIds: seq<int>): (r: seq<Product>)
    ensures forall p :: p in r <==> p in products && Passes(p, f, favoriteIds)
    ensures forall p :: multiset(r)[p] == if Passes(p, f, favoriteIds) then multiset(products)[p] else 0
    ensures f.sort == Default ==> IsSubsequence(r, products)
    ensures f.sort == PriceAsc ==> forall i, j :: 0 <= i < j < |r| ==> r[i].price <= r[j].price
    ensures f.sort == PriceDesc ==> forall i, j :: 0 <= i < j < |r| ==> r[i].price >= r[j].price
  {
    SortStage(FilterStage(products, f, favoriteIds), f.sort)
  }

  /** `categories`: every product category once, in order of first appearance. */
  function Categories(products: seq<Product>): (r: seq<string>)
    ensures NoDuplicates(r)
    ensures forall c :: c in r <==> c in CategoryColumn(products)
    ensures forall c :: c in r <==> exists p :: p in products && p.category == c
    ensures forall i, j :: 0 <= i < j < |r| ==>
      FirstIndex(CategoryColumn(products), r[i]) < FirstIndex(CategoryColumn(products), r[j])
  {
    var column := CategoryColumn(products);
    var r := JsSets.ToArray(JsSets.FromArray(column));
    forall c ensures c in r <==> exists p :: p in products && p.category == c {
      if c in column {
        var k :| 0 <= k < |column| && column[k] == c;
        assert products[k] in products;
      }
    }
    r
  }

  /** `products.map((p) => p.category)` */
  function CategoryColumn(products: seq<Product>): (column: seq<string>)
    ensures |column| == |products|
    ensures forall i :: 0 <= i < |products| ==> column[i] == products[i].category
  {
    seq(|products|, i requires 0 <= i < |products| => products[i].category)
  }

  /** With sort `Default` the result is exactly the filter stage, in source order;
      a price sort returns the filter stage's products stably reordered: restricted
      to any one price, the order is the filter stage's. */
  lemma {:induction false} SortKeepsFilterOrder(products: seq<Product>, f: Filters, favoriteIds: seq<int>, v: int)
    ensures f.sort == Default ==> FilteredProducts(products, f, favoriteIds) == FilterStage(products, f, favoriteIds)
    ensures AtPrice(FilteredProducts(products, f, favoriteIds), v) == AtPrice(FilterStage(products, f, favoriteIds), v)
  {
    var filtered := FilterStage(products, f, favoriteIds);
    match f.sort
    case Default =>
    case PriceAsc => SortIsStable(filtered, Ascending, v);
    case PriceDesc => SortIsStable(filtered, Descending, v);
  }

  /** Changing only the sort option reorders the result and never changes which
      products are in it, nor how often. */
  lemma SetSortOnlyReorders(products: seq<Product>, f: Filters, favoriteIds: seq<int>, sort: SortOption)
    ensures multiset(FilteredProducts(products, SetSort(f, sort), favoriteIds))
         == multiset(FilteredProducts(products, f, favoriteIds))
  {
    var g := SetSort(f, sort);
    assert forall p :: Passes(p, g, favoriteIds) == Passes(p, f, favoriteIds);
    var a := FilteredProducts(products, g, favoriteIds);
    var b := FilteredProducts(products, f, favoriteIds);
    assert forall p :: multiset(a)[p] == multiset(b)[p];
  }

  /** With favourites-only off, the favourite ids have no influence on the result. */
  lemma FavoritesIgnoredWhenOff(products: seq<Product>, f: Filters, ids1: seq<int>, ids2: seq<int>)
    requires !f.showFavorites
    ensures FilteredProducts(products, f, ids1) == FilteredProducts(products, f, ids2)
  {
    FilterExtensional(products, (p: Product) => Passes(p, f, ids1), (p: Product) => Passes(p, f, ids2));
  }

  /** The search is case-insensitive: two search texts that lower-case alike give the
      same result. */
  lemma SearchIgnoresCase(products: seq<Product>, f: Filters, favoriteIds: seq<int>, search: string)
    requires Lower(search) == Lower(f.search)
    ensures FilteredProducts(products, SetSearch(f, search), favoriteIds) == FilteredProducts(products, f, favoriteIds)
  {
    var g := SetSearch(f, search);
    FilterExtensional(products, (p: Product) => Passes(p, g, favoriteIds), (p: Product) => Passes(p, f, favoriteIds));
  }

  /** The initial filters with an empty search show the whole catalog in source
      order, whatever the favourites are. */
  lemma InitialShowsEverything(products: seq<Product>, favoriteIds: seq<int>)
    ensures FilteredProducts(products, InitialFilters(""), favoriteIds) == products
  {
    FilterKeepsAll(products, (p: Product) => Passes(p, InitialFilters(""), favoriteIds));
  }

  /** Choosing a category from `Categories` with no other filter active never
      produces an empty list. */
  lemma ListedCategoryIsInhabited(products: seq<Product>, c: string, favoriteIds: seq<int>, sort: SortOption)
    requires c in Categories(products)
    ensures FilteredProducts(products, Filters("", c, false, sort), favoriteIds) != []
  {
    var p :| p in products && p.category == c;
    assert Passes(p, Filters("", c, false, sort), favoriteIds);
  }
}
