/** The favourites page's derived list (src/app/favourites/page.tsx): the catalog's
    favourite products, optionally price-sorted, revealed six at a time, under a
    caption counting the saved ids. */
module FavouritesPage {
  import opened Seqs
  import JsSets
  import opened Products
  import opened PriceSort
  import opened Catalog
  import opened Reveal

  /** The page's reveal page size. */
  const PageSize: nat := 6

  /** `favoriteProducts`: the products whose id is a favourite, in source order or
      sorted by price. */
  function FavoriteProducts(products: seq<Product>, favorites: seq<int>, sortBy: SortOption): (r: seq<Product>)
    ensures forall p :: p in r <==> p in products && p.id in favorites
    ensures forall p :: multiset(r)[p] == if p.id in favorites then multiset(products)[p] else 0
    ensures sortBy == Default ==> IsSubsequence(r, products)
    ensures sortBy == PriceAsc ==> SortedBy(r, Ascending)
    ensures sortBy == PriceDesc ==> SortedBy(r, Descending)
  {
    SortStage(Filter(products, (p: Product) => p.id in favorites), sortBy)
  }

  /** What the page shows before any further page is loaded: at most six favourite
      products, the first ones of the derived list. */
  function FirstPage(products: seq<Product>, favorites: seq<int>, sortBy: SortOption): (r: seq<Product>)
    ensures |r| <= PageSize
    ensures r <= FavoriteProducts(products, favorites, sortBy)
    ensures |r| == PageSize || r == FavoriteProducts(products, favorites, sortBy)
  {
    VisibleItems(FavoriteProducts(products, favorites, sortBy), Init(PageSize))
  }

  /** The caption's noun: singular for exactly one saved id. */
  function CountLabel(count: int): (r: string)
    ensures r == "item" <==> count == 1
    ensures r == "items" <==> count != 1
  {
    if count == 1 then "item" else "items"
  }

  /** The page's list is the catalog pipeline with no search, every category,
      favourites-only on and the page's sort option. */
  lemma SameAsCatalogPipeline(products: seq<Product>, favorites: seq<int>, sortBy: SortOption)
    ensures FavoriteProducts(products, favorites, sortBy)
         == FilteredProducts(products, Filters("", All, true, sortBy), favorites)
  {
    var f := Filters("", All, true, sortBy);
    FilterExtensional(products, (p: Product) => p.id in favorites, (p: Product) => Passes(p, f, favorites));
  }

  /** No two products share an id. */
  predicate UniqueIds(products: seq<Product>) {
    forall i, j :: 0 <= i < j < |products| ==> products[i].id != products[j].id
  }

  /** When product ids are unique, the page lists no more products than the caption
      counts: ids of favourites missing from the catalog are counted but not shown. */
  lemma ListedAtMostCount(products: seq<Product>, favorites: seq<int>, sortBy: SortOption)
    requires UniqueIds(products) && NoDuplicates(favorites)
    ensures |FavoriteProducts(products, favorites, sortBy)| <= |favorites|
  {
    var ids := Elements(favorites);
    FilterExtensional(products, (p: Product) => p.id in favorites, (p: Product) => p.id in ids);
    SelectedByIdBound(products, ids);
    JsSets.SizeIsCardinality(favorites);
    var filtered := Filter(products, (p: Product) => p.id in favorites);
    assert |FavoriteProducts(products, favorites, sortBy)| == |filtered| by {
      assert multiset(SortStage(filtered, sortBy)) == multiset(filtered);
    }
  }

  /** Selecting products by membership of their unique ids in a set yields at most as
      many products as the set has ids. */
  lemma {:induction false} SelectedByIdBound(products: seq<Product>, ids: set<int>)
    requires UniqueIds(products)
    ensures |Filter(products, (p: Product) => p.id in ids)| <= |ids|
    decreases |products|
  {
    if products != [] {
      var head := products[0];
      var tail := products[1..];
      assert UniqueIds(tail) by {
        forall i, j | 0 <= i < j < |tail| ensures tail[i].id != tail[j].id {
          assert tail[i] == products[i + 1] && tail[j] == products[j + 1];
        }
      }
      if head.id in ids {
        var rest := ids - {head.id};
        forall i | 0 <= i < |tail| ensures (tail[i].id in ids) == (tail[i].id in rest) {
          assert tail[i] == products[i + 1];
        }
        FilterExtensional(tail, (p: Product) => p.id in ids, (p: Product) => p.id in rest);
        SelectedByIdBound(tail, rest);
        assert |rest| == |ids| - 1;
      } else {
        SelectedByIdBound(tail, ids);
      }
    }
  }
}
