/** The catalog's data model (src/types/product.ts). Prices are whole cents and are
    only ever compared; the floating-point rating is carried along untouched. */
module Products {

  datatype Rating = Rating(rate: real, count: nat)

  datatype Product = Product(
    id: int,
    title: string,
    price: int,
    description: string,
    category: string,
    image: string,
    rating: Rating)

  /** The three orderings a product list can be shown in. */
  datatype SortOption = Default | PriceAsc | PriceDesc {

    /** The string the option travels as in props and events. */
    function Name(): string {
      match this
      case Default => "default"
      case PriceAsc => "price-asc"
      case PriceDesc => "price-desc"
    }
  }

  /** The category selection that disables category filtering. */
  const All: string := "all"

  /** The catalog view's filter state. `category` is either `All` or a category
      string, compared as a plain string exactly as the view does. */
  datatype Filters = Filters(
    search: string,
    category: string,
    showFavorites: bool,
    sort: SortOption)
}

/** Case-insensitive substring search over titles. Lower-casing covers ASCII
    letters only. */
module Text {

  function LowerChar(c: char): char {
    if 'A' <= c <= 'Z' then (c as int + 32) as char else c
  }

  /** `String.prototype.toLowerCase`, restricted to ASCII. */
  function Lower(s: string): (r: string)
    ensures |r| == |s|
    ensures forall i {:trigger r[i]} :: 0 <= i < |s| ==> r[i] == LowerChar(s[i])
  {
    if s == [] then [] else [LowerChar(s[0])] + Lower(s[1..])
  }

  /** `needle` occurs in `hay` starting at position `i`. */
  predicate OccursAt(hay: string, needle: string, i: int) {
    0 <= i && i + |needle| <= |hay| && hay[i..i + |needle|] == needle
  }

  /** `needle` occurs in `hay` as a contiguous block. */
  predicate Contains(hay: string, needle: string) {
    exists i | 0 <= i <= |hay| :: OccursAt(hay, needle, i)
  }

  /** `hay.includes(needle)`: a left-to-right scan of every start position. */
  method Includes(hay: string, needle: string) returns (found: bool)
    ensures found <==> Contains(hay, needle)
  {
    var i := 0;
    while i + |needle| <= |hay|
      invariant 0 <= i
      invariant forall k :: 0 <= k < i ==> !OccursAt(hay, needle, k)
      decreases |hay| - i
    {
      if hay[i..i + |needle|] == needle {
        assert OccursAt(hay, needle, i);
        return true;
      }
      i := i + 1;
    }
    return false;
  }

  /** The empty string occurs in every string, so an empty search matches every title. */
  lemma EmptyIsContained(hay: string)
    ensures Contains(hay, "")
  {
    assert OccursAt(hay, "", 0);
  }
}
