# Product explorer core, modelled in Dafny

This project models the pure core of a client-side product catalog browser.
The catalog view filters a product list and sorts it by price. A favourites
store keeps the ids of favourite products and persists them in browser storage.
A reveal window shows a growing prefix of a list, a page at a time. A
favourites page lists the favourite products. Two keyboard widgets choose the
sort order and the category. Everything is written as immutable datatypes and
pure functions. Each React hook becomes a state record with transition
functions. Each effect becomes an explicit step.

Modules and files:

- `seqs.dfy` holds `Wrappers` (`Option`) and `Seqs`. `Seqs` has order-preserving
  filtering, subsequences, duplicate-freedom and first occurrences.
- `jssets.dfy` holds `JsSets`, the JavaScript `Set`. It is a duplicate-free
  sequence in insertion order, the order `[...set]` lists values in: adding a
  present value does not move it, and a value deleted and added again goes to
  the end.
- `products.dfy` holds `Products` (the data types) and `Text` (ASCII
  lower-casing and substring search).
- `pricesort.dfy` holds `PriceSort`, a stable price sort in either direction.
- `catalog.dfy` holds `Catalog`, the `useProducts` hook: filters, setters,
  `filteredProducts` and `categories`.
- `favorites.dfy` holds `Favorites`, the favourites provider and its storage
  effects.
- `reveal.dfy` holds `Reveal`, the `useInfiniteScroll` window.
- `favouritespage.dfy` holds `FavouritesPage`, the favourites page's derived
  list and caption.
- `keyboard.dfy` holds `Keyboard`, the key names and JavaScript's `%`.
- `sortdropdown.dfy` holds `SortDropdown`, the sort menu's state machine.
- `categoryfilter.dfy` holds `CategoryFilter`, the category radiogroup.
- `scenarios.dfy` holds `Scenarios`, worked examples on concrete products.

Modelling choices:

- Prices are whole cents (`int`) and are only compared.
- Lower-casing covers ASCII letters only.
- The category filter is a string, compared with `"all"` exactly as the hook
  does.
- The sort dropdown's `value` prop is a raw string. This makes the lookup
  fallback and a `findIndex` result of -1 reachable.
  `SortDropdown.EveryOptionIsListed` shows that a well-typed value never needs
  the fallback.
- JavaScript's `%` truncates toward zero. It is written out as
  `Keyboard.JsRem` rather than borrowed from Dafny's Euclidean `%`.
- Browser storage is the value `Favorites.Stored`. A key that is absent or
  holds an empty string is `Missing`. A value whose load throws, because it
  does not parse or is not iterable, is `Unreadable`. A stored array of
  numbers is `Ids`.

Three behaviours of the source deserve a note, and the model keeps all three:

- Loading favourites with nothing usable in storage leaves the set as it was.
  It does not empty it. The mount effect only calls `setFavorites` when the
  stored string is non-empty and parses (src/hooks/useFavorites.tsx:29-32).
  From the initial state this still gives an empty set
  (`Favorites.FreshStartIsEmpty`).
- A toggle made before the stored ids are loaded is lost, because
  `setFavorites(new Set(parsed))` (src/hooks/useFavorites.tsx:31) overwrites
  the set. `Favorites.ToggleBeforeMountIsLost` proves this.
- `displayCount` starts at the page size even when the list is shorter
  (src/hooks/useInfiniteScroll.ts:22). Only the visible length is clamped to
  the list length (src/hooks/useInfiniteScroll.ts:30).

## Model

| member | source | states |
|---|---|---|
| `Catalog.FilteredProducts` | src/hooks/useProducts.ts:68-95 | A product is in the result iff it is in the input and passes the search, category and favourites checks. Each passing product occurs as often as in the input. `Default` keeps a subsequence of the input. `PriceAsc` gives non-decreasing prices and `PriceDesc` non-increasing ones. |
| `Catalog.SortKeepsFilterOrder` | src/hooks/useProducts.ts:88-94 | With `Default` the result is exactly the filter stage in source order. With either price sort, the products of any one price keep their filter-stage order, so the sort is stable. |
| `Catalog.SetSortOnlyReorders` | src/hooks/useProducts.ts:88-94 | Changing only the sort option never changes which products are in the result, nor how often. |
| `Catalog.FavoritesIgnoredWhenOff` | src/hooks/useProducts.ts:81-83 | With favourites-only off, any two sets of favourite ids give the same result. |
| `Catalog.SearchIgnoresCase` | src/hooks/useProducts.ts:70-75 | Two search texts that lower-case to the same string give the same result. |
| `Catalog.InitialFilters` | src/hooks/useProducts.ts:31-36 | The initial filters keep the given search text and source order. A product passes them iff it matches that search, whatever the favourites. |
| `Catalog.InitialShowsEverything` | src/hooks/useProducts.ts:31-36 | The initial filters with an empty search return the whole product list in source order, whatever the favourites. |
| `Catalog.Categories` | src/hooks/useProducts.ts:63-66 | The result has no duplicates. It holds exactly the categories some product has. They appear in order of first appearance in the product list. |
| `Catalog.ListedCategoryIsInhabited` | src/hooks/useProducts.ts:63-79 | Selecting a listed category with no search and favourites-only off never gives an empty list. |
| `Catalog.SetSearch` | src/hooks/useProducts.ts:97-99 | Replaces the search text and leaves category, favourites-only and sort unchanged. |
| `Catalog.SetCategory` | src/hooks/useProducts.ts:101-103 | Replaces the category and leaves the other three fields unchanged. |
| `Catalog.SetSort` | src/hooks/useProducts.ts:105-107 | Replaces the sort option and leaves the other three fields unchanged. |
| `Text.Lower` | src/hooks/useProducts.ts:72 | Lower-casing keeps the length and maps every character on its own: ASCII capitals to their lower-case letter, everything else unchanged. |
| `Text.Includes` | src/hooks/useProducts.ts:72 | The scan for a substring answers true exactly when the needle occurs somewhere in the text. |
| `Text.EmptyIsContained` | src/hooks/useProducts.ts:70-75 | The empty search text occurs in every title. |
| `PriceSort.Sort` | src/hooks/useProducts.ts:88-92 | The result is sorted by price in the chosen direction and is a permutation of the input. |
| `PriceSort.SortIsStable` | src/hooks/useProducts.ts:88-92 | Restricted to any one price, the sorted list equals the input list. |
| `PriceSort.SortOfSorted` | src/hooks/useProducts.ts:88-92 | Sorting a list that is already sorted returns it unchanged, so sorting twice equals sorting once. |
| `JsSets.FromArray` | src/hooks/useFavorites.tsx:31 | `new Set(array)` has no duplicates and holds exactly the array's values, ordered by first occurrence. |
| `JsSets.ToArray` | src/hooks/useFavorites.tsx:42 | Spreading a set into an array keeps its values and order, and building a set from that array gives back the same set. |
| `JsSets.FromArrayOfDistinct` | src/hooks/useFavorites.tsx:30-31 | Building a set from an array without duplicates gives back that array, in the same order. |
| `JsSets.Add` | src/hooks/useFavorites.tsx:55 | Adding keeps the set duplicate-free and adds exactly the value. An absent value is appended at the end, and the existing values keep their order. |
| `JsSets.Delete` | src/hooks/useFavorites.tsx:53 | Deleting keeps the set duplicate-free and removes exactly the value. The size drops by one iff the value was present. |
| `JsSets.DeleteAt` | src/hooks/useFavorites.tsx:53 | Deleting the value found at any position of a duplicate-free sequence removes exactly that position. |
| `JsSets.DeleteKeepsOrder` | src/hooks/useFavorites.tsx:53 | Deleting an absent value changes nothing. Deleting a present one cuts out exactly its position and keeps the rest in order. |
| `JsSets.ReAddGoesToEnd` | src/hooks/useFavorites.tsx:53-55 | A value deleted and added again ends up last, after every other value. |
| `JsSets.DeleteAfterAdd` | src/hooks/useFavorites.tsx:51-57 | Deleting a value that was just added restores the set exactly. |
| `Favorites.Init` | src/hooks/useFavorites.tsx:23-24 | The provider starts with an empty, duplicate-free set, count 0, and loading not yet finished. |
| `Favorites.IsFavorite` | src/hooks/useFavorites.tsx:61-64 | `isFavorite` holds iff the id is one of the set's values. |
| `Favorites.ToggleCount` | src/hooks/useFavorites.tsx:49-59 | Toggling a favourite lowers `favoritesCount` by one. Toggling any other id raises it by one. |
| `Favorites.Toggle` | src/hooks/useFavorites.tsx:49-59 | The toggled id becomes a favourite iff it was not one before. Every other id keeps its membership. |
| `Favorites.ToggleTwice` | src/hooks/useFavorites.tsx:49-59 | Toggling an id twice restores the set of favourites. If the id was absent, the insertion order is restored too. |
| `Favorites.Clear` | src/hooks/useFavorites.tsx:66-68 | Afterwards no id is a favourite and the count is zero, whatever the prior state. |
| `Favorites.Count` | src/hooks/useFavorites.tsx:76 | `favoritesCount` equals the number of distinct favourite ids. |
| `Favorites.Hydrate` | src/hooks/useFavorites.tsx:26-37 | Stored ids become the set, with duplicates collapsed. A missing or unreadable value leaves the set unchanged. Loading counts as finished in every case. |
| `Favorites.Persist` | src/hooks/useFavorites.tsx:39-47 | Before loading finishes, storage is untouched. Afterwards the written array reads back as the current set. |
| `Favorites.Step` | src/hooks/useFavorites.tsx:26-47 | Loading is finished after an event iff it was finished before or the event is the mount effect. While loading is unfinished, storage is untouched. Once it is finished, storage holds exactly the current set. |
| `Favorites.Run` | src/hooks/useFavorites.tsx:26-47 | After a run of events, loading is finished iff it was finished at the start or a mount event occurred. Storage is untouched while loading is unfinished. |
| `Favorites.NothingWrittenBeforeLoad` | src/hooks/useFavorites.tsx:39-47 | Any run of toggles and clears before the mount effect leaves storage untouched and the store unloaded. |
| `Favorites.StorageMirrorsAfterMount` | src/hooks/useFavorites.tsx:26-47 | From the mount effect on, after any events, storage holds exactly the current set. |
| `Favorites.NextSessionRestores` | src/hooks/useFavorites.tsx:26-47 | A new session that loads the storage an earlier session left starts with that session's favourites. |
| `Favorites.FreshStartIsEmpty` | src/hooks/useFavorites.tsx:23-37 | With nothing usable in storage, a new session ends up loaded with no favourites. |
| `Favorites.ToggleBeforeMountIsLost` | src/hooks/useFavorites.tsx:26-37 | When storage holds ids, a toggle made before the mount effect is overwritten by the stored set. |
| `Reveal.Init` | src/hooks/useInfiniteScroll.ts:22 | A fresh window shows one page: `displayCount` equals the page size. |
| `Reveal.VisibleItems` | src/hooks/useInfiniteScroll.ts:30 | The visible list is the prefix of the items whose length is the smaller of `displayCount` and the item count. |
| `Reveal.HasMore` | src/hooks/useInfiniteScroll.ts:31 | `hasMore` holds iff fewer items are visible than there are. |
| `Reveal.LoadMore` | src/hooks/useInfiniteScroll.ts:33-37 | With more to show, `displayCount` becomes the smaller of one page more and the item count. Otherwise nothing changes. The old visible list is a prefix of the new one. |
| `Reveal.PagesAfterLoads` | src/hooks/useInfiniteScroll.ts:20-37 | After `k` loads from a fresh or reset window, `min(pageSize * (k + 1), |items|)` items are visible. |
| `Reveal.LoadMorePreservesReachable` | src/hooks/useInfiniteScroll.ts:33-37 | From a window that shows one page, or more than one page but no more than the list, a load leads to another such window. |
| `Reveal.ReachableAfterLoads` | src/hooks/useInfiniteScroll.ts:22-37 | Every window reached from a fresh one by loads shows exactly one page, or more than one page but no more than the list. |
| `Reveal.LoadsOnlyGrow` | src/hooks/useInfiniteScroll.ts:30-37 | Over any number of loads, each visible list is a prefix of the next. |
| `Reveal.Reset` | src/hooks/useInfiniteScroll.ts:26-28 | A reset, or a change of items or page size, returns the window to its initial one-page state. |
| `FavouritesPage.FavoriteProducts` | src/app/favourites/page.tsx:38-48 | A product is listed iff its id is a favourite, as often as in the catalog. `Default` keeps catalog order. The price sorts order prices non-decreasing or non-increasing. |
| `FavouritesPage.SameAsCatalogPipeline` | src/app/favourites/page.tsx:38-48 | The page's list equals the catalog pipeline with no search, all categories, favourites-only on and the page's sort. |
| `FavouritesPage.ListedAtMostCount` | src/app/favourites/page.tsx:38-48 | When product ids are unique, the page never lists more products than the count of favourite ids. |
| `FavouritesPage.FirstPage` | src/app/favourites/page.tsx:50-53 | Before any load the page shows at most six products. They are the first six of the derived list, or all of it when shorter. |
| `FavouritesPage.CountLabel` | src/app/favourites/page.tsx:81 | The noun is "item" iff the count is 1, and "items" otherwise. |
| `SortDropdown.FindIndex` | src/components/SortDropdown.tsx:56 | Returns a position whose option has the given value, or -1 iff no option has it. |
| `SortDropdown.CurrentOption` | src/components/SortDropdown.tsx:37 | Returns the option whose value is `value`, or the first option, "Default", when none matches. |
| `SortDropdown.EveryOptionIsListed` | src/components/SortDropdown.tsx:12-28 | Every sort option is found under its own name, so a well-typed value never falls back. |
| `SortDropdown.HandleKeyDown` | src/components/SortDropdown.tsx:51-91 | Closed: Enter, Space and ArrowDown open the menu focused on the current value, and other keys change nothing. Open: ArrowDown maps `i` to `(i+1) mod 3` and ArrowUp to `(i+2) mod 3`. Enter or Space on a focused option emits it, closes and resets the index; with no focus they do nothing. Escape and Tab close without emitting. The index stays in `[-1, 3)`. |
| `SortDropdown.Step` | src/components/SortDropdown.tsx:39-104 | Clicking an option emits it and closes. A click outside closes. The toggle button flips `isOpen`. A value is emitted only by an option click, Enter or Space, and always with the menu closed. Hovering an option of the open menu focuses it. A click or hover on an option of a closed menu changes nothing, since the options render only while the menu is open. |
| `SortDropdown.DownUpInverse` | src/components/SortDropdown.tsx:68-75 | With an option focused, ArrowDown then ArrowUp, or the reverse, returns to the same index. |
| `SortDropdown.OpenThenConfirmKeepsValue` | src/components/SortDropdown.tsx:52-85 | Opening with Enter and confirming with Enter emits the current value and closes the menu. |
| `SortDropdown.Run` | src/components/SortDropdown.tsx:35-127 | Every run of events keeps the focused index within -1 and the last option. |
| `CategoryFilter.AllCategories` | src/components/CategoryFilter.tsx:36 | The choices are "all" followed by the categories, one longer than the categories. |
| `CategoryFilter.HandleKeyDown` | src/components/CategoryFilter.tsx:38-72 | Only the arrows, Home and End are handled. Right/Down go to the next index, wrapping to 0. Left/Up go to the previous index, wrapping to the last. Home selects "all" at 0 and End the last index. Every handled key selects the choice at the new, in-range focus. |
| `CategoryFilter.NextIndex` | src/components/CategoryFilter.tsx:49 | `(i + 1) % n` is the next index, wrapping from the last to 0. |
| `CategoryFilter.PrevIndex` | src/components/CategoryFilter.tsx:54 | `(i - 1 + n) % n` is the previous index, wrapping from 0 to the last. |
| `CategoryFilter.ArrowsAreInverse` | src/components/CategoryFilter.tsx:46-55 | Right then Left, or Left then Right, returns to the same button. |
| `CategoryFilter.KeyboardSelectsListedChoice` | src/components/CategoryFilter.tsx:36-69 | Over the catalog's categories, every keyboard selection is "all" or a category some product has. Alone it never filters a non-empty catalog down to nothing. |
| `CategoryFilter.DisplayLabel` | src/components/CategoryFilter.tsx:20-26 | A known category shows its mapped label. Any other category shows its raw string, so the lookup never fails. |
| `Keyboard.JsRem` | src/components/CategoryFilter.tsx:49-54 | The remainder has the dividend's sign and is smaller in magnitude than the divisor. The dividend equals truncated quotient times divisor plus remainder. |
| `Scenarios.SearchExample` | src/hooks/useProducts.ts:70-75 | Searching "jacket" over "Men's Cotton Jacket" and "Slim Fit T-Shirt" keeps only the jacket. |
| `Scenarios.ScenarioExample` | src/hooks/useProducts.ts:68-95 | Category "a" with ascending price over products priced 20 ("a"), 5 ("b") and 10 ("a") drops the "b" product and puts the 10 before the 20. |

## Left out

- Fetching products from the remote API, with its loading and error flags and the mapping of HTTP status to an error. These are network I/O. The product list is an input.
- Reading and writing browser storage, and JSON parsing. These are browser I/O. Storage is the value `Favorites.Stored`. `Ids` stands for a stored array of numbers, and `Unreadable` for a value whose load throws. Other JSON values are outside the model: `null` loads as an empty set, and a JSON string loads as a set of its characters.
- A storage write that throws, for example when the quota is exceeded. The source only logs it, and the model always writes.
- The `IntersectionObserver` that calls `loadMore`, with its margins, thresholds and cleanup. These are driven by the viewport and by timing. Only `LoadMore`'s guard is kept. A second trigger before a re-render sees a stale `hasMore`, and this is not modelled.
- React scheduling. Effects, memo dependencies, context and render timing are not modelled. An effect's work is an explicit step. For one render after the items change, the window's `displayCount` is still stale, and this is not modelled.
- Focus moves, `preventDefault`, and the category buttons' DOM lookup that returns early when the container is missing. These are DOM side effects. The focused index is kept as the `focus` field of a move.
- `CategoryFilter.DisplayLabel`: treats the label table as holding only its own five keys. A JavaScript object lookup also finds inherited names such as `"constructor"`.
- The default page size of 8 (src/hooks/useInfiniteScroll.ts:20). Both call sites pass a size, so `Reveal.Init` always takes one.
- Negative page sizes. `Window.pageSize` is a `nat`, and both call sites pass 8 and 6.
- `SortDropdown.HandleKeyDown`: requires a focused index in `[-1, 3)`. The component keeps that range on its own, as `SortDropdown.Run` shows.
- `CategoryFilter.HandleKeyDown`: requires the current index to be a button's index. The component only passes the index of the rendered button.
- The presentation layer: markup, styling, icons, the header, the product grid, cards, skeletons, empty and error states, and the other pages.
- Floating-point prices and NaN. Unicode case mapping beyond ASCII.
