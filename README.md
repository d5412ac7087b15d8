# MicroMarketplace core in Dafny

A model of the three pieces of MicroMarketplace whose behaviour can be stated
precisely, with proofs of what they promise:

- **The page-button strip** under the catalogue (`Pagination` component,
  `pagination.dfy`). `GetPageNumbers` is a method that runs the component's two
  loops. It is proved equal to the function `PageList`, which keeps page 1, the
  last page and every page within `Delta = 2` of the current page, fills a
  single missing page, and collapses a wider gap to one `'...'`. The lemmas
  prove ordering, range, coverage, gap filling and the nine-entry bound of that
  list. `Render` models the whole component: it shows nothing for one page or
  fewer, and it fixes which of the Prev, Next and page buttons are disabled and
  which page each one requests.
- **The product catalogue** (`product.controller.js` over the `Product` schema,
  `catalog.dfy`). The collection is a `seq<Product>`.
  - `GetProducts` selects products by a case-insensitive title match, sorts them
    newest first, cuts out page `page` of `limit` items and reports
    `totalPages = ceil(count / limit)`. The lemmas prove that pages
    1..totalPages together list every match exactly once and that later pages
    are empty.
  - `GetProductById` gives 404 "Product not found" for an unknown id and 500 for
    an id that is not an ObjectId. Ids are cast to ObjectIds, so the case of
    their hex digits does not matter.
  - `ProductStore.CreateProduct` validates the schema's required paths and a
    client-sent `_id`. It rejects an invalid body or an `_id` that is already
    stored (400); otherwise it appends the record (201).
- **Favorites** (`favorite.controller.js`, `favorites.dfy`). A `User` object
  holds its `favorites: seq<string>` of product ids. `AddFavorite` appends an id
  that is absent. `RemoveFavorite` replaces the list by its entries other than
  the id. `GetFavorites` returns the list resolved to products. Both mutating
  handlers answer 404 "User not found" for a missing user and change nothing.
  The functions `Added` and `Removed` carry the list properties: no duplicates,
  order kept, idempotence, and add-then-remove restores the list.

`common.dfy` holds `Option`, the `Response` type (status plus JSON, message or
database error), `IsSubsequence` and `Min`.

Behaviour the model takes from the code:
- An id that is not an ObjectId makes `findById` throw a cast error, and the
  catch block answers 500, not 404.
- `createProduct` accepts any numeric price, zero and negative ones included.
  It sets no default image.
- When nothing matches, `totalPages` is 0.
- The server does not trim the search term.
- Mongoose runs `sort`, then `skip`, then `limit`, whatever order the calls
  are chained in.

## Model

| member | source | states |
|---|---|---|
| `Pagination.GetPageNumbers` | frontend/src/components/common/Pagination.jsx:14-44 | the two loops (keep pages, then insert fillers and `'...'`) return exactly `PageList(currentPage, totalPages)` |
| `Pagination.KeptUpToMembers` | frontend/src/components/common/Pagination.jsx:20-29 | after testing 1..n the first loop holds exactly the pages that are first, last or within `Delta` of the current page, in increasing order |
| `Pagination.KeptSpan` | frontend/src/components/common/Pagination.jsx:15-29 | with two or more pages the kept pages are 1, the run `max(2, c-2)..min(t-1, c+2)`, and t |
| `Pagination.WithDotsShaped` | frontend/src/components/common/Pagination.jsx:31-41 | walking an increasing page list gives a strip that starts and ends on its first and last pages, whose neighbouring pages are consecutive, and whose every `'...'` stands between pages at least 3 apart |
| `Pagination.WithDotsKeeps` | frontend/src/components/common/Pagination.jsx:31-41 | every kept page is pushed into the strip |
| `Pagination.WithDotsShows` | frontend/src/components/common/Pagination.jsx:31-41 | every page in the strip was kept or is the single missing page between two kept pages |
| `Pagination.WithDotsFills` | frontend/src/components/common/Pagination.jsx:33-34 | when exactly one page is missing between two kept pages, that page is shown instead of `'...'` |
| `Pagination.PageListShape` | frontend/src/components/common/Pagination.jsx:20-41 | the strip starts with page 1, ends with the last page, shows consecutive numbers side by side, and uses `'...'` only for gaps of two or more pages |
| `Pagination.PageListOrdered` | frontend/src/components/common/Pagination.jsx:20-41 | page numbers strictly increase (so there are no duplicates) and lie in 1..totalPages |
| `Pagination.PageListDots` | frontend/src/components/common/Pagination.jsx:31-41 | `'...'` is never first, never last and never next to another `'...'` |
| `Pagination.PageListMembers` | frontend/src/components/common/Pagination.jsx:20-41 | page i is shown if and only if it is kept, or it is the one page missing between two kept pages |
| `Pagination.PageListWindow` | frontend/src/components/common/Pagination.jsx:15-29 | every page in 1..totalPages within 2 of the current page is shown |
| `Pagination.PageListCovers` | frontend/src/components/common/Pagination.jsx:31-41 | every page in 1..totalPages is shown or lies strictly between the neighbours of one `'...'` |
| `Pagination.PageListLength` | frontend/src/components/common/Pagination.jsx:15-41 | the strip has at most 9 entries |
| `Pagination.Render` | frontend/src/components/common/Pagination.jsx:12-79 | nothing is rendered exactly when totalPages <= 1; otherwise button k of the strip shows entry k of `getPageNumbers()`, one button per entry |
| `Pagination.RenderControls` | frontend/src/components/common/Pagination.jsx:48-79 | Prev is inert exactly on page 1 and otherwise requests currentPage-1; Next is inert exactly on the last page and otherwise requests currentPage+1; a strip button requests p exactly when it shows page p other than the current one (`'...'` and the current page are disabled); only the current page is primary |
| `Pagination.RenderRequestsInRange` | frontend/src/components/common/Pagination.jsx:48-79 | when the current page is in 1..totalPages, every enabled button requests a page in 1..totalPages other than the current one |
| `Catalog.ContainsAt` | backend/src/controllers/product.controller.js:15 | the substring search succeeds exactly when the term occurs at some position of the title |
| `Catalog.Matching` | backend/src/controllers/product.controller.js:15-22 | the selected products are exactly the stored products whose title matches (all of them when the term is absent or empty), kept in collection order, each as often as stored |
| `Catalog.Insert` | backend/src/controllers/product.controller.js:20 | inserting adds exactly that product and nothing else (as a multiset) |
| `Catalog.InsertNewestFirst` | backend/src/controllers/product.controller.js:20 | inserting into a newest-first list keeps it newest first, one item longer |
| `Catalog.SortNewestFirst` | backend/src/controllers/product.controller.js:20 | the result is ordered by `createdAt`, newest first, and is a permutation of the input |
| `Catalog.CeilDiv` | backend/src/controllers/product.controller.js:26 | `Math.ceil(n / limit)`: the least r with `r * limit >= n` (0 when n is 0) |
| `Catalog.PageOf` | backend/src/controllers/product.controller.js:18-19 | page p holds the items at positions `(p-1)*limit ..` in order: at most `limit` of them, exactly `min(limit, remaining)`, none when the skip passes the end |
| `Catalog.PageOfNewestFirst` | backend/src/controllers/product.controller.js:18-20 | a page cut from the newest-first list is itself newest first |
| `Catalog.AllPagesPrefix` | backend/src/controllers/product.controller.js:18-19 | pages 1..k laid end to end are the first `min(k*limit, n)` items |
| `Catalog.PagesPartition` | backend/src/controllers/product.controller.js:18-26 | pages 1..ceil(n/limit) laid end to end are the whole list, in order |
| `Catalog.PageBeyondEnd` | backend/src/controllers/product.controller.js:18-26 | every page after ceil(n/limit) is empty |
| `Catalog.ListedPage` | backend/src/controllers/product.controller.js:14-22 | a page of a search has at most `limit` products, newest first, each stored and matching the search |
| `Catalog.GetProducts` | backend/src/controllers/product.controller.js:12-28 | status 200; `currentPage` echoes the page (default 1); at most `limit` (default 10) products, newest first, all stored and matching; `totalPages` is the ceiling of the number of all matches over `limit` |
| `Catalog.CatalogPartition` | backend/src/controllers/product.controller.js:12-28 | requesting pages 1..totalPages of one search returns every match exactly once, newest first, when every request breaks `createdAt` ties the same way; any later page is empty |
| `Catalog.NewestFirstUnique` | backend/src/controllers/product.controller.js:20 | two newest-first arrangements of the same products are the same list when no two products share a creation time |
| `Catalog.AdmissibleIsSorted` | backend/src/controllers/product.controller.js:20 | with distinct creation times, any newest-first order the database may return is the model's sorted list |
| `Catalog.PartitionUnderDistinctTimes` | backend/src/controllers/product.controller.js:17-26 | with distinct creation times, pages 1..totalPages list every match exactly once, newest first, whatever order each request uses |
| `Catalog.TiedPagesRepeat` | backend/src/controllers/product.controller.js:17-26 | two products created at the same instant, one per page: if the second request breaks the tie the other way, one product is listed twice and the other never |
| `Catalog.MatchingAll` | backend/src/controllers/product.controller.js:15 | without a search term every stored product is selected, in collection order |
| `Catalog.FindById` | backend/src/controllers/product.controller.js:36 | a found record is stored and has that id; nothing is found exactly when no stored record has that id |
| `Catalog.FindByIdStored` | backend/src/controllers/product.controller.js:36 | when ids are unique, every stored record is the one found under its id |
| `Catalog.ObjectIdString` | backend/src/controllers/product.controller.js:36 | casting a 24-digit id to an ObjectId gives its lower-case form; an id already in that form is unchanged |
| `Catalog.GetProductById` | backend/src/controllers/product.controller.js:34-42 | a non-ObjectId id gives a 500 cast error; otherwise the id is compared in lower case, 404 "Product not found" exactly when no record has it, and a found record is answered 200 with that record |
| `Catalog.GetStoredProduct` | backend/src/controllers/product.controller.js:34-38 | with unique ids, asking for a stored record's id, in either case of its hex digits, answers 200 with that record |
| `Catalog.GetProductByIdCaseless` | backend/src/controllers/product.controller.js:36 | two spellings of an id that differ only in the case of their hex digits get the same answer |
| `Catalog.FailingPaths` | backend/src/models/product.model.js:3-8 | validation fails exactly when a client `_id` is not an ObjectId, title or description is absent or empty, or price is absent or not a number, and names each failing path |
| `Catalog.ProductStore.CreateProduct` | backend/src/controllers/product.controller.js:3-10 | an invalid body is answered 400 naming the failing paths; a valid body whose id (the client's `_id` cast to lower case, or a fresh one) is already stored is answered 400 duplicate key; in both cases nothing is stored; otherwise the record is appended and answered 201; ids stay unique, lower case and ObjectIds, and required paths non-empty |
| `Catalog.CreateThenGet` | backend/src/controllers/product.controller.js:3-38 | a product created from a valid body is then answered 200 when asked for by the `_id` the client sent (in whatever case) or the server's id, with the body's title, price, description and image |
| `Favorites.Added` | backend/src/controllers/favorite.controller.js:8-10 | the id is present afterwards, existing entries and their order are unchanged, at most one entry is added, nothing changes exactly when the id was already there, and a duplicate-free list stays duplicate-free |
| `Favorites.Removed` | backend/src/controllers/favorite.controller.js:24 | the id is absent afterwards, every other entry remains, the result is a subsequence of the list, and a list without the id is unchanged |
| `Favorites.RemovedCounts` | backend/src/controllers/favorite.controller.js:24 | every occurrence of the id is dropped and every other entry keeps its number of occurrences |
| `Favorites.RemovedNoDuplicates` | backend/src/controllers/favorite.controller.js:24 | removal keeps a duplicate-free list duplicate-free |
| `Favorites.AddIdempotent` | backend/src/controllers/favorite.controller.js:8-11 | adding twice gives the list of adding once |
| `Favorites.RemoveIdempotent` | backend/src/controllers/favorite.controller.js:24 | removing twice gives the list of removing once |
| `Favorites.AddThenRemove` | backend/src/controllers/favorite.controller.js:8-24 | add then remove equals remove alone; if the id was absent, the original list is restored |
| `Favorites.RemoveThenAdd` | backend/src/controllers/favorite.controller.js:8-24 | remove then add moves the id to the end of the list |
| `Favorites.AddRemoveCommute` | backend/src/controllers/favorite.controller.js:8-24 | adding one id and removing a different one commute |
| `Favorites.AddFavorite` | backend/src/controllers/favorite.controller.js:3-17 | a missing user gives 404 "User not found" and nothing changes; otherwise the list becomes `Added(list, id)` (no duplicates kept) and the reply is "Added to favorites" whether or not it changed |
| `Favorites.RemoveFavorite` | backend/src/controllers/favorite.controller.js:19-31 | a missing user gives 404 "User not found" and nothing changes; otherwise the list becomes `Removed(list, id)` and the reply is "Removed from favorites" whether or not it changed |
| `Favorites.Populate` | backend/src/controllers/favorite.controller.js:35 | populating gives at most one product per stored id; each is the stored product found under an id of the list |
| `Favorites.PopulateFindsAll` | backend/src/controllers/favorite.controller.js:35 | every listed id that names a product contributes that product, even when other ids name none |
| `Favorites.PopulateOrder` | backend/src/controllers/favorite.controller.js:35 | the products' ids appear in the order of the favorites list |
| `Favorites.PopulateCounts` | backend/src/controllers/favorite.controller.js:35 | an id that names a product appears as often as it is listed; an id that names none does not appear |
| `Favorites.PopulateAllFound` | backend/src/controllers/favorite.controller.js:35-38 | when every id names a product, the result has one product per id, in list order |
| `Favorites.GetFavorites` | backend/src/controllers/favorite.controller.js:33-42 | a missing user gives 404 "User not found"; otherwise 200 with the populated list |

## Left out

- Database I/O (`findById`, `save`, `find`, `countDocuments`, `Product.create`, `populate`): the collections are in-memory sequences and the user document is an object passed in. A missing user is `null`. A new record's ObjectId and timestamp are parameters of `CreateProduct`.
- Store failures other than validation, id casts and duplicate ids (a lost connection, a timeout) are not modelled. `createProduct` answers every failure 400; the other handlers answer them 500.
- Search: the term is matched as a literal, ASCII case-insensitive substring. The term's regular-expression syntax and Unicode case folding are not modelled.
- Degenerate query strings: `GetProducts` requires `page >= 1` and `limit >= 1`. A smaller page makes the database reject a negative skip, and `limit = 0` makes `ceil` divide by zero. Query values that are not numbers are not modelled either.
- Catalog.SortNewestFirst: products with equal `createdAt` keep their collection order. The database leaves that order unspecified.
- Catalog.CatalogPartition: the page-by-page guarantee relies on every request breaking `createdAt` ties the same way, which `SortNewestFirst` does and the database does not promise. `PartitionUnderDistinctTimes` proves the guarantee for any tie order when creation times are distinct. `TiedPagesRepeat` shows that tied products can be repeated or skipped across pages otherwise, and the seed inserts the whole catalogue at once.
- Prices are integers. Floating point, and casting a numeric string to a number, are not modelled.
- ObjectIds are 24 hexadecimal digits, compared after folding to lower case. The 12-byte string form of an ObjectId is not modelled.
- A `createdAt` in the body of `createProduct`: the timestamp the record gets is the `now` parameter, whether it comes from the clock or from the body. How the schema's `timestamps` option chooses between the two is not modelled.
- Favorites ids are plain strings. The comparison of an ObjectId with a string in `includes` and `toString()` is not modelled. Neither is the cast error that saving an id which is not an ObjectId would raise, nor the folding of a saved id to lower case; the list holds ids as they were sent.
- Concurrent requests on the same user: each handler runs alone, so lost updates from interleaved read-modify-write are not modelled.
- `updateProduct` and `deleteProduct`: the routes import them but the controller does not define them, so they have no behaviour.
- Authentication (`protect` middleware, token checks), password hashing, seeding, server and routing setup, API client wrappers, and every React page and component other than `Pagination`. These are wiring, rendering or foreign libraries. The auth middleware and auth controller are not part of this model.
- ProductList's client rules: a changed search resets the page to 1, and a `totalPages` of 0 shows as 1. Both depend on React effects and a debounce hook that is not part of this model.
