/** The product catalogue (`product.controller.js` over the `Product` schema):
    listing with search and paging, lookup by id, and creation. The document
    collection is a sequence of records in insertion order. */
module Catalog {
  import opened Common

  /** A stored product document. `createdAt` is the timestamp the schema's
      `timestamps` option records at creation; `image` may be absent. */
  datatype Product = Product(id: string, title: string, price: int, description: string,
                             image: Option<string>, createdAt: int)

  // ---------------------------------------------------------------------
  // Ids

  predicate IsHexDigit(ch: char) {
    ('0' <= ch <= '9') || ('a' <= ch <= 'f') || ('A' <= ch <= 'F')
  }

  /** The string form of an ObjectId: 24 hexadecimal digits. */
  predicate IsObjectId(s: string) {
    |s| == 24 && forall k :: 0 <= k < |s| ==> IsHexDigit(s[k])
  }

  /** An ObjectId as it prints: 24 hexadecimal digits in lower case. */
  predicate IsCanonicalId(s: string) {
    IsObjectId(s) && forall k :: 0 <= k < |s| ==> !('A' <= s[k] <= 'F')
  }

  predicate UniqueIds(s: seq<Product>) {
    forall j, k :: 0 <= j < k < |s| ==> s[j].id != s[k].id
  }

  // ---------------------------------------------------------------------
  // Search

  /** ASCII lower case, the folding the `i` option of the title query applies. */
  function Lower(ch: char): char {
    if 'A' <= ch <= 'Z' then (ch as int + 32) as char else ch
  }

  function LowerString(s: string): string {
    seq(|s|, k requires 0 <= k < |s| => Lower(s[k]))
  }

  /** The id a 24-digit string names: casting it to an ObjectId keeps its
      twelve bytes, which print as lower-case hex, so ids that differ only in
      the case of their digits name the same document. */
  function ObjectIdString(s: string): (r: string)
    requires IsObjectId(s)
    ensures IsCanonicalId(r)
    ensures IsCanonicalId(s) ==> r == s
  {
    var r := LowerString(s);
    assert IsCanonicalId(s) ==> r == s by {
      if IsCanonicalId(s) {
        assert forall k :: 0 <= k < |s| ==> r[k] == s[k];
      }
    }
    r
  }

  /** `needle` occurs in `hay`, found by sliding along `hay`. */
  function Contains(hay: string, needle: string): bool
    decreases |hay|
  {
    if needle <= hay then true
    else if hay == [] then false
    else Contains(hay[1..], needle)
  }

  /** `Contains` finds exactly the positions at which `needle` starts. */
  lemma {:induction false} ContainsAt(hay: string, needle: string)
    ensures Contains(hay, needle) <==> exists i :: 0 <= i <= |hay| && needle <= hay[i..]
    decreases |hay|
  {
    if needle <= hay {
      assert needle <= hay[0..];
    } else if hay != [] {
      ContainsAt(hay[1..], needle);
      if exists i :: 0 <= i <= |hay| && needle <= hay[i..] {
        var i :| 0 <= i <= |hay| && needle <= hay[i..];
        assert i != 0;
        assert hay[1..][i - 1..] == hay[i..];
      }
      if Contains(hay[1..], needle) {
        var i :| 0 <= i <= |hay[1..]| && needle <= hay[1..][i..];
        assert hay[1..][i..] == hay[i + 1..];
      }
    } else {
      assert forall i :: 0 <= i <= |hay| ==> hay[i..] == hay;
    }
  }

  /** The title query `{ title: { $regex: search, $options: 'i' } }`, with the
      term taken literally. */
  predicate TitleMatches(title: string, search: string) {
    Contains(LowerString(title), LowerString(search))
  }

  /** The filter `getProducts` builds: an absent or empty term selects every
      product. */
  predicate Selects(search: Option<string>, p: Product) {
    search.None? || search.value == "" || TitleMatches(p.title, search.value)
  }

  /** The products the query selects, in collection order. */
  function Matching(store: seq<Product>, search: Option<string>): (r: seq<Product>)
    ensures forall p :: p in r <==> p in store && Selects(search, p)
    ensures IsSubsequence(r, store)
    ensures multiset(r) <= multiset(store)
    ensures forall p :: multiset(r)[p] == if Selects(search, p) then multiset(store)[p] else 0
    decreases |store|
  {
    if store == [] then []
    else
      assert store == [store[0]] + store[1..];
      if Selects(search, store[0]) then [store[0]] + Matching(store[1..], search)
      else Matching(store[1..], search)
  }

  // ---------------------------------------------------------------------
  // Order: `sort({ createdAt: -1 })`

  predicate NewestFirst(s: seq<Product>) {
    forall j, k :: 0 <= j < k < |s| ==> s[j].createdAt >= s[k].createdAt
  }

  /** Inserts `p` before the first product that is not newer than it. */
  function Insert(p: Product, s: seq<Product>): (r: seq<Product>)
    ensures multiset(r) == multiset(s) + multiset{p}
    decreases |s|
  {
    if s == [] || p.createdAt >= s[0].createdAt then [p] + s
    else
      assert s == [s[0]] + s[1..];
      [s[0]] + Insert(p, s[1..])
  }

  /** Inserting into a newest-first list keeps it newest first. */
  lemma {:induction false} InsertNewestFirst(p: Product, s: seq<Product>)
    requires NewestFirst(s)
    ensures NewestFirst(Insert(p, s))
    ensures |Insert(p, s)| == |s| + 1
    ensures Insert(p, s)[0] == p || (|s| > 0 && Insert(p, s)[0] == s[0])
    decreases |s|
  {
    if s != [] && p.createdAt < s[0].createdAt {
      var rest := Insert(p, s[1..]);
      InsertNewestFirst(p, s[1..]);
      var r := [s[0]] + rest;
      assert r == Insert(p, s);
      assert s[0].createdAt >= rest[0].createdAt by {
        if |s| > 1 && rest[0] != p { assert s[0].createdAt >= s[1].createdAt; }
      }
      forall j, k | 0 <= j < k < |r| ensures r[j].createdAt >= r[k].createdAt {
        if j == 0 {
          assert rest[0].createdAt >= rest[k - 1].createdAt;
        } else {
          assert r[j] == rest[j - 1] && r[k] == rest[k - 1];
        }
      }
    } else {
      var r := [p] + s;
      forall j, k | 0 < j < k < |r| ensures r[j].createdAt >= r[k].createdAt {
        assert r[j] == s[j - 1] && r[k] == s[k - 1];
      }
    }
  }

  /** The products newest first; products created at the same instant keep
      their collection order. */
  function SortNewestFirst(s: seq<Product>): (r: seq<Product>)
    ensures NewestFirst(r)
    ensures multiset(r) == multiset(s)
    decreases |s|
  {
    if s == [] then []
    else
      assert s == [s[0]] + s[1..];
      var rest := SortNewestFirst(s[1..]);
      InsertNewestFirst(s[0], rest);
      Insert(s[0], rest)
  }

  // ---------------------------------------------------------------------
  // Paging: `skip((page - 1) * limit).limit(limit)` and `Math.ceil(count / limit)`

  /** `Math.ceil(n / d)` for a non-negative count and a positive divisor: the
      least number of pages of `d` that hold `n` items. */
  function CeilDiv(n: nat, d: int): (r: nat)
    requires d >= 1
    ensures (r - 1) * d < n <= r * d
  {
    var q := (n + d - 1) / d;
    assert n + d - 1 == q * d + (n + d - 1) % d;
    q
  }

  lemma MulMonotone(a: int, b: int, d: int)
    requires a <= b && d >= 0
    ensures a * d <= b * d
  {
  }

  /** How many items precede page `page` (1-based): `(page - 1) * limit`. */
  function Skip(page: int, limit: int): (r: nat)
    requires page >= 1 && limit >= 1
  {
    MulMonotone(0, page - 1, limit);
    (page - 1) * limit
  }

  /** The items of page `page` (1-based) when pages hold `limit` items. */
  function PageOf(xs: seq<Product>, page: int, limit: int): (r: seq<Product>)
    requires page >= 1 && limit >= 1
    ensures |r| <= limit
    ensures |r| == if Skip(page, limit) >= |xs| then 0 else Min(limit, |xs| - Skip(page, limit))
    ensures forall k :: 0 <= k < |r| ==> Skip(page, limit) + k < |xs| && r[k] == xs[Skip(page, limit) + k]
    ensures forall p :: p in r ==> p in xs
  {
    var skip := Skip(page, limit);
    if skip >= |xs| then [] else xs[skip..Min(skip + limit, |xs|)]
  }

  /** A page of a newest-first list is newest first. */
  lemma PageOfNewestFirst(xs: seq<Product>, page: int, limit: int)
    requires page >= 1 && limit >= 1 && NewestFirst(xs)
    ensures NewestFirst(PageOf(xs, page, limit))
  {
    var r := PageOf(xs, page, limit);
    var skip := Skip(page, limit);
    forall j, k | 0 <= j < k < |r| ensures r[j].createdAt >= r[k].createdAt {
      assert r[j] == xs[skip + j] && r[k] == xs[skip + k];
    }
  }

  lemma SkipStep(k: int, limit: int)
    requires k >= 1 && limit >= 1
    ensures k * limit == Skip(k, limit) + limit
  {
  }

  /** Pages 1..k laid end to end. */
  function AllPages(xs: seq<Product>, limit: int, k: nat): seq<Product>
    requires limit >= 1
  {
    if k == 0 then [] else AllPages(xs, limit, k - 1) + PageOf(xs, k, limit)
  }

  lemma {:induction false} AllPagesPrefix(xs: seq<Product>, limit: int, k: nat)
    requires limit >= 1
    ensures AllPages(xs, limit, k) == xs[..Min(k * limit, |xs|)]
  {
    if k > 0 {
      AllPagesPrefix(xs, limit, k - 1);
      var skip := Skip(k, limit);
      var end := k * limit;
      SkipStep(k, limit);
      var page := PageOf(xs, k, limit);
      if skip >= |xs| {
        assert page == [];
      } else {
        assert page == xs[skip..Min(end, |xs|)];
        assert xs[..skip] + xs[skip..Min(end, |xs|)] == xs[..Min(end, |xs|)];
      }
    }
  }

  /** Pages 1..CeilDiv(|xs|, limit) together are exactly `xs`, in order. */
  lemma PagesPartition(xs: seq<Product>, limit: int)
    requires limit >= 1
    ensures AllPages(xs, limit, CeilDiv(|xs|, limit)) == xs
  {
    AllPagesPrefix(xs, limit, CeilDiv(|xs|, limit));
  }

  /** Every page after the last one is empty. */
  lemma PageBeyondEnd(xs: seq<Product>, limit: int, page: int)
    requires limit >= 1 && page > CeilDiv(|xs|, limit)
    ensures PageOf(xs, page, limit) == []
  {
    MulMonotone(CeilDiv(|xs|, limit), page - 1, limit);
    assert Skip(page, limit) >= |xs|;
  }

  // ---------------------------------------------------------------------
  // getProducts

  const DefaultPage := 1
  const DefaultLimit := 10

  /** The query string of `GET /products`, already converted to numbers. */
  datatype Query = Query(search: Option<string>, page: Option<int>, limit: Option<int>) {
    function Page(): int { page.GetOr(DefaultPage) }
    function Limit(): int { limit.GetOr(DefaultLimit) }
  }

  datatype Listing = Listing(products: seq<Product>, totalPages: int, currentPage: int)

  /** `getProducts`: the selected products newest first, the requested page of
      them, the page count over all of them, and the requested page number. */
  function GetProducts(store: seq<Product>, q: Query): (r: Response<Listing>)
    requires q.Page() >= 1 && q.Limit() >= 1
    ensures r.Json? && r.status == 200
    ensures r.data.currentPage == q.Page()
    ensures |r.data.products| <= q.Limit()
    ensures NewestFirst(r.data.products)
    ensures forall p :: p in r.data.products ==> p in store && Selects(q.search, p)
    ensures (r.data.totalPages - 1) * q.Limit() < |Matching(store, q.search)| <= r.data.totalPages * q.Limit()
  {
    var items := ListedPage(store, q.search, q.Page(), q.Limit());
    Json(200, Listing(items, CeilDiv(|Matching(store, q.search)|, q.Limit()), q.Page()))
  }

  /** The products on one page of a search. */
  function ListedPage(store: seq<Product>, search: Option<string>, page: int, limit: int): (r: seq<Product>)
    requires page >= 1 && limit >= 1
    ensures |r| <= limit && NewestFirst(r)
    ensures forall p :: p in r ==> p in store && Selects(search, p)
  {
    var matches := Matching(store, search);
    var ordered := SortNewestFirst(matches);
    assert forall p :: p in ordered ==> p in matches by {
      forall p | p in ordered ensures p in matches {
        assert p in multiset(ordered);
      }
    }
    PageOfNewestFirst(ordered, page, limit);
    PageOf(ordered, page, limit)
  }

  /** The products of pages 1..k of the same search, laid end to end. */
  function ListedPages(store: seq<Product>, search: Option<string>, limit: int, k: nat): seq<Product>
    requires limit >= 1
  {
    if k == 0 then []
    else ListedPages(store, search, limit, k - 1) +
         GetProducts(store, Query(search, Some(k), Some(limit))).data.products
  }

  lemma {:induction false} ListedPagesAll(store: seq<Product>, search: Option<string>, limit: int, k: nat)
    requires limit >= 1
    ensures ListedPages(store, search, limit, k) == AllPages(SortNewestFirst(Matching(store, search)), limit, k)
  {
    if k > 0 {
      ListedPagesAll(store, search, limit, k - 1);
      var q := Query(search, Some(k), Some(limit));
      assert q.Page() == k && q.Limit() == limit;
      assert GetProducts(store, q).data.products == ListedPage(store, search, k, limit);
      assert ListedPage(store, search, k, limit) == PageOf(SortNewestFirst(Matching(store, search)), k, limit);
    }
  }

  /** Requesting pages 1..totalPages of one search returns every selected
      product exactly once, newest first; the count is that of all selected
      products; later pages are empty. */
  lemma CatalogPartition(store: seq<Product>, search: Option<string>, limit: int, page: int)
    requires limit >= 1 && page >= 1
    ensures var n := GetProducts(store, Query(search, Some(page), Some(limit))).data.totalPages;
            n >= 0 &&
            ListedPages(store, search, limit, n) == SortNewestFirst(Matching(store, search)) &&
            multiset(ListedPages(store, search, limit, n)) == multiset(Matching(store, search)) &&
            (page > n ==> GetProducts(store, Query(search, Some(page), Some(limit))).data.products == [])
  {
    var ordered := SortNewestFirst(Matching(store, search));
    var q := Query(search, Some(page), Some(limit));
    assert q.Page() == page && q.Limit() == limit;
    var n := CeilDiv(|ordered|, limit);
    assert GetProducts(store, q).data.totalPages == n;
    ListedPagesAll(store, search, limit, n);
    PagesPartition(ordered, limit);
    if page > n {
      assert GetProducts(store, q).data.products == PageOf(ordered, page, limit);
      PageBeyondEnd(ordered, limit, page);
    }
  }

  // ---------------------------------------------------------------------
  // Paging when each request may break `createdAt` ties its own way

  /** No two different products of `s` share a creation time. */
  predicate DistinctTimes(s: seq<Product>) {
    forall p, q :: p in s && q in s && p != q ==> p.createdAt != q.createdAt
  }

  /** An order the database may return for one request: the selected
      products arranged newest first, ties in any order. */
  predicate AdmissibleOrder(o: seq<Product>, matches: seq<Product>) {
    NewestFirst(o) && multiset(o) == multiset(matches)
  }

  /** Pages 1..k when request i is answered from `orders[i - 1]`. */
  function PagesUnder(orders: seq<seq<Product>>, limit: int, k: nat): seq<Product>
    requires limit >= 1 && k <= |orders|
  {
    if k == 0 then [] else PagesUnder(orders, limit, k - 1) + PageOf(orders[k - 1], k, limit)
  }

  lemma NewestFirstTail(a: seq<Product>)
    requires a != [] && NewestFirst(a)
    ensures NewestFirst(a[1..])
  {
    forall j, k | 0 <= j < k < |a| - 1 ensures a[1..][j].createdAt >= a[1..][k].createdAt {
      assert a[1..][j] == a[j + 1] && a[1..][k] == a[k + 1];
    }
  }

  /** Same products, both newest first, distinct times: the heads agree. */
  lemma NewestFirstHeads(a: seq<Product>, b: seq<Product>)
    requires a != [] && b != [] && NewestFirst(a) && NewestFirst(b)
    requires multiset(a) == multiset(b) && DistinctTimes(a)
    ensures a[0] == b[0]
  {
    assert a[0] in multiset(b);
    var i :| 0 <= i < |b| && b[i] == a[0];
    assert b[0] in multiset(a);
    var j :| 0 <= j < |a| && a[j] == b[0];
    assert a[0].createdAt >= a[j].createdAt && b[0].createdAt >= b[i].createdAt;
  }

  /** Two newest-first arrangements of the same products are the same list
      when no two of the products share a creation time. */
  lemma {:induction false} NewestFirstUnique(a: seq<Product>, b: seq<Product>)
    requires NewestFirst(a) && NewestFirst(b) && multiset(a) == multiset(b) && DistinctTimes(a)
    ensures a == b
    decreases |a|
  {
    assert |a| == |multiset(a)| == |multiset(b)| == |b|;
    if a != [] {
      NewestFirstHeads(a, b);
      SameTails(a, b);
      NewestFirstTail(a);
      NewestFirstTail(b);
      DistinctTimesTail(a);
      NewestFirstUnique(a[1..], b[1..]);
      assert a == [a[0]] + a[1..] && b == [b[0]] + b[1..];
    }
  }

  lemma SameTails(a: seq<Product>, b: seq<Product>)
    requires a != [] && b != [] && a[0] == b[0] && multiset(a) == multiset(b)
    ensures multiset(a[1..]) == multiset(b[1..])
  {
    assert a == [a[0]] + a[1..] && b == [b[0]] + b[1..];
    assert multiset(a[1..]) == multiset(a) - multiset{a[0]};
    assert multiset(b[1..]) == multiset(b) - multiset{b[0]};
  }

  lemma DistinctTimesTail(a: seq<Product>)
    requires a != [] && DistinctTimes(a)
    ensures DistinctTimes(a[1..])
  {
    assert forall p :: p in a[1..] ==> p in a;
  }

  /** With distinct creation times every admissible order is the model's
      sorted list. */
  lemma AdmissibleIsSorted(o: seq<Product>, matches: seq<Product>)
    requires AdmissibleOrder(o, matches) && DistinctTimes(matches)
    ensures o == SortNewestFirst(matches)
  {
    assert forall p :: p in o <==> p in matches by {
      forall p ensures p in o <==> p in matches {
        assert p in o <==> p in multiset(o);
        assert p in matches <==> p in multiset(matches);
      }
    }
    NewestFirstUnique(o, SortNewestFirst(matches));
  }

  lemma {:induction false} PagesUnderAll(orders: seq<seq<Product>>, sorted: seq<Product>, limit: int, k: nat)
    requires limit >= 1 && k <= |orders|
    requires forall i :: 0 <= i < |orders| ==> orders[i] == sorted
    ensures PagesUnder(orders, limit, k) == AllPages(sorted, limit, k)
  {
    if k > 0 {
      PagesUnderAll(orders, sorted, limit, k - 1);
    }
  }

  /** When the selected products have distinct creation times, pages
      1..totalPages list every selected product exactly once, newest first,
      however each request breaks ties. */
  lemma PartitionUnderDistinctTimes(store: seq<Product>, search: Option<string>, limit: int,
                                    orders: seq<seq<Product>>)
    requires limit >= 1 && DistinctTimes(Matching(store, search))
    requires |orders| == CeilDiv(|Matching(store, search)|, limit)
    requires forall i :: 0 <= i < |orders| ==> AdmissibleOrder(orders[i], Matching(store, search))
    ensures PagesUnder(orders, limit, |orders|) == SortNewestFirst(Matching(store, search))
  {
    var matches := Matching(store, search);
    var sorted := SortNewestFirst(matches);
    forall i | 0 <= i < |orders| ensures orders[i] == sorted {
      AdmissibleIsSorted(orders[i], matches);
    }
    PagesUnderAll(orders, sorted, limit, |orders|);
    PagesPartition(sorted, limit);
  }

  /** Without a search term every stored product is selected. */
  lemma {:induction false} MatchingAll(store: seq<Product>)
    ensures Matching(store, None) == store
    decreases |store|
  {
    if store != [] {
      MatchingAll(store[1..]);
      assert store == [store[0]] + store[1..];
    }
  }

  /** Two products created at the same instant, one per page: if the second
      request breaks the tie the other way, the first product is listed twice
      and the second never. */
  lemma TiedPagesRepeat(p: Product, q: Product)
    requires p != q && p.createdAt == q.createdAt
    ensures AdmissibleOrder([p, q], Matching([p, q], None))
    ensures AdmissibleOrder([q, p], Matching([p, q], None))
    ensures CeilDiv(|Matching([p, q], None)|, 1) == 2
    ensures PagesUnder([[p, q], [q, p]], 1, 2) == [p, p]
  {
    MatchingAll([p, q]);
    assert multiset([q, p]) == multiset([p, q]);
    var orders := [[p, q], [q, p]];
    assert PageOf(orders[0], 1, 1) == [p] by {
      assert Skip(1, 1) == 0;
    }
    assert PageOf(orders[1], 2, 1) == [p] by {
      assert Skip(2, 1) == 1;
    }
    assert PagesUnder(orders, 1, 1) == [] + [p];
  }

  // ---------------------------------------------------------------------
  // getProductById

  /** `Product.findById`: the record with that id, if any. */
  function FindById(store: seq<Product>, id: string): (r: Option<Product>)
    ensures r.Some? ==> r.value in store && r.value.id == id
    ensures r.None? <==> forall p :: p in store ==> p.id != id
    decreases |store|
  {
    if store == [] then None
    else if store[0].id == id then Some(store[0])
    else FindById(store[1..], id)
  }

  /** In a collection whose ids are unique, each stored record is the one
      found under its id. */
  lemma {:induction false} FindByIdStored(store: seq<Product>, p: Product)
    requires UniqueIds(store) && p in store
    ensures FindById(store, p.id) == Some(p)
    decreases |store|
  {
    if store[0] != p {
      assert p in store[1..];
      assert UniqueIds(store[1..]) by {
        forall j, k | 0 <= j < k < |store| - 1 ensures store[1..][j].id != store[1..][k].id {
          assert store[1..][j] == store[j + 1] && store[1..][k] == store[k + 1];
        }
      }
      FindByIdStored(store[1..], p);
      var m :| 0 <= m < |store| && store[m] == p;
      assert store[0].id != p.id;
    }
  }

  /** `getProductById`: the id is cast to an ObjectId first. One that is not
      an ObjectId makes `findById` throw a cast error, answered 500; an
      unknown id is 404 "Product not found"; a found record is 200. */
  function GetProductById(store: seq<Product>, id: string): (r: Response<Product>)
    ensures !IsObjectId(id) ==> r == DbError(500, CastFailed("_id"))
    ensures IsObjectId(id) ==>
              (r == Msg(404, "Product not found") <==> forall p :: p in store ==> p.id != ObjectIdString(id))
    ensures IsObjectId(id) && FindById(store, ObjectIdString(id)).Some? ==>
              r == Json(200, FindById(store, ObjectIdString(id)).value)
    ensures r.Json? ==> IsObjectId(id) && r.status == 200 && r.data in store && r.data.id == ObjectIdString(id)
    ensures IsObjectId(id) ==> r.Json? || r.Msg?
  {
    if !IsObjectId(id) then DbError(500, CastFailed("_id"))
    else match FindById(store, ObjectIdString(id))
      case None => Msg(404, "Product not found")
      case Some(p) => Json(200, p)
  }

  /** In a collection with unique ids, asking for a stored record's id, in
      either case of its hex digits, answers 200 with that record. */
  lemma GetStoredProduct(store: seq<Product>, p: Product, id: string)
    requires UniqueIds(store) && p in store
    requires IsObjectId(id) && ObjectIdString(id) == p.id
    ensures GetProductById(store, id) == Json(200, p)
  {
    FindByIdStored(store, p);
  }

  /** Two spellings of an id that differ only in the case of their digits
      get the same answer. */
  lemma GetProductByIdCaseless(store: seq<Product>, a: string, b: string)
    requires IsObjectId(a) && IsObjectId(b) && LowerString(a) == LowerString(b)
    ensures GetProductById(store, a) == GetProductById(store, b)
  {
  }

  // ---------------------------------------------------------------------
  // createProduct

  /** The `price` of a request body: a number, or something that does not
      cast to one (such as `NaN` from an unparsable form field). */
  datatype PriceInput = Numeric(value: int) | NotNumeric

  /** The fields of a request body the document keeps: the schema's paths and
      an `_id` the client may send. Other fields are dropped, except a
      `createdAt`, which the model leaves to the `now` of `CreateProduct`. */
  datatype ProductBody = ProductBody(id: Option<string>, title: Option<string>, price: Option<PriceInput>,
                                     description: Option<string>, image: Option<string>)

  /** A required string path passes validation when present and non-empty. */
  predicate PresentString(s: Option<string>) {
    s.Some? && s.value != ""
  }

  predicate PriceValid(p: Option<PriceInput>) {
    p.Some? && p.value.Numeric?
  }

  /** A client `_id` must cast to an ObjectId; an absent one is chosen by the
      server. */
  predicate IdValid(id: Option<string>) {
    id.None? || IsObjectId(id.value)
  }

  /** The paths that fail validation: `_id` first, then the schema's paths in
      order. */
  function FailingPaths(b: ProductBody): (r: seq<string>)
    ensures r == [] <==> IdValid(b.id) && PresentString(b.title) && PriceValid(b.price) && PresentString(b.description)
    ensures "_id" in r <==> !IdValid(b.id)
    ensures "title" in r <==> !PresentString(b.title)
    ensures "price" in r <==> !PriceValid(b.price)
    ensures "description" in r <==> !PresentString(b.description)
  {
    (if IdValid(b.id) then [] else ["_id"]) +
    (if PresentString(b.title) then [] else ["title"]) +
    (if PriceValid(b.price) then [] else ["price"]) +
    (if PresentString(b.description) then [] else ["description"])
  }

  /** The id a new document gets: the client's `_id` cast to an ObjectId,
      else the one the server generated. */
  function ChosenId(b: ProductBody, newId: string): string
    requires IdValid(b.id)
  {
    if b.id.Some? then ObjectIdString(b.id.value) else newId
  }

  /** The document stored for a valid body under its id and the creation
      time. */
  function NewProduct(b: ProductBody, newId: string, now: int): Product
    requires FailingPaths(b) == []
  {
    Product(ChosenId(b, newId), b.title.value, b.price.value.value, b.description.value, b.image, now)
  }

  /** A stored record: an ObjectId, and the required string paths non-empty. */
  predicate WellFormed(p: Product) {
    IsCanonicalId(p.id) && p.title != "" && p.description != ""
  }

  /** The product collection. */
  class ProductStore {
    var products: seq<Product>

    ghost predicate Valid()
      reads this
    {
      UniqueIds(products) && forall p :: p in products ==> WellFormed(p)
    }

    constructor ()
      ensures Valid() && products == []
    {
      products := [];
    }

    /** `createProduct`: `Product.create(req.body)`. A body failing
        validation is answered 400 naming the failing paths; a valid body
        whose id is already stored is refused by the unique `_id` index, also
        answered 400; otherwise the record is stored and answered 201.
        `newId` is the ObjectId the server would generate and `now` the
        creation time (its clock, or a `createdAt` the body carries). */
    method CreateProduct(body: ProductBody, newId: string, now: int) returns (resp: Response<Product>)
      requires Valid()
      requires IsCanonicalId(newId) && forall p :: p in products ==> p.id != newId
      modifies this
      ensures Valid()
      ensures FailingPaths(body) != [] ==>
                resp == DbError(400, ValidationFailed(FailingPaths(body))) && products == old(products)
      ensures FailingPaths(body) == [] && (exists p :: p in old(products) && p.id == ChosenId(body, newId)) ==>
                resp == DbError(400, DuplicateKey("_id")) && products == old(products)
      ensures FailingPaths(body) == [] && (forall p :: p in old(products) ==> p.id != ChosenId(body, newId)) ==>
                resp == Json(201, NewProduct(body, newId, now)) && products == old(products) + [resp.data]
    {
      var failing := FailingPaths(body);
      if failing != [] {
        resp := DbError(400, ValidationFailed(failing));
        return;
      }
      var id := ChosenId(body, newId);
      if FindById(products, id).Some? {
        resp := DbError(400, DuplicateKey("_id"));
        return;
      }
      var p := NewProduct(body, newId, now);
      products := products + [p];
      resp := Json(201, p);
    }
  }

  /** A product created from a valid body is found again, under the `_id`
      the client sent (in either case) or the server's id, with the body's
      title, price, description and image. */
  lemma CreateThenGet(store: seq<Product>, b: ProductBody, newId: string, now: int)
    requires FailingPaths(b) == [] && IsCanonicalId(newId)
    requires forall p :: p in store ==> p.id != ChosenId(b, newId)
    ensures var r := GetProductById(store + [NewProduct(b, newId, now)], b.id.GetOr(newId));
            r == Json(200, NewProduct(b, newId, now)) && r.data.id == ChosenId(b, newId) &&
            Some(r.data.title) == b.title && Some(Numeric(r.data.price)) == b.price &&
            Some(r.data.description) == b.description && r.data.image == b.image
  {
    var s := store + [NewProduct(b, newId, now)];
    var asked := b.id.GetOr(newId);
    assert IsObjectId(asked) && ObjectIdString(asked) == ChosenId(b, newId);
    var r := GetProductById(s, asked);
    assert NewProduct(b, newId, now) in s;
    assert r.data in s;
    if r.data in store {
      assert false;
    }
  }
}
