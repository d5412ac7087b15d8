/** A user's favorites (`favorite.controller.js`): the list of product ids
    stored on the user document, and the three handlers that add to it,
    remove from it and read it. */
module Favorites {
  import opened Common
  import Catalog

  type ProductId = string

  predicate NoDuplicates(s: seq<ProductId>) {
    forall j, k :: 0 <= j < k < |s| ==> s[j] != s[k]
  }

  /** The list after `addFavorite`: `p` appended when it is not yet there. */
  function Added(s: seq<ProductId>, p: ProductId): (r: seq<ProductId>)
    ensures p in r
    ensures |s| <= |r| <= |s| + 1
    ensures r[..|s|] == s
    ensures r == s <==> p in s
    ensures forall x :: x in r <==> x in s || x == p
    ensures NoDuplicates(s) ==> NoDuplicates(r)
  {
    if p in s then s else s + [p]
  }

  /** The list after `removeFavorite`: every entry equal to `p` dropped, the
      others kept in their order. */
  function Removed(s: seq<ProductId>, p: ProductId): (r: seq<ProductId>)
    ensures p !in r
    ensures forall x :: x in r <==> x in s && x != p
    ensures IsSubsequence(r, s)
    ensures p !in s ==> r == s
    decreases |s|
  {
    if s == [] then []
    else
      assert s == [s[0]] + s[1..];
      if s[0] == p then Removed(s[1..], p)
      else [s[0]] + Removed(s[1..], p)
  }

  /** Removal drops every occurrence of `p` and keeps every other entry as
      often as it occurred. */
  lemma {:induction false} RemovedCounts(s: seq<ProductId>, p: ProductId)
    ensures multiset(Removed(s, p)) == multiset(s)[p := 0]
    decreases |s|
  {
    if s != [] {
      RemovedCounts(s[1..], p);
      assert s == [s[0]] + s[1..];
    }
  }

  /** Adding twice leaves the list of adding once. */
  lemma AddIdempotent(s: seq<ProductId>, p: ProductId)
    ensures Added(Added(s, p), p) == Added(s, p)
  {
  }

  /** Removing twice leaves the list of removing once. */
  lemma RemoveIdempotent(s: seq<ProductId>, p: ProductId)
    ensures Removed(Removed(s, p), p) == Removed(s, p)
  {
  }

  lemma {:induction false} RemovedCons(x: ProductId, s: seq<ProductId>, p: ProductId)
    ensures Removed([x] + s, p) == (if x == p then [] else [x]) + Removed(s, p)
  {
    var xs := [x] + s;
    assert xs[0] == x && xs[1..] == s;
  }

  /** Removal distributes over concatenation. */
  lemma {:induction false} RemovedAppend(a: seq<ProductId>, b: seq<ProductId>, p: ProductId)
    ensures Removed(a + b, p) == Removed(a, p) + Removed(b, p)
    decreases |a|
  {
    if a != [] {
      var h := if a[0] == p then [] else [a[0]];
      calc {
        Removed(a + b, p);
        { assert a + b == [a[0]] + (a[1..] + b); }
        Removed([a[0]] + (a[1..] + b), p);
        { RemovedCons(a[0], a[1..] + b, p); }
        h + Removed(a[1..] + b, p);
        { RemovedAppend(a[1..], b, p); }
        h + (Removed(a[1..], p) + Removed(b, p));
        (h + Removed(a[1..], p)) + Removed(b, p);
        { RemovedCons(a[0], a[1..], p); assert a == [a[0]] + a[1..]; }
        Removed(a, p) + Removed(b, p);
      }
    } else {
      assert a + b == b;
    }
  }

  /** Removal keeps a list free of duplicates. */
  lemma {:induction false} RemovedNoDuplicates(s: seq<ProductId>, p: ProductId)
    requires NoDuplicates(s)
    ensures NoDuplicates(Removed(s, p))
    decreases |s|
  {
    if s != [] {
      RemovedNoDuplicates(s[1..], p);
      var rest := Removed(s[1..], p);
      if s[0] != p {
        assert s[0] !in s[1..];
        assert s[0] !in rest;
        var r := [s[0]] + rest;
        forall j, k | 0 <= j < k < |r| ensures r[j] != r[k] {
          if j == 0 {
            assert r[k] == rest[k - 1] && rest[k - 1] in rest;
          } else {
            assert r[j] == rest[j - 1] && r[k] == rest[k - 1];
          }
        }
      }
    }
  }

  /** After adding and then removing `p`, `p` is absent and the other entries
      are as before; if `p` was absent to begin with, the list is restored. */
  lemma AddThenRemove(s: seq<ProductId>, p: ProductId)
    ensures Removed(Added(s, p), p) == Removed(s, p)
    ensures p !in s ==> Removed(Added(s, p), p) == s
  {
    if p !in s {
      RemovedAppend(s, [p], p);
      assert Removed([p], p) == [];
    }
  }

  /** Removing then adding `p` moves it to the end of the list. */
  lemma RemoveThenAdd(s: seq<ProductId>, p: ProductId)
    ensures Added(Removed(s, p), p) == Removed(s, p) + [p]
  {
  }

  /** Adding `p` and removing a different id `q` commute. */
  lemma AddRemoveCommute(s: seq<ProductId>, p: ProductId, q: ProductId)
    requires p != q
    ensures Removed(Added(s, p), q) == Added(Removed(s, q), p)
  {
    if p !in s {
      RemovedAppend(s, [p], q);
      assert Removed([p], q) == [p];
    }
  }

  // ---------------------------------------------------------------------
  // The user document and the handlers

  /** The part of the user document these handlers touch. */
  class User {
    var favorites: seq<ProductId>

    constructor (favorites: seq<ProductId>)
      ensures this.favorites == favorites
    {
      this.favorites := favorites;
    }
  }

  /** `addFavorite`: `user` is what `User.findById(req.userId)` returned
      (null when there is no such user). The message is the same whether or
      not the list changed. */
  method AddFavorite(user: User?, productId: ProductId) returns (resp: Response<()>)
    modifies user
    ensures user == null ==> resp == Msg(404, "User not found")
    ensures user != null ==> resp == Msg(200, "Added to favorites")
    ensures user != null ==> user.favorites == Added(old(user.favorites), productId)
    ensures user != null && NoDuplicates(old(user.favorites)) ==> NoDuplicates(user.favorites)
  {
    if user == null {
      return Msg(404, "User not found");
    }
    if productId !in user.favorites {
      user.favorites := user.favorites + [productId];
    }
    resp := Msg(200, "Added to favorites");
  }

  /** `removeFavorite`: replaces the list by its entries other than
      `productId`. */
  method RemoveFavorite(user: User?, productId: ProductId) returns (resp: Response<()>)
    modifies user
    ensures user == null ==> resp == Msg(404, "User not found")
    ensures user != null ==> resp == Msg(200, "Removed from favorites")
    ensures user != null ==> user.favorites == Removed(old(user.favorites), productId)
    ensures user != null && NoDuplicates(old(user.favorites)) ==> NoDuplicates(user.favorites)
  {
    if user == null {
      return Msg(404, "User not found");
    }
    if NoDuplicates(user.favorites) {
      RemovedNoDuplicates(user.favorites, productId);
    }
    user.favorites := Removed(user.favorites, productId);
    resp := Msg(200, "Removed from favorites");
  }

  /** The ids of a list of products, in order. */
  function Ids(ps: seq<Catalog.Product>): (r: seq<ProductId>)
    ensures |r| == |ps| && forall k :: 0 <= k < |ps| ==> r[k] == ps[k].id
  {
    seq(|ps|, k requires 0 <= k < |ps| => ps[k].id)
  }

  /** `populate('favorites')`: each stored id replaced by its product, in
      list order; ids with no product are left out. */
  function Populate(ids: seq<ProductId>, store: seq<Catalog.Product>): (r: seq<Catalog.Product>)
    ensures |r| <= |ids|
    ensures forall q :: q in r ==> q in store && q.id in ids
    ensures forall k :: 0 <= k < |r| ==> Catalog.FindById(store, r[k].id) == Some(r[k])
    decreases |ids|
  {
    if ids == [] then []
    else
      var rest := Populate(ids[1..], store);
      assert forall q :: q in rest ==> q.id in ids by {
        forall q | q in rest ensures q.id in ids {
          assert q.id in ids[1..];
        }
      }
      match Catalog.FindById(store, ids[0])
      case None => rest
      case Some(q) =>
        assert forall k :: 1 <= k < |rest| + 1 ==> ([q] + rest)[k] == rest[k - 1];
        [q] + rest
  }

  /** Every listed id that names a product contributes that product. */
  lemma {:induction false} PopulateFindsAll(ids: seq<ProductId>, store: seq<Catalog.Product>)
    ensures forall k :: 0 <= k < |ids| && Catalog.FindById(store, ids[k]).Some? ==>
              Catalog.FindById(store, ids[k]).value in Populate(ids, store)
    decreases |ids|
  {
    if ids != [] {
      PopulateFindsAll(ids[1..], store);
      forall k | 0 <= k < |ids| && Catalog.FindById(store, ids[k]).Some?
        ensures Catalog.FindById(store, ids[k]).value in Populate(ids, store)
      {
        if k > 0 {
          assert ids[k] == ids[1..][k - 1];
        }
      }
    }
  }

  /** The products come in the order of their ids in the list. */
  lemma {:induction false} PopulateOrder(ids: seq<ProductId>, store: seq<Catalog.Product>)
    ensures IsSubsequence(Ids(Populate(ids, store)), ids)
    decreases |ids|
  {
    if ids != [] {
      var rest := Populate(ids[1..], store);
      PopulateOrder(ids[1..], store);
      SubsequenceSkip(Ids(rest), ids);
      match Catalog.FindById(store, ids[0])
      case None =>
      case Some(q) =>
        SubsequenceCons(ids[0], Ids(rest), ids);
        assert Ids([q] + rest) == [ids[0]] + Ids(rest);
    }
  }

  /** Populating keeps every id that names a product as often as it is
      listed, and no other id. */
  lemma {:induction false} PopulateCounts(ids: seq<ProductId>, store: seq<Catalog.Product>)
    ensures forall id :: multiset(Ids(Populate(ids, store)))[id] ==
              if Catalog.FindById(store, id).Some? then multiset(ids)[id] else 0
    decreases |ids|
  {
    if ids != [] {
      PopulateCounts(ids[1..], store);
      assert multiset(ids) == multiset{ids[0]} + multiset(ids[1..]) by {
        assert ids == [ids[0]] + ids[1..];
      }
      var rest := Populate(ids[1..], store);
      match Catalog.FindById(store, ids[0])
      case None =>
      case Some(q) =>
        assert multiset(Ids([q] + rest)) == multiset{ids[0]} + multiset(Ids(rest)) by {
          assert Ids([q] + rest) == [ids[0]] + Ids(rest);
        }
    }
  }

  /** When every stored id names a product, populating keeps one product
      per id, in the same order. */
  lemma {:induction false} PopulateAllFound(ids: seq<ProductId>, store: seq<Catalog.Product>)
    requires forall id :: id in ids ==> exists q :: q in store && q.id == id
    ensures |Populate(ids, store)| == |ids|
    ensures forall k :: 0 <= k < |ids| ==> Populate(ids, store)[k].id == ids[k]
    decreases |ids|
  {
    if ids != [] {
      assert ids[0] in ids;
      var found := Catalog.FindById(store, ids[0]);
      assert found.Some?;
      assert forall id :: id in ids[1..] ==> id in ids;
      PopulateAllFound(ids[1..], store);
      var rest := Populate(ids[1..], store);
      assert Populate(ids, store) == [found.value] + rest;
      forall k | 0 <= k < |ids| ensures Populate(ids, store)[k].id == ids[k] {
        if k > 0 {
          assert Populate(ids, store)[k] == rest[k - 1] && ids[k] == ids[1..][k - 1];
        }
      }
    }
  }

  /** `getFavorites`: the user's favorites as products. */
  method GetFavorites(user: User?, store: seq<Catalog.Product>) returns (resp: Response<seq<Catalog.Product>>)
    ensures user == null ==> resp == Msg(404, "User not found")
    ensures user != null ==> resp.Json? && resp.status == 200 && resp.data == Populate(user.favorites, store)
  {
    if user == null {
      return Msg(404, "User not found");
    }
    resp := Json(200, Populate(user.favorites, store));
  }
}
