/**
 * The product collection as the controller sees it: a sequence of product
 * records in the store's natural scan order, each with a distinct id, and the
 * pure queries the controller runs against it (`find` with a filter,
 * `findById`, `$sample` followed by `$project`), plus the single-record
 * updates it makes (flip `isFeatured`, delete by id).
 */
module Catalog {
  import opened Wrappers

  type Id = string

  /** A product document as returned by a `lean()` query. An absent image is the empty string. */
  datatype Product = Product(
    id: Id,
    name: string,
    description: string,
    price: real,
    category: string,
    image: string,
    isFeatured: bool)

  /** The `$project` stage of the recommendation query keeps `_id, name, description, image, price`. */
  datatype Summary = Summary(id: Id, name: string, description: string, image: string, price: real)

  /** No two records share an id. */
  predicate UniqueIds(store: seq<Product>) {
    forall i, j :: 0 <= i < j < |store| ==> store[i].id != store[j].id
  }

  /** `Product.find(filter)`: the records that pass the filter, in scan order. */
  function Where(store: seq<Product>, keep: Product -> bool): (found: seq<Product>)
    ensures |found| <= |store|
    ensures forall p :: p in found <==> p in store && keep(p)
  {
    if store == [] then []
    else if keep(store[0]) then [store[0]] + Where(store[1..], keep)
    else Where(store[1..], keep)
  }

  /** Filtering keeps scan order: a filter over two stretches of the store is the two results in turn. */
  lemma {:induction false} WhereAppend(a: seq<Product>, b: seq<Product>, keep: Product -> bool)
    ensures Where(a + b, keep) == Where(a, keep) + Where(b, keep)
  {
    if a == [] {
      assert a + b == b;
    } else {
      var ab := a + b;
      assert ab[0] == a[0] && ab[1..] == a[1..] + b;
      WhereAppend(a[1..], b, keep);
      if keep(a[0]) {
        assert Where(ab, keep) == [a[0]] + Where(a[1..] + b, keep);
        assert Where(a, keep) == [a[0]] + Where(a[1..], keep);
      } else {
        assert Where(ab, keep) == Where(a[1..] + b, keep);
        assert Where(a, keep) == Where(a[1..], keep);
      }
    }
  }

  /** A filter over records with distinct ids returns records with distinct ids. */
  lemma {:induction false} WhereUnique(store: seq<Product>, keep: Product -> bool)
    requires UniqueIds(store)
    ensures UniqueIds(Where(store, keep))
  {
    if store != [] {
      WhereUnique(store[1..], keep);
      var rest := Where(store[1..], keep);
      forall q | q in rest ensures q.id != store[0].id {
        var j :| 0 <= j < |store[1..]| && store[1..][j] == q;
        assert store[j + 1] == q;
      }
    }
  }

  /** When no record passes the filter, `find` yields the empty list (not a missing value). */
  lemma {:induction false} WhereNone(store: seq<Product>, keep: Product -> bool)
    requires forall p :: p in store ==> !keep(p)
    ensures Where(store, keep) == []
  {
    if store != [] {
      assert store[0] in store;
      WhereNone(store[1..], keep);
    }
  }

  /** The query `{isFeatured: true}` that materialises the featured-products view. */
  function Featured(store: seq<Product>): (view: seq<Product>)
    ensures forall p :: p in view <==> p in store && p.isFeatured
  {
    Where(store, (p: Product) => p.isFeatured)
  }

  /** The query `{category}` of `getProductsByCategory`. */
  function InCategory(store: seq<Product>, category: string): (found: seq<Product>)
    ensures forall p :: p in found <==> p in store && p.category == category
  {
    Where(store, (p: Product) => p.category == category)
  }

  /** `findById`: the position of the record with this id, if there is one. */
  function FindIndex(store: seq<Product>, id: Id): (r: Option<nat>)
    ensures r.Some? ==> r.value < |store| && store[r.value].id == id
    ensures r.None? <==> forall i :: 0 <= i < |store| ==> store[i].id != id
  {
    if store == [] then None
    else if store[0].id == id then Some(0)
    else match FindIndex(store[1..], id)
      case None => None
      case Some(k) => Some(k + 1)
  }

  /** `product.isFeatured = !product.isFeatured`. */
  function Flip(p: Product): (q: Product)
    ensures q.isFeatured != p.isFeatured
    ensures q.(isFeatured := p.isFeatured) == p
  {
    p.(isFeatured := !p.isFeatured)
  }

  /** The store after the record at position `i` is flipped and saved. */
  function Toggled(store: seq<Product>, i: nat): (after: seq<Product>)
    requires i < |store|
    ensures |after| == |store|
    ensures after[i] == Flip(store[i])
    ensures after[i].isFeatured == !store[i].isFeatured
    ensures after[i].id == store[i].id
    ensures forall j :: 0 <= j < |store| && j != i ==> after[j] == store[j]
  {
    store[i := Flip(store[i])]
  }

  /** Toggling the same record twice restores the store. */
  lemma ToggleTwice(store: seq<Product>, i: nat)
    requires i < |store|
    ensures Toggled(Toggled(store, i), i) == store
  {
  }

  /** A toggle changes no id, so the ids stay distinct. */
  lemma ToggledUnique(store: seq<Product>, i: nat)
    requires i < |store| && UniqueIds(store)
    ensures UniqueIds(Toggled(store, i))
  {
  }

  /**
   * After toggling the record at `i`, the featured view lists the flipped record exactly
   * when the old one was not featured, never lists the old version, and lists every
   * record with another id exactly as before.
   */
  lemma FeaturedAfterToggle(store: seq<Product>, i: nat)
    requires i < |store| && UniqueIds(store)
    ensures Toggled(store, i)[i] in Featured(Toggled(store, i)) <==> !store[i].isFeatured
    ensures store[i] !in Featured(Toggled(store, i))
    ensures forall q: Product :: q.id != store[i].id ==>
              (q in Featured(Toggled(store, i)) <==> q in Featured(store))
  {
    var after := Toggled(store, i);
    forall q: Product | q.id != store[i].id
      ensures q in after <==> q in store
    {
      if q in after {
        var j :| 0 <= j < |after| && after[j] == q;
        assert j != i;
      }
      if q in store {
        var j :| 0 <= j < |store| && store[j] == q;
        assert j != i;
        assert after[j] == q;
      }
    }
  }

  /** `findByIdAndDelete`: the store without the record at position `i`. */
  function Removed(store: seq<Product>, i: nat): (after: seq<Product>)
    requires i < |store|
    ensures |after| == |store| - 1
  {
    store[..i] + store[i + 1..]
  }

  /** Position `j` of the store after the delete holds the record that followed it, past `i`. */
  lemma RemovedAt(store: seq<Product>, i: nat, j: nat)
    requires i < |store| && j < |store| - 1
    ensures Removed(store, i)[j] == if j < i then store[j] else store[j + 1]
  {
  }

  /** Deleting removes exactly the record with that id and keeps the others. */
  lemma RemovedMembers(store: seq<Product>, i: nat)
    requires i < |store| && UniqueIds(store)
    ensures forall p :: p in Removed(store, i) <==> p in store && p.id != store[i].id
  {
    var after := Removed(store, i);
    forall p | p in after ensures p in store && p.id != store[i].id {
      var j :| 0 <= j < |after| && after[j] == p;
      RemovedAt(store, i, j);
    }
    forall p | p in store && p.id != store[i].id ensures p in after {
      var j :| 0 <= j < |store| && store[j] == p;
      if j < i {
        RemovedAt(store, i, j);
      } else {
        RemovedAt(store, i, j - 1);
      }
    }
  }

  /** Deleting a record keeps the remaining ids distinct. */
  lemma RemovedUnique(store: seq<Product>, i: nat)
    requires i < |store| && UniqueIds(store)
    ensures UniqueIds(Removed(store, i))
  {
    var after := Removed(store, i);
    forall j, k | 0 <= j < k < |after| ensures after[j].id != after[k].id {
      RemovedAt(store, i, j);
      RemovedAt(store, i, k);
    }
  }

  function Min(a: nat, b: nat): nat { if a <= b then a else b }

  /** The number of records `$sample: {size: 4}` asks for. */
  const SampleSize: nat := 4

  /**
   * A possible outcome of `$sample: {size: 4}` over `n` records, as positions:
   * `min(4, n)` distinct positions in any order.
   */
  predicate IsSample(picks: seq<nat>, n: nat) {
    && |picks| == Min(SampleSize, n)
    && (forall k :: 0 <= k < |picks| ==> picks[k] < n)
    && (forall k, l :: 0 <= k < l < |picks| ==> picks[k] != picks[l])
  }

  /** The first `m` positions, in order. */
  function Positions(m: nat): (ps: seq<nat>)
    ensures |ps| == m && forall k :: 0 <= k < m ==> ps[k] == k
  {
    if m == 0 then [] else Positions(m - 1) + [m - 1]
  }

  /** Every store has at least one possible sample. */
  lemma SampleExists(n: nat)
    ensures IsSample(Positions(Min(SampleSize, n)), n)
  {
  }

  /** `$project` of one record. */
  function Project(p: Product): (s: Summary)
    ensures s.id == p.id && s.name == p.name && s.description == p.description
    ensures s.image == p.image && s.price == p.price
  {
    Summary(p.id, p.name, p.description, p.image, p.price)
  }

  /** Every record of the store, projected. */
  function Projected(store: seq<Product>): (all: set<Summary>)
    ensures forall p :: p in store ==> Project(p) in all
    ensures forall s :: s in all ==> exists p :: p in store && Project(p) == s
  {
    set p | p in store :: Project(p)
  }

  /** The recommendation pipeline: the sampled records, each projected. */
  function Recommend(store: seq<Product>, picks: seq<nat>): (r: seq<Summary>)
    requires IsSample(picks, |store|)
    ensures |r| <= SampleSize
    ensures |r| == Min(SampleSize, |store|)
    ensures forall k :: 0 <= k < |r| ==> r[k] in Projected(store)
    ensures UniqueIds(store) ==> forall k, l :: 0 <= k < l < |r| ==> r[k].id != r[l].id
  {
    var r := seq(|picks|, k requires 0 <= k < |picks| => Project(store[picks[k]]));
    assert forall k :: 0 <= k < |r| ==> store[picks[k]] in store && r[k] == Project(store[picks[k]]);
    r
  }

  /** Distinct positions, all below `n`, as many as `n`: every position below `n` is picked. */
  lemma {:induction false} SampleCoversAll(picks: seq<nat>, n: nat)
    requires |picks| == n
    requires forall k :: 0 <= k < |picks| ==> picks[k] < n
    requires forall k, l :: 0 <= k < l < |picks| ==> picks[k] != picks[l]
    ensures forall i :: 0 <= i < n ==> i in picks
  {
    var picked := set k | 0 <= k < |picks| :: picks[k];
    var ps := Positions(n);
    var all := set k | 0 <= k < n :: ps[k];
    DistinctCard(picks);
    DistinctCard(ps);
    forall x | x in picked ensures x in all {
      assert ps[x] == x;
    }
    forall i | 0 <= i < n ensures i in picks {
      if i !in picked {
        assert ps[i] == i;
        assert picked <= all - {i};
        assert |all - {i}| == n - 1;
        SubsetCard(picked, all - {i});
        assert false;
      }
    }
  }

  lemma {:induction false} DistinctCard(picks: seq<nat>)
    requires forall k, l :: 0 <= k < l < |picks| ==> picks[k] != picks[l]
    ensures |set k | 0 <= k < |picks| :: picks[k]| == |picks|
  {
    if picks != [] {
      var m := |picks| - 1;
      DistinctCard(picks[..m]);
      var front := set k | 0 <= k < m :: picks[..m][k];
      assert (set k | 0 <= k < |picks| :: picks[k]) == front + {picks[m]};
      assert picks[m] !in front;
    }
  }

  lemma {:induction false} SubsetCard(a: set<nat>, b: set<nat>)
    requires a <= b
    ensures |a| <= |b|
  {
    if a != {} {
      var x :| x in a;
      SubsetCard(a - {x}, b - {x});
    }
  }

  /** With at most four records, the recommendation is every record of the store, projected. */
  lemma SmallStoreRecommendsAll(store: seq<Product>, picks: seq<nat>)
    requires IsSample(picks, |store|) && |store| <= SampleSize
    ensures forall p :: p in store ==> Project(p) in Recommend(store, picks)
  {
    SampleCoversAll(picks, |store|);
    var r := Recommend(store, picks);
    forall p | p in store ensures Project(p) in r {
      var i :| 0 <= i < |store| && store[i] == p;
      assert i in picks;
      var k :| 0 <= k < |picks| && picks[k] == i;
      assert r[k] == Project(p);
    }
  }
}
