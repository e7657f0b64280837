/**
 * The product controller's handlers over two pieces of shared state: the
 * product store and the cache slot `featured_products`. Calls to Redis,
 * MongoDB and Cloudinary are collaborators whose success or failure is passed
 * in as a flag; a thrown error inside a handler's `try` becomes a 500 reply.
 */
module ProductController {
  import opened Wrappers
  import opened Catalog
  import PublicId

  /** The reply a handler sends: 200 with a body, 404, 500, or none at all. */
  datatype Response<T> = Success(body: T) | NotFound | ServerError | NoReply

  class Controller {
    /** The product collection, in natural scan order. */
    var store: seq<Product>
    /** The Redis key `featured_products`: absent, or the list stored there. */
    var cache: Option<seq<Product>>

    ghost predicate Valid()
      reads this
    {
      UniqueIds(store)
    }

    constructor (initial: seq<Product>)
      requires UniqueIds(initial)
      ensures Valid() && store == initial && cache == None
    {
      store := initial;
      cache := None;
    }

    /**
     * `getFeaturedProducts`: read-through over the cache slot. A hit returns the
     * cached list and touches nothing; a miss materialises `{isFeatured: true}`,
     * writes it to the slot and returns it. A failing cache read, store read or
     * cache write fails the request with 500. An empty view is a success.
     */
    method GetFeaturedProducts(cacheGetFails: bool, findFails: bool, cacheSetFails: bool)
      returns (r: Response<seq<Product>>)
      requires Valid()
      modifies this`cache
      ensures Valid() && store == old(store)
      ensures cacheGetFails ==> r == ServerError && cache == old(cache)
      ensures !cacheGetFails && old(cache).Some? ==>
                r == Success(old(cache).value) && cache == old(cache)
      ensures !cacheGetFails && old(cache).None? && (findFails || cacheSetFails) ==>
                r == ServerError && cache == old(cache)
      ensures !cacheGetFails && old(cache).None? && !findFails && !cacheSetFails ==>
                r == Success(Featured(store)) && cache == Some(Featured(store))
    {
      if cacheGetFails {
        return ServerError;
      }
      if cache.Some? {
        return Success(cache.value);
      }
      if findFails {
        return ServerError;
      }
      var featured := Featured(store);
      if cacheSetFails {
        return ServerError;
      }
      cache := Some(featured);
      r := Success(featured);
    }

    /**
     * `updateFeaturedProductsCache`: recompute the featured view and overwrite the
     * slot. A failing store read or cache write is swallowed and leaves the slot as it was.
     */
    method UpdateFeaturedProductsCache(findFails: bool, cacheSetFails: bool)
      requires Valid()
      modifies this`cache
      ensures Valid() && store == old(store)
      ensures cache == if findFails || cacheSetFails then old(cache) else Some(Featured(store))
    {
      if findFails || cacheSetFails {
        return;
      }
      cache := Some(Featured(store));
    }

    /**
     * `toggleFeaturedProduct`: flip the record's flag, save it, then refresh the
     * cache eagerly. A missing id is a 404 and changes nothing; a failing lookup
     * or save is a 500 and changes nothing; a failing refresh is swallowed, the
     * saved flip stands and the updated record is still returned.
     */
    method ToggleFeaturedProduct(id: Id, findFails: bool, saveFails: bool,
                                 refreshFindFails: bool, refreshSetFails: bool)
      returns (r: Response<Product>)
      requires Valid()
      modifies this
      ensures Valid()
      ensures findFails ==> r == ServerError && store == old(store) && cache == old(cache)
      ensures !findFails && FindIndex(old(store), id).None? ==>
                r == NotFound && store == old(store) && cache == old(cache)
      ensures !findFails && FindIndex(old(store), id).Some? && saveFails ==>
                r == ServerError && store == old(store) && cache == old(cache)
      ensures !findFails && FindIndex(old(store), id).Some? && !saveFails ==>
                var i := FindIndex(old(store), id).value;
                && store == Toggled(old(store), i)
                && r == Success(store[i])
                && cache == if refreshFindFails || refreshSetFails then old(cache)
                            else Some(Featured(store))
    {
      if findFails {
        return ServerError;
      }
      var found := FindIndex(store, id);
      if found.None? {
        return NotFound;
      }
      var i := found.value;
      var updated := Flip(store[i]);
      if saveFails {
        return ServerError;
      }
      ToggledUnique(store, i);
      store := store[i := updated];
      UpdateFeaturedProductsCache(refreshFindFails, refreshSetFails);
      r := Success(updated);
    }

    /**
     * `deleteProduct`: look the record up, ask the image host to destroy
     * `products/<public id>` when the record has an image (a failed destroy is
     * swallowed), then delete the record. The cache slot is never touched, so it
     * may go on listing the deleted record. `destroyed` is the destroy request sent.
     */
    method DeleteProduct(id: Id, findFails: bool, destroyFails: bool, deleteFails: bool)
      returns (r: Response<()>, destroyed: Option<string>)
      requires Valid()
      modifies this`store
      ensures Valid() && cache == old(cache)
      ensures findFails ==> r == ServerError && destroyed == None && store == old(store)
      ensures !findFails && FindIndex(old(store), id).None? ==>
                r == NotFound && destroyed == None && store == old(store)
      ensures !findFails && FindIndex(old(store), id).Some? ==>
                var i := FindIndex(old(store), id).value;
                && destroyed == (if old(store)[i].image != "" then
                                   Some(PublicId.DestroyTarget(old(store)[i].image))
                                 else None)
                && (deleteFails ==> r == ServerError && store == old(store))
                && (!deleteFails ==> r == Success(()) && store == Removed(old(store), i))
    {
      if findFails {
        return ServerError, None;
      }
      var found := FindIndex(store, id);
      if found.None? {
        return NotFound, None;
      }
      var i := found.value;
      destroyed := None;
      if store[i].image != "" {
        destroyed := Some(PublicId.DestroyTarget(store[i].image));
        // Whether or not the image host reports `destroyFails`, the handler carries on.
      }
      if deleteFails {
        return ServerError, destroyed;
      }
      RemovedUnique(store, i);
      store := Removed(store, i);
      r := Success(());
    }

    /** `getProductsByCategory`: exactly the records of that category, or 500 if the query fails. */
    method GetProductsByCategory(category: string, findFails: bool)
      returns (r: Response<seq<Product>>)
      requires Valid()
      ensures findFails <==> r == ServerError
      ensures !findFails ==> r.Success? && UniqueIds(r.body)
      ensures !findFails ==> forall p :: p in r.body <==> p in store && p.category == category
    {
      if findFails {
        return ServerError;
      }
      WhereUnique(store, (p: Product) => p.category == category);
      r := Success(InCategory(store, category));
    }

    /**
     * `getRecommendedProducts`: `$sample` of four records, projected. `picks` is
     * the sample the store happened to draw.
     */
    method GetRecommendedProducts(findFails: bool, picks: seq<nat>)
      returns (r: Response<seq<Summary>>)
      requires Valid() && IsSample(picks, |store|)
      ensures findFails <==> r == ServerError
      ensures !findFails ==> r.Success? && |r.body| == Min(SampleSize, |store|)
      ensures !findFails ==> forall k :: 0 <= k < |r.body| ==> r.body[k] in Projected(store)
      ensures !findFails ==> forall k, l :: 0 <= k < l < |r.body| ==> r.body[k].id != r.body[l].id
    {
      if findFails {
        return ServerError;
      }
      var sample := Recommend(store, picks);
      r := Success(sample);
    }

    /**
     * `createProduct` as written: reading the unbound `image` throws before any
     * store call, and the empty `catch` swallows it without replying.
     */
    method CreateProduct(name: string, description: string, price: real, category: string)
      returns (r: Response<Product>)
      ensures r == NoReply
    {
      r := NoReply;
    }
  }

  /** With no write in between, a second featured read is a hit that returns the first read's list. */
  method ReadTwice(c: Controller) returns (first: Response<seq<Product>>, second: Response<seq<Product>>)
    requires c.Valid()
    modifies c
    ensures c.store == old(c.store)
    ensures old(c.cache).None? ==> first == Success(Featured(c.store))
    ensures first.Success? && second == first && c.cache == Some(first.body)
  {
    first := c.GetFeaturedProducts(false, false, false);
    second := c.GetFeaturedProducts(false, false, false);
  }

  /** A toggle whose refresh succeeds is seen by the next featured read. */
  method ToggleThenRead(c: Controller, id: Id) returns (view: Response<seq<Product>>)
    requires c.Valid() && FindIndex(c.store, id).Some?
    modifies c
    ensures view == Success(Featured(c.store))
    ensures c.store == Toggled(old(c.store), FindIndex(old(c.store), id).value)
  {
    var _ := c.ToggleFeaturedProduct(id, false, false, false, false);
    view := c.GetFeaturedProducts(false, false, false);
  }

  /** With nothing featured, the read succeeds with an empty list and caches it. */
  method EmptyViewIsCached(c: Controller) returns (view: Response<seq<Product>>)
    requires c.Valid() && c.cache.None?
    requires forall p :: p in c.store ==> !p.isFeatured
    modifies c
    ensures view == Success([]) && c.cache == Some([])
  {
    WhereNone(c.store, (p: Product) => p.isFeatured);
    view := c.GetFeaturedProducts(false, false, false);
  }

  /** After reading the view and deleting a featured record, the cache still lists that record. */
  method StaleAfterDelete(p: Product) returns (c: Controller)
    requires p.isFeatured
    ensures c.store == [] && c.cache == Some([p])
  {
    c := new Controller([p]);
    var view := c.GetFeaturedProducts(false, false, false);
    assert Featured([p]) == [p] by {
      assert p in Featured([p]);
    }
    var _, _ := c.DeleteProduct(p.id, false, false, false);
  }
}
