/**
 * `Cache`: a static facade over a PSR-16 cache. The static field `$cache` is modelled by
 * an object of class `Cache` whose field the methods update; the cache it forwards to is
 * a `Store` of values by key, each with the TTL it was set with.
 */
module CacheFacade {
  import opened Wrappers
  import opened PhpValues
  import opened HttpMessages

  /** A `DateInterval`, kept as its ISO 8601 duration text. */
  datatype Interval = Interval(duration: string)

  /** A PSR-16 cache; expiry is not part of this model. */
  class Store {
    var items: map<string, Value>
    var ttls: map<string, Option<Interval>>

    constructor ()
      ensures items == map[] && ttls == map[]
    {
      items := map[];
      ttls := map[];
    }

    /** `get($key)`: the stored value, or the default null. */
    function Get(key: string): Value
      reads this
    {
      Lookup(items, key)
    }

    predicate Has(key: string)
      reads this
    {
      key in items
    }

    method Set(key: string, data: Value, ttl: Option<Interval>)
      modifies this
      ensures items == old(items)[key := data] && ttls == old(ttls)[key := ttl]
    {
      items := items[key := data];
      ttls := ttls[key := ttl];
    }

    method Delete(key: string)
      modifies this
      ensures items == old(items) - {key} && ttls == old(ttls) - {key}
    {
      items := items - {key};
      ttls := ttls - {key};
    }

    method Clear()
      modifies this
      ensures items == map[] && ttls == map[]
    {
      items := map[];
      ttls := map[];
    }
  }

  /** A PSR-16 `get`: the value under `key`, PHP null when there is none. */
  function Lookup(items: map<string, Value>, key: string): Value {
    if key in items then items[key] else Null
  }

  /**
   * What `entry` computes from the store's items: the value it returns, and the items
   * afterwards. A cached value counts only when it is not PHP-empty.
   */
  function EntryOn(items: map<string, Value>, key: string, builder: string -> Value): (r: (Value, map<string, Value>))
    ensures r.1.Keys == items.Keys + {key} || (r.1 == items && key in items)
    ensures key in r.1 && r.1[key] == r.0
    ensures forall k | k in items && k != key :: k in r.1 && r.1[k] == items[k]
    ensures !IsEmpty(Lookup(items, key)) ==> r == (items[key], items)
    ensures IsEmpty(Lookup(items, key)) ==> r.0 == builder(key)
  {
    var cached := Lookup(items, key);
    if !IsEmpty(cached) then (cached, items) else (builder(key), items[key := builder(key)])
  }

  /** A value the builder gives that is not empty is served from the cache next time. */
  lemma EntryIsCachedOnce(items: map<string, Value>, key: string, builder: string -> Value, other: string -> Value)
    requires !IsEmpty(builder(key))
    ensures var first := EntryOn(items, key, builder);
      EntryOn(first.1, key, other) == first
  {
  }

  /** On a miss, a built value that is PHP-empty (null, false, 0, "", "0", []) is built again next time. */
  lemma EmptyEntryIsRebuilt(items: map<string, Value>, key: string, builder: string -> Value)
    requires IsEmpty(Lookup(items, key)) && IsEmpty(builder(key))
    ensures var first := EntryOn(items, key, builder);
      EntryOn(first.1, key, builder).0 == builder(key) && IsEmpty(Lookup(first.1, key))
  {
  }

  const NotInitialized: string := "Cache class has not been initialized. Please call Cache::init() method first."

  class Cache {
    /** `Cache::$cache`, null until the first `init`. */
    var cache: Store?

    constructor ()
      ensures cache == null
    {
      cache := null;
    }

    /** `init($cache)`: the first store stays; later calls change nothing. */
    method Init(s: Store)
      modifies this
      ensures old(cache) == null ==> cache == s
      ensures old(cache) != null ==> cache == old(cache)
    {
      if cache == null {
        cache := s;
      }
    }

    /** `Cache::get($key)`, forwarded through `__callStatic`. */
    method Get(key: string, at: Origin) returns (r: Result<Value, Exception>)
      ensures cache == null ==> r == Failure(UnexpectedValue(NotInitialized, at))
      ensures cache != null ==> r == Success(cache.Get(key))
    {
      if cache == null {
        return Failure(UnexpectedValue(NotInitialized, at));
      }
      return Success(cache.Get(key));
    }

    /** `Cache::has($key)`. */
    method Has(key: string, at: Origin) returns (r: Result<bool, Exception>)
      ensures cache == null ==> r == Failure(UnexpectedValue(NotInitialized, at))
      ensures cache != null ==> r == Success(cache.Has(key))
    {
      if cache == null {
        return Failure(UnexpectedValue(NotInitialized, at));
      }
      return Success(cache.Has(key));
    }

    /** `Cache::set($key, $data, $ttl)`. */
    method Set(key: string, data: Value, ttl: Option<Interval>, at: Origin) returns (r: Result<(), Exception>)
      modifies cache
      ensures cache == old(cache)
      ensures old(cache) == null ==> r == Failure(UnexpectedValue(NotInitialized, at))
      ensures old(cache) != null ==>
        r == Success(()) && cache.items == old(cache.items)[key := data] && cache.ttls == old(cache.ttls)[key := ttl]
    {
      if cache == null {
        return Failure(UnexpectedValue(NotInitialized, at));
      }
      cache.Set(key, data, ttl);
      return Success(());
    }

    /** `Cache::delete($key)`. */
    method Delete(key: string, at: Origin) returns (r: Result<(), Exception>)
      modifies cache
      ensures cache == old(cache)
      ensures old(cache) == null ==> r == Failure(UnexpectedValue(NotInitialized, at))
      ensures old(cache) != null ==>
        r == Success(()) && cache.items == old(cache.items) - {key} && cache.ttls == old(cache.ttls) - {key}
    {
      if cache == null {
        return Failure(UnexpectedValue(NotInitialized, at));
      }
      cache.Delete(key);
      return Success(());
    }

    /** `Cache::clear()`. */
    method Clear(at: Origin) returns (r: Result<(), Exception>)
      modifies cache
      ensures cache == old(cache)
      ensures old(cache) == null ==> r == Failure(UnexpectedValue(NotInitialized, at))
      ensures old(cache) != null ==> r == Success(()) && cache.items == map[] && cache.ttls == map[]
    {
      if cache == null {
        return Failure(UnexpectedValue(NotInitialized, at));
      }
      cache.Clear();
      return Success(());
    }

    /**
     * `entry($key, $builder, $ttl)`: a cached value that is not PHP-empty is returned
     * without calling the builder; otherwise the builder's value for the key is stored
     * with the TTL and returned.
     */
    method Entry(key: string, builder: string -> Value, ttl: Option<Interval>, at: Origin)
      returns (r: Result<Value, Exception>)
      modifies cache
      ensures cache == old(cache)
      ensures old(cache) == null ==> r == Failure(UnexpectedValue(NotInitialized, at))
      ensures old(cache) != null ==>
        var (data, items) := EntryOn(old(cache.items), key, builder);
        r == Success(data) && cache.items == items &&
        cache.ttls == if IsEmpty(old(cache.Get(key))) then old(cache.ttls)[key := ttl] else old(cache.ttls)
    {
      var cached := Get(key, at);
      if cached.Failure? {
        return Failure(cached.error);
      }
      if !IsEmpty(cached.value) {
        return Success(cached.value);
      }
      var data := builder(key);
      var stored := Set(key, data, ttl, at);
      return Success(data);
    }
  }
}
