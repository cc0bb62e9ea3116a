/** The generic LRU cache of custom/LRUCache.java: a key -> entry map plus one
    sentinel-bounded doubly-linked recency list. The list is modelled by the
    sequence of keys it links, head (most recently used) first; unlinking a
    node is `Without`, linking it after the head sentinel is prepending. */
module LruCache {
  import opened SeqUtil

  datatype Option<T> = None | Some(value: T)

  /** The list after `key` is unlinked (if present) and linked again after the head. */
  function Touch<T(==)>(order: seq<T>, key: T): (r: seq<T>)
    ensures |r| >= 1 && r[0] == key
    ensures Distinct(order) ==> Distinct(r)
    ensures (set k | k in r) == (set k | k in order) + {key}
  {
    var rest := Without(order, key);
    assert forall i :: 0 <= i < |order| && order[i] != key ==> order[i] in rest;
    [key] + rest
  }

  /** The list after a `put`: touched, then its tail unlinked when the map holds
      more than `capacity` entries. */
  function AfterPut<T(==)>(order: seq<T>, key: T, capacity: int): seq<T>
  {
    var touched := Touch(order, key);
    if |touched| > capacity then touched[..|touched| - 1] else touched
  }

  /** The map and the list hold the same keys, the list has no duplicates,
      and the map never holds more than `capacity` entries (none when the
      capacity is not positive). */
  ghost predicate Consistent<T>(order: seq<T>, cache: map<T, T>, capacity: int)
  {
    && Distinct(order)
    && (set k | k in order) == cache.Keys
    && |order| == |cache|
    && |cache| <= (if capacity < 0 then 0 else capacity)
  }

  /** The state a `put` leaves behind is consistent again: the touched list
      and the updated map, with the list's tail unlinked and its key removed
      from the map exactly when the map has grown beyond the capacity. */
  lemma PutKeepsConsistent<T>(order: seq<T>, cache: map<T, T>, key: T, value: T, capacity: int,
                              order': seq<T>, cache': map<T, T>)
    requires Consistent(order, cache, capacity)
    requires var touched := Touch(order, key);
             var updated := cache[key := value];
             && (|updated| > capacity ==> |touched| >= 1 && order' == Without(touched, touched[|touched| - 1])
                                           && cache' == updated - {touched[|touched| - 1]})
             && (|updated| <= capacity ==> order' == touched && cache' == updated)
    ensures order' == AfterPut(order, key, capacity)
    ensures Consistent(order', cache', capacity)
  {
    var touched := Touch(order, key);
    var updated := cache[key := value];
    if |updated| > capacity {
      PutEvicts(order, cache, key, value, capacity, touched, updated, order', cache');
    } else {
      PutSize(order, cache, key, value, capacity);
      assert AfterPut(order, key, capacity) == touched;
    }
  }

  /** The `put` that grows the map past the capacity and evicts the tail. */
  lemma PutEvicts<T>(order: seq<T>, cache: map<T, T>, key: T, value: T, capacity: int,
                     touched: seq<T>, updated: map<T, T>, order': seq<T>, cache': map<T, T>)
    requires Consistent(order, cache, capacity)
    requires touched == Touch(order, key) && updated == cache[key := value] && |updated| > capacity
    requires order' == Without(touched, touched[|touched| - 1]) && cache' == updated - {touched[|touched| - 1]}
    ensures order' == AfterPut(order, key, capacity)
    ensures Consistent(order', cache', capacity)
  {
    PutSize(order, cache, key, value, capacity);
    EvictTailConsistent(touched, updated, capacity);
  }

  /** The touched list and the updated map hold the same keys, as many of each. */
  lemma PutSize<T>(order: seq<T>, cache: map<T, T>, key: T, value: T, capacity: int)
    requires Consistent(order, cache, capacity)
    ensures Distinct(Touch(order, key))
    ensures (set k | k in Touch(order, key)) == cache[key := value].Keys
    ensures |cache[key := value]| == |Touch(order, key)|
  {
    TouchSize(order, cache.Keys, key);
    assert cache[key := value].Keys == cache.Keys + {key};
  }

  /** Unlinking the tail of a list one longer than the capacity, and removing
      its key from the map, restores consistency. */
  lemma EvictTailConsistent<T>(touched: seq<T>, updated: map<T, T>, capacity: int)
    requires Distinct(touched) && (set k | k in touched) == updated.Keys && |touched| == |updated|
    requires |touched| >= 1 && |touched| > capacity && |touched| - 1 <= (if capacity < 0 then 0 else capacity)
    ensures Without(touched, touched[|touched| - 1]) == touched[..|touched| - 1]
    ensures Consistent(touched[..|touched| - 1], updated - {touched[|touched| - 1]}, capacity)
  {
    var last := |touched| - 1;
    var victim := touched[last];
    var rest := touched[..last];
    DropLast(touched, rest);
    DistinctCard(rest);
    var keys' := (updated - {victim}).Keys;
    assert keys' == updated.Keys - {victim};
    assert |updated - {victim}| == |keys'|;
  }

  /** Unlinking the tail of a list without duplicates leaves its other
      elements, in order, without duplicates, and without the tail. */
  lemma DropLast<T>(s: seq<T>, rest: seq<T>)
    requires Distinct(s) && |s| >= 1 && rest == s[..|s| - 1]
    ensures Without(s, s[|s| - 1]) == rest
    ensures Distinct(rest) && s[|s| - 1] !in rest
    ensures (set k | k in rest) == (set k | k in s) - {s[|s| - 1]}
  {
    UnlinkLast(s, rest);
    PrefixDistinct(s, rest);
    PrefixKeys(s, rest);
  }

  lemma UnlinkLast<T>(s: seq<T>, rest: seq<T>)
    requires Distinct(s) && |s| >= 1 && rest == s[..|s| - 1]
    ensures Without(s, s[|s| - 1]) == rest
  {
    var last := |s| - 1;
    WithoutAt(s, last);
    assert s[last + 1..] == [];
    assert s[..last] + [] == rest;
  }

  lemma PrefixDistinct<T>(s: seq<T>, rest: seq<T>)
    requires Distinct(s) && |s| >= 1 && rest == s[..|s| - 1]
    ensures Distinct(rest) && s[|s| - 1] !in rest
  {
    assert forall i :: 0 <= i < |rest| ==> rest[i] == s[i];
  }

  lemma PrefixKeys<T>(s: seq<T>, rest: seq<T>)
    requires Distinct(s) && |s| >= 1 && rest == s[..|s| - 1]
    ensures (set k | k in rest) == (set k | k in s) - {s[|s| - 1]}
  {
    assert s == rest + [s[|s| - 1]];
  }

  /** A key is in the map exactly when it is in the list. */
  lemma ListedIffCached<T>(order: seq<T>, cache: map<T, T>, key: T, capacity: int)
    requires Consistent(order, cache, capacity)
    ensures key in cache <==> key in order
  {
    assert key in cache <==> key in (set k | k in order);
  }

  /** A key missing from the map is missing from the list. */
  lemma NotCachedNotListed<T>(order: seq<T>, cache: map<T, T>, key: T, capacity: int)
    requires Consistent(order, cache, capacity) && key !in cache
    ensures Without(order, key) == order
  {
    assert key !in (set k | k in order);
  }

  /** Touching a key that is already cached keeps the state consistent. */
  lemma TouchKeepsConsistent<T>(order: seq<T>, cache: map<T, T>, key: T, capacity: int)
    requires Consistent(order, cache, capacity) && key in cache
    ensures Consistent(Touch(order, key), cache, capacity)
  {
    TouchSize(order, cache.Keys, key);
    assert cache.Keys + {key} == cache.Keys;
  }

  class LRUCache<T(==)> {
    var cache: map<T, T>
    const capacity: int
    /** The keys of the nodes between the head and tail sentinels, head first. */
    var order: seq<T>

    /** The map and the list hold the same keys, the list has no duplicates,
        and the map never holds more than `capacity` entries (none when the
        capacity is not positive). */
    ghost predicate Valid()
      reads this
    {
      Consistent(order, cache, capacity)
    }

    constructor (capacity: int)
      ensures Valid() && this.capacity == capacity
      ensures cache == map[] && order == []
    {
      this.capacity := capacity;
      cache := map[];
      order := [];
    }

    /** `addNode`: link the node of `key` right after the head sentinel. */
    method AddNode(key: T)
      modifies this
      ensures order == [key] + old(order)
      ensures cache == old(cache)
    {
      order := [key] + order;
    }

    /** `remove`: unlink the node of `key` from the list (the map is not touched). */
    method Remove(key: T)
      modifies this
      ensures order == Without(old(order), key)
      ensures cache == old(cache)
    {
      order := Without(order, key);
    }

    method Put(key: T, value: T)
      requires Valid()
      modifies this
      ensures Valid()
      ensures order == AfterPut(old(order), key, capacity)
      ensures forall k :: k in cache ==> cache[k] == old(cache)[key := value][k]
    {
      ghost var order0, cache0 := order, cache;
      if key in cache {
        Remove(key);
      } else {
        NotCachedNotListed(order, cache, key, capacity);
      }
      cache := cache[key := value];
      AddNode(key);
      assert order == Touch(order0, key);
      if |cache| > capacity {
        var victim := order[|order| - 1];
        Remove(victim);
        cache := cache - {victim};
      }
      PutKeepsConsistent(order0, cache0, key, value, capacity, order, cache);
    }

    method Get(key: T) returns (r: Option<T>)
      requires Valid()
      modifies this
      ensures Valid()
      ensures cache == old(cache)
      ensures key !in old(cache) ==> r == None && order == old(order)
      ensures key in old(cache) ==> r == Some(old(cache)[key]) && order == Touch(old(order), key)
    {
      if key !in cache {
        return None;
      }
      var value := cache[key];
      Remove(key);
      AddNode(key);
      TouchKeepsConsistent(old(order), cache, key, capacity);
      r := Some(value);
    }
  }

  /** Touching a key of a list that holds exactly the map's keys yields a list
      that holds exactly the keys of the updated map. */
  lemma TouchSize<T>(order: seq<T>, keys: set<T>, key: T)
    requires Distinct(order) && (set k | k in order) == keys && |order| == |keys|
    ensures (set k | k in Touch(order, key)) == keys + {key}
    ensures |Touch(order, key)| == |keys + {key}|
  {
    DistinctCard(Touch(order, key));
  }

  /** The position of `x` in `s`. */
  function IndexOf<T(==)>(s: seq<T>, x: T): (i: nat)
    requires x in s
    ensures i < |s| && s[i] == x
  {
    if s[0] == x then 0 else 1 + IndexOf(s[1..], x)
  }

  /** A touch moves the key to the head and keeps the other keys in their old
      relative order: the list is the key followed by the old list with the
      key's node cut out. */
  lemma {:induction false} TouchKeepsOrder<T>(order: seq<T>, i: nat)
    requires Distinct(order) && i < |order|
    ensures Touch(order, order[i]) == [order[i]] + order[..i] + order[i + 1..]
  {
    WithoutAt(order, i);
  }

  /** When the capacity is at least one, after `put(k, v)` the key is at the
      head of the list, and eviction has removed exactly the old tail. */
  lemma {:induction false} PutPlacesKeyAtHead<T>(order: seq<T>, key: T, capacity: int)
    requires capacity >= 1 && Distinct(order) && |order| <= capacity
    ensures var r := AfterPut(order, key, capacity);
            |r| >= 1 && r[0] == key && |r| <= capacity
    ensures key !in order && |order| == capacity ==> AfterPut(order, key, capacity) == [key] + order[..|order| - 1]
    ensures key in order ==> |AfterPut(order, key, capacity)| == |order|
  {
    if key in order {
      var i := IndexOf(order, key);
      WithoutAt(order, i);
    }
  }

  /** The demo in CacheStrategy.main: capacity 2, put A, put B, get A, put C
      (evicts B), get B, put D (evicts A), get A, get C, get D. */
  method CacheStrategyScenario() returns (a1: Option<string>, b: Option<string>, a2: Option<string>,
                                         c: Option<string>, d: Option<string>)
    ensures a1 == Some("str1") && b == None && a2 == None
    ensures c == Some("str3") && d == Some("str4")
  {
    var cache;
    cache, a1 := ScenarioFirst();
    b := ScenarioSecond(cache);
    ScenarioThird(cache);
    a2, c, d := ScenarioFourth(cache);
  }

  /** put A, put B, get A: A is now the most recently used key. */
  method ScenarioFirst() returns (cache: LRUCache<string>, a1: Option<string>)
    ensures fresh(cache) && cache.Valid() && cache.capacity == 2
    ensures cache.order == ["A", "B"] && "A" in cache.cache && cache.cache["A"] == "str1"
    ensures a1 == Some("str1")
  {
    cache := new LRUCache<string>(2);
    cache.Put("A", "str1");
    assert cache.order == ["A"];
    cache.Put("B", "str2");
    assert cache.order == ["B", "A"];
    ListedIffCached(cache.order, cache.cache, "A", cache.capacity);
    a1 := cache.Get("A");
    assert Without(["B", "A"], "A") == ["B"];
  }

  /** put C evicts B, the least recently used key; get B then misses. */
  method ScenarioSecond(cache: LRUCache<string>) returns (b: Option<string>)
    requires cache.Valid() && cache.capacity == 2
    requires cache.order == ["A", "B"] && "A" in cache.cache && cache.cache["A"] == "str1"
    modifies cache
    ensures cache.Valid() && cache.capacity == 2
    ensures cache.order == ["C", "A"] && "C" in cache.cache && cache.cache["C"] == "str3"
    ensures b == None
  {
    PutPlacesKeyAtHead(["A", "B"], "C", 2);
    cache.Put("C", "str3");
    assert cache.order == ["C", "A"];
    ListedIffCached(cache.order, cache.cache, "B", cache.capacity);
    b := cache.Get("B");
  }

  /** put D evicts A, the least recently used key. */
  method ScenarioThird(cache: LRUCache<string>)
    requires cache.Valid() && cache.capacity == 2
    requires cache.order == ["C", "A"] && "C" in cache.cache && cache.cache["C"] == "str3"
    modifies cache
    ensures cache.Valid() && cache.order == ["D", "C"]
    ensures "C" in cache.cache && cache.cache["C"] == "str3" && "D" in cache.cache && cache.cache["D"] == "str4"
  {
    PutPlacesKeyAtHead(["C", "A"], "D", 2);
    cache.Put("D", "str4");
    assert cache.order == ["D", "C"];
  }

  /** get A misses; get C and get D hit. */
  method ScenarioFourth(cache: LRUCache<string>) returns (a2: Option<string>, c: Option<string>, d: Option<string>)
    requires cache.Valid() && cache.order == ["D", "C"]
    requires "C" in cache.cache && cache.cache["C"] == "str3" && "D" in cache.cache && cache.cache["D"] == "str4"
    modifies cache
    ensures a2 == None && c == Some("str3") && d == Some("str4")
  {
    ListedIffCached(cache.order, cache.cache, "A", cache.capacity);
    a2 := cache.Get("A");
    c := cache.Get("C");
    d := cache.Get("D");
  }
}
