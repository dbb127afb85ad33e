/**
 * The `memoize` decorator of `seantis/reservation/utils.py`: a dictionary
 * from argument tuples to results. A hit returns the stored value, a miss
 * computes and stores it, and arguments that cannot be hashed bypass the
 * cache altogether.
 */
module Memo {

  class Memoize<K(==), V> {
    /** The decorated function. */
    const func: K -> V
    /** Whether an argument tuple can be used as a dictionary key. */
    const hashable: K -> bool
    var cache: map<K, V>

    /** Every cached value is what the function gives for its key. */
    ghost predicate Valid()
      reads this
    {
      forall k :: k in cache ==> hashable(k) && cache[k] == func(k)
    }

    /** `memoize(func)`: an empty cache. */
    constructor(func: K -> V, hashable: K -> bool)
      ensures this.func == func && this.hashable == hashable
      ensures cache == map[]
      ensures Valid()
    {
      this.func := func;
      this.hashable := hashable;
      cache := map[];
    }

    /**
     * `__call__(*args)`: the function's value, whether it came from the cache
     * or not. A hashable argument is in the cache afterwards; nothing else
     * changes.
     */
    method Call(args: K) returns (value: V)
      requires Valid()
      modifies this
      ensures Valid()
      ensures value == func(args)
      ensures hashable(args) ==> cache == old(cache)[args := value]
      ensures !hashable(args) ==> cache == old(cache)
    {
      if !hashable(args) {
        // the lookup raises TypeError: call through without caching
        value := func(args);
        return;
      }
      if args in cache {
        value := cache[args];
      } else {
        value := func(args);
        cache := cache[args := value];
      }
    }
  }

  /** Calling twice with the same argument gives the same value, and the second call finds it cached. */
  method CallTwice<K(==), V>(m: Memoize<K, V>, args: K) returns (first: V, second: V)
    requires m.Valid()
    modifies m
    ensures m.Valid()
    ensures first == second == m.func(args)
    ensures m.hashable(args) ==> args in m.cache && m.cache == old(m.cache)[args := first]
  {
    first := m.Call(args);
    second := m.Call(args);
  }
}
