/** The pool of keys that the key-value store experiments work on (testing/kvstore/experiment.cpp). */
module KvPool {

  type Key = string

  predicate Distinct(keys: seq<Key>) {
    forall i, j :: 0 <= i < j < |keys| ==> keys[i] != keys[j]
  }

  /** The keys with indices from `a` up to `b`. */
  function KeySet(keys: seq<Key>, a: nat, b: nat): set<Key>
    requires b <= |keys|
  {
    set i | a <= i < b :: keys[i]
  }

  lemma KeySetGrow(keys: seq<Key>, a: nat, b: nat)
    requires a <= b < |keys|
    ensures KeySet(keys, a, b + 1) == KeySet(keys, a, b) + {keys[b]}
  {
  }

  lemma KeySetShrink(keys: seq<Key>, a: nat, b: nat)
    requires a < b <= |keys| && Distinct(keys)
    ensures keys[a] in KeySet(keys, a, b) && KeySet(keys, a + 1, b) == KeySet(keys, a, b) - {keys[a]}
  {
  }

  lemma KeySetEmpty(keys: seq<Key>, a: nat, b: nat)
    requires b <= a && b <= |keys|
    ensures KeySet(keys, a, b) == {}
  {
  }

  lemma {:induction false} KeySetSize(keys: seq<Key>, a: nat, b: nat)
    requires a <= b <= |keys| && Distinct(keys)
    ensures |KeySet(keys, a, b)| == b - a
    decreases b
  {
    hide KeySet, Distinct;
    if a == b {
      KeySetEmpty(keys, a, b);
    } else {
      KeySetSize(keys, a, b - 1);
      KeySetGrow(keys, a, b - 1);
      KeyNotBefore(keys, a, b - 1);
    }
  }

  lemma KeyNotBefore(keys: seq<Key>, a: nat, b: nat)
    requires a <= b < |keys| && Distinct(keys)
    ensures keys[b] !in KeySet(keys, a, b)
  {
  }

  lemma KeyInside(keys: seq<Key>, a: nat, i: nat, b: nat)
    requires a <= i < b <= |keys|
    ensures keys[i] in KeySet(keys, a, b)
  {
  }

  // ---------- The store ----------

  /** A key-value store as the experiments see it. Storing can fail for reasons of its own, given by
      `putOk` for each attempt; reading and erasing succeed exactly on a stored key. */
  class Store {
    var live: set<Key>
    var puts: nat
    const putOk: nat -> bool
    ghost var stored: seq<Key>  // the keys stored so far, again for every time
    ghost var found: seq<Key>   // the keys read so far, each while it was stored
    ghost var erased: seq<Key>  // the keys erased so far, each while it was stored

    constructor (putOk: nat -> bool)
      ensures live == {} && puts == 0 && stored == found == erased == [] && this.putOk == putOk
    {
      live, puts, stored, found, erased := {}, 0, [], [], [];
      this.putOk := putOk;
    }

    method Put(k: Key) returns (ok: bool)
      modifies `live, `puts, `stored
      ensures ok == putOk(old(puts)) && puts == old(puts) + 1
      ensures stored == if ok then old(stored) + [k] else old(stored)
      ensures live == if ok then old(live) + {k} else old(live)
    {
      ok := putOk(puts);
      puts := puts + 1;
      if ok {
        live := live + {k};
        stored := stored + [k];
      }
    }

    method Get(k: Key) returns (ok: bool)
      modifies `found
      ensures (ok <==> k in live) && found == if ok then old(found) + [k] else old(found)
    {
      ok := k in live;
      if ok {
        found := found + [k];
      }
    }

    method Erase(k: Key) returns (ok: bool)
      modifies `live, `erased
      ensures (ok <==> k in old(live)) && live == old(live) - {k}
      ensures erased == if ok then old(erased) + [k] else old(erased)
    {
      ok := k in live;
      if ok {
        erased := erased + [k];
      }
      live := live - {k};
    }
  }

  // ---------- Batches ----------

  /** Where a batch from `from` ends: a full pool or the last object. With a pool that holds no element at
      all the count of elements put never meets the maximum, and the batch takes every object. */
  function BatchEnd(objects: nat, maximum: nat, from: nat): nat
    requires from <= objects
  {
    if maximum == 0 || objects - from <= maximum then objects else from + maximum
  }

  lemma BatchEnds(objects: nat, maximum: nat, from: nat, current: nat)
    requires from <= current <= objects && (maximum > 0 ==> current - from <= maximum)
    requires current == objects || (maximum > 0 && current - from == maximum)
    ensures current == BatchEnd(objects, maximum, from)
  {
  }

  class Pool {
    const keys: seq<Key>
    const store: Store
    const poolSize: nat
    const elementSize: nat      // the size of an element on disk
    var elementStart: nat
    var elementEnd: nat
    var elementsStored: nat

    ghost predicate Valid()
      reads this
    {
      elementSize > 0 && elementEnd <= |keys|
    }

    /** Elements that fit in the pool at one time. */
    function Maximum(): nat
      requires elementSize > 0
    {
      poolSize / elementSize
    }

    /** The most elements whose sizes add up to no more than the pool's. */
    lemma MaximumFits()
      requires elementSize > 0
      ensures elementSize * Maximum() <= poolSize < elementSize * (Maximum() + 1)
    {
      assert poolSize == elementSize * (poolSize / elementSize) + poolSize % elementSize;
    }

    constructor (keys: seq<Key>, poolSize: nat, elementSize: nat, putOk: nat -> bool)
      requires elementSize > 0
      ensures Valid() && fresh(store) && this.keys == keys
      ensures this.poolSize == poolSize && this.elementSize == elementSize
      ensures elementStart == 0 && elementEnd == 0 && store.live == {} && store.puts == 0 && store.putOk == putOk
    {
      this.keys, this.poolSize, this.elementSize := keys, poolSize, elementSize;
      elementStart, elementEnd, elementsStored := 0, 0, 0;
      store := new Store(putOk);
    }

    /** `_populate_pool_to_capacity`: stores one batch after the last one. When storing fails, the keys
        before the failing one are stored and `elementEnd` keeps its value. */
    method PopulatePoolToCapacity() returns (ok: bool)
      requires Valid()
      modifies this, store`live, store`puts, store`stored
      ensures Valid() && elementStart == old(elementEnd)
      ensures ok ==> elementEnd == BatchEnd(|keys|, Maximum(), elementStart)
      ensures ok ==> store.live == old(store.live) + KeySet(keys, elementStart, elementEnd)
      ensures !ok ==> elementEnd == old(elementEnd)
      ensures !ok ==>
                exists c :: elementStart <= c < |keys| && store.live == old(store.live) + KeySet(keys, elementStart, c)
      ensures !ok ==> exists p :: old(store.puts) <= p < store.puts && !store.putOk(p)
      ensures ok ==> elementsStored == old(elementsStored) + (elementEnd - elementStart)
      ensures ok ==> store.puts == old(store.puts) + (elementEnd - elementStart)
      ensures ok ==> store.stored == old(store.stored) + keys[elementStart..elementEnd]
    {
      hide KeySet, BatchEnd;
      var current := elementEnd;
      var maximumElements := -1;
      elementStart := current;
      KeySetEmpty(keys, current, current);
      while current - elementStart != maximumElements && current != |keys|
        invariant Valid() && elementStart == old(elementEnd) == elementEnd <= current <= |keys|
        invariant store.live == old(store.live) + KeySet(keys, elementStart, current)
        invariant maximumElements == -1 <==> current == elementStart
        invariant maximumElements == -1 || maximumElements == Maximum()
        invariant maximumElements > 0 ==> current - elementStart <= maximumElements
        invariant elementsStored == old(elementsStored) + (current - elementStart)
        invariant store.puts == old(store.puts) + (current - elementStart)
        invariant store.stored == old(store.stored) + keys[elementStart..current]
        decreases |keys| - current
      {
        var stored := store.Put(keys[current]);
        if !stored {
          return false;
        }
        elementsStored := elementsStored + 1;
        if maximumElements == -1 {
          maximumElements := poolSize / elementSize;
        }
        KeySetGrow(keys, elementStart, current);
        current := current + 1;
      }
      BatchEnds(|keys|, Maximum(), elementStart, current);
      elementEnd := current;
      return true;
    }

    /** `_erase_pool_entries_in_range`: every erase hits, so the range is gone and nothing else. */
    method ErasePoolEntriesInRange(start: nat, finish: nat) returns (ok: bool)
      requires Valid() && start <= finish <= |keys| && Distinct(keys) && KeySet(keys, start, finish) <= store.live
      modifies store`live, store`erased
      ensures ok && store.live == old(store.live) - KeySet(keys, start, finish)
      ensures store.erased == old(store.erased) + keys[start..finish]
    {
      hide KeySet, Distinct;
      KeySetEmpty(keys, start, start);
      for i := start to finish
        invariant store.live == old(store.live) - KeySet(keys, start, i)
        invariant store.erased == old(store.erased) + keys[start..i]
      {
        KeyInside(keys, start, i, finish);
        KeyNotBefore(keys, start, i);
        var erased := store.Erase(keys[i]);
        if !erased {
          return false;
        }
        KeySetGrow(keys, start, i);
      }
      return true;
    }
  }

  /** A batch of distinct keys exceeds what the pool can hold exactly when not even one element fits and
      there is something to store. It stores something if there is anything left, and stops only when the pool is
      full or nothing is left. */
  lemma BatchWithinCapacity(keys: seq<Key>, maximum: nat, from: nat)
    requires from <= |keys| && Distinct(keys)
    ensures |KeySet(keys, from, BatchEnd(|keys|, maximum, from))| <= maximum <==> maximum > 0 || from == |keys|
    ensures from < |keys| ==> from < BatchEnd(|keys|, maximum, from) <= |keys|
    ensures BatchEnd(|keys|, maximum, from) < |keys| ==>
              |KeySet(keys, from, BatchEnd(|keys|, maximum, from))| == maximum
  {
    KeySetSize(keys, from, BatchEnd(|keys|, maximum, from));
  }
}
