/** The get and erase experiments over a pool (testing/kvstore/exp_get.h, testing/kvstore/exp_erase.cpp) as
    state machines: each call of `DoWork` is one step, and `Run` is a whole experiment. */
module KvExperiments {
  import opened KvPool

  /** What a step reports: to be called again, finished, or an exception. */
  datatype Outcome = More | Done | Threw

  /** Some attempt to store a key failed. */
  ghost predicate PutFailed(store: Store)
    reads store
  {
    exists p :: 0 <= p < store.puts && !store.putOk(p)
  }

  // ---------- Get ----------

  class ExperimentGet {
    const pool: Pool
    var i: nat
    var firstIter: bool

    /** Between steps the stored keys are one batch, and the next key to read is in it. */
    ghost predicate Valid()
      reads this, pool, pool.store
    {
      && pool.Valid() && Distinct(pool.keys) && |pool.keys| > 0
      && (firstIter ==> i == 0 && pool.elementEnd == 0 && pool.store.live == {})
      && (!firstIter ==>
            && pool.elementStart <= i < pool.elementEnd
            && pool.elementEnd == BatchEnd(|pool.keys|, pool.Maximum(), pool.elementStart)
            && pool.store.live == KeySet(pool.keys, pool.elementStart, pool.elementEnd))
    }

    constructor (pool: Pool)
      requires pool.Valid() && Distinct(pool.keys) && |pool.keys| > 0 && pool.elementEnd == 0 && pool.store.live == {}
      ensures Valid() && firstIter && this.pool == pool && i == 0
    {
      this.pool := pool;
      i, firstIter := 0, true;
    }

    /** The stored keys never exceed what the pool holds, exactly when it holds at least one. */
    lemma WithinCapacity()
      requires Valid() && !firstIter
      ensures |pool.store.live| <= pool.Maximum() <==> pool.Maximum() > 0
    {
      BatchWithinCapacity(pool.keys, pool.Maximum(), pool.elementStart);
    }

    /** One step: reads key `i`; when the batch is used up, erases it and stores the next one. Reads and
        erases always hit: only storing can make it throw. */
    method DoWork() returns (r: Outcome)
      requires Valid()
      modifies this, pool, pool.store
      ensures r != Threw ==> Valid() && !firstIter
      ensures r == Threw ==> PutFailed(pool.store)
      ensures r == Done <==> r != Threw && old(i) + 1 == |pool.keys|
      ensures r == More ==> i == old(i) + 1 && pool.store.found == old(pool.store.found) + [pool.keys[old(i)]]
      ensures r == Done ==> i == old(i) && pool.store.found == old(pool.store.found)
      ensures r == Done ==> pool.store.live == KeySet(pool.keys, pool.elementStart, |pool.keys|)
    {
      if firstIter {
        pool.elementEnd := 0;
        var ok := pool.PopulatePoolToCapacity();
        if !ok {
          return Threw;
        }
        firstIter := false;
      }
      if i + 1 == |pool.keys| {
        return Done;
      }
      var got := pool.store.Get(pool.keys[i]);
      if !got {
        return Threw;
      }
      i := i + 1;
      if i == pool.elementEnd {
        var erased := pool.ErasePoolEntriesInRange(pool.elementStart, pool.elementEnd);
        if !erased {
          return Threw;
        }
        var ok := pool.PopulatePoolToCapacity();
        if !ok {
          return Threw;
        }
      }
      return More;
    }

    /** A whole run: every key but the last is read, in order, each while it is stored, and the last batch stays. */
    method Run() returns (r: Outcome)
      requires Valid() && firstIter
      modifies this, pool, pool.store
      ensures r == Done || (r == Threw && PutFailed(pool.store))
      ensures r == Done ==> Valid() && !firstIter && i + 1 == |pool.keys|
      ensures r == Done ==> pool.store.found == old(pool.store.found) + pool.keys[..|pool.keys| - 1]
      ensures r == Done ==> pool.store.live == KeySet(pool.keys, pool.elementStart, |pool.keys|)
    {
      r := DoWork();
      while r == More
        invariant r == Threw ==> PutFailed(pool.store)
        invariant r != Threw ==> Valid() && !firstIter && i < |pool.keys|
        invariant r != Threw ==> pool.store.found == old(pool.store.found) + pool.keys[..i]
        invariant r == Done ==> i + 1 == |pool.keys|
        invariant r == Done ==> pool.store.live == KeySet(pool.keys, pool.elementStart, |pool.keys|)
        decreases if r == More then |pool.keys| - i + 1 else 0
      {
        r := DoWork();
      }
    }
  }

  // ---------- Erase ----------

  class ExperimentErase {
    const pool: Pool
    var i: nat
    var firstIter: bool

    /** Between steps the stored keys are the part of the batch not yet erased. */
    ghost predicate Valid()
      reads this, pool, pool.store
    {
      && pool.Valid() && Distinct(pool.keys)
      && (firstIter ==> i == 0 && pool.elementEnd == 0 && pool.store.live == {})
      && (!firstIter ==>
            && pool.elementStart <= i <= pool.elementEnd && (i == pool.elementEnd ==> i == |pool.keys|)
            && pool.elementEnd == BatchEnd(|pool.keys|, pool.Maximum(), pool.elementStart)
            && pool.store.live == KeySet(pool.keys, i, pool.elementEnd))
    }

    constructor (pool: Pool)
      requires pool.Valid() && Distinct(pool.keys) && pool.elementEnd == 0 && pool.store.live == {}
      ensures Valid() && firstIter && this.pool == pool && i == 0
    {
      this.pool := pool;
      i, firstIter := 0, true;
    }

    /** The stored keys are within what the pool holds exactly when it holds at least one, or all are erased. */
    lemma WithinCapacity()
      requires Valid() && !firstIter
      ensures |pool.store.live| <= pool.Maximum() <==> pool.Maximum() > 0 || i == |pool.keys|
    {
      KeySetSize(pool.keys, i, pool.elementEnd);
    }

    /** One step: erases key `i`; when the batch is used up, stores the next one. Every erase hits. */
    method DoWork() returns (r: Outcome)
      requires Valid()
      modifies this, pool, pool.store
      ensures r != Threw ==> Valid() && !firstIter
      ensures r == Threw ==> PutFailed(pool.store)
      ensures r == Done <==> r != Threw && old(i) == |pool.keys|
      ensures r == More ==> i == old(i) + 1 && pool.store.erased == old(pool.store.erased) + [pool.keys[old(i)]]
      ensures r == Done ==> pool.store.erased == old(pool.store.erased)
      ensures r == Done ==> i == old(i) && pool.store.live == {}
    {
      if firstIter {
        pool.elementEnd := 0;
        var ok := pool.PopulatePoolToCapacity();
        if !ok {
          return Threw;
        }
        firstIter := false;
      }
      if i == |pool.keys| {
        KeySetEmpty(pool.keys, i, pool.elementEnd);
        return Done;
      }
      KeySetShrink(pool.keys, i, pool.elementEnd);
      var erased := pool.store.Erase(pool.keys[i]);
      if !erased {
        return Threw;
      }
      i := i + 1;
      if i == pool.elementEnd {
        KeySetEmpty(pool.keys, i, i);
        var ok := pool.PopulatePoolToCapacity();
        if !ok {
          return Threw;
        }
      }
      return More;
    }

    /** A whole run erases every key, in order, and leaves the store empty, for any number of objects. */
    method Run() returns (r: Outcome)
      requires Valid() && firstIter
      modifies this, pool, pool.store
      ensures r == Done || (r == Threw && PutFailed(pool.store))
      ensures r == Done ==> i == |pool.keys| && pool.store.live == {}
      ensures r == Done ==> pool.store.erased == old(pool.store.erased) + pool.keys
    {
      r := DoWork();
      while r == More
        invariant r == Threw ==> PutFailed(pool.store)
        invariant r != Threw ==> Valid() && i <= |pool.keys|
        invariant r != Threw ==> pool.store.erased == old(pool.store.erased) + pool.keys[..i]
        invariant r == Done ==> i == |pool.keys| && pool.store.live == {}
        decreases if r == More then |pool.keys| - i + 1 else 0
      {
        r := DoWork();
      }
    }
  }
}
