/** The throughput experiment (testing/kvstore/exp_throughput.cpp) in its continuous and timed modes: a mix
    of reads, updates, inserts and erases against a mirror of what the store holds. */
module KvThroughput {
  import opened KvPool
  import opened KvExperiments
  import opened Bits

  /** How many entries of the mirror are set. */
  function Count(populated: seq<bool>): nat {
    if populated == [] then 0
    else Count(populated[..|populated| - 1]) + if populated[|populated| - 1] then 1 else 0
  }

  lemma {:induction false} CountUpdate(populated: seq<bool>, i: nat, b: bool)
    requires i < |populated|
    ensures Count(populated[i := b]) == Count(populated) - (if populated[i] then 1 else 0) + (if b then 1 else 0)
    decreases |populated|
  {
    var n := |populated| - 1;
    if i == n {
      assert populated[i := b][..n] == populated[..n];
    } else {
      assert populated[i := b][..n] == populated[..n][i := b];
      CountUpdate(populated[..n], i, b);
    }
  }

  lemma {:induction false} CountRange(populated: seq<bool>, a: nat, b: nat)
    requires a <= b <= |populated| && forall i :: 0 <= i < |populated| ==> populated[i] == (a <= i < b)
    ensures Count(populated) == b - a
    decreases |populated|
  {
    var n := |populated| - 1;
    if n >= 0 {
      if a <= n < b {
        CountRange(populated[..n], a, b - 1);
      } else {
        CountRange(populated[..n], if a <= n then a else n, if b <= n then b else n);
      }
    }
  }

  /** `std::find` of a set entry from `from` on; the length when there is none. */
  method Find(populated: seq<bool>, from: nat) returns (p: nat)
    requires from <= |populated|
    ensures from <= p <= |populated| && (p < |populated| ==> populated[p])
    ensures forall k :: from <= k < p ==> !populated[k]
  {
    p := from;
    while p < |populated| && !populated[p]
      invariant from <= p <= |populated| && forall k :: from <= k < p ==> !populated[k]
    {
      p := p + 1;
    }
  }

  // ---------- The mirror ----------

  /** The entries set are exactly those whose key is stored, and nothing else is stored. */
  ghost predicate Mirrors(keys: seq<Key>, populated: seq<bool>, live: set<Key>) {
    && |populated| == |keys|
    && (forall i :: 0 <= i < |keys| ==> (populated[i] <==> keys[i] in live))
    && live <= KeySet(keys, 0, |keys|)
  }

  lemma MirrorPut(keys: seq<Key>, populated: seq<bool>, live: set<Key>, i: nat)
    requires Mirrors(keys, populated, live) && i < |keys| && Distinct(keys)
    ensures Mirrors(keys, populated[i := true], live + {keys[i]})
  {
  }

  lemma MirrorErase(keys: seq<Key>, populated: seq<bool>, live: set<Key>, i: nat)
    requires Mirrors(keys, populated, live) && i < |keys| && Distinct(keys)
    ensures Mirrors(keys, populated[i := false], live - {keys[i]})
  {
  }

  /** `std::fill` of the entries from `a` up to `b`. */
  function Fill(populated: seq<bool>, a: nat, b: nat): (f: seq<bool>)
    ensures |f| == |populated| && forall i :: 0 <= i < |f| ==> f[i] == (a <= i < b || populated[i])
  {
    seq(|populated|, i requires 0 <= i < |populated| => a <= i < b || populated[i])
  }

  lemma MirrorBatch(keys: seq<Key>, populated: seq<bool>, a: nat, b: nat)
    requires Mirrors(keys, populated, {}) && a <= b <= |keys| && Distinct(keys)
    ensures Mirrors(keys, Fill(populated, a, b), {} + KeySet(keys, a, b)) && Count(Fill(populated, a, b)) == b - a
  {
    CountRange(Fill(populated, a, b), a, b);
  }

  lemma MirrorEmpty(keys: seq<Key>, populated: seq<bool>)
    requires Mirrors(keys, populated, {})
    ensures |populated| == |keys| && forall i :: 0 <= i < |keys| ==> !populated[i]
  {
  }

  lemma MirrorNothing(keys: seq<Key>, populated: seq<bool>)
    requires |populated| == |keys| && forall i :: 0 <= i < |keys| ==> !populated[i]
    ensures Mirrors(keys, populated, {}) && Count(populated) == 0
  {
    CountRange(populated, 0, 0);
  }

  // ---------- The experiment ----------

  /** The random choices of one step, and whether the experiment goes on after it. */
  datatype Input = Input(percent: nat, position: nat, goOn: bool)

  /** How many of the steps do not read. */
  function Changes(inputs: seq<Input>, readPct: nat): nat {
    if inputs == [] then 0
    else
      var n := |inputs| - 1;
      Changes(inputs[..n], readPct) + if inputs[n].percent < readPct then 0 else 1
  }

  // ---------- Steps on values ----------

  /** What stays the same during a run: the keys, how many of them the first batch holds, and the mix. */
  datatype Mix = Mix(keys: seq<Key>, first: nat, readPct: nat, insertErasePct: nat)

  /** The mirror, the cursors and the counters, and what the store has done. */
  datatype Snapshot = Snapshot(populated: seq<bool>, iRd: nat, iWr: nat, rd: nat, ins: nat, up: nat, er: nat,
                               stored: seq<Key>, found: seq<Key>, erased: seq<Key>)

  /** The first set entry at or after `from`, around the end if need be, is `q`. */
  ghost predicate NextStored(populated: seq<bool>, from: nat, q: nat) {
    && q < |populated| && populated[q]
    && (from <= q ==> forall k :: from <= k < q ==> !populated[k])
    && (q < from ==> forall k :: 0 <= k < q || from <= k < |populated| ==> !populated[k])
  }

  lemma IsNextStored(populated: seq<bool>, from: nat, q: nat)
    requires from <= |populated| && q < |populated| && populated[q]
    requires (from <= q && forall k :: from <= k < q ==> !populated[k])
             || ((forall k :: from <= k < |populated| ==> !populated[k]) && forall k :: 0 <= k < q ==> !populated[k])
    ensures NextStored(populated, from, q)
  {
  }

  /** A read finds the next stored key and leaves the cursor behind it, in the first batch. */
  ghost predicate ReadStep(mix: Mix, t: Snapshot, u: Snapshot)
    requires |t.populated| == |mix.keys| && mix.first > 0
  {
    && u == t.(iRd := u.iRd, rd := u.rd, found := u.found)
    && (Count(t.populated) == 0 ==> u.iRd == Wrap(t.iRd + 1, mix.first) && u.rd == t.rd && u.found == t.found)
    && (Count(t.populated) > 0 ==>
          exists q: nat :: NextStored(t.populated, t.iRd, q) && u.iRd == Wrap(q + 1, mix.first)
                           && u.rd == t.rd + 1 && u.found == t.found + [mix.keys[q]])
  }

  /** The key at a position of the first batch is erased when it is stored, and stored when it is not. */
  ghost predicate FlipStep(mix: Mix, position: nat, t: Snapshot, u: Snapshot)
    requires |t.populated| == |mix.keys| && 0 < mix.first <= |mix.keys|
  {
    var pos := Wrap(position, mix.first);
    if t.populated[pos] then
      u == t.(populated := t.populated[pos := false], er := t.er + 1, erased := t.erased + [mix.keys[pos]])
    else
      u == t.(populated := t.populated[pos := true], ins := t.ins + 1, stored := t.stored + [mix.keys[pos]])
  }

  /** The key at the write cursor is stored, and the cursor moves on. */
  ghost predicate WriteStep(mix: Mix, t: Snapshot, u: Snapshot)
    requires |t.populated| == |mix.keys| && t.iWr < |mix.keys|
  {
    && u.populated == t.populated[t.iWr := true] && u.iWr == Wrap(t.iWr + 1, |mix.keys|)
    && u.stored == t.stored + [mix.keys[t.iWr]]
    && u.ins == t.ins + (if t.populated[t.iWr] then 0 else 1) && u.up == t.up + (if t.populated[t.iWr] then 1 else 0)
    && u == t.(populated := u.populated, iWr := u.iWr, ins := u.ins, up := u.up, stored := u.stored)
  }

  predicate InRange(mix: Mix, t: Snapshot) {
    |t.populated| == |mix.keys| && t.iRd < mix.first <= |mix.keys| && t.iWr < |mix.keys|
  }

  ghost predicate StepOf(mix: Mix, input: Input, t: Snapshot, u: Snapshot)
    requires InRange(mix, t)
  {
    if input.percent < mix.readPct then ReadStep(mix, t, u)
    else if input.percent < mix.readPct + mix.insertErasePct then FlipStep(mix, input.position, t, u)
    else WriteStep(mix, t, u)
  }

  /** The snapshots before the first and after each of the steps of a run. */
  ghost predicate Traced(mix: Mix, inputs: seq<Input>, trace: seq<Snapshot>) {
    && |trace| == |inputs| + 1
    && (forall k :: 0 <= k < |trace| ==> InRange(mix, trace[k]))
    && (forall k :: 0 <= k < |inputs| ==> StepOf(mix, inputs[k], trace[k], trace[k + 1]))
  }

  lemma TracedMore(mix: Mix, inputs: seq<Input>, n: nat, trace: seq<Snapshot>, u: Snapshot)
    requires n < |inputs| && Traced(mix, inputs[..n], trace) && InRange(mix, u)
    requires StepOf(mix, inputs[n], trace[n], u)
    ensures Traced(mix, inputs[..n + 1], trace + [u])
  {
    hide StepOf, InRange;
    var more := trace + [u];
    forall k | 0 <= k < n + 1
      ensures StepOf(mix, inputs[..n + 1][k], more[k], more[k + 1])
    {
      if k < n {
        assert StepOf(mix, inputs[..n][k], trace[k], trace[k + 1]);
      }
    }
  }

  lemma TracedStart(mix: Mix, inputs: seq<Input>, t: Snapshot)
    requires InRange(mix, t)
    ensures Traced(mix, inputs[..0], [t])
  {
  }

  lemma TracedLess(mix: Mix, inputs: seq<Input>, trace: seq<Snapshot>)
    requires inputs != [] && Traced(mix, inputs, trace)
    ensures |trace| == |inputs| + 1
    ensures var n := |inputs| - 1;
            && Traced(mix, inputs[..n], trace[..n + 1]) && InRange(mix, trace[n])
            && StepOf(mix, inputs[n], trace[n], trace[n + 1])
  {
    hide StepOf, InRange;
    var n := |inputs| - 1;
    forall k | 0 <= k < n
      ensures StepOf(mix, inputs[..n][k], trace[..n + 1][k], trace[..n + 1][k + 1])
    {
      assert StepOf(mix, inputs[k], trace[k], trace[k + 1]);
    }
  }

  /** What a step does to the counters: at most one operation, of the kind drawn; as many keys stored, found and
      erased as it counts; and keys set and erased balance those inserted. */
  lemma StepCounts(mix: Mix, input: Input, t: Snapshot, u: Snapshot)
    requires InRange(mix, t) && StepOf(mix, input, t, u)
    ensures input.percent < mix.readPct ==> u.ins == t.ins && u.up == t.up && u.er == t.er && t.rd <= u.rd <= t.rd + 1
    ensures mix.readPct <= input.percent < mix.readPct + mix.insertErasePct ==>
              u.rd == t.rd && u.up == t.up && u.ins + u.er == t.ins + t.er + 1
    ensures mix.readPct + mix.insertErasePct <= input.percent ==>
              u.rd == t.rd && u.er == t.er && u.ins + u.up == t.ins + t.up + 1
    ensures |u.stored| == |t.stored| + (u.ins + u.up) - (t.ins + t.up)
    ensures |u.found| == |t.found| + u.rd - t.rd && |u.erased| == |t.erased| + u.er - t.er
    ensures Count(u.populated) + u.er + t.ins == Count(t.populated) + t.er + u.ins
  {
    hide Count, NextStored;
    if mix.readPct <= input.percent < mix.readPct + mix.insertErasePct {
      var pos := Wrap(input.position, mix.first);
      CountUpdate(t.populated, pos, !t.populated[pos]);
    } else if mix.readPct + mix.insertErasePct <= input.percent {
      CountUpdate(t.populated, t.iWr, true);
    }
  }

  /** The counters over a whole run: each step that does not read is one insert, update or erase. */
  lemma {:induction false} RunCounts(mix: Mix, inputs: seq<Input>, trace: seq<Snapshot>)
    requires Traced(mix, inputs, trace)
    ensures var t, u := trace[0], trace[|inputs|];
            && u.ins + u.up + u.er == t.ins + t.up + t.er + Changes(inputs, mix.readPct)
            && u.rd <= t.rd + |inputs| - Changes(inputs, mix.readPct)
            && |u.stored| == |t.stored| + (u.ins + u.up) - (t.ins + t.up)
            && |u.found| == |t.found| + u.rd - t.rd && |u.erased| == |t.erased| + u.er - t.er
            && Count(u.populated) + u.er + t.ins == Count(t.populated) + t.er + u.ins
    decreases |inputs|
  {
    hide StepOf, InRange, Count;
    if inputs != [] {
      var n := |inputs| - 1;
      TracedLess(mix, inputs, trace);
      RunCounts(mix, inputs[..n], trace[..n + 1]);
      StepCounts(mix, inputs[n], trace[n], trace[n + 1]);
    }
  }

  /** How many of the steps write at the write cursor. */
  function Writes(mix: Mix, inputs: seq<Input>): nat {
    if inputs == [] then 0
    else
      var n := |inputs| - 1;
      Writes(mix, inputs[..n]) + if inputs[n].percent < mix.readPct + mix.insertErasePct then 0 else 1
  }

  /** The `n` keys that follow one another from position `from` on, around the end if need be. */
  function InTurn(keys: seq<Key>, from: nat, n: nat): (s: seq<Key>)
    requires keys != []
    ensures |s| == n && forall k :: 0 <= k < n ==> s[k] == keys[Wrap(from + k, |keys|)]
  {
    seq(n, k requires 0 <= k < n => keys[Wrap(from + k, |keys|)])
  }

  lemma InTurnMore(keys: seq<Key>, from: nat, n: nat)
    requires keys != []
    ensures InTurn(keys, from, n + 1) == InTurn(keys, from, n) + [keys[Wrap(from + n, |keys|)]]
  {
    hide InTurn;
  }

  lemma StepWrites(mix: Mix, input: Input, t: Snapshot, u: Snapshot)
    requires InRange(mix, t) && StepOf(mix, input, t, u)
    ensures input.percent < mix.readPct + mix.insertErasePct ==> u.iWr == t.iWr
    ensures input.percent < mix.readPct + mix.insertErasePct && mix.insertErasePct == 0 ==> u.stored == t.stored
    ensures input.percent >= mix.readPct + mix.insertErasePct ==>
              u.iWr == Wrap(t.iWr + 1, |mix.keys|) && u.stored == t.stored + [mix.keys[t.iWr]]
  {
    hide NextStored, Count;
  }

  /** In every run the write cursor counts the writes, around the number of keys. With no inserts and erases, the
      keys are stored in turn: the n-th write stores the key n places after the first. */
  lemma {:induction false} WritesInTurn(mix: Mix, inputs: seq<Input>, trace: seq<Snapshot>)
    requires Traced(mix, inputs, trace) && mix.keys != []
    ensures var t, u, n := trace[0], trace[|inputs|], Writes(mix, inputs);
            && u.iWr == Wrap(t.iWr + n, |mix.keys|)
            && (mix.insertErasePct == 0 ==> u.stored == t.stored + InTurn(mix.keys, t.iWr, n))
    decreases |inputs|
  {
    hide StepOf, InTurn, Wrap;
    if inputs == [] {
      WrapSmall(trace[0].iWr, |mix.keys|);
    } else {
      var n := |inputs| - 1;
      TracedLess(mix, inputs, trace);
      WritesInTurn(mix, inputs[..n], trace[..n + 1]);
      StepWrites(mix, inputs[n], trace[n], trace[n + 1]);
      InTurnMore(mix.keys, trace[0].iWr, Writes(mix, inputs[..n]));
      WrapNext(trace[0].iWr + Writes(mix, inputs[..n]), |mix.keys|);
    }
  }

  lemma ReadInBatch(mix: Mix, t: Snapshot, u: Snapshot)
    requires InRange(mix, t) && ReadStep(mix, t, u) && FirstOnly(mix, t)
    ensures u.populated == t.populated && u.iRd == Wrap(t.iRd + 1, mix.first)
    ensures u.found == t.found + [mix.keys[..mix.first][t.iRd]]
  {
    hide Count;
    CountSome(t.populated, t.iRd);
  }

  predicate AllRead(mix: Mix, inputs: seq<Input>) {
    forall k :: 0 <= k < |inputs| ==> inputs[k].percent < mix.readPct
  }

  /** Just the keys of the first batch are stored. */
  predicate FirstOnly(mix: Mix, t: Snapshot) {
    |t.populated| == |mix.keys| && forall i :: 0 <= i < |mix.keys| ==> (t.populated[i] <==> i < mix.first)
  }

  lemma AllReadLess(mix: Mix, inputs: seq<Input>)
    requires inputs != [] && AllRead(mix, inputs)
    ensures AllRead(mix, inputs[..|inputs| - 1]) && inputs[|inputs| - 1].percent < mix.readPct
  {
  }

  /** A run of reads, with just the first batch stored, finds its keys in turn. */
  lemma {:induction false} ReadsInTurn(mix: Mix, inputs: seq<Input>, trace: seq<Snapshot>)
    requires Traced(mix, inputs, trace) && AllRead(mix, inputs) && FirstOnly(mix, trace[0])
    ensures var t, u := trace[0], trace[|inputs|];
            && u.populated == t.populated && 0 < mix.first <= |mix.keys| && u.iRd == Wrap(t.iRd + |inputs|, mix.first)
            && u.found == t.found + InTurn(mix.keys[..mix.first], t.iRd, |inputs|)
    decreases |inputs|
  {
    hide ReadStep, NextStored, InTurn, AllRead, FirstOnly, Wrap;
    var t := trace[0];
    if inputs == [] {
      WrapSmall(t.iRd, mix.first);
    } else {
      hide Traced;
      var n := |inputs| - 1;
      TracedLess(mix, inputs, trace);
      AllReadLess(mix, inputs);
      ReadsInTurn(mix, inputs[..n], trace[..n + 1]);
      SameBatch(mix, t, trace[n]);
      ReadInBatch(mix, trace[n], trace[n + 1]);
      InTurnMore(mix.keys[..mix.first], t.iRd, n);
      WrapNext(t.iRd + n, mix.first);
    }
  }

  lemma SameBatch(mix: Mix, t: Snapshot, u: Snapshot)
    requires FirstOnly(mix, t) && u.populated == t.populated
    ensures FirstOnly(mix, u)
  {
  }

  /** A second insert or erase at the same position undoes the first. */
  lemma FlipTwice(mix: Mix, position: nat, t: Snapshot, u: Snapshot, v: Snapshot)
    requires InRange(mix, t) && InRange(mix, u) && FlipStep(mix, position, t, u) && FlipStep(mix, position, u, v)
    ensures v.populated == t.populated && v.iRd == t.iRd && v.iWr == t.iWr && v.found == t.found
    ensures |v.stored| == |t.stored| + 1 && |v.erased| == |t.erased| + 1
    ensures v.stored[|t.stored|] == v.erased[|t.erased|] == mix.keys[Wrap(position, mix.first)]
  {
  }

  class ExperimentThroughput {
    const pool: Pool
    const readPct: nat
    const insertErasePct: nat
    var iRd: nat
    var iWr: nat
    var populated: seq<bool>
    var rd: nat          // operation counters
    var ins: nat
    var up: nat
    var er: nat
    var firstIter: bool

    /** The number of keys that the first batch stores. */
    function FirstBatch(): nat
      requires pool.elementSize > 0
    {
      BatchEnd(|pool.keys|, pool.Maximum(), 0)
    }

    function Setting(): Mix
      requires pool.elementSize > 0
    {
      Mix(pool.keys, FirstBatch(), readPct, insertErasePct)
    }

    /** The state between steps; before the first one, as it is once the first batch is stored. */
    ghost function View(): Snapshot
      requires pool.elementSize > 0
      reads this, pool.store
    {
      var store := pool.store;
      if firstIter then
        Snapshot(seq(|pool.keys|, i => 0 <= i < FirstBatch()), iRd, iWr, rd, ins, up, er,
                 store.stored + pool.keys[..FirstBatch()], store.found, store.erased)
      else Snapshot(populated, iRd, iWr, rd, ins, up, er, store.stored, store.found, store.erased)
    }

    /** The mirror agrees with the store, the cursors are in range, and the counters account for every key. */
    ghost predicate Valid()
      reads this, pool, pool.store
    {
      && pool.Valid() && Distinct(pool.keys) && |pool.keys| > 0
      && Mirrors(pool.keys, populated, pool.store.live)
      && iRd < |pool.keys| && iWr < |pool.keys|
      && (firstIter ==> pool.elementEnd == 0 && pool.store.live == {} && ins == er == iRd == 0)
      && (!firstIter ==> pool.elementStart == 0 && iRd < pool.elementEnd == FirstBatch())
      && Count(populated) + er == (if firstIter then 0 else FirstBatch()) + ins
    }

    constructor (pool: Pool, readPct: nat, insertErasePct: nat)
      requires pool.Valid() && Distinct(pool.keys) && |pool.keys| > 0 && pool.elementEnd == 0 && pool.store.live == {}
      ensures Valid() && firstIter && this.pool == pool && rd == ins == up == er == 0
    {
      this.pool, this.readPct, this.insertErasePct := pool, readPct, insertErasePct;
      iRd, iWr, firstIter := 0, 0, true;
      populated := seq(|pool.keys|, i => false);
      rd, ins, up, er := 0, 0, 0, 0;
      new;
      MirrorNothing(pool.keys, populated);
    }

    /** The first-time setup: stores one batch and marks it in the mirror. */
    method Setup() returns (ok: bool)
      requires Valid() && firstIter
      modifies this, pool, pool.store`live, pool.store`puts, pool.store`stored
      ensures ok ==> Valid() && !firstIter && |pool.store.live| == FirstBatch()
      ensures ok ==> pool.store.puts == old(pool.store.puts) + FirstBatch() && View() == old(View())
      ensures ok ==> unchanged(`rd) && unchanged(`ins) && unchanged(`up) && unchanged(`er) && unchanged(`iWr)
      ensures !ok ==> PutFailed(pool.store)
    {
      hide Mirrors, Count;
      ok := pool.PopulatePoolToCapacity();
      if ok {
        MirrorEmpty(pool.keys, populated);
        MirrorBatch(pool.keys, populated, pool.elementStart, pool.elementEnd);
        populated := Fill(populated, pool.elementStart, pool.elementEnd);
        KeySetSize(pool.keys, pool.elementStart, pool.elementEnd);
        ghost var batch := KeySet(pool.keys, pool.elementStart, pool.elementEnd);
        assert {} + batch == batch;
        firstIter := false;
      }
    }

    /** The state with the cursors back in range. */
    ghost function Wrapped(): Snapshot
      requires pool.elementSize > 0 && pool.keys != [] && FirstBatch() > 0
      reads this, pool.store
    {
      View().(iRd := Wrap(iRd, FirstBatch()), iWr := Wrap(iWr, |pool.keys|))
    }

    /** A read: the next stored key from the read cursor on, around the end if need be. It never misses,
        and finds a key whenever one is stored. */
    method Read() returns (hit: bool)
      requires Valid() && !firstIter
      modifies `iRd, `rd, pool.store`found
      ensures hit && iRd <= |pool.keys| && ReadStep(Setting(), old(View()), Wrapped())
      ensures rd == old(rd) + if Count(populated) > 0 then 1 else 0
      ensures Count(populated) == 0 ==> iRd == old(iRd) + 1 && pool.store.found == old(pool.store.found)
      ensures Count(populated) > 0 ==> 1 <= iRd && NextStored(populated, old(iRd), iRd - 1)
      ensures Count(populated) > 0 ==> pool.store.found == old(pool.store.found) + [pool.keys[iRd - 1]]
    {
      hide Count, NextStored, BatchEnd;
      WrapSmall(iWr, |pool.keys|);
      hit := true;
      var p := Find(populated, iRd);
      if p == |populated| {
        p := Find(populated, 0);
      }
      if p != |populated| {
        IsNextStored(populated, iRd, p);
        CountSome(populated, p);
        iRd := p;
        hit := pool.store.Get(pool.keys[iRd]);
        rd := rd + 1;
      } else {
        CountNone(populated);
      }
      iRd := iRd + 1;
    }

    /** An insert or an erase at a random position of the first batch, whichever its mirror entry calls for. */
    method InsertErase(x: nat) returns (ok: bool)
      requires Valid() && !firstIter
      modifies `populated, `ins, `er, pool.store`live, pool.store`puts, pool.store`stored, pool.store`erased
      ensures ok ==> Valid() && ins + er == old(ins + er) + 1
      ensures ok ==> pool.store.puts == old(pool.store.puts) + ins - old(ins)
      ensures ok ==> |pool.store.erased| == old(|pool.store.erased|) + er - old(er)
      ensures ok ==> FlipStep(Setting(), x, old(View()), Wrapped())
      ensures !ok ==> PutFailed(pool.store)
    {
      hide Count, Mirrors;
      WrapSmall(iRd, FirstBatch());
      WrapSmall(iWr, |pool.keys|);
      var pos := pool.elementStart + x % (pool.elementEnd - pool.elementStart);
      MirrorAt(pool.keys, populated, pool.store.live, pos);
      CountUpdate(populated, pos, !populated[pos]);
      if populated[pos] {
        MirrorErase(pool.keys, populated, pool.store.live, pos);
        ok := pool.store.Erase(pool.keys[pos]);
        er := er + 1;
      } else {
        MirrorPut(pool.keys, populated, pool.store.live, pos);
        ok := pool.store.Put(pool.keys[pos]);
        if !ok {
          return;
        }
        ins := ins + 1;
      }
      populated := populated[pos := !populated[pos]];
    }

    /** A write at the write cursor: an update of a stored key, an insert of another. */
    method Write() returns (ok: bool)
      requires Valid() && !firstIter
      modifies `populated, `ins, `up, `iWr, pool.store`live, pool.store`puts, pool.store`stored
      ensures ok ==> iWr == old(iWr) + 1 <= |pool.keys| && ins + up == old(ins + up) + 1
      ensures ok ==> Mirrors(pool.keys, populated, pool.store.live) && Count(populated) + er == FirstBatch() + ins
      ensures ok ==> pool.store.puts == old(pool.store.puts) + 1
      ensures ok ==> WriteStep(Setting(), old(View()), Wrapped())
      ensures ok ==> populated == old(populated)[old(iWr) := true] && (ins == old(ins) <==> old(populated)[old(iWr)])
      ensures !ok ==> PutFailed(pool.store)
    {
      hide Count, Mirrors;
      WrapSmall(iRd, FirstBatch());
      MirrorAt(pool.keys, populated, pool.store.live, iWr);
      CountUpdate(populated, iWr, true);
      MirrorPut(pool.keys, populated, pool.store.live, iWr);
      ok := pool.store.Put(pool.keys[iWr]);
      if !ok {
        return;
      }
      if populated[iWr] {
        up := up + 1;
      } else {
        ins := ins + 1;
      }
      populated := populated[iWr := true];
      iWr := iWr + 1;
    }

    /** The operation that the drawn percentage calls for. The cursors may be one past the end after it. */
    method Operate(input: Input) returns (ok: bool)
      requires Valid() && !firstIter
      modifies `populated, `iRd, `iWr, `rd, `ins, `up, `er, pool.store
      ensures ok ==> Mirrors(pool.keys, populated, pool.store.live)
      ensures ok ==> StepOf(Setting(), input, old(View()), Wrapped())
      ensures ok ==> pool.store.puts == old(pool.store.puts) + (ins + up) - old(ins + up)
      ensures !ok ==> PutFailed(pool.store)
    {
      hide Count, Mirrors, NextStored, ReadStep, FlipStep, WriteStep, Wrapped, View;
      if input.percent < readPct {
        ok := Read();
      } else if input.percent < readPct + insertErasePct {
        ok := InsertErase(input.position);
      } else {
        ok := Write();
      }
    }

    lemma ViewInRange()
      requires Valid()
      ensures InRange(Setting(), View())
    {
      hide Count;
    }

    /** One step of a continuous or timed run. */
    method DoWork(input: Input) returns (r: Outcome)
      requires Valid()
      modifies this, pool, pool.store
      ensures r != Threw ==> Valid() && !firstIter
      ensures r == Threw ==> PutFailed(pool.store)
      ensures r == Done ==> !input.goOn
      ensures r == More ==> input.goOn
      ensures InRange(Setting(), old(View()))
      ensures r != Threw ==> StepOf(Setting(), input, old(View()), View())
      ensures r != Threw && input.percent < readPct ==> unchanged(`ins) && unchanged(`up) && unchanged(`er)
      ensures r != Threw && readPct <= input.percent < readPct + insertErasePct ==>
                unchanged(`rd) && unchanged(`up) && ins + er == old(ins + er) + 1
      ensures r != Threw && readPct + insertErasePct <= input.percent ==>
                unchanged(`rd) && unchanged(`er) && ins + up == old(ins + up) + 1
      ensures r != Threw ==> old(rd + ins + up + er) <= rd + ins + up + er <= old(rd + ins + up + er) + 1
      ensures r != Threw ==> |pool.store.found| == old(|pool.store.found|) + rd - old(rd)
      ensures r != Threw ==> |pool.store.erased| == old(|pool.store.erased|) + er - old(er)
      ensures r != Threw ==>
                pool.store.puts == old(pool.store.puts) + (if old(firstIter) then FirstBatch() else 0)
                                   + (ins + up) - old(ins + up)
    {
      hide Count, Mirrors, StepOf, InRange;
      ViewInRange();
      ghost var t := View();
      if firstIter {
        var ok := Setup();
        if !ok {
          return Threw;
        }
      }
      assert View() == t;
      var ok := Operate(input);
      if !ok {
        return Threw;
      }
      ghost var u := Wrapped();
      iRd := iRd % pool.elementEnd;
      iWr := iWr % |pool.keys|;
      assert View() == u;
      StepCounts(Setting(), input, t, u);
      return if input.goOn then More else Done;
    }

    /** Every run, for every sequence of random choices: unless storing a key fails, the mirror and the store agree
        at the end, the keys stored and erased balance the first batch and those inserted, and the counters are
        what was drawn and what the store has seen: each step that does not read is one insert, update or erase,
        each insert or update is one put after the first batch, each read one key found, each erase one key erased.
        The write cursor counts the writes around the keys. */
    method Run(inputs: seq<Input>) returns (r: Outcome, steps: nat, ghost trace: seq<Snapshot>)
      requires Valid() && firstIter && inputs != []
      modifies this, pool, pool.store
      ensures r == Threw ==> PutFailed(pool.store)
      ensures r != Threw ==> Valid() && Mirrors(pool.keys, populated, pool.store.live)
      ensures r != Threw ==> Count(populated) + er == FirstBatch() + ins
      ensures 0 < steps <= |inputs|
      ensures r != Threw ==> Traced(Setting(), inputs[..steps], trace)
      ensures r != Threw ==> trace[0] == old(View()) && trace[steps] == View()
      ensures r != Threw ==> ins + up + er == old(ins + up + er) + Changes(inputs[..steps], readPct)
      ensures r != Threw ==> rd <= old(rd) + steps - Changes(inputs[..steps], readPct)
      ensures r != Threw ==> pool.store.puts == old(pool.store.puts) + FirstBatch() + (ins + up) - old(ins + up)
      ensures r != Threw ==> |pool.store.found| == old(|pool.store.found|) + rd - old(rd)
      ensures r != Threw ==> |pool.store.erased| == old(|pool.store.erased|) + er - old(er)
      ensures r != Threw ==> iWr == Wrap(old(iWr) + Writes(Setting(), inputs[..steps]), |pool.keys|)
      ensures r != Threw && insertErasePct == 0 ==>
                pool.store.stored == old(pool.store.stored) + pool.keys[..FirstBatch()]
                                     + InTurn(pool.keys, old(iWr), Writes(Setting(), inputs[..steps]))
      ensures forall k :: 0 <= k < steps - 1 ==> inputs[k].goOn
      ensures r == More ==> steps == |inputs|
      ensures r == Done ==> !inputs[steps - 1].goOn
    {
      hide Count, Mirrors, Changes, StepOf, Traced, Writes, InRange, InTurn, Distinct, BatchEnd;
      ghost var mix := Setting();
      ViewInRange();
      trace := [View()];
      TracedStart(mix, inputs, View());
      r := DoWork(inputs[0]);
      steps := 1;
      if r != Threw {
        ViewInRange();
        TracedMore(mix, inputs, 0, trace, View());
        trace := trace + [View()];
      }
      while r == More && steps < |inputs|
        invariant 1 <= steps <= |inputs| && forall k :: 0 <= k < steps - 1 ==> inputs[k].goOn
        invariant r == Threw ==> PutFailed(pool.store)
        invariant r == More ==> inputs[steps - 1].goOn
        invariant r == Done ==> !inputs[steps - 1].goOn
        invariant r != Threw ==> Valid() && !firstIter
        invariant r != Threw ==> |trace| == steps + 1 && Traced(mix, inputs[..steps], trace)
        invariant r != Threw ==> trace[0] == old(View()) && trace[steps] == View()
        invariant r != Threw ==> pool.store.puts == old(pool.store.puts) + FirstBatch() + (ins + up) - old(ins + up)
      {
        r := DoWork(inputs[steps]);
        if r != Threw {
          ViewInRange();
          TracedMore(mix, inputs, steps, trace, View());
          trace := trace + [View()];
        }
        steps := steps + 1;
      }
      if r != Threw {
        RunCounts(mix, inputs[..steps], trace);
        WritesInTurn(mix, inputs[..steps], trace);
      }
    }
  }

  lemma MirrorAt(keys: seq<Key>, populated: seq<bool>, live: set<Key>, i: nat)
    requires Mirrors(keys, populated, live) && i < |keys|
    ensures |populated| == |keys| && (populated[i] <==> keys[i] in live)
  {
  }

  lemma {:induction false} CountNone(populated: seq<bool>)
    requires forall i :: 0 <= i < |populated| ==> !populated[i]
    ensures Count(populated) == 0
  {
    if populated != [] {
      CountNone(populated[..|populated| - 1]);
    }
  }

  lemma {:induction false} CountSome(populated: seq<bool>, p: nat)
    requires p < |populated| && populated[p]
    ensures Count(populated) > 0
  {
    if p < |populated| - 1 {
      CountSome(populated[..|populated| - 1], p);
    }
  }
}
