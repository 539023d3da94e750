/** The 64-bit Mersenne Twister of src/lib/common/rand.cc: the in-place block generator against the
    infinite recurrence, the tempering as a bijection, and states that can never decay to zero. */
module MersenneTwister {
  import opened Gf2

  // ---------- The recurrence ----------

  const NN := 312
  const MM := 156
  const MATRIX_A: bv64 := 0xB502_6F5A_A966_19E9
  const UM: bv64 := 0xFFFF_FFFF_8000_0000
  const LM: bv64 := 0x7FFF_FFFF

  function Mix(u: bv64, l: bv64): bv64 {
    (u & UM) | (l & LM)
  }

  function Twist(x: bv64): bv64 {
    (x >> 1) ^ (if x & 1 == 1 then MATRIX_A else 0)
  }

  /** `far ^ (x >> 1) ^ mag01[x & 1]` for the `x` mixed from two neighbours. */
  function NextWord(far: bv64, u: bv64, l: bv64): bv64 {
    Xor(far, Twist(Mix(u, l)))
  }

  /** Word `n` of the sequence that the block `s` starts (section 26.5.3.2 of ISO C++11). */
  ghost function X(s: seq<bv64>, n: nat): bv64
    requires |s| == NN
  {
    if n < NN then s[n] else NextWord(X(s, n - NN + MM), X(s, n - NN), X(s, n - NN + 1))
  }

  function SeedNext(w: bv64, i: nat): bv64
    requires i < NN
  {
    6364136223846793005 * (w ^ (w >> 62)) + i as bv64
  }

  function SeedWord(seed: bv64, i: nat): bv64
    requires i < NN
  {
    if i == 0 then seed else SeedNext(SeedWord(seed, i - 1), i)
  }

  function SeedBlock(seed: bv64): seq<bv64> {
    seq(NN, i requires 0 <= i < NN => SeedWord(seed, i))
  }

  // ---------- Tempering ----------

  function Temper1(x: bv64): bv64 { (x >> 29) & 0x5555_5555_5555_5555 }
  function Temper2(x: bv64): bv64 { (x << 17) & 0x71D6_7FFF_EDA6_0000 }
  function Temper3(x: bv64): bv64 { (x << 37) & 0xFFF7_EEE0_0000_0000 }
  function Temper4(x: bv64): bv64 { x >> 43 }

  function Fold(f: bv64 -> bv64, x: bv64): bv64 {
    Xor(x, f(x))
  }

  function Temper(x: bv64): bv64 {
    Fold(Temper4, Fold(Temper3, Fold(Temper2, Fold(Temper1, x))))
  }

  /** Every tempering step undoes itself when repeated four times. */
  function Thrice(f: bv64 -> bv64, x: bv64): bv64 {
    Fold(f, Fold(f, Fold(f, x)))
  }

  function Untemper(y: bv64): bv64 {
    Thrice(Temper1, Thrice(Temper2, Thrice(Temper3, Thrice(Temper4, y))))
  }

  /** `f` is linear over GF(2) and vanishes when repeated four times. */
  ghost predicate LinearShift(f: bv64 -> bv64) {
    && (forall a, b :: f(Xor(a, b)) == Xor(f(a), f(b)))
    && (forall a :: f(f(f(f(a)))) == 0)
  }

  lemma LinearAt(f: bv64 -> bv64, a: bv64, b: bv64)
    requires LinearShift(f)
    ensures f(Xor(a, b)) == Xor(f(a), f(b)) && f(f(f(f(a)))) == 0
  {
    hide Xor;
  }

  lemma FoldTwice(f: bv64 -> bv64, x: bv64)
    requires LinearShift(f)
    ensures Fold(f, Fold(f, x)) == Xor(x, f(f(x)))
  {
    hide Xor, LinearShift;
    var y := f(x);
    LinearAt(f, x, y);
    XorAssoc(x, y, Xor(y, f(y)));
    XorAssoc(y, y, f(y));
    XorZero(y);
    XorZero(f(y));
  }

  /** Folding in a linear shift has order four: squaring it squares the shift. */
  lemma FoldFour(f: bv64 -> bv64, x: bv64)
    requires LinearShift(f)
    ensures Fold(f, Thrice(f, x)) == x && Thrice(f, Fold(f, x)) == x
  {
    hide Xor, LinearShift;
    var y := f(f(x));
    var z := Xor(x, y);
    FoldTwice(f, x);
    FoldTwice(f, Fold(f, x));
    FoldTwice(f, z);
    LinearAt(f, x, y);
    LinearAt(f, f(x), f(y));
    XorZero(y);
    XorAssoc(x, y, y);
    XorZero(x);
  }

  lemma Temper1Shift()
    ensures LinearShift(Temper1)
  {
  }

  lemma Temper2Shift()
    ensures LinearShift(Temper2)
  {
  }

  lemma Temper3Shift()
    ensures LinearShift(Temper3)
  {
  }

  lemma Temper4Shift()
    ensures LinearShift(Temper4)
  {
  }

  /** Tempering is a bijection on 64-bit words, with `Untemper` as its inverse. */
  lemma TemperBijective(x: bv64)
    ensures Untemper(Temper(x)) == x && Temper(Untemper(x)) == x
  {
    hide Fold, Thrice, Temper1, Temper2, Temper3, Temper4;
    Temper1Shift();
    Temper2Shift();
    Temper3Shift();
    Temper4Shift();
    var a := Fold(Temper1, x);
    var b := Fold(Temper2, a);
    var c := Fold(Temper3, b);
    FoldFour(Temper4, c);
    FoldFour(Temper3, b);
    FoldFour(Temper2, a);
    FoldFour(Temper1, x);
    var d := Thrice(Temper4, x);
    var e := Thrice(Temper3, d);
    var g := Thrice(Temper2, e);
    FoldFour(Temper1, g);
    FoldFour(Temper2, e);
    FoldFour(Temper3, d);
    FoldFour(Temper4, x);
  }

  // ---------- States that never decay ----------

  /** The NN words from `n` on carry no bit that the recurrence reads. */
  ghost predicate Degenerate(s: seq<bv64>, n: nat)
    requires |s| == NN
  {
    X(s, n) & UM == 0 && forall i :: n < i < n + NN ==> X(s, i) == 0
  }

  lemma TwistInjectiveAtZero(y: bv64)
    ensures Twist(y) == 0 <==> y == 0
  {
  }

  lemma MixIsZero(u: bv64, l: bv64)
    requires Mix(u, l) == 0
    ensures u & UM == 0 && l & LM == 0
  {
  }

  lemma MixOfZeros(u: bv64, l: bv64)
    requires u & UM == 0 && l & LM == 0
    ensures Mix(u, l) == 0
  {
  }

  lemma HalvesZero(l: bv64)
    ensures l == 0 <==> l & UM == 0 && l & LM == 0
  {
  }

  /** One step of the recurrence keeps and reflects degeneracy. */
  lemma DegenerateStep(s: seq<bv64>, n: nat)
    requires |s| == NN
    ensures Degenerate(s, n + 1) <==> Degenerate(s, n)
  {
    hide Mix, Twist, Xor;
    var u, l, far := X(s, n), X(s, n + 1), X(s, n + MM);
    assert X(s, n + NN) == NextWord(far, u, l);
    TwistInjectiveAtZero(Mix(u, l));
    if Mix(u, l) == 0 {
      MixIsZero(u, l);
    }
    if u & UM == 0 && l & LM == 0 {
      MixOfZeros(u, l);
    }
    HalvesZero(l);
    XorZero(Twist(Mix(u, l)));
  }

  /** A run is degenerate at some point exactly when it was at the start. */
  lemma {:induction false} NeverDecays(s: seq<bv64>, n: nat)
    requires |s| == NN
    ensures Degenerate(s, n) <==> Degenerate(s, 0)
    decreases n
  {
    if n > 0 {
      hide Degenerate;
      DegenerateStep(s, n - 1);
      NeverDecays(s, n - 1);
    }
  }

  lemma SeedZeroNext(i: nat)
    requires i < NN
    ensures SeedNext(0, i) == i as bv64
  {
  }

  /** No seed gives a degenerate start: two consecutive seed words are never both zero. */
  lemma SeedNotDegenerate(seed: bv64)
    ensures !Degenerate(SeedBlock(seed), 0)
  {
    hide SeedNext;
    var s := SeedBlock(seed);
    assert X(s, 1) == SeedWord(seed, 1) && X(s, 2) == SeedWord(seed, 2);
    assert SeedWord(seed, 2) == SeedNext(SeedWord(seed, 1), 2);
    SeedZeroNext(2);
  }

  /** The top bit of the first word is enough to keep a run alive. */
  lemma TopBitLives(s: seq<bv64>)
    requires |s| == NN && s[0] == 0x8000_0000_0000_0000
    ensures !Degenerate(s, 0)
  {
  }

  // ---------- The generator ----------

  function KeyMix(w: bv64, prev: bv64, key: bv64, j: nat): bv64
    requires j < 0x1_0000_0000_0000_0000
  {
    (w ^ ((prev ^ (prev >> 62)) * 3935559000370003845)) + key + j as bv64
  }

  function IndexMix(w: bv64, prev: bv64, i: nat): bv64
    requires i < NN
  {
    (w ^ ((prev ^ (prev >> 62)) * 2862933555777941757)) - i as bv64
  }

  /** The position after `i` in a mixing pass, which never returns to word 0. */
  function Around(i: nat): nat { if i + 1 >= NN then 1 else i + 1 }

  /** A mixing pass writes word `i`, and word 0 as a copy of the last one. */
  function Written(mt: seq<bv64>, i: nat, w: bv64): (s: seq<bv64>)
    requires |mt| == NN && i < NN
    ensures |s| == NN
  {
    if i + 1 >= NN then mt[i := w][0 := w] else mt[i := w]
  }

  /** `k` further steps of the pass that mixes in the keys, from word `i` and key `j`. */
  function KeyPass(mt: seq<bv64>, i: nat, key: seq<bv64>, j: nat, k: nat): (r: (seq<bv64>, nat))
    requires |mt| == NN && 1 <= i < NN && j < |key| < 0x1_0000_0000_0000_0000
    ensures |r.0| == NN && 1 <= r.1 < NN
    decreases k
  {
    if k == 0 then (mt, i)
    else
      var next := if j + 1 >= |key| then 0 else j + 1;
      KeyPass(Written(mt, i, KeyMix(mt[i], mt[i - 1], key[j], j)), Around(i), key, next, k - 1)
  }

  /** `k` further steps of the pass that mixes in the positions. */
  function IndexPass(mt: seq<bv64>, i: nat, k: nat): (s: seq<bv64>)
    requires |mt| == NN && 1 <= i < NN
    ensures |s| == NN
    decreases k
  {
    if k == 0 then mt else IndexPass(Written(mt, i, IndexMix(mt[i], mt[i - 1], i)), Around(i), k - 1)
  }

  /** The block that an array of keys seeds. */
  function KeyBlock(key: seq<bv64>): seq<bv64>
    requires 0 < |key| < 0x1_0000_0000_0000_0000
  {
    var keyed := KeyPass(SeedBlock(19650218), 1, key, 0, if NN > |key| then NN else |key|);
    IndexPass(keyed.0, keyed.1, NN - 1)[0 := 0x8000_0000_0000_0000]
  }

  lemma SeedWords(seed: bv64)
    ensures SeedWord(seed, 0) == seed
    ensures forall i :: 1 <= i < NN ==> SeedWord(seed, i) == SeedNext(SeedWord(seed, i - 1), i)
  {
    hide SeedNext;
  }

  lemma KeyPassStep(mt: seq<bv64>, i: nat, key: seq<bv64>, j: nat, k: nat)
    requires |mt| == NN && 1 <= i < NN && j < |key| < 0x1_0000_0000_0000_0000 && k > 0
    ensures var next, mixed := if j + 1 >= |key| then 0 else j + 1, KeyMix(mt[i], mt[i - 1], key[j], j);
            KeyPass(mt, i, key, j, k) == KeyPass(Written(mt, i, mixed), Around(i), key, next, k - 1)
  {
    hide KeyMix;
  }

  lemma KeyPassDone(mt: seq<bv64>, i: nat, key: seq<bv64>, j: nat)
    requires |mt| == NN && 1 <= i < NN && j < |key| < 0x1_0000_0000_0000_0000
    ensures KeyPass(mt, i, key, j, 0) == (mt, i)
  {
  }

  lemma IndexPassStep(mt: seq<bv64>, i: nat, k: nat)
    requires |mt| == NN && 1 <= i < NN && k > 0
    ensures IndexPass(mt, i, k) == IndexPass(Written(mt, i, IndexMix(mt[i], mt[i - 1], i)), Around(i), k - 1)
  {
    hide IndexMix;
  }

  lemma IndexPassDone(mt: seq<bv64>, i: nat)
    requires |mt| == NN && 1 <= i < NN
    ensures IndexPass(mt, i, 0) == mt
  {
  }

  lemma NextIs(s: seq<bv64>, n: nat)
    requires |s| == NN
    ensures X(s, n + NN) == NextWord(X(s, n + MM), X(s, n), X(s, n + 1))
  {
  }

  lemma StartWords(s: seq<bv64>)
    requires |s| == NN
    ensures forall i :: 0 <= i < NN ==> X(s, i) == s[i]
  {
  }

  /** A block in the middle of a refill: words below `i` are of the next generation, the others of this one. */
  ghost predicate Refilled(mt: seq<bv64>, s: seq<bv64>, base: nat, i: nat)
    requires |s| == NN
  {
    && |mt| == NN
    && (forall j :: 0 <= j < NN && j < i ==> mt[j] == X(s, base + NN + j))
    && (forall j :: i <= j < NN ==> mt[j] == X(s, base + j))
  }

  lemma RefillStarts(mt: seq<bv64>, s: seq<bv64>, base: nat)
    requires |s| == NN == |mt| && forall j :: 0 <= j < NN ==> mt[j] == X(s, base + j)
    ensures Refilled(mt, s, base, 0)
  {
  }

  /** One word further: its two neighbours are of the generations the recurrence asks for. */
  lemma RefillStep(mt: seq<bv64>, s: seq<bv64>, base: nat, i: nat)
    requires |s| == NN && i < NN && Refilled(mt, s, base, i)
    ensures |mt| == NN
    ensures var far, next := if i + MM < NN then i + MM else i + MM - NN, if i + 1 < NN then i + 1 else 0;
            Refilled(mt[i := NextWord(mt[far], mt[i], mt[next])], s, base, i + 1)
  {
    hide NextWord, X;
    NextIs(s, base + i);
  }

  lemma RefillEnds(mt: seq<bv64>, s: seq<bv64>, base: nat)
    requires |s| == NN && Refilled(mt, s, base, NN)
    ensures |mt| == NN && forall j :: 0 <= j < NN ==> mt[j] == X(s, base + NN + j)
  {
  }

  /** The static state of the source: the array `mt` and its cursor `mti`. */
  class Twister {
    const mt: array<bv64>
    var mti: nat
    ghost var start: seq<bv64>  // the block the run began with
    ghost var rounds: nat       // refills since then

    /** Unless the array is still unseeded, it holds a block of the sequence that `start` begins. */
    ghost predicate Valid()
      reads this, mt
    {
      && mt.Length == NN
      && mti <= NN + 1
      && (mti < NN ==> rounds > 0)
      && (mti <= NN ==> |start| == NN && forall i :: 0 <= i < NN ==> mt[i] == X(start, NN * rounds + i))
    }

    /** Numbers drawn since the state was seeded. */
    ghost function Drawn(): nat
      reads this
    {
      if rounds == 0 then 0 else NN * (rounds - 1) + mti
    }

    constructor ()
      ensures Valid() && fresh(mt) && mti == NN + 1
    {
      mt := new bv64[NN];
      mti := NN + 1;
      start := [];
      rounds := 0;
    }

    /** `init_genrand64`. */
    method InitGenrand64(seed: bv64)
      requires Valid()
      modifies this, mt
      ensures Valid() && mti == NN
      ensures start == SeedBlock(seed) && Drawn() == 0
    {
      hide SeedNext, X, SeedWord;
      SeedWords(seed);
      mt[0] := seed;
      mti := 1;
      while mti < NN
        invariant 1 <= mti <= NN
        invariant forall i :: 0 <= i < mti ==> mt[i] == SeedWord(seed, i)
        decreases NN - mti
      {
        mt[mti] := SeedNext(mt[mti - 1], mti);
        mti := mti + 1;
      }
      start := SeedBlock(seed);
      rounds := 0;
      StartWords(start);
    }

    /** The first mixing pass of `init_by_array64`. */
    method MixKeys(initKey: seq<bv64>) returns (i: nat)
      requires mt.Length == NN && 0 < |initKey| < 0x1_0000_0000_0000_0000
      modifies mt
      ensures 1 <= i < NN
      ensures (mt[..], i) == KeyPass(old(mt[..]), 1, initKey, 0, if NN > |initKey| then NN else |initKey|)
    {
      hide KeyMix, KeyPass;
      var j := 0;
      i := 1;
      var k: nat := if NN > |initKey| then NN else |initKey|;
      ghost var keyed := KeyPass(mt[..], i, initKey, j, k);
      while k != 0
        invariant 1 <= i < NN && 0 <= j < |initKey|
        invariant KeyPass(mt[..], i, initKey, j, k) == keyed
        decreases k
      {
        KeyPassStep(mt[..], i, initKey, j, k);
        mt[i] := KeyMix(mt[i], mt[i - 1], initKey[j], j);
        i, j := i + 1, j + 1;
        if i >= NN {
          mt[0] := mt[NN - 1];
          i := 1;
        }
        if j >= |initKey| {
          j := 0;
        }
        k := k - 1;
      }
      KeyPassDone(mt[..], i, initKey, j);
    }

    /** The second mixing pass, from word `from` on. */
    method MixIndices(from: nat)
      requires mt.Length == NN && 1 <= from < NN
      modifies mt
      ensures mt[..] == IndexPass(old(mt[..]), from, NN - 1)
    {
      hide IndexMix, IndexPass;
      var i := from;
      var k: nat := NN - 1;
      ghost var mixed := IndexPass(mt[..], i, k);
      while k != 0
        invariant 1 <= i < NN
        invariant IndexPass(mt[..], i, k) == mixed
        decreases k
      {
        IndexPassStep(mt[..], i, k);
        mt[i] := IndexMix(mt[i], mt[i - 1], i);
        i := i + 1;
        if i >= NN {
          mt[0] := mt[NN - 1];
          i := 1;
        }
        k := k - 1;
      }
      IndexPassDone(mt[..], i);
    }

    /** `init_by_array64`: whatever the keys, the state it leaves can never decay to zero. */
    method InitByArray64(initKey: seq<bv64>)
      requires Valid() && 0 < |initKey| < 0x1_0000_0000_0000_0000
      modifies this, mt
      ensures Valid() && mti == NN && Drawn() == 0
      ensures start == KeyBlock(initKey) && !Degenerate(start, 0)
    {
      hide X, SeedBlock, KeyPass, IndexPass, Degenerate, SeedWord, NextWord;
      InitGenrand64(19650218);
      assert mt[..] == SeedBlock(19650218) by {
        StartWords(start);
      }
      var i := MixKeys(initKey);
      MixIndices(i);
      mt[0] := 0x8000_0000_0000_0000;
      start := mt[..];
      StartWords(start);
      TopBitLives(start);
    }

    /** The refill inside `genrand64_int64`: the next NN words of the sequence overwrite the last NN,
        in place, reading words of both generations. */
    method Refill()
      requires Valid() && mti == NN
      modifies this, mt
      ensures Valid() && mti == 0
      ensures start == old(start) && rounds == old(rounds) + 1
    {
      hide NextWord, X, Refilled;
      ghost var s, base := start, NN * rounds;
      RefillStarts(mt[..], s, base);
      var i := 0;
      while i < NN - MM
        modifies mt
        invariant 0 <= i <= NN - MM && Refilled(mt[..], s, base, i)
      {
        ghost var before := mt[..];
        RefillStep(before, s, base, i);
        mt[i] := NextWord(mt[i + MM], mt[i], mt[i + 1]);
        assert mt[..] == before[i := mt[i]];
        i := i + 1;
      }
      while i < NN - 1
        modifies mt
        invariant NN - MM <= i <= NN - 1 && Refilled(mt[..], s, base, i)
      {
        ghost var before := mt[..];
        RefillStep(before, s, base, i);
        mt[i] := NextWord(mt[i + (MM - NN)], mt[i], mt[i + 1]);
        assert mt[..] == before[i := mt[i]];
        i := i + 1;
      }
      ghost var before := mt[..];
      RefillStep(before, s, base, i);
      mt[NN - 1] := NextWord(mt[MM - 1], mt[NN - 1], mt[0]);
      assert mt[..] == before[i := mt[i]];
      RefillEnds(mt[..], s, base);
      rounds := rounds + 1;
      mti := 0;
    }

    /** `genrand64_int64`: the n-th number drawn is the tempered word NN + n of the sequence. */
    method Genrand64Int64() returns (r: bv64)
      requires Valid()
      modifies this, mt
      ensures Valid() && mti <= NN
      ensures old(mti) == NN + 1 ==> start == SeedBlock(5489) && Drawn() == 1
      ensures old(mti) <= NN ==> start == old(start) && Drawn() == old(Drawn()) + 1
      ensures r == Temper(X(start, NN + Drawn() - 1))
    {
      hide Temper, NextWord, SeedBlock;
      if mti >= NN {
        if mti == NN + 1 {
          InitGenrand64(5489);
        }
        Refill();
      }
      var x := mt[mti];
      mti := mti + 1;
      r := Temper(x);
    }
  }

  /** Every run: `count` draws after seeding yield the tempered sequence from word NN on, across any
      number of refills. */
  method Draw(seed: bv64, count: nat) returns (out: seq<bv64>)
    ensures |out| == count
    ensures forall n :: 0 <= n < count ==> out[n] == Temper(X(SeedBlock(seed), NN + n))
  {
    hide Temper, X, SeedBlock;
    var g := new Twister();
    g.InitGenrand64(seed);
    out := [];
    while |out| < count
      invariant g.Valid() && fresh(g) && fresh(g.mt) && g.mti <= NN
      invariant g.start == SeedBlock(seed) && g.Drawn() == |out| <= count
      invariant forall n :: 0 <= n < |out| ==> out[n] == Temper(X(g.start, NN + n))
    {
      var r := g.Genrand64Int64();
      out := out + [r];
    }
  }
}
