/** The CRC32C shift register (src/lib/common/crc32.cc): a bit-serial reference, its linearity over
    GF(2), and what both say about cutting a message into lanes. A register is a 64-bit word; a CRC
    value occupies its low 32 bits. */
module Crc32c {
  import opened Gf2

  // ---------- The register ----------

  predicate Odd(s: bv64) { s & 1 == 1 }

  function Half(s: bv64): bv64 { s >> 1 }

  /** The reflected Castagnoli polynomial (section 12.1 of RFC 3720), fed back when a 1 leaves. */
  function Feedback(bit: bool): bv64 {
    if bit then 0x82F63B78 else 0
  }

  /** One shift of the register: multiplication by x modulo the polynomial. */
  function Step(s: bv64): bv64 {
    Xor(Half(s), Feedback(Odd(s)))
  }

  function StepN(s: bv64, n: nat): bv64
    decreases n, s
  {
    if n == 0 then s else StepN(Step(s), n - 1)
  }

  /** One shift of the serial circuit: the incoming message bit joins the outgoing register bit. */
  function FeedBit(c: bv64, bit: bool): bv64 {
    Xor(Half(c), Feedback(Odd(c) != bit))
  }

  /** Feeds the low `n` bits of `w`, least significant first. */
  function FeedBits(c: bv64, w: bv64, n: nat): bv64
    decreases n, c, w
  {
    if n == 0 then c else FeedBits(FeedBit(c, Odd(w)), Half(w), n - 1)
  }

  /** What the `crc32` instruction behind `_mm_crc32_u64` computes. */
  function CrcU64(c: bv64, w: bv64): bv64 {
    FeedBits(c, w, 64)
  }

  function FeedByte(c: bv64, b: bv8): bv64 {
    FeedBits(c, b as bv64, 8)
  }

  /** Reference: the bit-serial CRC of the bytes of `m` in order, from register value `c`. */
  function Crc(c: bv64, m: seq<bv8>): bv64
    decreases |m|
  {
    if m == [] then c else Crc(FeedByte(c, m[0]), m[1..])
  }

  predicate Small(s: bv64) { s < 0x1_0000_0000 }

  // ---------- The register is linear ----------

  lemma XorHalf(a: bv64, b: bv64)
    ensures Half(Xor(a, b)) == Xor(Half(a), Half(b))
  {
    assert (a ^ b) >> 1 == (a >> 1) ^ (b >> 1);
  }

  lemma XorOdd(a: bv64, b: bv64)
    ensures Odd(Xor(a, b)) == (Odd(a) != Odd(b))
  {
    assert (a ^ b) & 1 == (a & 1) ^ (b & 1);
  }

  lemma XorFeedback(p: bool, q: bool)
    ensures Xor(Feedback(p), Feedback(q)) == Feedback(p != q)
  {
  }

  lemma StepLinear(a: bv64, b: bv64)
    ensures Step(Xor(a, b)) == Xor(Step(a), Step(b))
  {
    hide Xor, Half, Odd, Feedback;
    XorOdd(a, b);
    XorFeedback(Odd(a), Odd(b));
    XorHalf(a, b);
    XorRegroup(Half(a), Half(b), Feedback(Odd(a)), Feedback(Odd(b)));
  }

  lemma {:induction false} StepNLinear(a: bv64, b: bv64, n: nat)
    ensures StepN(Xor(a, b), n) == Xor(StepN(a, n), StepN(b, n))
    decreases n
  {
    hide Step, Xor;
    if n > 0 {
      StepLinear(a, b);
      StepNLinear(Step(a), Step(b), n - 1);
    }
  }

  lemma {:induction false} StepNAdd(s: bv64, m: nat, n: nat)
    ensures StepN(s, m + n) == StepN(StepN(s, m), n)
    decreases m
  {
    hide Step;
    if m > 0 {
      StepNAdd(Step(s), m - 1, n);
    }
  }

  lemma StepNZero(n: nat)
    ensures StepN(0, n) == 0
  {
    hide Xor, Step;
    StepNLinear(0, 0, n);
    XorZero(0);
    XorZero(StepN(0, n));
  }

  lemma StepSmall(s: bv64)
    requires Small(s)
    ensures Small(Step(s))
  {
  }

  lemma {:induction false} StepNSmall(s: bv64, n: nat)
    requires Small(s)
    ensures Small(StepN(s, n))
    decreases n
  {
    hide Step, Small;
    if n > 0 {
      StepSmall(s);
      StepNSmall(Step(s), n - 1);
    }
  }

  /** What is left of `w` when `n` of its bits have been fed. */
  function Unfed(w: bv64, n: nat): bv64
    decreases n
  {
    if n == 0 then w else Unfed(Half(w), n - 1)
  }

  lemma FeedOne(c: bv64, w: bv64)
    ensures Step(Xor(c, w)) == Xor(FeedBit(c, Odd(w)), Half(w))
  {
    hide Xor, Half, Odd, Feedback;
    XorOdd(c, w);
    XorHalf(c, w);
    XorSwap(Half(c), Half(w), Feedback(Odd(c) != Odd(w)));
  }

  /** Feeding a word bit by bit is shifting the register that the word was added to at once. */
  lemma {:induction false} FeedIsStep(c: bv64, w: bv64, n: nat)
    ensures StepN(Xor(c, w), n) == Xor(FeedBits(c, w, n), Unfed(w, n))
    decreases n
  {
    hide Step, FeedBit, Xor, Half, Odd;
    if n > 0 {
      FeedOne(c, w);
      FeedIsStep(FeedBit(c, Odd(w)), Half(w), n - 1);
    }
  }

  lemma {:induction false} FeedBitsAdd(c: bv64, w: bv64, m: nat, n: nat)
    ensures FeedBits(c, w, m + n) == FeedBits(FeedBits(c, w, m), Unfed(w, m), n)
    decreases m
  {
    hide FeedBit, Half, Odd;
    if m > 0 {
      FeedBitsAdd(FeedBit(c, Odd(w)), Half(w), m - 1, n);
    }
  }

  lemma {:induction false} UnfedAdd(w: bv64, m: nat, n: nat)
    ensures Unfed(w, m + n) == Unfed(Unfed(w, m), n)
    decreases m
  {
    hide Half;
    if m > 0 {
      UnfedAdd(Half(w), m - 1, n);
    }
  }

  /** The word without its lowest byte. */
  function Shr8(w: bv64): bv64 { w >> 8 }

  lemma Unfed8(w: bv64)
    ensures Unfed(w, 8) == Shr8(w)
  {
    var a := Half(Half(w));
    var b := Half(Half(a));
    var c := Half(Half(b));
    assert Unfed(w, 8) == Unfed(a, 6) == Unfed(b, 4) == Unfed(c, 2) by { hide Half; }
    assert ((((((((w >> 1) >> 1) >> 1) >> 1) >> 1) >> 1) >> 1) >> 1) == w >> 8;
  }

  function ShrBytes(w: bv64, k: nat): bv64
    decreases k
  {
    if k == 0 then w else ShrBytes(Shr8(w), k - 1)
  }

  lemma {:induction false} UnfedBytes(w: bv64, k: nat)
    ensures Unfed(w, 8 * k) == ShrBytes(w, k)
    decreases k
  {
    hide Half, Shr8;
    if k > 0 {
      UnfedAdd(w, 8, 8 * (k - 1));
      Unfed8(w);
      UnfedBytes(Shr8(w), k - 1);
    }
  }

  lemma ShrAll(w: bv64)
    ensures ShrBytes(w, 8) == 0
  {
    assert ShrBytes(w, 8) == Shr8(Shr8(Shr8(Shr8(Shr8(Shr8(Shr8(Shr8(w)))))))) by { hide Shr8; }
    assert ((((((((w >> 8) >> 8) >> 8) >> 8) >> 8) >> 8) >> 8) >> 8) == 0;
  }

  lemma FeedByteIsStep(c: bv64, b: bv8)
    ensures FeedByte(c, b) == StepN(Xor(c, b as bv64), 8)
  {
    hide Xor, Half, Odd, Step;
    FeedIsStep(c, b as bv64, 8);
    Unfed8(b as bv64);
    assert (b as bv64) >> 8 == 0;
    XorZero(FeedBits(c, b as bv64, 8));
  }

  lemma FeedAll(c: bv64, w: bv64, k: nat)
    requires ShrBytes(w, k) == 0
    ensures FeedBits(c, w, 8 * k) == StepN(Xor(c, w), 8 * k)
  {
    hide Xor, Half, Odd, Step, Shr8, FeedBit;
    FeedIsStep(c, w, 8 * k);
    UnfedBytes(w, k);
    XorZero(FeedBits(c, w, 8 * k));
  }

  /** The `crc32` instruction on a whole word, as one polynomial product. */
  lemma InstructionIsProduct(c: bv64, w: bv64)
    ensures CrcU64(c, w) == StepN(Xor(c, w), 64)
  {
    hide Xor, Half, Odd, Step, Shr8, FeedBit, StepN, FeedBits;
    ShrAll(w);
    FeedAll(c, w, 8);
  }

  // ---------- Bytes of a word ----------

  function Shl8(w: bv64): bv64 { w << 8 }

  /** The low `n` bits are all 0. */
  predicate LowZero(w: bv64, n: nat)
    decreases n
  {
    n == 0 || (!Odd(w) && LowZero(Half(w), n - 1))
  }

  lemma StepEven(w: bv64)
    requires !Odd(w)
    ensures Step(w) == Half(w)
  {
    hide Half, Odd, Xor;
    XorZero(Half(w));
  }

  lemma {:induction false} StepLowZero(w: bv64, n: nat)
    requires LowZero(w, n)
    ensures StepN(w, n) == Unfed(w, n)
    decreases n
  {
    hide Half, Odd, Step;
    if n > 0 {
      StepEven(w);
      StepLowZero(Half(w), n - 1);
    }
  }

  lemma LowZeroShl(r: bv64)
    ensures LowZero(Shl8(r), 8)
  {
    var z := Shl8(r);
    var z1 := Half(z);
    var z2 := Half(z1);
    var z3 := Half(z2);
    var z4 := Half(z3);
    var z5 := Half(z4);
    var z6 := Half(z5);
    var z7 := Half(z6);
    assert !Odd(z) && !Odd(z1) && !Odd(z2) && !Odd(z3) && !Odd(z4) && !Odd(z5) && !Odd(z6) && !Odd(z7);
    assert LowZero(z, 8) by { hide Half, Odd, Shl8; }
  }

  lemma ShrShl(r: bv64)
    requires r < 0x100_0000_0000_0000
    ensures Shr8(Shl8(r)) == r
  {
  }

  /** A byte position in a word is eight shifts of the register. */
  lemma StepShl8(r: bv64)
    requires r < 0x100_0000_0000_0000
    ensures StepN(Shl8(r), 8) == r
  {
    hide Shl8, Shr8, Half, Odd, Step;
    LowZeroShl(r);
    StepLowZero(Shl8(r), 8);
    Unfed8(Shl8(r));
    ShrShl(r);
  }

  function Low8(w: bv64): bv64 { w & 0xFF }

  lemma SplitByte(w: bv64)
    ensures w == Xor(Low8(w), Shl8(Shr8(w)))
    ensures Shr8(w) < 0x100_0000_0000_0000 && Shr8(Low8(w)) == 0
  {
  }

  /** Only the low byte of a word matters to the first eight bits fed. */
  lemma FeedLowByte(c: bv64, w: bv64)
    ensures FeedBits(c, w, 8) == FeedBits(c, Low8(w), 8)
  {
    hide Xor, Shl8, Shr8, Low8, Half, Odd, Step, FeedBit;
    var low := Low8(w);
    var r := Shr8(w);
    SplitByte(w);
    StepShl8(r);
    FeedIsStep(c, w, 8);
    Unfed8(w);
    XorAssoc(c, low, Shl8(r));
    StepNLinear(Xor(c, low), Shl8(r), 8);
    FeedIsStep(c, low, 8);
    Unfed8(low);
    XorZero(FeedBits(c, low, 8));
    XorCancel(FeedBits(c, w, 8), FeedBits(c, low, 8), r);
  }

  /** `w` carries the bytes `bs` from its lowest byte up. */
  predicate Holds(w: bv64, bs: seq<bv8>)
    decreases |bs|
  {
    bs == [] || (Low8(w) == bs[0] as bv64 && Holds(Shr8(w), bs[1..]))
  }

  lemma FeedHoldsOne(c: bv64, w: bv64, b: bv8, n: nat)
    requires Low8(w) == b as bv64
    ensures FeedBits(c, w, 8 + n) == FeedBits(FeedByte(c, b), Shr8(w), n)
  {
    hide Half, Odd, FeedBit, Shr8, Low8;
    FeedBitsAdd(c, w, 8, n);
    FeedLowByte(c, w);
    Unfed8(w);
  }

  lemma {:induction false} FeedHolds(c: bv64, w: bv64, bs: seq<bv8>)
    requires Holds(w, bs)
    ensures FeedBits(c, w, 8 * |bs|) == Crc(c, bs)
    decreases |bs|
  {
    hide FeedByte, Half, Odd, FeedBit, Shr8, Low8;
    if bs != [] {
      FeedHoldsOne(c, w, bs[0], 8 * |bs[1..]|);
      FeedHolds(FeedByte(c, bs[0]), Shr8(w), bs[1..]);
    }
  }

  /** The little-endian load behind `p_buffer[k]`. */
  function LoadWord(b: seq<bv8>): bv64
    requires |b| <= 8
  {
    if b == [] then 0 else Join(b[0], LoadWord(b[1..]))
  }

  function Join(b: bv8, rest: bv64): bv64 {
    (b as bv64) | (rest << 8)
  }

  function Limit(k: nat): bv64 {
    match k
    case 0 => 1
    case 1 => 0x100
    case 2 => 0x1_0000
    case 3 => 0x100_0000
    case 4 => 0x1_0000_0000
    case 5 => 0x100_0000_0000
    case 6 => 0x1_0000_0000_0000
    case _ => 0x100_0000_0000_0000
  }

  /** `w` uses its low `k` bytes only. */
  predicate Fits(w: bv64, k: nat) {
    w < Limit(k)
  }

  lemma JoinParts(b: bv8, r: bv64, k: nat)
    requires k <= 7 && Fits(r, k)
    ensures Low8(Join(b, r)) == b as bv64 && Shr8(Join(b, r)) == r
  {
  }

  lemma JoinLimit(b: bv8, r: bv64, k: nat)
    requires k < 7 && Fits(r, k)
    ensures Fits(Join(b, r), k + 1)
  {
  }

  lemma NothingFits()
    ensures Fits(0, 0)
  {
  }

  lemma {:induction false} LoadHolds(b: seq<bv8>)
    requires |b| <= 8
    ensures Holds(LoadWord(b), b)
    ensures |b| <= 7 ==> Fits(LoadWord(b), |b|)
  {
    hide Shr8, Low8, Join, Fits;
    if b == [] {
      NothingFits();
    } else {
      var r := LoadWord(b[1..]);
      LoadHolds(b[1..]);
      JoinParts(b[0], r, |b| - 1);
      if |b| <= 7 {
        JoinLimit(b[0], r, |b| - 1);
      }
    }
  }

  /** One instruction on a loaded word is the bit-serial CRC of its eight bytes in memory order. */
  lemma InstructionIsSerial(c: bv64, b: seq<bv8>)
    requires |b| == 8
    ensures CrcU64(c, LoadWord(b)) == Crc(c, b)
  {
    hide LoadWord, Holds, Fits, Half, Odd, FeedBit, FeedBits, Crc;
    LoadHolds(b);
    FeedHolds(c, LoadWord(b), b);
  }

  // ---------- Messages ----------

  lemma {:induction false} CrcAppend(c: bv64, a: seq<bv8>, b: seq<bv8>)
    ensures Crc(c, a + b) == Crc(Crc(c, a), b)
    decreases |a|
  {
    hide FeedByte;
    if a == [] {
      assert a + b == b;
    } else {
      assert (a + b)[1..] == a[1..] + b;
      CrcAppend(FeedByte(c, a[0]), a[1..], b);
    }
  }

  lemma FeedByteLinear(c: bv64, d: bv64, b: bv8)
    ensures FeedByte(Xor(c, d), b) == Xor(FeedByte(c, b), StepN(d, 8))
  {
    hide Xor, StepN, FeedByte;
    FeedByteIsStep(Xor(c, d), b);
    FeedByteIsStep(c, b);
    XorSwap(c, d, b as bv64);
    StepNLinear(Xor(c, b as bv64), d, 8);
  }

  /** Linearity: a change of the initial value travels through the message as through zeros. */
  lemma {:induction false} CrcLinear(c: bv64, d: bv64, m: seq<bv8>)
    ensures Crc(Xor(c, d), m) == Xor(Crc(c, m), StepN(d, 8 * |m|))
    decreases |m|
  {
    hide Xor, FeedByte;
    if m != [] {
      hide StepN;
      FeedByteLinear(c, d, m[0]);
      CrcLinear(FeedByte(c, m[0]), StepN(d, 8), m[1..]);
      StepNAdd(d, 8, 8 * |m[1..]|);
    }
  }

  lemma FeedByteSmall(c: bv64, b: bv8)
    requires Small(c)
    ensures Small(FeedByte(c, b))
  {
    hide FeedByte, Small, Xor, StepN;
    FeedByteIsStep(c, b);
    XorSmall(c, b);
    StepNSmall(Xor(c, b as bv64), 8);
  }

  lemma {:induction false} CrcSmall(c: bv64, m: seq<bv8>)
    requires Small(c)
    ensures Small(Crc(c, m))
    decreases |m|
  {
    hide FeedByte, Small;
    if m != [] {
      FeedByteSmall(c, m[0]);
      CrcSmall(FeedByte(c, m[0]), m[1..]);
    }
  }

  lemma XorSmall(c: bv64, b: bv8)
    requires Small(c)
    ensures Small(Xor(c, b as bv64))
  {
  }

  /** The three-lane law, for lanes of any lengths: lanes started from zero and advanced past what
      follows them add up to the CRC of the whole. */
  lemma ThreeLanes(c: bv64, l0: seq<bv8>, l1: seq<bv8>, l2: seq<bv8>)
    ensures Crc(c, l0 + l1 + l2)
         == Xor(Xor(Crc(0, l2), StepN(Crc(0, l1), 8 * |l2|)), StepN(Crc(c, l0), 8 * (|l1| + |l2|)))
  {
    hide Xor, StepN, Crc;
    var a := Crc(c, l0);
    CrcAppend(c, l0 + l1, l2);
    CrcAppend(c, l0, l1);
    XorZero(a);
    CrcLinear(0, a, l1);
    var b := Crc(0, l1);
    var a1 := StepN(a, 8 * |l1|);
    XorZero(Xor(b, a1));
    CrcLinear(0, Xor(b, a1), l2);
    StepNLinear(b, a1, 8 * |l2|);
    StepNAdd(a, 8 * |l1|, 8 * |l2|);
    XorAssoc(Crc(0, l2), StepN(b, 8 * |l2|), StepN(a1, 8 * |l2|));
  }
}
