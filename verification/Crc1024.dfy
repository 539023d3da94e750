/** `crc_1024_c` (src/lib/common/crc32.cc) and the segment loop over it (testing/os/crc-hw/main.cc):
    the three-way interleaved CRC refines the bit-serial one. */
module Crc1024 {
  import opened Gf2
  import opened Crc32c
  import opened CrcTables

  // ---------- Merging a lane through a table ----------

  function ShlBytes(x: bv64, k: nat): bv64 {
    if k == 0 then x else Shl8(ShlBytes(x, k - 1))
  }

  /** `(c >> 8k) & 0xFF`. */
  function Byte(c: bv64, k: nat): bv8
    requires k < 4
  {
    match k
    case 0 => (c & 0xFF) as bv8
    case 1 => ((c >> 8) & 0xFF) as bv8
    case 2 => ((c >> 16) & 0xFF) as bv8
    case _ => ((c >> 24) & 0xFF) as bv8
  }

  /** `x << 8k`. */
  function Place(x: bv64, k: nat): bv64
    requires k < 4
  {
    match k
    case 0 => x
    case 1 => x << 8
    case 2 => x << 16
    case _ => x << 24
  }

  function SumOfFour(x0: bv64, x1: bv64, x2: bv64, x3: bv64): bv64 {
    Xor(Xor(Place(x0, 0), Place(x1, 1)), Xor(Place(x2, 2), Place(x3, 3)))
  }

  /** What the source adds into `tmp` for one lane: one table word per byte of the lane's CRC. */
  function MergeWord(t: Table, c: bv64): bv64 {
    SumOfFour(Entry(t, Byte(c, 0)), Entry(t, Byte(c, 1)), Entry(t, Byte(c, 2)), Entry(t, Byte(c, 3)))
  }

  lemma ShlFits(x: bv64, k: nat)
    requires k < 7 && Fits(x, k)
    ensures Fits(Shl8(x), k + 1)
  {
    JoinLimit(0, x, k);
    assert Join(0, x) == Shl8(x);
  }

  lemma FitsTop(x: bv64, k: nat)
    requires k <= 7 && Fits(x, k)
    ensures x < 0x100_0000_0000_0000
  {
  }

  lemma {:induction false} StepShlBytes(x: bv64, k: nat)
    requires Fits(x, 4) && k <= 3
    ensures StepN(ShlBytes(x, k), 8 * k) == x && Fits(ShlBytes(x, k), 4 + k)
    decreases k
  {
    hide Shl8, Fits;
    if k > 0 {
      hide StepN;
      var y := ShlBytes(x, k - 1);
      StepShlBytes(x, k - 1);
      FitsTop(y, 3 + k);
      StepShl8(y);
      StepNAdd(Shl8(y), 8, 8 * (k - 1));
      ShlFits(y, 3 + k);
    }
  }

  /** Byte `k` of a lane: looking up, placing and running `m + 8 * k` steps is advancing the byte
      in its own place by `n` more steps. */
  lemma LaneByte(e: bv64, b: bv64, n: nat, k: nat, m: nat)
    requires k <= 3 && e == StepN(b, n) && Fits(e, 4) && Fits(b, 4)
    ensures StepN(ShlBytes(e, k), 8 * k + m) == StepN(ShlBytes(b, k), n + (8 * k + m))
  {
    hide StepN, ShlBytes, Fits;
    StepShlBytes(e, k);
    StepShlBytes(b, k);
    StepNAdd(ShlBytes(e, k), 8 * k, m);
    StepNAdd(b, n, m);
    StepNAdd(ShlBytes(b, k), 8 * k, n + m);
    assert 8 * k + (n + m) == n + (8 * k + m);
  }

  lemma ByteFits(b: bv8)
    ensures Fits(b as bv64, 4) && Small(b as bv64)
  {
  }

  lemma SmallFits(x: bv64)
    requires Small(x)
    ensures Fits(x, 4)
  {
  }

  lemma ShlTwice(x: bv64)
    ensures Shl8(Shl8(x)) == x << 16
  {
    assert (x << 8) << 8 == x << 16;
  }

  lemma ShlThrice(x: bv64)
    ensures Shl8(Shl8(Shl8(x))) == x << 24
  {
    ShlTwice(x);
    ShlMore(x);
    hide ShlBytes;
    calc {
      Shl8(Shl8(Shl8(x)));
      Shl8(x << 16);
      (x << 16) << 8;
      x << 24;
    }
  }

  lemma ShlMore(x: bv64)
    ensures (x << 16) << 8 == x << 24
  {
  }

  lemma PlaceIsShl(x: bv64, k: nat)
    requires k < 4
    ensures Place(x, k) == ShlBytes(x, k)
  {
    ShlTwice(x);
    ShlThrice(x);
    assert Shl8(x) == x << 8;
    hide Shl8;
    assert ShlBytes(x, 1) == Shl8(x);
    assert ShlBytes(x, 2) == Shl8(Shl8(x));
    assert ShlBytes(x, 3) == Shl8(Shl8(Shl8(x)));
  }

  lemma EntryByte(t: Table, n: nat, b: bv8, k: nat)
    requires Multiplies(t, n) && k < 4
    ensures StepN(Place(Entry(t, b), k), 64) == StepN(Place(b as bv64, k), n + 64)
  {
    hide StepN, ShlBytes, Fits, Small, Entry, Place;
    ByteFits(b);
    StepNSmall(b as bv64, n);
    SmallFits(StepN(b as bv64, n));
    LaneByte(Entry(t, b), b as bv64, n, k, 64 - 8 * k);
    PlaceIsShl(Entry(t, b), k);
    PlaceIsShl(b as bv64, k);
  }

  lemma BytesOfCrc(c: bv64)
    requires Small(c)
    ensures c == SumOfFour(Byte(c, 0) as bv64, Byte(c, 1) as bv64, Byte(c, 2) as bv64, Byte(c, 3) as bv64)
  {
  }

  lemma StepNSumOfFour(x0: bv64, x1: bv64, x2: bv64, x3: bv64, n: nat)
    ensures StepN(SumOfFour(x0, x1, x2, x3), n)
         == Xor(Xor(StepN(Place(x0, 0), n), StepN(Place(x1, 1), n)),
                Xor(StepN(Place(x2, 2), n), StepN(Place(x3, 3), n)))
  {
    hide Xor, StepN, Place;
    var p, q, r, t := Place(x0, 0), Place(x1, 1), Place(x2, 2), Place(x3, 3);
    StepNLinear(Xor(p, q), Xor(r, t), n);
    StepNLinear(p, q, n);
    StepNLinear(r, t, n);
  }

  /** Merging through a table that multiplies by x to the `n` advances the lane by `n` further bits,
      whatever the lane length. */
  lemma MergeAdvances(t: Table, n: nat, c: bv64)
    requires Multiplies(t, n) && Small(c)
    ensures StepN(MergeWord(t, c), 64) == StepN(c, n + 64)
  {
    hide StepN, Xor, Small, Entry, Multiplies, Place, Byte, SumOfFour;
    var b0, b1, b2, b3 := Byte(c, 0), Byte(c, 1), Byte(c, 2), Byte(c, 3);
    EntryByte(t, n, b0, 0);
    EntryByte(t, n, b1, 1);
    EntryByte(t, n, b2, 2);
    EntryByte(t, n, b3, 3);
    BytesOfCrc(c);
    StepNSumOfFour(Entry(t, b0), Entry(t, b1), Entry(t, b2), Entry(t, b3), 64);
    StepNSumOfFour(b0 as bv64, b1 as bv64, b2 as bv64, b3 as bv64, n + 64);
  }

  // ---------- The last word ----------

  /** The final instruction over the merged word: with lane CRCs `c0`, `c1`, `c2`, it computes the
      three-lane sum for lanes of `len` bytes followed by the eight bytes of `last`. */
  lemma FinalWord(t1: Table, t2: Table, len: nat, c0: bv64, c1: bv64, c2: bv64, last: seq<bv8>)
    requires Multiplies(t1, 8 * len) && Multiplies(t2, 8 * (2 * len)) && Small(c0) && Small(c1) && |last| == 8
    ensures CrcU64(c2, Xor(Xor(LoadWord(last), MergeWord(t1, c1)), MergeWord(t2, c0)))
         == Xor(Xor(Crc(c2, last), StepN(c1, 8 * (len + 8))), StepN(c0, 8 * (2 * len + 8)))
  {
    hide StepN, Xor, Small, Multiplies, CrcU64, Crc, MergeWord, LoadWord;
    var w, m1, m0 := LoadWord(last), MergeWord(t1, c1), MergeWord(t2, c0);
    InstructionIsProduct(c2, Xor(Xor(w, m1), m0));
    XorAssoc(c2, Xor(w, m1), m0);
    XorAssoc(c2, w, m1);
    StepNLinear(Xor(Xor(c2, w), m1), m0, 64);
    StepNLinear(Xor(c2, w), m1, 64);
    InstructionIsProduct(c2, w);
    InstructionIsSerial(c2, last);
    MergeAdvances(t1, 8 * len, c1);
    MergeAdvances(t2, 8 * (2 * len), c0);
  }

  /** Interleaving is right for every lane length: head and lane 0, lanes 1 and 2, last word. */
  lemma LanesMerge(t1: Table, t2: Table, len: nat, c: bv64, l0: seq<bv8>, l1: seq<bv8>, l2: seq<bv8>, last: seq<bv8>)
    requires Multiplies(t1, 8 * len) && Multiplies(t2, 8 * (2 * len))
    requires Small(c) && |l1| == |l2| == len && |last| == 8
    ensures CrcU64(Crc(0, l2), Xor(Xor(LoadWord(last), MergeWord(t1, Crc(0, l1))), MergeWord(t2, Crc(c, l0))))
         == Crc(c, l0 + l1 + (l2 + last))
  {
    ZeroSmall();
    hide StepN, Xor, Small, Multiplies, CrcU64, Crc, MergeWord, LoadWord;
    CrcSmall(0, l1);
    CrcSmall(c, l0);
    FinalWord(t1, t2, len, Crc(c, l0), Crc(0, l1), Crc(0, l2), last);
    CrcAppend(0, l2, last);
    ThreeLanes(c, l0, l1, l2 + last);
  }

  lemma ZeroSmall()
    ensures Small(0)
  {
  }

  lemma WordSmall(v: bv32)
    ensures Small(v as bv64)
  {
  }

  lemma SmallWord(s: bv64)
    requires Small(s)
    ensures ((s & 0xFFFF_FFFF) as bv32) as bv64 == s
  {
  }

  // ---------- The code ----------

  lemma CrcNothing(c: bv64, m: seq<bv8>)
    requires m == []
    ensures Crc(c, m) == c
  {
  }

  /** `p_buffer[k]`. */
  function WordAt(b: seq<bv8>, k: nat): bv64
    requires 8 * k + 8 <= |b|
  {
    LoadWord(b[8 * k..8 * k + 8])
  }

  lemma CrcExtend(c: bv64, b: seq<bv8>, from: nat, k: nat)
    requires from <= 8 * k && 8 * k + 8 <= |b|
    ensures Crc(c, b[from..8 * k + 8]) == CrcU64(Crc(c, b[from..8 * k]), WordAt(b, k))
  {
    hide CrcU64, Crc, LoadWord;
    assert b[from..8 * k + 8] == b[from..8 * k] + b[8 * k..8 * k + 8];
    CrcAppend(c, b[from..8 * k], b[8 * k..8 * k + 8]);
    InstructionIsSerial(Crc(c, b[from..8 * k]), b[8 * k..8 * k + 8]);
  }

  lemma FinalMerge(c: bv64, b: seq<bv8>, crc0: bv64, crc1: bv64, crc2: bv64)
    requires |b| == 1024 && Small(c)
    requires crc0 == Crc(c, b[0..344]) && crc1 == Crc(0, b[344..680]) && crc2 == Crc(0, b[680..1016])
    ensures CrcU64(crc2, Xor(Xor(WordAt(b, 127), MergeWord(Table336(), crc1)), MergeWord(Table672(), crc0)))
         == Crc(c, b)
  {
    hide Crc, CrcU64, LoadWord, MergeWord, Multiplies, Table336, Table672, Xor, Small;
    Table336Multiplies();
    Table672Multiplies();
    LanesMerge(Table336(), Table672(), 336, c, b[0..344], b[344..680], b[680..1016], b[1016..1024]);
    assert b[0..344] + b[344..680] + (b[680..1016] + b[1016..1024]) == b;
  }

  /** `crc_1024_c`: the CRC of the 1024 bytes at `q`, from any initial value. */
  method Crc1024C(buffer: array<bv8>, q: nat, initval: bv32) returns (crc: bv32)
    requires q + 1024 <= buffer.Length
    ensures crc as bv64 == Crc(initval as bv64, buffer[q..q + 1024])
  {
    hide Crc, CrcU64, WordAt, MergeWord, Table336, Table672, Xor, Small;
    ghost var c := initval as bv64;
    var b := buffer[q..q + 1024];
    CrcNothing(c, b[0..0]);
    CrcNothing(0, b[344..344]);
    CrcNothing(0, b[680..680]);
    CrcExtend(c, b, 0, 0);
    var crc1, crc2 := 0 as bv64, 0 as bv64;
    var crc0 := CrcU64(initval as bv64, WordAt(b, 0));
    for i := 0 to 42
      invariant crc0 == Crc(c, b[0..8 * (1 + i)])
      invariant crc1 == Crc(0, b[344..8 * (43 + i)])
      invariant crc2 == Crc(0, b[680..8 * (85 + i)])
    {
      CrcExtend(0, b, 344, 43 + i);
      CrcExtend(0, b, 680, 85 + i);
      CrcExtend(c, b, 0, 1 + i);
      crc1 := CrcU64(crc1, WordAt(b, 1 + 42 + i));
      crc2 := CrcU64(crc2, WordAt(b, 1 + 84 + i));
      crc0 := CrcU64(crc0, WordAt(b, 1 + i));
    }
    var tmp := WordAt(b, 127);
    tmp := Xor(tmp, MergeWord(Table336(), crc1));
    tmp := Xor(tmp, MergeWord(Table672(), crc0));
    var r := CrcU64(crc2, tmp);
    WordSmall(initval);
    FinalMerge(c, b, crc0, crc1, crc2);
    CrcSmall(c, b);
    SmallWord(r);
    crc := (r & 0xFFFF_FFFF) as bv32;
  }

  /** The segment loop of the hardware CRC program, for any number of segments: chaining the values
      over 1024-byte segments is the CRC of all of them. */
  method CrcSegments(data: array<bv8>, segments: nat) returns (crc: bv32)
    requires 1024 * segments <= data.Length
    ensures crc as bv64 == Crc(0, data[..1024 * segments])
  {
    hide Crc;
    var q := 0;
    crc := 0;
    CrcNothing(0, data[..0]);
    for i := 0 to segments
      invariant q == 1024 * i
      invariant crc as bv64 == Crc(0, data[..q])
    {
      crc := Crc1024C(data, q, crc);
      assert data[..q + 1024] == data[..q] + data[q..q + 1024];
      CrcAppend(0, data[..q], data[q..q + 1024]);
      q := q + 1024;
    }
  }
}
