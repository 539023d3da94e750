/** What the words of the Mersenne Twister are (src/lib/common/rand.cc): the mixing of keys as one recurrence, the
    bits that the steps of the generator move, and the first number that the default seed gives. */
module TwisterWords {
  import opened Bits
  import opened Gf2
  import opened MersenneTwister

  // ---------- The keys ----------

  /** The place of the `n`-th write of the mixing passes: from 1 to the end of the array, again and again. */
  function Place(n: nat): (p: nat)
    requires n > 0
    ensures 1 <= p < NN
  {
    1 + (n - 1) % 311
  }

  /** The `n`-th word that is written when a block `s` is mixed, `keyed` times with keys and then with places: it
      comes from the word written 311 times before it, which is the one it replaces, and the word just before it. */
  ghost function Word(s: seq<bv64>, key: seq<bv64>, keyed: nat, n: nat): bv64
    requires |s| == NN && 0 < |key| < 0x1_0000_0000_0000_0000
  {
    if n == 0 then s[0]
    else
      var replaced := if n < NN then s[n] else Word(s, key, keyed, n - 311);
      var j := Wrap(n - 1, |key|);
      if n <= keyed then KeyMix(replaced, Word(s, key, keyed, n - 1), key[j], j)
      else IndexMix(replaced, Word(s, key, keyed, n - 1), Place(n))
  }

  lemma PlaceNext(n: nat)
    requires n > 0
    ensures Place(n + 1) == Around(Place(n))
  {
    WrapNext(n - 1, 311);
  }

  lemma PlaceAgain(n: nat)
    requires n > 0
    ensures Place(n + 311) == Place(n)
  {
  }

  lemma PlacesDiffer(m: nat, n: nat)
    requires 0 < m < n < m + 311
    ensures Place(m) != Place(n)
  {
  }

  /** The first round goes through the places in order. */
  lemma PlaceFirst(n: nat)
    requires 0 < n < NN
    ensures Place(n) == n
  {
    SmallMod(n - 1, 311);
  }

  /** After `n` writes, the array holds the last word written at each place, and word 0 a copy when the end was
      reached with the last write. */
  ghost predicate Mixed(mt: seq<bv64>, s: seq<bv64>, key: seq<bv64>, keyed: nat, n: nat)
    requires |mt| == |s| == NN && 0 < |key| < 0x1_0000_0000_0000_0000
  {
    && (forall m: nat {:trigger Word(s, key, keyed, m)} ::
          0 < m <= n < m + 311 ==> mt[Place(m)] == Word(s, key, keyed, m))
    && (forall p :: n < p < NN ==> mt[p] == s[p])
    && (n == 0 || Place(n) == 311 ==> mt[0] == Word(s, key, keyed, n))
  }

  lemma MixedReads(mt: seq<bv64>, s: seq<bv64>, key: seq<bv64>, keyed: nat, n: nat)
    requires |mt| == |s| == NN && 0 < |key| < 0x1_0000_0000_0000_0000 && Mixed(mt, s, key, keyed, n)
    ensures mt[Place(n + 1) - 1] == Word(s, key, keyed, n)
    ensures mt[Place(n + 1)] == if n + 1 < NN then s[n + 1] else Word(s, key, keyed, n + 1 - 311)
  {
    hide Word, Place;
    if n > 0 {
      PlaceNext(n);
    } else {
      PlaceFirst(1);
    }
    if n + 1 < NN {
      PlaceFirst(n + 1);
    } else {
      PlaceAgain(n + 1 - 311);
    }
  }

  lemma MixedMore(mt: seq<bv64>, s: seq<bv64>, key: seq<bv64>, keyed: nat, n: nat)
    requires |mt| == |s| == NN && 0 < |key| < 0x1_0000_0000_0000_0000 && Mixed(mt, s, key, keyed, n)
    ensures Mixed(Written(mt, Place(n + 1), Word(s, key, keyed, n + 1)), s, key, keyed, n + 1)
  {
    hide Word, Place;
    var q, w := Place(n + 1), Word(s, key, keyed, n + 1);
    var next := Written(mt, q, w);
    forall m: nat | 0 < m <= n + 1 < m + 311
      ensures next[Place(m)] == Word(s, key, keyed, m)
    {
      if m <= n {
        PlacesDiffer(m, n + 1);
      }
    }
    if n + 1 < NN {
      PlaceFirst(n + 1);
    }
  }

  /** Both passes write the words of the recurrence. */
  lemma {:induction false} KeyPassWords(mt: seq<bv64>, s: seq<bv64>, key: seq<bv64>, keyed: nat, n: nat)
    requires |mt| == |s| == NN && 0 < |key| < 0x1_0000_0000_0000_0000
    requires n <= keyed && Mixed(mt, s, key, keyed, n)
    ensures var r := KeyPass(mt, Place(n + 1), key, Wrap(n, |key|), keyed - n);
            Mixed(r.0, s, key, keyed, keyed) && r.1 == Place(keyed + 1)
    decreases keyed - n
  {
    hide Mixed, Place, Wrap, KeyMix, KeyPass, Written, Around;
    var i, j := Place(n + 1), Wrap(n, |key|);
    if n < keyed {
      MixedReads(mt, s, key, keyed, n);
      MixedMore(mt, s, key, keyed, n);
      PlaceNext(n + 1);
      WrapNext(n, |key|);
      KeyPassStep(mt, i, key, j, keyed - n);
      KeyPassWords(Written(mt, i, Word(s, key, keyed, n + 1)), s, key, keyed, n + 1);
    } else {
      KeyPassDone(mt, i, key, j);
    }
  }

  lemma {:induction false} IndexPassWords(mt: seq<bv64>, s: seq<bv64>, key: seq<bv64>, keyed: nat, n: nat, k: nat)
    requires |mt| == |s| == NN && 0 < |key| < 0x1_0000_0000_0000_0000
    requires n >= keyed && Mixed(mt, s, key, keyed, n)
    ensures Mixed(IndexPass(mt, Place(n + 1), k), s, key, keyed, n + k)
    decreases k
  {
    hide Mixed, Place, IndexMix, IndexPass, Written, Around;
    var i := Place(n + 1);
    if k > 0 {
      MixedReads(mt, s, key, keyed, n);
      MixedMore(mt, s, key, keyed, n);
      PlaceNext(n + 1);
      IndexPassStep(mt, i, k);
      IndexPassWords(Written(mt, i, Word(s, key, keyed, n + 1)), s, key, keyed, n + 1, k - 1);
    } else {
      IndexPassDone(mt, i);
    }
  }

  /** The block that keys seed: at every place but 0 the last word that one recurrence writes there, over the block of
      seed 19650218, mixed with the keys as many times as there are keys and 312 at least, and then 311 times with the
      places; at place 0 the top bit alone. */
  lemma KeyBlockWords(key: seq<bv64>)
    requires 0 < |key| < 0x1_0000_0000_0000_0000
    ensures |KeyBlock(key)| == 312 && KeyBlock(key)[0] == 0x8000_0000_0000_0000
    ensures var keyed := if |key| < 312 then 312 else |key|;
            forall m: nat :: keyed < m <= keyed + 311 ==>
              KeyBlock(key)[Place(m)] == Word(SeedBlock(19650218), key, keyed, m)
  {
    hide Word, Place, Wrap, KeyPass, IndexPass, SeedBlock;
    var s, keyed := SeedBlock(19650218), if |key| < 312 then 312 else |key|;
    assert |s| == NN by { SeedLength(19650218); }
    MixedStart(s, key, keyed);
    PlaceFirst(1);
    WrapSmall(0, |key|);
    KeyPassWords(s, s, key, keyed, 0);
    var r := KeyPass(s, 1, key, 0, keyed);
    IndexPassWords(r.0, s, key, keyed, keyed, 311);
  }

  lemma SeedLength(seed: bv64)
    ensures |SeedBlock(seed)| == NN
  {
  }

  lemma MixedStart(s: seq<bv64>, key: seq<bv64>, keyed: nat)
    requires |s| == NN && 0 < |key| < 0x1_0000_0000_0000_0000
    ensures Mixed(s, s, key, keyed, 0)
  {
  }

  // ---------- The bits of a step ----------

  /** The mixed word has the upper 33 bits of one word and the lower 31 of the other. */
  lemma MixBits(u: bv64, l: bv64)
    ensures Mix(u, l) >> 31 == u >> 31 && Mix(u, l) << 33 == l << 33
  {
  }

  /** The twist halves an even word, and adds a constant for the bit that an odd one loses. */
  lemma TwistBits(x: bv64)
    requires x < 0x8000_0000_0000_0000
    ensures Twist(x << 1) == x && Twist((x << 1) | 1) == x ^ 0xB502_6F5A_A966_19E9
  {
  }

  /** Values of the steps that mix seeds, keys and places. */
  lemma MixingValues()
    ensures SeedNext(0x0000_0000_0000_1571, 1) == 0xB534_7F47_116B_D3DE
    ensures SeedNext(0xFFFF_FFFF_FFFF_FFFF, 311) == 0x9EB8_2F4A_CDAA_0483
    ensures SeedNext(0x4000_0000_0000_0001, 2) == 0x4000_0000_0000_0002
    ensures KeyMix(0x0000_0000_0000_1571, 0x0000_0000_0000_0001, 0x0000_0000_0000_0007, 0) == 0x369D_EA0F_31A5_2AFB
    ensures KeyMix(0x0123_4567_89AB_CDEF, 0xFEDC_BA98_7654_3210, 0x0000_0000_0001_2345, 3) == 0xC8FD_602C_92E5_A078
    ensures KeyMix(0x0000_0000_0000_0000, 0xC000_0000_0000_0000, 0x0000_0000_0000_0000, 1) == 0x63D9_BE2D_94EF_BE90
    ensures IndexMix(0x0000_0000_0000_1571, 0x0000_0000_0000_0001, 1) == 0x27BB_2EE6_87B0_A58B
    ensures IndexMix(0x0123_4567_89AB_CDEF, 0xFEDC_BA98_7654_3210, 311) == 0x3809_2404_CC19_3FF1
    ensures IndexMix(0x0000_0000_0000_0000, 0xC000_0000_0000_0000, 2) == 0x3731_8CB3_9712_12F5
  {
  }

  // ---------- Tempering, bit by bit ----------

  lemma FoldLinear(f: bv64 -> bv64, a: bv64, b: bv64)
    requires LinearShift(f)
    ensures Fold(f, Xor(a, b)) == Xor(Fold(f, a), Fold(f, b))
  {
    hide Xor, LinearShift;
    LinearAt(f, a, b);
    XorRegroup(a, b, f(a), f(b));
  }

  /** Tempering is linear over GF(2); with the values at the words of one bit, this says what it is. */
  lemma TemperLinear(a: bv64, b: bv64)
    ensures Temper(Xor(a, b)) == Xor(Temper(a), Temper(b))
  {
    hide Xor, Fold, LinearShift;
    Temper1Shift();
    Temper2Shift();
    Temper3Shift();
    Temper4Shift();
    FoldLinear(Temper1, a, b);
    var c, d := Fold(Temper1, a), Fold(Temper1, b);
    FoldLinear(Temper2, c, d);
    var e, f := Fold(Temper2, c), Fold(Temper2, d);
    FoldLinear(Temper3, e, f);
    FoldLinear(Temper4, Fold(Temper3, e), Fold(Temper3, f));
  }

  /** The words of bits 0 to 7. */
  lemma TemperBits0()
    ensures Temper(0x0000_0000_0000_0001) == 0x0040_0020_0002_0801
    ensures Temper(0x0000_0000_0000_0002) == 0x0080_0040_0004_1002
    ensures Temper(0x0000_0000_0000_0004) == 0x0000_0080_0000_0004
    ensures Temper(0x0000_0000_0000_0008) == 0x0000_0000_0000_0008
    ensures Temper(0x0000_0000_0000_0010) == 0x0400_0200_0020_8010
    ensures Temper(0x0000_0000_0000_0020) == 0x0000_0400_0000_0020
    ensures Temper(0x0000_0000_0000_0040) == 0x1000_0800_0082_0041
    ensures Temper(0x0000_0000_0000_0080) == 0x2000_0000_0104_0080
  {
  }

  /** The words of bits 8 to 15. */
  lemma TemperBits8()
    ensures Temper(0x0000_0000_0000_0100) == 0x0000_2000_0000_0104
    ensures Temper(0x0000_0000_0000_0200) == 0x8000_4000_0410_0208
    ensures Temper(0x0000_0000_0000_0400) == 0x0000_8000_0800_0410
    ensures Temper(0x0000_0000_0000_0800) == 0x0001_0000_0000_0820
    ensures Temper(0x0000_0000_0000_1000) == 0x0002_0000_2000_1040
    ensures Temper(0x0000_0000_0000_2000) == 0x0004_0000_4000_2080
    ensures Temper(0x0000_0000_0000_4000) == 0x0000_0000_8000_4000
    ensures Temper(0x0000_0000_0000_8000) == 0x0010_0001_0000_8200
  {
  }

  /** The words of bits 16 to 23. */
  lemma TemperBits16()
    ensures Temper(0x0000_0000_0001_0000) == 0x0020_0002_0001_0400
    ensures Temper(0x0000_0000_0002_0000) == 0x0040_0004_0002_0800
    ensures Temper(0x0000_0000_0004_0000) == 0x0080_0008_0004_1000
    ensures Temper(0x0000_0000_0008_0000) == 0x0100_0010_0008_2000
    ensures Temper(0x0000_0000_0010_0000) == 0x0200_0020_0010_4000
    ensures Temper(0x0000_0000_0020_0000) == 0x0400_0040_0020_8000
    ensures Temper(0x0000_0000_0040_0000) == 0x0800_0080_0041_0000
    ensures Temper(0x0000_0000_0080_0000) == 0x1000_0100_0082_0000
  {
  }

  /** The words of bits 24 to 31. */
  lemma TemperBits24()
    ensures Temper(0x0000_0000_0100_0000) == 0x2000_0200_0104_0000
    ensures Temper(0x0000_0000_0200_0000) == 0x4000_0400_0208_0000
    ensures Temper(0x0000_0000_0400_0000) == 0x8000_0800_0410_0001
    ensures Temper(0x0000_0000_0800_0000) == 0x0000_1000_0800_0002
    ensures Temper(0x0000_0000_1000_0000) == 0x0000_2000_1000_0004
    ensures Temper(0x0000_0000_2000_0000) == 0x0040_4020_2002_0809
    ensures Temper(0x0000_0000_4000_0000) == 0x0000_0000_4000_0000
    ensures Temper(0x0000_0000_8000_0000) == 0x0000_0080_8000_0004
  {
  }

  /** The words of bits 32 to 39. */
  lemma TemperBits32()
    ensures Temper(0x0000_0001_0000_0000) == 0x0002_0001_0000_0040
    ensures Temper(0x0000_0002_0000_0000) == 0x0404_0202_0020_8090
    ensures Temper(0x0000_0004_0000_0000) == 0x0000_0004_0000_0000
    ensures Temper(0x0000_0008_0000_0000) == 0x1010_0808_0082_0241
    ensures Temper(0x0000_0010_0000_0000) == 0x0000_0010_0000_0000
    ensures Temper(0x0000_0020_0000_0000) == 0x0040_2020_0000_0904
    ensures Temper(0x0000_0040_0000_0000) == 0x0080_0040_0000_1000
    ensures Temper(0x0000_0080_0000_0000) == 0x0100_8080_0800_2410
  {
  }

  /** The words of bits 40 to 47. */
  lemma TemperBits40()
    ensures Temper(0x0000_0100_0000_0000) == 0x0000_0100_0000_0000
    ensures Temper(0x0000_0200_0000_0000) == 0x0002_0200_2000_1040
    ensures Temper(0x0000_0400_0000_0000) == 0x0000_0400_0000_0000
    ensures Temper(0x0000_0800_0000_0000) == 0x1000_0800_8002_4001
    ensures Temper(0x0000_1000_0000_0000) == 0x2000_1000_0004_0002
    ensures Temper(0x0000_2000_0000_0000) == 0x4020_2002_0009_0404
    ensures Temper(0x0000_4000_0000_0000) == 0x0000_4000_0000_0008
    ensures Temper(0x0000_8000_0000_0000) == 0x0080_8008_0004_1010
  {
  }

  /** The words of bits 48 to 55. */
  lemma TemperBits48()
    ensures Temper(0x0001_0000_0000_0000) == 0x0001_0000_0000_0020
    ensures Temper(0x0002_0000_0000_0000) == 0x0202_0020_0010_4040
    ensures Temper(0x0004_0000_0000_0000) == 0x0004_0000_0000_0080
    ensures Temper(0x0008_0000_0000_0000) == 0x0808_0080_0041_0100
    ensures Temper(0x0010_0000_0000_0000) == 0x0010_0000_0000_0200
    ensures Temper(0x0020_0000_0000_0000) == 0x2020_0200_0104_0400
    ensures Temper(0x0040_0000_0000_0000) == 0x0040_0000_0000_0800
    ensures Temper(0x0080_0000_0000_0000) == 0x8080_0800_0410_1001
  {
  }

  /** The words of bits 56 to 63. */
  lemma TemperBits56()
    ensures Temper(0x0100_0000_0000_0000) == 0x0100_0000_0000_2000
    ensures Temper(0x0200_0000_0000_0000) == 0x0200_2000_1000_4004
    ensures Temper(0x0400_0000_0000_0000) == 0x0400_0000_0000_8000
    ensures Temper(0x0800_0000_0000_0000) == 0x0800_0000_4001_0000
    ensures Temper(0x1000_0000_0000_0000) == 0x1000_0000_0002_0000
    ensures Temper(0x2000_0000_0000_0000) == 0x2002_0001_0004_0040
    ensures Temper(0x4000_0000_0000_0000) == 0x4000_0000_0008_0000
    ensures Temper(0x8000_0000_0000_0000) == 0x8000_0004_0010_0000
  {
  }

  // ---------- The first number of the default seed ----------

  lemma SeedWords0()
    ensures SeedWord(5489, 13) == 0xD26A_818B_A186_457D
  {
    hide SeedWord;
    SeedWords(5489);
    assert SeedWord(5489, 1) == 0xB534_7F47_116B_D3DE;
    assert SeedWord(5489, 2) == 0x9165_B576_2D1A_61AE;
    assert SeedWord(5489, 3) == 0xD139_B6BB_ED33_7F3F;
    assert SeedWord(5489, 4) == 0x37E7_4000_1C18_2190;
    assert SeedWord(5489, 5) == 0xE398_F847_31B4_5655;
    assert SeedWord(5489, 6) == 0x0973_92E1_FB95_D724;
    assert SeedWord(5489, 7) == 0x102F_F8F1_7705_AD5B;
    assert SeedWord(5489, 8) == 0xAFD3_B741_A6F6_9E07;
    assert SeedWord(5489, 9) == 0x3673_B7B3_26A7_41EA;
    assert SeedWord(5489, 10) == 0x967B_EFB7_9A4B_AC2C;
    assert SeedWord(5489, 11) == 0x8157_9A10_887E_1621;
    assert SeedWord(5489, 12) == 0xFA4F_68BA_D184_4133;
    assert SeedWord(5489, 13) == 0xD26A_818B_A186_457D;
  }

  lemma SeedWords13()
    requires SeedWord(5489, 13) == 0xD26A_818B_A186_457D
    ensures SeedWord(5489, 26) == 0xB355_84C7_3A6A_D254
  {
    hide SeedWord;
    SeedWords(5489);
    assert SeedWord(5489, 14) == 0x58EA_399A_DB69_B934;
    assert SeedWord(5489, 15) == 0x7BE6_1CE7_8C4F_D960;
    assert SeedWord(5489, 16) == 0x6520_FC5E_9855_551D;
    assert SeedWord(5489, 17) == 0xC641_EF0D_F584_D9FD;
    assert SeedWord(5489, 18) == 0xE8B0_B2F1_5955_53B8;
    assert SeedWord(5489, 19) == 0x2ACC_7722_4860_7CF2;
    assert SeedWord(5489, 20) == 0xE21A_56B9_27CC_049E;
    assert SeedWord(5489, 21) == 0x222B_4800_8087_B2AE;
    assert SeedWord(5489, 22) == 0xCFFD_4076_90C4_BAAC;
    assert SeedWord(5489, 23) == 0x185E_6D58_A70C_A1DA;
    assert SeedWord(5489, 24) == 0xA47F_692D_8D65_996A;
    assert SeedWord(5489, 25) == 0xD80B_A31C_6B7E_8F61;
    assert SeedWord(5489, 26) == 0xB355_84C7_3A6A_D254;
  }

  lemma SeedWords26()
    requires SeedWord(5489, 26) == 0xB355_84C7_3A6A_D254
    ensures SeedWord(5489, 39) == 0x9FF6_E624_D167_35B3
  {
    hide SeedWord;
    SeedWords(5489);
    assert SeedWord(5489, 27) == 0x92AA_D4BC_372D_A339;
    assert SeedWord(5489, 28) == 0x59C3_5BD9_DC56_F67B;
    assert SeedWord(5489, 29) == 0x5FEE_E4D6_8C91_D98F;
    assert SeedWord(5489, 30) == 0xA20C_5CE2_D836_B014;
    assert SeedWord(5489, 31) == 0x6EE0_DD1C_27C5_DDFD;
    assert SeedWord(5489, 32) == 0x8A81_EF0B_2A94_096C;
    assert SeedWord(5489, 33) == 0xA161_CA62_11B9_3A77;
    assert SeedWord(5489, 34) == 0x2A3A_52C2_C3A8_51B3;
    assert SeedWord(5489, 35) == 0x8CD8_FCFC_964D_299A;
    assert SeedWord(5489, 36) == 0x0395_59F1_08AA_B7DC;
    assert SeedWord(5489, 37) == 0xAA98_1E49_8A44_75D1;
    assert SeedWord(5489, 38) == 0x47B6_6D6F_7C4B_633D;
    assert SeedWord(5489, 39) == 0x9FF6_E624_D167_35B3;
  }

  lemma SeedWords39()
    requires SeedWord(5489, 39) == 0x9FF6_E624_D167_35B3
    ensures SeedWord(5489, 52) == 0xBF99_B825_822A_0877
  {
    hide SeedWord;
    SeedWords(5489);
    assert SeedWord(5489, 40) == 0x7F7D_617A_CECC_3F45;
    assert SeedWord(5489, 41) == 0x38FC_FDCA_AFDD_DB1D;
    assert SeedWord(5489, 42) == 0x1492_8B26_1D93_E743;
    assert SeedWord(5489, 43) == 0xFE60_00E4_10B8_E3F2;
    assert SeedWord(5489, 44) == 0xB208_B107_E0D9_A089;
    assert SeedWord(5489, 45) == 0x82F1_35B1_31CD_2D9C;
    assert SeedWord(5489, 46) == 0x987D_DA96_FFA8_66F4;
    assert SeedWord(5489, 47) == 0xE1EB_B232_70DC_236D;
    assert SeedWord(5489, 48) == 0x02F7_75D6_534B_CC86;
    assert SeedWord(5489, 49) == 0x2916_B163_10C7_6DBF;
    assert SeedWord(5489, 50) == 0x8BB8_A2F7_76AB_0BC5;
    assert SeedWord(5489, 51) == 0x7ED2_0066_A5BB_CB2E;
    assert SeedWord(5489, 52) == 0xBF99_B825_822A_0877;
  }

  lemma SeedWords52()
    requires SeedWord(5489, 52) == 0xBF99_B825_822A_0877
    ensures SeedWord(5489, 65) == 0x0118_2F4C_5433_04C7
  {
    hide SeedWord;
    SeedWords(5489);
    assert SeedWord(5489, 53) == 0x1751_37B5_63AE_87C6;
    assert SeedWord(5489, 54) == 0x8ED1_3207_E947_1804;
    assert SeedWord(5489, 55) == 0xC8BE_8AAF_09E8_3345;
    assert SeedWord(5489, 56) == 0xD6F2_A55B_8EFE_BD86;
    assert SeedWord(5489, 57) == 0x33EC_6BF1_4D35_4B9A;
    assert SeedWord(5489, 58) == 0x1AA0_8340_BB81_B04C;
    assert SeedWord(5489, 59) == 0x658C_3F94_787D_B197;
    assert SeedWord(5489, 60) == 0x3E32_761E_6D7F_A19A;
    assert SeedWord(5489, 61) == 0xB6DF_AB00_573C_CE4F;
    assert SeedWord(5489, 62) == 0xC4ED_B582_6ED9_76C7;
    assert SeedWord(5489, 63) == 0x9E18_6133_AE39_1CB3;
    assert SeedWord(5489, 64) == 0xC8B2_D463_344A_DA5D;
    assert SeedWord(5489, 65) == 0x0118_2F4C_5433_04C7;
  }

  lemma SeedWords65()
    requires SeedWord(5489, 65) == 0x0118_2F4C_5433_04C7
    ensures SeedWord(5489, 78) == 0x800B_954B_EFB3_D899
  {
    hide SeedWord;
    SeedWords(5489);
    assert SeedWord(5489, 66) == 0xB99F_D847_F829_903D;
    assert SeedWord(5489, 67) == 0xB5AD_E6D9_E688_9C56;
    assert SeedWord(5489, 68) == 0x53F2_F45B_3875_2708;
    assert SeedWord(5489, 69) == 0x9E6E_4966_6F32_53DA;
    assert SeedWord(5489, 70) == 0xFC88_FE52_7028_E53E;
    assert SeedWord(5489, 71) == 0x0B82_75B6_896A_8F00;
    assert SeedWord(5489, 72) == 0x6964_FFBB_3FAC_2348;
    assert SeedWord(5489, 73) == 0x957E_C9FF_CC40_6B1E;
    assert SeedWord(5489, 74) == 0x8149_ED81_83C1_B836;
    assert SeedWord(5489, 75) == 0x0B64_23B4_E9B3_2D6F;
    assert SeedWord(5489, 76) == 0x8FEA_0606_5DA4_0DCF;
    assert SeedWord(5489, 77) == 0x737C_3D30_BD00_2056;
    assert SeedWord(5489, 78) == 0x800B_954B_EFB3_D899;
  }

  lemma SeedWords78()
    requires SeedWord(5489, 78) == 0x800B_954B_EFB3_D899
    ensures SeedWord(5489, 91) == 0x6A57_D566_2813_764D
  {
    hide SeedWord;
    SeedWords(5489);
    assert SeedWord(5489, 79) == 0x0F91_A17D_7148_F88E;
    assert SeedWord(5489, 80) == 0x2304_4078_EFC8_2346;
    assert SeedWord(5489, 81) == 0xD241_3979_BF6B_ED9F;
    assert SeedWord(5489, 82) == 0x3C78_6924_CCA5_28BE;
    assert SeedWord(5489, 83) == 0x147B_229D_06D4_6BB9;
    assert SeedWord(5489, 84) == 0xCAC9_4920_3374_B6D9;
    assert SeedWord(5489, 85) == 0xB473_59B9_171C_4AA7;
    assert SeedWord(5489, 86) == 0x7AB3_D4A1_8709_FA57;
    assert SeedWord(5489, 87) == 0x82C4_0AA0_EBFF_AB75;
    assert SeedWord(5489, 88) == 0x877A_85FE_7244_2D43;
    assert SeedWord(5489, 89) == 0xDAB6_6FF4_8B44_33C6;
    assert SeedWord(5489, 90) == 0x4BF3_2AC4_EE54_D4FB;
    assert SeedWord(5489, 91) == 0x6A57_D566_2813_764D;
  }

  lemma SeedWords91()
    requires SeedWord(5489, 91) == 0x6A57_D566_2813_764D
    ensures SeedWord(5489, 104) == 0xC5CD_CA88_C7CC_7DEE
  {
    hide SeedWord;
    SeedWords(5489);
    assert SeedWord(5489, 92) == 0xF2E1_86A5_1D57_7FB8;
    assert SeedWord(5489, 93) == 0x368B_524C_6C96_393C;
    assert SeedWord(5489, 94) == 0x4BFA_6D46_BCB8_D3EA;
    assert SeedWord(5489, 95) == 0x5D42_3FDA_F965_D5AE;
    assert SeedWord(5489, 96) == 0x19C0_9AAF_AEC3_6123;
    assert SeedWord(5489, 97) == 0xF8BB_8049_92E7_7088;
    assert SeedWord(5489, 98) == 0x0DF7_875C_686A_BDD1;
    assert SeedWord(5489, 99) == 0x7741_AB42_D593_0D20;
    assert SeedWord(5489, 100) == 0x429C_FBFC_EE91_AE31;
    assert SeedWord(5489, 101) == 0xBE76_3EC0_D6F5_6ED5;
    assert SeedWord(5489, 102) == 0x9AC9_1415_E244_2531;
    assert SeedWord(5489, 103) == 0x2CCA_75C4_5F1D_D75E;
    assert SeedWord(5489, 104) == 0xC5CD_CA88_C7CC_7DEE;
  }

  lemma SeedWords104()
    requires SeedWord(5489, 104) == 0xC5CD_CA88_C7CC_7DEE
    ensures SeedWord(5489, 117) == 0x46B1_D5A1_EF46_6A33
  {
    hide SeedWord;
    SeedWords(5489);
    assert SeedWord(5489, 105) == 0xB088_7B3A_385B_B612;
    assert SeedWord(5489, 106) == 0x2B73_D36F_1EC0_F13A;
    assert SeedWord(5489, 107) == 0xB73E_27E5_BE58_2D9D;
    assert SeedWord(5489, 108) == 0x113C_84A0_F5AC_E65F;
    assert SeedWord(5489, 109) == 0x8F13_86E5_3EF8_A020;
    assert SeedWord(5489, 110) == 0xCD90_74C2_B4EF_0468;
    assert SeedWord(5489, 111) == 0x5B70_2538_B77B_DC3E;
    assert SeedWord(5489, 112) == 0xDC4A_018B_97B3_F883;
    assert SeedWord(5489, 113) == 0x9B0B_EDD1_956A_2EF1;
    assert SeedWord(5489, 114) == 0xAAB8_206B_6863_CE29;
    assert SeedWord(5489, 115) == 0x999B_9885_9FD9_9302;
    assert SeedWord(5489, 116) == 0x9E99_9210_982B_D774;
    assert SeedWord(5489, 117) == 0x46B1_D5A1_EF46_6A33;
  }

  lemma SeedWords117()
    requires SeedWord(5489, 117) == 0x46B1_D5A1_EF46_6A33
    ensures SeedWord(5489, 130) == 0x5524_BF41_1492_3F24
  {
    hide SeedWord;
    SeedWords(5489);
    assert SeedWord(5489, 118) == 0x06F1_6177_A529_7940;
    assert SeedWord(5489, 119) == 0x248F_3E5A_2DB1_10B7;
    assert SeedWord(5489, 120) == 0x8B1F_37B4_EDED_B9A3;
    assert SeedWord(5489, 121) == 0x8FB8_B09C_9895_80C6;
    assert SeedWord(5489, 122) == 0x9A8C_5EEB_1F3C_DEEE;
    assert SeedWord(5489, 123) == 0x04BA_B3EB_7FA6_43F7;
    assert SeedWord(5489, 124) == 0x6832_7B16_CEB4_7BE7;
    assert SeedWord(5489, 125) == 0x652A_D6D0_440E_E1EB;
    assert SeedWord(5489, 126) == 0xF57F_DA3C_4DE2_CCA0;
    assert SeedWord(5489, 127) == 0x2472_45A5_B341_D626;
    assert SeedWord(5489, 128) == 0xE801_2FA1_17ED_7F2E;
    assert SeedWord(5489, 129) == 0x31E6_F815_6807_AE6A;
    assert SeedWord(5489, 130) == 0x5524_BF41_1492_3F24;
  }

  lemma SeedWords130()
    requires SeedWord(5489, 130) == 0x5524_BF41_1492_3F24
    ensures SeedWord(5489, 143) == 0x6A9E_329B_1D3A_9515
  {
    hide SeedWord;
    SeedWords(5489);
    assert SeedWord(5489, 131) == 0x89EC_A903_E791_7504;
    assert SeedWord(5489, 132) == 0x9D78_E605_C21D_8C92;
    assert SeedWord(5489, 133) == 0x8213_008D_57BD_25D5;
    assert SeedWord(5489, 134) == 0x2845_027D_1C28_5051;
    assert SeedWord(5489, 135) == 0x88CF_2E81_BE13_4DC4;
    assert SeedWord(5489, 136) == 0xE59A_4A3B_0937_E656;
    assert SeedWord(5489, 137) == 0xA14C_CCCE_A590_A87A;
    assert SeedWord(5489, 138) == 0x8A7F_D0C3_8BD9_25A2;
    assert SeedWord(5489, 139) == 0xC505_AE6E_B4F5_FDAB;
    assert SeedWord(5489, 140) == 0x1EDA_A63E_5ADB_EF14;
    assert SeedWord(5489, 141) == 0x4808_6B89_2AE7_F311;
    assert SeedWord(5489, 142) == 0x2CE7_C25E_D4AA_AA5E;
    assert SeedWord(5489, 143) == 0x6A9E_329B_1D3A_9515;
  }

  lemma SeedWords143()
    requires SeedWord(5489, 143) == 0x6A9E_329B_1D3A_9515
    ensures SeedWord(5489, 156) == 0x245B_1C66_FA08_2BFF
  {
    hide SeedWord;
    SeedWords(5489);
    assert SeedWord(5489, 144) == 0xBE96_84A2_E7E5_2114;
    assert SeedWord(5489, 145) == 0xEAB0_E8BA_387E_BB6F;
    assert SeedWord(5489, 146) == 0xE7CB_AE25_F31D_868E;
    assert SeedWord(5489, 147) == 0x5581_BF31_8E01_9A5C;
    assert SeedWord(5489, 148) == 0xB07E_1844_35FD_45ED;
    assert SeedWord(5489, 149) == 0x20BA_CEF5_CB51_DC98;
    assert SeedWord(5489, 150) == 0xAAAA_9BEC_DE4B_2F4E;
    assert SeedWord(5489, 151) == 0x898B_5F13_76EA_04F3;
    assert SeedWord(5489, 152) == 0xCB65_A073_6BDB_6DF5;
    assert SeedWord(5489, 153) == 0x47E0_2E65_D94D_5ED7;
    assert SeedWord(5489, 154) == 0x99EA_C482_4F33_D638;
    assert SeedWord(5489, 155) == 0xA1C2_9D29_8B25_6ECD;
    assert SeedWord(5489, 156) == 0x245B_1C66_FA08_2BFF;
  }

  lemma FirstTwisted()
    ensures NextWord(0x245B_1C66_FA08_2BFF, 5489, SeedNext(5489, 1)) == 0x245B_1C66_F2BD_C210
  {
  }

  lemma FirstTempered()
    ensures Temper(0x245B_1C66_F2BD_C210) == 14514284786278117030
  {
  }

  /** Without a seed, the first number drawn. */
  lemma FirstNumber()
    ensures Temper(X(SeedBlock(5489), 312)) == 14514284786278117030
  {
    hide SeedWord, SeedNext, Temper, NextWord;
    SeedWords0();
    SeedWords13();
    SeedWords26();
    SeedWords39();
    SeedWords52();
    SeedWords65();
    SeedWords78();
    SeedWords91();
    SeedWords104();
    SeedWords117();
    SeedWords130();
    SeedWords143();
    SeedWords(5489);
    var s := SeedBlock(5489);
    NextIs(s, 0);
    FirstTwisted();
    FirstTempered();
  }
}
