/** Powers of x, the two multiplication tables of src/lib/common/crc32.cc, and the proof that each
    table is multiplication of a byte by the power of x that its lane needs. */
module CrcTables {
  import opened Gf2
  import opened Crc32c

  // ---------- Powers of x ----------

  const ONE: bv64 := 0x8000_0000

  /** x to the `n`, in the reflected representation. */
  function Power(n: nat): bv64 {
    StepN(ONE, n)
  }

  function Pick(bit: bool, k: bv64): bv64 { if bit then k else 0 }

  /** Horner evaluation at x: appends the low `i` bits of `v`, lowest first, as further
      coefficients to the polynomial `acc`, each scaled by `k`. */
  function Horner(acc: bv64, v: bv64, k: bv64, i: nat): bv64
    decreases i
  {
    if i == 0 then acc else Horner(Xor(Step(acc), Pick(Odd(v), k)), Half(v), k, i - 1)
  }

  function Product(v: bv64, k: bv64): bv64 {
    Horner(0, v, k, 32)
  }

  /** Shifting `n` times is multiplying by x to the `n`. */
  lemma {:induction false} HornerPower(acc: bv64, v: bv64, i: nat, n: nat)
    ensures StepN(Horner(acc, v, ONE, i), n) == Horner(StepN(acc, n), v, Power(n), i)
    decreases i
  {
    hide Xor, Step, Half, Odd;
    if i > 0 {
      var bit := Pick(Odd(v), ONE);
      HornerPower(Xor(Step(acc), bit), Half(v), i - 1, n);
      StepNLinear(Step(acc), bit, n);
      StepNAdd(acc, 1, n);
      StepNAdd(acc, n, 1);
      StepNZero(n);
    }
  }

  lemma ProductPower(v: bv64, n: nat)
    ensures StepN(Product(v, ONE), n) == Product(v, Power(n))
  {
    hide Horner, StepN;
    HornerPower(0, v, 32, n);
    StepNZero(n);
  }

  lemma Next(n: nat)
    ensures Power(n + 1) == Step(Power(n))
  {
    StepNAdd(ONE, n, 1);
  }

  function HornerOne(acc: bv64, v: bv64, k: bv64): bv64 {
    Xor(Step(acc), Pick(Odd(v), k))
  }

  function HornerEight(acc: bv64, v: bv64, k: bv64): bv64 {
    var a1 := HornerOne(acc, v, k);
    var v1 := Half(v);
    var a2 := HornerOne(a1, v1, k);
    var v2 := Half(v1);
    var a3 := HornerOne(a2, v2, k);
    var v3 := Half(v2);
    var a4 := HornerOne(a3, v3, k);
    var v4 := Half(v3);
    var a5 := HornerOne(a4, v4, k);
    var v5 := Half(v4);
    var a6 := HornerOne(a5, v5, k);
    var v6 := Half(v5);
    var a7 := HornerOne(a6, v6, k);
    HornerOne(a7, Half(v6), k)
  }

  lemma {:induction false} HornerSplit(acc: bv64, v: bv64, k: bv64, m: nat, i: nat)
    ensures Horner(acc, v, k, m + i) == Horner(Horner(acc, v, k, m), Unfed(v, m), k, i)
    decreases m
  {
    hide Xor, Step, Odd, Half, Pick;
    if m > 0 {
      HornerSplit(Xor(Step(acc), Pick(Odd(v), k)), Half(v), k, m - 1, i);
    }
  }

  lemma HornerByByte(acc: bv64, v: bv64, k: bv64, i: nat)
    ensures Horner(acc, v, k, 8 + i) == Horner(HornerEight(acc, v, k), Shr8(v), k, i)
  {
    hide Xor, Step, Odd, Half, Pick;
    HornerSplit(acc, v, k, 8, i);
    assert Horner(acc, v, k, 8) == HornerEight(acc, v, k);
    Unfed8(v);
  }

  lemma HornerNone(acc: bv64, v: bv64, k: bv64)
    ensures Horner(acc, v, k, 0) == acc
  {
  }

  lemma SumOfThree(a: bv64, b: bv64, c: bv64)
    ensures Xor(Xor(a, b), c) == (a ^ b) ^ c
  {
    calc {
      Xor(Xor(a, b), c);
      Xor(a ^ b, c);
      (a ^ b) ^ c;
    }
  }

  /** One step in shifts and sums, as a computation on given numbers. */
  predicate Stepped(acc: bv64, v: bv64, k: bv64, r: bv64) {
    && (acc & 1 == 1 && v & 1 == 1 ==> r == ((acc >> 1) ^ 0x82F63B78) ^ k)
    && (acc & 1 == 1 && v & 1 != 1 ==> r == ((acc >> 1) ^ 0x82F63B78) ^ 0)
    && (acc & 1 != 1 && v & 1 == 1 ==> r == ((acc >> 1) ^ 0) ^ k)
    && (acc & 1 != 1 && v & 1 != 1 ==> r == ((acc >> 1) ^ 0) ^ 0)
  }

  lemma StepBoth(acc: bv64, v: bv64, k: bv64)
    requires acc & 1 == 1 && v & 1 == 1
    ensures Stepped(acc, v, k, HornerOne(acc, v, k))
  {
    hide Xor, Step, HornerOne;
    StepParts(acc, v, k, acc >> 1, 0x82F63B78, k);
  }

  lemma StepRegister(acc: bv64, v: bv64, k: bv64)
    requires acc & 1 == 1 && v & 1 != 1
    ensures Stepped(acc, v, k, HornerOne(acc, v, k))
  {
    hide Xor, Step, HornerOne;
    StepParts(acc, v, k, acc >> 1, 0x82F63B78, 0);
  }

  lemma StepCoefficient(acc: bv64, v: bv64, k: bv64)
    requires acc & 1 != 1 && v & 1 == 1
    ensures Stepped(acc, v, k, HornerOne(acc, v, k))
  {
    hide Xor, Step, HornerOne;
    StepParts(acc, v, k, acc >> 1, 0, k);
  }

  lemma StepNeither(acc: bv64, v: bv64, k: bv64)
    requires acc & 1 != 1 && v & 1 != 1
    ensures Stepped(acc, v, k, HornerOne(acc, v, k))
  {
    hide Xor, Step, HornerOne;
    StepParts(acc, v, k, acc >> 1, 0, 0);
  }

  lemma OneStep(acc: bv64, v: bv64, k: bv64)
    ensures Stepped(acc, v, k, HornerOne(acc, v, k))
  {
    hide HornerOne, Stepped;
    if acc & 1 == 1 {
      if v & 1 == 1 {
        StepBoth(acc, v, k);
      } else {
        StepRegister(acc, v, k);
      }
    } else {
      if v & 1 == 1 {
        StepCoefficient(acc, v, k);
      } else {
        StepNeither(acc, v, k);
      }
    }
  }

  lemma SteppedOnce(acc: bv64, v: bv64, k: bv64, r: bv64, r': bv64)
    requires Stepped(acc, v, k, r) && Stepped(acc, v, k, r')
    ensures r == r'
  {
  }

  lemma StepParts(acc: bv64, v: bv64, k: bv64, a: bv64, b: bv64, c: bv64)
    requires a == Half(acc) && b == Feedback(Odd(acc)) && c == Pick(Odd(v), k)
    ensures HornerOne(acc, v, k) == (a ^ b) ^ c
  {
    hide Xor, Half, Feedback, Odd, Pick;
    SumOfThree(a, b, c);
  }

  lemma Halves(v: bv64)
    ensures Half(v) == v >> 1 && Half(v >> 1) == v >> 2 && Half(v >> 2) == v >> 3 && Half(v >> 3) == v >> 4
    ensures Half(v >> 4) == v >> 5 && Half(v >> 5) == v >> 6 && Half(v >> 6) == v >> 7
  {
  }

  /** Eight steps on given numbers, each with its result. */
  lemma EightSteps(acc: bv64, v: bv64, k: bv64, a1: bv64, a2: bv64, a3: bv64, a4: bv64, a5: bv64, a6: bv64, a7: bv64,
                   a8: bv64)
    requires Stepped(acc, v, k, a1) && Stepped(a1, v >> 1, k, a2)
    requires Stepped(a2, v >> 2, k, a3) && Stepped(a3, v >> 3, k, a4)
    requires Stepped(a4, v >> 4, k, a5) && Stepped(a5, v >> 5, k, a6)
    requires Stepped(a6, v >> 6, k, a7) && Stepped(a7, v >> 7, k, a8)
    ensures HornerEight(acc, v, k) == a8
  {
    hide HornerOne, Half, Stepped;
    Halves(v);
    OneStep(acc, v, k);
    SteppedOnce(acc, v, k, HornerOne(acc, v, k), a1);
    OneStep(a1, v >> 1, k);
    SteppedOnce(a1, v >> 1, k, HornerOne(a1, v >> 1, k), a2);
    OneStep(a2, v >> 2, k);
    SteppedOnce(a2, v >> 2, k, HornerOne(a2, v >> 2, k), a3);
    OneStep(a3, v >> 3, k);
    SteppedOnce(a3, v >> 3, k, HornerOne(a3, v >> 3, k), a4);
    OneStep(a4, v >> 4, k);
    SteppedOnce(a4, v >> 4, k, HornerOne(a4, v >> 4, k), a5);
    OneStep(a5, v >> 5, k);
    SteppedOnce(a5, v >> 5, k, HornerOne(a5, v >> 5, k), a6);
    OneStep(a6, v >> 6, k);
    SteppedOnce(a6, v >> 6, k, HornerOne(a6, v >> 6, k), a7);
    OneStep(a7, v >> 7, k);
    SteppedOnce(a7, v >> 7, k, HornerOne(a7, v >> 7, k), a8);
  }

  lemma ProductInFour(v: bv64, k: bv64, a1: bv64, a2: bv64, a3: bv64, a4: bv64)
    requires HornerEight(0, v, k) == a1
    requires HornerEight(a1, Shr8(v), k) == a2
    requires HornerEight(a2, Shr8(Shr8(v)), k) == a3
    requires HornerEight(a3, Shr8(Shr8(Shr8(v))), k) == a4
    ensures Product(v, k) == a4
  {
    hide Horner, HornerEight, Shr8;
    HornerNone(a4, Shr8(Shr8(Shr8(Shr8(v)))), k);
    HornerByByte(0, v, k, 24);
    HornerByByte(a1, Shr8(v), k, 16);
    HornerByByte(a2, Shr8(Shr8(v)), k, 8);
    HornerByByte(a3, Shr8(Shr8(Shr8(v))), k, 0);
  }

  lemma PushBit(acc: bv64, v: bv64)
    requires !Odd(acc) && Small(acc)
    ensures HornerOne(acc, v, ONE) == (acc >> 1) | ((v & 1) << 31)
  {
    StepEven(acc);
    TopBit(v);
    TopApart(acc >> 1, v & 1);
  }

  lemma TopBit(v: bv64)
    ensures Pick(Odd(v), ONE) == (v & 1) << 31
  {
  }

  lemma TopApart(a: bv64, b: bv64)
    requires a < 0x8000_0000 && b <= 1
    ensures a ^ (b << 31) == a | (b << 31)
  {
  }

  /** Eight coefficients enter at the top of a register whose low byte is empty. */
  lemma HornerUnit(acc: bv64, v: bv64)
    requires LowEmpty(acc)
    ensures HornerEight(acc, v, ONE) == Enter(acc, v)
  {
    var a1, v1 := HornerOne(acc, v, ONE), Half(v);
    PushBit(acc, v);
    var a2, v2 := HornerOne(a1, v1, ONE), Half(v1);
    PushBit(a1, v1);
    var a3, v3 := HornerOne(a2, v2, ONE), Half(v2);
    PushBit(a2, v2);
    var a4, v4 := HornerOne(a3, v3, ONE), Half(v3);
    PushBit(a3, v3);
    var a5, v5 := HornerOne(a4, v4, ONE), Half(v4);
    PushBit(a4, v4);
    var a6, v6 := HornerOne(a5, v5, ONE), Half(v5);
    PushBit(a5, v5);
    var a7, v7 := HornerOne(a6, v6, ONE), Half(v6);
    PushBit(a6, v6);
    PushBit(a7, v7);
    hide HornerOne;
  }

  function Enter(acc: bv64, v: bv64): bv64 {
    (acc >> 8) | ((v & 0xFF) << 24)
  }

  predicate LowEmpty(acc: bv64) {
    acc & 0xFFFF_FFFF_0000_00FF == 0
  }

  lemma EnterBytes(v: bv64)
    requires Small(v)
    ensures LowEmpty(0)
    ensures LowEmpty(Enter(0, v))
    ensures LowEmpty(Enter(Enter(0, v), Shr8(v)))
    ensures LowEmpty(Enter(Enter(Enter(0, v), Shr8(v)), Shr8(Shr8(v))))
    ensures Enter(Enter(Enter(Enter(0, v), Shr8(v)), Shr8(Shr8(v))), Shr8(Shr8(Shr8(v)))) == v
  {
  }

  lemma ProductUnit(v: bv64)
    requires Small(v)
    ensures Product(v, ONE) == v
  {
    hide HornerEight, Horner, Shr8, Small, Enter, LowEmpty;
    var a1 := Enter(0, v);
    var a2 := Enter(a1, Shr8(v));
    var a3 := Enter(a2, Shr8(Shr8(v)));
    EnterBytes(v);
    HornerUnit(0, v);
    HornerUnit(a1, Shr8(v));
    HornerUnit(a2, Shr8(Shr8(v)));
    HornerUnit(a3, Shr8(Shr8(Shr8(v))));
    ProductInFour(v, ONE, a1, a2, a3, v);
  }

  /** Squaring a power of x doubles its exponent. */
  lemma Square(n: nat)
    ensures Power(2 * n) == Product(Power(n), Power(n))
  {
    hide Horner, StepN, Small, Product;
    OneSmall();
    StepNSmall(ONE, n);
    ProductUnit(Power(n));
    ProductPower(Power(n), n);
    StepNAdd(ONE, n, n);
  }

  lemma OneSmall()
    ensures Small(ONE)
  {
  }

  lemma Squared21()
    ensures Product(0x00000400, 0x00000400) == 0x7f8be302
  {
    hide Product, HornerEight;
    EightSteps(0x00000000, 0x00000400, 0x00000400,
               0x00000000, 0x00000000, 0x00000000, 0x00000000, 0x00000000, 0x00000000, 0x00000000, 0x00000000);
    EightSteps(0x00000000, 0x00000004, 0x00000400,
               0x00000000, 0x00000000, 0x00000400, 0x00000200, 0x00000100, 0x00000080, 0x00000040, 0x00000020);
    EightSteps(0x00000020, 0x00000000, 0x00000400,
               0x00000010, 0x00000008, 0x00000004, 0x00000002, 0x00000001, 0x82f63b78, 0x417b1dbc, 0x20bd8ede);
    EightSteps(0x20bd8ede, 0x00000000, 0x00000400,
               0x105ec76f, 0x8ad958cf, 0xc79a971f, 0xe13b70f7, 0xf26b8303, 0xfbc3faf9, 0xff17c604, 0x7f8be302);
    ProductInFour(0x00000400, 0x00000400, 0x00000000, 0x00000020, 0x20bd8ede, 0x7f8be302);
  }

  lemma Squared42()
    ensures Product(0x7f8be302, 0x7f8be302) == 0x4e2dfd53
  {
    hide Product, HornerEight;
    EightSteps(0x00000000, 0x7f8be302, 0x7f8be302,
               0x00000000, 0x7f8be302, 0x3fc5f181, 0x9d14c3b8, 0x4e8a61dc, 0x274530ee, 0x13a29877, 0x8b277743);
    EightSteps(0x8b277743, 0x007f8be3, 0x7f8be302,
               0xb8ee63db, 0xa10ae997, 0xd2734fb3, 0xebcf9ca1, 0xf711f528, 0x04031996, 0x7d8a6fc9, 0xc3b8ef9e);
    EightSteps(0xc3b8ef9e, 0x00007f8b, 0x7f8be302,
               0x1e5794cd, 0xf256121c, 0x792b090e, 0x431e6785, 0xa37908ba, 0x51bc845d, 0xaa287956, 0x2a9fdfa9);
    EightSteps(0x2a9fdfa9, 0x0000007f, 0x7f8be302,
               0xe83237ae, 0x0b92f8d5, 0xf8b4a410, 0x03d1b10a, 0x7e633b87, 0xc24c45b9, 0x9c5bfaa6, 0x4e2dfd53);
    ProductInFour(0x7f8be302, 0x7f8be302, 0x8b277743, 0xc3b8ef9e, 0x2a9fdfa9, 0x4e2dfd53);
  }

  lemma Squared84()
    ensures Product(0x4e2dfd53, 0x4e2dfd53) == 0xad045557
  {
    hide Product, HornerEight;
    EightSteps(0x00000000, 0x4e2dfd53, 0x4e2dfd53,
               0x4e2dfd53, 0xebcd3882, 0x75e69c41, 0xb8057558, 0x122f47ff, 0x8be19887, 0x892b0a68, 0x44958534);
    EightSteps(0x44958534, 0x004e2dfd, 0x4e2dfd53,
               0x6c673fc9, 0xb4c5a49c, 0x144f2f1d, 0xc6fc51a5, 0xafa5eef9, 0x9b093157, 0x815f5e80, 0x0e825213);
    EightSteps(0x0e825213, 0x00004e2d, 0x4e2dfd53,
               0xcb9aef22, 0x65cd7791, 0xfe3d7de3, 0xb3c578da, 0x59e2bc6d, 0xe02a981d, 0xf2e37776, 0x7971bbbb);
    EightSteps(0x7971bbbb, 0x0000004e, 0x4e2dfd53,
               0xbe4ee6a5, 0x93fcb579, 0x85259c97, 0x8e490860, 0x47248430, 0x23924218, 0x5fe4dc5f, 0xad045557);
    ProductInFour(0x4e2dfd53, 0x4e2dfd53, 0x44958534, 0x0e825213, 0x7971bbbb, 0xad045557);
  }

  lemma Squared168()
    ensures Product(0xad045557, 0xad045557) == 0x21c7d010
  {
    hide Product, HornerEight;
    EightSteps(0x00000000, 0xad045557, 0xad045557,
               0xad045557, 0x79704484, 0x91bc7715, 0xca2800f2, 0xc810552e, 0x64082a97, 0x1df67b64, 0x0efb3db2);
    EightSteps(0x0efb3db2, 0x00ad0455, 0xad045557,
               0xaa79cb8e, 0x553ce5c7, 0x056c1ccc, 0x02b60e66, 0xac5f5264, 0x562fa932, 0x861381ce, 0x4309c0e7);
    EightSteps(0x4309c0e7, 0x0000ad04, 0xad045557,
               0xa372db0b, 0xd34f56fd, 0x4655c551, 0xa1dcd9d0, 0x50ee6ce8, 0x28773674, 0x143b9b3a, 0x0a1dcd9d);
    EightSteps(0x0a1dcd9d, 0x000000ad, 0xad045557,
               0x2afc88e1, 0x97887f08, 0xe6c06ad3, 0x5c925b46, 0x2e492da3, 0x38d6f8fe, 0x1c6b7c7f, 0x21c7d010);
    ProductInFour(0xad045557, 0xad045557, 0x0efb3db2, 0x4309c0e7, 0x0a1dcd9d, 0x21c7d010);
  }

  lemma Squared169()
    ensures Product(0xd47411d3, 0xd47411d3) == 0x0871f404
  {
    hide Product, HornerEight;
    EightSteps(0x00000000, 0xd47411d3, 0xd47411d3,
               0xd47411d3, 0x3cb82242, 0x1e5c1121, 0x8dd833e8, 0x92980827, 0xcbba3f6b, 0x335f351e, 0xcddb8b5c);
    EightSteps(0xcddb8b5c, 0x00d47411, 0xd47411d3,
               0xb299d47d, 0xdbbad146, 0x6ddd68a3, 0xb4188f29, 0x0c8e6d3f, 0x84b10de7, 0xc0aebd8b, 0xe2a165bd);
    EightSteps(0xe2a165bd, 0x0000d474, 0xd47411d3,
               0xf3a689a6, 0x79d344d3, 0x6a6b88c2, 0x3535c461, 0x4c18c89b, 0x708e4ee6, 0xec3336a0, 0x76199b50);
    EightSteps(0x76199b50, 0x000000d4, 0xd47411d3,
               0x3b0ccda8, 0x1d8666d4, 0xdab722b9, 0xefadaa24, 0xa3a2c4c1, 0xd3275918, 0xbde7bd5f, 0x0871f404);
    ProductInFour(0xd47411d3, 0xd47411d3, 0xcddb8b5c, 0xe2a165bd, 0x76199b50, 0x0871f404);
  }

  lemma Squared339()
    ensures Product(0x0438fa02, 0x0438fa02) == 0x591acdb9
  {
    hide Product, HornerEight;
    EightSteps(0x00000000, 0x0438fa02, 0x0438fa02,
               0x00000000, 0x0438fa02, 0x021c7d01, 0x83f805f8, 0x41fc02fc, 0x20fe017e, 0x107f00bf, 0x8ac9bb27);
    EightSteps(0x8ac9bb27, 0x000438fa, 0x0438fa02,
               0xc792e6eb, 0xe507b20f, 0xf075e27f, 0xfef43045, 0xf9b4d958, 0x78e296ae, 0x3849b155, 0x9aea19d0);
    EightSteps(0x9aea19d0, 0x00000438, 0x0438fa02,
               0x4d750ce8, 0x26ba8674, 0x135d433a, 0x0d965b9f, 0x8005ecb5, 0xc6cc3720, 0x63661b90, 0x31b30dc8);
    EightSteps(0x31b30dc8, 0x00000004, 0x0438fa02,
               0x18d986e4, 0x0c6cc372, 0x020e9bbb, 0x83f176a5, 0xc30e802a, 0x61874015, 0xb2359b72, 0x591acdb9);
    ProductInFour(0x0438fa02, 0x0438fa02, 0x8ac9bb27, 0x9aea19d0, 0x31b30dc8, 0x591acdb9);
  }

  lemma Squared678()
    ensures Product(0x591acdb9, 0x591acdb9) == 0x321a6f0e
  {
    hide Product, HornerEight;
    EightSteps(0x00000000, 0x591acdb9, 0x591acdb9,
               0x591acdb9, 0xae7b5da4, 0x573daed2, 0x72841ad0, 0x6058c0d1, 0xebc096a9, 0xf716702c, 0x2291f5af);
    EightSteps(0x2291f5af, 0x00591acd, 0x591acdb9,
               0xcaa40c16, 0x6552060b, 0xe945f5c4, 0x2db8375b, 0x942a20d5, 0xc8e32b12, 0x3d6b5830, 0x47af61a1);
    EightSteps(0x47af61a1, 0x0000591a, 0x591acdb9,
               0xa1218ba8, 0x098a086d, 0x86333f4e, 0x1a03521e, 0x541b64b6, 0x2a0db25b, 0x97f0e255, 0xc90e4a52);
    EightSteps(0xc90e4a52, 0x00000059, 0x591acdb9,
               0x3d9de890, 0x1ecef448, 0x0f677a24, 0x5ea970ab, 0xf4b84e94, 0x7a5c274a, 0x6434de1c, 0x321a6f0e);
    ProductInFour(0x591acdb9, 0x591acdb9, 0x2291f5af, 0x47af61a1, 0xc90e4a52, 0x321a6f0e);
  }

  lemma Squared1356()
    ensures Product(0x321a6f0e, 0x321a6f0e) == 0xedb48066
  {
    hide Product, HornerEight;
    EightSteps(0x00000000, 0x321a6f0e, 0x321a6f0e,
               0x00000000, 0x321a6f0e, 0x2b175889, 0xa567f832, 0x52b3fc19, 0xabafc574, 0x55d7e2ba, 0x2aebf15d);
    EightSteps(0x2aebf15d, 0x00321a6f, 0x321a6f0e,
               0xa599acd8, 0x60d6b962, 0x027133bf, 0xb1d4cda9, 0xda1c5dac, 0x5f1441d8, 0x1d904fe2, 0x0ec827f1);
    EightSteps(0x0ec827f1, 0x0000321a, 0x321a6f0e,
               0x85922880, 0x70d37b4e, 0x3869bda7, 0xacd88aa5, 0xe6801124, 0x73400892, 0x39a00449, 0x9e26395c);
    EightSteps(0x9e26395c, 0x00000032, 0x321a6f0e,
               0x4f131cae, 0x1593e159, 0x883fcbd4, 0x441fe5ea, 0x10159dfb, 0xb8e69a8b, 0xde85763d, 0xedb48066);
    ProductInFour(0x321a6f0e, 0x321a6f0e, 0x2aebf15d, 0x0ec827f1, 0x9e26395c, 0xedb48066);
  }

  lemma Squared337()
    ensures Product(0x10e3e808, 0x10e3e808) == 0x83f176a5
  {
    hide Product, HornerEight;
    EightSteps(0x00000000, 0x10e3e808, 0x10e3e808,
               0x00000000, 0x00000000, 0x00000000, 0x10e3e808, 0x0871f404, 0x0438fa02, 0x021c7d01, 0x83f805f8);
    EightSteps(0x83f805f8, 0x0010e3e8, 0x10e3e808,
               0x41fc02fc, 0x20fe017e, 0x107f00bf, 0x9a2a532f, 0xcfe312ef, 0xf5e45a07, 0xe8e7fe73, 0xe6662c49);
    EightSteps(0xe6662c49, 0x000010e3, 0x10e3e808,
               0xe126c554, 0x60708aa2, 0x30384551, 0x9aea19d0, 0x4d750ce8, 0x36596e7c, 0x0bcf5f36, 0x15044793);
    EightSteps(0x15044793, 0x00000010, 0x10e3e808,
               0x887418b1, 0xc6cc3720, 0x63661b90, 0x31b30dc8, 0x083a6eec, 0x041d3776, 0x020e9bbb, 0x83f176a5);
    ProductInFour(0x10e3e808, 0x10e3e808, 0x83f805f8, 0xe6662c49, 0x15044793, 0x83f176a5);
  }

  lemma Squared675()
    ensures Product(0xc30e802a, 0xc30e802a) == 0xbe49afcc
  {
    hide Product, HornerEight;
    EightSteps(0x00000000, 0xc30e802a, 0xc30e802a,
               0x00000000, 0xc30e802a, 0x61874015, 0x713b1b58, 0x389d8dac, 0xdf4046fc, 0x6fa0237e, 0x37d011bf);
    EightSteps(0x37d011bf, 0x00c30e80, 0xc30e802a,
               0x991e33a7, 0xce7922ab, 0xe5caaa2d, 0xf0136e6e, 0x7809b737, 0xbef2e0e3, 0xdd8f4b09, 0x2f3f1ed6);
    EightSteps(0x2f3f1ed6, 0x0000c30e, 0xc30e802a,
               0x179f8f6b, 0x4a377ce7, 0x64e30521, 0x738939c2, 0x39c49ce1, 0x9e147508, 0x4f0a3a84, 0x27851d42);
    EightSteps(0x27851d42, 0x000000c3, 0xc30e802a,
               0xd0cc0e8b, 0x299ebc17, 0x96396573, 0xc9ea89c1, 0xe6037f98, 0x7301bfcc, 0xfa8e5fcc, 0xbe49afcc);
    ProductInFour(0xc30e802a, 0xc30e802a, 0x37d011bf, 0x2f3f1ed6, 0x27851d42, 0xbe49afcc);
  }

  lemma Squared1350()
    ensures Product(0xbe49afcc, 0xbe49afcc) == 0x5378f87b
  {
    hide Product, HornerEight;
    EightSteps(0x00000000, 0xbe49afcc, 0xbe49afcc,
               0x00000000, 0x00000000, 0xbe49afcc, 0xe16d782a, 0x70b6bc15, 0xbaad6572, 0xe31f1d75, 0x4d301a0e);
    EightSteps(0x4d301a0e, 0x00be49af, 0xbe49afcc,
               0x98d1a2cb, 0x70d745d1, 0x04d4365c, 0xbc23b4e2, 0x5e11da71, 0x13b7798c, 0x09dbbcc6, 0xbaa471af);
    EightSteps(0xbaa471af, 0x0000be49, 0xbe49afcc,
               0x61edac63, 0xb200ed49, 0xdbf64ddc, 0xd3b28922, 0x69d94491, 0xb61a9930, 0xe544e354, 0x72a271aa);
    EightSteps(0x72a271aa, 0x000000be, 0xbe49afcc,
               0x395138d5, 0x201708de, 0xae422ba3, 0x6b9e8165, 0x0970d406, 0xbaf1c5cf, 0xdf8ed99f, 0x5378f87b);
    ProductInFour(0xbe49afcc, 0xbe49afcc, 0x4d301a0e, 0xbaa471af, 0x72a271aa, 0x5378f87b);
  }

  lemma Squared2700()
    ensures Product(0x5378f87b, 0x5378f87b) == 0x9d995363
  {
    hide Product, HornerEight;
    EightSteps(0x00000000, 0x5378f87b, 0x5378f87b,
               0x5378f87b, 0xf832bf3e, 0x7c195f9f, 0xef826ccc, 0x24b9ce1d, 0xc3d2240d, 0xb067d105, 0xdac5d3fa);
    EightSteps(0xdac5d3fa, 0x005378f8, 0x5378f87b,
               0x6d62e9fd, 0xb4474f86, 0x5a23a7c3, 0xfc9f10e2, 0x2d37700a, 0x45e3407e, 0x71895844, 0x6bbc5459);
    EightSteps(0x6bbc5459, 0x00005378, 0x5378f87b,
               0xb7281154, 0x5b9408aa, 0x2dca0455, 0xc76bc129, 0xb23b2397, 0x889352c8, 0x1731511f, 0x896e93f7);
    EightSteps(0x896e93f7, 0x00000053, 0x5378f87b,
               0x95398af8, 0x19e43d07, 0x8e0425fb, 0xc5f42985, 0xb374d7c1, 0xdb4c5098, 0x3eded037, 0x9d995363);
    ProductInFour(0x5378f87b, 0x5378f87b, 0xdac5d3fa, 0x6bbc5459, 0x896e93f7, 0x9d995363);
  }

  lemma Power21()
    ensures Power(21) == 0x400
  {
    hide StepN;
    StepShl8(0x80_0000);
    StepShl8(0x8000);
    StepNAdd(ONE, 8, 8);
    Next(16);
    Next(17);
    Next(18);
    Next(19);
    Next(20);
  }

  lemma Power168()
    ensures Power(168) == 0xad045557
  {
    hide StepN, Product;
    Power21();
    Square(21);
    Squared21();
    Square(42);
    Squared42();
    Square(84);
    Squared84();
  }

  lemma Power2712()
    ensures Power(8 * 339) == 0xedb48066
  {
    hide StepN, Product;
    Power168();
    Next(168);
    Square(169);
    Squared169();
    Next(338);
    Square(339);
    Squared339();
    Square(678);
    Squared678();
    Square(1356);
    Squared1356();
  }

  lemma Power5400()
    ensures Power(8 * 675) == 0x9d995363
  {
    hide StepN, Product;
    Power168();
    Square(168);
    Squared168();
    Next(336);
    Square(337);
    Squared337();
    Next(674);
    Square(675);
    Squared675();
    Square(1350);
    Squared1350();
    Square(2700);
    Squared2700();
  }

  // ---------- Tables ----------

  /** A 256-word table, sixteen words to a row. */
  type Table = t: seq<seq<bv64>> | |t| == 16 && forall h :: 0 <= h < 16 ==> |t[h]| == 16
    witness seq(16, h => seq(16, l => 0))

  function Entry(t: Table, b: bv8): bv64 {
    t[(b >> 4) as nat][(b & 15) as nat]
  }

  /** The table multiplies a byte by x to the `n`. */
  ghost predicate Multiplies(t: Table, n: nat) {
    forall b: bv8 :: Entry(t, b) == StepN(b as bv64, n)
  }

  /** The sum of the words that the bits of the nibble `i` select. */
  function NibbleSum(i: nat, a1: bv64, a2: bv64, a4: bv64, a8: bv64): bv64 {
    Xor(Xor(Pick(i % 2 == 1, a1), Pick(i / 2 % 2 == 1, a2)), Xor(Pick(i / 4 % 2 == 1, a4), Pick(i / 8 % 2 == 1, a8)))
  }

  /** The entry is the sum of the entries at its high and at its low nibble. */
  predicate LinearAt(t: Table, h: nat, l: nat)
    requires h < 16 && l < 16
  {
    && t[h][l] == Xor(t[h][0], t[0][l])
    && t[0][l] == NibbleSum(l, t[0][1], t[0][2], t[0][4], t[0][8])
    && t[h][0] == NibbleSum(h, t[1][0], t[2][0], t[4][0], t[8][0])
  }

  /** The table is linear in the byte, and halving the index multiplies the entry by x. */
  predicate Generated(t: Table) {
    && (forall h, l :: 0 <= h < 16 && 0 <= l < 16 ==> LinearAt(t, h, l))
    && t[4][0] == Step(t[8][0])
    && t[2][0] == Step(t[4][0])
    && t[1][0] == Step(t[2][0])
    && t[0][8] == Step(t[1][0])
    && t[0][4] == Step(t[0][8])
    && t[0][2] == Step(t[0][4])
    && t[0][1] == Step(t[0][2])
  }

  /** The sum of the words that the two bits of `i` select. */
  function PairSum(i: nat, a: bv64, b: bv64): bv64 {
    match i
    case 0 => 0
    case 1 => a
    case 2 => b
    case _ => Xor(a, b)
  }

  lemma PairBits(i: nat, a: bv64, b: bv64)
    requires i < 4
    ensures Xor(Pick(i % 2 == 1, a), Pick(i / 2 % 2 == 1, b)) == PairSum(i, a, b)
  {
    hide Xor;
    XorZero(a);
    XorZero(b);
    XorZero(0);
    if i == 0 {} else if i == 1 {} else if i == 2 {} else {}
  }

  lemma NibbleBits(i: nat, j: nat)
    requires i < 4 && j < 4
    ensures (4 * j + i) % 2 == i % 2 && (4 * j + i) / 2 % 2 == i / 2 % 2
    ensures (4 * j + i) / 4 % 2 == j % 2 && (4 * j + i) / 8 % 2 == j / 2 % 2
  {
    if j == 0 {} else if j == 1 {} else if j == 2 {} else {}
    if i == 0 {} else if i == 1 {} else if i == 2 {} else {}
  }

  lemma NibblePairs(i: nat, j: nat, a1: bv64, a2: bv64, a4: bv64, a8: bv64)
    requires i < 4 && j < 4
    ensures NibbleSum(4 * j + i, a1, a2, a4, a8) == Xor(PairSum(i, a1, a2), PairSum(j, a4, a8))
  {
    hide Xor, Pick, PairSum;
    NibbleBits(i, j);
    PairBits(i, a1, a2);
    PairBits(j, a4, a8);
  }

  lemma StepNPick(bit: bool, a: bv64, n: nat)
    ensures StepN(Pick(bit, a), n) == Pick(bit, StepN(a, n))
  {
    StepNZero(n);
    hide StepN;
  }

  lemma StepNNibble(i: nat, a1: bv64, a2: bv64, a4: bv64, a8: bv64, n: nat)
    ensures StepN(NibbleSum(i, a1, a2, a4, a8), n)
         == NibbleSum(i, StepN(a1, n), StepN(a2, n), StepN(a4, n), StepN(a8, n))
  {
    hide Xor, StepN, Pick;
    var p1, p2 := Pick(i % 2 == 1, a1), Pick(i / 2 % 2 == 1, a2);
    var p4, p8 := Pick(i / 4 % 2 == 1, a4), Pick(i / 8 % 2 == 1, a8);
    StepNLinear(Xor(p1, p2), Xor(p4, p8), n);
    StepNLinear(p1, p2, n);
    StepNLinear(p4, p8, n);
    StepNPick(i % 2 == 1, a1, n);
    StepNPick(i / 2 % 2 == 1, a2, n);
    StepNPick(i / 4 % 2 == 1, a4, n);
    StepNPick(i / 8 % 2 == 1, a8, n);
  }

  lemma NibbleValue(y: bv8)
    requires y < 16
    ensures NibbleSum(y as nat, 1, 2, 4, 8) == y as bv64
    ensures NibbleSum(y as nat, 0x10, 0x20, 0x40, 0x80) == (y as bv64) << 4
  {
    assert (y as nat) as bv8 == y;
    if y == 0 {} else if y == 1 {} else if y == 2 {} else if y == 3 {}
    else if y == 4 {} else if y == 5 {} else if y == 6 {} else if y == 7 {}
    else if y == 8 {} else if y == 9 {} else if y == 10 {} else if y == 11 {}
    else if y == 12 {} else if y == 13 {} else if y == 14 {} else if y == 15 {}
  }

  lemma JoinNibbles(b: bv8, h: bv8, l: bv8)
    requires h == b >> 4 && l == b & 15
    ensures b as bv64 == ((h as bv64) << 4) ^ (l as bv64)
  {
  }

  lemma ByteNibbles(b: bv8)
    ensures b as bv64 == Xor(NibbleSum((b >> 4) as nat, 0x10, 0x20, 0x40, 0x80), NibbleSum((b & 15) as nat, 1, 2, 4, 8))
  {
    hide NibbleSum;
    NibbleValue(b >> 4);
    NibbleValue(b & 15);
    JoinNibbles(b, b >> 4, b & 15);
  }

  lemma StepNNext(s: bv64, n: nat)
    ensures StepN(Step(s), n) == Step(StepN(s, n))
  {
    hide Step;
    StepNAdd(s, 1, n);
    StepNAdd(s, n, 1);
  }

  lemma ByteHalves()
    ensures Step(0x80) == 0x40 && Step(0x40) == 0x20 && Step(0x20) == 0x10 && Step(0x10) == 0x08
    ensures Step(0x08) == 0x04 && Step(0x04) == 0x02 && Step(0x02) == 0x01
  {
  }

  /** The eight one-bit entries follow from the entry at 0x80. */
  lemma GeneratedBasis(t: Table, n: nat)
    requires Generated(t) && StepN(0x80, n) == t[8][0]
    ensures t[8][0] == StepN(0x80, n) && t[4][0] == StepN(0x40, n)
    ensures t[2][0] == StepN(0x20, n) && t[1][0] == StepN(0x10, n)
    ensures t[0][8] == StepN(0x08, n) && t[0][4] == StepN(0x04, n)
    ensures t[0][2] == StepN(0x02, n) && t[0][1] == StepN(0x01, n)
  {
    hide StepN, Step, LinearAt;
    ByteHalves();
    StepNNext(0x80, n);
    StepNNext(0x40, n);
    StepNNext(0x20, n);
    StepNNext(0x10, n);
    StepNNext(0x08, n);
    StepNNext(0x04, n);
    StepNNext(0x02, n);
  }

  lemma StepNByte(b: bv8, n: nat)
    ensures StepN(b as bv64, n)
         == Xor(NibbleSum((b >> 4) as nat, StepN(0x10, n), StepN(0x20, n), StepN(0x40, n), StepN(0x80, n)),
                NibbleSum((b & 15) as nat, StepN(1, n), StepN(2, n), StepN(4, n), StepN(8, n)))
  {
    hide StepN, Xor, NibbleSum;
    var h, l := (b >> 4) as nat, (b & 15) as nat;
    ByteNibbles(b);
    StepNLinear(NibbleSum(h, 0x10, 0x20, 0x40, 0x80), NibbleSum(l, 1, 2, 4, 8), n);
    StepNNibble(h, 0x10, 0x20, 0x40, 0x80, n);
    StepNNibble(l, 1, 2, 4, 8, n);
  }

  lemma GeneratedEntry(t: Table, n: nat, b: bv8)
    requires Generated(t) && StepN(0x80, n) == t[8][0]
    ensures Entry(t, b) == StepN(b as bv64, n)
  {
    hide StepN, Step, Xor, NibbleSum;
    GeneratedBasis(t, n);
    assert LinearAt(t, (b >> 4) as nat, (b & 15) as nat);
    StepNByte(b, n);
  }

  /** A generated table is multiplication by a power of x as soon as one of its entries is. */
  lemma GeneratedMultiplies(t: Table, n: nat)
    requires Generated(t) && StepN(0x80, n) == t[8][0]
    ensures Multiplies(t, n)
  {
    hide StepN, Generated, Entry;
    forall b: bv8
      ensures Entry(t, b) == StepN(b as bv64, n)
    {
      GeneratedEntry(t, n, b);
    }
  }

  /** `mul_table1_336[16 * h + l]`. */
  function Word336(h: int, l: int): bv64 {
    match h
    case 0 => (
      match l
      case 0 => 0x00000000 case 1 => 0x8f158014 case 2 => 0x1bc776d9 case 3 => 0x94d2f6cd
      case 4 => 0x378eedb2 case 5 => 0xb89b6da6 case 6 => 0x2c499b6b case 7 => 0xa35c1b7f
      case 8 => 0x6f1ddb64 case 9 => 0xe0085b70 case 10 => 0x74daadbd case 11 => 0xfbcf2da9
      case 12 => 0x589336d6 case 13 => 0xd786b6c2 case 14 => 0x4354400f case _ => 0xcc41c01b
    )
    case 1 => (
      match l
      case 0 => 0xde3bb6c8 case 1 => 0x512e36dc case 2 => 0xc5fcc011 case 3 => 0x4ae94005
      case 4 => 0xe9b55b7a case 5 => 0x66a0db6e case 6 => 0xf2722da3 case 7 => 0x7d67adb7
      case 8 => 0xb1266dac case 9 => 0x3e33edb8 case 10 => 0xaae11b75 case 11 => 0x25f49b61
      case 12 => 0x86a8801e case 13 => 0x09bd000a case 14 => 0x9d6ff6c7 case _ => 0x127a76d3
    )
    case 2 => (
      match l
      case 0 => 0xb99b1b61 case 1 => 0x368e9b75 case 2 => 0xa25c6db8 case 3 => 0x2d49edac
      case 4 => 0x8e15f6d3 case 5 => 0x010076c7 case 6 => 0x95d2800a case 7 => 0x1ac7001e
      case 8 => 0xd686c005 case 9 => 0x59934011 case 10 => 0xcd41b6dc case 11 => 0x425436c8
      case 12 => 0xe1082db7 case 13 => 0x6e1dada3 case 14 => 0xfacf5b6e case _ => 0x75dadb7a
    )
    case 3 => (
      match l
      case 0 => 0x67a0ada9 case 1 => 0xe8b52dbd case 2 => 0x7c67db70 case 3 => 0xf3725b64
      case 4 => 0x502e401b case 5 => 0xdf3bc00f case 6 => 0x4be936c2 case 7 => 0xc4fcb6d6
      case 8 => 0x08bd76cd case 9 => 0x87a8f6d9 case 10 => 0x137a0014 case 11 => 0x9c6f8000
      case 12 => 0x3f339b7f case 13 => 0xb0261b6b case 14 => 0x24f4eda6 case _ => 0xabe16db2
    )
    case 4 => (
      match l
      case 0 => 0x76da4033 case 1 => 0xf9cfc027 case 2 => 0x6d1d36ea case 3 => 0xe208b6fe
      case 4 => 0x4154ad81 case 5 => 0xce412d95 case 6 => 0x5a93db58 case 7 => 0xd5865b4c
      case 8 => 0x19c79b57 case 9 => 0x96d21b43 case 10 => 0x0200ed8e case 11 => 0x8d156d9a
      case 12 => 0x2e4976e5 case 13 => 0xa15cf6f1 case 14 => 0x358e003c case _ => 0xba9b8028
    )
    case 5 => (
      match l
      case 0 => 0xa8e1f6fb case 1 => 0x27f476ef case 2 => 0xb3268022 case 3 => 0x3c330036
      case 4 => 0x9f6f1b49 case 5 => 0x107a9b5d case 6 => 0x84a86d90 case 7 => 0x0bbded84
      case 8 => 0xc7fc2d9f case 9 => 0x48e9ad8b case 10 => 0xdc3b5b46 case 11 => 0x532edb52
      case 12 => 0xf072c02d case 13 => 0x7f674039 case 14 => 0xebb5b6f4 case _ => 0x64a036e0
    )
    case 6 => (
      match l
      case 0 => 0xcf415b52 case 1 => 0x4054db46 case 2 => 0xd4862d8b case 3 => 0x5b93ad9f
      case 4 => 0xf8cfb6e0 case 5 => 0x77da36f4 case 6 => 0xe308c039 case 7 => 0x6c1d402d
      case 8 => 0xa05c8036 case 9 => 0x2f490022 case 10 => 0xbb9bf6ef case 11 => 0x348e76fb
      case 12 => 0x97d26d84 case 13 => 0x18c7ed90 case 14 => 0x8c151b5d case _ => 0x03009b49
    )
    case 7 => (
      match l
      case 0 => 0x117aed9a case 1 => 0x9e6f6d8e case 2 => 0x0abd9b43 case 3 => 0x85a81b57
      case 4 => 0x26f40028 case 5 => 0xa9e1803c case 6 => 0x3d3376f1 case 7 => 0xb226f6e5
      case 8 => 0x7e6736fe case 9 => 0xf172b6ea case 10 => 0x65a04027 case 11 => 0xeab5c033
      case 12 => 0x49e9db4c case 13 => 0xc6fc5b58 case 14 => 0x522ead95 case _ => 0xdd3b2d81
    )
    case 8 => (
      match l
      case 0 => 0xedb48066 case 1 => 0x62a10072 case 2 => 0xf673f6bf case 3 => 0x796676ab
      case 4 => 0xda3a6dd4 case 5 => 0x552fedc0 case 6 => 0xc1fd1b0d case 7 => 0x4ee89b19
      case 8 => 0x82a95b02 case 9 => 0x0dbcdb16 case 10 => 0x996e2ddb case 11 => 0x167badcf
      case 12 => 0xb527b6b0 case 13 => 0x3a3236a4 case 14 => 0xaee0c069 case _ => 0x21f5407d
    )
    case 9 => (
      match l
      case 0 => 0x338f36ae case 1 => 0xbc9ab6ba case 2 => 0x28484077 case 3 => 0xa75dc063
      case 4 => 0x0401db1c case 5 => 0x8b145b08 case 6 => 0x1fc6adc5 case 7 => 0x90d32dd1
      case 8 => 0x5c92edca case 9 => 0xd3876dde case 10 => 0x47559b13 case 11 => 0xc8401b07
      case 12 => 0x6b1c0078 case 13 => 0xe409806c case 14 => 0x70db76a1 case _ => 0xffcef6b5
    )
    case 10 => (
      match l
      case 0 => 0x542f9b07 case 1 => 0xdb3a1b13 case 2 => 0x4fe8edde case 3 => 0xc0fd6dca
      case 4 => 0x63a176b5 case 5 => 0xecb4f6a1 case 6 => 0x7866006c case 7 => 0xf7738078
      case 8 => 0x3b324063 case 9 => 0xb427c077 case 10 => 0x20f536ba case 11 => 0xafe0b6ae
      case 12 => 0x0cbcadd1 case 13 => 0x83a92dc5 case 14 => 0x177bdb08 case _ => 0x986e5b1c
    )
    case 11 => (
      match l
      case 0 => 0x8a142dcf case 1 => 0x0501addb case 2 => 0x91d35b16 case 3 => 0x1ec6db02
      case 4 => 0xbd9ac07d case 5 => 0x328f4069 case 6 => 0xa65db6a4 case 7 => 0x294836b0
      case 8 => 0xe509f6ab case 9 => 0x6a1c76bf case 10 => 0xfece8072 case 11 => 0x71db0066
      case 12 => 0xd2871b19 case 13 => 0x5d929b0d case 14 => 0xc9406dc0 case _ => 0x4655edd4
    )
    case 12 => (
      match l
      case 0 => 0x9b6ec055 case 1 => 0x147b4041 case 2 => 0x80a9b68c case 3 => 0x0fbc3698
      case 4 => 0xace02de7 case 5 => 0x23f5adf3 case 6 => 0xb7275b3e case 7 => 0x3832db2a
      case 8 => 0xf4731b31 case 9 => 0x7b669b25 case 10 => 0xefb46de8 case 11 => 0x60a1edfc
      case 12 => 0xc3fdf683 case 13 => 0x4ce87697 case 14 => 0xd83a805a case _ => 0x572f004e
    )
    case 13 => (
      match l
      case 0 => 0x4555769d case 1 => 0xca40f689 case 2 => 0x5e920044 case 3 => 0xd1878050
      case 4 => 0x72db9b2f case 5 => 0xfdce1b3b case 6 => 0x691cedf6 case 7 => 0xe6096de2
      case 8 => 0x2a48adf9 case 9 => 0xa55d2ded case 10 => 0x318fdb20 case 11 => 0xbe9a5b34
      case 12 => 0x1dc6404b case 13 => 0x92d3c05f case 14 => 0x06013692 case _ => 0x8914b686
    )
    case 14 => (
      match l
      case 0 => 0x22f5db34 case 1 => 0xade05b20 case 2 => 0x3932aded case 3 => 0xb6272df9
      case 4 => 0x157b3686 case 5 => 0x9a6eb692 case 6 => 0x0ebc405f case 7 => 0x81a9c04b
      case 8 => 0x4de80050 case 9 => 0xc2fd8044 case 10 => 0x562f7689 case 11 => 0xd93af69d
      case 12 => 0x7a66ede2 case 13 => 0xf5736df6 case 14 => 0x61a19b3b case _ => 0xeeb41b2f
    )
    case _ => (
      match l
      case 0 => 0xfcce6dfc case 1 => 0x73dbede8 case 2 => 0xe7091b25 case 3 => 0x681c9b31
      case 4 => 0xcb40804e case 5 => 0x4455005a case 6 => 0xd087f697 case 7 => 0x5f927683
      case 8 => 0x93d3b698 case 9 => 0x1cc6368c case 10 => 0x8814c041 case 11 => 0x07014055
      case 12 => 0xa45d5b2a case 13 => 0x2b48db3e case 14 => 0xbf9a2df3 case _ => 0x308fade7
    )
  }

  function Table336(): Table {
    seq(16, h => seq(16, l => Word336(h, l)))
  }

  lemma Columns336From0(h: nat, l: nat)
    requires h < 16 && 0 <= l < 4
    ensures Word336(h, l) == Xor(Word336(h, 0), Word336(0, l))
  {
    if l == 0 {} else if l == 1 {} else if l == 2 {} else {}
  }

  lemma Columns336From4(h: nat, l: nat)
    requires h < 16 && 4 <= l < 8
    ensures Word336(h, l) == Xor(Word336(h, 0), Word336(0, l))
  {
    if l == 4 {} else if l == 5 {} else if l == 6 {} else {}
  }

  lemma Columns336From8(h: nat, l: nat)
    requires h < 16 && 8 <= l < 12
    ensures Word336(h, l) == Xor(Word336(h, 0), Word336(0, l))
  {
    if l == 8 {} else if l == 9 {} else if l == 10 {} else {}
  }

  lemma Columns336From12(h: nat, l: nat)
    requires h < 16 && 12 <= l < 16
    ensures Word336(h, l) == Xor(Word336(h, 0), Word336(0, l))
  {
    if l == 12 {} else if l == 13 {} else if l == 14 {} else {}
  }

  lemma FirstRowSplit336(i: nat, j: nat)
    requires i < 4 && j < 4
    ensures Word336(0, 4 * j + i) == Xor(Word336(0, i), Word336(0, 4 * j))
  {
    if j == 0 {} else if j == 1 {} else if j == 2 {} else {}
    if i == 0 {} else if i == 1 {} else if i == 2 {} else {}
  }

  lemma FirstRowPairs336(i: nat)
    requires i < 4
    ensures Word336(0, i) == PairSum(i, 0x8f158014, 0x1bc776d9)
    ensures Word336(0, 4 * i) == PairSum(i, 0x378eedb2, 0x6f1ddb64)
  {
    if i == 0 {} else if i == 1 {} else if i == 2 {} else {}
  }

  lemma FirstRow336(l: nat)
    requires l < 16
    ensures Word336(0, l) == NibbleSum(l, 0x8f158014, 0x1bc776d9, 0x378eedb2, 0x6f1ddb64)
  {
    hide Word336, NibbleSum, PairSum, Xor;
    var i, j := l % 4, l / 4;
    FirstRowSplit336(i, j);
    FirstRowPairs336(i);
    FirstRowPairs336(j);
    NibblePairs(i, j, 0x8f158014, 0x1bc776d9, 0x378eedb2, 0x6f1ddb64);
  }

  lemma FirstColumnSplit336(i: nat, j: nat)
    requires i < 4 && j < 4
    ensures Word336(4 * j + i, 0) == Xor(Word336(i, 0), Word336(4 * j, 0))
  {
    if j == 0 {} else if j == 1 {} else if j == 2 {} else {}
    if i == 0 {} else if i == 1 {} else if i == 2 {} else {}
  }

  lemma FirstColumnPairs336(i: nat)
    requires i < 4
    ensures Word336(i, 0) == PairSum(i, 0xde3bb6c8, 0xb99b1b61)
    ensures Word336(4 * i, 0) == PairSum(i, 0x76da4033, 0xedb48066)
  {
    if i == 0 {} else if i == 1 {} else if i == 2 {} else {}
  }

  lemma FirstColumn336(h: nat)
    requires h < 16
    ensures Word336(h, 0) == NibbleSum(h, 0xde3bb6c8, 0xb99b1b61, 0x76da4033, 0xedb48066)
  {
    hide Word336, NibbleSum, PairSum, Xor;
    var i, j := h % 4, h / 4;
    FirstColumnSplit336(i, j);
    FirstColumnPairs336(i);
    FirstColumnPairs336(j);
    NibblePairs(i, j, 0xde3bb6c8, 0xb99b1b61, 0x76da4033, 0xedb48066);
  }

  lemma Basis336()
    ensures Word336(0, 1) == 0x8f158014 && Word336(0, 2) == 0x1bc776d9
    ensures Word336(0, 4) == 0x378eedb2 && Word336(0, 8) == 0x6f1ddb64
    ensures Word336(1, 0) == 0xde3bb6c8 && Word336(2, 0) == 0xb99b1b61
    ensures Word336(4, 0) == 0x76da4033 && Word336(8, 0) == 0xedb48066
  {
  }

  lemma Halves336()
    ensures Step(0xedb48066) == 0x76da4033
    ensures Step(0x76da4033) == 0xb99b1b61
    ensures Step(0xb99b1b61) == 0xde3bb6c8
    ensures Step(0xde3bb6c8) == 0x6f1ddb64
    ensures Step(0x6f1ddb64) == 0x378eedb2
    ensures Step(0x378eedb2) == 0x1bc776d9
    ensures Step(0x1bc776d9) == 0x8f158014
  {
  }

  lemma Table336Generated()
    ensures Generated(Table336())
  {
    hide Word336, Step, NibbleSum, Xor;
    var t := Table336();
    forall h, l | 0 <= h < 16 && 0 <= l < 16
      ensures LinearAt(t, h, l)
    {
      if l < 4 {
        Columns336From0(h, l);
      } else if l < 8 {
        Columns336From4(h, l);
      } else if l < 12 {
        Columns336From8(h, l);
      } else {
        Columns336From12(h, l);
      }
      FirstRow336(l);
      FirstColumn336(h);
      Basis336();
    }
    Basis336();
    Halves336();
  }

  /** `mul_table1_672[16 * h + l]`. */
  function Word672(h: int, l: int): bv64 {
    match h
    case 0 => (
      match l
      case 0 => 0x00000000 case 1 => 0xe417f38a case 2 => 0xcdc391e5 case 3 => 0x29d4626f
      case 4 => 0x9e6b553b case 5 => 0x7a7ca6b1 case 6 => 0x53a8c4de case 7 => 0xb7bf3754
      case 8 => 0x393adc87 case 9 => 0xdd2d2f0d case 10 => 0xf4f94d62 case 11 => 0x10eebee8
      case 12 => 0xa75189bc case 13 => 0x43467a36 case 14 => 0x6a921859 case _ => 0x8e85ebd3
    )
    case 1 => (
      match l
      case 0 => 0x7275b90e case 1 => 0x96624a84 case 2 => 0xbfb628eb case 3 => 0x5ba1db61
      case 4 => 0xec1eec35 case 5 => 0x08091fbf case 6 => 0x21dd7dd0 case 7 => 0xc5ca8e5a
      case 8 => 0x4b4f6589 case 9 => 0xaf589603 case 10 => 0x868cf46c case 11 => 0x629b07e6
      case 12 => 0xd52430b2 case 13 => 0x3133c338 case 14 => 0x18e7a157 case _ => 0xfcf052dd
    )
    case 2 => (
      match l
      case 0 => 0xe4eb721c case 1 => 0x00fc8196 case 2 => 0x2928e3f9 case 3 => 0xcd3f1073
      case 4 => 0x7a802727 case 5 => 0x9e97d4ad case 6 => 0xb743b6c2 case 7 => 0x53544548
      case 8 => 0xddd1ae9b case 9 => 0x39c65d11 case 10 => 0x10123f7e case 11 => 0xf405ccf4
      case 12 => 0x43bafba0 case 13 => 0xa7ad082a case 14 => 0x8e796a45 case _ => 0x6a6e99cf
    )
    case 3 => (
      match l
      case 0 => 0x969ecb12 case 1 => 0x72893898 case 2 => 0x5b5d5af7 case 3 => 0xbf4aa97d
      case 4 => 0x08f59e29 case 5 => 0xece26da3 case 6 => 0xc5360fcc case 7 => 0x2121fc46
      case 8 => 0xafa41795 case 9 => 0x4bb3e41f case 10 => 0x62678670 case 11 => 0x867075fa
      case 12 => 0x31cf42ae case 13 => 0xd5d8b124 case 14 => 0xfc0cd34b case _ => 0x181b20c1
    )
    case 4 => (
      match l
      case 0 => 0xcc3a92c9 case 1 => 0x282d6143 case 2 => 0x01f9032c case 3 => 0xe5eef0a6
      case 4 => 0x5251c7f2 case 5 => 0xb6463478 case 6 => 0x9f925617 case 7 => 0x7b85a59d
      case 8 => 0xf5004e4e case 9 => 0x1117bdc4 case 10 => 0x38c3dfab case 11 => 0xdcd42c21
      case 12 => 0x6b6b1b75 case 13 => 0x8f7ce8ff case 14 => 0xa6a88a90 case _ => 0x42bf791a
    )
    case 5 => (
      match l
      case 0 => 0xbe4f2bc7 case 1 => 0x5a58d84d case 2 => 0x738cba22 case 3 => 0x979b49a8
      case 4 => 0x20247efc case 5 => 0xc4338d76 case 6 => 0xede7ef19 case 7 => 0x09f01c93
      case 8 => 0x8775f740 case 9 => 0x636204ca case 10 => 0x4ab666a5 case 11 => 0xaea1952f
      case 12 => 0x191ea27b case 13 => 0xfd0951f1 case 14 => 0xd4dd339e case _ => 0x30cac014
    )
    case 6 => (
      match l
      case 0 => 0x28d1e0d5 case 1 => 0xccc6135f case 2 => 0xe5127130 case 3 => 0x010582ba
      case 4 => 0xb6bab5ee case 5 => 0x52ad4664 case 6 => 0x7b79240b case 7 => 0x9f6ed781
      case 8 => 0x11eb3c52 case 9 => 0xf5fccfd8 case 10 => 0xdc28adb7 case 11 => 0x383f5e3d
      case 12 => 0x8f806969 case 13 => 0x6b979ae3 case 14 => 0x4243f88c case _ => 0xa6540b06
    )
    case 7 => (
      match l
      case 0 => 0x5aa459db case 1 => 0xbeb3aa51 case 2 => 0x9767c83e case 3 => 0x73703bb4
      case 4 => 0xc4cf0ce0 case 5 => 0x20d8ff6a case 6 => 0x090c9d05 case 7 => 0xed1b6e8f
      case 8 => 0x639e855c case 9 => 0x878976d6 case 10 => 0xae5d14b9 case 11 => 0x4a4ae733
      case 12 => 0xfdf5d067 case 13 => 0x19e223ed case 14 => 0x30364182 case _ => 0xd421b208
    )
    case 8 => (
      match l
      case 0 => 0x9d995363 case 1 => 0x798ea0e9 case 2 => 0x505ac286 case 3 => 0xb44d310c
      case 4 => 0x03f20658 case 5 => 0xe7e5f5d2 case 6 => 0xce3197bd case 7 => 0x2a266437
      case 8 => 0xa4a38fe4 case 9 => 0x40b47c6e case 10 => 0x69601e01 case 11 => 0x8d77ed8b
      case 12 => 0x3ac8dadf case 13 => 0xdedf2955 case 14 => 0xf70b4b3a case _ => 0x131cb8b0
    )
    case 9 => (
      match l
      case 0 => 0xefecea6d case 1 => 0x0bfb19e7 case 2 => 0x222f7b88 case 3 => 0xc6388802
      case 4 => 0x7187bf56 case 5 => 0x95904cdc case 6 => 0xbc442eb3 case 7 => 0x5853dd39
      case 8 => 0xd6d636ea case 9 => 0x32c1c560 case 10 => 0x1b15a70f case 11 => 0xff025485
      case 12 => 0x48bd63d1 case 13 => 0xacaa905b case 14 => 0x857ef234 case _ => 0x616901be
    )
    case 10 => (
      match l
      case 0 => 0x7972217f case 1 => 0x9d65d2f5 case 2 => 0xb4b1b09a case 3 => 0x50a64310
      case 4 => 0xe7197444 case 5 => 0x030e87ce case 6 => 0x2adae5a1 case 7 => 0xcecd162b
      case 8 => 0x4048fdf8 case 9 => 0xa45f0e72 case 10 => 0x8d8b6c1d case 11 => 0x699c9f97
      case 12 => 0xde23a8c3 case 13 => 0x3a345b49 case 14 => 0x13e03926 case _ => 0xf7f7caac
    )
    case 11 => (
      match l
      case 0 => 0x0b079871 case 1 => 0xef106bfb case 2 => 0xc6c40994 case 3 => 0x22d3fa1e
      case 4 => 0x956ccd4a case 5 => 0x717b3ec0 case 6 => 0x58af5caf case 7 => 0xbcb8af25
      case 8 => 0x323d44f6 case 9 => 0xd62ab77c case 10 => 0xfffed513 case 11 => 0x1be92699
      case 12 => 0xac5611cd case 13 => 0x4841e247 case 14 => 0x61958028 case _ => 0x858273a2
    )
    case 12 => (
      match l
      case 0 => 0x51a3c1aa case 1 => 0xb5b43220 case 2 => 0x9c60504f case 3 => 0x7877a3c5
      case 4 => 0xcfc89491 case 5 => 0x2bdf671b case 6 => 0x020b0574 case 7 => 0xe61cf6fe
      case 8 => 0x68991d2d case 9 => 0x8c8eeea7 case 10 => 0xa55a8cc8 case 11 => 0x414d7f42
      case 12 => 0xf6f24816 case 13 => 0x12e5bb9c case 14 => 0x3b31d9f3 case _ => 0xdf262a79
    )
    case 13 => (
      match l
      case 0 => 0x23d678a4 case 1 => 0xc7c18b2e case 2 => 0xee15e941 case 3 => 0x0a021acb
      case 4 => 0xbdbd2d9f case 5 => 0x59aade15 case 6 => 0x707ebc7a case 7 => 0x94694ff0
      case 8 => 0x1aeca423 case 9 => 0xfefb57a9 case 10 => 0xd72f35c6 case 11 => 0x3338c64c
      case 12 => 0x8487f118 case 13 => 0x60900292 case 14 => 0x494460fd case _ => 0xad539377
    )
    case 14 => (
      match l
      case 0 => 0xb548b3b6 case 1 => 0x515f403c case 2 => 0x788b2253 case 3 => 0x9c9cd1d9
      case 4 => 0x2b23e68d case 5 => 0xcf341507 case 6 => 0xe6e07768 case 7 => 0x02f784e2
      case 8 => 0x8c726f31 case 9 => 0x68659cbb case 10 => 0x41b1fed4 case 11 => 0xa5a60d5e
      case 12 => 0x12193a0a case 13 => 0xf60ec980 case 14 => 0xdfdaabef case _ => 0x3bcd5865
    )
    case _ => (
      match l
      case 0 => 0xc73d0ab8 case 1 => 0x232af932 case 2 => 0x0afe9b5d case 3 => 0xeee968d7
      case 4 => 0x59565f83 case 5 => 0xbd41ac09 case 6 => 0x9495ce66 case 7 => 0x70823dec
      case 8 => 0xfe07d63f case 9 => 0x1a1025b5 case 10 => 0x33c447da case 11 => 0xd7d3b450
      case 12 => 0x606c8304 case 13 => 0x847b708e case 14 => 0xadaf12e1 case _ => 0x49b8e16b
    )
  }

  function Table672(): Table {
    seq(16, h => seq(16, l => Word672(h, l)))
  }

  lemma Columns672From0(h: nat, l: nat)
    requires h < 16 && 0 <= l < 4
    ensures Word672(h, l) == Xor(Word672(h, 0), Word672(0, l))
  {
    if l == 0 {} else if l == 1 {} else if l == 2 {} else {}
  }

  lemma Columns672From4(h: nat, l: nat)
    requires h < 16 && 4 <= l < 8
    ensures Word672(h, l) == Xor(Word672(h, 0), Word672(0, l))
  {
    if l == 4 {} else if l == 5 {} else if l == 6 {} else {}
  }

  lemma Columns672From8(h: nat, l: nat)
    requires h < 16 && 8 <= l < 12
    ensures Word672(h, l) == Xor(Word672(h, 0), Word672(0, l))
  {
    if l == 8 {} else if l == 9 {} else if l == 10 {} else {}
  }

  lemma Columns672From12(h: nat, l: nat)
    requires h < 16 && 12 <= l < 16
    ensures Word672(h, l) == Xor(Word672(h, 0), Word672(0, l))
  {
    if l == 12 {} else if l == 13 {} else if l == 14 {} else {}
  }

  lemma FirstRowSplit672(i: nat, j: nat)
    requires i < 4 && j < 4
    ensures Word672(0, 4 * j + i) == Xor(Word672(0, i), Word672(0, 4 * j))
  {
    if j == 0 {} else if j == 1 {} else if j == 2 {} else {}
    if i == 0 {} else if i == 1 {} else if i == 2 {} else {}
  }

  lemma FirstRowPairs672(i: nat)
    requires i < 4
    ensures Word672(0, i) == PairSum(i, 0xe417f38a, 0xcdc391e5)
    ensures Word672(0, 4 * i) == PairSum(i, 0x9e6b553b, 0x393adc87)
  {
    if i == 0 {} else if i == 1 {} else if i == 2 {} else {}
  }

  lemma FirstRow672(l: nat)
    requires l < 16
    ensures Word672(0, l) == NibbleSum(l, 0xe417f38a, 0xcdc391e5, 0x9e6b553b, 0x393adc87)
  {
    hide Word672, NibbleSum, PairSum, Xor;
    var i, j := l % 4, l / 4;
    FirstRowSplit672(i, j);
    FirstRowPairs672(i);
    FirstRowPairs672(j);
    NibblePairs(i, j, 0xe417f38a, 0xcdc391e5, 0x9e6b553b, 0x393adc87);
  }

  lemma FirstColumnSplit672(i: nat, j: nat)
    requires i < 4 && j < 4
    ensures Word672(4 * j + i, 0) == Xor(Word672(i, 0), Word672(4 * j, 0))
  {
    if j == 0 {} else if j == 1 {} else if j == 2 {} else {}
    if i == 0 {} else if i == 1 {} else if i == 2 {} else {}
  }

  lemma FirstColumnPairs672(i: nat)
    requires i < 4
    ensures Word672(i, 0) == PairSum(i, 0x7275b90e, 0xe4eb721c)
    ensures Word672(4 * i, 0) == PairSum(i, 0xcc3a92c9, 0x9d995363)
  {
    if i == 0 {} else if i == 1 {} else if i == 2 {} else {}
  }

  lemma FirstColumn672(h: nat)
    requires h < 16
    ensures Word672(h, 0) == NibbleSum(h, 0x7275b90e, 0xe4eb721c, 0xcc3a92c9, 0x9d995363)
  {
    hide Word672, NibbleSum, PairSum, Xor;
    var i, j := h % 4, h / 4;
    FirstColumnSplit672(i, j);
    FirstColumnPairs672(i);
    FirstColumnPairs672(j);
    NibblePairs(i, j, 0x7275b90e, 0xe4eb721c, 0xcc3a92c9, 0x9d995363);
  }

  lemma Basis672()
    ensures Word672(0, 1) == 0xe417f38a && Word672(0, 2) == 0xcdc391e5
    ensures Word672(0, 4) == 0x9e6b553b && Word672(0, 8) == 0x393adc87
    ensures Word672(1, 0) == 0x7275b90e && Word672(2, 0) == 0xe4eb721c
    ensures Word672(4, 0) == 0xcc3a92c9 && Word672(8, 0) == 0x9d995363
  {
  }

  lemma Halves672()
    ensures Step(0x9d995363) == 0xcc3a92c9
    ensures Step(0xcc3a92c9) == 0xe4eb721c
    ensures Step(0xe4eb721c) == 0x7275b90e
    ensures Step(0x7275b90e) == 0x393adc87
    ensures Step(0x393adc87) == 0x9e6b553b
    ensures Step(0x9e6b553b) == 0xcdc391e5
    ensures Step(0xcdc391e5) == 0xe417f38a
  {
  }

  lemma Table672Generated()
    ensures Generated(Table672())
  {
    hide Word672, Step, NibbleSum, Xor;
    var t := Table672();
    forall h, l | 0 <= h < 16 && 0 <= l < 16
      ensures LinearAt(t, h, l)
    {
      if l < 4 {
        Columns672From0(h, l);
      } else if l < 8 {
        Columns672From4(h, l);
      } else if l < 12 {
        Columns672From8(h, l);
      } else {
        Columns672From12(h, l);
      }
      FirstRow672(l);
      FirstColumn672(h);
      Basis672();
    }
    Basis672();
    Halves672();
  }

  /** `mul_table1_336` multiplies by x to the 8 * 336: its generator at 0x80 is x to the 8 * 339. */
  lemma Table336Multiplies()
    ensures Multiplies(Table336(), 8 * 336)
  {
    hide StepN, Generated, Word336, Multiplies;
    Table336Generated();
    Basis336();
    Power2712();
    Power24();
    StepNAdd(ONE, 24, 8 * 336);
    GeneratedMultiplies(Table336(), 8 * 336);
  }

  /** `mul_table1_672` multiplies by x to the 8 * 672: its generator at 0x80 is x to the 8 * 675. */
  lemma Table672Multiplies()
    ensures Multiplies(Table672(), 8 * 672)
  {
    hide StepN, Generated, Word672, Multiplies;
    Table672Generated();
    Basis672();
    Power5400();
    Power24();
    StepNAdd(ONE, 24, 8 * 672);
    GeneratedMultiplies(Table672(), 8 * 672);
  }

  lemma Power24()
    ensures StepN(ONE, 24) == 0x80
  {
    hide StepN;
    StepShl8(0x80_0000);
    StepShl8(0x8000);
    StepShl8(0x80);
    StepNAdd(ONE, 8, 8);
    StepNAdd(ONE, 16, 8);
  }
}
