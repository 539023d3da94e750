/** Bitwise operations on natural numbers, as the 64-bit code uses them: masks of a power of two and the
    lowest set bit. */
module Bits {

  function Pow2(k: nat): (p: nat)
    ensures p > 0
  {
    if k == 0 then 1 else 2 * Pow2(k - 1)
  }

  function And(a: nat, b: nat): nat {
    if a == 0 || b == 0 then 0 else 2 * And(a / 2, b / 2) + (a % 2) * (b % 2)
  }

  /** The value of the lowest set bit. */
  function LowBit(n: nat): (b: nat)
    requires n > 0
    ensures 1 <= b <= n
  {
    if n % 2 == 1 then 1 else 2 * LowBit(n / 2)
  }

  /** The number of 64-bit words, and of 32-bit unsigned numbers. */
  const WORD := 0x1_0000_0000_0000_0000
  const UNSIGNED := 0x1_0000_0000

  lemma {:induction false} Pow2Add(i: nat, j: nat)
    ensures Pow2(i + j) == Pow2(i) * Pow2(j)
    decreases i
  {
    if i > 0 {
      Pow2Add(i - 1, j);
      assert Pow2(i + j) == 2 * Pow2(i - 1 + j);
    }
  }

  lemma Pow2Word()
    ensures Pow2(64) == WORD && Pow2(63) == 0x8000_0000_0000_0000
  {
    hide Pow2;
    Pow2Small();
    Pow2Add(8, 8);
    Pow2Add(16, 16);
    Pow2Add(32, 32);
    Pow2Add(1, 63);
  }

  lemma Pow2Small()
    ensures Pow2(0) == 1 && Pow2(1) == 2 && Pow2(8) == 256
  {
  }

  lemma {:induction false} Pow2Order(i: nat, j: nat)
    ensures i < j ==> Pow2(i) < Pow2(j)
    ensures i <= j <==> Pow2(i) <= Pow2(j)
    decreases i + j
  {
    if i > 0 && j > 0 {
      Pow2Order(i - 1, j - 1);
    }
  }

  // ---------- Conjunction ----------

  lemma AndStep(a: nat, b: nat)
    ensures And(a, b) == 2 * And(a / 2, b / 2) + (a % 2) * (b % 2)
  {
  }

  lemma {:induction false} AndSelf(a: nat)
    ensures And(a, a) == a
  {
    hide And;
    AndStep(a, a);
    if a > 0 {
      AndSelf(a / 2);
    }
  }

  /** A number shares no bit with its complement. */
  lemma {:induction false} AndComplement(a: nat, w: nat)
    requires a < Pow2(w)
    ensures And(a, Pow2(w) - 1 - a) == 0
    decreases w
  {
    if w > 0 {
      hide And;
      var b := Pow2(w) - 1 - a;
      AndStep(a, b);
      assert b / 2 == Pow2(w - 1) - 1 - a / 2;
      AndComplement(a / 2, w - 1);
    }
  }

  lemma {:induction false} AndAllOnes(a: nat, w: nat)
    requires a < Pow2(w)
    ensures And(a, Pow2(w) - 1) == a
    decreases w
  {
    hide And, Pow2;
    AndStep(a, Pow2(w) - 1);
    if w == 0 {
      Pow2Small();
    } else {
      Pow2Next(w - 1);
      assert (Pow2(w) - 1) / 2 == Pow2(w - 1) - 1;
      AndAllOnes(a / 2, w - 1);
    }
  }

  lemma ModDouble(x: nat, m: nat)
    requires m > 0
    ensures x % (2 * m) == 2 * ((x / 2) % m) + x % 2
  {
    var q, r := (x / 2) / m, (x / 2) % m;
    assert x / 2 == q * m + r;
    assert x == (2 * m) * q + (2 * r + x % 2);
    ModUnique(x, 2 * m, q, 2 * r + x % 2);
  }

  lemma ModUnique(x: nat, m: nat, q: nat, r: nat)
    requires r < m && x == m * q + r
    ensures x % m == r
  {
    var d := x / m - q;
    assert m * d == r - x % m;
    MulSign(m, d);
  }

  /** A number that counts around `m` places. */
  function Wrap(x: nat, m: nat): (r: nat)
    requires m > 0
    ensures r < m
  {
    x % m
  }

  lemma WrapSmall(x: nat, m: nat)
    requires x < m
    ensures Wrap(x, m) == x
  {
    SmallMod(x, m);
  }

  /** Counting on. */
  lemma WrapNext(x: nat, m: nat)
    requires m > 0
    ensures Wrap(x + 1, m) == if Wrap(x, m) + 1 >= m then 0 else Wrap(x, m) + 1
    ensures Wrap(Wrap(x, m) + 1, m) == Wrap(x + 1, m)
  {
    var q, r := x / m, x % m;
    assert x == m * q + r;
    if r + 1 < m {
      SmallMod(r + 1, m);
      ModUnique(x + 1, m, q, r + 1);
    } else {
      assert m * (q + 1) == m * q + m;
      ModUnique(x + 1, m, q + 1, 0);
      ModUnique(m, m, 1, 0);
    }
  }

  lemma SmallMod(a: nat, m: nat)
    requires a < m
    ensures a % m == a
  {
  }

  lemma MulSign(m: nat, d: int)
    ensures d >= 1 ==> m * d >= m
    ensures d <= -1 ==> m * d + m <= 0
  {
  }

  /** `x & ~(sz - 1)` rounds down to a multiple of the power of two `sz`. */
  lemma MaskRoundsDown(x: nat, k: nat, w: nat)
    requires k <= w && x < Pow2(w)
    ensures Pow2(k) <= Pow2(w) && And(x, Pow2(w) - Pow2(k)) == x - x % Pow2(k)
  {
    hide And, Pow2;
    MaskRest(x, k, w);
  }

  function Rest(x: nat, m: nat): nat
    requires m > 0
  {
    x % m
  }

  lemma RestDouble(x: nat, m: nat)
    requires m > 0
    ensures Rest(x, 2 * m) == 2 * Rest(x / 2, m) + x % 2
  {
    ModDouble(x, m);
  }

  lemma {:induction false} MaskRest(x: nat, k: nat, w: nat)
    requires k <= w && x < Pow2(w)
    ensures Pow2(k) <= Pow2(w) && And(x, Pow2(w) - Pow2(k)) == x - Rest(x, Pow2(k))
    decreases w
  {
    hide And, Pow2;
    Pow2Order(k, w);
    if k == 0 {
      Pow2Small();
      AndAllOnes(x, w);
    } else {
      hide Rest;
      Pow2Next(w - 1);
      Pow2Next(k - 1);
      MaskRest(x / 2, k - 1, w - 1);
      MaskStep(x, Pow2(w - 1), Pow2(k - 1));
    }
  }

  lemma MaskStep(x: nat, a: nat, b: nat)
    requires 0 < b <= a && And(x / 2, a - b) == x / 2 - Rest(x / 2, b)
    ensures And(x, 2 * a - 2 * b) == x - Rest(x, 2 * b)
  {
    hide And, Rest;
    assert 2 * a - 2 * b == 2 * (a - b);
    AndEven(x, a - b);
    RestDouble(x, b);
  }

  lemma Pow2Next(k: nat)
    ensures Pow2(k + 1) == 2 * Pow2(k)
  {
  }

  lemma AndEven(x: nat, y: nat)
    ensures And(x, 2 * y) == 2 * And(x / 2, y)
  {
    hide And;
    AndStep(x, 2 * y);
    assert (2 * y) / 2 == y && (2 * y) % 2 == 0;
  }

  // ---------- The lowest set bit ----------

  /** `n & (n - 1)` clears the lowest set bit. */
  lemma {:induction false} AndPred(n: nat)
    requires n > 0
    ensures And(n, n - 1) == n - LowBit(n)
    decreases n
  {
    hide And;
    AndStep(n, n - 1);
    if n % 2 == 1 {
      AndSelf(n / 2);
    } else {
      assert (n - 1) / 2 == n / 2 - 1;
      AndPred(n / 2);
    }
  }

  /** `n & -n`, in words of `w` bits, is the lowest set bit. */
  lemma {:induction false} AndNeg(n: nat, w: nat)
    requires 0 < n < Pow2(w)
    ensures And(n, Pow2(w) - n) == LowBit(n)
    decreases w
  {
    hide And;
    var m := Pow2(w) - n;
    AndStep(n, m);
    if n % 2 == 1 {
      assert m / 2 == Pow2(w - 1) - 1 - n / 2 && m % 2 == 1;
      AndComplement(n / 2, w - 1);
    } else {
      assert m / 2 == Pow2(w - 1) - n / 2 && m % 2 == 0;
      AndNeg(n / 2, w - 1);
    }
  }

  ghost predicate IsPow2(n: nat) {
    exists k: nat :: Pow2(k) == n
  }

  lemma {:induction false} LowBitIsPow2(n: nat)
    requires n > 0
    ensures IsPow2(LowBit(n))
    decreases n
  {
    if n % 2 == 1 {
      assert Pow2(0) == 1;
    } else {
      LowBitIsPow2(n / 2);
      var k: nat :| Pow2(k) == LowBit(n / 2);
      assert Pow2(k + 1) == LowBit(n);
    }
  }

  lemma {:induction false} LowBitOfPow2(k: nat)
    ensures LowBit(Pow2(k)) == Pow2(k)
  {
    if k > 0 {
      LowBitOfPow2(k - 1);
    }
  }

  /** Adding its lowest set bit makes the lowest set bit of a number grow. */
  lemma {:induction false} LowBitGrows(n: nat)
    requires n > 0
    ensures LowBit(n + LowBit(n)) > LowBit(n)
    decreases n
  {
    if n % 2 == 0 {
      LowBitGrows(n / 2);
      assert (n + LowBit(n)) / 2 == n / 2 + LowBit(n / 2);
    }
  }

  /** No power of two lies strictly between a number with several bits set and the next step. */
  lemma {:induction false} NoPow2Between(n: nat, k: nat)
    requires n > 0 && LowBit(n) != n && Pow2(k) >= n
    ensures Pow2(k) >= n + LowBit(n)
    decreases n
  {
    if n % 2 == 0 {
      assert k > 0;
      NoPow2Between(n / 2, k - 1);
    }
  }
}
