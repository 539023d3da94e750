/** Addition over GF(2): exclusive or of 64-bit words, as an operation whose definition the algebraic
    proofs can put aside. */
module Gf2 {

  function Xor(a: bv64, b: bv64): bv64 { a ^ b }

  lemma XorComm(p: bv64, q: bv64)
    ensures Xor(p, q) == Xor(q, p)
  {
  }

  lemma XorZero(p: bv64)
    ensures Xor(p, 0) == p && Xor(0, p) == p && Xor(p, p) == 0
  {
  }

  lemma BitsAssoc(p: bv64, q: bv64, r: bv64)
    ensures (p ^ q) ^ r == p ^ (q ^ r)
  {
  }

  lemma XorAssoc(p: bv64, q: bv64, r: bv64)
    ensures Xor(Xor(p, q), r) == Xor(p, Xor(q, r))
  {
    BitsAssoc(p, q, r);
    calc {
      Xor(Xor(p, q), r);
      Xor(p ^ q, r);
      (p ^ q) ^ r;
      p ^ (q ^ r);
      Xor(p, q ^ r);
      Xor(p, Xor(q, r));
    }
  }

  lemma XorSwap(p: bv64, q: bv64, r: bv64)
    ensures Xor(Xor(p, q), r) == Xor(Xor(p, r), q)
  {
    hide Xor;
    XorAssoc(p, q, r);
    XorAssoc(p, r, q);
    XorComm(q, r);
  }

  lemma XorRegroup(p: bv64, q: bv64, r: bv64, t: bv64)
    ensures Xor(Xor(p, q), Xor(r, t)) == Xor(Xor(p, r), Xor(q, t))
  {
    hide Xor;
    XorAssoc(Xor(p, q), r, t);
    XorSwap(p, q, r);
    XorAssoc(Xor(p, r), q, t);
  }

  lemma XorCancel(p: bv64, q: bv64, r: bv64)
    requires Xor(p, r) == Xor(q, r)
    ensures p == q
  {
    hide Xor;
    XorAssoc(p, r, r);
    XorAssoc(q, r, r);
    XorZero(r);
    XorZero(p);
    XorZero(q);
  }
}
