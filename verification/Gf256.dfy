/**
 The field GF(2^8) of FIPS 197 section 4, and the shift-and-add arithmetic of BrowserAesCfb8.
 A natural number stands for the polynomial over GF(2) whose coefficients are its binary digits.
 */
module Gf256 {
  import opened Bits

  type Byte = x: nat | x < 256

  /** The modulus x^8 + x^4 + x^3 + x + 1. */
  const MODULUS: nat := 0x11b

  /** Product of two polynomials over GF(2), not reduced. */
  function PolyMul(a: nat, b: nat): nat
    decreases b
  {
    if b == 0 then 0 else Xor(if b % 2 == 1 then a else 0, 2 * PolyMul(a, b / 2))
  }

  lemma {:induction false} PolyMulZero(b: nat)
    ensures PolyMul(0, b) == 0
  {
    if b != 0 { PolyMulZero(b / 2); }
  }

  lemma {:induction false} PolyMulOne(b: nat)
    ensures PolyMul(1, b) == b && PolyMul(b, 1) == b
  {
    if b != 0 { 
      PolyMulOne(b / 2); 
      XorUnfold(b % 2, 2 * (b / 2));
    }
    XorComm(b, 0);
  }

  lemma {:induction false} PolyMulDouble(a: nat, b: nat)
    ensures PolyMul(2 * a, b) == 2 * PolyMul(a, b)
    ensures PolyMul(a, 2 * b) == 2 * PolyMul(a, b)
    decreases b
  {
    if b != 0 {
      PolyMulDouble(a, b / 2);
      XorDouble(if b % 2 == 1 then a else 0, 2 * PolyMul(a, b / 2));
    }
  }

  lemma {:induction false} PolyMulAddLeft(a: nat, b: nat, c: nat)
    ensures PolyMul(Xor(a, b), c) == Xor(PolyMul(a, c), PolyMul(b, c))
    decreases c
  {
    if c != 0 {
      var p, q := 2 * PolyMul(a, c / 2), 2 * PolyMul(b, c / 2);
      PolyMulAddLeft(a, b, c / 2);
      XorDouble(PolyMul(a, c / 2), PolyMul(b, c / 2));
      if c % 2 == 1 { XorSwap(a, b, p, q); }
    }
  }

  lemma {:induction false} PolyMulUnfold(a: nat, b: nat)
    ensures PolyMul(a, b) == Xor(if b % 2 == 1 then a else 0, 2 * PolyMul(a, b / 2))
  {
  }

  lemma {:induction false} PolyMulComm(a: nat, b: nat)
    ensures PolyMul(a, b) == PolyMul(b, a)
    decreases b
  {
    if b == 0 {
      PolyMulZero(a);
    } else {
      XorUnfold(b % 2, 2 * (b / 2));
      assert b == Xor(b % 2, 2 * (b / 2));
      PolyMulAddLeft(b % 2, 2 * (b / 2), a);
      PolyMulDouble(b / 2, a);
      PolyMulComm(a, b / 2);
      PolyMulOne(a);
      PolyMulZero(a);
    }
  }

  lemma PolyMulAddRight(a: nat, b: nat, c: nat)
    ensures PolyMul(a, Xor(b, c)) == Xor(PolyMul(a, b), PolyMul(a, c))
  {
    PolyMulComm(a, Xor(b, c));
    PolyMulComm(a, b);
    PolyMulComm(a, c);
    PolyMulAddLeft(b, c, a);
  }

  lemma {:induction false} PolyMulAssoc(a: nat, b: nat, c: nat)
    ensures PolyMul(PolyMul(a, b), c) == PolyMul(a, PolyMul(b, c))
    decreases c
  {
    if c != 0 {
      PolyMulAssoc(a, b, c / 2);
      var low, high := if c % 2 == 1 then b else 0, PolyMul(b, c / 2);
      PolyMulAddRight(a, low, 2 * high);
      PolyMulDouble(a, high);
    }
  }

  /** Congruence modulo the field polynomial. */
  ghost predicate Congruent(a: nat, b: nat) {
    exists q: nat :: Xor(a, b) == PolyMul(q, MODULUS)
  }

  lemma CongruentRefl(a: nat)
    ensures Congruent(a, a)
  {
    XorSelf(a);
    PolyMulZero(MODULUS);
  }

  lemma CongruentSym(a: nat, b: nat)
    requires Congruent(a, b)
    ensures Congruent(b, a)
  {
    XorComm(a, b);
  }

  lemma CongruentAdd(a: nat, b: nat, c: nat, d: nat)
    requires Congruent(a, b) && Congruent(c, d)
    ensures Congruent(Xor(a, c), Xor(b, d))
  {
    var q: nat :| Xor(a, b) == PolyMul(q, MODULUS);
    var r: nat :| Xor(c, d) == PolyMul(r, MODULUS);
    PolyMulAddLeft(q, r, MODULUS);
    XorSwap(a, c, b, d);
  }

  lemma CongruentTrans(a: nat, b: nat, c: nat)
    requires Congruent(a, b) && Congruent(b, c)
    ensures Congruent(a, c)
  {
    CongruentAdd(a, b, b, c);
    var q: nat :| Xor(Xor(a, b), Xor(b, c)) == PolyMul(q, MODULUS);
    XorAssoc(a, b, Xor(b, c));
    XorAssoc(b, b, c);
    XorSelf(b);
  }

  lemma CongruentMul(a: nat, b: nat, c: nat)
    requires Congruent(a, b)
    ensures Congruent(PolyMul(a, c), PolyMul(b, c))
  {
    var q: nat :| Xor(a, b) == PolyMul(q, MODULUS);
    PolyMulAddLeft(a, b, c);
    PolyMulAssoc(q, MODULUS, c);
    PolyMulComm(MODULUS, c);
    PolyMulAssoc(q, c, MODULUS);
  }

  /** A nonzero multiple of the modulus is not smaller than the modulus. */
  lemma {:induction false} MultipleIsLarge(q: nat)
    requires q > 0
    ensures PolyMul(MODULUS, q) >= MODULUS
    decreases q
  {
    PolyMulUnfold(MODULUS, q);
    if q == 1 {
      PolyMulOne(MODULUS);
    } else {
      MultipleIsLarge(q / 2);
      XorLower(if q % 2 == 1 then MODULUS else 0, 2 * PolyMul(MODULUS, q / 2));
    }
  }

  /** Two bytes in the same residue class are the same byte. */
  lemma ResidueUnique(a: Byte, b: Byte)
    requires Congruent(a, b)
    ensures a == b
  {
    var q: nat :| Xor(a, b) == PolyMul(q, MODULUS);
    assert Pow2(8) == 256;
    XorBound(a, b, 8);
    PolyMulComm(q, MODULUS);
    if q > 0 { MultipleIsLarge(q); }
    XorAssoc(a, b, b);
    XorSelf(b);
    XorComm(a, 0);
  }

  // -------------------------------------------------------------- the field

  /** Multiplication by x, as the table builder writes it. */
  function Xtime(value: Byte): Byte {
    XtimeReduces(value);
    if value >= 0x80 then Xor(2 * value, MODULUS) else 2 * value
  }

  lemma XtimeReduces(value: Byte)
    ensures value >= 0x80 ==> Xor(2 * value, MODULUS) < 256 && Congruent(Xor(2 * value, MODULUS), 2 * value)
    ensures Congruent(2 * value, 2 * value)
  {
    CongruentRefl(2 * value);
    if value >= 0x80 {
      TopDigitCancels(2 * value - 256, MODULUS - 256);
      PolyMulOne(MODULUS);
      CongruentXor(2 * value, MODULUS, 1);
    }
  }

  lemma XtimeDoubles(value: Byte, p: nat)
    requires Congruent(value, p)
    ensures Congruent(Xtime(value), 2 * p)
  {
    XtimeReduces(value);
    CongruentDouble(value, p);
    CongruentTrans(Xtime(value), 2 * value, 2 * p);
  }

  lemma TopDigitCancels(l: nat, l': nat)
    requires l < 256 && l' < 256
    ensures Xor(256 + l, 256 + l') < 256
  {
    assert Shl(1, 8) == 256 && Pow2(8) == 256;
    assert Xor(1, 1) == 0 && Shl(0, 8) == 0;
    XorSplit(1, l, 1, l', 8);
  }

  lemma CongruentXor(a: nat, m: nat, q: nat)
    requires m == PolyMul(q, MODULUS)
    ensures Congruent(Xor(a, m), a)
  {
    XorComm(a, m);
    XorAssoc(m, a, a);
    XorSelf(a);
    XorComm(m, 0);
  }

  function Add(a: Byte, b: Byte): Byte {
    AddBound(a, b);
    Xor(a, b)
  }

  lemma AddBound(a: Byte, b: Byte)
    ensures Xor(a, b) < 256
  {
    assert Pow2(8) == 256;
    XorBound(a, b, 8);
  }

  /** The byte in the residue class of a polynomial, by Horner's rule. */
  function Reduce(p: nat): Byte {
    if p == 0 then 0 else Add(p % 2, Xtime(Reduce(p / 2)))
  }

  lemma {:induction false} ReduceCongruent(p: nat)
    ensures Congruent(Reduce(p), p)
  {
    CongruentRefl(p % 2);
    if p == 0 {
      CongruentRefl(0);
    } else {
      var half := Reduce(p / 2);
      ReduceCongruent(p / 2);
      XtimeDoubles(half, p / 2);
      CongruentAdd(p % 2, p % 2, Xtime(half), 2 * (p / 2));
      LowestDigit(p);
    }
  }

  lemma LowestDigit(p: nat)
    ensures Xor(p % 2, 2 * (p / 2)) == p
  {
    XorUnfold(p % 2, 2 * (p / 2));
  }

  lemma CongruentDouble(a: nat, b: nat)
    requires Congruent(a, b)
    ensures Congruent(2 * a, 2 * b)
  {
    CongruentMul(a, b, 2);
    PolyMulDouble(a, 1);
    PolyMulDouble(b, 1);
    PolyMulOne(a);
    PolyMulOne(b);
  }

  /** FIPS 197 section 4.2: polynomial product modulo the field polynomial. */
  function Mul(a: Byte, b: Byte): Byte {
    Reduce(PolyMul(a, b))
  }

  /** Reduction depends on the residue class only. */
  lemma ReduceClass(p: nat, q: nat)
    requires Congruent(p, q)
    ensures Reduce(p) == Reduce(q)
  {
    ReduceCongruent(p);
    ReduceCongruent(q);
    CongruentTrans(Reduce(p), p, q);
    CongruentSym(Reduce(q), q);
    CongruentTrans(Reduce(p), q, Reduce(q));
    ResidueUnique(Reduce(p), Reduce(q));
  }

  lemma ReduceByte(b: Byte)
    ensures Reduce(b) == b
  {
    ReduceCongruent(b);
    ResidueUnique(Reduce(b), b);
  }

  lemma MulComm(a: Byte, b: Byte)
    ensures Mul(a, b) == Mul(b, a)
  {
    PolyMulComm(a, b);
  }

  lemma MulOne(a: Byte)
    ensures Mul(1, a) == a && Mul(a, 1) == a
  {
    PolyMulOne(a);
    ReduceByte(a);
  }

  lemma MulZero(a: Byte)
    ensures Mul(0, a) == 0 && Mul(a, 0) == 0
  {
    PolyMulZero(a);
  }

  lemma MulAssoc(a: Byte, b: Byte, c: Byte)
    ensures Mul(Mul(a, b), c) == Mul(a, Mul(b, c))
  {
    ReduceCongruent(PolyMul(a, b));
    ReduceCongruent(PolyMul(b, c));
    CongruentMul(Mul(a, b), PolyMul(a, b), c);
    ReduceClass(PolyMul(Mul(a, b), c), PolyMul(PolyMul(a, b), c));
    PolyMulAssoc(a, b, c);
    CongruentMul(Mul(b, c), PolyMul(b, c), a);
    PolyMulComm(Mul(b, c), a);
    PolyMulComm(PolyMul(b, c), a);
    ReduceClass(PolyMul(a, Mul(b, c)), PolyMul(a, PolyMul(b, c)));
  }

  lemma MulAdd(a: Byte, b: Byte, c: Byte)
    ensures Mul(a, Add(b, c)) == Add(Mul(a, b), Mul(a, c))
  {
    PolyMulAddRight(a, b, c);
    ReduceCongruent(PolyMul(a, b));
    ReduceCongruent(PolyMul(a, c));
    CongruentAdd(Mul(a, b), PolyMul(a, b), Mul(a, c), PolyMul(a, c));
    ReduceClass(Add(Mul(a, b), Mul(a, c)), Xor(PolyMul(a, b), PolyMul(a, c)));
    ReduceByte(Add(Mul(a, b), Mul(a, c)));
  }

  lemma MulTwo(a: Byte)
    ensures Mul(2, a) == Xtime(a)
    ensures Mul(3, a) == Add(Xtime(a), a)
  {
    PolyMulDouble(1, a);
    PolyMulOne(a);
    XtimeReduces(a);
    CongruentSym(Xtime(a), 2 * a);
    ReduceClass(2 * a, Xtime(a));
    ReduceByte(Xtime(a));
    assert Xor(2, 1) == 3;
    MulComm(3, a);
    MulAdd(a, 2, 1);
    MulComm(a, 2);
    MulOne(a);
  }
}
