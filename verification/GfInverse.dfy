/**
 Powers in GF(2^8): every nonzero byte has order dividing 255, so x^254 is the inverse of x.
 Squaring is additive and multiplicative; eight squarings fix x, hence every byte;
 so x^255 is idempotent, and the only idempotents are 0 and 1.
 */
module GfInverse {
  import opened Bits
  import opened Gf256

  /** The e-fold product. */
  function Pow(v: Byte, e: nat): Byte {
    if e == 0 then 1 else Mul(v, Pow(v, e - 1))
  }

  lemma {:induction false} PowAdd(v: Byte, m: nat, n: nat)
    ensures Pow(v, m + n) == Mul(Pow(v, m), Pow(v, n))
    decreases m
  {
    if m == 0 {
      MulOne(Pow(v, n));
    } else {
      PowAdd(v, m - 1, n);
      MulAssoc(v, Pow(v, m - 1), Pow(v, n));
    }
  }

  lemma PowOne(v: Byte)
    ensures Pow(v, 1) == v
  {
    MulOne(v);
  }

  lemma {:induction false} PowSquare(v: Byte, k: nat)
    ensures Pow(Sq(v), k) == Pow(v, 2 * k)
    decreases k
  {
    if k != 0 {
      PowSquare(v, k - 1);
      PowAdd(v, 2, 2 * (k - 1));
      PowAdd(v, 1, 1);
      PowOne(v);
    }
  }

  function Sq(v: Byte): Byte { Mul(v, v) }

  function SqTimes(v: Byte, n: nat): Byte {
    if n == 0 then v else Sq(SqTimes(v, n - 1))
  }

  lemma SqAdd(a: Byte, b: Byte)
    ensures Sq(Add(a, b)) == Add(Sq(a), Sq(b))
  {
    var ab := Mul(a, b);
    MulAdd(Add(a, b), a, b);
    MulComm(Add(a, b), a);
    MulComm(Add(a, b), b);
    MulAdd(a, a, b);
    MulAdd(b, a, b);
    MulComm(a, b);
    CancelMiddle(Sq(a), ab, Sq(b));
  }

  lemma CancelMiddle(a: Byte, m: Byte, b: Byte)
    ensures Add(Add(a, m), Add(m, b)) == Add(a, b)
  {
    XorAssoc(a, m, Xor(m, b));
    XorAssoc(m, m, b);
    XorSelf(m);
  }

  lemma SqMul(a: Byte, b: Byte)
    ensures Sq(Mul(a, b)) == Mul(Sq(a), Sq(b))
  {
    MulAssoc(a, b, Mul(a, b));
    MulComm(a, b);
    MulAssoc(b, b, a);
    MulComm(Sq(b), a);
    MulAssoc(a, a, Sq(b));
  }

  lemma {:induction false} SqTimesAdd(a: Byte, b: Byte, n: nat)
    ensures SqTimes(Add(a, b), n) == Add(SqTimes(a, n), SqTimes(b, n))
    decreases n
  {
    if n != 0 {
      SqTimesAdd(a, b, n - 1);
      SqAdd(SqTimes(a, n - 1), SqTimes(b, n - 1));
    }
  }

  lemma {:induction false} SqTimesMul(a: Byte, b: Byte, n: nat)
    ensures SqTimes(Mul(a, b), n) == Mul(SqTimes(a, n), SqTimes(b, n))
    decreases n
  {
    if n != 0 {
      SqTimesMul(a, b, n - 1);
      SqMul(SqTimes(a, n - 1), SqTimes(b, n - 1));
    }
  }

  lemma {:induction false} SqTimesPow(v: Byte, n: nat)
    ensures SqTimes(v, n) == Pow(v, Pow2(n))
    decreases n
  {
    if n == 0 {
      PowOne(v);
    } else {
      SqTimesPow(v, n - 1);
      PowAdd(v, Pow2(n - 1), Pow2(n - 1));
    }
  }

  // ------------------------------------------- squaring, digit by digit

  datatype Digits = Digits(b0: bool, b1: bool, b2: bool, b3: bool, b4: bool, b5: bool, b6: bool, b7: bool)

  function DigitsOf(v: Byte): Digits {
    Digits(Bit(v, 0), Bit(v, 1), Bit(v, 2), Bit(v, 3), Bit(v, 4), Bit(v, 5), Bit(v, 6), Bit(v, 7))
  }

  lemma DigitsDetermine(a: Byte, b: Byte)
    requires DigitsOf(a) == DigitsOf(b)
    ensures a == b
  {
    assert Pow2(8) == 256;
    forall i | 0 <= i < 8 ensures Bit(a, i) == Bit(b, i) {
      assert i == 0 || i == 1 || i == 2 || i == 3 || i == 4 || i == 5 || i == 6 || i == 7;
    }
    BitsDetermine(a, b, 8);
  }

  function XorDigits(d: Digits, e: Digits): Digits {
    Digits(d.b0 != e.b0, d.b1 != e.b1, d.b2 != e.b2, d.b3 != e.b3,
           d.b4 != e.b4, d.b5 != e.b5, d.b6 != e.b6, d.b7 != e.b7)
  }

  lemma AddDigits(a: Byte, b: Byte)
    ensures DigitsOf(Add(a, b)) == XorDigits(DigitsOf(a), DigitsOf(b))
  {
    XorBit(a, b, 0); XorBit(a, b, 1); XorBit(a, b, 2); XorBit(a, b, 3);
    XorBit(a, b, 4); XorBit(a, b, 5); XorBit(a, b, 6); XorBit(a, b, 7);
  }

  function XtimeDigits(d: Digits): Digits {
    Digits(d.b7, d.b0 != d.b7, d.b1, d.b2 != d.b7, d.b3 != d.b7, d.b4, d.b5, d.b6)
  }

  lemma XtimeByDigits(v: Byte)
    ensures DigitsOf(Xtime(v)) == XtimeDigits(DigitsOf(v))
  {
    var d := 2 * v;
    TopDigit(v);
    assert d / 2 == v && d % 2 == 0;
    if v >= 0x80 {
      XorBit(d, MODULUS, 0); XorBit(d, MODULUS, 1); XorBit(d, MODULUS, 2); XorBit(d, MODULUS, 3);
      XorBit(d, MODULUS, 4); XorBit(d, MODULUS, 5); XorBit(d, MODULUS, 6); XorBit(d, MODULUS, 7);
    }
  }

  lemma TopDigit(v: Byte)
    ensures Bit(v, 7) == (v >= 0x80)
  {
    BitAt(v, 7);
    assert Pow2(7) == 128;
  }

  /** Horner's rule for squaring. */
  lemma SqHorner(v: Byte)
    ensures Sq(v) == Add(v % 2, Xtime(Xtime(Sq(v / 2))))
  {
    var half: Byte := v / 2;
    LowestDigit(v);
    assert Xtime(half) == 2 * half;
    SqAdd(v % 2, Xtime(half));
    MulTwo(half);
    SqMul(2, half);
    MulAssoc(2, 2, Sq(half));
    MulTwo(Sq(half));
    MulTwo(Mul(2, Sq(half)));
    MulOne(v % 2);
    MulZero(v % 2);
  }

  function SqDigits(d: Digits): Digits {
    Digits((d.b0 != d.b4) != d.b6, (d.b4 != d.b6) != d.b7, d.b1 != d.b5, ((d.b4 != d.b5) != d.b6) != d.b7,
           (d.b2 != d.b4) != d.b7, d.b5 != d.b6, d.b3 != d.b5, d.b6 != d.b7)
  }

  lemma {:induction false} SqByDigits(v: Byte, k: nat)
    requires v < Pow2(k)
    ensures DigitsOf(Sq(v)) == SqDigits(DigitsOf(v))
    decreases k
  {
    if v == 0 {
      MulZero(0);
    } else {
      var half: Byte := v / 2;
      SqByDigits(half, k - 1);
      SqHorner(v);
      XtimeByDigits(Sq(half));
      XtimeByDigits(Xtime(Sq(half)));
      AddDigits(v % 2, Xtime(Xtime(Sq(half))));
      LowDigits(v);
    }
  }

  lemma LowDigits(v: Byte)
    ensures DigitsOf(v % 2) == Digits(Bit(v, 0), false, false, false, false, false, false, false)
    ensures var d, e := DigitsOf(v / 2), DigitsOf(v);
      d == Digits(e.b1, e.b2, e.b3, e.b4, e.b5, e.b6, e.b7, false)
  {
    SingleDigit(v % 2);
    LowBit(v);
    HalfDigits(v, v / 2);
  }

  lemma HalfDigits(v: Byte, half: Byte)
    requires half == v / 2
    ensures var d, e := DigitsOf(half), DigitsOf(v);
      d == Digits(e.b1, e.b2, e.b3, e.b4, e.b5, e.b6, e.b7, false)
  {
    TopDigit(half);
    BitHalf(v, 0); BitHalf(v, 1); BitHalf(v, 2); BitHalf(v, 3); BitHalf(v, 4); BitHalf(v, 5); BitHalf(v, 6);
  }

  lemma SingleDigit(b: Byte)
    requires b <= 1
    ensures DigitsOf(b) == Digits(Bit(b, 0), false, false, false, false, false, false, false)
  {
    assert b / 2 == 0;
    ZeroBit(0); ZeroBit(1); ZeroBit(2); ZeroBit(3); ZeroBit(4); ZeroBit(5); ZeroBit(6);
  }

  lemma EightSquaringsOfTwo()
    ensures SqTimes(2, 8) == 2
  {
    assert Pow2(8) == 256;
    var v1 := Sq(2);   SqByDigits(2, 8);
    var v2 := Sq(v1);  SqByDigits(v1, 8);
    var v3 := Sq(v2);  SqByDigits(v2, 8);
    var v4 := Sq(v3);  SqByDigits(v3, 8);
    var v5 := Sq(v4);  SqByDigits(v4, 8);
    var v6 := Sq(v5);  SqByDigits(v5, 8);
    var v7 := Sq(v6);  SqByDigits(v6, 8);
    var v8 := Sq(v7);  SqByDigits(v7, 8);
    DigitsDetermine(v8, 2);
  }

  lemma {:induction false} SqTimesFixed(b: Byte, n: nat)
    requires b <= 1
    ensures SqTimes(b, n) == b
    decreases n
  {
    if n != 0 {
      SqTimesFixed(b, n - 1);
      MulOne(b);
      MulZero(b);
    }
  }

  /** The eighth power of the Frobenius map is the identity. */
  lemma {:induction false} EightSquarings(v: Byte)
    ensures SqTimes(v, 8) == v
    decreases v
  {
    if v <= 1 {
      SqTimesFixed(v, 8);
    } else {
      var half: Byte := v / 2;
      EightSquarings(half);
      EightSquaringsOfTwo();
      SqTimesMul(2, half, 8);
      MulTwo(half);
      assert Xtime(half) == 2 * half;
      LowestDigit(v);
      SqTimesAdd(v % 2, 2 * half, 8);
      SqTimesFixed(v % 2, 8);
    }
  }

  lemma Idempotent(e: Byte)
    requires Sq(e) == e
    ensures e <= 1
  {
    assert Pow2(8) == 256;
    SqByDigits(e, 8);
    var b: Byte := e % 2;
    LowDigits(e);
    assert Bit(b, 0) == Bit(e, 0);
    DigitsDetermine(e, b);
  }

  /** Every nonzero byte has order dividing 255. */
  lemma PowOrder(v: Byte)
    requires v != 0
    ensures Pow(v, 255) == 1
  {
    var e := Pow(v, 255);
    EightSquarings(v);
    SqTimesPow(v, 8);
    assert Pow2(8) == 256;
    PowAdd(v, 255, 255);
    PowAdd(v, 256, 254);
    PowAdd(v, 1, 254);
    PowOne(v);
    Idempotent(e);
    PowAdd(v, 1, 255);
    MulZero(v);
  }

  /** FIPS 197 section 4.2: the multiplicative inverse, with zero mapped to itself. */
  ghost predicate IsInverse(v: Byte, w: Byte) {
    if v == 0 then w == 0 else Mul(v, w) == 1
  }

  lemma InverseUnique(v: Byte, w: Byte, w': Byte)
    requires IsInverse(v, w) && IsInverse(v, w')
    ensures w == w'
  {
    if v != 0 {
      MulAssoc(w, v, w');
      MulComm(w, v);
      MulOne(w);
      MulOne(w');
    }
  }

  lemma PowInverse(v: Byte)
    ensures v != 0 ==> IsInverse(v, Pow(v, 254))
  {
    if v != 0 {
      PowOrder(v);
    }
  }
}
