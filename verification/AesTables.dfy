/** The field arithmetic and the lookup tables of BrowserAesCfb8, against FIPS 197. */
module AesTables {
  import opened Bits
  import opened Gf256
  import opened GfInverse
  import opened Fips197

  /** A Java int, as its unsigned 32-bit pattern. */
  type Word = x: nat | x < 0x1_0000_0000

  /** Four bytes shifted into place; they do not overlap, so the bitwise or is a sum. */
  function WordOf(c: Column): Word {
    ((c.r0 * 256 + c.r1) * 256 + c.r2) * 256 + c.r3
  }

  lemma {:induction false} ShiftAdd(h: nat, l: Byte, h': nat, l': Byte)
    ensures Xor(h * 256 + l, h' * 256 + l') == Xor(h, h') * 256 + Xor(l, l')
  {
    assert Pow2(8) == 256;
    assert Shl(h, 8) == h * 256 && Shl(h', 8) == h' * 256 && Shl(Xor(h, h'), 8) == Xor(h, h') * 256;
    XorSplit(h, l, h', l', 8);
  }

  lemma XorWord(a: Column, b: Column)
    ensures Xor(WordOf(a), WordOf(b)) == WordOf(AddColumn(a, b))
  {
    XorColumns(a, b, AddColumn(a, b));
  }

  lemma XorColumns(a: Column, b: Column, c: Column)
    requires Xor(a.r0, b.r0) == c.r0 && Xor(a.r1, b.r1) == c.r1 && Xor(a.r2, b.r2) == c.r2 && Xor(a.r3, b.r3) == c.r3
    ensures Xor(WordOf(a), WordOf(b)) == WordOf(c)
  {
    XorJoined(a.r0, a.r1, b.r0, b.r1, c.r0, c.r1);
    XorUpper(a.r0 * 256 + a.r1, a.r2, a.r3, b.r0 * 256 + b.r1, b.r2, b.r3, c.r0 * 256 + c.r1, c.r2, c.r3);
  }

  lemma XorUpper(h: nat, l: Byte, m: Byte, h': nat, l': Byte, m': Byte, high: nat, low: Byte, lowest: Byte)
    requires Xor(h, h') == high && Xor(l, l') == low && Xor(m, m') == lowest
    ensures Xor((h * 256 + l) * 256 + m, (h' * 256 + l') * 256 + m') == (high * 256 + low) * 256 + lowest
  {
    XorJoined(h, l, h', l', high, low);
    XorJoined(h * 256 + l, m, h' * 256 + l', m', high * 256 + low, lowest);
  }

  lemma XorJoined(h: nat, l: Byte, h': nat, l': Byte, high: nat, low: Byte)
    requires Xor(h, h') == high && Xor(l, l') == low
    ensures Xor(h * 256 + l, h' * 256 + l') == high * 256 + low
  {
    ShiftAdd(h, l, h', l');
  }

  // ------------------------------------------------- gfMultiply and gfPow

  method GfMultiply(left: Byte, right: Byte) returns (result: Byte)
    ensures result == Mul(left, right)
  {
    var sum: Byte, a: Byte, b: Byte := 0, left, right;
    PolyMulZero(0);
    MulZero(left);
    ghost var total := Mul(left, right);
    assert Add(0, total) == total;
    for bit := 0 to 8
      invariant b < Pow2(8 - bit)
      invariant Add(sum, Mul(a, b)) == total
    {
      MulStep(sum, a, b);
      if b % 2 == 1 {
        sum := Add(sum, a);
      }
      a := Xtime(a);
      b := b / 2;
    }
    MulZero(a);
    XorComm(sum, 0);
    return sum;
  }

  /** One digit of the multiplier moves into the running sum. */
  lemma MulStep(sum: Byte, a: Byte, b: Byte)
    ensures Add(sum, Mul(a, b)) == Add(if b % 2 == 1 then Add(sum, a) else sum, Mul(Xtime(a), b / 2))
  {
    var half: Byte := b / 2;
    LowestDigit(b);
    assert Xtime(half) == 2 * half;
    MulAdd(a, b % 2, 2 * half);
    MulTwo(half);
    MulTwo(a);
    MulAssoc(a, 2, half);
    MulComm(a, 2);
    MulOne(a);
    MulZero(a);
    XorAssoc(sum, a, Mul(Xtime(a), half));
  }

  method GfPow(value: Byte, exponent: int) returns (result: Byte)
    ensures result == Pow(value, if exponent < 0 then 0 else exponent)
  {
    result := 1;
    var factor, remaining := value, exponent;
    ghost var total := Pow(value, if exponent < 0 then 0 else exponent);
    MulOne(total);
    while remaining > 0
      invariant remaining > 0 ==> Mul(result, Pow(factor, remaining)) == total
      invariant remaining <= 0 ==> result == total
      decreases remaining
    {
      PowHalve(result, factor, remaining);
      if remaining % 2 != 0 {
        result := GfMultiply(result, factor);
      }
      factor := GfMultiply(factor, factor);
      remaining := remaining / 2;
      MulOne(result);
    }
  }

  lemma PowHalve(result: Byte, factor: Byte, remaining: nat)
    requires remaining > 0
    ensures Mul(result, Pow(factor, remaining))
         == Mul(if remaining % 2 != 0 then Mul(result, factor) else result, Pow(Sq(factor), remaining / 2))
  {
    var half := remaining / 2;
    PowSquare(factor, half);
    if remaining % 2 != 0 {
      PowOdd(factor, half);
      MulAssoc(result, factor, Pow(factor, 2 * half));
      assert remaining == 2 * half + 1;
    } else {
      assert remaining == 2 * half;
    }
  }

  lemma PowOdd(factor: Byte, half: nat)
    ensures Pow(factor, 2 * half + 1) == Mul(factor, Pow(factor, 2 * half))
  {
  }

  // ------------------------------------------------------------ the tables

  /** Rotation of a byte to the left; the two shifted parts do not overlap. */
  function RotateByte(value: Byte, amount: nat): Byte
    requires 1 <= amount <= 4
  {
    RotateBounds(value);
    match amount
    case 1 => value * 2 % 256 + value / 128
    case 2 => value * 4 % 256 + value / 64
    case 3 => value * 8 % 256 + value / 32
    case 4 => value * 16 % 256 + value / 16
  }

  function RotateDigits(d: Digits): Digits {
    Digits(d.b7, d.b0, d.b1, d.b2, d.b3, d.b4, d.b5, d.b6)
  }

  lemma DigitsRoundTrip(d: Digits)
    ensures DigitsOf(FromDigits(d)) == d
  {
    var high := Nibble(d.b4, d.b5, d.b6, d.b7);
    NibbleDigits(d.b4, d.b5, d.b6, d.b7);
    PrependFour(high, d.b0, d.b1, d.b2, d.b3);
    PrependWeights(high, d);
  }

  lemma PrependFour(high: nat, b0: bool, b1: bool, b2: bool, b3: bool)
    requires high < 16
    ensures var h := DigitsOf(high);
      DigitsOf(Prepend(Prepend(Prepend(Prepend(high, b3), b2), b1), b0))
        == Digits(b0, b1, b2, b3, h.b0, h.b1, h.b2, h.b3)
  {
    var v3 := Prepend(high, b3);
    var v2 := Prepend(v3, b2);
    var v1 := Prepend(v2, b1);
    PrependDigits(high, b3);
    PrependDigits(v3, b2);
    PrependDigits(v2, b1);
    PrependDigits(v1, b0);
  }

  function Nibble(b0: bool, b1: bool, b2: bool, b3: bool): (n: nat)
    ensures n < 16
  {
    Weight(b0) + 2 * Weight(b1) + 4 * Weight(b2) + 8 * Weight(b3)
  }

  lemma NibbleDigits(b0: bool, b1: bool, b2: bool, b3: bool)
    ensures DigitsOf(Nibble(b0, b1, b2, b3)) == Digits(b0, b1, b2, b3, false, false, false, false)
  {
    var v3: Byte := Weight(b3);
    var v2 := Prepend(v3, b2);
    var v1 := Prepend(v2, b1);
    SingleDigit(v3);
    PrependDigits(v3, b2);
    PrependDigits(v2, b1);
    PrependDigits(v1, b0);
  }

  lemma PrependWeights(high: nat, d: Digits)
    requires high == Nibble(d.b4, d.b5, d.b6, d.b7)
    ensures Prepend(Prepend(Prepend(Prepend(high, d.b3), d.b2), d.b1), d.b0) == FromDigits(d)
  {
  }

  function Prepend(v: nat, b: bool): nat { 2 * v + Weight(b) }

  lemma PrependDigits(v: Byte, b: bool)
    requires v < 128
    ensures var d := DigitsOf(v);
      DigitsOf(Prepend(v, b)) == Digits(b, d.b0, d.b1, d.b2, d.b3, d.b4, d.b5, d.b6)
  {
    HalfDigits(Prepend(v, b), v);
  }

  lemma FromDigitsOf(v: Byte)
    ensures FromDigits(DigitsOf(v)) == v
  {
    DigitsRoundTrip(DigitsOf(v));
    DigitsDetermine(FromDigits(DigitsOf(v)), v);
  }

  lemma RotateBounds(v: Byte)
    ensures v * 2 % 256 + v / 128 < 256 && v * 4 % 256 + v / 64 < 256
    ensures v * 8 % 256 + v / 32 < 256 && v * 16 % 256 + v / 16 < 256
  {
    RotateSum(v, 2, 128);
    RotateSum(v, 4, 64);
    RotateSum(v, 8, 32);
    RotateSum(v, 16, 16);
  }

  /** With its high part moved below its low part a byte stays a byte. */
  lemma RotateSum(v: Byte, up: nat, down: nat)
    requires (up == 2 && down == 128) || (up == 4 && down == 64) || (up == 8 && down == 32) || (up == 16 && down == 16)
    ensures v * up % 256 == v % down * up && v / down < up && v * up % 256 + v / down < 256
  {
    var hi, lo := v / down, v % down;
    assert v == down * hi + lo;
    DivUnique(v * up, 256, hi, lo * up);
  }

  /** Rotation moves the high part of a byte below its low part. */
  lemma RotateParts(hi: nat, lo: nat)
    ensures hi < 2 && lo < 128 ==> RotateByte(hi * 128 + lo, 1) == lo * 2 + hi
    ensures hi < 4 && lo < 64 ==> RotateByte(hi * 64 + lo, 2) == lo * 4 + hi
    ensures hi < 8 && lo < 32 ==> RotateByte(hi * 32 + lo, 3) == lo * 8 + hi
    ensures hi < 16 && lo < 16 ==> RotateByte(hi * 16 + lo, 4) == lo * 16 + hi
  {
    if hi < 2 && lo < 128 { DivUnique(hi * 128 + lo, 128, hi, lo); DivUnique(hi * 256 + lo * 2, 256, hi, lo * 2); }
    if hi < 4 && lo < 64 { DivUnique(hi * 64 + lo, 64, hi, lo); DivUnique(hi * 256 + lo * 4, 256, hi, lo * 4); }
    if hi < 8 && lo < 32 { DivUnique(hi * 32 + lo, 32, hi, lo); DivUnique(hi * 256 + lo * 8, 256, hi, lo * 8); }
    if hi < 16 && lo < 16 { DivUnique(hi * 16 + lo, 16, hi, lo); DivUnique(hi * 256 + lo * 16, 256, hi, lo * 16); }
  }

  lemma RotateByDigits(v: Byte)
    ensures DigitsOf(RotateByte(v, 1)) == RotateDigits(DigitsOf(v))
  {
    var d := DigitsOf(v);
    FromDigitsOf(v);
    RotateWeights(d);
    DigitsRoundTrip(RotateDigits(d));
  }

  lemma RotateWeights(d: Digits)
    ensures RotateByte(FromDigits(d), 1) == FromDigits(RotateDigits(d))
  {
    var lo := Weight(d.b0) + 2 * Weight(d.b1) + 4 * Weight(d.b2) + 8 * Weight(d.b3)
      + 16 * Weight(d.b4) + 32 * Weight(d.b5) + 64 * Weight(d.b6);
    assert FromDigits(d) == Weight(d.b7) * 128 + lo;
    assert FromDigits(RotateDigits(d)) == lo * 2 + Weight(d.b7);
    RotateParts(Weight(d.b7), lo);
  }

  lemma RotateAgain(v: Byte)
    ensures RotateByte(v, 2) == RotateByte(RotateByte(v, 1), 1)
    ensures RotateByte(v, 3) == RotateByte(RotateByte(v, 2), 1)
    ensures RotateByte(v, 4) == RotateByte(RotateByte(v, 3), 1)
  {
    RotateSplit2(v / 64, v % 64);
    RotateSplit3(v / 32, v % 32);
    RotateSplit4(v / 16, v % 16);
  }

  lemma RotateSplit2(hi: nat, lo: nat)
    requires hi < 4 && lo < 64
    ensures RotateByte(hi * 64 + lo, 2) == RotateByte(RotateByte(hi * 64 + lo, 1), 1)
  {
    RotateParts(hi, lo);
    RotateParts(hi / 2, hi % 2 * 64 + lo);
    RotateParts(hi % 2, lo * 2 + hi / 2);
  }

  lemma RotateSplit3(hi: nat, lo: nat)
    requires hi < 8 && lo < 32
    ensures RotateByte(hi * 32 + lo, 3) == RotateByte(RotateByte(hi * 32 + lo, 2), 1)
  {
    RotateParts(hi, lo);
    RotateParts(hi / 2, hi % 2 * 32 + lo);
    RotateParts(hi % 2, lo * 4 + hi / 2);
  }

  lemma RotateSplit4(hi: nat, lo: nat)
    requires hi < 16 && lo < 16
    ensures RotateByte(hi * 16 + lo, 4) == RotateByte(RotateByte(hi * 16 + lo, 3), 1)
  {
    RotateParts(hi, lo);
    RotateParts(hi / 2, hi % 2 * 16 + lo);
    RotateParts(hi % 2, lo * 8 + hi / 2);
  }

  function Substituted(inverse: Byte): Byte {
    Add(Add(Add(Add(Add(inverse, RotateByte(inverse, 1)), RotateByte(inverse, 2)), RotateByte(inverse, 3)),
            RotateByte(inverse, 4)), 0x63)
  }

  /** The exclusive or of the rotations is the affine map. */
  lemma SubstitutedIsAffine(v: Byte)
    ensures Substituted(v) == FromDigits(Affine(DigitsOf(v)))
  {
    var d := DigitsOf(v);
    RotationDigits(v);
    var s1 := Add(v, RotateByte(v, 1));
    var s2 := Add(s1, RotateByte(v, 2));
    var s3 := Add(s2, RotateByte(v, 3));
    var s4 := Add(s3, RotateByte(v, 4));
    AddDigits(v, RotateByte(v, 1));
    AddDigits(s1, RotateByte(v, 2));
    AddDigits(s2, RotateByte(v, 3));
    AddDigits(s3, RotateByte(v, 4));
    AddDigits(s4, 0x63);
    ConstantDigits();
    AffineByRotation(d);
    FromDigitsOf(Add(s4, 0x63));
  }

  lemma RotationDigits(v: Byte)
    ensures var d := DigitsOf(v);
      && DigitsOf(RotateByte(v, 1)) == RotateDigits(d)
      && DigitsOf(RotateByte(v, 2)) == RotateDigits(RotateDigits(d))
      && DigitsOf(RotateByte(v, 3)) == RotateDigits(RotateDigits(RotateDigits(d)))
      && DigitsOf(RotateByte(v, 4)) == RotateDigits(RotateDigits(RotateDigits(RotateDigits(d))))
  {
    RotateAgain(v);
    RotateByDigits(v);
    RotateByDigits(RotateByte(v, 1));
    RotateByDigits(RotateByte(v, 2));
    RotateByDigits(RotateByte(v, 3));
  }

  const AFFINE_CONSTANT := Digits(true, true, false, false, false, true, true, false)

  lemma AffineByRotation(d: Digits)
    ensures var r1 := RotateDigits(d);
      var r2 := RotateDigits(r1);
      var r3 := RotateDigits(r2);
      var r4 := RotateDigits(r3);
      XorDigits(XorDigits(XorDigits(XorDigits(XorDigits(d, r1), r2), r3), r4), AFFINE_CONSTANT) == Affine(d)
  {
    RotatedSums(d);
    AffineOfSums(d, Digits(
      Sum5(d.b0, d.b7, d.b6, d.b5, d.b4), Sum5(d.b1, d.b0, d.b7, d.b6, d.b5),
      Sum5(d.b2, d.b1, d.b0, d.b7, d.b6), Sum5(d.b3, d.b2, d.b1, d.b0, d.b7),
      Sum5(d.b4, d.b3, d.b2, d.b1, d.b0), Sum5(d.b5, d.b4, d.b3, d.b2, d.b1),
      Sum5(d.b6, d.b5, d.b4, d.b3, d.b2), Sum5(d.b7, d.b6, d.b5, d.b4, d.b3)));
  }

  lemma AffineOfSums(d: Digits, sums: Digits)
    requires sums.b0 == Sum5(d.b0, d.b7, d.b6, d.b5, d.b4) && sums.b1 == Sum5(d.b1, d.b0, d.b7, d.b6, d.b5)
    requires sums.b2 == Sum5(d.b2, d.b1, d.b0, d.b7, d.b6) && sums.b3 == Sum5(d.b3, d.b2, d.b1, d.b0, d.b7)
    requires sums.b4 == Sum5(d.b4, d.b3, d.b2, d.b1, d.b0) && sums.b5 == Sum5(d.b5, d.b4, d.b3, d.b2, d.b1)
    requires sums.b6 == Sum5(d.b6, d.b5, d.b4, d.b3, d.b2) && sums.b7 == Sum5(d.b7, d.b6, d.b5, d.b4, d.b3)
    ensures XorDigits(sums, AFFINE_CONSTANT) == Affine(d)
  {
    Sum5Reversed(d.b0, d.b7, d.b6, d.b5, d.b4);
    Sum5Reversed(d.b1, d.b0, d.b7, d.b6, d.b5);
    Sum5Reversed(d.b2, d.b1, d.b0, d.b7, d.b6);
    Sum5Reversed(d.b3, d.b2, d.b1, d.b0, d.b7);
    Sum5Reversed(d.b4, d.b3, d.b2, d.b1, d.b0);
    Sum5Reversed(d.b5, d.b4, d.b3, d.b2, d.b1);
    Sum5Reversed(d.b6, d.b5, d.b4, d.b3, d.b2);
    Sum5Reversed(d.b7, d.b6, d.b5, d.b4, d.b3);
  }

  lemma Sum5Reversed(a: bool, b: bool, c: bool, d: bool, e: bool)
    ensures Sum5(a, b, c, d, e) == Sum5(a, e, d, c, b)
  {
  }

  lemma RotatedSums(d: Digits)
    ensures var r1 := RotateDigits(d);
      var r2 := RotateDigits(r1);
      var r3 := RotateDigits(r2);
      var r4 := RotateDigits(r3);
      XorDigits(XorDigits(XorDigits(XorDigits(d, r1), r2), r3), r4) == Digits(
        Sum5(d.b0, d.b7, d.b6, d.b5, d.b4), Sum5(d.b1, d.b0, d.b7, d.b6, d.b5),
        Sum5(d.b2, d.b1, d.b0, d.b7, d.b6), Sum5(d.b3, d.b2, d.b1, d.b0, d.b7),
        Sum5(d.b4, d.b3, d.b2, d.b1, d.b0), Sum5(d.b5, d.b4, d.b3, d.b2, d.b1),
        Sum5(d.b6, d.b5, d.b4, d.b3, d.b2), Sum5(d.b7, d.b6, d.b5, d.b4, d.b3))
  {
  }

  lemma ConstantDigits()
    ensures DigitsOf(0x63) == AFFINE_CONSTANT
  {
    DigitsRoundTrip(AFFINE_CONSTANT);
  }

  lemma SubstitutedIsSbox(v: Byte)
    ensures Substituted(if v == 0 then 0 else Pow(v, 254)) == Sbox(v)
  {
    var w: Byte := if v == 0 then 0 else Pow(v, 254);
    PowInverse(v);
    InverseUnique(v, w, Inverse(v));
    SubstitutedIsAffine(w);
  }

  // Column k of the MixColumns matrix, times one substituted byte.
  function Te0(s: Byte): Column { Column(Mul(2, s), s, s, Mul(3, s)) }
  function Te1(s: Byte): Column { Column(Mul(3, s), Mul(2, s), s, s) }
  function Te2(s: Byte): Column { Column(s, Mul(3, s), Mul(2, s), s) }
  function Te3(s: Byte): Column { Column(s, s, Mul(3, s), Mul(2, s)) }

  /** The substituted byte of one table index and its products by {02} and {03}. */
  method Entry(value: Byte) returns (s: Byte, s2: Byte, s3: Byte)
    ensures s == Sbox(value) && s2 == Mul(2, s) && s3 == Mul(3, s)
  {
    var inverse: Byte := 0;
    if value != 0 {
      inverse := GfPow(value, 254);
    }
    SubstitutedIsSbox(value);
    s := Substituted(inverse);
    MulTwo(s);
    s2 := Xtime(s);
    s3 := Add(s2, s);
  }

  predicate Looked(v: Byte) { true }

  /** The static tables, filled once by the loop of the class initializer. */
  class Tables {
    const sbox: array<Byte>
    const te0: array<Word>
    const te1: array<Word>
    const te2: array<Word>
    const te3: array<Word>
    ghost const sub: SubTable
    /** What the four word tables are to hold. */
    ghost const words0: seq<Word>
    ghost const words1: seq<Word>
    ghost const words2: seq<Word>
    ghost const words3: seq<Word>

    /** The words are the column products; instantiated where Looked is mentioned. */
    ghost predicate WordsRight()
      reads this
    {
      && |words0| == |words1| == |words2| == |words3| == 256
      && forall v: Byte {:trigger Looked(v)} ::
           && words0[v] == WordOf(Te0(sub[v])) && words1[v] == WordOf(Te1(sub[v]))
           && words2[v] == WordOf(Te2(sub[v])) && words3[v] == WordOf(Te3(sub[v]))
    }

    ghost predicate FilledBelow(n: nat)
      requires n <= 256
      reads this, sbox, te0, te1, te2, te3
    {
      && WordsRight()
      && sbox.Length == te0.Length == te1.Length == te2.Length == te3.Length == 256
      && (forall v: Byte {:trigger sbox[v]} :: v < n ==> sbox[v] == sub[v])
      && (forall v: Byte {:trigger te0[v]} :: v < n ==> te0[v] == words0[v])
      && (forall v: Byte {:trigger te1[v]} :: v < n ==> te1[v] == words1[v])
      && (forall v: Byte {:trigger te2[v]} :: v < n ==> te2[v] == words2[v])
      && (forall v: Byte {:trigger te3[v]} :: v < n ==> te3[v] == words3[v])
    }

    ghost predicate Valid()
      reads this, sbox, te0, te1, te2, te3
    {
      FilledBelow(256)
    }

    method Lookup(i0: Byte, i1: Byte, i2: Byte, i3: Byte) returns (x0: Word, x1: Word, x2: Word, x3: Word)
      requires Valid()
      ensures x0 == WordOf(Te0(sub[i0])) && x1 == WordOf(Te1(sub[i1]))
      ensures x2 == WordOf(Te2(sub[i2])) && x3 == WordOf(Te3(sub[i3]))
    {
      assert Looked(i0) && Looked(i1) && Looked(i2) && Looked(i3);
      x0, x1, x2, x3 := te0[i0], te1[i1], te2[i2], te3[i3];
    }

    /** One iteration of the class initializer. */
    method Store(value: Byte, s: Byte, s2: Byte, s3: Byte)
      requires FilledBelow(value) && Apart()
      requires s == sub[value] && s2 == Mul(2, s) && s3 == Mul(3, s)
      modifies sbox, te0, te1, te2, te3
      ensures FilledBelow(value + 1)
    {
      assert Looked(value);
      sbox[value] := s;
      te0[value] := WordOf(Column(s2, s, s, s3));
      te1[value] := WordOf(Column(s3, s2, s, s));
      te2[value] := WordOf(Column(s, s3, s2, s));
      te3[value] := WordOf(Column(s, s, s3, s2));
    }

    ghost predicate Apart()
      reads this
    {
      && te0 != te1 && te0 != te2 && te0 != te3 && te1 != te2 && te1 != te3 && te2 != te3
      && var s: object := sbox; s != te0 && s != te1 && s != te2 && s != te3
    }

    constructor ()
      ensures Valid() && sub == SboxTable()
      ensures fresh(sbox) && fresh(te0) && fresh(te1) && fresh(te2) && fresh(te3)
    {
      sbox, te0, te1, te2, te3 := new Byte[256], new Word[256], new Word[256], new Word[256], new Word[256];
      sub := SboxTable();
      words0 := seq(256, v requires 0 <= v < 256 => WordOf(Te0(SboxTable()[v])));
      words1 := seq(256, v requires 0 <= v < 256 => WordOf(Te1(SboxTable()[v])));
      words2 := seq(256, v requires 0 <= v < 256 => WordOf(Te2(SboxTable()[v])));
      words3 := seq(256, v requires 0 <= v < 256 => WordOf(Te3(SboxTable()[v])));
      new;
      for value := 0 to 256
        invariant Apart()
        invariant fresh(sbox) && fresh(te0) && fresh(te1) && fresh(te2) && fresh(te3)
        invariant FilledBelow(value)
      {
        var s, s2, s3 := Entry(value);
        Store(value, s, s2, s3);
      }
    }
  }

  /** One column of a full round from four table lookups (section 5.1 with MixColumns folded in). */
  lemma TableColumn(a: Byte, b: Byte, c: Byte, d: Byte, k: Column)
    ensures Xor(Xor(Xor(Xor(WordOf(Te0(a)), WordOf(Te1(b))), WordOf(Te2(c))), WordOf(Te3(d))), WordOf(k))
         == WordOf(AddColumn(MixColumn(Column(a, b, c, d)), k))
  {
    var ab := AddColumn(Te0(a), Te1(b));
    var abc := AddColumn(ab, Te2(c));
    var abcd := AddColumn(abc, Te3(d));
    XorWord(Te0(a), Te1(b));
    XorWord(ab, Te2(c));
    XorWord(abc, Te3(d));
    XorWord(abcd, k);
    assert abcd == MixColumn(Column(a, b, c, d));
  }

  lemma WordBytes(c: Column)
    ensures WordOf(c) / 0x1_000000 == c.r0
    ensures WordOf(c) / 0x1_0000 % 0x100 == c.r1
    ensures WordOf(c) / 0x100 % 0x100 == c.r2
    ensures WordOf(c) % 0x100 == c.r3
  {
    var high := c.r0 * 0x100 + c.r1;
    var upper := high * 0x100 + c.r2;
    var w := WordOf(c);
    DivUnique(w, 0x1_000000, c.r0, c.r1 * 0x1_0000 + c.r2 * 0x100 + c.r3);
    DivUnique(w, 0x1_0000, high, c.r2 * 0x100 + c.r3);
    DivUnique(high, 0x100, c.r0, c.r1);
    DivUnique(w, 0x100, upper, c.r3);
    DivUnique(upper, 0x100, high, c.r2);
  }
}
