/**
 Bitwise operations on natural numbers, one binary digit at a time.
 A machine word of any width is a natural number below a power of two; a bit-vector
 operation on it is the unbounded operation below, and a left shift is a product by a power of two.
 */
module Bits {

  function Pow2(k: nat): (p: nat)
    ensures p >= 1
  {
    if k == 0 then 1 else 2 * Pow2(k - 1)
  }

  /** Left shift by k digits. */
  function Shl(a: nat, k: nat): nat
    decreases k
  {
    if k == 0 then a else 2 * Shl(a, k - 1)
  }

  /** Exclusive or. */
  function Xor(a: nat, b: nat): nat
    decreases a
  {
    if a == 0 then b
    else if b == 0 then a
    else Differ(a, b) + 2 * Xor(a / 2, b / 2)
  }

  /** Exclusive or of the lowest digits. */
  function Differ(a: nat, b: nat): (d: nat)
    ensures d <= 1
  {
    if a % 2 == b % 2 then 0 else 1
  }

  predicate Bit(a: nat, i: nat) {
    if i == 0 then a % 2 == 1 else Bit(a / 2, i - 1)
  }

  lemma {:induction false} XorUnfold(a: nat, b: nat)
    ensures Xor(a, b) == Differ(a, b) + 2 * Xor(a / 2, b / 2)
    ensures Xor(a, b) % 2 == Differ(a, b)
    ensures Xor(a, b) / 2 == Xor(a / 2, b / 2)
  {
    var rest := Xor(a / 2, b / 2);
    if a == 0 {
      assert Xor(a, b) == b && rest == b / 2;
    } else if b == 0 {
      assert Xor(a, b) == a && rest == a / 2;
    }
    Digit(Differ(a, b), rest);
  }

  lemma Digit(d: nat, x: nat)
    requires d <= 1
    ensures (d + 2 * x) % 2 == d && (d + 2 * x) / 2 == x
  {
  }

  lemma {:induction false} XorComm(a: nat, b: nat)
    ensures Xor(a, b) == Xor(b, a)
    decreases a
  {
    if a != 0 && b != 0 { XorComm(a / 2, b / 2); }
  }

  lemma {:induction false} XorAssoc(a: nat, b: nat, c: nat)
    ensures Xor(Xor(a, b), c) == Xor(a, Xor(b, c))
    decreases a
  {
    if a != 0 {
      XorUnfold(a, b);
      XorUnfold(b, c);
      XorUnfold(Xor(a, b), c);
      XorUnfold(a, Xor(b, c));
      XorAssoc(a / 2, b / 2, c / 2);
    }
  }

  lemma {:induction false} XorLower(a: nat, b: nat)
    ensures Xor(a, b) + a >= b
    decreases a
  {
    if a != 0 {
      XorUnfold(a, b);
      XorLower(a / 2, b / 2);
    }
  }

  lemma {:induction false} XorSelf(a: nat)
    ensures Xor(a, a) == 0
  {
    if a != 0 { XorSelf(a / 2); }
  }

  /** The middle two of four terms change places. */
  lemma XorSwap(a: nat, b: nat, c: nat, d: nat)
    ensures Xor(Xor(a, b), Xor(c, d)) == Xor(Xor(a, c), Xor(b, d))
  {
    XorAssoc(a, b, Xor(c, d));
    XorAssoc(b, c, d);
    XorComm(b, c);
    XorAssoc(c, b, d);
    XorAssoc(a, c, Xor(b, d));
  }

  lemma {:induction false} XorDouble(a: nat, b: nat)
    ensures Xor(2 * a, 2 * b) == 2 * Xor(a, b)
  {
    XorUnfold(2 * a, 2 * b);
  }

  lemma {:induction false} XorBound(a: nat, b: nat, k: nat)
    requires a < Pow2(k) && b < Pow2(k)
    ensures Xor(a, b) < Pow2(k)
    decreases k
  {
    if k != 0 { XorBound(a / 2, b / 2, k - 1); }
  }

  /** Exclusive or acts on the parts above and below any digit position separately. */
  lemma {:induction false} XorSplit(h: nat, l: nat, h': nat, l': nat, k: nat)
    requires l < Pow2(k) && l' < Pow2(k)
    ensures Xor(l, l') < Pow2(k)
    ensures Xor(Shl(h, k) + l, Shl(h', k) + l') == Shl(Xor(h, h'), k) + Xor(l, l')
    decreases k
  {
    XorBound(l, l', k);
    if k != 0 {
      XorSplit(h, l / 2, h', l' / 2, k - 1);
      XorSplitStep(h, l, h', l', k);
    }
  }

  lemma XorSplitStep(h: nat, l: nat, h': nat, l': nat, k: nat)
    requires k > 0
    requires Xor(Shl(h, k - 1) + l / 2, Shl(h', k - 1) + l' / 2) == Shl(Xor(h, h'), k - 1) + Xor(l / 2, l' / 2)
    ensures Xor(Shl(h, k) + l, Shl(h', k) + l') == Shl(Xor(h, h'), k) + Xor(l, l')
  {
    XorStep(Shl(h, k - 1), l, Shl(h', k - 1), l', Shl(Xor(h, h'), k - 1));
  }

  /** One digit of XorSplit: the high parts x and y have exclusive or r. */
  lemma XorStep(x: nat, l: nat, y: nat, l': nat, r: nat)
    requires Xor(x + l / 2, y + l' / 2) == r + Xor(l / 2, l' / 2)
    ensures Xor(2 * x + l, 2 * y + l') == 2 * r + Xor(l, l')
  {
    Digit(l % 2, x + l / 2);
    Digit(l' % 2, y + l' / 2);
    assert 2 * x + l == l % 2 + 2 * (x + l / 2);
    assert 2 * y + l' == l' % 2 + 2 * (y + l' / 2);
    XorUnfold(2 * x + l, 2 * y + l');
    XorUnfold(l, l');
  }

  lemma {:induction false} XorBit(a: nat, b: nat, i: nat)
    ensures Bit(Xor(a, b), i) == (Bit(a, i) != Bit(b, i))
    decreases i
  {
    XorUnfold(a, b);
    if i != 0 { XorBit(a / 2, b / 2, i - 1); }
  }

  /** A byte is determined by its digits. */
  lemma {:induction false} BitsDetermine(a: nat, b: nat, k: nat)
    requires a < Pow2(k) && b < Pow2(k)
    requires forall i :: 0 <= i < k ==> Bit(a, i) == Bit(b, i)
    ensures a == b
    decreases k
  {
    if k != 0 {
      assert Bit(a, 0) == Bit(b, 0);
      forall i | 0 <= i < k - 1 ensures Bit(a / 2, i) == Bit(b / 2, i) {
        assert Bit(a, i + 1) == Bit(b, i + 1);
      }
      BitsDetermine(a / 2, b / 2, k - 1);
    }
  }

  lemma {:induction false} ZeroBit(i: nat)
    ensures !Bit(0, i)
  {
    if i != 0 { ZeroBit(i - 1); }
  }

  /** A digit is the parity of the number shifted right. */
  lemma {:induction false} BitAt(a: nat, i: nat)
    ensures Bit(a, i) == (a / Pow2(i) % 2 == 1)
    decreases i
  {
    if i != 0 {
      BitAt(a / 2, i - 1);
      DivTwice(a, Pow2(i - 1));
    }
  }

  lemma DivTwice(a: nat, p: nat)
    requires p >= 1
    ensures a / 2 / p == a / (2 * p)
  {
    var q := a / 2 / p;
    var r := a / 2 - q * p;
    assert 0 <= r < p;
    assert a == 2 * p * q + (2 * r + a % 2);
    DivUnique(a, 2 * p, q, 2 * r + a % 2);
  }

  lemma DivUnique(a: nat, d: nat, q: nat, r: nat)
    requires d >= 1 && r < d && a == d * q + r
    ensures a / d == q && a % d == r
  {
    QuotientUnique(d, q, r, a / d, a % d);
  }

  lemma QuotientUnique(d: nat, q: int, r: nat, q': int, r': nat)
    requires r < d && r' < d && d * q + r == d * q' + r'
    ensures q == q' && r == r'
  {
    var k := q - q';
    assert d * k == d * q - d * q';
    if k != 0 { ProductLarge(d, k); }
  }

  lemma ProductLarge(d: int, k: int)
    requires k != 0 && d >= 0
    ensures d * k >= d || d * k <= -d
  {
    if k >= 1 {
      Times(d, k);
    } else {
      Times(d, -k);
      assert d * (-k) == -(d * k);
    }
  }

  lemma {:induction false} Times(d: int, k: int)
    requires k >= 1 && d >= 0
    ensures d * k >= d
    decreases k
  {
    if k > 1 {
      Times(d, k - 1);
      assert d * k == d * (k - 1) + d;
    }
  }

  lemma BitHalf(a: nat, i: nat)
    ensures Bit(a, i + 1) == Bit(a / 2, i)
  {
  }

  lemma LowBit(a: nat)
    ensures Bit(a % 2, 0) == Bit(a, 0)
  {
  }
}
