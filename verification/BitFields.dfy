/** Masks and fields of machine words: conjunction, disjunction, and the bits at a given offset. */
module BitFields {
  import opened Bits

  function And(a: nat, b: nat): nat
    decreases a
  {
    if a == 0 || b == 0 then 0 else Both(a, b) + 2 * And(a / 2, b / 2)
  }

  function Or(a: nat, b: nat): nat
    decreases a
  {
    if a == 0 then b else if b == 0 then a else Either(a, b) + 2 * Or(a / 2, b / 2)
  }

  function Both(a: nat, b: nat): (d: nat) ensures d <= 1 { if a % 2 == 1 && b % 2 == 1 then 1 else 0 }

  function Either(a: nat, b: nat): (d: nat) ensures d <= 1 { if a % 2 == 1 || b % 2 == 1 then 1 else 0 }

  lemma AndUnfold(a: nat, b: nat)
    ensures And(a, b) == Both(a, b) + 2 * And(a / 2, b / 2)
  {
    if a == 0 {
      assert And(a / 2, b / 2) == 0;
    } else if b == 0 {
      assert And(a / 2, b / 2) == 0;
    }
  }

  lemma OrUnfold(a: nat, b: nat)
    ensures Or(a, b) == Either(a, b) + 2 * Or(a / 2, b / 2)
  {
    if a == 0 {
      assert Or(a / 2, b / 2) == b / 2;
    } else if b == 0 {
      assert Or(a / 2, b / 2) == a / 2;
    }
  }

  lemma AndStep(x: nat, l: nat, y: nat, l': nat, r: nat)
    requires And(x + l / 2, y + l' / 2) == r + And(l / 2, l' / 2)
    ensures And(2 * x + l, 2 * y + l') == 2 * r + And(l, l')
  {
    Digit(l % 2, x + l / 2);
    Digit(l' % 2, y + l' / 2);
    assert 2 * x + l == l % 2 + 2 * (x + l / 2);
    assert 2 * y + l' == l' % 2 + 2 * (y + l' / 2);
    AndUnfold(2 * x + l, 2 * y + l');
    AndUnfold(l, l');
  }

  lemma OrStep(x: nat, l: nat, y: nat, l': nat, r: nat)
    requires Or(x + l / 2, y + l' / 2) == r + Or(l / 2, l' / 2)
    ensures Or(2 * x + l, 2 * y + l') == 2 * r + Or(l, l')
  {
    Digit(l % 2, x + l / 2);
    Digit(l' % 2, y + l' / 2);
    assert 2 * x + l == l % 2 + 2 * (x + l / 2);
    assert 2 * y + l' == l' % 2 + 2 * (y + l' / 2);
    OrUnfold(2 * x + l, 2 * y + l');
    OrUnfold(l, l');
  }

  /** Conjunction acts on the parts above and below any digit position separately. */
  lemma {:induction false} AndSplit(h: nat, l: nat, h': nat, l': nat, k: nat)
    requires l < Pow2(k) && l' < Pow2(k)
    ensures And(Shl(h, k) + l, Shl(h', k) + l') == Shl(And(h, h'), k) + And(l, l')
    decreases k
  {
    if k != 0 {
      var x, y, r := Shl(h, k - 1), Shl(h', k - 1), Shl(And(h, h'), k - 1);
      AndSplit(h, l / 2, h', l' / 2, k - 1);
      assert Shl(h, k) == 2 * x && Shl(h', k) == 2 * y && Shl(And(h, h'), k) == 2 * r;
      AndStep(x, l, y, l', r);
    }
  }

  lemma {:induction false} OrSplit(h: nat, l: nat, h': nat, l': nat, k: nat)
    requires l < Pow2(k) && l' < Pow2(k)
    ensures Or(Shl(h, k) + l, Shl(h', k) + l') == Shl(Or(h, h'), k) + Or(l, l')
    decreases k
  {
    if k != 0 {
      var x, y, r := Shl(h, k - 1), Shl(h', k - 1), Shl(Or(h, h'), k - 1);
      OrSplit(h, l / 2, h', l' / 2, k - 1);
      assert Shl(h, k) == 2 * x && Shl(h', k) == 2 * y && Shl(Or(h, h'), k) == 2 * r;
      OrStep(x, l, y, l', r);
    }
  }

  /** The number with k ones. */
  function Ones(k: nat): nat {
    Pow2(k) - 1
  }

  /** Right shift, filling with zeros. */
  function Shr(a: nat, k: nat): nat
    decreases k
  {
    if k == 0 then a else Shr(a / 2, k - 1)
  }

  /** The lowest k digits. */
  function Low(a: nat, k: nat): nat
    decreases k
  {
    if k == 0 then 0 else a % 2 + 2 * Low(a / 2, k - 1)
  }

  lemma {:induction false} LowBound(a: nat, k: nat)
    ensures Low(a, k) < Pow2(k)
    decreases k
  {
    if k != 0 { LowBound(a / 2, k - 1); }
  }

  lemma {:induction false} AndOnes(a: nat, k: nat)
    ensures And(a, Ones(k)) == Low(a, k)
    decreases k
  {
    if k != 0 {
      AndUnfold(a, Ones(k));
      AndOnes(a / 2, k - 1);
      Digit(1, Ones(k - 1));
    }
  }

  lemma {:induction false} OrZero(a: nat)
    ensures Or(a, 0) == a && Or(0, a) == a
  {
  }

  /** A number is its high digits above its low digits. */
  lemma {:induction false} Recompose(a: nat, k: nat)
    ensures a == Shl(Shr(a, k), k) + Low(a, k)
    decreases k
  {
    if k != 0 { Recompose(a / 2, k - 1); }
  }

  lemma {:induction false} Decompose(h: nat, l: nat, k: nat)
    requires l < Pow2(k)
    ensures Shr(Shl(h, k) + l, k) == h && Low(Shl(h, k) + l, k) == l
    decreases k
  {
    if k != 0 {
      Digit(l % 2, Shl(h, k - 1) + l / 2);
      assert Shl(h, k) + l == l % 2 + 2 * (Shl(h, k - 1) + l / 2);
      Decompose(h, l / 2, k - 1);
    }
  }

  lemma {:induction false} ShrShr(a: nat, j: nat, k: nat)
    ensures Shr(Shr(a, j), k) == Shr(a, j + k)
    decreases j
  {
    if j != 0 { ShrShr(a / 2, j - 1, k); }
  }

  lemma {:induction false} LowLow(a: nat, j: nat, k: nat)
    requires k <= j
    ensures Low(Low(a, j), k) == Low(a, k)
    decreases k
  {
    if k != 0 {
      Digit(a % 2, Low(a / 2, j - 1));
      LowLow(a / 2, j - 1, k - 1);
    }
  }

  lemma {:induction false} LowSmall(a: nat, k: nat)
    requires a < Pow2(k)
    ensures Low(a, k) == a && Shr(a, k) == 0
    decreases k
  {
    if k != 0 { LowSmall(a / 2, k - 1); }
  }

  lemma {:induction false} ShrBound(a: nat, k: nat, m: nat)
    requires a < Pow2(k + m)
    ensures Shr(a, k) < Pow2(m)
    decreases k
  {
    if k != 0 { ShrBound(a / 2, k - 1, m); }
  }

  // -------------------------------------------------------------- fields

  /** The b digits of w from offset o on. */
  function Field(w: nat, o: nat, b: nat): nat {
    Low(Shr(w, o), b)
  }

  /** w with the b digits from offset o on replaced by x. */
  function WithField(w: nat, o: nat, b: nat, x: nat): nat {
    Shl(Shl(Shr(w, o + b), b) + x, o) + Low(w, o)
  }

  lemma FieldOfWith(w: nat, o: nat, b: nat, x: nat)
    requires x < Pow2(b)
    ensures Field(WithField(w, o, b, x), o, b) == x
  {
    LowBound(w, o);
    Decompose(Shl(Shr(w, o + b), b) + x, Low(w, o), o);
    Decompose(Shr(w, o + b), x, b);
  }

  /** A field below offset o depends on the digits below o only. */
  lemma {:induction false} FieldBelow(w: nat, o: nat, p: nat, b: nat)
    requires p + b <= o
    ensures Field(w, p, b) == Field(Low(w, o), p, b)
    decreases p
  {
    if p == 0 {
      LowLow(w, o, b);
    } else {
      Digit(w % 2, Low(w / 2, o - 1));
      FieldBelow(w / 2, o - 1, p - 1, b);
    }
  }

  /** Replacing one field leaves every field beside it alone. */
  lemma OtherField(w: nat, o: nat, b: nat, x: nat, p: nat)
    requires x < Pow2(b) && (p + b <= o || o + b <= p)
    ensures Field(WithField(w, o, b, x), p, b) == Field(w, p, b)
  {
    var v := WithField(w, o, b, x);
    LowBound(w, o);
    Decompose(Shl(Shr(w, o + b), b) + x, Low(w, o), o);
    if p + b <= o {
      FieldBelow(v, o, p, b);
      FieldBelow(w, o, p, b);
    } else {
      Decompose(Shr(w, o + b), x, b);
      ShrShr(v, o, b);
      ShrShr(v, o + b, p - (o + b));
      ShrShr(w, o + b, p - (o + b));
    }
  }

  /** Conjunction with ones, a gap of b zeros and o ones clears the gap. */
  lemma ClearGap(hi: nat, mid: nat, lo: nat, o: nat, b: nat, m: nat)
    requires hi < Pow2(m) && mid < Pow2(b) && lo < Pow2(o)
    ensures And(Shl(Shl(hi, b) + mid, o) + lo, Shl(Shl(Ones(m), b), o) + Ones(o)) == Shl(Shl(hi, b), o) + lo
  {
    AndSplit(Shl(hi, b) + mid, lo, Shl(Ones(m), b), Ones(o), o);
    AndSplit(hi, mid, Ones(m), 0, b);
    AndOnes(hi, m);
    LowSmall(hi, m);
    AndOnes(lo, o);
    LowSmall(lo, o);
  }

  lemma PutInGap(hi: nat, x: nat, lo: nat, o: nat, b: nat)
    requires x < Pow2(b) && lo < Pow2(o)
    ensures Or(Shl(Shl(hi, b), o) + lo, Shl(x, o)) == Shl(Shl(hi, b) + x, o) + lo
  {
    OrSplit(Shl(hi, b), lo, x, 0, o);
    OrSplit(hi, 0, 0, x, b);
    OrZero(hi);
    OrZero(lo);
    OrZero(x);
    ShlZero(b);
  }

  /** The same operation with masks: clear the field, then put the new value in. */
  lemma MaskedUpdate(w: nat, o: nat, b: nat, x: nat, n: nat)
    requires w < Pow2(n) && o + b <= n && x < Pow2(b)
    ensures Shl(Ones(b), o) <= Ones(n)
    ensures Or(And(w, Ones(n) - Shl(Ones(b), o)), Shl(x, o)) == WithField(w, o, b, x)
  {
    ClearField(w, o, b, n - o - b);
    LowBound(w, o);
    PutInGap(Shr(w, o + b), x, Low(w, o), o, b);
  }

  lemma ClearField(w: nat, o: nat, b: nat, m: nat)
    requires w < Pow2(o + b + m)
    ensures Shl(Ones(b), o) <= Ones(o + b + m)
    ensures And(w, Ones(o + b + m) - Shl(Ones(b), o)) == Shl(Shl(Shr(w, o + b), b), o) + Low(w, o)
  {
    ThreeParts(w, o, b);
    InverseMask(o, b, m);
    LowBound(w, o);
    LowBound(Shr(w, o), b);
    ShrBound(w, o + b, m);
    ClearGap(Shr(w, o + b), Field(w, o, b), Low(w, o), o, b, m);
  }

  /** A word as the parts above, in and below a field. */
  lemma ThreeParts(w: nat, o: nat, b: nat)
    ensures w == Shl(Shl(Shr(w, o + b), b) + Field(w, o, b), o) + Low(w, o)
  {
    Recompose(w, o);
    Recompose(Shr(w, o), b);
    ShrShr(w, o, b);
  }

  lemma {:induction false} ShlZero(k: nat)
    ensures Shl(0, k) == 0
  {
    if k != 0 { ShlZero(k - 1); }
  }

  lemma {:induction false} ShlOnes(j: nat, k: nat)
    ensures Shl(Ones(j), k) + Ones(k) == Ones(j + k)
    decreases k
  {
    if k != 0 { ShlOnes(j, k - 1); }
  }

  lemma {:induction false} ShlDistributes(a: nat, b: nat, k: nat)
    ensures Shl(a + b, k) == Shl(a, k) + Shl(b, k)
    decreases k
  {
    if k != 0 { ShlDistributes(a, b, k - 1); }
  }

  /** The complement of a shifted mask: ones, a gap, ones. */
  lemma InverseMask(o: nat, b: nat, m: nat)
    ensures Ones(o + b + m) - Shl(Ones(b), o) == Shl(Shl(Ones(m), b), o) + Ones(o)
  {
    ShlOnes(m, b);
    ShlOnes(m + b, o);
    ShlDistributes(Shl(Ones(m), b), Ones(b), o);
    assert m + b + o == o + b + m;
  }

  lemma WithFieldBound(w: nat, o: nat, b: nat, x: nat, n: nat)
    requires w < Pow2(n) && o + b <= n && x < Pow2(b)
    ensures WithField(w, o, b, x) < Pow2(n)
  {
    FieldBound(w, o, b, x, n - o - b);
  }

  lemma FieldBound(w: nat, o: nat, b: nat, x: nat, m: nat)
    requires w < Pow2(o + b + m) && x < Pow2(b)
    ensures WithField(w, o, b, x) < Pow2(o + b + m)
  {
    ShrBound(w, o + b, m);
    LowBound(w, o);
    Bounded(Shr(w, o + b), x, m, b);
    Bounded(Shl(Shr(w, o + b), b) + x, Low(w, o), m + b, o);
    assert m + b + o == o + b + m;
  }

  lemma {:induction false} Bounded(h: nat, l: nat, j: nat, k: nat)
    requires h < Pow2(j) && l < Pow2(k)
    ensures Shl(h, k) + l < Pow2(j + k)
    decreases k
  {
    if k != 0 { Bounded(h, l / 2, j, k - 1); }
  }

  lemma {:induction false} PowAdd(j: nat, k: nat)
    ensures Pow2(j + k) == Pow2(j) * Pow2(k)
    decreases j
  {
    if j != 0 {
      PowAdd(j - 1, k);
      assert 2 * (Pow2(j - 1) * Pow2(k)) == 2 * Pow2(j - 1) * Pow2(k);
    }
  }
}
