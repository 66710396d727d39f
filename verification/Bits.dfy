/** The BigInt operators the address code uses, defined bit by bit on non-negative integers,
    and the positional facts about them. */
module Bits {
  function Pow2(k: nat): (p: nat)
    ensures p >= 1
  {
    if k == 0 then 1 else 2 * Pow2(k - 1)
  }

  /** `a & b`. */
  function And(a: nat, b: nat): nat
    decreases a + b
  {
    if a == 0 || b == 0 then 0
    else (if a % 2 == 1 && b % 2 == 1 then 1 else 0) + 2 * And(a / 2, b / 2)
  }

  /** `a | b`. */
  function Or(a: nat, b: nat): nat
    decreases a + b
  {
    if a == 0 && b == 0 then 0
    else (if a % 2 == 1 || b % 2 == 1 then 1 else 0) + 2 * Or(a / 2, b / 2)
  }

  /** `a << k`. */
  function Shl(a: nat, k: nat): nat {
    a * Pow2(k)
  }

  function Quotient(a: nat, d: nat): nat
    requires d > 0
  {
    a / d
  }

  /** `a >> k`. */
  function Shr(a: nat, k: nat): nat {
    Quotient(a, Pow2(k))
  }

  lemma {:induction false} OrZero(a: nat)
    ensures Or(a, 0) == a && Or(0, a) == a
  {
    if a > 0 {
      OrZero(a / 2);
    }
  }

  /** Or-ing in bits below a shift adds them. */
  lemma {:induction false} OrIsPlus(a: nat, b: nat, k: nat)
    requires b < Pow2(k)
    ensures Or(Shl(a, k), b) == Shl(a, k) + b
  {
    if k == 0 {
      OrZero(a);
    } else {
      var s := a * Pow2(k - 1);
      assert Shl(a, k) == 2 * s;
      OrIsPlus(a, b / 2, k - 1);
      assert Or(s, b / 2) == s + b / 2;
      if 2 * s == 0 && b == 0 {
      } else {
        assert Or(2 * s, b) == b % 2 + 2 * Or(s, b / 2);
      }
    }
  }

  lemma AndSplits(v: nat, m: nat, bit: nat)
    requires bit < 2
    ensures And(v, 2 * m + bit) == v % 2 * bit + 2 * And(v / 2, m)
  {
    assert (2 * m + bit) / 2 == m && (2 * m + bit) % 2 == bit;
  }

  lemma ShlHalves(a: nat, q: nat)
    requires q > 0
    ensures Shl(a, q) == 2 * Shl(a, q - 1)
  {
    assert a * (2 * Pow2(q - 1)) == 2 * (a * Pow2(q - 1));
  }

  lemma AndNone(v: nat)
    ensures And(v, 0) == 0
  {
  }

  /** And-ing with ones keeps the low bits. */
  lemma {:induction false} AndLow(v: nat, p: nat)
    ensures And(v, Pow2(p) - 1) == v % Pow2(p)
  {
    AndNone(v);
    hide And;
    if p > 0 {
      AndLow(v / 2, p - 1);
      OneMoreLowBit(v, Pow2(p - 1));
    }
  }

  lemma OneMoreLowBit(v: nat, d: nat)
    requires d > 0 && And(v / 2, d - 1) == v / 2 % d
    ensures And(v, 2 * d - 1) == v % (2 * d)
  {
    hide And;
    AndSplits(v, d - 1, 1);
    HalfRemainder(v, d);
  }

  lemma HalfRemainder(v: nat, d: nat)
    requires d > 0
    ensures v % (2 * d) == v % 2 + 2 * (v / 2 % d)
  {
    HalfDivides(v, d);
    var q := v / (2 * d);
    assert v == q * (2 * d) + v % (2 * d) && v / 2 == q * d + v / 2 % d;
    assert q * (2 * d) == 2 * (q * d);
  }

  /** And-ing with a high mask clears the low bits: `p` ones followed by `q` zeros. */
  lemma {:induction false} AndMask(v: nat, p: nat, q: nat)
    requires v < Pow2(p + q)
    ensures And(v, Shl(Pow2(p) - 1, q)) == v / Pow2(q) * Pow2(q)
    decreases q
  {
    if q > 0 {
      AndMask(v / 2, p, q - 1);
      AndMaskShifted(v, p, q);
    } else {
      AndLow(v, p);
      RemainderIsSelf(v, Pow2(p));
      ShlByZero(v, Pow2(p) - 1);
    }
  }

  lemma RemainderIsSelf(v: nat, d: nat)
    requires v < d
    ensures v % d == v
  {
  }

  lemma ShlByZero(v: nat, a: nat)
    ensures Shl(a, 0) == a && v / Pow2(0) * Pow2(0) == v
  {
  }

  lemma AndMaskShifted(v: nat, p: nat, q: nat)
    requires q > 0 && And(v / 2, Shl(Pow2(p) - 1, q - 1)) == v / 2 / Pow2(q - 1) * Pow2(q - 1)
    ensures And(v, Shl(Pow2(p) - 1, q)) == v / Pow2(q) * Pow2(q)
  {
    ShlHalves(Pow2(p) - 1, q);
    AndSplits(v, Shl(Pow2(p) - 1, q - 1), 0);
    ClearedHalves(v, Pow2(q - 1));
  }

  lemma ClearedHalves(v: nat, d: nat)
    requires d > 0
    ensures 2 * (v / 2 / d * d) == v / (2 * d) * (2 * d)
  {
    HalfDivides(v, d);
    var q := v / (2 * d);
    assert q * (2 * d) == 2 * (q * d);
  }

  lemma HalfDivides(v: nat, d: nat)
    requires d > 0
    ensures v / 2 / d == v / (2 * d)
  {
    var q := v / (2 * d);
    var r := v % (2 * d);
    assert v == q * (2 * d) + r;
    assert v / 2 == q * d + r / 2;
    assert r / 2 < d;
    QuotientIs(v / 2, d, q, r / 2);
  }

  lemma QuotientIs(v: nat, d: nat, q: nat, r: nat)
    requires d > 0 && v == q * d + r && r < d
    ensures v / d == q
  {
    var w := v / d;
    assert w * d <= v < (w + 1) * d;
    MulMonotone(q + 1, w, d);
    MulMonotone(w + 1, q, d);
  }

  lemma MulMonotone(a: int, b: int, d: nat)
    ensures a <= b ==> a * d <= b * d
  {
  }

  lemma SmallDivides(v: nat, d: nat)
    requires v < d
    ensures v / d == 0
  {
    QuotientIs(v, d, 0, v);
  }

  lemma {:induction false} Pow2Adds(a: nat, b: nat)
    ensures Pow2(a + b) == Pow2(a) * Pow2(b)
  {
    if a > 0 {
      Pow2Adds(a - 1, b);
    }
  }
}
