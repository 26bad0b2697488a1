/** Positional notation: what the integer formatters print, and that it can be read back. */
module Positional {
  import opened Platform
  import opened Arithmetic

  /** The digits of `v`, most significant first. */
  function Digits(v: nat, base: nat): (ds: seq<nat>)
    requires base >= 2
    ensures |ds| >= 1 && forall i :: 0 <= i < |ds| ==> ds[i] < base
    ensures v > 0 ==> ds[0] > 0
    ensures v == 0 ==> ds == [0]
  {
    if v < base then [v] else
    DivSmaller(v, base);
    Digits(v / base, base) + [v % base]
  }

  /** The number a sequence of digits stands for. */
  function Value(ds: seq<nat>, base: nat): nat {
    if ds == [] then 0 else Value(ds[..|ds| - 1], base) * base + ds[|ds| - 1]
  }

  lemma {:induction false} ValueOfDigits(v: nat, base: nat)
    requires base >= 2
    ensures Value(Digits(v, base), base) == v
  {
    if v >= base {
      DivSmaller(v, base);
      ValueOfDigits(v / base, base);
      assert Digits(v, base)[..|Digits(v, base)| - 1] == Digits(v / base, base);
    }
  }

  /** Leading zeros add nothing. */
  lemma {:induction false} ValueOfPadded(n: nat, ds: seq<nat>, base: nat)
    ensures Value(seq(n, _ => 0) + ds, base) == Value(ds, base)
  {
    var s := seq(n, _ => 0) + ds;
    if ds != [] {
      assert s[..|s| - 1] == seq(n, _ => 0) + ds[..|ds| - 1];
      ValueOfPadded(n, ds[..|ds| - 1], base);
    } else if n > 0 {
      assert s[..|s| - 1] == seq((n - 1) as nat, _ => 0) + [];
      ValueOfPadded(n - 1, [], base);
    }
  }

  function Power(base: nat, n: nat): nat {
    if n == 0 then 1 else base * Power(base, n - 1)
  }

  lemma {:induction false} PowerPositive(base: nat, n: nat)
    requires base >= 1
    ensures Power(base, n) >= 1
  {
    if n > 0 { PowerPositive(base, n - 1); }
  }

  /** The `k`-th digit from the right. */
  lemma {:induction false} DigitAt(v: nat, base: nat, k: nat)
    requires base >= 2 && k < |Digits(v, base)|
    ensures Power(base, k) > 0
    ensures Digits(v, base)[|Digits(v, base)| - 1 - k] == v / Power(base, k) % base
    decreases k
  {
    PowerPositive(base, k);
    if k > 0 {
      DivSmaller(v, base);
      PowerPositive(base, k - 1);
      DigitAt(v / base, base, k - 1);
      DivTwice(v, base, Power(base, k - 1));
    } else {
      LastDigit(v, base);
    }
  }

  lemma LastDigit(v: nat, base: nat)
    requires base >= 2
    ensures var ds := Digits(v, base); ds[|ds| - 1] == v % base && v / 1 == v
  {
    if v < base { ModOf(v, 0, v, base); }
  }

  /** The leading digit's place value is the largest power not above the number. */
  lemma {:induction false} LeadingPlace(v: nat, base: nat)
    requires base >= 2 && v > 0
    ensures var n := |Digits(v, base)|; Power(base, n - 1) <= v < Power(base, n)
  {
    if v >= base {
      DivSmaller(v, base);
      LeadingPlace(v / base, base);
      var n := |Digits(v / base, base)|;
      Scale(Power(base, n - 1), v / base, Power(base, n), base, v);
      assert Power(base, n) == base * Power(base, n - 1) && Power(base, n + 1) == base * Power(base, n);
      assert |Digits(v, base)| == n + 1;
    } else {
      assert Power(base, 0) == 1 && Power(base, 1) == base * Power(base, 0);
    }
  }

  lemma Scale(lo: nat, q: nat, hi: nat, base: nat, v: nat)
    requires base >= 2 && lo <= q < hi && q * base <= v < q * base + base
    ensures base * lo <= v < base * hi
  {
    Monotone(lo, q, base);
    Monotone(q + 1, hi, base);
    Distribute(q, 1, base);
  }

  lemma DivSmallerOrZero(v: nat, base: nat)
    requires base >= 2
    ensures v / base <= v && (v / base > 0 <==> v >= base)
  {
    if v > 0 { DivSmaller(v, base); }
    if v < base { ModOf(v, 0, v, base); }
  }

  lemma BelowBase(v: nat, base: nat)
    requires base >= 2 && !(v / base > 0)
    ensures v < base && |Digits(v, base)| == 1
  {
    DivSmallerOrZero(v, base);
  }

  /** The next place value is still at most the number. */
  lemma PlaceFits(vShrink: nat, base: nat, p: nat, v: nat)
    requires base >= 2 && vShrink / base > 0 && vShrink * p <= v < WRAP
    ensures 0 <= p * base < WRAP && (vShrink / base) * (p * base) <= v && (p * base) % WRAP == p * base
    ensures p * base == base * p
  {
    var q := vShrink / base;
    DivSmallerOrZero(vShrink, base);
    assert q * base <= vShrink;
    Monotone(q * base, vShrink, p);
    Associate(q, base, p);
    ProductNonneg(p, base);
    Monotone(1, q, p * base);
    ModOf(p * base, 0, p * base, WRAP);
  }

  lemma LeadingDigit(m: nat, base: nat)
    requires 2 <= base
    ensures var ds := Digits(m, base);
            Power(base, |ds| - 1) > 0 && m / Power(base, |ds| - 1) == ds[0]
  {
    var n := |Digits(m, base)|;
    DigitAt(m, base, n - 1);
    var p := Power(base, n - 1);
    if m > 0 {
      LeadingPlace(m, base);
      assert m < base * p;
      QuotientBelow(m, p, base);
    }
  }

  lemma QuotientBelow(m: nat, p: nat, base: nat)
    requires p > 0 && base > 0 && m < base * p
    ensures m / p < base && (m / p) % base == m / p
  {
    var q := m / p;
    assert m == q * p + m % p;
    if q >= base { Monotone(base, q, p); }
    ModOf(q, 0, q, base);
  }

  /** After a digit, what is left shows the next digit at the next place. */
  lemma NextPlace(m: nat, base: nat, k: nat, v: nat, p: nat)
    requires 2 <= base && k < |Digits(m, base)| && p == Power(base, |Digits(m, base)| - 1 - k)
    requires p > 0 && v % p == m % p
    ensures var (ds, p', v') := (Digits(m, base), p / base, v % p);
            && p' == (if k + 1 < |ds| then Power(base, |ds| - 2 - k) else 0)
            && (k + 1 < |ds| ==> p' > 0 && v' / p' == ds[k + 1] && v' % p' == m % p')
  {
    var n := |Digits(m, base)|;
    if k + 1 < n {
      var p' := Power(base, n - 2 - k);
      PowerPositive(base, n - 2 - k);
      assert p == base * p';
      ModOf(p, p', 0, base);
      DigitAt(m, base, n - 2 - k);
      assert n - 1 - (n - 2 - k) == k + 1;
      RemainderDigit(m, p', base);
    } else {
      ModOf(1, 0, 1, base);
    }
  }

  lemma RemainderDigit(m: nat, p: nat, base: nat)
    requires p > 0 && base > 0
    ensures base * p > 0
    ensures (m % (base * p)) / p == m / p % base && (m % (base * p)) % p == m % p
  {
    MulLow(base, p);
    DivTwice(m, p, base);
    var (q, r) := (m / p, m % p);
    var (q', r') := (q / base, q % base);
    assert m == q * p + r && q == q' * base + r';
    Distribute(q' * base, r', p);
    Associate(q', base, p);
    Monotone(r' + 1, base, p);
    Distribute(r', 1, p);
    ProductNonneg(r', p);
    ModOf(m, q', r' * p + r, base * p);
    ModOf(r' * p + r, r', r, p);
  }
}
