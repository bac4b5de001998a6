/** Doubles as real numbers: what == on them decides, and what is left of one in an int. */
module Numbers {
  import opened Values

  /** A finite number as a multiple of the least positive one, 2^-1074. */
  function Units(d: Double): int
    requires d.Finite?
  {
    var n: int := d.mantissa * Power2(d.exponent + 1074);
    if d.negative then -n else n
  }

  /** 1 in the same measure. */
  const ONE: nat := Power2(1074)

  /** The same number: NaN is none, an infinity is only itself, and the two zeros are one. */
  predicate SameNumber(d: Double, e: Double) {
    match (d, e)
    case (Finite(_, _, _), Finite(_, _, _)) => Units(d) == Units(e)
    case (Infinite(m), Infinite(n)) => m == n
    case _ => false
  }

  /**
   * `i` is the number cut off to an int: a number beyond the ints becomes the nearest of them, any
   * other loses what is behind its point. What becomes of a NaN is left open.
   */
  predicate CutOff(d: Double, i: int) {
    match d
    case NaN => true
    case Infinite(negative) => i == if negative then INT_MIN else INT_MAX
    case Finite(_, _, _) =>
      var n := Units(d);
      if n >= INT_MAX * ONE then i == INT_MAX
      else if n <= INT_MIN * ONE then i == INT_MIN
      else if n >= 0 then 0 <= i && i * ONE <= n < (i + 1) * ONE
      else i <= 0 && (i - 1) * ONE < n <= i * ONE
  }

  // ----- powers of two -----

  lemma {:induction false} Power2Sum(m: nat, n: nat)
    ensures Power2(m + n) == Power2(m) * Power2(n)
    decreases n
  {
    if n > 0 {
      Power2Sum(m, n - 1);
      Twice(Power2(m), Power2(n - 1));
    }
  }

  lemma Twice(a: nat, b: nat)
    ensures a * (b + b) == a * b + a * b
  {
  }

  lemma TimesMonotonic(a: int, b: int, p: nat)
    requires a <= b
    ensures a * p <= b * p
  {
  }

  lemma TimesInjective(a: int, b: int, p: nat)
    requires p > 0
    ensures a * p == b * p <==> a == b
    ensures a * p <= b * p <==> a <= b
  {
    if a < b {
      TimesMonotonic(a + 1, b, p);
    } else if a > b {
      TimesMonotonic(b + 1, a, p);
    }
  }

  // ----- equality -----

  /** Of two canonical forms of one positive number, none has the larger exponent. */
  lemma ExponentsAgree(d: Double, e: Double)
    requires d.Finite? && e.Finite? && d.exponent < e.exponent
    ensures d.mantissa * Power2(d.exponent + 1074) < e.mantissa * Power2(e.exponent + 1074)
  {
    var low, gap := d.exponent + 1074, e.exponent - d.exponent;
    var p, q := Power2(low), Power2(gap);
    Power2Sum(gap, low);
    Power2Sum(gap - 1, 1);
    assert Power2(1) == 2;
    TimesMonotonic(2, q, e.mantissa);
    assert e.mantissa * q > d.mantissa;
    TimesInjective(e.mantissa * q, d.mantissa, p);
    Reassociate(e.mantissa, q, p);
  }

  lemma Reassociate(a: nat, b: nat, c: nat)
    ensures (a * b) * c == a * (b * c)
  {
  }

  lemma ZeroUnits(d: Double)
    requires d.Finite?
    ensures Units(d) == 0 <==> d.mantissa == 0
    ensures d.mantissa > 0 ==> (Units(d) < 0 <==> d.negative)
  {
    TimesInjective(d.mantissa, 0, Power2(d.exponent + 1074));
  }

  /** == on doubles is equality of numbers. */
  lemma EqualsIsSameNumber(d: Double, e: Double)
    ensures d.Equals(e) <==> SameNumber(d, e)
  {
    if d.Finite? && e.Finite? {
      ZeroUnits(d);
      ZeroUnits(e);
      if d.exponent < e.exponent {
        ExponentsAgree(d, e);
      } else if e.exponent < d.exponent {
        ExponentsAgree(e, d);
      } else {
        TimesInjective(d.mantissa, e.mantissa, Power2(d.exponent + 1074));
      }
    }
  }

  // ----- the int -----

  /** The integer part, in units. */
  lemma WholeUnits(d: Double)
    requires d.Finite?
    ensures var n, whole := d.mantissa * Power2(d.exponent + 1074), d.WholePart();
            0 <= whole && whole * ONE <= n < (whole + 1) * ONE
  {
    var m, whole := d.mantissa, d.WholePart();
    if d.exponent >= 0 {
      var p := Power2(d.exponent);
      Power2Sum(d.exponent, 1074);
      Reassociate(m, p, ONE);
      TimesInjective(whole, whole + 1, ONE);
    } else {
      var p, q := Power2(d.exponent + 1074), Power2(-d.exponent);
      Power2Sum(-d.exponent, d.exponent + 1074);
      WholeQuotient(m, q);
      TimesInjective(whole * q, m, p);
      TimesInjective(m + 1, (whole + 1) * q, p);
      TimesInjective(m, m + 1, p);
      Reassociate(whole, q, p);
      Reassociate(whole + 1, q, p);
    }
  }

  lemma WholeQuotient(m: nat, q: nat)
    requires q > 0
    ensures m / q >= 0 && (m / q) * q <= m < (m / q + 1) * q
  {
    var r := m % q;
    assert m == (m / q) * q + r;
    Distribute(m / q, 1, q);
  }

  lemma Distribute(a: int, b: int, p: nat)
    ensures (a + b) * p == a * p + b * p && (a - b) * p == a * p - b * p && (-a) * p == -(a * p)
  {
  }

  /** The saturating assignment of parse_number cuts the number off. */
  lemma SaturatedIsCutOff(d: Double)
    ensures CutOff(d, SaturatedInt(d))
  {
    if d.Finite? {
      hide Power2;
      var n, whole := Units(d), d.WholePart();
      WholeUnits(d);
      if d.negative {
        // n lies between -(whole + 1) and -whole
        Distribute(whole, 1, ONE);
        Distribute(-whole, 1, ONE);
        Distribute(-INT_MIN, 1, ONE);
        BeyondOrNot(whole, -n, -INT_MIN);
        BeyondOrNot(whole, -n, 0);
      } else {
        BeyondOrNot(whole, n, INT_MAX);
      }
    }
  }

  /** A number is at least a whole number exactly when its integer part is. */
  lemma BeyondOrNot(whole: nat, n: nat, bound: nat)
    requires whole * ONE <= n < (whole + 1) * ONE
    ensures n >= bound * ONE <==> whole >= bound
  {
    hide Power2;
    if whole >= bound {
      TimesMonotonic(bound, whole, ONE);
    } else {
      TimesMonotonic(whole + 1, bound, ONE);
    }
  }
}
