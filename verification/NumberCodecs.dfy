/** The assumptions about number text can be met, all at once. */
module NumberCodecs {
  import opened Bytes
  import opened Values
  import Rendered
  import Rfc8259

  function Power10(n: nat): nat {
    if n == 0 then 1 else 10 * Power10(n - 1)
  }

  /** The last `width` decimal digits. */
  function Decimal(n: nat, width: nat): (s: bytes)
    ensures |s| == width
    ensures forall i :: 0 <= i < width ==> Digit(s[i])
  {
    if width == 0 then [] else Decimal(n / 10, width - 1) + [0x30 + n % 10]
  }

  lemma {:induction false} DecimalDiffers(m: nat, n: nat, width: nat)
    requires m < Power10(width) && n < Power10(width) && Decimal(m, width) == Decimal(n, width)
    ensures m == n
    decreases width
  {
    if width > 0 {
      var s, t := Decimal(m / 10, width - 1), Decimal(n / 10, width - 1);
      assert (s + [0x30 + m % 10])[width - 1] == (t + [0x30 + n % 10])[width - 1];
      assert s == (s + [0x30 + m % 10])[..width - 1] == (t + [0x30 + n % 10])[..width - 1] == t;
      DecimalDiffers(m / 10, n / 10, width - 1);
    }
  }

  lemma Powers()
    ensures Power10(4) == 10_000 && Power10(16) == 10_000_000_000_000_000
  {
    assert Power10(8) == 100_000_000;
    assert Power10(12) == 1_000_000_000_000;
  }

  /** Sign, mantissa and exponent of a finite number as 21 number bytes. */
  function Spelled(d: Double): bytes {
    if d.Finite? then [if d.negative then MINUS else 0x30] + Decimal(d.mantissa, 16) + Decimal(d.exponent + 1074, 4)
    else []
  }

  lemma SpelledDiffers(d: Double, e: Double)
    requires d.Finite? && e.Finite? && Spelled(d) == Spelled(e)
    ensures d == e
  {
    var s, t := Spelled(d), Spelled(e);
    assert s[0] == t[0];
    assert Decimal(d.mantissa, 16) == s[1..17] == t[1..17] == Decimal(e.mantissa, 16);
    assert Decimal(d.exponent + 1074, 4) == s[17..] == t[17..] == Decimal(e.exponent + 1074, 4);
    Powers();
    DecimalDiffers(d.mantissa, e.mantissa, 16);
    DecimalDiffers(d.exponent + 1074, e.exponent + 1074, 4);
  }

  ghost function Understood(s: bytes): Double {
    if exists d: Double :: d.Finite? && Spelled(d) == s then
      var d: Double :| d.Finite? && Spelled(d) == s; d
    else ZERO
  }

  lemma UnderstoodSpelled(d: Double)
    requires d.Finite?
    ensures Understood(Spelled(d)) == d
  {
    var e := Understood(Spelled(d));
    assert e.Finite? && Spelled(e) == Spelled(d);
    SpelledDiffers(d, e);
  }

  lemma SpelledIsNumberText(d: Double)
    requires d.Finite?
    ensures NumberText(Spelled(d)) && |Spelled(d)| == 21 && NulFree(Spelled(d))
  {
    forall i | 0 <= i < |Spelled(d)| ensures NumberByte(Spelled(d)[i]) {
      assert i == 0 || Digit(Spelled(d)[i]);
    }
  }

  ghost function Example(): (k: Codec)
    ensures k.format == Spelled
    ensures forall s: bytes :: k.strtod(s) == (|s|, Understood(s))
  {
    RawCodec((s: bytes) => (|s|, Understood(s)), Spelled)
  }

  /** There is a codec as the theorems ask for. */
  lemma ExampleMeetsAll()
    ensures ExactPrinting(Example()) && Rendered.PrintsNumbers(Example()) && Rfc8259.ReadsNumbers(Example())
  {
    hide Spelled, Understood, Rfc8259.NumberText, Rfc8259.WellFormedNumber;
    var k := Example();
    forall d: Double | d.Finite?
      ensures NumberText(k.format(d)) && |k.format(d)| == 21 && k.strtod(k.format(d)) == (|k.format(d)|, d) &&
              NulFree(k.format(d))
    {
      SpelledIsNumberText(d);
      UnderstoodSpelled(d);
    }
  }
}
