/** JSON values as the library's callers see them, and the number codec the C library supplies. */
module Values {
  import opened Bytes

  datatype Option<+T> = None | Some(value: T)

  /**
   * An IEEE 754 binary64 number. A finite one is (-1)^negative * mantissa * 2^exponent; the two
   * zeros are different values that compare equal.
   */
  datatype RawDouble = NaN | Infinite(negative: bool) | Finite(negative: bool, mantissa: nat, exponent: int)
  {
    /** Each number has one form: the mantissa fills 53 bits unless the exponent is the least. */
    predicate Canonical() {
      match this
      case Finite(_, mantissa, exponent) =>
        mantissa < 0x20_0000_0000_0000 && -1074 <= exponent <= 971 &&
        (mantissa < 0x10_0000_0000_0000 ==> exponent == -1074)
      case _ => true
    }

    /** The C operator == on doubles. */
    predicate Equals(other: RawDouble) {
      match (this, other)
      case (NaN, _) => false
      case (Finite(_, m, _), Finite(_, n, _)) => this == other || (m == 0 && n == 0)
      case _ => this == other
    }

    /** The integer part of the absolute value. */
    function WholePart(): int
      requires Finite?
    {
      if exponent >= 0 then mantissa * Power2(exponent) else mantissa / Power2(-exponent)
    }
  }

  type Double = d: RawDouble | d.Canonical() witness NaN

  const ZERO: Double := Finite(false, 0, -1074)

  function Power2(n: nat): (p: nat)
    ensures p > 0
  {
    if n == 0 then 1 else Power2(n - 1) + Power2(n - 1)
  }

  const INT_MAX: int := 0x7FFF_FFFF
  const INT_MIN: int := -0x8000_0000

  /** valueint: the number truncated and saturated to int. C does not define it for a NaN. */
  function SaturatedInt(d: Double): int {
    match d
    case NaN => 0
    case Infinite(negative) => if negative then INT_MIN else INT_MAX
    case Finite(negative, _, _) =>
      var whole := d.WholePart();
      if negative then (if whole >= -INT_MIN then INT_MIN else -whole)
      else if whole >= INT_MAX then INT_MAX else whole
  }

  /**
   * A value tree. Strings and keys may be absent because the C fields may be NULL;
   * Raw text is printed verbatim.
   */
  datatype Json =
    | Invalid
    | Null
    | False
    | True
    | Number(number: Double)
    | String(text: Option<bytes>)
    | Raw(text: Option<bytes>)
    | Array(items: seq<Json>)
    | Object(members: seq<Member>)

  datatype Member = Member(key: Option<bytes>, value: Json)

  /** No string or key contains a NUL byte; the case of every tree of C strings. */
  predicate NoNul(j: Json)
    decreases j
  {
    match j
    case String(Some(s)) => NulFree(s)
    case Raw(Some(s)) => NulFree(s)
    case Array(items) => NoNulItems(items)
    case Object(members) => NoNulMembers(members)
    case _ => true
  }

  predicate NoNulItems(items: seq<Json>)
    decreases items
  {
    |items| == 0 || (NoNul(items[0]) && NoNulItems(items[1..]))
  }

  predicate NoNulMembers(members: seq<Member>)
    decreases members
  {
    |members| == 0 || (NoNulMember(members[0]) && NoNulMembers(members[1..]))
  }

  predicate NoNulMember(m: Member)
    decreases m
  {
    (match m.key case None => true case Some(s) => NulFree(s)) && NoNul(m.value)
  }

  /** The bytes a number lexeme is made of. */
  predicate NumberByte(b: byte) {
    Digit(b) || b == PLUS || b == MINUS || b == LOWER_E || b == UPPER_E || b == DOT
  }

  predicate NumberStart(b: byte) {
    b == MINUS || Digit(b)
  }

  /** A nonempty run of number bytes that parse_value dispatches to parse_number. */
  predicate NumberText(s: bytes) {
    |s| > 0 && NumberStart(s[0]) && forall i :: 0 <= i < |s| ==> NumberByte(s[i])
  }

  /**
   * strtod and sprintf, as far as the library uses them. `Strtod` returns how many bytes it
   * converted and the number; `Format` is the text print_number settles on.
   */
  datatype RawCodec = RawCodec(strtod: bytes -> (nat, Double), format: Double -> bytes)
  {
    ghost predicate Sane() {
      forall s: bytes :: strtod(s).0 <= |s|
    }
  }

  type Codec = k: RawCodec | k.Sane() witness RawCodec(s => (0, NaN), d => [])

  /**
   * What the library relies on: a finite number prints as 1 to 25 number bytes that strtod
   * reads back completely and exactly.
   */
  ghost predicate ExactPrinting(k: Codec) {
    forall d: Double :: d.Finite? ==>
      NumberText(k.format(d)) && |k.format(d)| <= 25 && k.strtod(k.format(d)) == (|k.format(d)|, d)
  }

  /** The text print_number writes: "null" for the numbers JSON cannot express. */
  function NumberRendering(k: Codec, d: Double): bytes {
    if d.Finite? then k.format(d) else NULL_TEXT
  }
}
