/** The C99 codec of libiconv: \uXXXX and \UXXXXXXXX escapes of ISO/IEC 9899:1999, section 6.4.3. */
module C99 {
  import opened Values

  const ESCAPE: bv8 := 0x5C
  const SHORT_LETTER: bv8 := 0x75
  const LONG_LETTER: bv8 := 0x55

  const RET_ILSEQ := -1
  const RET_TOOFEW := -2
  const RET_TOOSMALL := -2

  // ----- what one call reads -----

  datatype Decoded = Char(wc: bv32, used: nat) | TooFew | Illegal

  /** What c99_mbtowc takes for a digit: every letter, not only those up to F. */
  function Digit(c: bv8): Option<bv32> {
    if 0x30 <= c <= 0x39 then Some((c - 0x30) as bv32)
    else if 0x41 <= c <= 0x5A then Some((c - 0x37) as bv32)
    else if 0x61 <= c <= 0x7A then Some((c - 0x57) as bv32)
    else None
  }

  /** A shift to the left by `n` hexadecimal digits. */
  function Left(x: bv32, n: nat): bv32
    requires n < 8
  {
    match n
    case 0 => x
    case 1 => x << 4
    case 2 => x << 8
    case 3 => x << 12
    case 4 => x << 16
    case 5 => x << 20
    case 6 => x << 24
    case 7 => x << 28
  }

  /** A shift to the right by `n` hexadecimal digits. */
  function Right(x: bv32, n: nat): bv32
    requires n < 8
  {
    match n
    case 0 => x
    case 1 => x >> 4
    case 2 => x >> 8
    case 3 => x >> 12
    case 4 => x >> 16
    case 5 => x >> 20
    case 6 => x >> 24
    case 7 => x >> 28
  }

  function Or(a: bv32, b: bv32): bv32 {
    a | b
  }

  datatype Reading = Value(wc: bv32) | Short | NoDigit

  /** The digits from position `i` up to `end`, in addition to the bits in `wc`. */
  function ReadDigits(s: seq<bv8>, i: nat, end: nat, wc: bv32): Reading
    requires i <= end <= i + 8
    decreases end - i
  {
    if i == end then Value(wc)
    else if |s| <= i then Short
    else
      match Digit(s[i])
      case None => NoDigit
      case Some(d) => ReadDigits(s, i + 1, end, Or(wc, Left(d, end - 1 - i)))
  }

  lemma ReadStep(s: seq<bv8>, i: nat, end: nat, wc: bv32)
    requires i < end <= i + 8
    ensures |s| <= i ==> ReadDigits(s, i, end, wc) == Short
    ensures |s| > i && Digit(s[i]) == None ==> ReadDigits(s, i, end, wc) == NoDigit
    ensures |s| > i && Digit(s[i]).Some? ==>
              ReadDigits(s, i, end, wc) == ReadDigits(s, i + 1, end, Or(wc, Left(Digit(s[i]).value, end - 1 - i)))
  {
  }

  /** The characters an escape may name. */
  predicate Nameable(wc: bv32) {
    (wc >= 0xA0 && !(0xD800 <= wc < 0xE000)) || wc == 0x24 || wc == 0x40 || wc == 0x60
  }

  function Escaped(r: Reading, used: nat): Decoded {
    match r
    case Value(wc) => if Nameable(wc) then Char(wc, used) else Illegal
    case Short => TooFew
    case NoDigit => Char(0x5C, 1)
  }

  /** c99_mbtowc on the bytes that are available. */
  function Decode(s: seq<bv8>): (r: Decoded)
    requires |s| > 0
  {
    if s[0] >= 0xA0 then Illegal
    else if s[0] != ESCAPE then Char(s[0] as bv32, 1)
    else if |s| < 2 then TooFew
    else if s[1] == SHORT_LETTER then Escaped(ReadDigits(s, 2, 6, 0), 6)
    else if s[1] == LONG_LETTER then Escaped(ReadDigits(s, 2, 10, 0), 10)
    else Char(0x5C, 1)
  }

  /** The value a function of the library returns for it. */
  function ReturnCode(r: Decoded): int {
    match r
    case Char(_, used) => used
    case TooFew => RET_TOOFEW
    case Illegal => RET_ILSEQ
  }

  /** c99_mbtowc. */
  method Mbtowc(s: seq<bv8>) returns (ret: int, pwc: bv32)
    requires |s| > 0
    ensures ret == ReturnCode(Decode(s)) && (Decode(s).Char? ==> pwc == Decode(s).wc)
  {
    hide ReadDigits, Digit, Left, Nameable;
    pwc := 0;
    var c := s[0];
    if c < 0xA0 {
      if c != ESCAPE {
        return 1, c as bv32;
      }
      if |s| < 2 {
        return RET_TOOFEW, 0;
      }
      c := s[1];
      if c == SHORT_LETTER || c == LONG_LETTER {
        var end := if c == SHORT_LETTER then 6 else 10;
        var r := ReadEscape(s, end);
        match r {
          case Short =>
            return RET_TOOFEW, 0;
          case NoDigit =>
            return 1, 0x5C;
          case Value(wc) =>
            if Nameable(wc) {
              return end, wc;
            }
        }
      } else {
        return 1, 0x5C;
      }
    }
    return RET_ILSEQ, 0;
  }

  /** The loop over the digits of an escape, for either number of them. */
  method ReadEscape(s: seq<bv8>, end: nat) returns (r: Reading)
    requires end == 6 || end == 10
    ensures r == ReadDigits(s, 2, end, 0)
  {
    hide ReadDigits, Left, Digit, Or;
    var wc: bv32 := 0;
    for i := 2 to end
      invariant ReadDigits(s, i, end, wc) == ReadDigits(s, 2, end, 0)
    {
      ReadStep(s, i, end, wc);
      if |s| <= i {
        return Short;
      }
      var d := DigitValue(s[i]);
      if d == None {
        return NoDigit;
      }
      wc := Or(wc, Left(d.value, end - 1 - i));
    }
    ReadNothing(s, end, wc);
    return Value(wc);
  }

  lemma ReadNothing(s: seq<bv8>, end: nat, wc: bv32)
    ensures ReadDigits(s, end, end, wc) == Value(wc)
  {
  }

  /** The conversion of one digit in that loop. */
  method DigitValue(ch: bv8) returns (r: Option<bv32>)
    ensures r == Digit(ch)
  {
    var c := ch;
    if c >= 0x30 && c <= 0x39 {
      c := c - 0x30;
    } else if c >= 0x41 && c <= 0x5A {
      c := c - (0x41 - 10);
    } else if c >= 0x61 && c <= 0x7A {
      c := c - (0x61 - 10);
    } else {
      return None;
    }
    return Some(c as bv32);
  }

  // ----- what one call writes -----

  function HexChar(n: bv32): bv8
    requires n < 16
  {
    if n < 10 then (0x30 + n) as bv8 else (0x57 + n) as bv8
  }

  /** One hexadecimal digit, counted from the right. */
  function Nibble(wc: bv32, k: nat): (d: bv32)
    requires k < 8
    ensures d < 16
  {
    Right(wc, k) & 15
  }

  /** The last `count` hexadecimal digits of `wc`. */
  function HexText(wc: bv32, count: nat): (t: seq<bv8>)
    requires count <= 8
    ensures |t| == count
  {
    if count == 0 then [] else [HexChar(Nibble(wc, count - 1))] + HexText(wc, count - 1)
  }

  /** What c99_wctomb writes if there is room. */
  function Encode(wc: bv32): (t: seq<bv8>)
    ensures |t| == if wc < 0xA0 then 1 else if wc < 0x10000 then 6 else 10
  {
    if wc < 0xA0 then [wc as bv8]
    else if wc < 0x10000 then [ESCAPE, SHORT_LETTER] + HexText(wc, 4)
    else [ESCAPE, LONG_LETTER] + HexText(wc, 8)
  }

  /**
   * c99_wctomb into `r` from `at` on, where `n` bytes of room are left. A character below U+00A0 is
   * written whatever `n` is, so that there must be a place for it.
   */
  method Wctomb(r: array<bv8>, at: nat, wc: bv32, n: nat) returns (ret: int)
    requires at + n <= r.Length && (wc < 0xA0 ==> at < r.Length)
    modifies r
    ensures ret == if wc < 0xA0 || |Encode(wc)| <= n then |Encode(wc)| else RET_TOOSMALL
    ensures if ret > 0 then r[..] == old(r[..at]) + Encode(wc) + old(r[at + ret..]) else r[..] == old(r[..])
  {
    hide HexText;
    if wc < 0xA0 {
      r[at] := wc as bv8;
      ret := 1;
    } else {
      var result, u;
      if wc < 0x10000 {
        result, u := 6, SHORT_LETTER;
      } else {
        result, u := 10, LONG_LETTER;
      }
      if n >= result {
        r[at] := ESCAPE;
        r[at + 1] := u;
        ghost var before := r[..];
        WriteHex(r, at + 2, wc, result - 2);
        assert before[..at + 2] == old(r[..at]) + [ESCAPE, u];
        assert old(r[..at]) + [ESCAPE, u] + HexText(wc, result - 2) ==
          old(r[..at]) + ([ESCAPE, u] + HexText(wc, result - 2));
        ret := result;
      } else {
        ret := RET_TOOSMALL;
      }
    }
  }

  /** Its loop over the digits. */
  method WriteHex(r: array<bv8>, at: nat, wc: bv32, digits: nat)
    requires digits <= 8 && at + digits <= r.Length
    modifies r
    ensures r[..] == old(r[..at]) + HexText(wc, digits) + old(r[at + digits..])
  {
    hide Nibble, HexChar, HexText;
    ghost var done: seq<bv8> := [];
    var count := digits;
    while count > 0
      invariant 0 <= count <= digits && |done| == digits - count
      invariant done + HexText(wc, count) == HexText(wc, digits)
      invariant r[..] == old(r[..at]) + done + old(r[at + digits - count..])
    {
      HexTextStep(wc, count, done);
      count := count - 1;
      var i := Nibble(wc, count);
      PutHex(r, at + (digits - 1 - count), i);
      SetNext(old(r[..at]), done, old(r[at + digits - count - 1..]), HexChar(i));
      done := done + [HexChar(i)];
    }
    HexTextEnd(wc, done);
  }

  lemma HexTextStep(wc: bv32, count: nat, done: seq<bv8>)
    requires 0 < count <= 8
    ensures done + HexText(wc, count) == (done + [HexChar(Nibble(wc, count - 1))]) + HexText(wc, count - 1)
  {
    hide Nibble, HexChar;
  }

  lemma HexTextEnd(wc: bv32, done: seq<bv8>)
    ensures done + HexText(wc, 0) == done
  {
  }

  lemma SetNext(before: seq<bv8>, done: seq<bv8>, rest: seq<bv8>, b: bv8)
    requires |rest| > 0
    ensures (before + done + rest)[|before| + |done| := b] == before + (done + [b]) + rest[1..]
  {
  }

  method PutHex(r: array<bv8>, at: nat, i: bv32)
    requires at < r.Length && i < 16
    modifies r
    ensures r[..] == old(r[..])[at := HexChar(i)]
  {
    r[at] := if i < 10 then (0x30 + i) as bv8 else (0x61 - 10 + i) as bv8;
  }

  // ----- one character and back -----

  lemma HexCharDigit(n: bv32)
    requires n < 16
    ensures Digit(HexChar(n)) == Some(n)
  {
  }

  /** The last `count` digits of `wc` as a number. */
  function Low(wc: bv32, count: nat): bv32
    requires count <= 8
  {
    if count == 0 then 0 else Or(Left(Nibble(wc, count - 1), count - 1), Low(wc, count - 1))
  }

  /** The last `count` digits of `wc` as a mask leaves them. */
  function Masked(wc: bv32, count: nat): bv32
    requires count <= 8
  {
    match count
    case 0 => 0
    case 1 => wc & 0xF
    case 2 => wc & 0xFF
    case 3 => wc & 0xFFF
    case 4 => wc & 0xFFFF
    case 5 => wc & 0xF_FFFF
    case 6 => wc & 0xFF_FFFF
    case 7 => wc & 0xFFF_FFFF
    case 8 => wc
  }

  lemma MaskStep0(wc: bv32)
    ensures Or(Left(Nibble(wc, 0), 0), Masked(wc, 0)) == Masked(wc, 1)
  {
  }

  lemma MaskStep1(wc: bv32)
    ensures Or(Left(Nibble(wc, 1), 1), Masked(wc, 1)) == Masked(wc, 2)
  {
  }

  lemma MaskStep2(wc: bv32)
    ensures Or(Left(Nibble(wc, 2), 2), Masked(wc, 2)) == Masked(wc, 3)
  {
  }

  lemma MaskStep3(wc: bv32)
    ensures Or(Left(Nibble(wc, 3), 3), Masked(wc, 3)) == Masked(wc, 4)
  {
  }

  lemma MaskStep4(wc: bv32)
    ensures Or(Left(Nibble(wc, 4), 4), Masked(wc, 4)) == Masked(wc, 5)
  {
  }

  lemma MaskStep5(wc: bv32)
    ensures Or(Left(Nibble(wc, 5), 5), Masked(wc, 5)) == Masked(wc, 6)
  {
  }

  lemma MaskStep6(wc: bv32)
    ensures Or(Left(Nibble(wc, 6), 6), Masked(wc, 6)) == Masked(wc, 7)
  {
  }

  lemma MaskStep7(wc: bv32)
    ensures Or(Left(Nibble(wc, 7), 7), Masked(wc, 7)) == Masked(wc, 8)
  {
  }

  lemma MaskStep(wc: bv32, k: nat)
    requires k < 8
    ensures Or(Left(Nibble(wc, k), k), Masked(wc, k)) == Masked(wc, k + 1)
  {
    hide Or, Left, Nibble, Masked;
    match k
    case 0 => MaskStep0(wc);
    case 1 => MaskStep1(wc);
    case 2 => MaskStep2(wc);
    case 3 => MaskStep3(wc);
    case 4 => MaskStep4(wc);
    case 5 => MaskStep5(wc);
    case 6 => MaskStep6(wc);
    case 7 => MaskStep7(wc);
  }

  lemma {:induction false} LowIsMasked(wc: bv32, count: nat)
    requires count <= 8
    ensures Low(wc, count) == Masked(wc, count)
  {
    hide Or, Left, Nibble;
    if count > 0 {
      LowIsMasked(wc, count - 1);
      MaskStep(wc, count - 1);
    }
  }

  lemma OrZero(a: bv32)
    ensures Or(a, 0) == a && Or(0, a) == a
  {
  }

  lemma OrAssociates(a: bv32, b: bv32, c: bv32)
    ensures Or(Or(a, b), c) == Or(a, Or(b, c))
  {
  }

  /** Digits read back, in front of anything. */
  lemma {:induction false} ReadsHexText(s: seq<bv8>, i: nat, wc: bv32, count: nat, high: bv32)
    requires count <= 8 && i + count <= |s| && s[i..i + count] == HexText(wc, count)
    ensures ReadDigits(s, i, i + count, high) == Value(Or(high, Low(wc, count)))
    decreases count
  {
    hide Digit, HexChar, Left, Nibble, ReadDigits, Or;
    if count > 0 {
      var d := Nibble(wc, count - 1);
      HexCharDigit(d);
      ReadStep(s, i, i + count, high);
      assert s[i] == s[i..i + count][0];
      assert s[i + 1..i + count] == s[i..i + count][1..];
      ReadsHexText(s, i + 1, wc, count - 1, Or(high, Left(d, count - 1)));
      OrAssociates(high, Left(d, count - 1), Low(wc, count - 1));
    } else {
      ReadNothing(s, i, high);
      OrZero(high);
    }
  }

  /** Too few digits to read, whatever bits came before. */
  lemma {:induction false} StopsInHexText(s: seq<bv8>, i: nat, wc: bv32, count: nat, high: bv32)
    requires count <= 8 && i <= |s| < i + count && s[i..] == HexText(wc, count)[..|s| - i]
    ensures ReadDigits(s, i, i + count, high) == Short
    decreases count
  {
    if |s| > i {
      var d := Nibble(wc, count - 1);
      HexCharDigit(d);
      assert s[i] == s[i..][0] == HexText(wc, count)[0];
      assert s[i + 1..] == s[i..][1..] == HexText(wc, count - 1)[..|s| - i - 1];
      StopsInHexText(s, i + 1, wc, count - 1, Or(high, Left(d, count - 1)));
    }
  }

  predicate Surrogate(wc: bv32) { 0xD800 <= wc < 0xE000 }

  lemma NameableUnlessSurrogate(wc: bv32)
    requires wc >= 0xA0
    ensures Nameable(wc) <==> !Surrogate(wc)
    ensures wc < 0x10000 ==> wc & 0xFFFF == wc
  {
  }

  lemma DecodesShort(wc: bv32, s: seq<bv8>)
    requires 0xA0 <= wc < 0x10000 && |s| >= 6 && s[0] == ESCAPE && s[1] == SHORT_LETTER && s[2..6] == HexText(wc, 4)
    ensures Decode(s) == if Surrogate(wc) then Illegal else Char(wc, 6)
  {
    hide ReadDigits, HexText, Low, Or, Nameable, Surrogate;
    ReadsHexText(s, 2, wc, 4, 0);
    LowIsMasked(wc, 4);
    OrZero(wc);
    NameableUnlessSurrogate(wc);
  }

  lemma DecodesLong(wc: bv32, s: seq<bv8>)
    requires wc >= 0x10000 && |s| >= 10 && s[0] == ESCAPE && s[1] == LONG_LETTER && s[2..10] == HexText(wc, 8)
    ensures Decode(s) == if Surrogate(wc) then Illegal else Char(wc, 10)
  {
    hide ReadDigits, HexText, Low, Or, Nameable, Surrogate;
    ReadsHexText(s, 2, wc, 8, 0);
    LowIsMasked(wc, 8);
    OrZero(wc);
    NameableUnlessSurrogate(wc);
  }

  /** What follows does not matter, except to a backslash. */
  lemma DecodesEncoded(wc: bv32, rest: seq<bv8>)
    requires wc != 0x5C
    ensures Decode(Encode(wc) + rest) == if Surrogate(wc) then Illegal else Char(wc, |Encode(wc)|)
  {
    hide ReadDigits, HexText;
    var s := Encode(wc) + rest;
    if wc < 0xA0 {
      assert s[0] == wc as bv8;
    } else if wc < 0x10000 {
      assert s[2..6] == HexText(wc, 4);
      DecodesShort(wc, s);
    } else {
      assert s[2..10] == HexText(wc, 8);
      DecodesLong(wc, s);
    }
  }

  /** A character on its own is read back exactly when it is no surrogate and no backslash. */
  lemma ReadsBackAlone(wc: bv32)
    ensures Decode(Encode(wc)) == Char(wc, |Encode(wc)|) <==> wc != 0x5C && !Surrogate(wc)
  {
    if wc != 0x5C {
      DecodesEncoded(wc, []);
      assert Encode(wc) + [] == Encode(wc);
    }
  }

  /** Every proper beginning of an escape asks for more input. */
  lemma PrefixesAskForMore(wc: bv32, n: nat)
    requires wc >= 0xA0 && 0 < n < |Encode(wc)|
    ensures Decode(Encode(wc)[..n]) == TooFew
  {
    var t, s := Encode(wc), Encode(wc)[..n];
    if n >= 2 {
      var count := |t| - 2;
      assert s[2..] == HexText(wc, count)[..|s| - 2];
      StopsInHexText(s, 2, wc, count, 0);
    }
  }

  // ----- streams -----

  predicate Readable(wcs: seq<bv32>) {
    forall i :: 0 <= i < |wcs| ==> wcs[i] != 0x5C && !Surrogate(wcs[i])
  }

  function EncodeAll(wcs: seq<bv32>): seq<bv8> {
    if |wcs| == 0 then [] else Encode(wcs[0]) + EncodeAll(wcs[1..])
  }

  /** The whole input, character by character; None on an error or an incomplete character. */
  function DecodeAll(s: seq<bv8>): Option<seq<bv32>>
    decreases |s|
  {
    if |s| == 0 then Some([])
    else
      match Decode(s)
      case Char(wc, used) =>
        if used == 0 || used > |s| then None
        else (match DecodeAll(s[used..]) case None => None case Some(more) => Some([wc] + more))
      case _ => None
  }

  /** Everything wctomb writes without backslashes and surrogates decodes to what it was given. */
  lemma {:induction false} StreamRoundTrip(wcs: seq<bv32>)
    requires Readable(wcs)
    ensures DecodeAll(EncodeAll(wcs)) == Some(wcs)
  {
    if |wcs| > 0 {
      var rest := EncodeAll(wcs[1..]);
      var s := Encode(wcs[0]) + rest;
      DecodesEncoded(wcs[0], rest);
      StreamRoundTrip(wcs[1..]);
      assert s[|Encode(wcs[0])|..] == rest;
      assert wcs == [wcs[0]] + wcs[1..];
    }
  }

  /** A code can be cut anywhere: the characters before the cut are read, the cut one asks for more. */
  lemma {:induction false} StreamPrefix(wcs: seq<bv32>, last: bv32, n: nat)
    requires Readable(wcs) && last >= 0xA0 && 0 < n < |Encode(last)|
    ensures ReadUntilShort(EncodeAll(wcs) + Encode(last)[..n]) == Some(wcs)
  {
    hide Decode, Encode;
    var cut := Encode(last)[..n];
    if |wcs| == 0 {
      PrefixesAskForMore(last, n);
      assert EncodeAll(wcs) + cut == cut;
    } else {
      var rest := EncodeAll(wcs[1..]) + cut;
      var s := Encode(wcs[0]) + rest;
      DecodesEncoded(wcs[0], rest);
      StreamPrefix(wcs[1..], last, n);
      assert EncodeAll(wcs) + cut == s;
      assert s[|Encode(wcs[0])|..] == rest;
      assert wcs == [wcs[0]] + wcs[1..];
    }
  }

  /** The characters read before input runs out in the middle of one; None when it does not. */
  function ReadUntilShort(s: seq<bv8>): Option<seq<bv32>>
    decreases |s|
  {
    if |s| == 0 then None
    else
      match Decode(s)
      case Char(wc, used) =>
        if used == 0 || used > |s| then None
        else (match ReadUntilShort(s[used..]) case None => None case Some(more) => Some([wc] + more))
      case TooFew => Some([])
      case Illegal => None
  }

  // ----- section 6.4.3 of ISO/IEC 9899:1999 -----

  /** A hexadecimal digit of the standard. */
  function HexDigit(c: bv8): Option<bv32> {
    if 0x30 <= c <= 0x39 then Some((c - 0x30) as bv32)
    else if 0x41 <= c <= 0x46 then Some((c - 0x37) as bv32)
    else if 0x61 <= c <= 0x66 then Some((c - 0x57) as bv32)
    else None
  }

  /** The digits of an escape by the standard. */
  function ReadHex(s: seq<bv8>, i: nat, end: nat, wc: bv32): Reading
    requires i <= end <= i + 8
    decreases end - i
  {
    if i == end then Value(wc)
    else if |s| <= i then Short
    else
      match HexDigit(s[i])
      case None => NoDigit
      case Some(d) => ReadHex(s, i + 1, end, Or(wc, Left(d, end - 1 - i)))
  }

  /** Paragraph 2: below U+00A0 only $, @ and ` have such names, and the surrogates have none. */
  predicate Excluded(wc: bv32) {
    (wc < 0xA0 && wc as int != '$' as int && wc as int != '@' as int && wc as int != '`' as int) ||
    Surrogate(wc)
  }

  function Named(r: Reading, used: nat): Decoded {
    match r
    case Value(wc) => if Excluded(wc) then Illegal else Char(wc, used)
    case Short => TooFew
    case NoDigit => Char(0x5C, 1)
  }

  lemma NamedIsEscaped(r: Reading, used: nat)
    ensures Named(r, used) == Escaped(r, used)
  {
    if r.Value? {
      assert '$' as int == 0x24 && '@' as int == 0x40 && '`' as int == 0x60;
      assert Excluded(r.wc) <==> !Nameable(r.wc);
    }
  }

  /** The decoder with the digits and the names of the standard. */
  function DecodeStrict(s: seq<bv8>): Decoded
    requires |s| > 0
  {
    if s[0] >= 0xA0 then Illegal
    else if s[0] != ESCAPE then Char(s[0] as bv32, 1)
    else if |s| < 2 then TooFew
    else if s[1] == SHORT_LETTER then Named(ReadHex(s, 2, 6, 0), 6)
    else if s[1] == LONG_LETTER then Named(ReadHex(s, 2, 10, 0), 10)
    else Char(0x5C, 1)
  }

  predicate Alphanumeric(c: bv8) { 0x30 <= c <= 0x39 || 0x41 <= c <= 0x5A || 0x61 <= c <= 0x7A }

  predicate BeyondF(c: bv8) { 0x47 <= c <= 0x5A || 0x67 <= c <= 0x7A }

  /** Where the digits of an escape end that `s` starts with; 2 if it does not start with one. */
  function DigitsEnd(s: seq<bv8>): nat {
    if |s| < 2 || s[0] != ESCAPE then 2
    else if s[1] == SHORT_LETTER then 6
    else if s[1] == LONG_LETTER then 10
    else 2
  }

  /** The bytes from `i` up to `end`, as far as they are available. */
  function Available(s: seq<bv8>, i: nat, end: nat): seq<bv8> {
    if i >= |s| || i >= end then [] else s[i..if end < |s| then end else |s|]
  }

  predicate AllAlphanumeric(digits: seq<bv8>) {
    forall j :: 0 <= j < |digits| ==> Alphanumeric(digits[j])
  }

  /** Letters and digits only, and a letter beyond F among them. */
  predicate LettersBeyond(digits: seq<bv8>) {
    AllAlphanumeric(digits) && exists j :: 0 <= j < |digits| && BeyondF(digits[j])
  }

  /** The bytes where an escape has its digits are letters and digits, not all of them hexadecimal. */
  predicate LetterBeyondF(s: seq<bv8>) {
    LettersBeyond(Available(s, 2, DigitsEnd(s)))
  }

  lemma DigitKinds(c: bv8)
    ensures !BeyondF(c) ==> Digit(c) == HexDigit(c)
    ensures Alphanumeric(c) <==> Digit(c).Some?
    ensures HexDigit(c) == None <==> BeyondF(c) || !Alphanumeric(c)
    ensures BeyondF(c) ==> Alphanumeric(c)
  {
  }

  lemma AvailableStep(s: seq<bv8>, i: nat, end: nat)
    requires i < end && i < |s|
    ensures Available(s, i, end) == [s[i]] + Available(s, i + 1, end)
  {
  }

  lemma LettersStep(c: bv8, digits: seq<bv8>)
    ensures var all := [c] + digits;
            LettersBeyond(all) <==>
            if BeyondF(c) then AllAlphanumeric(digits) else Alphanumeric(c) && LettersBeyond(digits)
  {
    hide Alphanumeric, BeyondF;
    var all := [c] + digits;
    assert all[0] == c && forall j :: 0 <= j < |digits| ==> all[j + 1] == digits[j];
    DigitKinds(c);
    if LettersBeyond(digits) {
      var j :| 0 <= j < |digits| && BeyondF(digits[j]);
      assert BeyondF(all[j + 1]);
    }
    if LettersBeyond(all) && !BeyondF(c) {
      var j :| 0 <= j < |all| && BeyondF(all[j]);
      assert BeyondF(digits[j - 1]);
    }
    assert AllAlphanumeric(all) ==> AllAlphanumeric(digits) by {
      assert forall j :: 0 <= j < |digits| ==> digits[j] == all[j + 1];
    }
  }

  /** The loop stops at a byte exactly when one of the bytes is no letter and no digit. */
  lemma {:induction false} StopsAtOthers(s: seq<bv8>, i: nat, end: nat, wc: bv32)
    requires i <= end <= i + 8
    ensures ReadDigits(s, i, end, wc) == NoDigit <==> !AllAlphanumeric(Available(s, i, end))
    decreases end - i
  {
    hide Digit, Left, Or, Alphanumeric, Available;
    if i < end && i < |s| {
      ReadStep(s, i, end, wc);
      DigitKinds(s[i]);
      AvailableStep(s, i, end);
      var rest := Available(s, i + 1, end);
      assert forall j :: 0 <= j < |rest| ==> ([s[i]] + rest)[j + 1] == rest[j];
      assert ([s[i]] + rest)[0] == s[i];
      if Digit(s[i]).Some? {
        StopsAtOthers(s, i + 1, end, Or(wc, Left(Digit(s[i]).value, end - 1 - i)));
      }
    } else {
      NothingAvailable(s, i, end);
    }
  }

  lemma NothingAvailable(s: seq<bv8>, i: nat, end: nat)
    requires i >= end || i >= |s|
    ensures Available(s, i, end) == []
  {
  }

  /** The two loops agree unless a letter beyond F is followed by letters and digits only. */
  lemma {:induction false} ReadingsAgree(s: seq<bv8>, i: nat, end: nat, wc: bv32)
    requires i <= end <= i + 8
    ensures ReadHex(s, i, end, wc) ==
            (if LettersBeyond(Available(s, i, end)) then NoDigit else ReadDigits(s, i, end, wc))
    ensures LettersBeyond(Available(s, i, end)) ==> ReadDigits(s, i, end, wc) != NoDigit
    decreases end - i
  {
    hide Digit, HexDigit, BeyondF, Alphanumeric, Left, Or, LettersBeyond, Available;
    StopsAtOthers(s, i, end, wc);
    if i < end && i < |s| {
      var rest := Available(s, i + 1, end);
      ReadStep(s, i, end, wc);
      DigitKinds(s[i]);
      AvailableStep(s, i, end);
      LettersStep(s[i], rest);
      if HexDigit(s[i]).Some? {
        ReadingsAgree(s, i + 1, end, Or(wc, Left(HexDigit(s[i]).value, end - 1 - i)));
      } else if BeyondF(s[i]) {
        StopsAtOthers(s, i + 1, end, Or(wc, Left(Digit(s[i]).value, end - 1 - i)));
      }
    } else {
      NothingAvailable(s, i, end);
      NoLetters();
    }
  }

  lemma NoLetters()
    ensures !LettersBeyond([])
  {
  }

  /**
   * c99_mbtowc decodes as section 6.4.3 says exactly on the inputs that have no letter beyond F
   * among the letters and digits of an escape.
   */
  lemma DecodesByTheStandard(s: seq<bv8>)
    requires |s| > 0
    ensures Decode(s) == DecodeStrict(s) <==> !LetterBeyondF(s)
  {
    hide ReadDigits, ReadHex, LettersBeyond, Available, Nameable;
    if DigitsEnd(s) == 2 {
      NothingAvailable(s, 2, 2);
      NoLetters();
    } else {
      var end := DigitsEnd(s);
      ReadingsAgree(s, 2, end, 0);
      NamedIsEscaped(ReadHex(s, 2, end, 0), end);
    }
  }

  /** The same character, or the two cases of one letter. */
  predicate SameLetter(c: bv8, d: bv8) {
    c == d || ((0x41 <= c <= 0x5A || 0x61 <= c <= 0x7A) && (0x41 <= d <= 0x5A || 0x61 <= d <= 0x7A) &&
      c & 0xDF == d & 0xDF)
  }

  lemma {:induction false} ReadsAnyCase(s: seq<bv8>, t: seq<bv8>, i: nat, end: nat, wc: bv32)
    requires |s| == |t| && i <= end <= i + 8
    requires forall j :: i <= j < |s| ==> SameLetter(s[j], t[j])
    ensures ReadDigits(s, i, end, wc) == ReadDigits(t, i, end, wc)
    decreases end - i
  {
    hide Left, Or, SameLetter, Digit;
    if i < end {
      ReadStep(s, i, end, wc);
      ReadStep(t, i, end, wc);
      if i < |s| {
        DigitOfLetter(s[i], t[i]);
        if Digit(s[i]).Some? {
          ReadsAnyCase(s, t, i + 1, end, Or(wc, Left(Digit(s[i]).value, end - 1 - i)));
        }
      }
    }
  }

  lemma DigitOfLetter(c: bv8, d: bv8)
    requires SameLetter(c, d)
    ensures Digit(c) == Digit(d)
  {
  }

  /** The digits of an escape may be upper or lower case letters. */
  lemma DecodesAnyCase(s: seq<bv8>, t: seq<bv8>)
    requires |s| == |t| > 0 && s[0] == t[0] && (|s| > 1 ==> s[1] == t[1])
    requires forall j :: 2 <= j < |s| ==> SameLetter(s[j], t[j])
    ensures Decode(s) == Decode(t)
  {
    hide ReadDigits, SameLetter;
    if DigitsEnd(s) > 2 {
      ReadsAnyCase(s, t, 2, DigitsEnd(s), 0);
    }
  }

  /** An input on the other side: four letters and digits of which two are beyond F. */
  lemma LettersBeyondF()
    ensures Decode([ESCAPE, SHORT_LETTER, 0x30, 0x30, 0x47, 0x47]) == Char(0x110, 6)
    ensures LetterBeyondF([ESCAPE, SHORT_LETTER, 0x30, 0x30, 0x47, 0x47])
  {
    var s := [ESCAPE, SHORT_LETTER, 0x30, 0x30, 0x47, 0x47];
    assert ReadDigits(s, 5, 6, 0x100) == ReadDigits(s, 6, 6, 0x110);
    assert ReadDigits(s, 4, 6, 0) == ReadDigits(s, 5, 6, 0x100);
    assert ReadDigits(s, 3, 6, 0) == ReadDigits(s, 4, 6, 0);
    assert ReadDigits(s, 2, 6, 0) == ReadDigits(s, 3, 6, 0);
    assert Available(s, 2, 6) == [0x30, 0x30, 0x47, 0x47];
    assert BeyondF(Available(s, 2, 6)[2]);
  }
}
