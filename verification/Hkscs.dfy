/**
 * The BIG5-HKSCS:2004 converter of libiconv: a transducer in both directions that holds back half
 * of a combining sequence. The code tables are parameters.
 */
module Hkscs {
  import opened Bytes
  import opened Values

  const RET_ILSEQ := -1
  const RET_TOOFEW := -2
  const RET_ILUNI := -1
  const RET_TOOSMALL := -2

  // ----- the tables -----

  type Code = (byte, byte)

  /** One double-byte set: its lead bytes and its two tables. */
  datatype Table = Table(leads: byte -> bool, toUnicode: Code -> Option<nat>, toCode: nat -> Option<Code>)
  {
    function Decode(b: Code): Option<nat> {
      if leads(b.0) then toUnicode(b) else None
    }

    /** A code that a character is mapped to is mapped back to it. */
    ghost predicate Inverse() {
      forall wc: nat :: toCode(wc).Some? ==> toCode(wc).value.0 >= 0x80 && Decode(toCode(wc).value) == Some(wc)
    }
  }

  datatype Tables = Tables(big5: Table, h1999: Table, h2001: Table, h2004: Table)

  predicate Trail(b: byte) { 0x40 <= b < 0x7F || 0xA1 <= b < 0xFF }

  /** The rows of BIG5 that HKSCS replaces. */
  predicate Replaced(b: Code) { (b.0 == 0xC6 && b.1 >= 0xA1) || b.0 == 0xC7 }

  /** The part of BIG5 that is code set 1. */
  function Big5Decode(t: Tables, b: Code): Option<nat> {
    if 0xA1 <= b.0 < 0xFF && Trail(b.1) && !Replaced(b) then t.big5.Decode(b) else None
  }

  predicate Composed(b: Code) {
    b.0 == 0x88 && (b.1 == 0x62 || b.1 == 0x64 || b.1 == 0xA3 || b.1 == 0xA5)
  }

  /** What the converter relies on. */
  ghost predicate Lawful(t: Tables) {
    t.big5.Inverse() && t.h1999.Inverse() && t.h2001.Inverse() && t.h2004.Inverse() &&
    (forall wc: nat :: t.big5.toCode(wc).Some? ==>
      0xA1 <= t.big5.toCode(wc).value.0 < 0xFF && Trail(t.big5.toCode(wc).value.1)) &&
    // no code is in two sets
    (forall b: Code :: Big5Decode(t, b).Some? ==>
      t.h1999.Decode(b) == None && t.h2001.Decode(b) == None && t.h2004.Decode(b) == None) &&
    (forall b: Code :: t.h1999.Decode(b).Some? ==> t.h2001.Decode(b) == None && t.h2004.Decode(b) == None) &&
    (forall b: Code :: t.h2001.Decode(b).Some? ==> t.h2004.Decode(b) == None) &&
    // the characters that may start a sequence, and the composed codes
    t.big5.toCode(0xCA) == None && t.h1999.toCode(0xCA) == Some((0x88, 0x66)) &&
    t.big5.toCode(0xEA) == None && t.h1999.toCode(0xEA) == Some((0x88, 0xA7)) &&
    (forall b: Code :: Composed(b) ==>
      t.h1999.Decode(b) == None && t.h2001.Decode(b) == None && t.h2004.Decode(b) == None)
  }

  /** Tables with the two characters that may start a sequence and nothing else. */
  function SmallestTables(): Tables {
    var none := Table(b => false, b => None, wc => None);
    var two := Table(
      b => b == 0x88,
      b => if b == (0x88, 0x66) then Some(0xCA) else if b == (0x88, 0xA7) then Some(0xEA) else None,
      wc => if wc == 0xCA then Some((0x88, 0x66)) else if wc == 0xEA then Some((0x88, 0xA7)) else None);
    Tables(none, two, none, none)
  }

  lemma SmallestTablesAreLawful()
    ensures Lawful(SmallestTables())
  {
  }

  // ----- one character to bytes -----

  predicate Combining(wc: nat) { wc == 0x0304 || wc == 0x030C }

  /** A character that may start a sequence. */
  predicate Starts(wc: nat) { wc == 0xCA || wc == 0xEA }

  /** ostate: nothing, or the second byte of the code held back. */
  predicate OutState(o: byte) { o == 0 || o == 0x66 || o == 0xA7 }

  /** The code of a character beyond ASCII in the first set that has it. */
  function CodeOf(t: Tables, wc: nat): Option<Code> {
    if t.big5.toCode(wc).Some? && !Replaced(t.big5.toCode(wc).value) then t.big5.toCode(wc)
    else if t.h1999.toCode(wc).Some? then t.h1999.toCode(wc)
    else if t.h2001.toCode(wc).Some? then t.h2001.toCode(wc)
    else t.h2004.toCode(wc)
  }

  /** The second byte of the composed code. */
  function Compose(last: byte, wc: nat): byte
    requires last == 0x66 || last == 0xA7
    requires Combining(wc)
  {
    last + wc / 8 % 4 * 2 - 4
  }

  /** The bytes held back. */
  function Held(o: byte): bytes {
    if o == 0 then [] else [0x88, o]
  }

  /** What a character writes, given unlimited room, and the state it leaves; None if it has no code. */
  function Emit(t: Tables, o: byte, wc: nat): Option<(bytes, byte)>
    requires OutState(o)
  {
    if o != 0 && Combining(wc) then Some(([0x88, Compose(o, wc)], 0))
    else if wc < 0x80 then Some((Held(o) + [wc], 0))
    else
      match CodeOf(t, wc)
      case None => None
      case Some(b) => if Starts(wc) then Some((Held(o), b.1)) else Some((Held(o) + [b.0, b.1], 0))
  }

  /** The first of several answers. */
  function First<T>(answers: seq<Option<T>>): Option<T> {
    if |answers| == 0 then None
    else if answers[0].Some? then answers[0]
    else First(answers[1..])
  }

  lemma FirstOfFour<T>(a: Option<T>, b: Option<T>, c: Option<T>, d: Option<T>)
    ensures First([a, b, c, d]) == if a.Some? then a else if b.Some? then b else if c.Some? then c else d
  {
    assert [d][1..] == [] && First([d]) == d;
    assert [c, d][1..] == [d] && First([c, d]) == if c.Some? then c else d;
    assert [b, c, d][1..] == [c, d];
    assert [a, b, c, d][1..] == [b, c, d];
  }

  /** A code as a number of 16 bits. */
  function CodeNumber(b: Code): nat { 0x100 * b.0 + b.1 }

  /** The code of BIG5, but for the rows from 0xC6A1 to 0xC7FE, which HKSCS uses itself. */
  function Big5Code(t: Tables, wc: nat): Option<Code> {
    var code := t.big5.toCode(wc);
    if code.Some? && 0xC6A1 <= CodeNumber(code.value) < 0xC800 then None else code
  }

  /** A character is written with its code in the first set that has one. */
  lemma CodeOfFirstSet(t: Tables, wc: nat)
    ensures CodeOf(t, wc) == First([Big5Code(t, wc), t.h1999.toCode(wc), t.h2001.toCode(wc), t.h2004.toCode(wc)])
  {
    FirstOfFour(Big5Code(t, wc), t.h1999.toCode(wc), t.h2001.toCode(wc), t.h2004.toCode(wc));
  }

  datatype Attempt = Wrote(out: bytes, state: byte) | Retry | Refused

  /** big5hkscs2004_wctomb with room for `n` bytes. */
  function Try(t: Tables, o: byte, wc: nat, n: nat): Attempt
    requires OutState(o)
  {
    if o != 0 && n < 2 then Retry
    else
      match Emit(t, o, wc)
      case None => Refused
      case Some((out, o')) => if n < |out| then Retry else Wrote(out, o')
  }

  /** More room is asked for exactly when there is less than is to be written; before a refusal, than is held back. */
  lemma RoomNeeded(t: Tables, o: byte, wc: nat, n: nat)
    requires OutState(o)
    ensures var needed := match Emit(t, o, wc) case None => |Held(o)| case Some((out, _)) => |out|;
            Try(t, o, wc, n) == Retry <==> n < needed
    ensures Try(t, o, wc, n) == Refused <==> Emit(t, o, wc) == None && n >= |Held(o)|
  {
  }

  lemma StartsAreHeld(t: Tables)
    requires Lawful(t)
    ensures CodeOf(t, 0xCA) == Some((0x88, 0x66)) && CodeOf(t, 0xEA) == Some((0x88, 0xA7))
  {
  }

  /** The state stays one of the three, given the code points that may start a sequence. */
  lemma EmitKeepsState(t: Tables, o: byte, wc: nat)
    requires Lawful(t) && OutState(o) && Emit(t, o, wc).Some?
    ensures OutState(Emit(t, o, wc).value.1)
  {
  }

  // ----- bytes to characters -----

  /** The two characters of a composed code. */
  function FirstOf(c2: byte): nat {
    var n: nat := c2;
    n / 8 * 4 + 0x9A
  }

  function SecondOf(c2: byte): nat {
    var n: nat := c2;
    n / 2 % 4 * 8 + 0x2FC
  }

  datatype Decoded = Read(wc: nat, used: nat, state: nat) | TooFew | Illegal

  /** A table function on the bytes that are available. */
  function TableRead(t: Table, s: bytes): Decoded
    requires |s| > 0
  {
    if !t.leads(s[0]) then Illegal
    else if |s| < 2 then TooFew
    else
      match t.toUnicode((s[0], s[1]))
      case None => Illegal
      case Some(wc) => Read(wc, 2, 0)
  }

  /** big5hkscs2004_mbtowc when no character is held back. */
  function ReadFresh(t: Tables, s: bytes): Decoded
    requires |s| > 0
  {
    var c := s[0];
    if c < 0x80 then Read(c, 1, 0)
    else if 0xA1 <= c < 0xFF && |s| < 2 then TooFew
    else
      var b5 := if 0xA1 <= c < 0xFF && Trail(s[1]) && !Replaced((c, s[1])) then TableRead(t.big5, s[..2]) else Illegal;
      if b5 != Illegal then b5
      else if TableRead(t.h1999, s) != Illegal then TableRead(t.h1999, s)
      else if TableRead(t.h2001, s) != Illegal then TableRead(t.h2001, s)
      else if TableRead(t.h2004, s) != Illegal then TableRead(t.h2004, s)
      else if c == 0x88 then
        if |s| < 2 then TooFew
        else if Composed((c, s[1])) then Read(FirstOf(s[1]), 2, SecondOf(s[1]))
        else Illegal
      else Illegal
  }

  /**
   * The character of a code of BIG5: leads 0xA1 to 0xFE, trails 0x40 to 0x7E and 0xA1 to 0xFE, but for
   * the rows HKSCS uses.
   */
  function Big5Character(t: Tables, b: Code): Option<nat> {
    if 0xA1 <= b.0 <= 0xFE && (0x40 <= b.1 <= 0x7E || 0xA1 <= b.1 <= 0xFE) && !(0xC6A1 <= CodeNumber(b) < 0xC800)
    then t.big5.Decode(b)
    else None
  }

  /** Two bytes are read in the first set that has them, or as one of the four composed codes. */
  lemma ReadsInFirstSet(t: Tables, c: byte, c2: byte)
    requires c >= 0x80
    ensures var b := (c, c2);
            var r := ReadFresh(t, [c, c2]);
            match First([Big5Character(t, b), t.h1999.Decode(b), t.h2001.Decode(b), t.h2004.Decode(b)])
            case Some(wc) => r == Read(wc, 2, 0)
            case None =>
              if CodeNumber(b) == 0x8862 then r == Read(0xCA, 2, 0x304)
              else if CodeNumber(b) == 0x8864 then r == Read(0xCA, 2, 0x30C)
              else if CodeNumber(b) == 0x88A3 then r == Read(0xEA, 2, 0x304)
              else if CodeNumber(b) == 0x88A5 then r == Read(0xEA, 2, 0x30C)
              else r == Illegal
  {
    var b := (c, c2);
    FirstOfFour(Big5Character(t, b), t.h1999.Decode(b), t.h2001.Decode(b), t.h2004.Decode(b));
    assert [c, c2][..2] == [c, c2];
  }

  /**
   * A byte beyond ASCII alone is never illegal if some byte behind it makes up a code: it asks for
   * more. Two bytes are always enough, and what follows them does not matter.
   */
  lemma AsksForMore(t: Tables, c: byte, c2: byte, rest: bytes)
    requires c >= 0x80
    ensures ReadFresh(t, [c, c2]).Read? ==> ReadFresh(t, [c]) == TooFew
    ensures ReadFresh(t, [c, c2]) != TooFew && ReadFresh(t, [c, c2] + rest) == ReadFresh(t, [c, c2])
    ensures ReadFresh(t, [c, c2]).Read? ==> ReadFresh(t, [c, c2]).used == 2
  {
    var s := [c, c2] + rest;
    assert s[..2] == [c, c2] == [c, c2][..2];
  }

  /** big5hkscs2004_mbtowc. */
  function ReadOne(t: Tables, i: nat, s: bytes): Decoded
    requires |s| > 0
  {
    if i != 0 then Read(i, 0, 0) else ReadFresh(t, s)
  }

  // ----- the converter -----

  class Conv {
    /** The character held back on input; 0 is none. */
    var istate: nat
    /** The second byte of the code held back on output; 0 is none. */
    var ostate: byte
    const t: Tables

    constructor (t: Tables)
      ensures istate == 0 && ostate == 0 && this.t == t
    {
      istate, ostate, this.t := 0, 0, t;
    }

    /** big5hkscs2004_wctomb into `r` from `at` on, where there is room for `n` bytes. */
    method Wctomb(r: array<byte>, at: nat, wc: nat, n: nat) returns (ret: int)
      requires Lawful(t) && OutState(ostate) && at + n <= r.Length
      modifies this`ostate, r
      ensures OutState(ostate) && r[..at] == old(r[..at]) && r[at + n..] == old(r[at + n..])
      ensures match Try(t, old(ostate), wc, n)
              case Wrote(out, state) => ret == |out| && r[at..at + ret] == out && ostate == state
              case Retry => ret == RET_TOOSMALL && ostate == old(ostate)
              case Refused => ret == RET_ILUNI && ostate == old(ostate)
    {
      hide Lawful, CodeOf;
      if ostate != 0 && (wc == 0x0304 || wc == 0x030C) {
        ret := PutPair(r, at, (0x88, ostate + wc / 8 % 4 * 2 - 4), n, 0);
        return;
      }
      var count := PutHeld(r, at, n);
      if count < 0 {
        return count;
      }
      ghost var held := Held(ostate);
      assert r[at..at + count] == held;
      if wc < 0x80 {
        if n > count {
          r[at + count] := wc;
          assert r[at..at + count + 1] == held + [wc];
          ostate := 0;
          ret := count + 1;
        } else {
          ret := RET_TOOSMALL;
        }
      } else {
        StartsAreHeld(t);
        ret := PutCode(r, at, wc, n, count);
        assert r[..at] == r[..at + count][..at];
        assert r[at..at + count] == r[..at + count][at..] == held;
        assert ret > count ==> r[at..at + ret] == r[at..at + count] + r[at + count..at + ret];
      }
    }

    /** The code held back goes first; the state does not change yet. */
    method PutHeld(r: array<byte>, at: nat, n: nat) returns (count: int)
      requires OutState(ostate) && at + n <= r.Length
      modifies r
      ensures if ostate != 0 && n < 2 then count == RET_TOOSMALL else count == |Held(ostate)| && count <= n
      ensures r[..at] == old(r[..at]) && r[at + n..] == old(r[at + n..])
      ensures count >= 0 ==> r[..at + count] == old(r[..at]) + Held(ostate)
    {
      count := 0;
      if ostate != 0 {
        if n < 2 {
          return RET_TOOSMALL;
        }
        r[at], r[at + 1] := 0x88, ostate;
        count := 2;
      }
    }

    /** The sets one after the other. */
    method PutCode(r: array<byte>, at: nat, wc: nat, n: nat, count: nat) returns (ret: int)
      requires Lawful(t) && count <= n && at + n <= r.Length
      modifies this`ostate, r
      ensures r[..at + count] == old(r[..at + count]) && r[at + n..] == old(r[at + n..])
      ensures match CodeOf(t, wc)
              case None => ret == RET_ILUNI && ostate == old(ostate)
              case Some(b) =>
                if Starts(wc) then ret == count && ostate == b.1
                else if n < count + 2 then ret == RET_TOOSMALL && ostate == old(ostate)
                else ret == count + 2 && ostate == 0 && r[at + count..at + ret] == [b.0, b.1]
    {
      var buf := t.big5.toCode(wc);
      if buf.Some? && !((buf.value.0 == 0xC6 && buf.value.1 >= 0xA1) || buf.value.0 == 0xC7) {
        ret := PutPair(r, at, buf.value, n, count);
        return;
      }
      buf := t.h1999.toCode(wc);
      if buf.Some? {
        if wc == 0xCA || wc == 0xEA {
          ostate := buf.value.1;
          return count;
        }
        ret := PutPair(r, at, buf.value, n, count);
        return;
      }
      buf := t.h2001.toCode(wc);
      if buf == None {
        buf := t.h2004.toCode(wc);
      }
      if buf == None {
        return RET_ILUNI;
      }
      ret := PutPair(r, at, buf.value, n, count);
    }

    /** A code of two bytes, if there is room. */
    method PutPair(r: array<byte>, at: nat, b: Code, n: nat, count: nat) returns (ret: int)
      requires count <= n && at + n <= r.Length
      modifies this`ostate, r
      ensures r[..at + count] == old(r[..at + count]) && r[at + n..] == old(r[at + n..])
      ensures if n < count + 2 then ret == RET_TOOSMALL && ostate == old(ostate)
              else ret == count + 2 && ostate == 0 && r[at + count..at + ret] == [b.0, b.1]
    {
      if n >= count + 2 {
        r[at + count], r[at + count + 1] := b.0, b.1;
        ostate := 0;
        ret := count + 2;
      } else {
        ret := RET_TOOSMALL;
      }
    }

    /** big5hkscs2004_reset, and the clearing of the state that its caller does. */
    method Reset(r: array<byte>, at: nat, n: nat) returns (ret: int)
      requires OutState(ostate) && at + n <= r.Length
      modifies this`ostate, r
      ensures r[..at] == old(r[..at]) && r[at + n..] == old(r[at + n..])
      ensures if n < |Held(old(ostate))| then ret == RET_TOOSMALL && ostate == old(ostate)
              else ret == |Held(old(ostate))| && r[at..at + ret] == Held(old(ostate)) && ostate == 0
    {
      if ostate != 0 {
        if n < 2 {
          return RET_TOOSMALL;
        }
        r[at], r[at + 1] := 0x88, ostate;
        ostate := 0;
        return 2;
      }
      return 0;
    }

    /** big5hkscs2004_mbtowc on the available bytes `s`. */
    method Mbtowc(s: bytes) returns (ret: int, pwc: nat)
      requires |s| > 0
      modifies this`istate
      ensures match ReadOne(t, old(istate), s)
              case Read(wc, used, state) => ret == used && pwc == wc && istate == state
              case TooFew => ret == RET_TOOFEW && istate == old(istate)
              case Illegal => ret == RET_ILSEQ && istate == old(istate)
    {
      pwc := 0;
      if istate != 0 {
        pwc := istate;
        istate := 0;
        return 0, pwc;
      }
      var c := s[0];
      if c < 0x80 {
        return 1, c;
      }
      if c >= 0xA1 && c < 0xFF {
        if |s| < 2 {
          return RET_TOOFEW, 0;
        }
        var c2 := s[1];
        if (c2 >= 0x40 && c2 < 0x7F) || (c2 >= 0xA1 && c2 < 0xFF) {
          if !((c == 0xC6 && c2 >= 0xA1) || c == 0xC7) {
            ret, pwc := ReadTable(t.big5, s[..2]);
            if ret != RET_ILSEQ {
              return;
            }
          }
        }
      }
      ret, pwc := ReadTable(t.h1999, s);
      if ret != RET_ILSEQ {
        return;
      }
      ret, pwc := ReadTable(t.h2001, s);
      if ret != RET_ILSEQ {
        return;
      }
      ret, pwc := ReadTable(t.h2004, s);
      if ret != RET_ILSEQ {
        return;
      }
      if c == 0x88 {
        if |s| < 2 {
          return RET_TOOFEW, 0;
        }
        var c2 := s[1];
        if c2 == 0x62 || c2 == 0x64 || c2 == 0xA3 || c2 == 0xA5 {
          istate := SecondOf(c2);
          return 2, FirstOf(c2);
        }
      }
      return RET_ILSEQ, 0;
    }

    /** A table function. */
    static method ReadTable(table: Table, s: bytes) returns (ret: int, pwc: nat)
      requires |s| > 0
      ensures match TableRead(table, s)
              case Read(wc, used, state) => ret == used == 2 && pwc == wc && state == 0
              case TooFew => ret == RET_TOOFEW
              case Illegal => ret == RET_ILSEQ
    {
      if !table.leads(s[0]) {
        return RET_ILSEQ, 0;
      }
      if |s| < 2 {
        return RET_TOOFEW, 0;
      }
      var wc := table.toUnicode((s[0], s[1]));
      if wc == None {
        return RET_ILSEQ, 0;
      }
      return 2, wc.value;
    }

    /** normal_flushwc at the end of the input. */
    method Flushwc() returns (ret: int, pwc: nat)
      modifies this`istate
      ensures istate == 0 && ret == (if old(istate) == 0 then 0 else 1) && (old(istate) != 0 ==> pwc == old(istate))
    {
      ret, pwc := 0, 0;
      if istate != 0 {
        pwc := istate;
        istate := 0;
        ret := 1;
      }
    }

    // ----- the loops that drive it -----

    /** The output side of unicode_loop_convert: characters into one buffer until it is full or one has no code. */
    method FillBuffer(buf: array<byte>, wcs: seq<nat>) returns (at: nat, used: nat, refused: bool)
      requires Lawful(t) && OutState(ostate)
      modifies this`ostate, buf
      ensures OutState(ostate) && at <= buf.Length && used <= |wcs|
      ensures EncodeAll(t, old(ostate), wcs) == Behind(buf[..at], EncodeAll(t, ostate, wcs[used..]))
      ensures refused ==> used < |wcs| && Emit(t, ostate, wcs[used]) == None
      ensures !refused && used < |wcs| ==> at == buf.Length || Try(t, ostate, wcs[used], buf.Length - at) == Retry
      ensures used == 0 ==> at == 0
      ensures buf.Length >= 4 && |wcs| > 0 ==> refused || used > 0
    {
      hide Lawful, EncodeAll, Emit;
      at, used, refused := 0, 0, false;
      ghost var whole := EncodeAll(t, ostate, wcs);
      BehindNothing(whole);
      assert buf[..0] == [] && wcs[0..] == wcs;
      while used < |wcs| && at < buf.Length
        invariant OutState(ostate) && at <= buf.Length && used <= |wcs| && (used == 0 ==> at == 0)
        invariant whole == Behind(buf[..at], EncodeAll(t, ostate, wcs[used..]))
        decreases |wcs| - used
      {
        ghost var before, o := buf[..at], ostate;
        var ret := Wctomb(buf, at, wcs[used], buf.Length - at);
        if ret < 0 {
          refused := ret == RET_ILUNI;
          EmitsFourBytes(t, ostate, wcs[used]);
          return;
        }
        EncodeStep(t, o, wcs[used..]);
        assert wcs[used..][1..] == wcs[used + 1..];
        assert buf[..at + ret] == before + buf[at..at + ret];
        BehindBehind(before, buf[at..at + ret], EncodeAll(t, ostate, wcs[used + 1..]));
        at, used := at + ret, used + 1;
      }
    }

    /**
     * A caller that offers one output buffer after the other, of any sizes, and then asks for the
     * reset: what is written is the encoding of the whole run, or of the part in front of a
     * character without a code or of the end of the last buffer. With one buffer more than
     * characters, of four bytes or more each, the run comes to its end.
     */
    method ConvertRun(wcs: seq<nat>, sizes: seq<nat>) returns (finished: bool, out: bytes, used: nat)
      requires Lawful(t) && OutState(ostate)
      modifies this`ostate
      ensures OutState(ostate) && used <= |wcs|
      ensures finished ==> ostate == 0 && EncodeAll(t, old(ostate), wcs) == Some(out)
      ensures !finished ==> EncodeAll(t, old(ostate), wcs) == Behind(out, EncodeAll(t, ostate, wcs[used..]))
      ensures EncodeAll(t, old(ostate), wcs).Some? && |sizes| > |wcs| && AtLeastFour(sizes) ==> finished
    {
      hide Lawful, EncodeAll, Emit, Try;
      finished, out, used := false, [], 0;
      ghost var whole := EncodeAll(t, ostate, wcs);
      BehindNothing(whole);
      assert wcs[0..] == wcs;
      var i := 0;
      while i < |sizes| && !finished
        invariant i <= |sizes| && OutState(ostate) && used <= |wcs|
        invariant if finished then ostate == 0 && whole == Some(out)
                  else whole == Behind(out, EncodeAll(t, ostate, wcs[used..]))
        invariant AtLeastFour(sizes) ==> finished || used >= i
        decreases |sizes| - i, !finished
      {
        var buf := new byte[sizes[i]];
        var at, more, refused := FillBuffer(buf, wcs[used..]);
        BehindBehind(out, buf[..at], EncodeAll(t, ostate, wcs[used..][more..]));
        assert wcs[used..][more..] == wcs[used + more..];
        out, used := out + buf[..at], used + more;
        if refused {
          EncodeRefused(t, ostate, wcs[used..]);
          return;
        }
        if used == |wcs| {
          assert wcs[used..] == [];
          finished, out := Finish(buf, at, out);
        }
        i := i + 1;
      }
    }

    /** The reset at the end of a run, behind what the buffer holds already. */
    method Finish(buf: array<byte>, at: nat, out: bytes) returns (finished: bool, all: bytes)
      requires Lawful(t) && OutState(ostate) && at <= buf.Length
      modifies this`ostate, buf
      ensures if finished then ostate == 0 && Behind(out, EncodeAll(t, old(ostate), [])) == Some(all)
              else ostate == old(ostate) && all == out
      ensures buf.Length - at >= 2 ==> finished
    {
      hide Lawful;
      var ret := Reset(buf, at, buf.Length - at);
      finished := ret >= 0;
      all := if finished then out + buf[at..at + ret] else out;
    }

    /**
     * The input side of unicode_loop_convert with unicode_loop_reset: the whole input, and what is
     * held back at its end.
     */
    method DecodeRun(s: bytes) returns (wcs: Option<seq<nat>>)
      modifies this`istate
      ensures wcs == DecodeAll(t, old(istate), s)
    {
      hide DecodeAll, ReadFresh;
      var rest, got := s, [];
      ghost var whole := DecodeAll(t, istate, s);
      BeforeNothing(whole);
      while |rest| > 0
        invariant whole == Before(got, DecodeAll(t, istate, rest))
        decreases |rest|, istate
      {
        DecodeOne(t, istate, rest);
        ghost var i := istate;
        var ret, pwc := Mbtowc(rest);
        if ret < 0 {
          return None;
        }
        BeforeMore(got, pwc, DecodeAll(t, istate, rest[ret..]));
        rest, got := rest[ret..], got + [pwc];
      }
      DecodeEnd(t, istate, rest);
      assert got + [] == got;
      var ret, pwc := Flushwc();
      if ret > 0 {
        got := got + [pwc];
      }
      wcs := Some(got);
    }
  }

  // ----- runs -----

  /** All characters and then reset, with unlimited room. */
  function EncodeAll(t: Tables, o: byte, wcs: seq<nat>): Option<bytes>
    requires Lawful(t) && OutState(o)
    decreases |wcs|
  {
    if |wcs| == 0 then Some(Held(o))
    else
      match Emit(t, o, wcs[0])
      case None => None
      case Some((out, o')) =>
        EmitKeepsState(t, o, wcs[0]);
        Behind(out, EncodeAll(t, o', wcs[1..]))
  }

  function Behind(out: bytes, more: Option<bytes>): Option<bytes> {
    match more case None => None case Some(b) => Some(out + b)
  }

  predicate AtLeastFour(sizes: seq<nat>) {
    forall i :: 0 <= i < |sizes| ==> sizes[i] >= 4
  }

  lemma EmitsFourBytes(t: Tables, o: byte, wc: nat)
    requires OutState(o)
    ensures Emit(t, o, wc).Some? ==> |Emit(t, o, wc).value.0| <= 4
  {
  }

  lemma EncodeRefused(t: Tables, o: byte, wcs: seq<nat>)
    requires Lawful(t) && OutState(o) && |wcs| > 0 && Emit(t, o, wcs[0]) == None
    ensures EncodeAll(t, o, wcs) == None
  {
  }

  lemma EncodeStep(t: Tables, o: byte, wcs: seq<nat>)
    requires Lawful(t) && OutState(o) && |wcs| > 0 && Emit(t, o, wcs[0]).Some?
    ensures var (out, o') := Emit(t, o, wcs[0]).value;
            OutState(o') && EncodeAll(t, o, wcs) == Behind(out, EncodeAll(t, o', wcs[1..]))
  {
    EmitKeepsState(t, o, wcs[0]);
  }

  lemma BehindNothing(more: Option<bytes>)
    ensures Behind([], more) == more
  {
    if more.Some? {
      assert [] + more.value == more.value;
    }
  }

  lemma BehindBehind(a: bytes, b: bytes, more: Option<bytes>)
    ensures Behind(a, Behind(b, more)) == Behind(a + b, more)
  {
    if more.Some? {
      assert a + (b + more.value) == a + b + more.value;
    }
  }

  /**
   * The same run with a limited output buffer: every attempt has the next of `sizes` to itself, and
   * one that is refused for lack of room is repeated. None if a character has no code or the sizes
   * run out.
   */
  function EncodeWithRetries(t: Tables, o: byte, wcs: seq<nat>, sizes: seq<nat>): Option<bytes>
    requires Lawful(t) && OutState(o)
    decreases |sizes|
  {
    if |sizes| == 0 then None
    else if |wcs| == 0 then
      if sizes[0] < |Held(o)| then EncodeWithRetries(t, o, wcs, sizes[1..]) else Some(Held(o))
    else
      match Try(t, o, wcs[0], sizes[0])
      case Retry => EncodeWithRetries(t, o, wcs, sizes[1..])
      case Refused => None
      case Wrote(out, o') =>
        EmitKeepsState(t, o, wcs[0]);
        Behind(out, EncodeWithRetries(t, o', wcs[1..], sizes[1..]))
  }

  /** The whole input, and the character held back at its end; None on an error or an incomplete code. */
  function DecodeAll(t: Tables, i: nat, s: bytes): Option<seq<nat>>
    decreases |s|, i
  {
    if |s| == 0 then Some(if i == 0 then [] else [i])
    else if i != 0 then Cons(i, DecodeAll(t, 0, s))
    else
      match ReadFresh(t, s)
      case Read(wc, used, state) =>
        if used == 0 || used > |s| then None else Cons(wc, DecodeAll(t, state, s[used..]))
      case _ => None
  }

  function Cons(wc: nat, r: Option<seq<nat>>): Option<seq<nat>> {
    match r case None => None case Some(wcs) => Some([wc] + wcs)
  }

  function Before(got: seq<nat>, r: Option<seq<nat>>): Option<seq<nat>> {
    match r case None => None case Some(wcs) => Some(got + wcs)
  }

  lemma BeforeNothing(r: Option<seq<nat>>)
    ensures Before([], r) == r
  {
    if r.Some? {
      assert [] + r.value == r.value;
    }
  }

  lemma BeforeMore(got: seq<nat>, wc: nat, r: Option<seq<nat>>)
    ensures Before(got, Cons(wc, r)) == Before(got + [wc], r)
  {
    if r.Some? {
      assert got + ([wc] + r.value) == got + [wc] + r.value;
    }
  }

  lemma DecodeOne(t: Tables, i: nat, s: bytes)
    requires |s| > 0
    ensures match ReadOne(t, i, s)
            case Read(wc, used, state) =>
              used <= |s| && (used == 0 ==> state < i) && DecodeAll(t, i, s) == Cons(wc, DecodeAll(t, state, s[used..]))
            case _ => DecodeAll(t, i, s) == None
  {
    assert s[0..] == s;
  }

  lemma DecodeEnd(t: Tables, i: nat, s: bytes)
    requires |s| == 0
    ensures DecodeAll(t, i, s) == Some(if i == 0 then [] else [i])
  {
  }

  /** The sizes of the output buffers do not change what is written. */
  lemma {:induction false} RetriesWriteTheSame(t: Tables, o: byte, wcs: seq<nat>, sizes: seq<nat>)
    requires Lawful(t) && OutState(o) && EncodeWithRetries(t, o, wcs, sizes).Some?
    ensures EncodeWithRetries(t, o, wcs, sizes) == EncodeAll(t, o, wcs)
    decreases |sizes|
  {
    if |wcs| == 0 {
      if sizes[0] < |Held(o)| {
        RetriesWriteTheSame(t, o, wcs, sizes[1..]);
      }
    } else {
      match Try(t, o, wcs[0], sizes[0])
      case Retry => RetriesWriteTheSame(t, o, wcs, sizes[1..]);
      case Wrote(_, o') => RetriesWriteTheSame(t, o', wcs[1..], sizes[1..]);
    }
  }

  /** Four bytes are always enough. */
  lemma {:induction false} FourBytesSuffice(t: Tables, o: byte, wcs: seq<nat>, sizes: seq<nat>)
    requires Lawful(t) && OutState(o) && EncodeAll(t, o, wcs).Some?
    requires |sizes| == |wcs| + 1 && AtLeastFour(sizes)
    ensures EncodeWithRetries(t, o, wcs, sizes) == EncodeAll(t, o, wcs)
    decreases |wcs|
  {
    if |wcs| > 0 {
      FourBytesSuffice(t, Emit(t, o, wcs[0]).value.1, wcs[1..], sizes[1..]);
    }
  }

  /** The characters held back. */
  function Pending(o: byte): seq<nat> {
    if o == 0x66 then [0xCA] else if o == 0xA7 then [0xEA] else []
  }

  lemma ReadsCode(t: Tables, wc: nat, rest: bytes)
    requires Lawful(t) && CodeOf(t, wc).Some?
    ensures var b := CodeOf(t, wc).value;
            ReadFresh(t, [b.0, b.1] + rest) == Read(wc, 2, 0)
  {
    var b := CodeOf(t, wc).value;
    var s := [b.0, b.1] + rest;
    assert s[0] == b.0 && s[1] == b.1 && s[..2] == [b.0, b.1] && (s[0], s[1]) == b;
    assert Big5Decode(t, b).Some? || t.h1999.Decode(b).Some? || t.h2001.Decode(b).Some? || t.h2004.Decode(b).Some?;
  }

  lemma ReadsHeld(t: Tables, o: byte, rest: bytes)
    requires Lawful(t) && OutState(o) && o != 0
    ensures ReadFresh(t, [0x88, o] + rest) == Read(Pending(o)[0], 2, 0)
  {
    ReadsCode(t, Pending(o)[0], rest);
  }

  lemma ComposedInNoTable(t: Tables, b: Code)
    requires Lawful(t) && Composed(b)
    ensures t.h1999.Decode(b) == None && t.h2001.Decode(b) == None && t.h2004.Decode(b) == None
  {
  }

  /** The arithmetic of the encoder and the decoder on composed codes. */
  lemma ComposedParts(o: byte, wc: nat)
    requires OutState(o) && o != 0 && Combining(wc)
    ensures var c := Compose(o, wc);
            Composed((0x88, c)) && FirstOf(c) == Pending(o)[0] && SecondOf(c) == wc
  {
    assert Compose(o, wc) ==
      if o == 0x66 then (if wc == 0x0304 then 0x62 else 0x64) else (if wc == 0x0304 then 0xA3 else 0xA5);
    assert FirstOf(0x62) == 0xCA && FirstOf(0x64) == 0xCA && FirstOf(0xA3) == 0xEA && FirstOf(0xA5) == 0xEA;
    assert SecondOf(0x62) == 0x0304 && SecondOf(0x64) == 0x030C && SecondOf(0xA3) == 0x0304 && SecondOf(0xA5) == 0x030C;
  }

  lemma ReadsPair(t: Tables, c: byte, rest: bytes)
    requires Lawful(t) && Composed((0x88, c))
    ensures ReadFresh(t, [0x88, c] + rest) == Read(FirstOf(c), 2, SecondOf(c))
  {
    ComposedInNoTable(t, (0x88, c));
    hide Lawful, FirstOf, SecondOf;
    var s := [0x88, c] + rest;
    assert s[0] == 0x88 && s[1] == c && s[..2] == [0x88, c];
  }

  /** The four sequences that have a code of their own are written with it. */
  lemma WritesComposed(t: Tables)
    requires Lawful(t)
    ensures EncodeAll(t, 0, [0xCA, 0x304]) == Some([0x88, 0x62]) && EncodeAll(t, 0, [0xCA, 0x30C]) == Some([0x88, 0x64])
    ensures EncodeAll(t, 0, [0xEA, 0x304]) == Some([0x88, 0xA3]) && EncodeAll(t, 0, [0xEA, 0x30C]) == Some([0x88, 0xA5])
  {
    WritesPair(t, 0xCA, 0x304);
    WritesPair(t, 0xCA, 0x30C);
    WritesPair(t, 0xEA, 0x304);
    WritesPair(t, 0xEA, 0x30C);
  }

  lemma WritesPair(t: Tables, wc: nat, mark: nat)
    requires Lawful(t) && Starts(wc) && Combining(mark)
    ensures var o := if wc == 0xCA then 0x66 else 0xA7;
            EncodeAll(t, 0, [wc, mark]) == Some([0x88, Compose(o, mark)])
  {
    hide Lawful;
    StartsAreHeld(t);
    var wcs, o := [wc, mark], if wc == 0xCA then 0x66 else 0xA7;
    assert wcs[1..] == [mark] && wcs[1..][1..] == [];
    EncodeStep(t, 0, wcs);
    EncodeStep(t, o, [mark]);
    assert [mark][1..] == [] && EncodeAll(t, 0, [mark][1..]) == Some([]);
    NoPrefix([0x88, Compose(o, mark)]);
  }

  lemma ReadsComposed(t: Tables, o: byte, wc: nat, rest: bytes)
    requires Lawful(t) && OutState(o) && o != 0 && Combining(wc)
    ensures ReadFresh(t, [0x88, Compose(o, wc)] + rest) == Read(Pending(o)[0], 2, wc)
  {
    hide Lawful, ReadFresh, Compose, FirstOf, SecondOf;
    ComposedParts(o, wc);
    ReadsPair(t, Compose(o, wc), rest);
  }

  /** A step of the decoder in front of the rest of the input. */
  lemma DecodeStep(t: Tables, code: bytes, rest: bytes, wc: nat, state: nat)
    requires 0 < |code| && ReadFresh(t, code + rest) == Read(wc, |code|, state)
    ensures DecodeAll(t, 0, code + rest) == Cons(wc, DecodeAll(t, state, rest))
  {
    assert (code + rest)[|code|..] == rest;
  }

  /** The held character and then the rest of the input. */
  lemma DecodeHeld(t: Tables, o: byte, rest: bytes)
    requires Lawful(t) && OutState(o) && DecodeAll(t, 0, rest).Some?
    ensures DecodeAll(t, 0, Held(o) + rest) == Some(Pending(o) + DecodeAll(t, 0, rest).value)
  {
    if o == 0 {
      assert Held(o) + rest == rest && Pending(o) + DecodeAll(t, 0, rest).value == DecodeAll(t, 0, rest).value;
    } else {
      ReadsHeld(t, o, rest);
      DecodeStep(t, [0x88, o], rest, Pending(o)[0], 0);
    }
  }

  /** What follows a composed code is read after its second character. */
  lemma DecodeSecond(t: Tables, wc: nat, rest: bytes)
    requires wc != 0
    ensures DecodeAll(t, wc, rest) == Cons(wc, DecodeAll(t, 0, rest))
  {
    if |rest| == 0 {
      assert [wc] + [] == [wc];
    }
  }

  /** Whatever the encoder wrote, the decoder reads the same characters, from any state of the encoder. */
  lemma {:induction false} EncodedReadsBack(t: Tables, o: byte, wcs: seq<nat>)
    requires Lawful(t) && OutState(o) && EncodeAll(t, o, wcs).Some?
    ensures DecodeAll(t, 0, EncodeAll(t, o, wcs).value) == Some(Pending(o) + wcs)
    decreases |wcs|
  {
    if |wcs| == 0 {
      DecodeHeld(t, o, []);
      assert Held(o) + [] == Held(o) && wcs == [];
    } else {
      var wc := wcs[0];
      var (out, o') := Emit(t, o, wc).value;
      var more := EncodeAll(t, o', wcs[1..]).value;
      EncodedReadsBack(t, o', wcs[1..]);
      assert wcs == [wc] + wcs[1..];
      if o != 0 && Combining(wc) {
        ReadsComposed(t, o, wc, more);
        DecodeStep(t, out, more, Pending(o)[0], wc);
        DecodeSecond(t, wc, more);
        assert Pending(0) + wcs[1..] == wcs[1..];
        assert Pending(o) + wcs == [Pending(o)[0]] + ([wc] + wcs[1..]);
      } else {
        PlainReadsBack(t, o, wc, more, wcs[1..]);
      }
    }
  }

  lemma PlainReadsBack(t: Tables, o: byte, wc: nat, more: bytes, rest: seq<nat>)
    requires Lawful(t) && OutState(o) && Emit(t, o, wc).Some? && !(o != 0 && Combining(wc))
    requires DecodeAll(t, 0, more) == Some(Pending(Emit(t, o, wc).value.1) + rest)
    ensures DecodeAll(t, 0, Emit(t, o, wc).value.0 + more) == Some(Pending(o) + ([wc] + rest))
  {
    hide Lawful, ReadFresh, DecodeAll;
    assert Pending(0) + rest == rest;
    if wc < 0x80 {
      ReadsAscii(t, wc, more);
      PlainStep(t, o, [wc], more, wc, rest);
    } else {
      var b := CodeOf(t, wc).value;
      if Starts(wc) {
        StartsAreHeld(t);
        DecodeHeld(t, o, more);
      } else {
        ReadsCode(t, wc, more);
        PlainStep(t, o, [b.0, b.1], more, wc, rest);
      }
    }
  }

  lemma ReadsAscii(t: Tables, wc: nat, rest: bytes)
    requires wc < 0x80
    ensures ReadFresh(t, [wc] + rest) == Read(wc, 1, 0)
  {
    assert ([wc] + rest)[0] == wc;
  }

  /** What was held back, one more code, and the rest. */
  lemma PlainStep(t: Tables, o: byte, code: bytes, more: bytes, wc: nat, rest: seq<nat>)
    requires Lawful(t) && OutState(o) && 0 < |code| && ReadFresh(t, code + more) == Read(wc, |code|, 0)
    requires DecodeAll(t, 0, more) == Some(rest)
    ensures DecodeAll(t, 0, (Held(o) + code) + more) == Some(Pending(o) + ([wc] + rest))
  {
    hide Lawful, ReadFresh, DecodeAll;
    DecodeStep(t, code, more, wc, 0);
    DecodeHeld(t, o, code + more);
    assert (Held(o) + code) + more == Held(o) + (code + more);
  }

  /** Any run of successful steps and the reset that ends it decode to the characters of the run. */
  lemma RunReadsBack(t: Tables, wcs: seq<nat>, sizes: seq<nat>)
    requires Lawful(t) && EncodeWithRetries(t, 0, wcs, sizes).Some?
    ensures DecodeAll(t, 0, EncodeWithRetries(t, 0, wcs, sizes).value) == Some(wcs)
  {
    RetriesWriteTheSame(t, 0, wcs, sizes);
    EncodedReadsBack(t, 0, wcs);
    assert [] + wcs == wcs;
  }
}
