/**
 * What minifying the body of a literal, as if it were no literal, does to the string it denotes:
 * a blank or slash that is left out is missed, whatever the escapes are then taken for.
 */
module Losses {
  import opened Bytes
  import opened Values
  import opened Parser
  import opened Minifier
  import Minification

  // ----- a weight that tells the strings apart -----

  /** What Minify leaves out when it does not take it for part of a string. */
  predicate Droppable(b: byte) {
    Removable(b) || b == SLASH
  }

  /** Six for each of these bytes is more than an escape taken apart can make up for. */
  function Weight(b: byte): nat {
    if Droppable(b) then 6 else 1
  }

  function WeightAll(s: bytes): nat {
    if |s| == 0 then 0 else Weight(s[0]) + WeightAll(s[1..])
  }

  lemma {:induction false} WeightAppend(a: bytes, b: bytes)
    ensures WeightAll(a + b) == WeightAll(a) + WeightAll(b)
  {
    if |a| == 0 {
      assert a + b == b;
    } else {
      WeightAppend(a[1..], b);
      assert (a + b)[1..] == a[1..] + b;
    }
  }

  function Plus(w: nat, r: Option<nat>): Option<nat> {
    match r
    case None => None
    case Some(n) => Some(w + n)
  }

  /** The weight of the C string a literal body denotes. */
  function Worth(u: bytes): (r: Option<nat>)
    ensures Sound(u) ==> r.Some?
    decreases |u|
  {
    if |u| == 0 then Some(0)
    else if u[0] != BACKSLASH then Plus(Weight(u[0]), Worth(u[1..]))
    else if |u| == 1 then Some(1)
    else if u[1] == LOWER_U then
      match Utf16Literal(u)
      case None => None
      case Some((cp, n)) => if cp == 0 then Some(0) else Plus(WeightAll(Utf8(cp)), Worth(u[n..]))
    else
      match ShortEscape(u[1])
      case None => None
      case Some(b) => Plus(Weight(b), Worth(u[2..]))
  }

  /** A body that denotes a string without U+0000. */
  predicate Sound(u: bytes)
    decreases |u|
  {
    if |u| == 0 then true
    else if u[0] != BACKSLASH then u[0] != QUOTE && Sound(u[1..])
    else if |u| == 1 then false
    else if u[1] == LOWER_U then
      match Utf16Literal(u)
      case None => false
      case Some((cp, n)) => cp != 0 && Sound(u[n..])
    else ShortEscape(u[1]).Some? && Sound(u[2..])
  }

  // ----- the weight is that of the string -----

  lemma {:induction false} CutAtNul(out: bytes, more: bytes)
    requires NulFree(out)
    ensures CString(out + ([NUL] + more)) == out
  {
    var s := out + ([NUL] + more);
    if |out| > 0 {
      CutAtNul(out[1..], more);
      assert s[1..] == out[1..] + ([NUL] + more);
      assert out == [out[0]] + out[1..];
    }
  }

  lemma {:induction false} UnescapeExtends(u: bytes, out: bytes)
    requires Unescape(u, out).Done?
    ensures out <= Unescape(u, out).value
    decreases |u|
  {
    if |u| == 0 {
    } else if u[0] != BACKSLASH {
      UnescapeExtends(u[1..], out + [u[0]]);
    } else if |u| > 1 {
      if u[1] == LOWER_U {
        var (cp, n) := Utf16Literal(u).value;
        UnescapeExtends(u[n..], out + Utf8(cp));
      } else {
        UnescapeExtends(u[2..], out + [ShortEscape(u[1]).value]);
      }
    }
  }

  lemma Utf8NulFree(cp: nat)
    requires 0 < cp <= 0x10FFFF
    ensures NulFree(Utf8(cp))
  {
  }

  lemma UnescapeZero(u: bytes, out: bytes)
    requires Unescape(u, out + [NUL]).Done? && NulFree(out)
    ensures CString(Unescape(u, out + [NUL]).value) == out && !NulFree(Unescape(u, out + [NUL]).value)
  {
    UnescapeExtends(u, out + [NUL]);
    var value := Unescape(u, out + [NUL]).value;
    assert value[|out|] == (out + [NUL])[|out|] == NUL;
    assert value == out + ([NUL] + value[|out| + 1..]);
    CutAtNul(out, value[|out| + 1..]);
  }

  lemma {:induction false} WorthIsWeight(u: bytes, out: bytes)
    requires NulFree(u) && NulFree(out) && Unescape(u, out).Done?
    ensures Worth(u) == Some(WeightAll(CString(Unescape(u, out).value)) - WeightAll(out))
    decreases |u|
  {
    hide Utf16Literal, Utf8, WeightAll, CString;
    if |u| == 0 {
      CStringOfNulFree(out);
    } else if u[0] != BACKSLASH {
      WeightAppend(out, [u[0]]);
      OneWeight(u[0]);
      WorthIsWeight(u[1..], out + [u[0]]);
    } else if |u| == 1 {
      WeightAppend(out, [QUOTE]);
      OneWeight(QUOTE);
      CStringOfNulFree(out + [QUOTE]);
    } else if u[1] == LOWER_U {
      var (cp, n) := Utf16Literal(u).value;
      if cp == 0 {
        assert Utf8(0) == [NUL] by { Utf8Zero(); }
        UnescapeZero(u[n..], out);
      } else {
        Utf8NulFree(cp);
        WeightAppend(out, Utf8(cp));
        WorthIsWeight(u[n..], out + Utf8(cp));
      }
    } else {
      var b := ShortEscape(u[1]).value;
      WeightAppend(out, [b]);
      OneWeight(b);
      WorthIsWeight(u[2..], out + [b]);
    }
  }

  lemma Utf8Zero()
    ensures Utf8(0) == [NUL]
  {
  }

  lemma OneWeight(b: byte)
    ensures WeightAll([b]) == Weight(b)
  {
    assert [b][1..] == [];
  }

  // ----- which bodies are sound -----

  predicate Hex(b: byte)
    ensures Hex(b) ==> b != BACKSLASH && b != QUOTE && b != STAR && !Droppable(b)
  {
    HexDigit(b).Some?
  }

  /** A code other than 0 is spelled with four digits. */
  lemma HexBytes(d: bytes)
    requires |d| == 4 && Hex4(d) != 0
    ensures Hex(d[0]) && Hex(d[1]) && Hex(d[2]) && Hex(d[3])
  {
  }

  /** The bytes of a unicode escape that is not U+0000. */
  lemma LiteralBytes(u: bytes)
    requires |u| >= 2 && Utf16Literal(u).Some? && Utf16Literal(u).value.0 != 0
    ensures var n := Utf16Literal(u).value.1;
            (n == 6 || n == 12) && n <= |u| && Hex(u[2]) && Hex(u[3]) && Hex(u[4]) && Hex(u[5]) &&
            (n == 12 ==> u[6] == BACKSLASH && u[7] == LOWER_U && Hex(u[8]) && Hex(u[9]) && Hex(u[10]) && Hex(u[11]))
  {
    hide HexDigit, Utf8;
    HexBytes(u[2..6]);
    if Utf16Literal(u).value.1 == 12 {
      HexBytes(u[8..12]);
    }
  }

  predicate Closed(u: bytes) {
    ScanLiteral(u + [QUOTE]) == Some(|u|)
  }

  lemma {:induction false} ClosedBehindPlain(u: bytes, n: nat)
    requires n <= |u| && Closed(u) && forall i :: 0 <= i < n ==> u[i] != BACKSLASH
    ensures Closed(u[n..])
    decreases n
  {
    if n == 0 {
      assert u[0..] == u;
    } else {
      ClosedStep(u);
      ClosedBehindPlain(u[1..], n - 1);
      assert u[1..][n - 1..] == u[n..];
    }
  }

  lemma ClosedBehindEscape(u: bytes, n: nat)
    requires Closed(u) && |u| >= n >= 2 && u[0] == BACKSLASH && forall i :: 2 <= i < n ==> u[i] != BACKSLASH
    ensures Closed(u[n..])
  {
    ClosedStep(u);
    ClosedBehindPlain(u[2..], n - 2);
    assert u[2..][n - 2..] == u[n..];
  }

  lemma ClosedBehindUnicode(u: bytes)
    requires Closed(u) && |u| >= 2 && u[0] == BACKSLASH && Utf16Literal(u).Some? && Utf16Literal(u).value.0 != 0
    ensures Closed(u[Utf16Literal(u).value.1..])
  {
    hide Utf16Literal, Hex, Closed;
    LiteralBytes(u);
    ClosedBehindEscape(u, 6);
    if Utf16Literal(u).value.1 == 12 {
      ClosedBehindEscape(u[6..], 6);
      assert u[6..][6..] == u[12..];
    }
  }

  lemma {:induction false} DenotesIsSound(u: bytes, out: bytes)
    requires Closed(u) && NulFree(out) && Unescape(u, out).Done? && NulFree(Unescape(u, out).value)
    ensures Sound(u)
    decreases |u|
  {
    hide Utf16Literal, Utf8, ScanLiteral, Closed;
    if |u| > 0 {
      ClosedFirst(u);
      if u[0] != BACKSLASH {
        ClosedBehindPlain(u, 1);
        UnescapeExtends(u[1..], out + [u[0]]);
        var value := Unescape(u, out).value;
        assert value[|out|] == (out + [u[0]])[|out|] == u[0];
        DenotesIsSound(u[1..], out + [u[0]]);
      } else if u[1] == LOWER_U {
        var (cp, n) := Utf16Literal(u).value;
        if cp == 0 {
          Utf8Zero();
          UnescapeZero(u[n..], out);
        } else {
          Utf8NulFree(cp);
          ClosedBehindUnicode(u);
          DenotesIsSound(u[n..], out + Utf8(cp));
        }
      } else {
        ClosedBehindEscape(u, 2);
        DenotesIsSound(u[2..], out + [ShortEscape(u[1]).value]);
      }
    }
  }

  lemma ClosedFirst(u: bytes)
    requires Closed(u) && |u| > 0
    ensures u[0] != QUOTE && (u[0] == BACKSLASH ==> |u| >= 2)
  {
    ClosedStep(u);
  }

  // ----- what Minify leaves of a body -----

  /** What is left to minify when the first byte is left out. */
  function Dropped(u: bytes): (t: bytes)
    requires |u| > 0 && Droppable(u[0])
    ensures |t| < |u|
  {
    if u[0] == SLASH && |u| > 1 && u[1] == SLASH then AfterLine(u[2..])
    else if u[0] == SLASH && |u| > 1 && u[1] == STAR then AfterBlock(u[2..])
    else u[1..]
  }

  lemma MinifyDrops(u: bytes)
    requires |u| > 0 && Droppable(u[0])
    ensures Minify(u) == Minify(Dropped(u))
  {
  }

  lemma MinifyKeeps(u: bytes)
    requires |u| > 0 && !Droppable(u[0]) && u[0] != QUOTE
    ensures Minify(u) == [u[0]] + Minify(u[1..])
  {
  }

  lemma SoundPlain(u: bytes)
    requires Sound(u) && |u| > 0 && u[0] != BACKSLASH
    ensures u[0] != QUOTE && Sound(u[1..]) && Worth(u) == Plus(Weight(u[0]), Worth(u[1..]))
  {
  }

  lemma SoundShort(u: bytes)
    requires Sound(u) && |u| > 0 && u[0] == BACKSLASH
    ensures |u| > 1
    ensures u[1] != LOWER_U ==>
            ShortEscape(u[1]).Some? && Sound(u[2..]) && Worth(u) == Plus(Weight(ShortEscape(u[1]).value), Worth(u[2..]))
  {
  }

  lemma SoundUnicode(u: bytes)
    requires Sound(u) && |u| > 1 && u[0] == BACKSLASH && u[1] == LOWER_U
    ensures Utf16Literal(u).Some?
    ensures var (cp, n) := Utf16Literal(u).value;
            cp != 0 && Sound(u[n..]) && Worth(u) == Plus(WeightAll(Utf8(cp)), Worth(u[n..]))
  {
  }

  /** A line comment ends between units of the body. */
  lemma {:induction false} LineSound(u: bytes)
    requires Sound(u)
    ensures Sound(AfterLine(u)) && Worth(AfterLine(u)).value <= Worth(u).value
    decreases |u|
  {
    hide Utf16Literal, Utf8, Sound, Worth, Hex;
    if |u| == 0 {
    } else if u[0] != BACKSLASH {
      SoundPlain(u);
      LineSound(u[1..]);
    } else {
      SoundShort(u);
      if u[1] == LOWER_U {
        SoundUnicode(u);
        LiteralBytes(u);
        var n := Utf16Literal(u).value.1;
        LineBehind(u, n);
        LineSound(u[n..]);
      } else {
        LineBehind(u, 2);
        LineSound(u[2..]);
      }
    }
  }

  lemma {:induction false} LineBehind(u: bytes, n: nat)
    requires n <= |u| && forall i :: 0 <= i < n ==> u[i] != NEWLINE
    ensures AfterLine(u) == AfterLine(u[n..])
    decreases n
  {
    if n == 0 {
      assert u[0..] == u;
    } else {
      LineBehind(u[1..], n - 1);
      assert u[1..][n - 1..] == u[n..];
    }
  }

  /** So does a block comment. */
  lemma {:induction false} BlockSound(u: bytes)
    requires Sound(u)
    ensures Sound(AfterBlock(u)) && Worth(AfterBlock(u)).value <= Worth(u).value
    decreases |u|
  {
    hide Utf16Literal, Utf8, Sound, Worth, Hex;
    if |u| == 0 {
    } else if u[0] != BACKSLASH {
      SoundPlain(u);
      if u[0] == STAR && |u| > 1 && u[1] == SLASH {
        SoundPlain(u[1..]);
        assert u[1..][1..] == u[2..];
      } else {
        BlockSound(u[1..]);
      }
    } else {
      SoundShort(u);
      if u[1] == LOWER_U {
        SoundUnicode(u);
        LiteralBytes(u);
        var n := Utf16Literal(u).value.1;
        BlockBehind(u, n);
        BlockSound(u[n..]);
      } else {
        BlockBehind(u, 2);
        BlockSound(u[2..]);
      }
    }
  }

  lemma {:induction false} BlockBehind(u: bytes, n: nat)
    requires n <= |u| && forall i :: 0 <= i < n ==> u[i] != STAR
    ensures AfterBlock(u) == AfterBlock(u[n..])
    decreases n
  {
    if n == 0 {
      assert u[0..] == u;
    } else {
      BlockBehind(u[1..], n - 1);
      assert u[1..][n - 1..] == u[n..];
    }
  }

  /** What is left out is missed in the weight. */
  lemma DroppedWorth(u: bytes)
    requires Sound(u) && |u| > 0 && Droppable(u[0])
    ensures Sound(Dropped(u)) && Worth(Dropped(u)).value + 6 <= Worth(u).value
  {
    hide Sound, Worth;
    SoundPlain(u);
    if u[0] == SLASH && |u| > 1 && (u[1] == SLASH || u[1] == STAR) {
      SoundPlain(u[1..]);
      assert u[1..][1..] == u[2..];
      if u[1] == SLASH {
        LineSound(u[2..]);
      } else {
        BlockSound(u[2..]);
      }
    }
  }

  /** Inside a body every quote has a backslash in front of it. */
  lemma {:induction false} SoundRun(u: bytes)
    requires Sound(u)
    ensures QuotedRun(u) == |u|
    decreases |u|
  {
    hide Utf16Literal, Utf8, Sound, Worth, Hex, QuotedRun;
    if |u| == 0 {
      assert QuotedRun(u) <= 0;
    } else if u[0] != BACKSLASH {
      SoundPlain(u);
      SoundRun(u[1..]);
      RunStep(u);
    } else {
      SoundShort(u);
      if u[1] == LOWER_U {
        SoundUnicode(u);
        LiteralBytes(u);
        var n := Utf16Literal(u).value.1;
        SoundRun(u[n..]);
        RunBehind(u, n);
      } else if u[1] == QUOTE {
        SoundRun(u[2..]);
        RunStep(u);
      } else {
        SoundRun(u[2..]);
        SoundQuote(u[2..]);
        RunBehind(u, 2);
      }
    }
  }

  lemma SoundQuote(u: bytes)
    requires Sound(u)
    ensures |u| > 0 ==> u[0] != QUOTE
  {
  }

  lemma {:induction false} RunBehind(u: bytes, n: nat)
    requires n <= |u| && (forall i :: 0 <= i < n ==> u[i] != QUOTE)
    requires n > 0 && n < |u| && u[n] == QUOTE ==> u[n - 1] != BACKSLASH
    ensures QuotedRun(u) == n + QuotedRun(u[n..])
    decreases n
  {
    if n == 0 {
      assert u[0..] == u;
    } else {
      RunBehind(u[1..], n - 1);
      assert u[1..][n - 1..] == u[n..];
      assert n == 1 && |u| > 1 ==> u[1] == u[n];
    }
  }

  /** Behind an escaped quote Minify takes the rest for what it is. */
  lemma QuoteVerbatim(w: bytes)
    requires Sound(w)
    ensures Minify([QUOTE] + w) == [QUOTE] + w
  {
    hide Sound, QuotedRun;
    SoundRun(w);
    var s := [QUOTE] + w;
    assert s[1..] == w && w[..|w|] == w && w[|w|..] == [];
    assert Minify(s) == [QUOTE] + (w + []);
  }

  // ----- the weights compared -----

  predicate AtMost(r: Option<nat>, bound: int) {
    r.Some? ==> r.value <= bound
  }

  lemma WorthPlain(b: byte, u: bytes)
    requires b != BACKSLASH
    ensures Worth([b] + u) == Plus(Weight(b), Worth(u))
  {
    assert ([b] + u)[1..] == u;
  }

  lemma WorthShort(e: byte, u: bytes)
    requires e != LOWER_U
    ensures Worth([BACKSLASH] + ([e] + u)) ==
            if ShortEscape(e) == None then None else Plus(Weight(ShortEscape(e).value), Worth(u))
  {
    var s := [BACKSLASH] + ([e] + u);
    assert s[1] == e && s[2..] == u;
  }

  lemma WorthEnd()
    ensures Worth([BACKSLASH] + []) == Some(1)
  {
  }

  /** An escape as it stands in front of anything. */
  lemma WorthUnicode(u: bytes, n: nat, rest: bytes)
    requires |u| > 1 && u[0] == BACKSLASH && u[1] == LOWER_U && Utf16Literal(u).Some? && Utf16Literal(u).value.1 == n
    requires Utf16Literal(u).value.0 != 0
    ensures Worth(u[..n] + rest) == Plus(WeightAll(Utf8(Utf16Literal(u).value.0)), Worth(rest))
  {
    hide Utf8, Hex4;
    LiteralBytes(u);
    var s := u[..n] + rest;
    assert s[2..6] == u[2..6] && s[n..] == rest;
    if n == 12 {
      assert s[8..12] == u[8..12];
    }
    assert Utf16Literal(s) == Utf16Literal(u);
  }

  /**
   * Minify leaves no more weight in a body; a backslash in front of what it leaves, which a slash
   * was left out behind, makes up for less than the slash.
   */
  lemma {:induction false} KeptWorth(u: bytes)
    requires Sound(u)
    ensures AtMost(Worth(Minify(u)), Worth(u).value - if Minify(u) == u then 0 else 1)
    decreases |u|, 1
  {
    hide Sound, Worth, Minify, Utf16Literal, Utf8, Hex, Dropped;
    if |u| == 0 {
      assert Minify(u) == u by { MinifyOfNothing(u); }
    } else if u[0] != BACKSLASH {
      SoundPlain(u);
      if Droppable(u[0]) {
        MinifyDrops(u);
        DroppedWorth(u);
        KeptWorth(Dropped(u));
      } else {
        MinifyKeeps(u);
        KeptWorth(u[1..]);
        WorthPlain(u[0], Minify(u[1..]));
        assert Minify(u[1..]) == u[1..] ==> [u[0]] + u[1..] == u;
      }
    } else {
      MinifyKeeps(u);
      SoundShort(u);
      if u[1] == LOWER_U {
        KeptUnicode(u);
      } else {
        KeptShort(u);
      }
    }
  }

  lemma {:induction false} KeptUnicode(u: bytes)
    requires Sound(u) && |u| > 1 && u[0] == BACKSLASH && u[1] == LOWER_U
    ensures AtMost(Worth(Minify(u)), Worth(u).value - if Minify(u) == u then 0 else 1)
    decreases |u|, 0
  {
    hide Sound, Worth, Minify, Utf16Literal, Utf8, Hex;
    SoundUnicode(u);
    LiteralBytes(u);
    var n := Utf16Literal(u).value.1;
    KeptWorth(u[n..]);
    Minification.MinifyWord(u[..n], u[n..]);
    assert u[..n] + u[n..] == u;
    WorthUnicode(u, n, Minify(u[n..]));
  }

  lemma {:induction false} KeptShort(u: bytes)
    requires Sound(u) && |u| > 1 && u[0] == BACKSLASH && u[1] != LOWER_U && Minify(u) == [BACKSLASH] + Minify(u[1..])
    ensures AtMost(Worth(Minify(u)), Worth(u).value - if Minify(u) == u then 0 else 1)
    decreases |u|, 0
  {
    hide Sound, Worth, Minify, Utf16Literal, Utf8, Hex, Dropped;
    SoundShort(u);
    var t := u[1..];
    assert t[1..] == u[2..] && t == [u[1]] + u[2..];
    assert u == [BACKSLASH] + t;
    if u[1] == SLASH {
      SlashSound(t);
      MinifyDrops(t);
      DroppedWorth(t);
      PendingWorth(Dropped(t));
    } else if u[1] == QUOTE {
      QuoteVerbatim(u[2..]);
    } else {
      MinifyKeeps(t);
      KeptWorth(u[2..]);
      WorthShort(u[1], Minify(u[2..]));
    }
  }

  /** The slash of an escaped slash weighs as much as a plain one. */
  lemma SlashSound(t: bytes)
    requires |t| > 0 && t[0] == SLASH && Sound(t[1..])
    ensures Sound(t) && Worth(t) == Plus(6, Worth(t[1..])) && Weight(ShortEscape(SLASH).value) == 6
  {
  }

  lemma {:induction false} PendingWorth(u: bytes)
    requires Sound(u)
    ensures AtMost(Worth([BACKSLASH] + Minify(u)), Worth(u).value + 5)
    decreases |u|, 1
  {
    hide Sound, Worth, Minify, Utf16Literal, Utf8, Hex, Dropped;
    if |u| == 0 {
      MinifyOfNothing(u);
      WorthEnd();
    } else if u[0] != BACKSLASH {
      SoundPlain(u);
      if Droppable(u[0]) {
        MinifyDrops(u);
        DroppedWorth(u);
        PendingWorth(Dropped(u));
      } else {
        MinifyKeeps(u);
        if u[0] == LOWER_U {
          PendingUnicode(u);
        } else {
          KeptWorth(u[1..]);
          WorthShort(u[0], Minify(u[1..]));
        }
      }
    } else {
      MinifyKeeps(u);
      WorthShort(BACKSLASH, Minify(u[1..]));
      SoundShort(u);
      if u[1] == LOWER_U {
        DoubledUnicode(u);
      } else {
        DoubledShort(u);
      }
    }
  }

  lemma {:induction false} DoubledShort(u: bytes)
    requires Sound(u) && |u| > 1 && u[0] == BACKSLASH && u[1] != LOWER_U
    ensures AtMost(Worth(Minify(u[1..])), Worth(u).value + 4)
    decreases |u|, 0
  {
    hide Sound, Worth, Minify, Utf16Literal, Utf8, Hex, Dropped;
    SoundShort(u);
    var t := u[1..];
    assert t[1..] == u[2..] && t == [u[1]] + u[2..];
    if u[1] == SLASH {
      SlashSound(t);
      MinifyDrops(t);
      DroppedWorth(t);
      KeptWorth(Dropped(t));
    } else if u[1] == QUOTE {
      QuoteVerbatim(u[2..]);
      WorthPlain(QUOTE, u[2..]);
    } else {
      MinifyKeeps(t);
      if u[1] == BACKSLASH {
        PendingWorth(u[2..]);
      } else {
        KeptWorth(u[2..]);
        WorthPlain(u[1], Minify(u[2..]));
      }
    }
  }

  lemma {:induction false} DoubledUnicode(u: bytes)
    requires Sound(u) && |u| > 1 && u[0] == BACKSLASH && u[1] == LOWER_U
    ensures AtMost(Worth(Minify(u[1..])), Worth(u).value + 4)
    decreases |u|, 0
  {
    hide Sound, Worth, Minify, Utf16Literal, Utf8, Hex;
    SoundUnicode(u);
    LiteralBytes(u);
    var (cp, n) := Utf16Literal(u).value;
    var digits := u[1..6];
    var rest := Minify(u[6..]);
    Minification.MinifyWord(digits, u[6..]);
    assert digits + u[6..] == u[1..];
    WorthDigits(digits, rest);
    if n == 6 {
      KeptWorth(u[6..]);
      Utf8Weight(cp);
    } else {
      Minification.MinifyWord(u[6..12], u[12..]);
      assert u[6..12] + u[12..] == u[6..];
      LoneLow(u, rest);
    }
  }

  lemma {:induction false} WorthDigits(digits: bytes, rest: bytes)
    requires forall i :: 0 <= i < |digits| ==> digits[i] != BACKSLASH && !Droppable(digits[i])
    ensures Worth(digits + rest) == Plus(|digits|, Worth(rest))
  {
    hide Worth;
    if |digits| == 0 {
      assert digits + rest == rest;
    } else {
      WorthDigits(digits[1..], rest);
      WorthPlain(digits[0], digits[1..] + rest);
      assert digits + rest == [digits[0]] + (digits[1..] + rest);
    }
  }

  /** The second half of a surrogate pair means nothing on its own. */
  lemma LoneLow(u: bytes, rest: bytes)
    requires |u| > 1 && u[0] == BACKSLASH && u[1] == LOWER_U && Utf16Literal(u).Some? && Utf16Literal(u).value.1 == 12
    requires |rest| >= 6 && rest[..6] == u[6..12]
    ensures Worth(rest) == None
  {
    hide Hex4;
    assert rest[2..6] == rest[..6][2..6] == u[6..12][2..6] == u[8..12];
    assert rest[0] == rest[..6][0] && rest[1] == rest[..6][1];
  }

  lemma Utf8Weight(cp: nat)
    requires cp <= 0x10FFFF
    ensures 1 <= WeightAll(Utf8(cp)) <= 6
  {
    var s := Utf8(cp);
    if |s| > 1 {
      assert forall i :: 0 <= i < |s| ==> !Droppable(s[i]);
      LightWeight(s);
    } else {
      OneWeight(s[0]);
      assert s == [s[0]];
    }
  }

  lemma {:induction false} LightWeight(s: bytes)
    requires forall i :: 0 <= i < |s| ==> !Droppable(s[i])
    ensures WeightAll(s) == |s|
  {
    if |s| > 0 {
      LightWeight(s[1..]);
    }
  }

  /** The first bytes that are left, when they are plain, come from plain bytes. */
  lemma {:induction false} Peel(u: bytes, n: nat) returns (w: bytes)
    requires Sound(u) && n <= |Minify(u)| && forall i :: 0 <= i < n ==> Minify(u)[i] != BACKSLASH
    ensures Sound(w) && |w| <= |u| && Minify(u) == Minify(u)[..n] + Minify(w) && Worth(w).value + n <= Worth(u).value
    decreases |u|
  {
    hide Sound, Worth, Minify, Dropped;
    if n == 0 {
      w := u;
      assert Minify(u)[..0] == [];
    } else {
      if |u| == 0 {
        MinifyOfNothing(u);
      }
      BackslashStays(u);
      SoundPlain(u);
      if Droppable(u[0]) {
        MinifyDrops(u);
        DroppedWorth(u);
        w := Peel(Dropped(u), n);
      } else {
        MinifyKeeps(u);
        var m := Minify(u[1..]);
        assert Minify(u)[1..] == m;
        w := Peel(u[1..], n - 1);
        assert Minify(u)[..n] == [u[0]] + m[..n - 1];
      }
    }
  }

  lemma BackslashStays(u: bytes)
    requires |u| > 0
    ensures u[0] == BACKSLASH ==> |Minify(u)| > 0 && Minify(u)[0] == BACKSLASH
  {
  }

  lemma {:induction false} PendingUnicode(u: bytes)
    requires Sound(u) && |u| > 0 && u[0] == LOWER_U && Minify(u) == [LOWER_U] + Minify(u[1..])
    ensures AtMost(Worth([BACKSLASH] + Minify(u)), Worth(u).value + 5)
    decreases |u|, 0
  {
    hide Sound, Worth, Minify, Utf16Literal, Utf8, Hex;
    SoundPlain(u);
    var m := [BACKSLASH] + Minify(u);
    assert m[0] == BACKSLASH && m[1] == LOWER_U && m[2..] == Minify(u[1..]);
    WorthLiteral(m);
    if Utf16Literal(m).Some? && Utf16Literal(m).value.0 != 0 {
      LiteralBytes(m);
      var (cp, n) := Utf16Literal(m).value;
      var four := Peel(u[1..], 4);
      assert m[..6] + Minify(four) == m;
      Utf8Weight(cp);
      if n == 6 {
        KeptWorth(four);
        WorthUnicode(m, 6, Minify(four));
      } else {
        assert m[6..] == Minify(four);
        SecondIsLow(m);
        var more := PeelLow(four);
        assert m[..12] + Minify(more) == m;
        KeptWorth(more);
        WorthUnicode(m, 12, Minify(more));
      }
    }
  }

  lemma WorthLiteral(m: bytes)
    requires |m| > 1 && m[0] == BACKSLASH && m[1] == LOWER_U
    ensures Utf16Literal(m) == None ==> Worth(m) == None
    ensures Utf16Literal(m).Some? && Utf16Literal(m).value.0 == 0 ==> Worth(m) == Some(0)
  {
  }

  lemma SecondIsLow(m: bytes)
    requires |m| > 1 && Utf16Literal(m).Some? && Utf16Literal(m).value.1 == 12
    ensures |m| >= 12 && m[6] == BACKSLASH && m[7] == LOWER_U && LowSurrogate(Hex4(m[6..][2..6]))
  {
    assert m[6..][2..6] == m[8..12];
  }

  lemma LowBehindSlash(u: bytes)
    requires Sound(u) && |u| > 0 && u[0] == BACKSLASH && |Minify(u)| >= 6
    requires var m := Minify(u); m[1] == LOWER_U && LowSurrogate(Hex4(m[2..6]))
    ensures |u| > 1 && u[1] == SLASH
  {
    hide Sound, Worth, Hex4, Minify;
    SoundShort(u);
    if u[1] == LOWER_U {
      UnicodeStays(u);
    } else if u[1] != SLASH {
      SecondStays(u);
    }
  }

  lemma UnicodeStays(u: bytes)
    requires Sound(u) && |u| > 1 && u[0] == BACKSLASH && u[1] == LOWER_U
    ensures |u| >= 6 && |Minify(u)| >= 6 && Minify(u)[2..6] == u[2..6] && !LowSurrogate(Hex4(u[2..6]))
  {
    hide Sound, Worth, Hex4, Minify, Hex;
    SoundUnicode(u);
    LiteralBytes(u);
    Minification.MinifyWord(u[..6], u[6..]);
    assert u[..6] + u[6..] == u;
  }

  lemma SecondStays(u: bytes)
    requires Sound(u) && |u| > 1 && u[0] == BACKSLASH && u[1] != LOWER_U && u[1] != SLASH
    ensures |Minify(u)| > 1 && Minify(u)[1] == u[1]
  {
    hide Sound, Worth;
    SoundShort(u);
  }

  /** Half a surrogate pair can only be left where a slash was left out of an escaped slash. */
  lemma {:induction false} PeelLow(u: bytes) returns (w: bytes)
    requires Sound(u) && |Minify(u)| >= 6
    requires var m := Minify(u); m[0] == BACKSLASH && m[1] == LOWER_U && LowSurrogate(Hex4(m[2..6]))
    ensures Sound(w) && |w| <= |u| && Minify(u) == Minify(u)[..6] + Minify(w) && Worth(w).value <= Worth(u).value
    decreases |u|
  {
    hide Sound, Worth, Minify, Utf16Literal, Dropped, Hex, Hex4;
    var m := Minify(u);
    if |u| == 0 {
      MinifyOfNothing(u);
    }
    SoundQuote(u);
    if u[0] != BACKSLASH {
      SoundPlain(u);
      if !Droppable(u[0]) {
        MinifyKeeps(u);
      }
      MinifyDrops(u);
      DroppedWorth(u);
      w := PeelLow(Dropped(u));
    } else {
      MinifyKeeps(u);
      SoundShort(u);
      LowBehindSlash(u);
      var t := u[1..];
      assert m[1..] == Minify(t) && t[1..] == u[2..];
      SlashSound(t);
      MinifyDrops(t);
      DroppedWorth(t);
      HexBytes(m[2..6]);
      var five := Dropped(t);
      assert Minify(five) == m[1..];
      w := Peel(five, 5);
      assert m == m[..6] + Minify(w) by {
        assert m == [BACKSLASH] + Minify(five);
        assert m[..6] == [BACKSLASH] + Minify(five)[..5];
      }
    }
  }

  // ----- main result -----

  lemma {:induction false} MinifyNulFree(s: bytes)
    requires NulFree(s)
    ensures NulFree(Minify(s))
    decreases |s|
  {
    if |s| == 0 {
    } else if Droppable(s[0]) {
      MinifyDrops(s);
      DroppedNulFree(s);
      MinifyNulFree(Dropped(s));
    } else if s[0] == QUOTE {
      var n := QuotedRun(s[1..]);
      MinifyNulFree(s[1..][n..]);
    } else {
      MinifyKeeps(s);
      MinifyNulFree(s[1..]);
    }
  }

  lemma DroppedNulFree(s: bytes)
    requires NulFree(s) && |s| > 0 && Droppable(s[0])
    ensures NulFree(Dropped(s))
  {
    if |s| > 1 {
      LineNulFree(s[2..]);
      BlockNulFree(s[2..]);
    }
  }

  lemma {:induction false} LineNulFree(s: bytes)
    requires NulFree(s)
    ensures NulFree(AfterLine(s))
  {
    if |s| > 0 {
      LineNulFree(s[1..]);
    }
  }

  lemma {:induction false} BlockNulFree(s: bytes)
    requires NulFree(s)
    ensures NulFree(AfterBlock(s))
  {
    if |s| > 0 {
      BlockNulFree(s[1..]);
    }
  }

  /** A literal body whose string has no U+0000. */
  predicate Denotes(u: bytes) {
    Closed(u) && NulFree(u) && Unescape(u, []).Done? && NulFree(Unescape(u, []).value)
  }

  /** If what Minify leaves of a body is accepted as a body, it denotes the same string only if it is the same. */
  lemma DroppingIsSeen(u: bytes)
    requires Denotes(u) && Unescape(Minify(u), []).Done?
    requires CString(Unescape(Minify(u), []).value) == CString(Unescape(u, []).value)
    ensures Minify(u) == u
  {
    hide Unescape, CString, Sound, Worth, Minify;
    DenotesIsSound(u, []);
    MinifyNulFree(u);
    WorthIsWeight(u, []);
    WorthIsWeight(Minify(u), []);
    KeptWorth(u);
  }
}
