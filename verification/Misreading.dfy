/**
 * Minify on a text whose literals it misreads: behind a literal that ends in an escaped backslash
 * it takes the inside of literals for the outside. The text keeps its literals only if nothing is
 * left out of any of them.
 */
module Misreading {
  import opened Bytes
  import opened Values
  import opened Parser
  import opened Minifier
  import opened Literals
  import opened Losses

  // ----- Minify as a machine over bytes -----

  /** What Minify writes inside what it takes for a string; `r` says that a backslash precedes. */
  function Copying(t: bytes, r: bool): bytes
    decreases |t|
  {
    if |t| == 0 then []
    else if t[0] == QUOTE && !r then [QUOTE] + Minify(t[1..])
    else [t[0]] + Copying(t[1..], t[0] == BACKSLASH)
  }

  lemma {:induction false} CopyingIsRun(t: bytes)
    ensures Copying(t, false) == t[..QuotedRun(t)] + Minify(t[QuotedRun(t)..])
    decreases |t|
  {
    hide Minify, QuotedRun;
    if |t| == 0 {
      MinifyOfNothing(t);
    } else {
      RunStep(t);
      if t[0] == QUOTE {
        assert t[..1] == [QUOTE];
      } else if t[0] == BACKSLASH && |t| > 1 && t[1] == QUOTE {
        CopyingIsRun(t[2..]);
        assert t[1..][1..] == t[2..];
        CutTwo(t, QuotedRun(t[2..]), Minify(t[2..][QuotedRun(t[2..])..]));
      } else {
        CopyingIsRun(t[1..]);
        CutOne(t, QuotedRun(t[1..]), Minify(t[1..][QuotedRun(t[1..])..]));
      }
    }
  }

  lemma CutOne(t: bytes, n: nat, more: bytes)
    requires 1 + n <= |t|
    ensures [t[0]] + (t[1..][..n] + more) == t[..1 + n] + more && t[1..][n..] == t[1 + n..]
  {
  }

  lemma CutTwo(t: bytes, n: nat, more: bytes)
    requires 2 + n <= |t|
    ensures [t[0]] + ([t[1]] + (t[2..][..n] + more)) == t[..2 + n] + more && t[2..][n..] == t[2 + n..]
  {
  }

  /** Minify from either state on. */
  function Emit(t: bytes, copying: bool): bytes {
    if copying then Copying(t, false) else Minify(t)
  }

  lemma MinifyQuote(t: bytes)
    ensures Minify([QUOTE] + t) == [QUOTE] + Copying(t, false)
  {
    CopyingIsRun(t);
    assert ([QUOTE] + t)[1..] == t;
  }

  // ----- reading literals as a machine over bytes -----

  datatype Mode = Mode(inside: bool, escaped: bool)

  const OUT: Mode := Mode(false, false)
  const IN: Mode := Mode(true, false)

  function Next(m: Mode, b: byte): Option<Mode> {
    if m.inside then
      if m.escaped then Some(IN) else if b == QUOTE then Some(OUT) else Some(Mode(true, b == BACKSLASH))
    else if b == QUOTE then Some(IN)
    else if Outer(b) then Some(OUT)
    else None
  }

  /** How many literals end in `s`; None if `s` cannot be read or ends inside of one. */
  function LiteralEnds(s: bytes, m: Mode): Option<nat> {
    if |s| == 0 then (if m.inside then None else Some(0))
    else
      match Next(m, s[0])
      case None => None
      case Some(m') => Plus(if m.inside && !m'.inside then 1 else 0, LiteralEnds(s[1..], m'))
  }

  lemma {:induction false} EndsInside(s: bytes)
    requires ScanLiteral(s).Some?
    ensures LiteralEnds(s, IN) == Plus(1, LiteralEnds(s[ScanLiteral(s).value + 1..], OUT))
    decreases |s|
  {
    if s[0] == QUOTE {
    } else if s[0] == BACKSLASH {
      EndsInside(s[2..]);
      assert s[1..][1..] == s[2..];
    } else {
      EndsInside(s[1..]);
    }
  }

  /** There are as many ends as literals. */
  lemma {:induction false} EndsOutside(s: bytes)
    requires Outside(s).Some?
    ensures LiteralEnds(s, OUT) == Some(|Outside(s).value|)
    decreases |s|
  {
    if |s| > 0 {
      if s[0] == QUOTE {
        var n := ScanLiteral(s[1..]).value;
        EndsInside(s[1..]);
        EndsOutside(s[1..][n + 1..]);
      } else {
        EndsOutside(s[1..]);
      }
    }
  }

  // ----- comments in a misread literal -----

  /** The state behind a line comment; if it ends outside of a literal it began in, that one has ended. */
  lemma {:induction false} LineMode(s: bytes, m: Mode) returns (m': Mode)
    requires LiteralEnds(s, m).Some?
    ensures LiteralEnds(AfterLine(s), m').Some? && !m'.escaped
    ensures LiteralEnds(AfterLine(s), m').value + (if m.inside && !m'.inside then 1 else 0) <= LiteralEnds(s, m).value
  {
    if |s| == 0 {
      m' := OUT;
    } else if s[0] == NEWLINE {
      m' := Next(m, s[0]).value;
    } else {
      m' := LineMode(s[1..], Next(m, s[0]).value);
    }
  }

  lemma {:induction false} BlockMode(s: bytes, m: Mode) returns (m': Mode)
    requires LiteralEnds(s, m).Some?
    ensures LiteralEnds(AfterBlock(s), m').Some? && !m'.escaped
    ensures LiteralEnds(AfterBlock(s), m').value + (if m.inside && !m'.inside then 1 else 0) <= LiteralEnds(s, m).value
  {
    if |s| == 0 {
      m' := OUT;
    } else {
      var n := Next(m, s[0]).value;
      if s[0] == STAR && |s| > 1 && s[1] == SLASH {
        assert s[1..][1..] == s[2..];
        m' := Next(n, SLASH).value;
      } else {
        m' := BlockMode(s[1..], n);
      }
    }
  }

  /** The same for whatever Minify leaves out from a byte on. */
  lemma DropMode(s: bytes, m: Mode) returns (m': Mode)
    requires |s| > 0 && Droppable(s[0]) && LiteralEnds(s, m).Some?
    ensures LiteralEnds(Dropped(s), m').Some? && !m'.escaped
    ensures LiteralEnds(Dropped(s), m').value + (if m.inside && !m'.inside then 1 else 0) <= LiteralEnds(s, m).value
  {
    var n := Next(m, s[0]).value;
    if s[0] == SLASH && |s| > 1 && (s[1] == SLASH || s[1] == STAR) {
      assert s[1..][1..] == s[2..];
      var l := Next(n, s[1]).value;
      if s[1] == SLASH {
        m' := LineMode(s[2..], l);
      } else {
        m' := BlockMode(s[2..], l);
      }
    } else {
      m' := n;
    }
  }

  // ----- no more literals than before -----

  /** One more literal can still end in `s` than was begun when only the text is inside of one. */
  function Excess(m: Mode, now: Mode): nat {
    if m.inside && !now.inside then 1 else 0
  }

  /** One byte that is kept, for the text in mode `m` and what is written in mode `now`. */
  lemma KeptByte(m: Mode, now: Mode, b: byte)
    requires Next(m, b).Some? && Next(now, b).Some? && (!now.inside ==> !m.escaped)
    ensures var m', now' := Next(m, b).value, Next(now, b).value;
            (!now'.inside ==> !m'.escaped) &&
            (if now.inside && !now'.inside then 1 else 0) + Excess(m, now) <=
            (if m.inside && !m'.inside then 1 else 0) + Excess(m', now')
  {
  }

  /** Whatever either of the two takes for literals, what is written has no more of them than the text. */
  lemma {:induction false} NoMoreLiterals(t: bytes, m: Mode, copying: bool, r: bool, now: Mode)
    requires LiteralEnds(t, m).Some? && (!now.inside ==> !m.escaped)
    requires LiteralEnds(if copying then Copying(t, r) else Minify(t), now).Some?
    ensures LiteralEnds(if copying then Copying(t, r) else Minify(t), now).value + Excess(m, now) <=
            LiteralEnds(t, m).value
    decreases |t|
  {
    hide Minify, Copying, Dropped, Outer;
    if |t| == 0 {
      MinifyOfNothing(t);
      CopyingNothing(t, r);
    } else if !copying && Droppable(t[0]) {
      MinifyDrops(t);
      var m' := DropMode(t, m);
      NoMoreLiterals(Dropped(t), m', false, false, now);
    } else {
      var copying' := if copying then t[0] != QUOTE || r else t[0] == QUOTE;
      var r' := copying && t[0] == BACKSLASH;
      WrittenByte(t, copying, r);
      var rest := if copying' then Copying(t[1..], r') else Minify(t[1..]);
      EndsCons(t[0], rest, now);
      KeptByte(m, now, t[0]);
      NoMoreLiterals(t[1..], Next(m, t[0]).value, copying', r', Next(now, t[0]).value);
    }
  }

  lemma CopyingNothing(t: bytes, r: bool)
    requires |t| == 0
    ensures Copying(t, r) == []
  {
  }

  lemma WrittenByte(t: bytes, copying: bool, r: bool)
    requires |t| > 0 && (copying || !Droppable(t[0]))
    ensures var copying' := if copying then t[0] != QUOTE || r else t[0] == QUOTE;
            var r' := copying && t[0] == BACKSLASH;
            (if copying then Copying(t, r) else Minify(t)) ==
            [t[0]] + if copying' then Copying(t[1..], r') else Minify(t[1..])
  {
    if !copying && t[0] == QUOTE {
      MinifyQuote(t[1..]);
      assert t == [QUOTE] + t[1..];
    }
  }

  lemma EndsCons(b: byte, s: bytes, m: Mode)
    ensures LiteralEnds([b] + s, m) ==
            if Next(m, b) == None then None
            else Plus(if m.inside && !Next(m, b).value.inside then 1 else 0, LiteralEnds(s, Next(m, b).value))
  {
    assert ([b] + s)[1..] == s;
  }

  /** When what is written has its literals where the text has what is between, it ends inside of one. */
  lemma {:induction false} StrayQuote(t: bytes, inside: bool)
    requires LiteralEnds(t, Mode(inside, false)).Some?
    ensures LiteralEnds(Emit(t, inside), Mode(!inside, false)) == None
    decreases |t|
  {
    hide Minify, Copying, Dropped;
    if |t| == 0 {
      MinifyOfNothing(t);
    } else if !inside && Droppable(t[0]) {
      MinifyDrops(t);
      assert Dropped(t) == t[1..] by { PlainDrop(t); }
      StrayQuote(t[1..], false);
    } else {
      WrittenByte(t, inside, false);
      var inside' := if t[0] == QUOTE then !inside else inside;
      EndsCons(t[0], if inside' then Copying(t[1..], inside && t[0] == BACKSLASH) else Minify(t[1..]),
        Mode(!inside, false));
      if t[0] == QUOTE || Outer(t[0]) {
        StrayQuote(t[1..], inside');
      }
    }
  }

  lemma PlainDrop(t: bytes)
    requires |t| > 0 && Removable(t[0])
    ensures Dropped(t) == t[1..]
  {
  }

  // ----- a literal read from the inside -----

  /** `u` stays inside the literal it is in, up to a closing quote behind it. */
  predicate Within(u: bytes, escaped: bool) {
    if |u| == 0 then !escaped
    else if escaped then Within(u[1..], false)
    else u[0] != QUOTE && Within(u[1..], u[0] == BACKSLASH)
  }

  lemma {:induction false} EndsBehind(u: bytes, escaped: bool, tail: bytes)
    requires Within(u, escaped)
    ensures LiteralEnds(u + ([QUOTE] + tail), Mode(true, escaped)) == Plus(1, LiteralEnds(tail, OUT))
  {
    hide Outer;
    if |u| == 0 {
      assert u + ([QUOTE] + tail) == [QUOTE] + tail;
      EndsCons(QUOTE, tail, IN);
    } else {
      var more := u[1..] + ([QUOTE] + tail);
      assert u + ([QUOTE] + tail) == [u[0]] + more;
      EndsCons(u[0], more, Mode(true, escaped));
      EndsBehind(u[1..], !escaped && u[0] == BACKSLASH, tail);
      PlusNothing(LiteralEnds(more, Next(Mode(true, escaped), u[0]).value));
    }
  }

  lemma PlusNothing(r: Option<nat>)
    ensures Plus(0, r) == r
  {
  }

  lemma {:induction false} WithinScan(u: bytes, tail: bytes)
    requires Within(u, false)
    ensures ScanLiteral(u + ([QUOTE] + tail)) == Some(|u|)
    decreases |u|
  {
    var s := u + ([QUOTE] + tail);
    if |u| == 0 {
      assert s == [QUOTE] + tail;
    } else if u[0] == BACKSLASH {
      assert u[1..][1..] == u[2..];
      WithinScan(u[2..], tail);
      assert s[2..] == u[2..] + ([QUOTE] + tail);
    } else {
      WithinScan(u[1..], tail);
      assert s[1..] == u[1..] + ([QUOTE] + tail);
    }
  }

  lemma {:induction false} ScanWithin(s: bytes)
    requires ScanLiteral(s).Some?
    ensures Within(s[..ScanLiteral(s).value], false)
    decreases |s|
  {
    var n := ScanLiteral(s).value;
    if s[0] == QUOTE {
    } else if s[0] == BACKSLASH {
      ScanWithin(s[2..]);
      assert s[..n][1..][1..] == s[2..][..n - 2];
    } else {
      ScanWithin(s[1..]);
      assert s[..n][1..] == s[1..][..n - 1];
    }
  }

  /** Copied from a quote on, it stays a string: its quotes have backslashes in front of them. */
  lemma {:induction false} CopyWithin(u: bytes, escaped: bool, r: bool, rest: bytes)
    requires Within(u, escaped) && (escaped ==> r)
    ensures Copying(u + rest, r) == u + Copying(rest, if |u| == 0 then r else u[|u| - 1] == BACKSLASH)
    decreases |u|
  {
    hide Copying, Minify;
    if |u| == 0 {
      NoPrefix(rest);
      NoPrefix(Copying(rest, r));
    } else {
      WrittenByte(u + rest, true, r);
      assert (u + rest)[1..] == u[1..] + rest;
      CopyWithin(u[1..], !escaped && u[0] == BACKSLASH, u[0] == BACKSLASH, rest);
      assert |u| > 1 ==> u[1..][|u| - 2] == u[|u| - 1];
      var more := Copying(rest, u[|u| - 1] == BACKSLASH);
      assert u == [u[0]] + u[1..];
      Nest([u[0]], u[1..], more);
    }
  }

  /** A line comment that ends inside of the literal, and one that does not. */
  lemma {:induction false} LineWithin(u: bytes, escaped: bool, rest: bytes)
    requires Within(u, escaped)
    ensures NEWLINE in u ==> AfterLine(u + rest) == AfterLine(u) + rest && Within(AfterLine(u), false)
    ensures NEWLINE !in u ==> AfterLine(u + rest) == AfterLine(rest)
  {
    if |u| == 0 {
      assert u + rest == rest;
    } else {
      assert (u + rest)[1..] == u[1..] + rest;
      assert u == [u[0]] + u[1..];
      LineWithin(u[1..], !escaped && u[0] == BACKSLASH, rest);
    }
  }

  predicate BlockEnds(u: bytes) {
    |u| >= 2 && ((u[0] == STAR && u[1] == SLASH) || BlockEnds(u[1..]))
  }

  lemma {:induction false} BlockWithin(u: bytes, escaped: bool, rest: bytes)
    requires Within(u, escaped) && |rest| > 0 && rest[0] == QUOTE
    ensures BlockEnds(u) ==> AfterBlock(u + rest) == AfterBlock(u) + rest && Within(AfterBlock(u), false)
    ensures !BlockEnds(u) ==> AfterBlock(u + rest) == AfterBlock(rest)
    decreases |u|
  {
    if |u| == 0 {
      assert u + rest == rest;
    } else {
      assert (u + rest)[1..] == u[1..] + rest;
      if |u| >= 2 && u[0] == STAR && u[1] == SLASH {
        assert u[1..][1..] == u[2..] && (u + rest)[2..] == u[2..] + rest;
      } else {
        BlockWithin(u[1..], !escaped && u[0] == BACKSLASH, rest);
      }
    }
  }

  /** A comment that starts the text also ends in it. */
  predicate CommentEnds(u: bytes) {
    |u| > 1 && u[0] == SLASH ==> (u[1] == SLASH ==> NEWLINE in u[2..]) && (u[1] == STAR ==> BlockEnds(u[2..]))
  }

  /** What is left out from a byte inside the literal on ends inside of it, or goes past its end. */
  lemma DropWithin(u: bytes, escaped: bool, tail: bytes)
    requires |u| > 0 && Droppable(u[0]) && Within(u, escaped)
    ensures var full := u + ([QUOTE] + tail);
            if CommentEnds(u) then
              Dropped(full) == Dropped(u) + ([QUOTE] + tail) && Within(Dropped(u), false)
            else
              Dropped(full) == AfterLine(tail) || Dropped(full) == AfterBlock(tail)
  {
    var rest := [QUOTE] + tail;
    var full := u + rest;
    assert full[1..] == u[1..] + rest;
    if u[0] == SLASH && |u| > 1 && (u[1] == SLASH || u[1] == STAR) {
      assert full[2..] == u[2..] + rest && u[1..][1..] == u[2..];
      assert rest[1..] == tail;
      if u[1] == SLASH {
        LineWithin(u[2..], false, rest);
      } else {
        BlockWithin(u[2..], false, rest);
      }
    }
  }

  /** All comments that Minify sees in a body it misreads end in it. */
  predicate CommentsEnd(u: bytes)
    decreases |u|
  {
    if |u| == 0 || u[0] == QUOTE then true
    else if Droppable(u[0]) then CommentEnds(u) && CommentsEnd(Dropped(u))
    else CommentsEnd(u[1..])
  }

  lemma CommentsStep(u: bytes)
    ensures |u| == 0 || u[0] == QUOTE ==> CommentsEnd(u)
    ensures |u| > 0 && Droppable(u[0]) ==> CommentsEnd(u) == (CommentEnds(u) && CommentsEnd(Dropped(u)))
    ensures |u| > 0 && u[0] != QUOTE && !Droppable(u[0]) ==> CommentsEnd(u) == CommentsEnd(u[1..])
  {
  }

  /** A text that loses none of its literals has lost nothing but bytes inside of this one. */
  lemma {:induction false} SameEnd(u: bytes, escaped: bool, tail: bytes, now: bool)
    requires Within(u, escaped)
    requires var full := u + ([QUOTE] + tail);
             LiteralEnds(full, Mode(true, escaped)).Some? &&
             LiteralEnds(Minify(full), Mode(true, now)) == LiteralEnds(full, Mode(true, escaped))
    ensures CommentsEnd(u) && Within(Minify(u), now) && Minify(u) + [QUOTE] <= Minify(u + ([QUOTE] + tail))
    decreases |u|
  {
    hide Minify, Copying, Dropped, Outer, Within, CommentEnds, CommentsEnd;
    CommentsStep(u);
    var rest := [QUOTE] + tail;
    var full := u + rest;
    EndsBehind(u, escaped, tail);
    WithinStep(u, escaped);
    if |u| == 0 {
      assert full == rest;
      MinifyOfNothing(u);
      MinifyQuote(tail);
      EndsCons(QUOTE, Copying(tail, false), Mode(true, now));
      if now {
        NoMoreLiterals(tail, OUT, true, false, IN);
      }
    } else if Droppable(u[0]) {
      MinifyDrops(u);
      MinifyDrops(full);
      DropWithin(u, escaped, tail);
      if CommentEnds(u) {
        EndsBehind(Dropped(u), false, tail);
        SameEnd(Dropped(u), false, tail, now);
      } else {
        PastTheEnd(tail, Dropped(full), now);
      }
    } else {
      assert full[1..] == u[1..] + rest;
      var next := !escaped && u[0] == BACKSLASH;
      EndsBehind(u[1..], next, tail);
      if u[0] == QUOTE {
        QuoteInside(u, tail, now);
      } else {
        MinifyKeeps(u);
        MinifyKeeps(full);
        EndsCons(u[0], Minify(full[1..]), Mode(true, now));
        PlusNothing(LiteralEnds(Minify(full[1..]), Mode(true, !now && u[0] == BACKSLASH)));
        SameEnd(u[1..], next, tail, !now && u[0] == BACKSLASH);
        WithinCons(u[0], Minify(u[1..]), now);
        assert [u[0]] + (Minify(u[1..]) + [QUOTE]) == ([u[0]] + Minify(u[1..])) + [QUOTE];
      }
    }
  }

  lemma WithinStep(u: bytes, escaped: bool)
    requires Within(u, escaped)
    ensures |u| == 0 ==> !escaped
    ensures |u| > 0 ==> Within(u[1..], !escaped && u[0] == BACKSLASH) && (u[0] == QUOTE ==> escaped)
  {
  }

  lemma WithinCons(b: byte, u: bytes, escaped: bool)
    requires Within(u, !escaped && b == BACKSLASH) && (b == QUOTE ==> escaped)
    ensures Within([b] + u, escaped)
  {
    assert ([b] + u)[1..] == u;
  }

  /** A comment that goes past the end of the literal takes that end with it. */
  lemma PastTheEnd(tail: bytes, rest: bytes, now: bool)
    requires LiteralEnds(tail, OUT).Some? && (rest == AfterLine(tail) || rest == AfterBlock(tail))
    ensures LiteralEnds(Minify(rest), Mode(true, now)) != Plus(1, LiteralEnds(tail, OUT))
  {
    hide Minify, Copying, Outer;
    var m: Mode;
    if rest == AfterLine(tail) {
      m := LineMode(tail, OUT);
    } else {
      m := BlockMode(tail, OUT);
    }
    if LiteralEnds(Minify(rest), Mode(true, now)).Some? {
      NoMoreLiterals(rest, m, false, false, Mode(true, now));
    }
  }

  /** An escaped quote that Minify takes for the beginning of a string. */
  lemma QuoteInside(u: bytes, tail: bytes, now: bool)
    requires |u| > 0 && u[0] == QUOTE && Within(u[1..], false)
    requires LiteralEnds(u[1..] + ([QUOTE] + tail), IN).Some?
    requires LiteralEnds(Minify(u + ([QUOTE] + tail)), Mode(true, now)).Some?
    ensures Within(Minify(u), now) && Minify(u) + [QUOTE] <= Minify(u + ([QUOTE] + tail))
  {
    hide Minify, Copying, Outer, Within, LiteralEnds;
    var w, rest := u[1..], [QUOTE] + tail;
    var full := w + rest;
    var r := if |w| == 0 then false else w[|w| - 1] == BACKSLASH;
    assert u == [QUOTE] + w && u + rest == [QUOTE] + full;
    MinifyQuote(w);
    MinifyQuote(full);
    EndsCons(QUOTE, Copying(full, false), Mode(true, now));
    if !now {
      StrayQuote(full, true);
    }
    CopyWithin(w, false, false, []);
    CopyWithin(w, false, false, rest);
    assert w + [] == w;
    CopyingNothing([], r);
    CopyingQuote(tail, r);
    WithinCons(QUOTE, w, now);
    QuotePrefix(w, Copying(rest, r));
  }

  lemma QuotePrefix(w: bytes, more: bytes)
    requires [QUOTE] <= more
    ensures ([QUOTE] + w) + [QUOTE] <= [QUOTE] + (w + more)
  {
    assert more == [QUOTE] + more[1..];
    assert [QUOTE] + (w + more) == (([QUOTE] + w) + [QUOTE]) + more[1..];
  }

  lemma CopyingQuote(tail: bytes, r: bool)
    ensures [QUOTE] <= Copying([QUOTE] + tail, r)
  {
  }

  // ----- which literals survive -----

  /** The bytes in front of the first (escaped) quote. */
  function FirstQuote(u: bytes): (n: nat)
    ensures n <= |u|
  {
    if |u| == 0 || u[0] == QUOTE then 0 else 1 + FirstQuote(u[1..])
  }

  /** Read as if it were no literal, a body loses nothing: no blank or slash comes before its first quote. */
  predicate SparedBody(u: bytes) {
    forall i :: 0 <= i < FirstQuote(u) ==> !Droppable(u[i])
  }

  /**
   * Read as if it were no literal, a body may lose bytes, but what is left is a body again and
   * denotes the same C string.
   */
  predicate Survives(u: bytes) {
    CommentsEnd(u) && Within(Minify(u), false) && Unescape(u, []).Done? && Unescape(Minify(u), []).Done? &&
    CString(Unescape(Minify(u), []).value) == CString(Unescape(u, []).value)
  }

  predicate LastIsBackslash(u: bytes) {
    |u| > 0 && u[|u| - 1] == BACKSLASH
  }

  /** Does Minify take what follows a literal that it has misread for a string? */
  predicate StillMisread(u: bytes)
    decreases |u|
  {
    if |u| == 0 then true
    else if Droppable(u[0]) then StillMisread(Dropped(u))
    else if u[0] == QUOTE then LastIsBackslash(u[1..])
    else StillMisread(u[1..])
  }

  /** The same, when it has read the literal from one of its two states. */
  predicate After(misread: bool, u: bytes) {
    if misread then StillMisread(u) else LastIsBackslash(u)
  }

  /** Of these literals in their order, those that are misread lose nothing. */
  predicate Spared(bodies: seq<bytes>, misread: bool) {
    |bodies| == 0 || ((misread ==> SparedBody(bodies[0])) && Spared(bodies[1..], After(misread, bodies[0])))
  }

  /** Those that are misread survive it. */
  predicate Kept(bodies: seq<bytes>, misread: bool) {
    |bodies| == 0 || ((misread ==> Survives(bodies[0])) && Kept(bodies[1..], After(misread, bodies[0])))
  }

  lemma CopiedRun(u: bytes, tail: bytes)
    requires Within(u, false)
    ensures Copying(u + ([QUOTE] + tail), false) == u + ([QUOTE] + Emit(tail, After(false, u)))
  {
    hide Minify, Copying;
    CopyWithin(u, false, false, [QUOTE] + tail);
    WrittenByte([QUOTE] + tail, true, LastIsBackslash(u));
    assert ([QUOTE] + tail)[1..] == tail;
  }

  /** What Minify makes of a literal that it misreads, and the state it is in behind it. */
  lemma {:induction false} MisreadRun(u: bytes, escaped: bool, tail: bytes)
    requires CommentsEnd(u) && Within(u, escaped)
    ensures Minify(u + ([QUOTE] + tail)) == Minify(u) + ([QUOTE] + Emit(tail, StillMisread(u)))
    decreases |u|
  {
    hide Minify, Copying, Within, Dropped, CommentEnds, CommentsEnd, StillMisread, LastIsBackslash;
    var rest := [QUOTE] + tail;
    WithinStep(u, escaped);
    CommentsStep(u);
    StateStep(u);
    if |u| == 0 {
      assert u + rest == rest;
      MinifyOfNothing(u);
      MinifyQuote(tail);
      NoPrefix(rest);
    } else if Droppable(u[0]) {
      MinifyDrops(u);
      MinifyDrops(u + rest);
      DropWithin(u, escaped, tail);
      MisreadRun(Dropped(u), false, tail);
    } else if u[0] == QUOTE {
      var w := u[1..];
      assert u == [QUOTE] + w && u + rest == [QUOTE] + (w + rest);
      MinifyQuote(w);
      MinifyQuote(w + rest);
      CopiedRun(w, tail);
      CopiedWhole(w);
      Nest([QUOTE], w, [QUOTE] + Emit(tail, StillMisread(u)));
    } else {
      assert (u + rest)[1..] == u[1..] + rest;
      MinifyKeeps(u);
      MinifyKeeps(u + rest);
      MisreadRun(u[1..], !escaped && u[0] == BACKSLASH, tail);
      Nest([u[0]], Minify(u[1..]), [QUOTE] + Emit(tail, StillMisread(u)));
    }
  }

  lemma CopiedWhole(w: bytes)
    requires Within(w, false)
    ensures Copying(w, false) == w
  {
    hide Copying, Within;
    CopyWithin(w, false, false, []);
    CopyingNothing([], LastIsBackslash(w));
    NoPrefix(w);
  }

  lemma StateStep(u: bytes)
    ensures |u| == 0 ==> StillMisread(u)
    ensures |u| > 0 && Droppable(u[0]) ==> StillMisread(u) == StillMisread(Dropped(u))
    ensures |u| > 0 && u[0] == QUOTE ==> StillMisread(u) == LastIsBackslash(u[1..])
    ensures |u| > 0 && u[0] != QUOTE && !Droppable(u[0]) ==> StillMisread(u) == StillMisread(u[1..])
  {
  }

  lemma SparedStep(u: bytes)
    requires |u| > 0 && u[0] != QUOTE
    ensures SparedBody(u) <==> !Droppable(u[0]) && SparedBody(u[1..])
  {
    if !Droppable(u[0]) && SparedBody(u[1..]) {
      assert forall i :: 0 < i < FirstQuote(u) ==> u[i] == u[1..][i - 1];
    }
    if SparedBody(u) {
      assert forall i :: 0 <= i < FirstQuote(u[1..]) ==> u[1..][i] == u[i + 1];
    }
  }

  lemma {:induction false} UnchangedIsSpared(u: bytes)
    requires Minify(u) == u
    ensures SparedBody(u)
  {
    hide Minify;
    if |u| > 0 && u[0] != QUOTE {
      SparedStep(u);
      if Droppable(u[0]) {
        MinifyDrops(u);
      } else {
        MinifyKeeps(u);
        assert Minify(u)[1..] == Minify(u[1..]);
        UnchangedIsSpared(u[1..]);
      }
    }
  }

  lemma {:induction false} SparedFrom(u: bytes, escaped: bool)
    requires SparedBody(u) && Within(u, escaped)
    ensures Minify(u) == u && CommentsEnd(u)
  {
    hide Minify, Copying, Within, Dropped, CommentEnds, CommentsEnd;
    WithinStep(u, escaped);
    CommentsStep(u);
    if |u| == 0 {
      MinifyOfNothing(u);
    } else if u[0] == QUOTE {
      assert u == [QUOTE] + u[1..];
      MinifyQuote(u[1..]);
      CopiedWhole(u[1..]);
    } else {
      SparedStep(u);
      MinifyKeeps(u);
      SparedFrom(u[1..], !escaped && u[0] == BACKSLASH);
    }
  }

  /** A body that loses nothing survives; without U+0000 in its string no other body does. */
  lemma SparedSurvives(u: bytes)
    requires Within(u, false) && Unescape(u, []).Done?
    ensures SparedBody(u) ==> Survives(u)
    ensures Denotes(u) && Survives(u) ==> SparedBody(u)
  {
    hide Minify, Within, CommentsEnd, Unescape, CString, Denotes, SparedBody;
    if SparedBody(u) {
      SparedFrom(u, false);
    }
    if Denotes(u) && Survives(u) {
      DroppingIsSeen(u);
      UnchangedIsSpared(u);
    }
  }

  // ----- what a text that keeps its strings has not lost -----

  /** The literals `now` can be decoded and denote the C strings of `before`. */
  predicate Rereads(now: seq<bytes>, before: seq<bytes>) {
    |now| == |before| &&
    (|now| == 0 ||
     (Unescape(before[0], []).Done? && Unescape(now[0], []).Done? &&
      CString(Unescape(now[0], []).value) == CString(Unescape(before[0], []).value) && Rereads(now[1..], before[1..])))
  }

  lemma OutsideQuote(t: bytes) returns (u: bytes, tail: bytes)
    requires Outside(t).Some? && |t| > 0 && t[0] == QUOTE
    ensures t == [QUOTE] + (u + ([QUOTE] + tail)) && Within(u, false)
    ensures Outside(tail).Some? && Outside(t) == Join([u], Outside(tail))
  {
    var full := t[1..];
    var n := ScanLiteral(full).value;
    u, tail := full[..n], full[n + 1..];
    ScanWithin(full);
    assert full == u + ([QUOTE] + tail);
  }

  lemma OutsideWithin(u: bytes, tail: bytes)
    requires Within(u, false)
    ensures Outside([QUOTE] + (u + ([QUOTE] + tail))) == Join([u], Outside(tail))
  {
    hide Within, ScanLiteral;
    var full := u + ([QUOTE] + tail);
    WithinScan(u, tail);
    assert full[..|u|] == u && full[|u| + 1..] == tail;
    assert ([QUOTE] + full)[1..] == full;
  }

  /** The first literal, when it is misread. */
  lemma FirstSurvives(u: bytes, tail: bytes, now: seq<bytes>, before: seq<bytes>)
    requires Within(u, false)
    requires Outside([QUOTE] + (u + ([QUOTE] + tail))) == Some(before) && |before| > 0 && before[0] == u
    requires Outside([QUOTE] + Minify(u + ([QUOTE] + tail))) == Some(now) && Rereads(now, before)
    ensures Survives(u)
  {
    hide Minify, Within, Outside, LiteralEnds, Unescape, CString, CommentsEnd;
    var full := u + ([QUOTE] + tail);
    EndsOutside([QUOTE] + full);
    EndsOutside([QUOTE] + Minify(full));
    EndsCons(QUOTE, full, OUT);
    EndsCons(QUOTE, Minify(full), OUT);
    PlusNothing(LiteralEnds(full, IN));
    PlusNothing(LiteralEnds(Minify(full), IN));
    SameEnd(u, false, tail, false);
    var kept := Minify(u);
    var rest := Minify(full)[|kept| + 1..];
    assert Minify(full) == kept + ([QUOTE] + rest);
    OutsideWithin(kept, rest);
    assert now[0] == kept;
  }

  /**
   * If the text that Minify writes has as many literals as the one it read, and they denote the same
   * strings, then every literal that was misread has survived.
   */
  lemma {:induction false} SameStringsAreKept(t: bytes, misread: bool, now: seq<bytes>, before: seq<bytes>)
    requires Outside(t) == Some(before) && Outside(Emit(t, misread)) == Some(now) && Rereads(now, before)
    ensures Kept(before, misread)
    decreases |t|
  {
    hide Minify, Copying, Within, Rereads, Unescape, CString, Survives, StillMisread, LastIsBackslash;
    if |t| == 0 {
    } else if t[0] == QUOTE {
      var u, tail := OutsideQuote(t);
      var full := u + ([QUOTE] + tail);
      WrittenByte(t, misread, false);
      assert t[1..] == full;
      if misread {
        FirstSurvives(u, tail, now, before);
        SurvivorEnds(u);
        MisreadRun(u, false, tail);
        OutsideWithin(Minify(u), Emit(tail, After(misread, u)));
      } else {
        CopiedRun(u, tail);
        OutsideWithin(u, Emit(tail, After(misread, u)));
      }
      RereadsRest(now, before);
      SameStringsAreKept(tail, After(misread, u), now[1..], before[1..]);
    } else {
      if !misread && Droppable(t[0]) {
        MinifyDrops(t);
        PlainDrop(t);
      } else {
        WrittenByte(t, misread, false);
        assert Emit(t, misread)[1..] == Emit(t[1..], misread);
      }
      SameStringsAreKept(t[1..], misread, now, before);
    }
  }

  lemma SurvivorEnds(u: bytes)
    requires Survives(u)
    ensures CommentsEnd(u) && Within(Minify(u), false)
  {
  }

  lemma RereadsRest(now: seq<bytes>, before: seq<bytes>)
    requires Rereads(now, before) && |now| > 0
    ensures Rereads(now[1..], before[1..])
  {
  }
}
