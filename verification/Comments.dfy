/**
 * cJSON_Minify byte by byte: an automaton that writes what Minify writes, and what that means for
 * comments.
 */
module Comments {
  import opened Bytes
  import opened Minifier
  import Misreading

  /**
   * Where a reader of the text is: between strings and comments, behind a slash there, in a string
   * (perhaps behind a backslash), or in a comment (perhaps behind a star).
   */
  datatype Place = Between | Slashed | Quoted(escaped: bool) | OnLine | InBlock(starred: bool)

  function Next(p: Place, b: byte): Place {
    match p
    case Quoted(escaped) => if b == QUOTE && !escaped then Between else Quoted(b == BACKSLASH)
    case OnLine => if b == NEWLINE then Between else OnLine
    case InBlock(starred) => if b == SLASH && starred then Between else InBlock(b == STAR)
    case _ =>
      if p == Slashed && b == SLASH then OnLine
      else if p == Slashed && b == STAR then InBlock(false)
      else if b == SLASH then Slashed
      else if b == QUOTE then Quoted(false)
      else Between
  }

  predicate Blank(c: char) { c == ' ' || c == '\t' || c == '\r' || c == '\n' }

  /** Is the byte written? Everything in strings is; blanks, slashes and comments are not. */
  predicate Writes(p: Place, b: byte) {
    match p
    case Quoted(_) => true
    case OnLine => false
    case InBlock(_) => false
    case _ => !Blank(b as char) && b != SLASH && !(p == Slashed && b == STAR)
  }

  /** Where the reader is behind `s`, and what has been written by then. */
  function Reach(p: Place, s: bytes): Place
    decreases |s|
  {
    if |s| == 0 then p else Reach(Next(p, s[0]), s[1..])
  }

  function Written(p: Place, s: bytes): bytes
    decreases |s|
  {
    if |s| == 0 then [] else (if Writes(p, s[0]) then [s[0]] else []) + Written(Next(p, s[0]), s[1..])
  }

  lemma {:induction false} ReachAppend(p: Place, a: bytes, b: bytes)
    ensures Reach(p, a + b) == Reach(Reach(p, a), b)
    ensures Written(p, a + b) == Written(p, a) + Written(Reach(p, a), b)
    decreases |a|
  {
    if |a| == 0 {
      assert a + b == b;
    } else {
      ReachAppend(Next(p, a[0]), a[1..], b);
      assert (a + b)[1..] == a[1..] + b;
    }
  }

  lemma WrittenStep(p: Place, s: bytes)
    ensures |s| == 0 ==> Written(p, s) == []
    ensures |s| > 0 ==> Written(p, s) == (if Writes(p, s[0]) then [s[0]] else []) + Written(Next(p, s[0]), s[1..])
  {
  }

  // ----- Minify is the automaton -----

  lemma {:induction false} QuotedIsWritten(s: bytes, escaped: bool)
    ensures Written(Quoted(escaped), s) == Misreading.Copying(s, escaped)
    decreases |s|, 0
  {
    hide Written, Minify;
    WrittenStep(Quoted(escaped), s);
    if |s| == 0 {
    } else if s[0] == QUOTE && !escaped {
      MinifyIsWritten(s[1..]);
    } else {
      QuotedIsWritten(s[1..], s[0] == BACKSLASH);
    }
  }

  lemma {:induction false} LineIsWritten(s: bytes)
    ensures Written(OnLine, s) == Minify(AfterLine(s))
    decreases |s|, 0
  {
    hide Written, Minify;
    WrittenStep(OnLine, s);
    if |s| == 0 {
      MinifyOfNothing(s);
    } else if s[0] == NEWLINE {
      MinifyIsWritten(s[1..]);
      NoPrefix(Minify(s[1..]));
    } else {
      LineIsWritten(s[1..]);
      NoPrefix(Minify(AfterLine(s)));
    }
  }

  lemma {:induction false} BlockIsWritten(s: bytes, starred: bool)
    ensures Written(InBlock(starred), s) == Minify(AfterBlock(if starred then [STAR] + s else s))
    decreases |s|, 0
  {
    hide Written, Minify, AfterBlock;
    WrittenStep(InBlock(starred), s);
    BlockStep(s);
    if |s| == 0 {
      MinifyOfNothing([]);
    } else if s[0] == SLASH && starred {
      MinifyIsWritten(s[1..]);
      NoPrefix(Minify(s[1..]));
    } else {
      BlockIsWritten(s[1..], s[0] == STAR);
      NoPrefix(Minify(AfterBlock(s)));
    }
  }

  /** The comment goes on behind a byte that does not close it. */
  lemma BlockStep(s: bytes)
    ensures |s| == 0 ==> AfterBlock(s) == AfterBlock([STAR] + s) == []
    ensures |s| > 0 ==> AfterBlock([STAR] + s) == if s[0] == SLASH then s[1..] else AfterBlock(s)
    ensures |s| > 0 ==> AfterBlock(s) == AfterBlock(if s[0] == STAR then [STAR] + s[1..] else s[1..])
  {
    assert ([STAR] + s)[1..] == s;
    if |s| > 0 {
      assert ([STAR] + s)[2..] == s[1..];
      assert s[0] == STAR ==> [STAR] + s[1..] == s;
    }
  }

  lemma {:induction false} SlashIsWritten(s: bytes)
    ensures Written(Slashed, s) == Minify([SLASH] + s)
    decreases |s|, 1
  {
    hide Written, Minify;
    var t := [SLASH] + s;
    assert t[1..] == s;
    SlashStep(t);
    WrittenStep(Slashed, s);
    if |s| == 0 {
      MinifyOfNothing(s);
    } else {
      assert t[2..] == s[1..];
      if s[0] == SLASH {
        LineIsWritten(s[1..]);
        NoPrefix(Minify(t));
      } else if s[0] == STAR {
        BlockIsWritten(s[1..], false);
        NoPrefix(Minify(t));
      } else {
        WrittenStep(Between, s);
        MinifyIsWritten(s);
      }
    }
  }

  lemma SlashStep(s: bytes)
    requires |s| > 0 && s[0] == SLASH
    ensures Minify(s) ==
            if |s| > 1 && s[1] == SLASH then Minify(AfterLine(s[2..]))
            else if |s| > 1 && s[1] == STAR then Minify(AfterBlock(s[2..]))
            else Minify(s[1..])
  {
  }

  /** On every text. */
  lemma {:induction false} MinifyIsWritten(s: bytes)
    ensures Minify(s) == Written(Between, s)
    decreases |s|, 0
  {
    hide Written, Misreading.Copying;
    WrittenStep(Between, s);
    if |s| == 0 {
    } else if s[0] == SLASH {
      SlashIsWritten(s[1..]);
      assert s == [SLASH] + s[1..];
    } else if s[0] == QUOTE {
      QuotedIsWritten(s[1..], false);
      Misreading.CopyingIsRun(s[1..]);
    } else {
      MinifyIsWritten(s[1..]);
    }
  }

  // ----- comments -----

  const OPENING: bytes := [SLASH, STAR]
  const CLOSING: bytes := [STAR, SLASH]
  const SLASHES: bytes := [SLASH, SLASH]

  predicate HoldsClosing(c: bytes) {
    exists i :: 0 <= i < |c| - 1 && c[i] == STAR && c[i + 1] == SLASH
  }

  /** Inside of a block comment nothing is written, and nothing but its closing ends it. */
  lemma {:induction false} InsideBlock(c: bytes, starred: bool)
    requires !HoldsClosing(c) && !(starred && |c| > 0 && c[0] == SLASH)
    ensures Reach(InBlock(starred), c).InBlock? && Written(InBlock(starred), c) == []
  {
    if |c| > 0 {
      NoClosingBehind(c);
      InsideBlock(c[1..], c[0] == STAR);
    }
  }

  lemma NoClosingBehind(c: bytes)
    requires !HoldsClosing(c) && |c| > 0
    ensures !HoldsClosing(c[1..]) && (|c| > 1 && c[0] == STAR ==> c[1] != SLASH)
  {
    assert |c| > 1 && c[0] == STAR ==> c[0 + 1] != SLASH;
  }

  lemma {:induction false} InsideLine(c: bytes)
    requires NEWLINE !in c
    ensures Reach(OnLine, c) == OnLine && Written(OnLine, c) == []
  {
    if |c| > 0 {
      InsideLine(c[1..]);
    }
  }

  /** What two bytes do that neither write anything. */
  lemma TwoBytes(p: Place, x: byte, y: byte, rest: bytes)
    requires !Writes(p, x) && !Writes(Next(p, x), y)
    ensures Written(p, [x, y] + rest) == Written(Next(Next(p, x), y), rest)
  {
    var s := [x, y] + rest;
    assert s[1..] == [y] + rest && s[1..][1..] == rest;
  }

  /** A block comment is as if it were not there. */
  lemma BlockCommentVanishes(a: bytes, c: bytes, b: bytes)
    requires Reach(Between, a) == Between && !HoldsClosing(c)
    ensures Minify(a + (OPENING + (c + (CLOSING + b)))) == Minify(a + b)
  {
    hide Minify, Written, Reach;
    var inside := c + (CLOSING + b);
    MinifyIsWritten(a + (OPENING + inside));
    MinifyIsWritten(a + b);
    ReachAppend(Between, a, OPENING + inside);
    ReachAppend(Between, a, b);
    TwoBytes(Between, SLASH, STAR, inside);
    ReachAppend(InBlock(false), c, CLOSING + b);
    InsideBlock(c, false);
    TwoBytes(Reach(InBlock(false), c), STAR, SLASH, b);
    NoPrefix(Written(Between, b));
  }

  /** So is a comment up to the end of its line, and the newline with it. */
  lemma LineCommentVanishes(a: bytes, c: bytes, b: bytes)
    requires Reach(Between, a) == Between && NEWLINE !in c
    ensures Minify(a + (SLASHES + (c + ([NEWLINE] + b)))) == Minify(a + b)
  {
    hide Minify, Written, Reach;
    var inside := c + ([NEWLINE] + b);
    MinifyIsWritten(a + (SLASHES + inside));
    MinifyIsWritten(a + b);
    ReachAppend(Between, a, SLASHES + inside);
    ReachAppend(Between, a, b);
    TwoBytes(Between, SLASH, SLASH, inside);
    ReachAppend(OnLine, c, [NEWLINE] + b);
    InsideLine(c);
    WrittenStep(OnLine, [NEWLINE] + b);
    assert ([NEWLINE] + b)[1..] == b;
    NoPrefix(Written(Between, b));
  }

  /** A comment without its end takes the rest of the text with it. */
  lemma UnendedCommentVanishes(a: bytes, c: bytes)
    requires Reach(Between, a) == Between
    ensures !HoldsClosing(c) ==> Minify(a + (OPENING + c)) == Minify(a)
    ensures NEWLINE !in c ==> Minify(a + (SLASHES + c)) == Minify(a)
  {
    hide Minify, Written, Reach;
    MinifyIsWritten(a);
    NoPrefix(Written(Between, a));
    if !HoldsClosing(c) {
      MinifyIsWritten(a + (OPENING + c));
      ReachAppend(Between, a, OPENING + c);
      TwoBytes(Between, SLASH, STAR, c);
      InsideBlock(c, false);
    }
    if NEWLINE !in c {
      MinifyIsWritten(a + (SLASHES + c));
      ReachAppend(Between, a, SLASHES + c);
      TwoBytes(Between, SLASH, SLASH, c);
      InsideLine(c);
    }
  }

  /** In a string there are no comments: what goes on without a quote is kept. */
  lemma StringsAreKept(a: bytes, c: bytes)
    requires Reach(Between, a).Quoted? && QUOTE !in c
    ensures Minify(a + c) == Minify(a) + c && Reach(Between, a + c).Quoted?
  {
    hide Minify, Written, Reach;
    MinifyIsWritten(a);
    MinifyIsWritten(a + c);
    ReachAppend(Between, a, c);
    InsideString(c, Reach(Between, a).escaped);
  }

  lemma {:induction false} InsideString(c: bytes, escaped: bool)
    requires QUOTE !in c
    ensures Reach(Quoted(escaped), c).Quoted? && Written(Quoted(escaped), c) == c
  {
    if |c| > 0 {
      InsideString(c[1..], c[0] == BACKSLASH);
      assert c == [c[0]] + c[1..];
    }
  }
}
