/** cJSON_Minify: the function on text, and what it keeps. */
module Minifier {
  import opened Bytes
  import opened Values
  import opened Parser
  import opened Syntax

  /** The rest of the text behind a one-line comment whose slashes are gone. */
  function AfterLine(s: bytes): (t: bytes)
    ensures |t| <= |s|
  {
    if |s| == 0 then [] else if s[0] == NEWLINE then s[1..] else AfterLine(s[1..])
  }

  /** The rest of the text behind a block comment whose opening is gone. */
  function AfterBlock(s: bytes): (t: bytes)
    ensures |t| <= |s|
  {
    if |s| == 0 then []
    else if s[0] == STAR && |s| > 1 && s[1] == SLASH then s[2..]
    else AfterBlock(s[1..])
  }

  /**
   * How far minify_string copies behind an opening quote: through the first quote that does not
   * directly follow a backslash it has not skipped.
   */
  function QuotedRun(s: bytes): (n: nat)
    ensures n <= |s|
    ensures |s| > 0 ==> n > 0
  {
    if |s| == 0 then 0
    else if s[0] == QUOTE then 1
    else if s[0] == BACKSLASH && |s| > 1 && s[1] == QUOTE then 2 + QuotedRun(s[2..])
    else 1 + QuotedRun(s[1..])
  }

  predicate Removable(b: byte) {
    b == SPACE || b == TAB || b == RETURN || b == NEWLINE
  }

  function Minify(s: bytes): (t: bytes)
    ensures |t| <= |s|
    decreases |s|
  {
    if |s| == 0 then []
    else if Removable(s[0]) then Minify(s[1..])
    else if s[0] == SLASH then
      if |s| > 1 && s[1] == SLASH then Minify(AfterLine(s[2..]))
      else if |s| > 1 && s[1] == STAR then Minify(AfterBlock(s[2..]))
      else Minify(s[1..])
    else if s[0] == QUOTE then
      var n := QuotedRun(s[1..]);
      [QUOTE] + (s[1..][..n] + Minify(s[1..][n..]))
    else [s[0]] + Minify(s[1..])
  }

  lemma MinifyOfNothing(s: bytes)
    requires |s| == 0
    ensures Minify(s) == s == []
  {
  }

  lemma MinifyQuoted(inner: bytes)
    ensures Minify([QUOTE] + inner) == [QUOTE] + (inner[..QuotedRun(inner)] + Minify(inner[QuotedRun(inner)..]))
  {
    assert ([QUOTE] + inner)[1..] == inner;
  }

  // ----- idempotence -----

  lemma DropOfCut(s: bytes, n: nat, more: bytes, c: nat)
    requires c <= n <= |s|
    ensures (s[..n] + more)[c..] == s[c..][..n - c] + more
  {
  }

  /** Re-reading a copied string: it ends where it ended, unless it ran to the end of the text. */
  lemma {:induction false} RunAgain(s: bytes, more: bytes)
    requires QuotedRun(s) == |s| ==> |more| == 0 || (|s| > 0 && Ends(s))
    ensures QuotedRun(s[..QuotedRun(s)] + more) == QuotedRun(s)
    decreases |s|
  {
    hide QuotedRun, Ends;
    var n := QuotedRun(s);
    var t := s[..n] + more;
    if |s| == 0 {
      assert t == [];
    } else {
      RunStep(s);
      RunStep(t);
      if s[0] == QUOTE {
      } else if s[0] == BACKSLASH && |s| > 1 && s[1] == QUOTE {
        RunAgain(s[2..], more);
        DropOfCut(s, n, more, 2);
      } else {
        RunAgain(s[1..], more);
        if |s| > 1 {
          RunStep(s[1..]);
        }
        DropOfCut(s, n, more, 1);
      }
    }
  }

  /** The run of `s` is closed by a quote. */
  predicate Ends(s: bytes) {
    |s| > 0 &&
    if s[0] == QUOTE then true
    else if s[0] == BACKSLASH && |s| > 1 && s[1] == QUOTE then Ends(s[2..])
    else Ends(s[1..])
  }

  lemma RunStep(s: bytes)
    requires |s| > 0
    ensures s[0] == QUOTE ==> QuotedRun(s) == 1 && Ends(s)
    ensures |s| > 1 && s[0] == BACKSLASH && s[1] == QUOTE ==>
            QuotedRun(s) == 2 + QuotedRun(s[2..]) && Ends(s) == (|s| > 2 && Ends(s[2..]))
    ensures s[0] != QUOTE && !(|s| > 1 && s[0] == BACKSLASH && s[1] == QUOTE) ==>
              QuotedRun(s) == 1 + QuotedRun(s[1..]) && Ends(s) == (|s| > 1 && Ends(s[1..]))
  {
  }

  lemma {:induction false} UnendedRun(s: bytes)
    ensures !Ends(s) ==> QuotedRun(s) == |s|
    decreases |s|
  {
    if |s| == 0 || s[0] == QUOTE {
    } else if s[0] == BACKSLASH && |s| > 1 && s[1] == QUOTE {
      UnendedRun(s[2..]);
    } else {
      UnendedRun(s[1..]);
    }
  }

  /** Minifying twice changes nothing more, on any text. */
  lemma {:induction false} MinifyTwice(s: bytes)
    ensures Minify(Minify(s)) == Minify(s)
    decreases |s|
  {
    if |s| == 0 {
    } else if Removable(s[0]) {
      MinifyTwice(s[1..]);
    } else if s[0] == SLASH {
      if |s| > 1 && s[1] == SLASH {
        MinifyTwice(AfterLine(s[2..]));
      } else if |s| > 1 && s[1] == STAR {
        MinifyTwice(AfterBlock(s[2..]));
      } else {
        MinifyTwice(s[1..]);
      }
    } else if s[0] == QUOTE {
      MinifyStringTwice(s);
    } else {
      MinifyTwice(s[1..]);
      var t := Minify(s);
      assert t[1..] == Minify(s[1..]);
    }
  }

  lemma {:induction false} MinifyStringTwice(s: bytes)
    requires |s| > 0 && s[0] == QUOTE
    ensures Minify(Minify(s)) == Minify(s)
    decreases |s|, 0
  {
    var body := s[1..];
    var n := QuotedRun(body);
    var more := Minify(body[n..]);
    UnendedRun(body);
    if Ends(body) {
      MinifyTwice(body[n..]);
    } else {
      assert body[n..] == [];
    }
    RunAgain(body, more);
    var t := Minify(s);
    assert t[1..] == body[..n] + more;
    assert t[1..][..n] == body[..n] && t[1..][n..] == more;
  }

  // ----- minifying a tree's text -----

  /** The blanks Minify leaves: control bytes other than tab, newline and return. */
  function Squeeze(blanks: bytes): bytes {
    if |blanks| == 0 then []
    else if Removable(blanks[0]) then Squeeze(blanks[1..])
    else [blanks[0]] + Squeeze(blanks[1..])
  }

  function Strip(v: Cst): Cst
    decreases v
  {
    match v
    case List(pad, items) => List(Squeeze(pad), StripItems(items))
    case Table(pad, entries) => Table(Squeeze(pad), StripEntries(entries))
    case _ => v
  }

  function StripElement(e: Element): Element
    decreases e
  {
    Element(Squeeze(e.before), Strip(e.value), Squeeze(e.after))
  }

  function StripItems(items: seq<Element>): (r: seq<Element>)
    ensures |r| == |items|
    decreases items
  {
    if |items| == 0 then [] else [StripElement(items[0])] + StripItems(items[1..])
  }

  function StripEntry(e: Entry): Entry
    decreases e
  {
    Entry(Squeeze(e.before), e.name, Squeeze(e.between), StripElement(e.element))
  }

  function StripEntries(entries: seq<Entry>): (r: seq<Entry>)
    ensures |r| == |entries|
    decreases entries
  {
    if |entries| == 0 then [] else [StripEntry(entries[0])] + StripEntries(entries[1..])
  }

  /** The literal's last unit is an escaped backslash. */
  predicate EndsInEscapedBackslash(body: bytes) {
    |body| >= 2 &&
    if body[0] == BACKSLASH then (if |body| == 2 then body[1] == BACKSLASH else EndsInEscapedBackslash(body[2..]))
    else EndsInEscapedBackslash(body[1..])
  }

  predicate Clean(v: Cst)
    decreases v
  {
    match v
    case Literal(body) => !EndsInEscapedBackslash(body)
    case List(_, items) => CleanItems(items)
    case Table(_, entries) => CleanEntries(entries)
    case _ => true
  }

  predicate CleanItems(items: seq<Element>)
    decreases items
  {
    |items| == 0 || (Clean(items[0].value) && CleanItems(items[1..]))
  }

  predicate CleanEntry(e: Entry)
    decreases e
  {
    !EndsInEscapedBackslash(e.name) && Clean(e.element.value)
  }

  predicate CleanEntries(entries: seq<Entry>)
    decreases entries
  {
    |entries| == 0 || (CleanEntry(entries[0]) && CleanEntries(entries[1..]))
  }

  // ----- literals -----

  lemma RunOverPlain(b: byte, s: bytes)
    requires b != QUOTE && (b == BACKSLASH ==> |s| == 0 || s[0] != QUOTE)
    ensures QuotedRun([b] + s) == 1 + QuotedRun(s)
  {
    assert ([b] + s)[1..] == s;
  }

  lemma RunOverQuote(s: bytes)
    ensures QuotedRun([BACKSLASH, QUOTE] + s) == 2 + QuotedRun(s)
  {
    assert ([BACKSLASH, QUOTE] + s)[2..] == s;
  }

  /**
   * minify_string stops where the literal stops, unless the literal ends in an escaped
   * backslash: then it takes the closing quote for an escaped one and runs on.
   */
  lemma {:induction false} LiteralRun(body: bytes, rest: bytes)
    requires ScanLiteral(body + [QUOTE]) == Some(|body|)
    ensures QuotedRun(body + ([QUOTE] + rest)) ==
            |body| + 1 + if EndsInEscapedBackslash(body) then QuotedRun(rest) else 0
    decreases |body|
  {
    hide QuotedRun, ScanLiteral, EndsInEscapedBackslash;
    var end := [QUOTE] + rest;
    var s := body + end;
    EndStep(body);
    if |body| == 0 {
      RunStep(s);
      assert s == end;
    } else {
      ClosedStep(body);
      if body[0] != BACKSLASH {
        LiteralRun(body[1..], rest);
        RunOverPlain(body[0], body[1..] + end);
        assert s == [body[0]] + (body[1..] + end);
      } else {
        LiteralRun(body[2..], rest);
        if |body| == 2 && body[1] == BACKSLASH {
          LastBackslash(body, rest);
        } else {
          var t := body[2..] + end;
          if |body| > 2 {
            ClosedStep(body[2..]);
          }
          EscapeRun(body[1], t);
          assert s == [BACKSLASH, body[1]] + t;
        }
      }
    }
  }

  lemma EndStep(body: bytes)
    ensures |body| == 0 ==> !EndsInEscapedBackslash(body)
    ensures |body| > 0 && body[0] != BACKSLASH ==> EndsInEscapedBackslash(body) == EndsInEscapedBackslash(body[1..])
    ensures |body| >= 2 && body[0] == BACKSLASH ==>
              EndsInEscapedBackslash(body) ==
              if |body| == 2 then body[1] == BACKSLASH else EndsInEscapedBackslash(body[2..])
    ensures |body| == 2 ==> !EndsInEscapedBackslash(body[2..])
  {
  }

  /** The first unit of a closed body. */
  lemma ClosedStep(body: bytes)
    requires |body| > 0 && ScanLiteral(body + [QUOTE]) == Some(|body|)
    ensures body[0] != QUOTE
    ensures body[0] != BACKSLASH ==> ScanLiteral(body[1..] + [QUOTE]) == Some(|body| - 1)
    ensures body[0] == BACKSLASH ==> |body| >= 2 && ScanLiteral(body[2..] + [QUOTE]) == Some(|body| - 2)
  {
    hide ScanLiteral;
    ClosedTails(body);
    ClosedHead(body + [QUOTE]);
  }

  lemma ClosedHead(s: bytes)
    requires |s| >= 2 && ScanLiteral(s) == Some(|s| - 1)
    ensures s[0] != QUOTE
    ensures s[0] != BACKSLASH ==> ScanLiteral(s[1..]) == Some(|s| - 2)
    ensures s[0] == BACKSLASH ==> |s| >= 3 && ScanLiteral(s[2..]) == Some(|s| - 3)
  {
  }

  lemma ClosedTails(body: bytes)
    requires |body| > 0
    ensures var s := body + [QUOTE];
            s[0] == body[0] && s[1..] == body[1..] + [QUOTE] && (|body| >= 2 ==> s[2..] == body[2..] + [QUOTE])
  {
  }

  /** Past one escape, unless it is an escaped backslash in front of a quote. */
  lemma EscapeRun(x: byte, t: bytes)
    requires x == BACKSLASH ==> |t| > 0 && t[0] != QUOTE
    ensures QuotedRun([BACKSLASH, x] + t) == 2 + QuotedRun(t)
  {
    if x == QUOTE {
      RunOverQuote(t);
    } else {
      RunOverPlain(x, t);
      RunOverPlain(BACKSLASH, [x] + t);
      assert [BACKSLASH, x] + t == [BACKSLASH] + ([x] + t);
    }
  }

  lemma LastBackslash(body: bytes, rest: bytes)
    requires body == [BACKSLASH, BACKSLASH]
    ensures QuotedRun(body + ([QUOTE] + rest)) == 3 + QuotedRun(rest)
  {
    RunOverQuote(rest);
    var t := [BACKSLASH, QUOTE] + rest;
    RunOverPlain(BACKSLASH, t);
    assert body + ([QUOTE] + rest) == [BACKSLASH] + t;
  }
}
