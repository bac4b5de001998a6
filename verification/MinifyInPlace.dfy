/** cJSON_Minify as it runs: one array, a reading index and a writing index behind it. */
module MinifyInPlace {
  import opened Bytes
  import opened Minifier

  lemma NoNulIn(s: bytes, from: nat, end: nat)
    requires from <= end <= |s| && NulFree(s[from..end])
    ensures forall i :: from <= i < end ==> s[i] != NUL
  {
    forall i | from <= i < end ensures s[i] != NUL {
      assert s[from..end][i - from] == s[i];
    }
  }

  /** skip_oneline_comment: `input` is the first slash. */
  method SkipOnelineComment(json: array<byte>, input: nat, ghost end: nat) returns (next: nat)
    requires input + 2 <= end < json.Length && json[end] == NUL && NulFree(json[input..end])
    ensures input < next <= end
    ensures json[next..end] == AfterLine(json[input + 2..end])
  {
    next := input + 2;
    while json[next] != NUL
      invariant input + 2 <= next <= end
      invariant AfterLine(json[next..end]) == AfterLine(json[input + 2..end])
      decreases end - next
    {
      assert json[next..end][1..] == json[next + 1..end];
      if json[next] == NEWLINE {
        next := next + 1;
        return;
      }
      next := next + 1;
    }
    NoNulIn(json[..], input, end);
  }

  /** skip_multiline_comment: `input` is the opening slash. */
  method SkipMultilineComment(json: array<byte>, input: nat, ghost end: nat) returns (next: nat)
    requires input + 2 <= end < json.Length && json[end] == NUL && NulFree(json[input..end])
    ensures input < next <= end
    ensures json[next..end] == AfterBlock(json[input + 2..end])
  {
    next := input + 2;
    while json[next] != NUL
      invariant input + 2 <= next <= end
      invariant AfterBlock(json[next..end]) == AfterBlock(json[input + 2..end])
      decreases end - next
    {
      assert json[next..end][1..] == json[next + 1..end];
      if json[next] == STAR && json[next + 1] == SLASH {
        assert json[next..end][2..] == json[next + 2..end];
        next := next + 2;
        return;
      }
      next := next + 1;
    }
    NoNulIn(json[..], input, end);
  }

  /** QuotedRun, by index. */
  ghost function RunFrom(text: bytes, p: nat, end: nat): nat
    requires p <= end <= |text|
    decreases end - p
  {
    if p == end then 0
    else if text[p] == QUOTE then 1
    else if text[p] == BACKSLASH && p + 1 < end && text[p + 1] == QUOTE then 2 + RunFrom(text, p + 2, end)
    else 1 + RunFrom(text, p + 1, end)
  }

  lemma {:induction false} RunFromIsRun(text: bytes, p: nat, end: nat)
    requires p <= end <= |text|
    ensures RunFrom(text, p, end) == QuotedRun(text[p..end])
    decreases end - p
  {
    var s := text[p..end];
    if p < end {
      RunFromIsRun(text, p + 1, end);
      assert s[1..] == text[p + 1..end];
      if p + 1 < end {
        RunFromIsRun(text, p + 2, end);
        assert s[2..] == text[p + 2..end];
      }
    }
  }

  /**
   * `text[from..upto]` has been copied to `output`; what is in front of that and what is still
   * unread are as in `text`.
   */
  ghost predicate CopiedUpTo(now: bytes, text: bytes, from: nat, output: nat, upto: nat)
    requires output <= from <= upto <= |text| == |now|
  {
    now[..output + upto - from] == text[..output] + text[from..upto] && now[upto..] == text[upto..]
  }

  /**
   * minify_string: copies the string at `input` to `output` and returns both indices behind it.
   * The text from the new reading index on is untouched.
   */
  method MinifyString(json: array<byte>, input: nat, output: nat, ghost end: nat) returns (input': nat, output': nat)
    requires output <= input < end < json.Length && json[end] == NUL && NulFree(json[input..end])
    requires json[input] == QUOTE
    modifies json
    ensures input' == input + 1 + QuotedRun(old(json[input + 1..end])) <= end
    ensures output' - output == input' - input
    ensures CopiedUpTo(json[..], old(json[..]), input, output, input')
  {
    hide CopiedUpTo, RunFrom, QuotedRun;
    ghost var text := json[..];
    NoNulIn(text, input, end);
    RunFromIsRun(text, input + 1, end);
    NothingCopied(text, input, output);
    ghost var total := input + 1 + RunFrom(text, input + 1, end);
    CopyOne(json, input, output, text, input, output);
    ghost var behind := input - output;
    input', output' := input + 1, output + 1;
    var closed := false;
    while !closed && json[input'] != NUL
      invariant input < input' <= end && output' + behind == input'
      invariant if closed then input' == total
                else input' + RunFrom(text, input', end) == total && json[input'] == text[input']
      invariant CopiedUpTo(json[..], text, input, output, input')
      decreases end - input', !closed
    {
      RunStep(text, input', end);
      closed, input', output' := StringStep(json, input', output', text, input, output);
    }
    RunEnds(text, end);
  }

  /** One round of its loop: one byte, or an escaped quote, or the quote that closes the string. */
  method StringStep(json: array<byte>, i: nat, o: nat, ghost text: bytes, ghost from: nat, ghost output: nat)
    returns (closed: bool, i': nat, o': nat)
    requires output <= from <= i && i + 1 < json.Length == |text| && o == output + i - from
    requires CopiedUpTo(json[..], text, from, output, i) && json[i] == text[i]
    requires text[i] == BACKSLASH && text[i + 1] == QUOTE ==> i + 2 < json.Length
    modifies json
    ensures closed <==> text[i] == QUOTE
    ensures i' == i + (if text[i] == BACKSLASH && text[i + 1] == QUOTE then 2 else 1) && o' - o == i' - i
    ensures CopiedUpTo(json[..], text, from, output, i') && json[i'] == text[i']
  {
    hide CopiedUpTo;
    CopyOne(json, i, o, text, from, output);
    closed, i', o' := false, i, o;
    if json[i] == QUOTE {
      ghost var copied := json[..];
      json[o] := QUOTE;
      assert json[..] == copied;
      closed := true;
    } else if json[i] == BACKSLASH && json[i + 1] == QUOTE {
      CopyOne(json, i + 1, o + 1, text, from, output);
      i', o' := i + 1, o + 1;
    }
    i', o' := i' + 1, o' + 1;
  }

  lemma RunStep(text: bytes, p: nat, end: nat)
    requires p < end < |text| && text[end] == NUL
    ensures var left := RunFrom(text, p, end);
            if text[p] == QUOTE then left == 1
            else if text[p] == BACKSLASH && text[p + 1] == QUOTE then
              p + 2 <= end && left == 2 + RunFrom(text, p + 2, end)
            else left == 1 + RunFrom(text, p + 1, end)
  {
  }

  lemma RunEnds(text: bytes, end: nat)
    requires end <= |text|
    ensures RunFrom(text, end, end) == 0
  {
  }

  lemma NothingCopied(text: bytes, from: nat, output: nat)
    requires output <= from <= |text|
    ensures CopiedUpTo(text, text, from, output, from)
  {
  }

  /** (*output)[0] = (*input)[0], with the two pointers at `i` and `o`. */
  method CopyOne(json: array<byte>, i: nat, o: nat, ghost text: bytes, ghost from: nat, ghost output: nat)
    requires output <= from <= i < json.Length == |text| && o == output + i - from
    requires CopiedUpTo(json[..], text, from, output, i)
    modifies json
    ensures CopiedUpTo(json[..], text, from, output, i + 1)
    ensures json[o] == json[i] == text[i]
    ensures i + 1 < |text| ==> json[i + 1] == text[i + 1]
  {
    ghost var now := json[..];
    json[o] := json[i];
    ReadAhead(now, text, from, output, i);
    CopyByte(now, json[..], text, from, output, i);
  }

  lemma CopyByte(now: bytes, later: bytes, text: bytes, from: nat, output: nat, upto: nat)
    requires output <= from <= upto < |text| == |now| && CopiedUpTo(now, text, from, output, upto)
    requires later == now[output + upto - from := text[upto]]
    ensures CopiedUpTo(later, text, from, output, upto + 1)
    ensures later[output + upto - from] == text[upto] == later[upto]
    ensures upto + 1 < |text| ==> later[upto + 1] == text[upto + 1]
  {
    ReadAhead(now, text, from, output, upto);
    var p := output + upto - from;
    assert later[..p] == now[..p];
    assert later[..p + 1] == later[..p] + [text[upto]];
    assert text[from..upto + 1] == text[from..upto] + [text[upto]];
    assert later[upto + 1..] == now[upto..][1..];
    assert text[upto + 1..] == text[upto..][1..];
  }

  /** While copying, the byte to read next and the one behind it are still those of the text. */
  lemma ReadAhead(now: bytes, text: bytes, from: nat, output: nat, upto: nat)
    requires output <= from <= upto < |text| == |now| && CopiedUpTo(now, text, from, output, upto)
    ensures now[upto] == text[upto]
    ensures upto + 1 < |text| ==> now[upto + 1] == text[upto + 1]
  {
    assert now[upto] == now[upto..][0];
    assert upto + 1 < |text| ==> now[upto + 1] == now[upto..][1];
  }

  /**
   * cJSON_Minify. `end` is where the C string in `json` ends; the result replaces it in place,
   * and nothing behind the old terminator changes.
   */
  method MinifyText(json: array?<byte>, ghost end: nat)
    requires json != null ==> end < json.Length && json[end] == NUL && NulFree(json[..end])
    modifies json
    ensures json != null ==>
      var out := Minify(old(json[..end]));
      json[..|out|] == out && json[|out|] == NUL && forall i :: end < i < json.Length ==> json[i] == old(json[i])
  {
    if json == null {
      return;
    }
    hide Minify, QuotedRun, AfterLine, AfterBlock, CopiedUpTo;
    ghost var text := json[..];
    assert json[..end] == text[..end] == text[0..end];
    var input, into := 0, 0;
    NoPrefix(Minify(text[..end]));
    while json[input] != NUL
      invariant 0 <= into <= input <= end
      invariant json[..into] + Minify(text[input..end]) == Minify(text[..end])
      invariant Unread(json[..], text, input)
      decreases end - input
    {
      input, into := MinifyStep(json, input, into, text, end);
    }
    if input < end { Suffixes(json[..], text, input, end); }
    assert text[input..end] == [];
    MinifyOfNothing([]);
    json[into] := NUL;
  }

  /** One round of the loop. */
  method MinifyStep(json: array<byte>, input: nat, into: nat, ghost text: bytes, ghost end: nat)
      returns (input': nat, into': nat)
    requires into <= input < end < json.Length == |text| && text[end] == NUL && NulFree(text[..end])
    requires Unread(json[..], text, input)
    modifies json
    ensures input < input' <= end && into' <= input' && Unread(json[..], text, input')
    ensures json[..into'] + Minify(text[input'..end]) == old(json[..into]) + Minify(text[input..end])
  {
    hide Minify, QuotedRun, AfterLine, AfterBlock, CopiedUpTo;
    Suffixes(json[..], text, input, end);
    MinifyHead(text[input..end]);
    input', into' := input, into;
    if json[input] == SPACE || json[input] == TAB || json[input] == RETURN || json[input] == NEWLINE {
      input' := input + 1;
    } else if json[input] == SLASH {
      if json[input + 1] == SLASH {
        input' := SkipOnelineComment(json, input, end);
        Suffixes(json[..], text, input', end);
      } else if json[input + 1] == STAR {
        input' := SkipMultilineComment(json, input, end);
        Suffixes(json[..], text, input', end);
      } else {
        input' := input + 1;
      }
    } else if json[input] == QUOTE {
      ghost var before := json[..];
      input', into' := MinifyString(json, input, into, end);
      StringCopied(json[..], before, text, input, into, input', end);
    } else {
      ghost var before := json[..];
      json[into] := json[input];
      CharCopied(json[..], before, text, input, into, end);
      input', into' := input + 1, into + 1;
    }
  }

  /** What cJSON_Minify leaves out in front of the rest. */
  lemma MinifyHead(s: bytes)
    requires |s| > 0
    ensures Removable(s[0]) ==> Minify(s) == Minify(s[1..])
    ensures s[0] == SLASH ==>
              Minify(s) ==
                if |s| > 1 && s[1] == SLASH then Minify(AfterLine(s[2..]))
                else if |s| > 1 && s[1] == STAR then Minify(AfterBlock(s[2..]))
                else Minify(s[1..])
  {
  }

  /** Nothing from the reading index on has been written. */
  ghost predicate Unread(now: bytes, text: bytes, input: nat) {
    |now| == |text| && forall i :: input <= i < |text| ==> now[i] == text[i]
  }

  lemma Suffixes(now: bytes, text: bytes, input: nat, end: nat)
    requires Unread(now, text, input) && input <= end < |text| && NulFree(text[..end])
    ensures now[input..end] == text[input..end] && NulFree(now[input..end])
    ensures input < end ==> now[input] == text[input] == text[input..end][0] != NUL
    ensures input < end ==>
            now[input + 1] == text[input + 1] && text[input..end][1..] == text[input + 1..end] == now[input + 1..end]
    ensures input + 1 < end ==>
            text[input + 1] == text[input..end][1] &&
            text[input..end][2..] == text[input + 2..end] == now[input + 2..end]
  {
    forall i | input <= i < end ensures text[i] != NUL {
      assert text[..end][i] == text[i];
    }
  }

  lemma StringCopied(now: bytes, before: bytes, text: bytes, input: nat, into: nat, next: nat, end: nat)
    requires into <= input < end < |text| && text[input] == QUOTE && NulFree(text[..end])
    requires Unread(before, text, input) && next == input + 1 + QuotedRun(text[input + 1..end]) <= end
    requires |now| == |text| && CopiedUpTo(now, before, input, into, next)
    ensures Unread(now, text, next)
    ensures now[..into + next - input] + Minify(text[next..end]) == before[..into] + Minify(text[input..end])
  {
    hide Minify, QuotedRun;
    Suffixes(before, text, input, end);
    var body := text[input + 1..end];
    var n := QuotedRun(body);
    assert before[input..next] == [QUOTE] + body[..n];
    assert body[n..] == text[next..end];
    var more := Minify(text[next..end]);
    MinifyQuoted(body);
    assert text[input..end] == [QUOTE] + body;
    Nest(before[..into], [QUOTE] + body[..n], more);
    Nest([QUOTE], body[..n], more);
  }

  lemma CharCopied(now: bytes, before: bytes, text: bytes, input: nat, into: nat, end: nat)
    requires into <= input < end < |text| && NulFree(text[..end])
    requires !Removable(text[input]) && text[input] != SLASH && text[input] != QUOTE
    requires Unread(before, text, input) && now == before[into := text[input]]
    ensures Unread(now, text, input + 1)
    ensures now[..into + 1] + Minify(text[input + 1..end]) == before[..into] + Minify(text[input..end])
  {
    Suffixes(before, text, input, end);
    var more := Minify(text[input + 1..end]);
    assert now[..into + 1] == before[..into] + [text[input]];
    Nest(before[..into], [text[input]], more);
  }
}
