/** The printer as it runs: a growing buffer, an offset and a depth. */
module PrintBuffer {
  import opened Bytes
  import opened Values
  import opened Renderer
  import opened Memory
  import opened Rendered

  /**
   * How growing has gone: `growths` new buffers and `copied` bytes moved to reach `length`. Each
   * growth but a capped last one more than doubled the length.
   */
  ghost predicate GrowthBound(length: nat, growths: nat, copied: nat) {
    (growths == 0 && copied == 0) ||
    (Power2(growths) <= length && copied < length) ||
    (length == INT_MAX && growths > 0 && Power2(growths - 1) <= length && copied < 2 * length)
  }

  /** The new size ensure picks for a request that reaches up to `need`. */
  function GrownSize(need: nat): (size: nat)
    requires need <= INT_MAX
    ensures size == if 2 * need <= INT_MAX then 2 * need else INT_MAX
  {
    if need > INT_MAX / 2 then INT_MAX else need * 2
  }

  lemma GrowthStep(length: nat, need: nat, growths: nat, copied: nat, moved: nat)
    requires GrowthBound(length, growths, copied) && length < need <= INT_MAX && (moved <= length || moved == 1)
    ensures GrowthBound(GrownSize(need), growths + 1, copied + moved)
    ensures need <= INT_MAX / 2 ==> GrownSize(need) > 2 * length
  {
  }

  lemma {:induction false} Power2Monotonic(m: nat, n: nat)
    requires m <= n
    ensures Power2(m) <= Power2(n)
    decreases n
  {
    if m < n {
      Power2Monotonic(m, n - 1);
    }
  }

  lemma Power2Of31()
    ensures Power2(31) > INT_MAX
  {
    assert Power2(4) == 16;
    assert Power2(8) == 0x100;
    assert Power2(12) == 0x1000;
    assert Power2(16) == 0x1_0000;
    assert Power2(20) == 0x10_0000;
    assert Power2(24) == 0x100_0000;
    assert Power2(28) == 0x1000_0000;
    assert Power2(31) == 0x8000_0000;
  }

  /** At most 31 growths, moving fewer than twice the final length of bytes. */
  lemma GrowthIsAmortised(length: nat, growths: nat, copied: nat)
    requires GrowthBound(length, growths, copied) && length <= INT_MAX
    ensures growths <= 31 && (copied == 0 || copied < 2 * length)
  {
    Power2Of31();
    if growths > 31 {
      Power2Monotonic(31, growths - 1);
      Power2Monotonic(31, growths);
    }
  }

  class PrintBuffer {
    var buffer: array?<byte>
    /** The block of an owned buffer. */
    var address: Address
    var length: nat
    var offset: nat
    var depth: nat
    const noalloc: bool
    const format: bool
    const hooks: Hooks
    /** sprintf and strtod. */
    const k: Codec
    /** Everything printed so far; the offset may still be in front of its last piece. */
    ghost var text: bytes
    /** A NUL stands behind the text. */
    ghost var terminated: bool
    ghost var growths: nat
    ghost var copied: nat
    /** The live blocks other than an owned buffer. */
    ghost const others: set<Address>
    /** The caller's buffer, when there is one. */
    ghost const given: array<byte>
    /** The refusals the hooks had counted before. */
    ghost const refusedBefore: nat

    constructor (k: Codec, buffer: array<byte>, address: Address, length: nat, noalloc: bool, format: bool,
        hooks: Hooks)
      requires length <= buffer.Length && length <= INT_MAX
      requires !noalloc ==> address in hooks.live && length == buffer.Length
      ensures Valid() && Settled() && text == []
      ensures this.buffer == buffer && this.address == address && this.length == length && offset == 0 && depth == 0
      ensures this.noalloc == noalloc && this.format == format && this.hooks == hooks && this.k == k
      ensures others == (if noalloc then hooks.live else hooks.live - {address}) && given == buffer &&
              refusedBefore == hooks.refusals
    {
      this.buffer, this.address, this.length, this.offset, this.depth := buffer, address, length, 0, 0;
      this.noalloc, this.format, this.hooks, this.k := noalloc, format, hooks, k;
      text, terminated, growths, copied := [], false, 0, 0;
      others := if noalloc then hooks.live else hooks.live - {address};
      given := buffer;
      refusedBefore := hooks.refusals;
    }

    ghost predicate Valid()
      reads this`buffer, this`address, this`length, this`offset, this`text, this`terminated, this`growths, this`copied,
          hooks, buffer
    {
      length <= INT_MAX && refusedBefore <= hooks.refusals && Owned() && (buffer != null ==> Consistent())
    }

    ghost predicate Consistent()
      requires buffer != null
      reads this`buffer, this`length, this`offset, this`text, this`terminated, buffer
    {
      offset <= |text| <= length <= buffer.Length && buffer[..|text|] == text &&
      (terminated ==> |text| < length && buffer[|text|] == NUL)
    }

    /** The hooks know of the buffer, unless it is the caller's, and of nothing else the printer allocated. */
    ghost predicate Owned()
      reads this`buffer, this`address, this`length, this`growths, this`copied, hooks
    {
      if noalloc then hooks.live == others && buffer == given
      else if buffer == null then hooks.live == others
      else
        hooks.live == others + {address} && address !in others && length == buffer.Length &&
        GrowthBound(length, growths, copied)
    }

    /** In every state a printer reaches: at most 31 growths, and less than twice the length copied. */
    lemma GrowthSoFar()
      requires Valid() && !noalloc && buffer != null
      ensures growths <= 31 && (copied == 0 || copied < 2 * length) && length == buffer.Length <= INT_MAX
    {
      GrowthIsAmortised(length, growths, copied);
    }

    /** There is a buffer, and the offset is behind everything printed and inside the buffer. */
    ghost predicate Settled()
      reads this`buffer, this`length, this`offset, this`text
    {
      buffer != null && offset == |text| && (length > 0 ==> offset < length)
    }

    /**
     * `r` has been printed behind `start` as a C string; the offset is in front of the piece of
     * `r` that update_offset is still to pass.
     */
    ghost predicate Printed(start: bytes, r: bytes)
      reads this`buffer, this`offset, this`text, this`terminated
    {
      buffer != null && text == start + r && terminated && |start| <= offset
    }

    /** The size text and terminators may reach. */
    ghost function Limit(): nat
      reads this
    {
      if noalloc then length else INT_MAX
    }

    ghost predicate OutOfMemory()
      reads hooks
    {
      !noalloc && hooks.refusals > refusedBefore
    }

    /** What every printing step keeps. */
    ghost predicate Kept(lengthBefore: nat)
      reads this, hooks, buffer
    {
      Valid() && (noalloc ==> length == lengthBefore)
    }

    /**
     * A step succeeds exactly when what it prints can be printed and its text, ending at `end`,
     * fits with two bytes to spare; an owned buffer may also run out of memory.
     */
    ghost predicate Outcome(ok: bool, printable: bool, end: nat)
      reads this, hooks
    {
      if ok then printable && end + 2 <= Limit() else !printable || end + 2 > Limit() || OutOfMemory()
    }

    /** ensure: room for `needed` bytes and one more behind the offset. */
    method Ensure(needed: nat) returns (ok: bool)
      requires Valid() && Settled()
      modifies this`buffer, this`address, this`length, this`text, this`terminated, this`growths, this`copied, buffer,
          hooks
      ensures Kept(old(length)) && (buffer == null || buffer == old(buffer) || fresh(buffer))
      ensures if ok then offset + needed + 1 <= Limit() else offset + needed + 1 > Limit() || OutOfMemory()
      ensures ok ==> Settled() && text == old(text) && offset + needed + 1 <= length
      ensures ok ==> length == old(length) || length == GrownSize(offset + needed + 1)
      ensures noalloc ==> buffer == old(buffer)
    {
      if buffer == null {
        return false;
      }
      if length > 0 && offset >= length {
        return false;
      }
      if needed > INT_MAX {
        return false;
      }
      var need := needed + offset + 1;
      if need <= length {
        return true;
      }
      if noalloc {
        return false;
      }
      if need > INT_MAX {
        return false;
      }
      ok := Grow(need);
    }

    /** The rest of ensure: a larger buffer for text that will reach up to `need`. */
    method Grow(need: nat) returns (ok: bool)
      requires Valid() && Settled() && !noalloc && length < need <= INT_MAX && offset < need
      modifies this`buffer, this`address, this`length, this`text, this`terminated, this`growths, this`copied, buffer,
          hooks
      ensures Valid()
      ensures ok ==> Settled() && text == old(text) && length == GrownSize(need) && fresh(buffer)
      ensures !ok ==> OutOfMemory() && buffer == null
    {
      hide GrowthBound;
      var newsize := need * 2;
      if need > INT_MAX / 2 {
        newsize := INT_MAX;
      }
      var block, moved;
      if hooks.canReallocate {
        moved := length;
        block := hooks.Reallocate(address);
      } else {
        moved := offset + 1;
        block := hooks.Allocate();
      }
      if block == None {
        hooks.Deallocate(address);
        length := 0;
        buffer := null;
        return false;
      }
      var newbuffer := Copied(newsize, moved);
      GrowthStep(length, need, growths, copied, moved);
      if !hooks.canReallocate {
        hooks.Deallocate(address);
      }
      growths, copied := growths + 1, copied + moved;
      Install(newbuffer, block.value);
      ok := true;
    }

    /** The new buffer takes the place of the old one, whose block is free. */
    method Install(newbuffer: array<byte>, block: Address)
      requires !noalloc && offset == |text| < newbuffer.Length <= INT_MAX
      requires newbuffer[..offset] == text && refusedBefore <= hooks.refusals && hooks.live == others + {block} &&
               block !in others
      requires GrowthBound(newbuffer.Length, growths, copied)
      modifies this`buffer, this`address, this`length, this`terminated
      ensures Valid() && Settled() && buffer == newbuffer && length == newbuffer.Length
    {
      terminated := false;
      length, buffer, address := newbuffer.Length, newbuffer, block;
    }

    /**
     * A new buffer that starts with the first `moved` bytes of this one. Of an empty buffer the code
     * reads one byte as well; what it finds may be anything.
     */
    method Copied(size: nat, moved: nat) returns (newbuffer: array<byte>)
      requires buffer != null && offset <= moved <= size &&
               (moved <= buffer.Length || (moved == 1 && buffer.Length == 0))
      ensures fresh(newbuffer) && newbuffer.Length == size
      ensures moved <= buffer.Length ==> newbuffer[..moved] == buffer[..moved]
    {
      newbuffer := new byte[size];
      forall i | 0 <= i < moved && i < buffer.Length {
        newbuffer[i] := buffer[i];
      }
    }

    /** strlen of what stands at the offset. */
    method StringLength(ghost start: bytes, ghost r: bytes) returns (n: nat)
      requires Valid() && Printed(start, r) && NulFree(r)
      ensures offset + n == |text|
    {
      forall j | offset <= j < |text| ensures buffer[j] != NUL {
        assert buffer[..|text|][j] == r[j - |start|];
      }
      n := 0;
      while buffer[offset + n] != NUL
        invariant offset + n <= |text|
        decreases |text| - offset - n
      {
        n := n + 1;
      }
    }

    /** update_offset, when `r` has been printed behind `start`. */
    method UpdateOffset(ghost start: bytes, ghost r: bytes)
      requires Valid() && Printed(start, r) && NulFree(r)
      modifies this`offset
      ensures Valid() && Settled()
    {
      var n := StringLength(start, r);
      offset := offset + n;
    }

    // ----- writing behind the offset -----

    /** strcpy of `t` to the offset. */
    method CopyString(t: bytes)
      requires Valid() && Settled() && offset + |t| < length
      modifies buffer, this`text, this`terminated
      ensures Valid() && Printed(old(text), t)
    {
      forall i | offset <= i < offset + |t| {
        buffer[i] := t[i - offset];
      }
      buffer[offset + |t|] := NUL;
      assert buffer[..offset + |t|] == text + t;
      text, terminated := text + t, true;
    }

    /** The bytes `t` at the offset, which moves behind them. */
    method Append(t: bytes)
      requires Valid() && Settled() && offset + |t| < length
      modifies this`offset, buffer, this`text, this`terminated
      ensures Valid() && Settled() && text == old(text) + t
    {
      forall i | offset <= i < offset + |t| {
        buffer[i] := t[i - offset];
      }
      assert buffer[..offset + |t|] == text + t;
      offset := offset + |t|;
      text, terminated := text + t, false;
    }

    // ----- print_string_ptr -----

    /** One byte of a string at position `at`, escaped as it must be. */
    method PutEscaped(at: nat, b: byte) returns (next: nat)
      requires buffer != null && at + |EscapeByte(b)| <= buffer.Length
      modifies buffer
      ensures next == at + |EscapeByte(b)|
      ensures buffer[..next] == old(buffer[..at]) + EscapeByte(b)
    {
      if b > 31 && b != QUOTE && b != BACKSLASH {
        buffer[at] := b;
        return at + 1;
      }
      buffer[at] := BACKSLASH;
      next := at + 1;
      if b < 32 && b !in {BACKSPACE, FORM_FEED, NEWLINE, RETURN, TAB} {
        PutUnicode(next, b);
        return next + 5;
      }
      if b == BACKSLASH {
        buffer[next] := BACKSLASH;
      } else if b == QUOTE {
        buffer[next] := QUOTE;
      } else if b == BACKSPACE {
        buffer[next] := LOWER_B;
      } else if b == FORM_FEED {
        buffer[next] := LOWER_F;
      } else if b == NEWLINE {
        buffer[next] := LOWER_N;
      } else if b == RETURN {
        buffer[next] := LOWER_R;
      } else {
        buffer[next] := LOWER_T;
      }
      next := next + 1;
    }

    /** sprintf of u%04x. */
    method PutUnicode(at: nat, b: byte)
      requires buffer != null && at + 5 <= buffer.Length
      modifies buffer
      ensures buffer[..at + 5] == old(buffer[..at]) + [LOWER_U, 0x30, 0x30, HexChar(b / 16), HexChar(b % 16)]
    {
      buffer[at], buffer[at + 1], buffer[at + 2] := LOWER_U, 0x30, 0x30;
      buffer[at + 3], buffer[at + 4] := HexChar(b / 16), HexChar(b % 16);
    }

    /** The first loop of print_string_ptr: how many bytes escaping adds. */
    static method CountEscapes(text: bytes) returns (escapes: nat)
      ensures |text| + escapes == |Escape(text)|
    {
      escapes := 0;
      for i := 0 to |text|
        invariant i + escapes == |Escape(text[..i])|
      {
        EscapeNext(text, i);
        var c := text[i];
        if c == QUOTE || c == BACKSLASH || c == BACKSPACE || c == FORM_FEED || c == NEWLINE || c == RETURN || c == TAB {
          escapes := escapes + 1;
        } else if c < 32 {
          escapes := escapes + 5;
        }
      }
      assert text[..|text|] == text;
    }

    /** print_string_ptr; the bytes behind the offset are the escaped string in quotes. */
    method PrintStringPtr(input: Option<bytes>) returns (ok: bool)
      requires Valid() && Settled()
      modifies this`buffer, this`address, this`length, this`text, this`terminated, this`growths, this`copied, buffer,
          hooks
      ensures Kept(old(length)) && (buffer == null || buffer == old(buffer) || fresh(buffer))
      ensures Outcome(ok, true, offset + |RenderString(input)|)
      ensures ok ==> Printed(old(text), RenderString(input))
    {
      if input == None {
        ok := Ensure(3);
        if ok {
          CopyString([QUOTE, QUOTE]);
        }
        return;
      }
      var str := input.value;
      var escapes := CountEscapes(str);
      ok := Ensure(|str| + escapes + 3);
      if !ok {
        return;
      }
      EscapeLength(str);
      if escapes == 0 {
        CopyString([QUOTE] + (str + [QUOTE]));
      } else {
        PutEscapedString(str);
      }
    }

    /** The copying loop of print_string_ptr. */
    method PutEscapedString(input: bytes)
      requires Valid() && Settled() && offset + |Escape(input)| + 3 <= length
      modifies buffer, this`text, this`terminated
      ensures Valid() && Printed(old(text), [QUOTE] + (Escape(input) + [QUOTE]))
    {
      hide EscapeByte, Owned;
      buffer[offset] := QUOTE;
      var at, i := offset + 1, 0;
      ghost var quoted := text + [QUOTE];
      assert buffer[..at] == quoted + Escape(input[..0]);
      while i < |input|
        invariant i <= |input| && at == |quoted| + |Escape(input[..i])| && text == old(text)
        invariant |Escape(input[..i])| <= |Escape(input)|
        invariant buffer[..at] == quoted + Escape(input[..i])
      {
        EscapeNext(input, i);
        at := PutEscaped(at, input[i]);
        i := i + 1;
      }
      assert input[..i] == input;
      buffer[at], buffer[at + 1] := QUOTE, NUL;
      assert buffer[..at + 1] == (quoted + Escape(input)) + [QUOTE];
      Bracketed(text, [QUOTE], Escape(input), [QUOTE]);
      text, terminated := text + ([QUOTE] + (Escape(input) + [QUOTE])), true;
    }

    // ----- values -----

    /** print_number; the offset ends up behind the number. */
    method PrintNumber(d: Double) returns (ok: bool)
      requires Valid() && Settled() && PrintsNumbers(k)
      modifies this`buffer, this`address, this`length, this`offset, this`text, this`terminated, this`growths,
          this`copied, buffer, hooks
      ensures Kept(old(length)) && (buffer == null || buffer == old(buffer) || fresh(buffer))
      ensures Outcome(ok, true, old(offset) + |NumberRendering(k, d)|)
      ensures ok ==> Printed(old(text), NumberRendering(k, d))
    {
      var number := if d.Finite? then k.format(d) else NULL_TEXT;
      if |number| > 25 {
        return false;
      }
      ok := Ensure(|number| + 1);
      if ok {
        CopyString(number);
        offset := offset + |number|;
      }
    }

    /** ensure for a word and its terminator, and strcpy. */
    method PrintWord(word: bytes) returns (ok: bool)
      requires Valid() && Settled()
      modifies this`buffer, this`address, this`length, this`text, this`terminated, this`growths, this`copied, buffer,
          hooks
      ensures Kept(old(length)) && (buffer == null || buffer == old(buffer) || fresh(buffer))
      ensures Outcome(ok, true, offset + |word|)
      ensures ok ==> Printed(old(text), word)
    {
      ok := Ensure(|word| + 1);
      if ok {
        CopyString(word);
      }
    }

    /** ensure for `needed` bytes, and characters written through output_pointer that offset moves over. */
    method PrintChars(needed: nat, chars: bytes) returns (ok: bool)
      requires Valid() && Settled() && |chars| <= needed
      modifies this`buffer, this`address, this`length, this`offset, this`text, this`terminated, this`growths,
          this`copied, buffer, hooks
      ensures Kept(old(length)) && (buffer == null || buffer == old(buffer) || fresh(buffer))
      ensures ok ==> Settled() && text == old(text) + chars
      ensures !ok ==> old(offset) + needed + 1 > Limit() || OutOfMemory()
    {
      ok := Ensure(needed);
      if ok {
        Append(chars);
      }
    }

    /** print_value: the rendering of the item goes behind the offset, or there is no room for it. */
    method PrintValue(item: Json) returns (ok: bool)
      requires Valid() && Settled() && PrintsNumbers(k) && NoNul(item)
      modifies this`buffer, this`address, this`length, this`offset, this`depth, this`text, this`terminated,
          this`growths, this`copied, buffer, hooks
      ensures Kept(old(length)) && (buffer == null || buffer == old(buffer) || fresh(buffer))
      ensures Outcome(ok, Printable(item), old(offset) + |Render(k, item, format, old(depth))|)
      ensures ok ==> depth == old(depth) && Printed(old(text), Render(k, item, format, old(depth)))
      decreases item, 1
    {
      hide Valid, RenderItems, RenderMembers, RenderString, RenderObject, PrintableItems, PrintableMembers, NoNulItems,
          NoNulMembers;
      hide Outcome, Printed, Kept, PrintsNumbers, Render, Printable;
      RenderingOf(k, item, format, depth);
      match item {
        case Number(d) => ok := PrintNumber(d);
        case String(text) => ok := PrintStringPtr(text);
        case Array(items) => ok := PrintArray(items);
        case Object(members) => ok := PrintObject(members);
        case _ => ok := PrintVerbatim(item);
      }
    }

    /** The cases of print_value that copy a text or refuse the item. */
    method PrintVerbatim(item: Json) returns (ok: bool)
      requires Valid() && Settled() && !item.Number? && !item.String? && !item.Array? && !item.Object?
      modifies this`buffer, this`address, this`length, this`text, this`terminated, this`growths, this`copied, buffer,
          hooks
      ensures Kept(old(length)) && (buffer == null || buffer == old(buffer) || fresh(buffer))
      ensures Outcome(ok, Printable(item), offset + |Render(k, item, format, depth)|)
      ensures ok ==> Printed(old(text), Render(k, item, format, depth))
    {
      hide Valid, RenderItems, RenderMembers, RenderString, RenderObject, PrintableItems, PrintableMembers;
      hide Outcome, Printed, Kept;
      match item {
        case Null => ok := PrintWord(NULL_TEXT);
        case False => ok := PrintWord(FALSE_TEXT);
        case True => ok := PrintWord(TRUE_TEXT);
        case Raw(text) =>
          if text == None {
            ok := false;
            Unprintable(offset);
          } else {
            ok := PrintWord(text.value);
          }
        case Invalid =>
          ok := false;
          Unprintable(offset);
      }
    }

    lemma Unprintable(end: nat)
      requires Valid()
      ensures Outcome(false, false, end) && Kept(length)
    {
    }

    method PrintArray(items: seq<Json>) returns (ok: bool)
      requires Valid() && Settled() && PrintsNumbers(k) && NoNulItems(items)
      modifies this`buffer, this`address, this`length, this`offset, this`depth, this`text, this`terminated,
          this`growths, this`copied, buffer, hooks
      ensures Kept(old(length)) && (buffer == null || buffer == old(buffer) || fresh(buffer))
      ensures Outcome(ok, PrintableItems(items), old(offset) + 2 + |RenderItems(k, items, format, old(depth) + 1)|)
      ensures ok ==>
              depth == old(depth) &&
              Printed(old(text), [LBRACKET] + (RenderItems(k, items, format, old(depth) + 1) + [RBRACKET]))
      decreases items, 3
    {
      hide PrintsNumbers, Valid, RenderItems, PrintableItems, NoNulItems;
      Bracketed(text, [LBRACKET], RenderItems(k, items, format, depth + 1), [RBRACKET]);
      ok := PrintChars(1, [LBRACKET]);
      if ok {
        ok := PrintElements(items);
      }
    }

    /** print_array behind the opening bracket. */
    method PrintElements(items: seq<Json>) returns (ok: bool)
      requires Valid() && Settled() && PrintsNumbers(k) && NoNulItems(items)
      modifies this`buffer, this`address, this`length, this`offset, this`depth, this`text, this`terminated,
          this`growths, this`copied, buffer, hooks
      ensures Kept(old(length)) && (buffer == null || buffer == old(buffer) || fresh(buffer))
      ensures Outcome(ok, PrintableItems(items), old(offset) + |RenderItems(k, items, format, old(depth) + 1)| + 1)
      ensures ok ==>
              depth == old(depth) &&
              Printed(old(text), RenderItems(k, items, format, old(depth) + 1) + [RBRACKET])
      decreases items, 2
    {
      hide PrintsNumbers, Valid, RenderItems, PrintableItems, NoNulItems;
      Nest(text, RenderItems(k, items, format, depth + 1), [RBRACKET]);
      depth := depth + 1;
      ok := PrintItems(items);
      if ok {
        ok := PrintWord([RBRACKET]);
        if ok {
          depth := depth - 1;
        }
      }
    }

    /** The loop of print_array. */
    method PrintItems(items: seq<Json>) returns (ok: bool)
      requires Valid() && Settled() && PrintsNumbers(k) && NoNulItems(items)
      modifies this`depth, this`buffer, this`address, this`length, this`offset, this`text, this`terminated,
          this`growths, this`copied, buffer, hooks
      ensures Kept(old(length)) && (buffer == null || buffer == old(buffer) || fresh(buffer))
      ensures !ok ==> Outcome(ok, PrintableItems(items), old(offset) + |RenderItems(k, items, format, old(depth))|)
      ensures ok ==>
              PrintableItems(items) && Settled() && depth == old(depth) &&
              text == old(text) + RenderItems(k, items, format, old(depth))
      decreases items, 1
    {
      hide PrintsNumbers, Valid, RenderItems, PrintableItems, NoNulItems;
      ghost var goal := text + RenderItems(k, items, format, depth);
      var i := 0;
      ok := true;
      assert items[0..] == items;
      while i < |items| && ok
        invariant i <= |items| && NoNulItems(items[i..])
        invariant Kept(old(length)) && (buffer == null || buffer == old(buffer) || fresh(buffer))
        invariant ok ==> Settled() && depth == old(depth) && text + RenderItems(k, items[i..], format, depth) == goal
        invariant ok ==> (PrintableItems(items) <==> PrintableItems(items[i..]))
        invariant !ok ==> Outcome(false, PrintableItems(items), |goal|)
        decreases |items| - i
      {
        assert items[i..][1..] == items[i + 1..];
        ok := PrintItem(items[i..]);
        i := i + 1;
      }
      assert items[|items|..] == [];
      NoItemsLeft(k, format, depth);
      assert ok ==> text + [] == text;
    }

    /** The body of that loop, on the first of the items that are left. */
    method PrintItem(left: seq<Json>) returns (ok: bool)
      requires Valid() && Settled() && PrintsNumbers(k) && NoNulItems(left) && |left| > 0
      modifies this`depth, this`buffer, this`address, this`length, this`offset, this`text, this`terminated,
          this`growths, this`copied, buffer, hooks
      ensures Kept(old(length)) && (buffer == null || buffer == old(buffer) || fresh(buffer))
      ensures NoNulItems(left[1..])
      ensures !ok ==> Outcome(false, PrintableItems(left), old(offset) + |RenderItems(k, left, format, old(depth))|)
      ensures ok ==> Settled() && depth == old(depth)
      ensures ok ==> text + RenderItems(k, left[1..], format, depth) == old(text) + RenderItems(k, left, format, depth)
      ensures ok ==> (PrintableItems(left) <==> PrintableItems(left[1..]))
      decreases left, 0
    {
      hide PrintsNumbers, Valid, RenderItems, Render, PrintableItems, Printable, NoNulItems, NoNul;
      ItemsUnfold(k, left, format, depth);
      RenderNulFree(k, left[0], format, depth);
      ghost var start, r, more := text, Render(k, left[0], format, depth), RenderItems(k, left[1..], format, depth);
      ok := PrintValue(left[0]);
      if ok {
        UpdateOffset(start, r);
        if |left| > 1 {
          var n := if format then 2 else 1;
          ok := PrintChars(n + 1, [COMMA] + Gap(format, SPACE));
          Chained(start, r, [COMMA], Gap(format, SPACE), more);
        } else {
          assert (start + r) + more == start + (r + more);
        }
      }
    }

    /** print_object. */
    method PrintObject(members: seq<Member>) returns (ok: bool)
      requires Valid() && Settled() && PrintsNumbers(k) && NoNulMembers(members)
      modifies this`depth, this`buffer, this`address, this`length, this`offset, this`text, this`terminated,
          this`growths, this`copied, buffer, hooks
      ensures Kept(old(length)) && (buffer == null || buffer == old(buffer) || fresh(buffer))
      ensures Outcome(ok, PrintableMembers(members), old(offset) + |RenderObject(k, members, format, old(depth))|)
      ensures ok ==> depth == old(depth) && Printed(old(text), RenderObject(k, members, format, old(depth)))
      decreases members, 3
    {
      hide PrintsNumbers, Valid, RenderObject, RenderMembers, PrintableMembers, NoNulMembers, Newline, Indent;
      ghost var start := text;
      ObjectParts(k, start, members, format, depth);
      var n := if format then 2 else 1;
      ok := PrintChars(n + 1, [LBRACE] + Newline(format));
      if ok {
        ok := PrintInside(members);
      }
    }

    /** print_object behind the opening brace. */
    method PrintInside(members: seq<Member>) returns (ok: bool)
      requires Valid() && Settled() && PrintsNumbers(k) && NoNulMembers(members)
      modifies this`depth, this`buffer, this`address, this`length, this`offset, this`text, this`terminated,
          this`growths, this`copied, buffer, hooks
      ensures Kept(old(length)) && (buffer == null || buffer == old(buffer) || fresh(buffer))
      ensures Outcome(ok, PrintableMembers(members),
              old(offset) + |RenderMembers(k, members, format, old(depth) + 1)| + |Indent(format, old(depth))| + 1)
      ensures ok ==> depth == old(depth)
      ensures ok ==> Printed(old(text),
              RenderMembers(k, members, format, depth + 1) + (Indent(format, depth) + [RBRACE]))
      decreases members, 2
    {
      hide PrintsNumbers, Valid, RenderMembers, PrintableMembers, NoNulMembers, Indent;
      ghost var start := text;
      Nest(start, RenderMembers(k, members, format, depth + 1), Indent(format, depth) + [RBRACE]);
      depth := depth + 1;
      ok := PrintMembers(members);
      if ok {
        ok := CloseObject(text);
        if ok {
          depth := depth - 1;
        }
      }
    }

    /** The end of print_object: the closing brace on its own line. */
    method CloseObject(ghost start: bytes) returns (ok: bool)
      requires Valid() && Settled() && text == start && depth > 0
      modifies this`buffer, this`address, this`length, this`text, this`terminated, this`growths, this`copied, buffer,
          hooks
      ensures Kept(old(length)) && (buffer == null || buffer == old(buffer) || fresh(buffer))
      ensures Outcome(ok, true, offset + |Indent(format, depth - 1)| + 1)
      ensures ok ==> Printed(start, Indent(format, depth - 1) + [RBRACE])
    {
      ok := Ensure(if format then depth + 1 else 2);
      if ok {
        CopyString(Indent(format, depth - 1) + [RBRACE]);
      }
    }

    /** The loop of print_object. */
    method PrintMembers(members: seq<Member>) returns (ok: bool)
      requires Valid() && Settled() && PrintsNumbers(k) && NoNulMembers(members) && depth > 0
      modifies this`depth, this`buffer, this`address, this`length, this`offset, this`text, this`terminated,
          this`growths, this`copied, buffer, hooks
      ensures Kept(old(length)) && (buffer == null || buffer == old(buffer) || fresh(buffer))
      ensures !ok ==>
              Outcome(ok, PrintableMembers(members), old(offset) + |RenderMembers(k, members, format, old(depth))|)
      ensures ok ==>
              PrintableMembers(members) && Settled() && depth == old(depth) &&
              text == old(text) + RenderMembers(k, members, format, old(depth))
      decreases members, 1
    {
      hide PrintsNumbers, Valid, RenderMembers, PrintableMembers, NoNulMembers;
      ghost var goal := text + RenderMembers(k, members, format, depth);
      var i := 0;
      ok := true;
      assert members[0..] == members;
      while i < |members| && ok
        invariant i <= |members| && NoNulMembers(members[i..])
        invariant Kept(old(length)) && (buffer == null || buffer == old(buffer) || fresh(buffer))
        invariant ok ==>
                  Settled() && depth == old(depth) && text + RenderMembers(k, members[i..], format, depth) == goal
        invariant ok ==> (PrintableMembers(members) <==> PrintableMembers(members[i..]))
        invariant !ok ==> Outcome(false, PrintableMembers(members), |goal|)
        decreases |members| - i
      {
        assert members[i..][1..] == members[i + 1..];
        ok := PrintMemberAndEnd(members[i..]);
        i := i + 1;
      }
      assert members[|members|..] == [];
      NoMembersLeft(k, format, depth);
      assert ok ==> text + [] == text;
    }

    /** The body of that loop, on the first of the members that are left. */
    method PrintMemberAndEnd(left: seq<Member>) returns (ok: bool)
      requires Valid() && Settled() && PrintsNumbers(k) && NoNulMembers(left) && |left| > 0 && depth > 0
      modifies this`depth, this`buffer, this`address, this`length, this`offset, this`text, this`terminated,
          this`growths, this`copied, buffer, hooks
      ensures Kept(old(length)) && (buffer == null || buffer == old(buffer) || fresh(buffer))
      ensures NoNulMembers(left[1..])
      ensures !ok ==> Outcome(false, PrintableMembers(left), old(offset) + |RenderMembers(k, left, format, old(depth))|)
      ensures ok ==> Settled() && depth == old(depth)
      ensures ok ==>
              text + RenderMembers(k, left[1..], format, depth) ==
              old(text) + RenderMembers(k, left, format, depth)
      ensures ok ==> (PrintableMembers(left) <==> PrintableMembers(left[1..]))
      decreases left, 0
    {
      hide PrintsNumbers, Valid, RenderMembers, RenderMember, PrintableMembers, PrintableMember, NoNulMembers,
          NoNulMember;
      MembersUnfold(k, left, format, depth);
      ghost var start, r, more := text, RenderMember(k, left[0], format, depth),
          RenderMembers(k, left[1..], format, depth);
      ok := PrintMember(left[0]);
      if ok {
        var n := (if format then 1 else 0) + (if |left| > 1 then 1 else 0);
        ok := PrintChars(n + 1, Comma(|left| == 1) + Newline(format));
        Chained(start, r, Comma(|left| == 1), Newline(format), more);
      }
    }

    /** Indentation, key and value of one member; all of it is passed by the offset. */
    method PrintMember(m: Member) returns (ok: bool)
      requires Valid() && Settled() && PrintsNumbers(k) && NoNulMember(m) && depth > 0
      modifies this`depth, this`buffer, this`address, this`length, this`offset, this`text, this`terminated,
          this`growths, this`copied, buffer, hooks
      ensures Kept(old(length)) && (buffer == null || buffer == old(buffer) || fresh(buffer))
      ensures !ok ==> Outcome(false, PrintableMember(m), old(offset) + |RenderMember(k, m, format, old(depth))|)
      ensures ok ==>
              PrintableMember(m) && Settled() && depth == old(depth) &&
              text == old(text) + RenderMember(k, m, format, depth)
      decreases m
    {
      hide PrintsNumbers, Valid, Render, RenderString, Printable, NoNul, Indent, Gap;
      ghost var start, value := text, Render(k, m.value, format, depth);
      MemberParts(start, Indent(format, depth), RenderString(m.key), Gap(format, TAB), value);
      assert |RenderMember(k, m, format, depth)| ==
        |Indent(format, depth)| + |RenderString(m.key)| + 1 + |Gap(format, TAB)| + |value|;
      RenderNulFree(k, m.value, format, depth);
      ok := PrintKey(m.key);
      if ok {
        ghost var middle := text;
        ok := PrintValue(m.value);
        if ok {
          UpdateOffset(middle, value);
        }
      }
    }

    /** The part of a member in front of its value. */
    method PrintKey(key: Option<bytes>) returns (ok: bool)
      requires Valid() && Settled() && depth > 0
      modifies this`buffer, this`address, this`length, this`offset, this`text, this`terminated, this`growths,
          this`copied, buffer, hooks
      ensures Kept(old(length)) && (buffer == null || buffer == old(buffer) || fresh(buffer))
      ensures var end := old(offset) + |Indent(format, depth)| + |RenderString(key)| + 1 + |Gap(format, TAB)|;
              !ok ==> Outcome(false, true, end)
      ensures ok ==>
              Settled() &&
              text == ((old(text) + Indent(format, depth)) + RenderString(key)) + ([COLON] + Gap(format, TAB))
    {
      hide Valid, RenderString;
      ok := true;
      if format {
        ok := PrintChars(depth, Tabs(depth));
      } else {
        assert text + [] == text;
      }
      if ok {
        ghost var before := text;
        ok := PrintStringPtr(key);
        if ok {
          StringNulFree(key);
          UpdateOffset(before, RenderString(key));
          ok := PrintChars(if format then 2 else 1, [COLON] + Gap(format, TAB));
        }
      }
    }
  }

  lemma NoItemsLeft(k: Codec, format: bool, depth: nat)
    ensures RenderItems(k, [], format, depth) == [] && PrintableItems([])
  {
  }

  lemma NoMembersLeft(k: Codec, format: bool, depth: nat)
    ensures RenderMembers(k, [], format, depth) == [] && PrintableMembers([])
  {
  }

  // ----- concatenation in the order of printing -----

  lemma Chained(start: bytes, r: bytes, a: bytes, b: bytes, more: bytes)
    ensures ((start + r) + (a + b)) + more == start + (r + (a + (b + more)))
  {
  }

  lemma ObjectParts(k: Codec, start: bytes, members: seq<Member>, format: bool, depth: nat)
    ensures var newline, body, indent := Newline(format), RenderMembers(k, members, format, depth + 1),
            Indent(format, depth);
            var r := RenderObject(k, members, format, depth);
            ((start + ([LBRACE] + newline)) + body) + (indent + [RBRACE]) == start + r &&
            |r| == 2 + |newline| + |body| + |indent| && |newline| == if format then 1 else 0
  {
    hide RenderMembers, Indent;
    Nested(start, [LBRACE], Newline(format), RenderMembers(k, members, format, depth + 1),
      Indent(format, depth) + [RBRACE]);
  }

  lemma Nested(start: bytes, a: bytes, b: bytes, c: bytes, d: bytes)
    ensures ((start + (a + b)) + c) + d == start + (a + (b + (c + d)))
  {
  }

  lemma MemberParts(start: bytes, indent: bytes, key: bytes, gap: bytes, value: bytes)
    ensures (((start + indent) + key) + ([COLON] + gap)) + value == start + (indent + (key + ([COLON] + (gap + value))))
  {
  }

  lemma Bracketed(start: bytes, a: bytes, b: bytes, c: bytes)
    ensures ((start + a) + b) + c == start + (a + (b + c))
  {
  }

  /** The rendering of a number, string, array or object. */
  lemma RenderingOf(k: Codec, item: Json, format: bool, depth: nat)
    ensures item.Number? ==> Render(k, item, format, depth) == NumberRendering(k, item.number) && Printable(item)
    ensures item.String? ==> Render(k, item, format, depth) == RenderString(item.text) && Printable(item)
    ensures item.Array? ==>
              Render(k, item, format, depth) ==
              [LBRACKET] + (RenderItems(k, item.items, format, depth + 1) + [RBRACKET]) &&
              |Render(k, item, format, depth)| == 2 + |RenderItems(k, item.items, format, depth + 1)| &&
              Printable(item) == PrintableItems(item.items)
    ensures item.Object? ==>
              Render(k, item, format, depth) == RenderObject(k, item.members, format, depth) &&
              Printable(item) == PrintableMembers(item.members)
  {
  }

  lemma {:induction false} EscapeSplit(s: bytes, i: nat)
    requires i <= |s|
    ensures Escape(s) == Escape(s[..i]) + Escape(s[i..])
  {
    hide EscapeByte;
    if i == 0 {
      assert s[i..] == s;
    } else {
      EscapeSplit(s[1..], i - 1);
      assert s[..i][1..] == s[1..][..i - 1];
      assert s[1..][i - 1..] == s[i..];
    }
  }

  lemma EscapeNext(s: bytes, i: nat)
    requires i < |s|
    ensures Escape(s[..i + 1]) == Escape(s[..i]) + EscapeByte(s[i])
    ensures |Escape(s[..i + 1])| <= |Escape(s)|
  {
    EscapeSplit(s[..i + 1], i);
    assert s[..i + 1][..i] == s[..i] && s[..i + 1][i..] == [s[i]];
    assert Escape([s[i]]) == EscapeByte(s[i]) + Escape([]);
    EscapeSplit(s, i + 1);
  }

  lemma {:induction false} EscapeLength(s: bytes)
    ensures |Escape(s)| >= |s|
    ensures |Escape(s)| == |s| ==> Escape(s) == s
  {
    if |s| > 0 {
      EscapeLength(s[1..]);
      assert s == [s[0]] + s[1..];
    }
  }

  // ----- the printing interface -----

  /** A block handed to the caller, and where its bytes are. */
  datatype Block = Block(address: Address, data: array<byte>)

  /** `data` holds the C string `r`. */
  ghost predicate HoldsText(data: array<byte>, r: bytes)
    reads data
  {
    |r| < data.Length && data[..|r|] == r && data[|r|] == NUL
  }

  /** What a finished printer leaves behind. */
  lemma PrintedText(p: PrintBuffer, r: bytes)
    requires p.Valid() && p.Printed([], r)
    ensures HoldsText(p.buffer, r) && (p.noalloc ==> p.buffer == p.given)
    ensures !p.noalloc ==> p.hooks.live == p.others + {p.address} && p.address !in p.others
  {
    assert [] + r == r;
  }

  /**
   * cJSON_PrintPreallocated succeeds exactly when the buffer has two bytes more than the text,
   * and then holds the rendering.
   */
  method PrintPreallocated(k: Codec, hooks: Hooks, item: Json, buf: array?<byte>, len: int, format: bool)
      returns (ok: bool)
    requires PrintsNumbers(k) && NoNul(item) && len <= INT_MAX
    requires buf != null ==> len <= buf.Length
    modifies buf, hooks
    ensures hooks.live == old(hooks.live)
    ensures ok <==> buf != null && Printable(item) && |Render(k, item, format, 0)| + 2 <= len
    ensures ok ==> HoldsText(buf, Render(k, item, format, 0))
  {
    hide Render, Printable, NoNul, PrintBuffer.Consistent;
    if len < 0 || buf == null {
      return false;
    }
    var p := new PrintBuffer(k, buf, 0, len, true, format, hooks);
    ok := p.PrintValue(item);
    if ok {
      PrintedText(p, Render(k, item, format, 0));
    }
  }

  /** A printer on a new buffer of `size` bytes and the outcome of print_value. */
  method PrintToNewBuffer(k: Codec, hooks: Hooks, item: Json, size: nat, format: bool)
      returns (p: PrintBuffer?, ok: bool)
    requires PrintsNumbers(k) && NoNul(item) && size <= INT_MAX
    modifies hooks
    ensures hooks.refusals >= old(hooks.refusals)
    ensures p == null ==> !ok && hooks.live == old(hooks.live) && hooks.refusals > old(hooks.refusals)
    ensures p != null ==> fresh(p) && p.Valid() && p.hooks == hooks && !p.noalloc
    ensures p != null ==> p.others == old(hooks.live) && p.refusedBefore == old(hooks.refusals)
    ensures p != null && p.buffer != null ==> fresh(p.buffer)
    ensures ok ==> p != null && p.Printed([], Render(k, item, format, 0)) && Printable(item)
    ensures !ok ==>
            !Printable(item) || |Render(k, item, format, 0)| + 2 > INT_MAX || hooks.refusals > old(hooks.refusals)
  {
    hide Render, Printable, NoNul, PrintBuffer.Consistent;
    var block := hooks.Allocate();
    if block == None {
      return null, false;
    }
    var data := new byte[size];
    p := new PrintBuffer(k, data, block.value, size, false, format, hooks);
    ok := p.PrintValue(item);
  }

  /** The failure exit of print: the buffer is freed if there still is one. */
  method Discard(p: PrintBuffer)
    requires p.Valid() && !p.noalloc
    modifies p.hooks
    ensures p.hooks.live == p.others && p.hooks.refusals == old(p.hooks.refusals)
  {
    if p.buffer != null {
      p.hooks.Deallocate(p.address);
    }
  }

  /** The failure exit of cJSON_PrintBuffered: the pointer is freed even if it is NULL by now. */
  method DiscardPointer(p: PrintBuffer)
    requires p.Valid() && !p.noalloc
    modifies p.hooks
    ensures p.hooks.live == p.others && p.hooks.refusals == old(p.hooks.refusals)
  {
    p.hooks.DeallocatePointer(if p.buffer == null then None else Some(p.address));
  }

  /** cJSON_PrintBuffered; the initial buffer may be empty. */
  method PrintBuffered(k: Codec, hooks: Hooks, item: Json, prebuffer: int, format: bool) returns (r: Option<Block>)
    requires PrintsNumbers(k) && NoNul(item) && prebuffer <= INT_MAX
    modifies hooks
    ensures hooks.refusals >= old(hooks.refusals)
    ensures r.Some? ==>
            fresh(r.value.data) && r.value.address !in old(hooks.live) &&
            hooks.live == old(hooks.live) + {r.value.address}
    ensures r.Some? ==> HoldsText(r.value.data, Render(k, item, format, 0)) && Printable(item)
    ensures r == None ==> hooks.live == old(hooks.live)
    ensures r == None ==>
            prebuffer < 0 || !Printable(item) || |Render(k, item, format, 0)| + 2 > INT_MAX ||
            hooks.refusals > old(hooks.refusals)
  {
    hide Render, Printable, NoNul, PrintBuffer.Valid, HoldsText;
    if prebuffer < 0 {
      return None;
    }
    var p, ok := PrintToNewBuffer(k, hooks, item, prebuffer, format);
    if ok {
      PrintedText(p, Render(k, item, format, 0));
      return Some(Block(p.address, p.buffer));
    }
    if p != null {
      DiscardPointer(p);
    }
    return None;
  }

  /** print: the text in a block of exactly its size, and nothing else left allocated. */
  method Print(k: Codec, hooks: Hooks, item: Json, format: bool) returns (r: Option<Block>)
    requires PrintsNumbers(k) && NoNul(item)
    modifies hooks
    ensures hooks.refusals >= old(hooks.refusals)
    ensures r.Some? ==>
            fresh(r.value.data) && r.value.address !in old(hooks.live) &&
            hooks.live == old(hooks.live) + {r.value.address}
    ensures r.Some? ==> r.value.data[..] == Render(k, item, format, 0) + [NUL] && Printable(item)
    ensures r == None ==> hooks.live == old(hooks.live)
    ensures r == None ==>
            !Printable(item) || |Render(k, item, format, 0)| + 2 > INT_MAX || hooks.refusals > old(hooks.refusals)
  {
    hide Render, Printable, NoNul, PrintBuffer.Valid, HoldsText;
    var p, ok := PrintToNewBuffer(k, hooks, item, 256, format);
    if ok {
      ghost var text := Render(k, item, format, 0);
      RenderNulFree(k, item, format, 0);
      r := Finish(p, text);
    } else {
      if p != null {
        Discard(p);
      }
      r := None;
    }
  }

  /** The end of print: the text moves into a block of exactly its size. */
  method Finish(p: PrintBuffer, ghost text: bytes) returns (r: Option<Block>)
    requires p.Valid() && p.Printed([], text) && NulFree(text) && !p.noalloc
    modifies p.hooks, p`offset
    ensures p.hooks.refusals >= old(p.hooks.refusals)
    ensures r.Some? ==>
            fresh(r.value.data) && r.value.address !in p.others && p.hooks.live == p.others + {r.value.address}
    ensures r.Some? ==> r.value.data[..] == text + [NUL]
    ensures r == None ==> p.hooks.live == p.others && p.hooks.refusals > old(p.hooks.refusals)
  {
    hide PrintBuffer.Owned, GrowthBound;
    BufferIsLive(p);
    p.UpdateOffset([], text);
    assert [] + text == text;
    var exact;
    if p.hooks.canReallocate {
      exact := p.hooks.Reallocate(p.address);
    } else {
      exact := p.hooks.Allocate();
    }
    if exact == None {
      p.hooks.Deallocate(p.address);
      return None;
    }
    var printed := Trimmed(p, text);
    if !p.hooks.canReallocate {
      p.hooks.Deallocate(p.address);
    }
    r := Some(Block(exact.value, printed));
  }

  lemma BufferIsLive(p: PrintBuffer)
    requires p.Valid() && !p.noalloc && p.buffer != null
    ensures p.hooks.live == p.others + {p.address} && p.address !in p.others
  {
  }

  /** The text and its terminator in a buffer of their size. */
  method Trimmed(p: PrintBuffer, ghost text: bytes) returns (printed: array<byte>)
    requires p.buffer != null && p.offset == |text| < p.buffer.Length && p.buffer[..|text|] == text &&
             p.buffer[|text|] == NUL
    ensures fresh(printed) && printed[..] == text + [NUL]
  {
    printed := new byte[p.offset + 1];
    forall i | 0 <= i <= p.offset {
      printed[i] := p.buffer[i];
    }
    if !p.hooks.canReallocate {
      printed[p.offset] := NUL;
    }
    assert printed[..p.offset] == p.buffer[..p.offset];
  }
}
