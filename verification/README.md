# cJSON and three iconv converters: a verified model

This project models `deps/cjson/cJSON.c`, the JSON library, and three converters of the bundled
libiconv (`c99.h`, `big5.h`, `big5hkscs2004.h`), and proves what they promise.

`dafny verify dfyconfig.toml` checks everything.

## How it is organised

**JSON as mathematics.** `Values` holds the value tree and the number codec. `Parser` is the parser as a
function on the unread suffix of the input, branch by branch, with the nesting limit of 1000 and the 63-byte
number buffer. `Syntax`, `Language` and `Recognition` describe the language it accepts and prove that
description exact in both directions; `Prefixes` does the same for `cJSON_Parse`, which does not look behind
the value, and `ErrorPositions` for the texts that are refused and the place that is reported. `Rfc8259` has
the grammar of RFC 8259 (sections 2 to 7) with its own meaning, independent of the parser, and relates the
two. `Unambiguous` shows that an accepted text has only one syntax tree, and `Strictness` tells by that tree
whether the text is JSON. `Renderer` is the text the printer produces, `Layout` and `ShortestEscapes` describe
it, `RoundTrip` connects it with the parser, `Minifier` and `Minification` do the same for `cJSON_Minify`,
`MinifiedPrint` relates it to the two printed forms, and `Unicode` treats `\uXXXX` escapes, UTF-16 and UTF-8.
`Literals`, `Losses`, `Misreading` and `MinifyMeaning` find out exactly which texts `cJSON_Minify` spares, and
`Comments` what it does to comments. `Numbers` takes doubles for the real numbers they are.

**JSON as it runs.** `PrintBuffer` is the growing buffer with its offset, `ParseBuffer` the cursor with its
depth, `Unescaping` the two loops of `parse_string` over one output array, `MinifyInPlace` the reading and
writing index in one array, `ListEdits` the doubly linked list on the heap. Each method is proved against the
function above that says what it computes. `Memory` is the allocator: any allocation may fail, a block can be
freed only while it is live, a new block may be any that is not live (so that freed blocks come back), `live`
is the exact set of blocks in use, and `refusals` counts failed allocations, so that a failure can be blamed
on memory only if one happened during the call. `Items` gives each node and string its block, so that parsing,
duplicating and deleting can be stated as conservation laws. `Compare` and `TreeEquality` treat
`cJSON_Compare`, first as the relation its loops decide and then as an equality of values. `Reparsing` puts
printer, parser and allocator together.

**The converters.** `C99` works on 32-bit words, `BitCount` and `Big5` on 16-bit words and tables with
running counts, `Hkscs` on four abstract tables with stated laws and a converter object with two states.

The number codec is a parameter. It stands for `strtod` and for the `sprintf` of `print_number`, and theorems
say which of its properties they use: `ExactPrinting` (a finite number prints as 1 to 25 number bytes that
are read back exactly), `PrintsNumbers` (at most 25 bytes) or `ReadsNumbers` (`strtod` consumes every JSON
number). `NumberCodecs` shows that a codec with all three exists, and `Hkscs.SmallestTablesAreLawful` that
the laws of the HKSCS tables can be met.

Where the code differs from what one would expect of it, the model follows the code:

* An unescaped body that contains U+0000 is cut there, because it is kept as a C string. So
  `Rfc8259.ReadsJsonExactly` has the condition that no string contains it, and needs it.
* `minify_string` looks for a backslash and a quote only, so a literal that ends in an escaped backslash
  swallows what follows, and the literals behind it are read from the inside.
  `MinifyMeaning.MinifyPreservesMeaning` says exactly which accepted texts are harmed,
  `Minification.UncleanLiteralsBreakMinify` that every such literal does harm in some text, and
  `MinifiedPrint.MinifyPrinted` which printed trees are spared.
* NaN and the infinities print as `null`, absent strings print as empty ones; `RoundTrip.RoundTripTheorem`
  says exactly when a tree comes back unchanged.
* The header (`deps/cjson/cJSON.h:160`) advises 5 bytes more than needed for `cJSON_PrintPreallocated`; the
  exact number is 2 more than the length of the text (`PrintBuffer.PrintPreallocated`).
* `c99_mbtowc` takes every letter for a digit, not only A to F. `C99.DecodesByTheStandard` says on which
  inputs this matters.
* `parse_hex4` yields 0 for digits that are none, so `\uZZZZ` is U+0000, and the text is accepted
  although it is not JSON (`Strictness.LooseText`).
* Where a key should stand and something else does, the reported position is one byte behind it; a literal
  without its end is reported behind its opening quote (`ErrorPositions.ErrorTheorem`).
* strtod may take less than the number bytes it sees, so that `cJSON_Parse` reads `1e+` as 1
  (`Prefixes.PrefixTheorem`, `Prefixes.NumberBytesMayFollow`).

## Model

| member | source | states |
|---|---|---|
| Parser.ParseValue | deps/cjson/cJSON.c:1222-1274 | On every NUL-terminated input a value leaves strictly less unread, still terminated, or stops inside the text; array, object and member parsing recurse on the unread length. |
| Parser.ParseStringAdvances | deps/cjson/cJSON.c:708-834 | A string literal leaves strictly less unread, still terminated; a failure stops inside the text. |
| Language.ParsesLiteral | deps/cjson/cJSON.c:721-812 | A closed literal body in quotes is accepted exactly when unescaping succeeds, yields that text and leaves exactly what follows the quote. |
| Language.ParsesNumber | deps/cjson/cJSON.c:276-350 | A number lexeme in front of anything that is no number byte is read whole exactly when it fits 63 bytes and strtod consumes it all. |
| Language.ParsesValue | deps/cjson/cJSON.c:1222-1274 | The text of any syntax tree at any depth, in front of anything that can follow a value, is accepted with the tree's value and leaves what follows, exactly when the tree is acceptable; otherwise it is lost. |
| Language.ParsesItems | deps/cjson/cJSON.c:1383-1423 | The same for a list of elements up to the closing bracket. |
| Language.ParsesEntries | deps/cjson/cJSON.c:1537-1595 | The same for names, colons and values up to the closing brace. |
| Recognition.ParsesText | deps/cjson/cJSON.c:1010-1087 | A whole text is parsed to the value of its tree when that is acceptable, and refused otherwise, with or without a byte order mark. |
| Recognition.ReadsText | deps/cjson/cJSON.c:1010-1087 | Every text that is accepted is the text of an acceptable tree, and its value is that tree's. |
| Recognition.LanguageTheorem | deps/cjson/cJSON.c:1010-1087 | Parsing with require_null_terminated succeeds if and only if the input is the text of an acceptable tree, and any such tree has the value returned. |
| Prefixes.ParsesInFront | deps/cjson/cJSON.c:1010-1093 | Without require_null_terminated, as in cJSON_Parse: the text of any syntax tree, behind blanks and perhaps a byte order mark and in front of anything (that cannot prolong it, if it is a number), is read with the tree's value and leaves exactly what follows, if and only if the tree is acceptable. |
| Prefixes.PrefixTheorem | deps/cjson/cJSON.c:1010-1093 | A text is accepted by cJSON_Parse if and only if it is blanks, a value and a rest, where a number is what strtod takes of the first 63 characters of numbers at most; any such split has the value and the rest returned. |
| Prefixes.NumberBytesMayFollow | deps/cjson/cJSON.c:287-322 | What follows a number may prolong it: if strtod takes 1 byte of `1e+`, cJSON_Parse accepts that text, returns the number and leaves `e+`, although no syntax tree that is acceptable as a whole stands at its start. |
| Prefixes.WholeIsPrefix | deps/cjson/cJSON.c:1045-1054 | With require_null_terminated a text is accepted if and only if it is accepted without and nothing but blanks follows the value; the value is the same. |
| ErrorPositions.ErrorTheorem | deps/cjson/cJSON.c:1057-1087 | A text is refused with its error at a given place if and only if it is the text of an unfinished tree up to there and what stands there cannot go on: no value, a number strtod refuses, a bracket beyond depth 1000, no comma, colon or closing bracket, no key, a literal without its end, or an escape that is none; or, with require_null_terminated, a whole value in front of something else than the end. |
| ErrorPositions.StopsAtNoEscape | deps/cjson/cJSON.c:756-812 | Inside a literal the error is at a backslash that starts no escape or an unpaired surrogate. |
| Rfc8259.StringDecodes | deps/cjson/cJSON.c:756-812 | The writing loop computes the string that section 7 of RFC 8259 denotes, and fails exactly on unpaired surrogates. |
| Rfc8259.StringAgrees | deps/cjson/cJSON.c:708-834 | The sizing loop ends exactly at the closing quote of any string of the grammar; acceptance and stored text are as the grammar says. |
| Rfc8259.AcceptsJson | deps/cjson/cJSON.c:1010-1087 | Every JSON text is accepted if and only if it is nested at most 1000 deep, its numbers have at most 63 bytes and its surrogates are paired; the result is the tree the grammar denotes, strings cut at U+0000. |
| Rfc8259.ReadsJsonExactly | deps/cjson/cJSON.c:1010-1087 | The result is exactly the denoted tree if and only if, in addition, no string contains U+0000. |
| Unambiguous.OneTree | deps/cjson/cJSON.c:1010-1087 | All syntax trees of a text are one tree, up to the padding that a list or table with members does not use, and agree on the byte order mark: where a number, literal or run of blanks ends is settled by the text. |
| Strictness.JsonIsStrict | deps/cjson/cJSON.c:276-350 | A text of the language is JSON by the grammar of RFC 8259 if and only if its one tree is strict: only the four blanks of section 2, numbers as in section 6, and no control bytes and only escapes of section 7 in literals. The code takes every byte up to 32 for a blank (lines 973-991), whatever strtod takes for a number, and unchecked bytes in literals (lines 708-834). |
| Strictness.AcceptedJson | deps/cjson/cJSON.c:1010-1087 | Every accepted input has exactly one tree without unused padding, which has the value returned; the input is JSON if and only if that tree is strict and there is no byte order mark, and what follows a byte order mark is JSON if and only if the tree is strict. |
| Strictness.LooseText | deps/cjson/cJSON.c:550-583 | Whatever four bytes that are not all hexadecimal digits follow a backslash and a u in an otherwise empty literal (no quotes, backslashes or NUL): the text is accepted, reads as the empty string, and is not JSON. |
| RoundTrip.EscapeDenotes | deps/cjson/cJSON.c:837-956 | An escaped string is a closed literal body that parse_string turns back into the string. |
| RoundTrip.WrittenText | deps/cjson/cJSON.c:1277-1348 | The rendering of a tree, formatted or not and at any depth, is the text of a syntax tree with the printer's layout. |
| RoundTrip.WrittenDenotes | deps/cjson/cJSON.c:1277-1348 | That syntax tree is in order, acceptable exactly within the nesting limit, and denotes the printed value up to normalisation. |
| RoundTrip.PrintThenParse | deps/cjson/cJSON.c:1222-1348 | Printed text parses to the normalised tree when it nests at most 1000 deep and is refused otherwise, with and without require_null_terminated, for every tree without raw and untyped items. |
| RoundTrip.RoundTripTheorem | deps/cjson/cJSON.c:1222-1348 | Parsing the printed text, with or without require_null_terminated, returns the same tree, in both formats, if and only if numbers are finite, strings present and nesting is at most 1000. |
| Layout.RenderIsDocument | deps/cjson/cJSON.c:1445-1727 | The printed text of any tree at any depth is the document with its separators written out: arrays on one line with a comma and a space, objects with one member a line, a tab for each level and behind each colon; or nothing between the tokens. |
| ShortestEscapes.EscapeIsShortest | deps/cjson/cJSON.c:837-956 | No JSON literal that denotes a string is shorter than the one that is printed. |
| ShortestEscapes.EscapesAreLowerCase | deps/cjson/cJSON.c:944-949 | Printed escapes hold no upper case letters. |
| Minifier.MinifyTwice | deps/cjson/cJSON.c:2643-2738 | Minify is idempotent on every text, JSON or not. |
| Minifier.LiteralRun | deps/cjson/cJSON.c:2670-2690 | minify_string copies a literal up to its closing quote, unless it ends in an escaped backslash: then it runs on into what follows. |
| Comments.MinifyIsWritten | deps/cjson/cJSON.c:2643-2738 | On every text Minify writes what an automaton writes that reads it byte by byte and knows only whether it is between strings and comments, behind a slash there, in a string or in a comment. |
| Comments.BlockCommentVanishes | deps/cjson/cJSON.c:2656-2668 | Between strings and comments a block comment, up to the first star and slash behind its opening, can be taken out of the text without changing the result. |
| Comments.LineCommentVanishes | deps/cjson/cJSON.c:2643-2654 | So can a line comment with its newline. |
| Comments.UnendedCommentVanishes | deps/cjson/cJSON.c:2643-2668 | So can a comment without its end, to the end of the text. |
| Comments.StringsAreKept | deps/cjson/cJSON.c:2670-2690 | In a string there are no comments: whatever goes on without a quote is kept. |
| Minification.MinifyPut | deps/cjson/cJSON.c:2692-2738 | Minifying the text of a tree whose literals do not end in an escaped backslash gives the text of the tree without blanks. |
| Minification.MinifyKeepsParse | deps/cjson/cJSON.c:2692-2738 | If such a text or its minified form is accepted, both are, with the same value. |
| Literals.TextLiterals | deps/cjson/cJSON.c:1010-1087 | Reading an accepted text byte by byte finds the literals of its tree in order, and the value has their strings. |
| Losses.DroppingIsSeen | deps/cjson/cJSON.c:2643-2738 | What Minify leaves of the inside of a literal without U+0000, if it still is a literal, denotes the same string only if it is the same: no escape that loses its slash makes up for it. |
| Misreading.NoMoreLiterals | deps/cjson/cJSON.c:2643-2738 | Whatever Minify takes for literals and whatever a reader of its output does, the output has no more literals than the text. |
| Misreading.SameStringsAreKept | deps/cjson/cJSON.c:2643-2738 | If the output has as many literals as the text and they denote the same strings, every literal that was read from the inside has survived it: its remains are a literal body again and denote the same C string. |
| MinifyMeaning.EmitPut | deps/cjson/cJSON.c:2692-2738 | Minify writes the text of the tree with fewer blanks, and with what is left of misread literals, whenever each misread literal survives, from either of its two states. |
| MinifyMeaning.MinifyPreservesMeaning | deps/cjson/cJSON.c:2692-2738 | For every accepted s: parse(Minify(s)) = parse(s) if and only if every literal that Minify misreads, behind one that ends in an escaped backslash, survives it. If no string of s holds U+0000 that is so exactly when no misread literal holds a blank or slash in front of its first quote; in any case it is so when none does. |
| MinifyMeaning.SparedIsKept | deps/cjson/cJSON.c:2692-2738 | For every sequence of readable literals, from either state of Minify: those without a blank or slash in front of the first quote survive being misread, and where no string holds U+0000 only those do. |
| MinifyMeaning.NulHidesLoss | deps/cjson/cJSON.c:2692-2738 | With U+0000 the condition on bytes is too strong: in the array of a literal of one escaped backslash and one of U+0000 and a blank, the second loses its blank and the text keeps its value, since strings are cut at U+0000. |
| Minification.UncleanLiteralsBreakMinify | deps/cjson/cJSON.c:2670-2690 | For every literal body: an array of it and a second string keeps its value under Minify if and only if the body does not end in an escaped backslash. |
| MinifiedPrint.MinifyPrinted | deps/cjson/cJSON.c:1162-1170 | Minify(Print(t)) = PrintUnformatted(t) byte for byte if and only if no key ends in a backslash and no string does, but for the very last one in the chain of last array elements from the root. |
| MinifiedPrint.MinifyCleanPrint | deps/cjson/cJSON.c:1162-1170 | In particular Minify(Print(t)) = PrintUnformatted(t) when no key and no string of t ends in a backslash. |
| MinifiedPrint.ValueBreaks | deps/cjson/cJSON.c:2670-2738 | A value in which a key or a string ends in a backslash makes the two texts differ, whatever follows it in either, provided the two continuations differ somewhere and the one behind the formatted text has no quote or backslash up to the first such byte and at it. |
| MinifyInPlace.SkipOnelineComment | deps/cjson/cJSON.c:2643-2654 | The reader stops behind the newline or at the terminator, where the function on the text stops. |
| MinifyInPlace.SkipMultilineComment | deps/cjson/cJSON.c:2656-2668 | The same for a block comment. |
| MinifyInPlace.MinifyString | deps/cjson/cJSON.c:2670-2690 | Both indices move over exactly the run the function gives; the run is copied, and nothing unread or already written is disturbed. |
| MinifyInPlace.MinifyStep | deps/cjson/cJSON.c:2701-2734 | One round advances the reader, keeps the writer behind it and the unread text untouched, and keeps written text plus minified rest. |
| MinifyInPlace.MinifyText | deps/cjson/cJSON.c:2692-2738 | The array ends up holding Minify of its C string and a terminator; bytes behind the old terminator do not change. |
| PrintBuffer.GrowthStep | deps/cjson/cJSON.c:415-432 | A growth keeps the accounting of growths and copied bytes, and an uncapped one more than doubles the length. |
| PrintBuffer.GrowthIsAmortised | deps/cjson/cJSON.c:399-467 | At most 31 growths, and fewer than twice the final length of bytes copied. |
| PrintBuffer.PrintBuffer.GrowthSoFar | deps/cjson/cJSON.c:399-467 | That bound in every state a printer with its own buffer reaches, whatever it has printed; the length never exceeds INT_MAX. |
| PrintBuffer.PrintBuffer.Ensure | deps/cjson/cJSON.c:383-468 | Succeeds exactly when offset, request and one more byte fit the limit, or fails for lack of memory; what was printed is kept, by realloc or by copying. |
| PrintBuffer.PrintBuffer.Grow | deps/cjson/cJSON.c:415-467 | The new buffer is twice as long as the request needs, but at most INT_MAX, and has the printed text; the old block is freed in every case, also when allocation fails. |
| PrintBuffer.PrintBuffer.UpdateOffset | deps/cjson/cJSON.c:471-481 | strlen from the offset reaches exactly the end of the text printed so far. |
| PrintBuffer.PrintBuffer.CountEscapes | deps/cjson/cJSON.c:864-888 | The counted escapes make up exactly the length of the escaped string. |
| PrintBuffer.PrintBuffer.PutEscapedString | deps/cjson/cJSON.c:907-953 | The copying loop writes the escaped string in quotes and a terminator inside the reserved space. |
| PrintBuffer.PrintBuffer.PrintStringPtr | deps/cjson/cJSON.c:837-956 | Behind the offset stands the rendering of the string or of a NULL, or there was no room for it. |
| PrintBuffer.PrintBuffer.PrintNumber | deps/cjson/cJSON.c:484-547 | The number's text or null, and the offset behind it. |
| PrintBuffer.PrintBuffer.PrintValue | deps/cjson/cJSON.c:1277-1348 | Appends exactly the rendering of the item and restores the depth; succeeds if and only if the item is printable and its text fits with two bytes to spare, or fails for lack of memory. |
| PrintBuffer.PrintBuffer.PrintArray | deps/cjson/cJSON.c:1445-1504 | The same for an array, with every request for space it makes. |
| PrintBuffer.PrintBuffer.PrintItems | deps/cjson/cJSON.c:1468-1490 | The loop over elements appends their renderings with separators. |
| PrintBuffer.PrintBuffer.PrintObject | deps/cjson/cJSON.c:1616-1727 | The same for an object with its newlines and tabs. |
| PrintBuffer.PrintBuffer.PrintMembers | deps/cjson/cJSON.c:1643-1704 | The loop over members appends their renderings with separators. |
| Rendered.PrintableInside | deps/cjson/cJSON.c:1277-1348 | The trees that can be printed are exactly those without an item without a type and without a raw item without text, at any depth. |
| PrintBuffer.PrintPreallocated | deps/cjson/cJSON.c:1202-1219 | Succeeds if and only if there is a buffer, the item is printable and len is at least the length of its text plus 2; then the buffer holds the rendering as a C string. |
| PrintBuffer.PrintBuffered | deps/cjson/cJSON.c:1172-1200 | For any initial size, 0 included, the returned block holds the rendering and is the only new block; on failure nothing is left allocated, and failure has one of four reasons. |
| PrintBuffer.Print | deps/cjson/cJSON.c:1097-1160 | The returned block is exactly the rendering and its terminator and the only new block; on failure nothing is left allocated. |
| Reparsing.PrintAndParse | deps/cjson/cJSON.c:1090-1165 | cJSON_Parse, or cJSON_ParseWithOpts, on the block cJSON_Print returns: the tree comes back normalised, in new blocks that are all that is left allocated; it fails only for nesting, size or memory, and then leaves nothing. |
| NumberCodecs.ExampleMeetsAll | deps/cjson/cJSON.c:484-547 | The three assumptions about number text can be met together, by a text of 21 bytes a number. |
| Items.OwnedFields | deps/cjson/cJSON.c:224-245 | What a node owns, field by field: itself, a key that is no constant, and, unless it is a reference, its string and what its children own. |
| Items.Delete | deps/cjson/cJSON.c:224-245 | Frees exactly what a list of nodes owns, each block once: not the children and strings of references, not constant keys. |
| Items.DeleteNode | deps/cjson/cJSON.c:227-243 | The same for one node: of a reference only the node and its key are freed; of any other node the string and every child as well; a constant key makes no difference to what is freed. |
| Items.Duplicate | deps/cjson/cJSON.c:2564-2641 | A copy made of new blocks only, with all of them and nothing else added to the live set, or NULL and the live set unchanged. |
| Items.DuplicateNode | deps/cjson/cJSON.c:2576-2601 | The copy of the node itself: reference flag cleared, constant key shared, other strings copied. |
| Items.DuplicateKids | deps/cjson/cJSON.c:2607-2630 | The copies of the children, also when an allocation stops the loop. |
| Items.CopyMeaning | deps/cjson/cJSON.c:2564-2641 | A deep duplicate stands for the same value. |
| Items.SetKey | deps/cjson/cJSON.c:1909-1941 | The key part of adding to an object: the new key is owned or shared, the old one freed unless constant, and nothing changes when memory is refused. |
| Items.ReplaceKey | deps/cjson/cJSON.c:2229-2242 | The key part of replacing in an object: the old key is freed first, so that the item is left without a key, but only when memory was refused. |
| Unescaping.CountsEscapes | deps/cjson/cJSON.c:721-745 | In a JSON literal the sizing loop counts exactly the escapes, each of which takes one byte off the size. |
| Unescaping.OneByteLater | deps/cjson/cJSON.c:721-741 | Counting escapes from one byte later changes the count by at most one: the two loops may split a literal differently. |
| Unescaping.FitsUnicode | deps/cjson/cJSON.c:587-705 | A unicode escape writes no more than the sizing loop reserved, whatever that loop saw in it. |
| Unescaping.UnescapeFits | deps/cjson/cJSON.c:721-812 | For every literal body: the text stored and its terminator fit allocation_length + 1. |
| Unescaping.ParseHex4 | deps/cjson/cJSON.c:550-583 | The value of four hexadecimal digits, 0 if one of them is none. |
| Unescaping.WriteUtf8 | deps/cjson/cJSON.c:650-699 | Continuation bytes from the last to the second and then the first make up the UTF-8 form. |
| Unescaping.ReadUtf16Literal | deps/cjson/cJSON.c:587-648 | The code point and length of a literal of one or two code units, or a failure. |
| Unescaping.WriteBody | deps/cjson/cJSON.c:756-812 | The writing loop never leaves the array the sizing loop asked for, and yields the unescaped text or stops where the function stops. |
| ParseBuffer.ParseBuffer.SkipWhitespace | deps/cjson/cJSON.c:973-991 | The cursor skips all blanks but never the last byte. |
| ParseBuffer.ParseBuffer.SkipUtf8Bom | deps/cjson/cJSON.c:994-1007 | The cursor skips a byte order mark that more than a terminator follows. |
| ParseBuffer.ParseBuffer.CopyNumber | deps/cjson/cJSON.c:289-322 | The copying loop stops at the 64-byte buffer's end or the first byte that is none of a number. |
| Numbers.SaturatedIsCutOff | deps/cjson/cJSON.c:324-343 | valueint is INT_MAX or INT_MIN for numbers beyond them and the infinities, and otherwise the number without what is behind its point, sign kept. |
| ParseBuffer.ParseBuffer.ParseNumber | deps/cjson/cJSON.c:276-350 | The number strtod finds in that lexeme and that valueint; the cursor moves over what strtod used. |
| ParseBuffer.ParseBuffer.ScanString | deps/cjson/cJSON.c:721-747 | The sizing loop finds the closing quote and the number of escapes, or none. |
| ParseBuffer.ParseBuffer.ParseString | deps/cjson/cJSON.c:708-834 | One new block with the text, or no block; cursor and error position as the function gives them. |
| ParseBuffer.ParseBuffer.ParseValue | deps/cjson/cJSON.c:1222-1274 | The node gets the value and the cursor the position of the function, depth is restored and never above 1000, and exactly the contents of the node are allocated; every field of every node is as it should be (valueint cut off, 1 for true, 0 otherwise); a failure allocates nothing and stops where the function stops, or for lack of memory. |
| ParseBuffer.ParseBuffer.ParseArray | deps/cjson/cJSON.c:1351-1442 | The same for an array. |
| ParseBuffer.ParseBuffer.ParseItems | deps/cjson/cJSON.c:1383-1442 | The list of elements built so far is exactly what is allocated, and is deleted on failure. |
| ParseBuffer.ParseBuffer.ParseObject | deps/cjson/cJSON.c:1507-1613 | The same for an object. |
| ParseBuffer.ParseBuffer.ParseMembers | deps/cjson/cJSON.c:1537-1613 | The list of members built so far is exactly what is allocated, and is deleted on failure. |
| ParseBuffer.ParseBuffer.ReadName | deps/cjson/cJSON.c:1563-1583 | The name's block becomes the key, and a colon must follow. |
| ParseBuffer.ParseWithOpts | deps/cjson/cJSON.c:1010-1087 | Returns the denoted tree, made of new blocks that are exactly what was allocated, all fields of its nodes set, and the end of the parse; or NULL, nothing allocated, and the position where the parse stopped, inside the text, unless memory ran out. |
| Compare.CaseInsensitiveStrcmp | deps/cjson/cJSON.c:104-125 | 0 exactly for two strings of one length that have at each place the same character or the two cases of one letter. |
| Compare.GetObjectItem | deps/cjson/cJSON.c:1782-1812 | The loops compute the lookup function. |
| Compare.LookupFirst | deps/cjson/cJSON.c:1782-1812 | The lookup finds a member if and only if it is the first with the key and, when case matters, no member in front of it lacks a key; and some member if there is one and all have keys. |
| Compare.Compare | deps/cjson/cJSON.c:2840-2963 | The loops decide the relation Same, with NULL equal to nothing. |
| Compare.ComparesToItself | deps/cjson/cJSON.c:2842-2868 | A node compares equal to itself, whatever it holds, unless it has no type. |
| Compare.CompareIsSymmetric | deps/cjson/cJSON.c:2840-2963 | The relation is symmetric on all trees. |
| Compare.CompareIsTransitive | deps/cjson/cJSON.c:2840-2963 | The relation is transitive on all trees of one memory, shared nodes and duplicate keys included. |
| Compare.CompareObjects | deps/cjson/cJSON.c:2922-2957 | For any two different objects, whatever their keys: they compare equal if and only if all members have keys, both have the same keys, and any two members with one key, one of each, compare equal. |
| Numbers.EqualsIsSameNumber | deps/cjson/cJSON.c:2878-2884 | Two doubles are equal to == if and only if they are the same real number; NaN equals nothing, an infinity only itself. |
| TreeEquality.CompareIsEquality | deps/cjson/cJSON.c:2840-2963 | On trees with present strings, distinct keys and no NaN it holds if and only if the values are equal up to the order of members, numbers as real numbers and keys character by character. |
| TreeEquality.CompareMeansEqual | deps/cjson/cJSON.c:2922-2957 | What the two lookup loops accept can be paired one to one. |
| TreeEquality.EqualCompares | deps/cjson/cJSON.c:2922-2957 | Values that can be paired one to one are accepted by both loops. |
| TreeEquality.DuplicateComparesEqual | deps/cjson/cJSON.c:2564-2641 | A deep duplicate of such a tree compares equal to it. |
| TreeEquality.UnequalToAll | deps/cjson/cJSON.c:2840-2963 | A tree with an item without a type, a NaN, an absent string or a member without a key anywhere in it compares equal to no tree that shares no node with it. |
| ListEdits.RunStaysSane | deps/cjson/cJSON.c:1858-2217 | No run of edits puts a node into the list twice or brings back one that a replacement deleted. |
| ListEdits.Node.GetArrayItem | deps/cjson/cJSON.c:1753-1770 | The walk along next finds the child at the index or NULL. |
| ListEdits.Node.AddItemToArray | deps/cjson/cJSON.c:1858-1885 | The list stays linked both ways, and the sequence of children gets the item at its end. |
| ListEdits.Node.InsertItemInArray | deps/cjson/cJSON.c:2155-2182 | The same for an insertion in front of the index; a negative index changes nothing, one past the end appends. |
| ListEdits.Node.DetachItemViaPointer | deps/cjson/cJSON.c:2085-2113 | The item leaves the sequence and points nowhere; the rest stays linked. |
| ListEdits.Node.DetachItemFromArray | deps/cjson/cJSON.c:2115-2123 | The same by index. |
| ListEdits.Node.ReplaceItemViaPointer | deps/cjson/cJSON.c:2184-2217 | The replacement takes the item's place in the sequence and exactly the item's blocks are freed; replacing an item by itself changes nothing. |
| ListEdits.Node.ReplaceItemInArray | deps/cjson/cJSON.c:2219-2227 | The same by index. |
| ListEdits.Node.InsertAndDetach | deps/cjson/cJSON.c:2085-2182 | Detaching an item after inserting it anywhere restores the list, every link included. |
| ListEdits.Node.DetachAndInsert | deps/cjson/cJSON.c:2085-2182 | Inserting an item where it was detached restores the list, every link included; a bad index changes nothing. |
| ListEdits.Node.DetachAndInsertAnother | deps/cjson/cJSON.c:2085-2227 | Detaching an item and inserting another there leaves the list that replacing it leaves, and hands back the item instead of deleting it. |
| ListEdits.Node.LinkChildren | deps/cjson/cJSON.c:1386-1418 | The wiring loop of parsing and duplicating, which keeps only the head and the last node, builds a well-formed list of the nodes in order. |
| ListEdits.Node.PerformAll | deps/cjson/cJSON.c:2085-2217 | Any run of edits with detached items keeps the list well formed and changes the sequence of children as a sequence is changed; what is detached can be used again, and exactly the blocks of what was replaced have been freed. |
| Unicode.Utf8Inverse | deps/cjson/cJSON.c:650-699 | Decoding by section 3 of RFC 3629 undoes the encoding. |
| Unicode.Utf8Shortest | deps/cjson/cJSON.c:650-699 | Whatever decodes is the encoding of the result, so the encoding is the only and shortest form. |
| Unicode.EscapesMeaning | deps/cjson/cJSON.c:587-705 | Unicode escapes denote the UTF-8 form of what section 2.2 of RFC 2781 decodes their code units to. |
| Unicode.EscapesToUtf8 | deps/cjson/cJSON.c:756-809 | For any literal of unicode escapes: accepted exactly when surrogates are paired, the result is the UTF-8 of the code points and decodes to them, and holds no NUL unless U+0000 is among them. |
| Unicode.EveryScalarReadsBack | deps/cjson/cJSON.c:756-809 | Every sequence of scalar values can be written as escapes and comes back as its UTF-8. |
| C99.Mbtowc | deps/iconv/c99.h:29-94 | The decoding function, return codes included. |
| C99.ReadEscape | deps/iconv/c99.h:43-58 | The loop over the digits of either escape. |
| C99.Wctomb | deps/iconv/c99.h:96-125 | Writes exactly the encoding if there is room and nothing otherwise. |
| C99.DecodesEncoded | deps/iconv/c99.h:29-125 | The encoding of any character but a backslash, in front of anything, decodes to it, or is illegal if it is a surrogate. |
| C99.ReadsBackAlone | deps/iconv/c99.h:29-125 | A character on its own is read back if and only if it is no backslash and no surrogate. |
| C99.PrefixesAskForMore | deps/iconv/c99.h:40-48 | Every non-empty proper prefix of an escape asks for more input. |
| C99.StreamRoundTrip | deps/iconv/c99.h:29-125 | Decoding the output for any sequence without backslashes and surrogates returns the sequence. |
| C99.StreamPrefix | deps/iconv/c99.h:29-125 | Cutting such a stream inside an escape loses only that escape, which asks for more input. |
| C99.DecodesByTheStandard | deps/iconv/c99.h:29-94 | The decoder does what it would do with the digits and the characters of section 6.4.3 of ISO/IEC 9899:1999 alone if and only if the input does not start with an escape whose available digits are all letters and digits, one of them beyond F. |
| C99.LettersBeyondF | deps/iconv/c99.h:49-56 | An input of the second kind. |
| C99.DecodesAnyCase | deps/iconv/c99.h:43-58 | Letters among the digits may be upper or lower case. |
| BitCount.ParallelCountCounts | deps/iconv/big5.h:4147-4151 | The parallel count of a 16-bit word is the number of its bits. |
| BitCount.CountBelow | deps/iconv/big5.h:4145-4146 | Masking the bits below a position and counting is counting below it. |
| Big5.ScanByRows | deps/iconv/big5.h:4120-4141 | A linear scan counts whole rows and then bits in the row of the code point, across the gaps between pages. |
| Big5.IndexIsScan | deps/iconv/big5.h:4140-4152 | With running counts in the table, the index computed for an encodable code point is the number of encodable ones below it. |
| Big5.IndexInRange | deps/iconv/big5.h:4152-4152 | The index is inside the code table. |
| Big5.RanksInOrder | deps/iconv/big5.h:4140-4152 | The index is strictly increasing. |
| Big5.EveryRankIsUsed | deps/iconv/big5.h:4140-4152 | Every entry of the code table belongs to a code point. |
| Big5.EncodesByRank | deps/iconv/big5.h:4119-4160 | big5_wctomb writes the code at the rank of an encodable code point and refuses any other. |
| Hkscs.CodeOfFirstSet | deps/iconv/big5hkscs2004.h:134-200 | A character beyond ASCII is written with its code in the first set that has one: BIG5 without the codes from 0xC6A1 to 0xC7FE, then the sets of 1999, 2001 and 2004. |
| Hkscs.RoomNeeded | deps/iconv/big5hkscs2004.h:118-215 | More room is asked for exactly when there is less than what is to be written, or, in front of a character without a code, less than what is held back. |
| Hkscs.WritesComposed | deps/iconv/big5hkscs2004.h:118-215 | The four sequences that have a code of their own are written with it. |
| Hkscs.Conv.Wctomb | deps/iconv/big5hkscs2004.h:118-215 | Writes what the transducer emits and takes its new state if there is room; otherwise the state does not change, nor does it for a character without a code. |
| Hkscs.Conv.Reset | deps/iconv/big5hkscs2004.h:218-231 | Writes the code held back, if any and if there is room. |
| Hkscs.Conv.Mbtowc | deps/iconv/big5hkscs2004.h:51-114 | The character held back comes first and uses no input; then the sets in their order and the composed codes. |
| Hkscs.ReadsInFirstSet | deps/iconv/big5hkscs2004.h:60-114 | Two bytes are read in the first set that has them, BIG5 with its ranges of lead and trail bytes and without the rows from 0xC6A1 on, or as one of the four composed codes, or are illegal. |
| Hkscs.AsksForMore | deps/iconv/big5hkscs2004.h:51-114 | A byte beyond ASCII that some byte makes a code of asks for it when it is alone; two bytes are always enough, and what follows them does not matter. |
| Hkscs.Conv.Flushwc | deps/iconv/flushwc.h:23-35 | The character held back at the end of the input. |
| Hkscs.EmitKeepsState | deps/iconv/big5hkscs2004.h:172-182 | The code held back is one of the two that may start a sequence. |
| Hkscs.Conv.FillBuffer | deps/iconv/loop_unicode.h:269-430 | The output loop fills one buffer: what it wrote and the encoding of the characters left, from the state it left, make up the encoding of the run; it stops only at the end, at a character without a code, or for room, and a buffer of four bytes takes at least one character. |
| Hkscs.Conv.ConvertRun | deps/iconv/loop_unicode.h:269-527 | A caller that offers buffers of any sizes one after the other and then resets gets the encoding of the whole run, or of a part from which the state it is left in continues; with one buffer more than characters, of four bytes or more, an encodable run is finished. |
| Hkscs.RetriesWriteTheSame | deps/iconv/big5hkscs2004.h:118-231 | Whatever the sizes of the output buffers and however often an attempt is repeated, the bytes are the same. |
| Hkscs.FourBytesSuffice | deps/iconv/big5hkscs2004.h:118-231 | With four bytes of room no attempt has to be repeated. |
| Hkscs.Conv.DecodeRun | deps/iconv/loop_unicode.h:269-527 | The input loop, calling the converter until the input is used up and then for what it holds back, computes the decoding of the run. |
| Hkscs.ReadsComposed | deps/iconv/big5hkscs2004.h:97-110 | A composed code is read as the two characters it was written for. |
| Hkscs.EncodedReadsBack | deps/iconv/big5hkscs2004.h:51-231 | From any state of the encoder, what a run writes decodes to the character held back and the characters of the run. |
| Hkscs.RunReadsBack | deps/iconv/big5hkscs2004.h:51-231 | Any run of successful steps with any retries, and the reset, decode to the characters given. |

## Left out

- RoundTrip.RoundTripTheorem: says nothing about the digits of numbers; `strtod`, `sprintf` and `sscanf` are the number codec with the stated property, and the locale's decimal point is a dot.
- PrintBuffer.PrintBuffered: with an initial size of 0 and no realloc, growing reads one byte of a block that has none (`deps/cjson/cJSON.c:460`), which C does not define; in the model that byte may be any, and nothing depends on it.
- PrintBuffer.PrintBuffer.PrintValue: takes the item by value, so that printing while the tree is being changed is not modelled; short loops that write tabs or copy text are single assignments over a range.
- ParseBuffer.ParseBuffer.ParseValue: builds the list of children as a sequence of nodes with block addresses; that the loop's wiring of `next` and `prev` makes a list of them is the separate statement of `ListEdits.Node.LinkChildren`.
- Items.Delete: works on trees as values with block addresses; a tree that contains itself cannot be expressed, and whether a reference's target is still live when it is read is not modelled.
- Items.ReplaceKey: takes the new key by value; in the code it must not be the replacement's own key, which is freed before it is copied.
- ListEdits.Node.LinkChildren: the nodes' contents are values; a node's own children are not tied to the list of another such node, so that `Items` (trees as values) and `ListEdits` (one list of nodes on the heap) are two models of the same structure.
- ListEdits.Node.ReplaceItemViaPointer: NULL arguments, which change nothing, are left out; what hangs below a node is given by value.
- Compare.Compare: `tolower` is that of the C locale.
- C99.Wctomb: for a character below U+00A0 the code writes a byte without looking at the room, so there must be one.
- Hkscs.Conv.Wctomb: the four code tables are parameters with the laws of `Hkscs.Lawful`; that the tables in the repository satisfy them is not proved. The `abort` calls are excluded by these laws.
- Hkscs.Conv.FillBuffer: of `unicode_loop_convert` this is the output side alone, and `Hkscs.Conv.DecodeRun` the input side alone; tag characters, transliteration, discarding, fallbacks and the replacement character, which are for characters that were refused, and hooks are left out.
- Big5.EncodesByRank: the table contents are parameters with the law of `Big5.Tables.Sound`; the decoding direction of BIG5 is left out.
- The `valueint` of a NaN, which C does not define, is 0 in the model; `cJSON_SetNumberHelper` is left out.
- Raw items are left out of the round trips: they are printed verbatim and need not be JSON.
- The `cJSON_Is*`, `cJSON_Create*` and `cJSON_Add*ToObject` convenience functions, `cJSON_InitHooks`, the array size functions and the version function: each is a line or two around what is modelled.
- Adding a node to two lists or building a cycle: preconditions say that a new item is detached.
- The converters of 1999 and 2001 of the same family, the other converters of libiconv, and the alias and canonical name tables.
