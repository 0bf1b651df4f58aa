# gdocs_to_slack core, modelled in Dafny

`gdocs_to_slack` turns HTML copied from Google Docs into what Slack accepts
on the macOS pasteboard. This project models the part of it that is pure
logic:

- **The delta-ops generator** (`SlackListGenerator.Generate` in
  `src/html_parser.go`, with its closures `processList` and `traverse`,
  and `extractText`). It walks a parsed HTML tree and produces two aligned
  outputs:
  - Quill-style delta operations: a text insert, then a `"\n"` insert that
    carries `list` and, for a positive level, `indent`;
  - plain-text lines, joined by newlines.

  Lists may nest structurally (a `ul`/`ol` inside an `li`, or directly
  inside another list) or be flat with an `aria-level` on each item.
  Paragraphs, headings, quotes and preformatted blocks are emitted whole.
  When nothing is emitted, the whole document's text is the fallback.
- **The older generator** of the root package (`html_parser.go`). It walks
  only the first list that `findList` meets in document order. It uses
  the whole document's text only when there is no list at all.
- **`PickleWriter`** (`src/pickle_writer.go`). This is an append-only byte
  buffer in Chromium's pickle layout:
  - a `uint32` is four little-endian bytes;
  - a string is its UTF-16 code-unit count, then the code units (RFC 2781,
    section 2.1), then zero padding to a four-byte boundary.
- **`createChromiumData`** (`main.go`). It writes the count 2 and two
  key/value string pairs into a pickle, then prepends the pickle's length.

How the model is organised:

- The parsed tree is the datatype `Markup.Node`, with three kinds of node:
  - `Element` (tag, attributes, children);
  - `Text`;
  - `Other`, for the document root, comments and doctypes, which only
    contribute through their children.
- The list walker is specified by pure functions (`ListWalk.WalkList` and
  its companions). These produce the emitted entries (`Delta.Entry`) in
  order.
- The closures' shared `ops` and `plainTextLines` slices are the fields of
  the class `Emitter.Accumulator`. Its methods `ProcessList`, `ProcessItem`
  and `ProcessNested`, and the methods `Generator.Traverse` and
  `LegacyGenerator.ListFinder.FindList`, mirror the Go loops. They are
  proved to append exactly the specified entries.
- `strings.Repeat` panics on a negative count. That count is the resolved
  level of an emitted item, that is, of an `li` whose trimmed text is not
  empty. It is negative in two cases:
  - the item's own `aria-level` is 0 or less;
  - the item has no `aria-level`, and an enclosing item carries a negative
    one, so that its nested list is walked at a negative level.

  An item whose text is empty never reaches `strings.Repeat`, whatever its
  `aria-level`. This panic is the explicit failure `NegativeRepeatCount`.
- `Pickle.PickleWriter` keeps its buffer as a `seq` of bytes. Every write is
  proved to append exactly the bytes a specification function gives. Those
  functions have readers that are proved to invert them.
- `ChromiumData.CreateChromiumData` fills a fresh array, as the Go code
  does. The result is read back by `ParseChromiumData`.
- Go's `uint32(...)` conversions wrap modulo 2^32, and the model writes
  that out. The padding is proved to be unaffected by the wrap.

## Model

| member | source | states |
|---|---|---|
| Markup.ConcatTextAppend | src/html_parser.go:159-173 | the extracted text of the siblings `a + b` is the text of `a`, then the text of `b`: document order |
| Markup.NoTextExtractsBlank | src/html_parser.go:159-173 | a tree with no text extracts to white space only |
| GoStrings.TrimSpaceTrims | src/html_parser.go:72 | the trimmed text neither starts nor ends with white space; it is empty exactly when the input is all white space |
| GoStrings.TrimSpaceOfTrimmed | src/html_parser.go:72 | text that neither starts nor ends with white space is its own trim |
| GoStrings.TrimSpaceIdempotent | src/html_parser.go:126 | trimming trimmed text changes nothing |
| GoStrings.Repeat | src/html_parser.go:91 | the indentation is `count` copies of the string: its length is `count` times the string's, the string first and the rest one copy shorter |
| GoStrings.Atoi | src/html_parser.go:49 | the parse succeeds exactly for an optional sign followed by at least one ASCII digit whose value is in the 64-bit range |
| GoStrings.DecimalString | src/html_parser.go:94 | the number is printed as non-empty decimal digits, without a leading zero, whose value is the number |
| GoStrings.AtoiDecimalString | src/html_parser.go:94 | what `Sprintf("%d")` prints, `Atoi` reads back |
| GoStrings.SplitJoin | src/html_parser.go:154 | lines without the separator, once joined, split back into the same lines |
| Delta.NewlineAttributes | src/html_parser.go:79-88 | the newline insert has attributes exactly for a list item; `list` is the list's kind; `indent` is present exactly when the level is positive, and is then the level |
| Delta.OpsOf | src/html_parser.go:75-88 | every entry contributes exactly two operations |
| Delta.LinesOf | src/html_parser.go:96 | every entry contributes exactly one plain-text line |
| Delta.OpsOfSnoc | src/html_parser.go:75-88 | emitting an entry appends its text insert and then its newline insert with its attributes |
| Delta.LinesOfSnoc | src/html_parser.go:91-96 | emitting an entry appends its line: indentation, marker, text |
| Delta.OpsLinesAligned | src/html_parser.go:73-101 | `len(ops) == 2 * len(plainTextLines)`; entry k owns operation 2k (its text), operation 2k+1 (its newline and attributes) and line k |
| ListWalk.FirstAttr | src/html_parser.go:47-53 | there is no result exactly when no attribute has the key; otherwise the result is the value of the first attribute with the key |
| ListWalk.AriaLevelWins | src/html_parser.go:45-54 | an `aria-level` that parses as v gives the level v - 1, whatever the positional level |
| ListWalk.PositionalLevelKept | src/html_parser.go:45-54 | a missing or unparseable `aria-level` keeps the positional level |
| ListWalk.FirstAriaLevelOnly | src/html_parser.go:47-53 | only the first `aria-level` attribute is consulted: attributes after it never change the level |
| ListWalk.NestedLists | src/html_parser.go:60-70 | the nested lists set aside are `ul`/`ol` children of the item |
| ListWalk.ItemTextIsExtractText | src/html_parser.go:60-70 | an item's own text is the text `extractText` reads from its children, as long as no child is a non-element with children of its own |
| ListWalk.WalkKidsIsWalkSeq | src/html_parser.go:104-106 | walking the collected nested lists emits what walking the item's list children in place would emit |
| ListWalkFacts.WalkListTrimmed | src/html_parser.go:72-73 | every entry a list emits has non-empty trimmed text: items whose text is empty are skipped |
| ListWalkFacts.NoTextWalkList | src/html_parser.go:32-113 | a list without any text emits nothing |
| ListWalkFacts.WalkListPrintable | src/html_parser.go:91 | walked from level 0 or deeper, a list whose `aria-level`s are all at least 1 never reaches the panic of `strings.Repeat` |
| ListWalkFacts.EmptyItemWalksNested | src/html_parser.go:72-106 | an item whose trimmed text is empty emits nothing of its own and does not move the numbering on, but its nested lists are still walked one level below the item's level |
| ListWalkFacts.WalkChildrenConcat | src/html_parser.go:37-111 | walking the children `a + b` of a list emits `a`'s entries, then `b`'s; in an ordered list `b`'s numbers go on from the number of items `a` emitted at this list's level, and in a bullet list they stay put |
| ListWalkFacts.WalkChildrenSplit | src/html_parser.go:37-111 | the same split after any child `k` of a list |
| ListWalkFacts.ItemNumber | src/html_parser.go:37-100 | whatever the nesting, the item of an `li` child `k` with text comes right after everything the earlier children emit, nested and sibling lists included; in an ordered list it is numbered 1 plus the number of earlier children of the same list that emitted an item, and in a bullet list it is numbered 1 |
| ListWalkFacts.NumbersIncrease | src/html_parser.go:98-100 | of two children that emit an item, the later one has more emitted items before it, so ordered numbers strictly increase within a list |
| ListWalkFacts.FlatListNumbering | src/html_parser.go:37-100 | in a flat list, child k emits exactly one item at its own resolved level; ordered items are numbered on by one per item from `index`, bullets all keep `index` |
| ListWalkFacts.FlatItem | src/html_parser.go:44-106 | an item with text and no nested list emits exactly itself |
| Emitter.Accumulator.constructor | src/html_parser.go:28-29 | `ops` and `plainTextLines` start empty |
| Emitter.Accumulator.EmitItem | src/html_parser.go:73-101 | a non-empty item appends its two operations and its line, and `ops` and lines stay aligned |
| Emitter.Accumulator.EmitBlock | src/html_parser.go:127-131 | a text block appends its text insert, a bare newline insert and its text as a line |
| Emitter.Accumulator.ProcessList | src/html_parser.go:32-113 | `processList(list, level)` panics exactly when some item it would emit has a negative level; otherwise it appends exactly the entries of `WalkList(list, level)` |
| Emitter.Accumulator.ProcessItem | src/html_parser.go:44-106 | one `li`: its entry when its trimmed text is not empty, then its nested lists at its level plus one; the number moves on only after an emitted item of an ordered list |
| Emitter.Accumulator.ProcessNested | src/html_parser.go:104-106 | the nested lists are walked in order, each at the given level |
| Emitter.Accumulator.ItemLevel | src/html_parser.go:45-54 | the loop over the attributes computes the resolved level |
| Emitter.Accumulator.SplitItem | src/html_parser.go:57-70 | the loop over the item's children computes its text and its nested lists |
| Generator.BlockEntries | src/html_parser.go:125-131 | a block emits one entry with trimmed, printable text, or nothing exactly when its text is all white space |
| Generator.DocumentEntries | src/html_parser.go:142-151 | the fallback adds no entry that `strings.Repeat` could reject |
| Generator.Traverse | src/html_parser.go:116-139 | `traverse(n)` panics exactly when some list below `n` does; otherwise it appends exactly `Scan(n)`: lists at level 0, blocks whole, other nodes through their children in order |
| Generator.Generate | src/html_parser.go:22-157 | `Generate` returns exactly `GenerateSpec`: the parse error, the panic, or the joined lines and the operations, with the fallback when nothing was emitted |
| Generator.ScanAllConcat | src/html_parser.go:136-138 | siblings are scanned in order: scanning `a + b` emits `a`'s entries, then `b`'s |
| Generator.ScanTrimmed | src/html_parser.go:117-139 | every entry `traverse` emits has non-empty trimmed text |
| Generator.OpsShape | src/html_parser.go:142-156 | the result has two operations per entry: a trimmed text insert, which `strings.TrimSpace` leaves unchanged, without attributes, then a newline insert; the newline has attributes exactly for list items |
| Generator.LineHasNoNewline | src/html_parser.go:91-96 | an entry's line holds a newline only if its text does |
| Generator.PlainTextLines | src/html_parser.go:153-156 | `len(ops) == 2 * len(plainTextLines)`; nothing emitted gives an empty plain text and no operations; otherwise, when no text holds a newline of its own, the plain text splits back into exactly the lines |
| Generator.FallbackBlock | src/html_parser.go:142-151 | when `traverse` emits nothing, the result is the whole document's trimmed text as one bare block, or empty when that text is empty |
| Generator.EmptyDocument | src/html_parser.go:140-156 | a document without any text gives no operations and an empty plain text |
| Generator.ScanPrintable | src/html_parser.go:117-139 | without an `aria-level` of 0 or less, nothing `traverse` emits makes `strings.Repeat` panic |
| Generator.NoPanic | src/html_parser.go:91 | without an `aria-level` of 0 or less anywhere, `Generate` never reaches the panic of `strings.Repeat` on a negative count and has a result; a level so large that the indentation overflows or exhausts memory is not modelled (see "Left out") |
| LegacyGenerator.TopLists | html_parser.go:118-129 | the lists that are not inside another list, in document order, are all lists |
| LegacyGenerator.FindFirstIsFirstList | html_parser.go:118-129 | `findList` keeps a list already found, and otherwise finds the first top-level list in document order |
| LegacyGenerator.ListFinder.constructor | html_parser.go:116 | `firstList` starts as nil |
| LegacyGenerator.ListFinder.FindList | html_parser.go:118-129 | `findList(n)` leaves in `firstList` what `FindFirst` gives: it stops as soon as a list is found |
| LegacyGenerator.GenerateLegacy | html_parser.go:22-149 | the older `Generate` returns exactly `GenerateLegacySpec`: the parse error, the panic, or the first list's rendering, with the fallback only when there is no list |
| LegacyGenerator.LegacyDispatch | html_parser.go:130-143 | only the first top-level list is walked, at level 0; the whole-document text is used exactly when the document holds no list |
| LegacyGenerator.EmptyFirstList | html_parser.go:132-133 | when the first list has no text, the result is empty, however much text the rest of the document holds |
| LegacyGenerator.LegacyFallbackBlock | html_parser.go:134-143 | without a list, the result is the whole document's trimmed text as one bare block, or empty when that text is empty |
| LegacyGenerator.LegacyEmptyDocument | html_parser.go:130-148 | a document without any text gives no operations and an empty plain text |
| LegacyGenerator.ScanWalksTopLists | src/html_parser.go:117-139 | without blocks outside lists, the live `traverse` walks every top-level list, in order, at level 0 |
| LegacyGenerator.AgreesOnSingleList | html_parser.go:130-148 | on a document whose only content is one list that emits something, the two generators give the same result |
| Utf16.EncodeRune | src/pickle_writer.go:24 | a value below U+10000 is one code unit outside the surrogate range; a supplementary value is a high surrogate followed by a low surrogate |
| Utf16.Encode | src/pickle_writer.go:23-24 | a string encodes to between one and two code units per character |
| Utf16.DecodeEncode | src/pickle_writer.go:23-24 | RFC 2781 decoding of the encoding gives the string back |
| Utf16.BmpLength | src/pickle_writer.go:26-27 | without supplementary values the count is the number of characters |
| Utf16.SupplementaryLength | src/pickle_writer.go:26-27 | a supplementary value makes the count exceed the number of characters |
| Pickle.LE32 | src/pickle_writer.go:17-19 | a `uint32` is written as four bytes |
| Pickle.ReadLE32LE32 | src/pickle_writer.go:17-19 | reading the four little-endian bytes gives the value back |
| Pickle.LE32ReadLE32 | src/pickle_writer.go:17-19 | every four bytes are the little-endian encoding of the value they hold |
| Pickle.LE16 | src/pickle_writer.go:31-33 | a code unit is written as two bytes |
| Pickle.ReadLE16 | src/pickle_writer.go:31-33 | the low byte comes first, and the two bytes give the code unit back |
| Pickle.UnitBytes | src/pickle_writer.go:31-33 | the code units take two bytes each |
| Pickle.ReadUnitsUnitBytes | src/pickle_writer.go:31-33 | reading the written byte pairs gives the code units back, in order |
| Pickle.ZerosAreZero | src/pickle_writer.go:39-41 | the padding bytes are all zero |
| Pickle.PaddingOfDouble | src/pickle_writer.go:37-38 | `(4 - (2n mod 4)) mod 4` is 2 for an odd count and 0 for an even one |
| Pickle.WrapKeepsPadding | src/pickle_writer.go:27 | wrapping the count to `uint32` does not change the padding |
| Pickle.PaddingFormula | src/pickle_writer.go:37-38 | the padding computed from the wrapped count and the wrapped `charCount * 2` is the padding of the true count |
| Pickle.PaddingAligns | src/pickle_writer.go:37-41 | the code units and the padding fill whole four-byte words |
| Pickle.String16 | src/pickle_writer.go:21-42 | a string takes `4 + 2n + padding` bytes for n code units |
| Pickle.String16Words | src/pickle_writer.go:21-42 | what `WriteString16` appends is a multiple of four bytes, at most six bytes beyond the code units |
| Pickle.String16Size | src/pickle_writer.go:21-42 | what `WriteString16` appends is one word for the count plus the code units two to a word |
| Pickle.String16Layout | src/pickle_writer.go:21-42 | bytes 0-3 are the wrapped count, the code units follow, and every byte after them is zero |
| Pickle.String16Aligned | src/pickle_writer.go:21-42 | a buffer that is a multiple of four bytes stays one after `WriteString16` |
| Pickle.ReadUInt32LE32 | src/pickle_writer.go:17-19 | reading what `WriteUInt32(v)` appended gives `v` and leaves what follows |
| Pickle.ReadString16String16 | src/pickle_writer.go:21-42 | reading what `WriteString16(s)` appended gives `s`, for fewer than 2^32 code units, and leaves what follows the padding |
| Pickle.UnitsDecode | src/pickle_writer.go:23-33 | the written bytes of the code units of `s` decode to `s` |
| Pickle.PickleWriter.constructor | src/pickle_writer.go:13-15 | a new writer has an empty buffer |
| Pickle.PickleWriter.WriteUInt32 | src/pickle_writer.go:17-19 | appends exactly the four little-endian bytes of the value; the earlier contents stay unchanged |
| Pickle.PickleWriter.WriteString16 | src/pickle_writer.go:21-42 | appends exactly `String16(s)`: the wrapped count, the code units in order, then the padding; the earlier contents stay unchanged |
| Pickle.PickleWriter.GetPayload | src/pickle_writer.go:44-46 | the payload is everything written so far, in order |
| Pickle.EmptyString16 | pickle_writer_test.go:33-38 | the empty string is written as four zero bytes |
| Pickle.BmpString16 | pickle_writer_test.go:39-56 | without supplementary values the count is the number of characters, and the string takes `4 + 2n + padding` bytes |
| Pickle.KeyValLength | pickle_writer_test.go:92-113 | the count 2, then `"key"` and `"val"`, take 28 bytes |
| ChromiumData.KeysFit | main.go:88-92 | both keys are short enough that their counts never wrap |
| ChromiumData.PutUint32 | main.go:101 | the first four bytes become the little-endian value, and nothing else changes |
| ChromiumData.LengthPrefixed | main.go:100-102 | the result is the payload's wrapped length as four bytes, then the payload byte for byte |
| ChromiumData.CreateChromiumData | main.go:81-105 | the result is the length, then a pickle of the count 2, the plain-text key, the plain text, the texty key and the JSON text |
| ChromiumData.ReadEntryWritten | main.go:88-95 | a written key/value pair reads back under its key |
| ChromiumData.TwoEntriesRead | main.go:85-95 | a pickle of the count 2 and two entries reads back as the two values |
| ChromiumData.TwoEntriesSize | main.go:97-101 | the pickle of two fitting entries is shorter than 2^32 bytes, so its length does not wrap |
| ChromiumData.FramedRead | main.go:100-102 | a pickle shorter than 2^32 bytes reads back from behind its length |
| ChromiumData.TwoEntriesRoundTrip | main.go:85-102 | framing a pickle of two fitting entries and reading it back gives the two values |
| ChromiumData.ParseChromiumDataRoundTrip | main.go:81-105 | reading the clipboard data back gives the plain text and the JSON text that were written |
| ChromiumData.TwoEntriesStart | main.go:85 | the pickle starts with the count 2 as a little-endian `uint32` |
| ChromiumData.TwoEntriesLength | main.go:85-97 | the pickle is a whole number of four-byte words |
| ChromiumData.TwoEntriesWords | main.go:85-97 | the pickle's length is a multiple of 4 |
| ChromiumData.FramedLayout | main.go:97-102 | the framed pickle is four bytes longer than the pickle, and both are multiples of 4 |
| ChromiumData.Layout | main.go:85-102 | the payload starts with the count 2; the payload and the whole result are multiples of 4 bytes; the result is `4 + len(payload)` bytes |

## Left out

- `html.Parse` is an external parser. Both generators take what it returns
  as an input:
  - a tree of `Markup.Node`;
  - or a failure that carries an opaque message.
- The cgo and Objective-C pasteboard functions and their Go wrappers are
  operating-system I/O.
- `main`'s flag parsing, debug printing and mode selection are
  command-line plumbing.
- `json.Marshal` is left out, and so is its key order. `createChromiumData`
  takes the JSON text as a string. The operations stay a sequence of `Op`
  values rather than being serialised.
- The Go map and `interface{}` form of the operations is replaced by the
  datatypes `Delta.Op` and `Delta.Attributes`.
- `[]rune(s)` replaces invalid UTF-8 with U+FFFD. The model takes strings
  as sequences of Unicode scalar values, which a Dafny `char` already is.
- `unicode.IsSpace` is the fixed set of White_Space characters in
  `GoStrings.WhiteSpace`. No Unicode tables are modelled beyond it.
- ListWalk.ResolveLevel: uses unbounded integers for `val - 1` and
  `currentLevel + 1`. In Go, an `aria-level` of -9223372036854775808 wraps
  `val - 1` to the largest `int`. The model instead reports the panic as a
  negative count, while Go panics in `strings.Repeat` on the huge count.
  Both fail, but for different reasons.
- Generator.NoPanic: states only the absence of the negative-count panic.
  The panic of `strings.Repeat` on a result too long for an `int`, and
  running out of memory, remain possible in Go for a huge `aria-level`.
- Emitter.Accumulator.EmitItem: does not model the panic of
  `strings.Repeat` when the result would exceed the largest `int` length,
  nor running out of memory on a huge level.
- Pickle.ReadString16String16: the reading direction is stated only for
  strings of fewer than 2^32 code units. Beyond that, the count in the
  header wraps, and the bytes no longer determine the string. The writer
  itself is modelled for every length, wrap included.
- ChromiumData.ParseChromiumDataRoundTrip: stated only for texts of fewer
  than 2^28 code units each. That bound keeps the pickle's length below
  2^32, so the length prefix does not wrap.
- The readers (`Pickle.ReadString16`, `ChromiumData.ParseChromiumData`)
  skip the padding bytes without checking that they are zero. The writer's
  zero padding is stated separately, in `Pickle.String16Layout`.
