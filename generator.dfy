/**
 * `SlackListGenerator.Generate` of the `src` package: `traverse` walks the
 * parsed document in document order, hands every list to the list walker
 * at level 0 and emits paragraph-like blocks whole; when nothing was
 * emitted, the whole document's text becomes one block. The plain text is
 * the lines joined by newlines.
 */
module Generator {
  import opened Wrappers
  import opened GoStrings
  import opened Markup
  import opened Delta
  import opened ListWalk
  import opened ListWalkFacts
  import opened Emitter

  /** `GenerateResult`: the plain text, and the `ops` of the texty JSON. */
  datatype GenerateResult = GenerateResult(plainText: string, ops: seq<Op>)

  /**
   * Why `Generate` has no result: the parser's error, or the panic of
   * `strings.Repeat` on the negative indentation count of an item whose
   * `aria-level` is 0 or less.
   */
  datatype GenError = ParseError(message: string) | NegativeRepeatCount

  /** The entries of a text block: its trimmed text as one block, or nothing when that is empty. */
  function BlockEntries(text: string): (es: seq<Entry>)
    ensures |es| <= 1 && AllPrintable(es) && AllTrimmed(es)
    ensures es == [] <==> Blank(text)
  {
    TrimSpaceTrims(text);
    var t := TrimSpace(text);
    if t != "" then [Block(t)] else []
  }

  /**
   * What `traverse(n)` emits, in document order: a `ul`/`ol` is walked at
   * level 0 and not descended into; a `p`, `h1`-`h6`, `blockquote` or
   * `pre` is emitted whole and not descended into; any other node hands on
   * to its children, in order.
   */
  function Scan(n: Node): seq<Entry>
    decreases n
  {
    match n
    case Element(tag, _, kids) =>
      if IsListTag(tag) then WalkList(n, 0)
      else if IsBlockTag(tag) then BlockEntries(ExtractText(n))
      else ScanAll(kids)
    case Text(_) => []
    case Other(kids) => ScanAll(kids)
  }

  function ScanAll(kids: seq<Node>): seq<Entry>
    decreases kids
  {
    if kids == [] then [] else Scan(kids[0]) + ScanAll(kids[1..])
  }

  /** Everything `Generate` emits: what `traverse` found, or else the fallback block. */
  function DocumentEntries(doc: Node): (es: seq<Entry>)
    ensures AllPrintable(Scan(doc)) ==> AllPrintable(es)
  {
    var scanned := Scan(doc);
    if scanned == [] then BlockEntries(ExtractText(doc)) else scanned
  }

  /** The result for a sequence of emitted entries: the joined lines and the operations. */
  function Render(es: seq<Entry>): GenerateResult
    requires AllPrintable(es)
  {
    GenerateResult(Join(LinesOf(es), "\n"), OpsOf(es))
  }

  /** `Generate(htmlContent)`, given what the parser made of `htmlContent`. */
  function GenerateSpec(parsed: Result<Node, string>): Result<GenerateResult, GenError>
  {
    match parsed
    case Failure(message) => Failure(ParseError(message))
    case Success(doc) =>
      if !AllPrintable(Scan(doc)) then Failure(NegativeRepeatCount)
      else Success(Render(DocumentEntries(doc)))
  }

  /** `traverse(n)`, appending to the shared slices; `ok` is false when a list walk panicked. */
  method Traverse(acc: Accumulator, n: Node) returns (ok: bool)
    requires acc.Valid()
    modifies acc
    decreases n
    ensures acc.Valid()
    ensures ok <==> AllPrintable(Scan(n))
    ensures ok ==> acc.entries == old(acc.entries) + Scan(n)
  {
    if n.Element? {
      if n.tag == "ul" || n.tag == "ol" {
        ok := acc.ProcessList(n, 0);
        return;
      }
      var isHeader := |n.tag| == 2 && n.tag[0] == 'h' && '1' <= n.tag[1] <= '6';
      if n.tag == "p" || isHeader || n.tag == "blockquote" || n.tag == "pre" {
        var text := ExtractText(n);
        text := TrimSpace(text);
        if text != "" {
          acc.EmitBlock(text);
        }
        return true;
      }
    }
    var kids := Children(n);
    ghost var total := Scan(n);
    assert total == ScanAll(kids);
    assert kids[0..] == kids;
    var i := 0;
    while i < |kids|
      invariant 0 <= i <= |kids|
      invariant acc.Valid()
      invariant old(acc.entries) + total == acc.entries + ScanAll(kids[i..])
    {
      var child := kids[i];
      ghost var before := acc.entries;
      ghost var rest := ScanAll(kids[i..]);
      assert kids[i..][1..] == kids[i + 1..];
      assert rest == Scan(child) + ScanAll(kids[i + 1..]);
      ok := Traverse(acc, child);
      if !ok {
        AllPrintableConcat(Scan(child), ScanAll(kids[i + 1..]));
        Unprintable(before, rest, old(acc.entries), total);
        return;
      }
      Regroup(old(acc.entries) + total, before, Scan(child), ScanAll(kids[i + 1..]));
      i := i + 1;
    }
    assert acc.entries == old(acc.entries) + total;
    AllPrintableConcat(old(acc.entries), total);
    ok := true;
  }

  /** `Generate`: traverse, fall back to the whole text when no operation resulted, join the lines. */
  method Generate(parsed: Result<Node, string>) returns (r: Result<GenerateResult, GenError>)
    ensures r == GenerateSpec(parsed)
  {
    if parsed.Failure? {
      return Failure(ParseError(parsed.error));
    }
    var doc := parsed.value;
    var acc := new Accumulator();
    var ok := Traverse(acc, doc);
    if !ok {
      return Failure(NegativeRepeatCount);
    }
    assert acc.entries == Scan(doc);
    if |acc.ops| == 0 {
      // fallback: the whole document as plain text
      var text := ExtractText(doc);
      text := TrimSpace(text);
      if text != "" {
        acc.EmitBlock(text);
      }
    }
    assert acc.entries == DocumentEntries(doc);
    r := Success(GenerateResult(Join(acc.lines, "\n"), acc.ops));
  }

  // ---- document order ------------------------------------------------

  /** `traverse` visits siblings in order: scanning `a + b` emits `a`'s entries, then `b`'s. */
  lemma {:induction false} ScanAllConcat(a: seq<Node>, b: seq<Node>)
    ensures ScanAll(a + b) == ScanAll(a) + ScanAll(b)
  {
    if a == [] {
      assert a + b == b;
    } else {
      assert (a + b)[1..] == a[1..] + b;
      ScanAllConcat(a[1..], b);
    }
  }

  // ---- the skip rule -------------------------------------------------

  /** Every entry `traverse` emits has non-empty, trimmed text. */
  lemma {:induction false} ScanTrimmed(n: Node)
    ensures AllTrimmed(Scan(n))
    decreases n
  {
    match n
    case Element(tag, _, kids) =>
      if IsListTag(tag) {
        WalkListTrimmed(n, 0);
      } else if !IsBlockTag(tag) {
        ScanAllTrimmed(kids);
      }
    case Text(_) =>
    case Other(kids) => ScanAllTrimmed(kids);
  }

  lemma {:induction false} ScanAllTrimmed(kids: seq<Node>)
    ensures AllTrimmed(ScanAll(kids))
    decreases kids
  {
    if kids != [] {
      ScanTrimmed(kids[0]);
      ScanAllTrimmed(kids[1..]);
      AllTrimmedConcat(Scan(kids[0]), ScanAll(kids[1..]));
    }
  }

  /**
   * Every text insert of a result is non-empty trimmed text, which
   * `strings.TrimSpace` leaves unchanged, followed by a newline insert;
   * the newline carries list attributes exactly for list items.
   */
  lemma OpsShape(doc: Node)
    requires GenerateSpec(Success(doc)).Success?
    ensures var ops := GenerateSpec(Success(doc)).value.ops;
      var es := DocumentEntries(doc);
      && |ops| == 2 * |es|
      && forall k :: 0 <= k < |es| ==>
        && Trimmed(ops[2 * k].insert) && TrimSpace(ops[2 * k].insert) == ops[2 * k].insert
        && ops[2 * k].attributes.None?
        && ops[2 * k + 1].insert == "\n"
        && (ops[2 * k + 1].attributes.Some? <==> es[k].Item?)
  {
    ScanTrimmed(doc);
    var es := DocumentEntries(doc);
    OpsLinesAligned(es);
    forall k | 0 <= k < |es| ensures TrimSpace(es[k].text) == es[k].text {
      TrimSpaceOfTrimmed(es[k].text);
    }
  }

  // ---- lines and plain text ------------------------------------------

  /** Four spaces, any number of times, hold no newline. */
  lemma {:induction false} IndentHasNoNewline(count: nat)
    ensures '\n' !in Repeat("    ", count)
  {
    if count > 0 {
      var rest := Repeat("    ", count - 1);
      IndentHasNoNewline(count - 1);
      assert Repeat("    ", count) == "    " + rest;
      assert forall ch :: ch in "    " + rest <==> ch in "    " || ch in rest;
    }
  }

  /** An entry's line holds a newline only if its text does. */
  lemma LineHasNoNewline(e: Entry)
    requires Printable(e) && '\n' !in e.text
    ensures '\n' !in EntryLine(e)
  {
    if e.Item? {
      IndentHasNoNewline(e.level);
      assert '\n' !in DecimalString(e.number);
    }
  }

  /**
   * `len(ops) == 2 * len(plainTextLines)`, and `PlainText` splits back
   * into exactly those lines when no emitted text holds a newline of its
   * own; with nothing emitted the plain text is empty.
   */
  lemma PlainTextLines(doc: Node)
    requires GenerateSpec(Success(doc)).Success?
    ensures var r := GenerateSpec(Success(doc)).value;
      var es := DocumentEntries(doc);
      && |r.ops| == 2 * |LinesOf(es)|
      && (es == [] ==> r.plainText == "" && r.ops == [])
      && (es != [] && (forall k :: 0 <= k < |es| ==> '\n' !in es[k].text) ==>
            Split(r.plainText, '\n') == LinesOf(es))
  {
    var es := DocumentEntries(doc);
    var lines := LinesOf(es);
    OpsLinesAligned(es);
    if es != [] && (forall k :: 0 <= k < |es| ==> '\n' !in es[k].text) {
      forall k | 0 <= k < |lines| ensures '\n' !in lines[k] {
        LineHasNoNewline(es[k]);
      }
      SplitJoin(lines, '\n');
    }
  }

  // ---- the fallback --------------------------------------------------

  /**
   * When `traverse` emits nothing, the result is the whole document's
   * trimmed text as one bare block, or nothing at all when that is empty.
   */
  lemma FallbackBlock(doc: Node)
    requires Scan(doc) == []
    ensures var t := TrimSpace(ExtractText(doc));
      GenerateSpec(Success(doc)) == Success(
        if t == "" then GenerateResult("", [])
        else GenerateResult(t, [Op(t, None), Op("\n", None)]))
  {
    var t := TrimSpace(ExtractText(doc));
    var es := DocumentEntries(doc);
    if t != "" {
      assert es == [Block(t)];
      assert es[..0] == [];
      assert LinesOf(es) == [t];
      assert Join(LinesOf(es), "\n") == t;
      assert OpsOf(es) == [Op(t, None), Op("\n", None)];
    }
  }

  /** A document without any text gives no operations and an empty plain text. */
  lemma EmptyDocument(doc: Node)
    requires NoText(doc)
    ensures GenerateSpec(Success(doc)) == Success(GenerateResult("", []))
  {
    NoTextScan(doc);
    NoTextExtractsBlank(doc);
    FallbackBlock(doc);
  }

  lemma {:induction false} NoTextScan(n: Node)
    requires NoText(n)
    ensures Scan(n) == []
    decreases n
  {
    match n
    case Element(tag, _, kids) =>
      if IsListTag(tag) {
        NoTextWalkList(n, 0);
      } else if IsBlockTag(tag) {
        NoTextExtractsBlank(n);
      } else {
        NoTextScanAll(kids);
      }
    case Text(_) =>
    case Other(kids) => NoTextScanAll(kids);
  }

  lemma {:induction false} NoTextScanAll(kids: seq<Node>)
    requires forall k :: 0 <= k < |kids| ==> NoText(kids[k])
    ensures ScanAll(kids) == []
    decreases kids
  {
    if kids != [] {
      NoTextScan(kids[0]);
      assert forall k :: 0 <= k < |kids[1..]| ==> kids[1..][k] == kids[k + 1];
      NoTextScanAll(kids[1..]);
    }
  }

  // ---- the panic -----------------------------------------------------

  /**
   * Without an `aria-level` of 0 or less anywhere, `Generate` does not
   * reach the panic of `strings.Repeat` on a negative count. (A huge
   * level, whose indentation would not fit in memory, is not modelled.)
   */
  lemma NoPanic(doc: Node)
    requires LevelsPositive(doc)
    ensures GenerateSpec(Success(doc)).Success?
  {
    ScanPrintable(doc);
  }

  lemma {:induction false} ScanPrintable(n: Node)
    requires LevelsPositive(n)
    ensures AllPrintable(Scan(n))
    decreases n
  {
    match n
    case Element(tag, _, kids) =>
      if IsListTag(tag) {
        WalkListPrintable(n, 0);
      } else if !IsBlockTag(tag) {
        ScanAllPrintable(kids);
      }
    case Text(_) =>
    case Other(kids) => ScanAllPrintable(kids);
  }

  lemma {:induction false} ScanAllPrintable(kids: seq<Node>)
    requires forall k :: 0 <= k < |kids| ==> LevelsPositive(kids[k])
    ensures AllPrintable(ScanAll(kids))
    decreases kids
  {
    if kids != [] {
      ScanPrintable(kids[0]);
      assert forall k :: 0 <= k < |kids[1..]| ==> kids[1..][k] == kids[k + 1];
      ScanAllPrintable(kids[1..]);
      AllPrintableConcat(Scan(kids[0]), ScanAll(kids[1..]));
    }
  }
}
