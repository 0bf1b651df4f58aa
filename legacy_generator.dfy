/**
 * The older `Generate` of the root package: instead of scanning the whole
 * document it looks for the first `ul`/`ol` in document order and walks
 * only that list, at level 0; the whole-document text is used only when
 * the document holds no list at all.
 */
module LegacyGenerator {
  import opened Wrappers
  import opened GoStrings
  import opened Markup
  import opened Delta
  import opened ListWalk
  import opened ListWalkFacts
  import opened Emitter
  import opened Generator

  /**
   * The lists that are not inside another list, in document order: the
   * lists a pre-order walk meets without descending into a list.
   */
  function TopLists(n: Node): (ls: seq<Node>)
    ensures forall k :: 0 <= k < |ls| ==> IsList(ls[k])
    decreases n
  {
    match n
    case Element(tag, _, kids) => if IsListTag(tag) then [n] else TopListsAll(kids)
    case Text(_) => []
    case Other(kids) => TopListsAll(kids)
  }

  function TopListsAll(kids: seq<Node>): (ls: seq<Node>)
    ensures forall k :: 0 <= k < |ls| ==> IsList(ls[k])
    decreases kids
  {
    if kids == [] then [] else TopLists(kids[0]) + TopListsAll(kids[1..])
  }

  /**
   * What `findList(n)` leaves in `firstList` when it held `found` before:
   * a list already found stays; otherwise `n` itself when it is a list;
   * otherwise whatever the children, visited in order, leave.
   */
  function FindFirst(n: Node, found: Option<Node>): Option<Node>
    decreases n
  {
    if found.Some? then found
    else
      match n
      case Element(tag, _, kids) => if IsListTag(tag) then Some(n) else FindFirstAll(kids, found)
      case Text(_) => found
      case Other(kids) => FindFirstAll(kids, found)
  }

  function FindFirstAll(kids: seq<Node>, found: Option<Node>): Option<Node>
    decreases kids
  {
    if kids == [] then found else FindFirstAll(kids[1..], FindFirst(kids[0], found))
  }

  /** The first of `ls`, unless something was found already. */
  function FirstOf(found: Option<Node>, ls: seq<Node>): Option<Node>
  {
    if found.Some? then found else if ls == [] then None else Some(ls[0])
  }

  /** `findList` keeps what it found and otherwise finds the first top-level list in document order. */
  lemma {:induction false} FindFirstIsFirstList(n: Node, found: Option<Node>)
    ensures FindFirst(n, found) == FirstOf(found, TopLists(n))
    decreases n
  {
    match n
    case Element(tag, _, kids) =>
      if !IsListTag(tag) { FindFirstAllIsFirstList(kids, found); }
    case Text(_) =>
    case Other(kids) => FindFirstAllIsFirstList(kids, found);
  }

  lemma {:induction false} FindFirstAllIsFirstList(kids: seq<Node>, found: Option<Node>)
    ensures FindFirstAll(kids, found) == FirstOf(found, TopListsAll(kids))
    decreases kids
  {
    if kids != [] {
      FindFirstIsFirstList(kids[0], found);
      FindFirstAllIsFirstList(kids[1..], FindFirst(kids[0], found));
    }
  }

  /** The captured `firstList` variable and the `findList` closure that writes it. */
  class ListFinder {
    var firstList: Option<Node>

    constructor ()
      ensures firstList == None
    {
      firstList := None;
    }

    /** `findList(n)`: stops at once when a list was found, else takes `n` or searches its children in order. */
    method FindList(n: Node)
      modifies this
      decreases n
      ensures firstList == FindFirst(n, old(firstList))
    {
      if firstList.Some? {
        return;
      }
      if n.Element? && (n.tag == "ul" || n.tag == "ol") {
        firstList := Some(n);
        return;
      }
      var kids := Children(n);
      assert kids[0..] == kids;
      var i := 0;
      while i < |kids|
        invariant 0 <= i <= |kids|
        invariant FindFirst(n, old(firstList)) == FindFirstAll(kids[i..], firstList)
      {
        assert kids[i..][1..] == kids[i + 1..];
        FindList(kids[i]);
        i := i + 1;
      }
    }
  }

  /** The older `Generate(htmlContent)`, given what the parser made of `htmlContent`. */
  function GenerateLegacySpec(parsed: Result<Node, string>): Result<GenerateResult, GenError>
  {
    match parsed
    case Failure(message) => Failure(ParseError(message))
    case Success(doc) =>
      match FindFirst(doc, None)
      case Some(list) =>
        if AllPrintable(WalkList(list, 0)) then Success(Render(WalkList(list, 0)))
        else Failure(NegativeRepeatCount)
      case None => Success(Render(BlockEntries(ExtractText(doc))))
  }

  method GenerateLegacy(parsed: Result<Node, string>) returns (r: Result<GenerateResult, GenError>)
    ensures r == GenerateLegacySpec(parsed)
  {
    if parsed.Failure? {
      return Failure(ParseError(parsed.error));
    }
    var doc := parsed.value;
    var acc := new Accumulator();
    var finder := new ListFinder();
    finder.FindList(doc);
    if finder.firstList.Some? {
      var ok := acc.ProcessList(finder.firstList.value, 0);
      if !ok {
        return Failure(NegativeRepeatCount);
      }
      assert acc.entries == WalkList(finder.firstList.value, 0);
    } else {
      // fallback: the whole document as plain text
      var text := ExtractText(doc);
      text := TrimSpace(text);
      if text != "" {
        acc.EmitBlock(text);
      }
      assert acc.entries == BlockEntries(ExtractText(doc));
    }
    r := Success(GenerateResult(Join(acc.lines, "\n"), acc.ops));
  }

  // ---- what the first-list dispatch means ----------------------------

  /**
   * Only the first top-level list is walked; the whole-document text is
   * used exactly when the document holds no list.
   */
  lemma LegacyDispatch(doc: Node)
    ensures GenerateLegacySpec(Success(doc)) ==
      if TopLists(doc) == [] then Success(Render(BlockEntries(ExtractText(doc))))
      else if AllPrintable(WalkList(TopLists(doc)[0], 0)) then Success(Render(WalkList(TopLists(doc)[0], 0)))
      else Failure(NegativeRepeatCount)
  {
    FindFirstIsFirstList(doc, None);
  }

  /**
   * When the first list yields no entry, the result is empty, however much
   * text the rest of the document holds: no fallback happens.
   */
  lemma EmptyFirstList(doc: Node)
    requires TopLists(doc) != [] && NoText(TopLists(doc)[0])
    ensures GenerateLegacySpec(Success(doc)) == Success(GenerateResult("", []))
  {
    LegacyDispatch(doc);
    NoTextWalkList(TopLists(doc)[0], 0);
  }

  /**
   * Without any list, the result is the whole document's trimmed text as
   * one bare block, or nothing at all when that is empty.
   */
  lemma LegacyFallbackBlock(doc: Node)
    requires TopLists(doc) == []
    ensures var t := TrimSpace(ExtractText(doc));
      GenerateLegacySpec(Success(doc)) == Success(
        if t == "" then GenerateResult("", [])
        else GenerateResult(t, [Op(t, None), Op("\n", None)]))
  {
    LegacyDispatch(doc);
    var t := TrimSpace(ExtractText(doc));
    var es := BlockEntries(ExtractText(doc));
    if t != "" {
      assert es == [Block(t)];
      assert es[..0] == [];
      assert LinesOf(es) == [t];
      assert Join(LinesOf(es), "\n") == t;
      assert OpsOf(es) == [Op(t, None), Op("\n", None)];
    }
  }

  lemma {:induction false} NoTextTopLists(n: Node)
    requires NoText(n)
    ensures forall k :: 0 <= k < |TopLists(n)| ==> NoText(TopLists(n)[k])
    decreases n
  {
    match n
    case Element(tag, _, kids) =>
      if !IsListTag(tag) { NoTextTopListsAll(kids); }
    case Text(_) =>
    case Other(kids) => NoTextTopListsAll(kids);
  }

  lemma {:induction false} NoTextTopListsAll(kids: seq<Node>)
    requires forall k :: 0 <= k < |kids| ==> NoText(kids[k])
    ensures forall k :: 0 <= k < |TopListsAll(kids)| ==> NoText(TopListsAll(kids)[k])
    decreases kids
  {
    if kids != [] {
      NoTextTopLists(kids[0]);
      assert forall k :: 0 <= k < |kids[1..]| ==> kids[1..][k] == kids[k + 1];
      NoTextTopListsAll(kids[1..]);
      var a, b := TopLists(kids[0]), TopListsAll(kids[1..]);
      forall k | 0 <= k < |a + b| ensures NoText((a + b)[k]) {
        if k < |a| { assert (a + b)[k] == a[k]; } else { assert (a + b)[k] == b[k - |a|]; }
      }
    }
  }

  /** A document without any text gives an empty result. */
  lemma LegacyEmptyDocument(doc: Node)
    requires NoText(doc)
    ensures GenerateLegacySpec(Success(doc)) == Success(GenerateResult("", []))
  {
    NoTextTopLists(doc);
    if TopLists(doc) != [] {
      EmptyFirstList(doc);
    } else {
      LegacyDispatch(doc);
      NoTextExtractsBlank(doc);
    }
  }

  // ---- agreement with the live generator -----------------------------

  /** No paragraph, heading, quote or preformatted block outside the lists. */
  predicate NoBlocks(n: Node)
    decreases n
  {
    match n
    case Element(tag, _, kids) =>
      IsListTag(tag) || (!IsBlockTag(tag) && forall k :: 0 <= k < |kids| ==> NoBlocks(kids[k]))
    case Text(_) => true
    case Other(kids) => forall k :: 0 <= k < |kids| ==> NoBlocks(kids[k])
  }

  lemma {:induction false} WalkSeqConcat(a: seq<Node>, b: seq<Node>, level: int)
    ensures WalkSeq(a + b, level) == WalkSeq(a, level) + WalkSeq(b, level)
  {
    if a == [] {
      assert a + b == b;
    } else {
      var head, rest, after := WalkList(a[0], level), WalkSeq(a[1..], level), WalkSeq(b, level);
      assert WalkSeq(a + b, level) == head + WalkSeq(a[1..] + b, level) by {
        assert (a + b)[0] == a[0] && (a + b)[1..] == a[1..] + b;
      }
      assert WalkSeq(a[1..] + b, level) == rest + after by {
        WalkSeqConcat(a[1..], b, level);
      }
      assert head + (rest + after) == (head + rest) + after;
    }
  }

  /** Without blocks outside lists, the live generator walks every top-level list, in order, at level 0. */
  lemma {:induction false} ScanWalksTopLists(n: Node)
    requires NoBlocks(n)
    ensures Scan(n) == WalkSeq(TopLists(n), 0)
    decreases n
  {
    match n
    case Element(tag, _, kids) =>
      if IsListTag(tag) {
        assert [n][1..] == [];
      } else {
        ScanAllWalksTopLists(kids);
      }
    case Text(_) =>
    case Other(kids) => ScanAllWalksTopLists(kids);
  }

  lemma {:induction false} ScanAllWalksTopLists(kids: seq<Node>)
    requires forall k :: 0 <= k < |kids| ==> NoBlocks(kids[k])
    ensures ScanAll(kids) == WalkSeq(TopListsAll(kids), 0)
    decreases kids
  {
    if kids != [] {
      ScanWalksTopLists(kids[0]);
      assert forall k :: 0 <= k < |kids[1..]| ==> kids[1..][k] == kids[k + 1];
      ScanAllWalksTopLists(kids[1..]);
      WalkSeqConcat(TopLists(kids[0]), TopListsAll(kids[1..]), 0);
    }
  }

  /**
   * The two generators agree on a document whose only content is one
   * top-level list that yields at least one entry.
   */
  lemma AgreesOnSingleList(doc: Node)
    requires NoBlocks(doc) && |TopLists(doc)| == 1 && WalkList(TopLists(doc)[0], 0) != []
    ensures GenerateLegacySpec(Success(doc)) == GenerateSpec(Success(doc))
  {
    LegacyDispatch(doc);
    ScanWalksTopLists(doc);
    var ls := TopLists(doc);
    assert ls[1..] == [];
    assert Scan(doc) == WalkList(ls[0], 0);
  }
}
