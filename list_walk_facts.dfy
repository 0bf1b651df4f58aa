/**
 * What the list walker promises about every entry it emits, whatever the
 * tree: the skip rule (only non-empty trimmed text is emitted), the
 * no-text rule (a tree without text emits nothing), the level rule
 * (levels never go negative unless an `aria-level` asks for it), and the
 * numbering of a flat list.
 */
module ListWalkFacts {
  import opened Wrappers
  import opened GoStrings
  import opened Markup
  import opened Delta
  import opened ListWalk

  /** Text as `strings.TrimSpace` leaves it when it is not empty. */
  predicate Trimmed(t: string) { t != [] && !IsSpace(t[0]) && !IsSpace(t[|t| - 1]) }

  predicate AllTrimmed(es: seq<Entry>) { forall k :: 0 <= k < |es| ==> Trimmed(es[k].text) }

  lemma AllTrimmedConcat(a: seq<Entry>, b: seq<Entry>)
    requires AllTrimmed(a) && AllTrimmed(b)
    ensures AllTrimmed(a + b)
  {
    forall k | 0 <= k < |a + b| ensures Trimmed((a + b)[k].text) {
      if k < |a| {
        assert (a + b)[k] == a[k];
      } else {
        assert (a + b)[k] == b[k - |a|];
      }
    }
  }

  // ---- the skip rule -------------------------------------------------

  /** Every entry a list emits has non-empty, trimmed text: empty items are skipped. */
  lemma {:induction false} WalkListTrimmed(list: Node, level: int)
    ensures AllTrimmed(WalkList(list, level))
    decreases list
  {
    match list
    case Element(_, _, kids) => WalkChildrenTrimmed(kids, KindOf(list), level, 1);
    case Other(kids) => WalkChildrenTrimmed(kids, KindOf(list), level, 1);
    case Text(_) =>
  }

  lemma {:induction false} WalkChildrenTrimmed(kids: seq<Node>, kind: ListKind, level: int, index: nat)
    ensures AllTrimmed(WalkChildren(kids, kind, level, index))
    decreases kids
  {
    if kids != [] {
      var c := kids[0];
      if c.Element? && c.tag == "li" {
        ItemEntriesTrimmed(c, kind, level, index);
        WalkChildrenTrimmed(kids[1..], kind, level, NextIndex(c, kind, index));
        AllTrimmedConcat(ItemEntries(c, kind, level, index), WalkChildren(kids[1..], kind, level, NextIndex(c, kind, index)));
      } else if c.Element? && IsListTag(c.tag) {
        WalkListTrimmed(c, level + 1);
        WalkChildrenTrimmed(kids[1..], kind, level, index);
        AllTrimmedConcat(WalkList(c, level + 1), WalkChildren(kids[1..], kind, level, index));
      } else {
        WalkChildrenTrimmed(kids[1..], kind, level, index);
      }
    }
  }

  lemma {:induction false} ItemEntriesTrimmed(li: Node, kind: ListKind, level: int, index: nat)
    requires li.Element?
    ensures AllTrimmed(ItemEntries(li, kind, level, index))
    decreases li
  {
    var current := ResolveLevel(li.attrs, level);
    var text := TrimmedItemText(li);
    TrimSpaceTrims(ItemText(li.kids));
    var own := if text != "" then [Item(text, kind, current, index)] else [];
    WalkKidsTrimmed(li.kids, current + 1);
    AllTrimmedConcat(own, WalkKids(li.kids, current + 1));
  }

  lemma {:induction false} WalkKidsTrimmed(kids: seq<Node>, level: int)
    ensures AllTrimmed(WalkKids(kids, level))
    decreases kids
  {
    if kids != [] {
      var first := if IsList(kids[0]) then WalkList(kids[0], level) else [];
      WalkListTrimmed(kids[0], level);
      WalkKidsTrimmed(kids[1..], level);
      AllTrimmedConcat(first, WalkKids(kids[1..], level));
    }
  }

  // ---- the no-text rule ----------------------------------------------

  /** The untrimmed text of an item whose children hold no text is white space only. */
  lemma {:induction false} ItemTextBlank(kids: seq<Node>)
    requires forall k :: 0 <= k < |kids| ==> NoText(kids[k])
    ensures Blank(ItemText(kids))
  {
    if kids != [] {
      var last := kids[|kids| - 1];
      ItemTextBlank(kids[..|kids| - 1]);
      if last.Element? && !IsListTag(last.tag) {
        NoTextExtractsBlank(last);
      }
      BlankConcat(ItemText(kids[..|kids| - 1]), ItemPiece(last));
    }
  }

  /** A list without text emits nothing. */
  lemma {:induction false} NoTextWalkList(list: Node, level: int)
    requires NoText(list)
    ensures WalkList(list, level) == []
    decreases list
  {
    match list
    case Element(_, _, kids) => NoTextWalkChildren(kids, KindOf(list), level, 1);
    case Other(kids) => NoTextWalkChildren(kids, KindOf(list), level, 1);
    case Text(_) =>
  }

  lemma {:induction false} NoTextWalkChildren(kids: seq<Node>, kind: ListKind, level: int, index: nat)
    requires forall k :: 0 <= k < |kids| ==> NoText(kids[k])
    ensures WalkChildren(kids, kind, level, index) == []
    decreases kids
  {
    if kids != [] {
      var c := kids[0];
      assert forall k :: 0 <= k < |kids[1..]| ==> kids[1..][k] == kids[k + 1];
      if c.Element? && c.tag == "li" {
        NoTextItemEntries(c, kind, level, index);
        NoTextWalkChildren(kids[1..], kind, level, NextIndex(c, kind, index));
      } else if c.Element? && IsListTag(c.tag) {
        NoTextWalkList(c, level + 1);
        NoTextWalkChildren(kids[1..], kind, level, index);
      } else {
        NoTextWalkChildren(kids[1..], kind, level, index);
      }
    }
  }

  lemma {:induction false} NoTextItemEntries(li: Node, kind: ListKind, level: int, index: nat)
    requires li.Element? && NoText(li)
    ensures ItemEntries(li, kind, level, index) == []
    decreases li
  {
    ItemTextBlank(li.kids);
    TrimSpaceTrims(ItemText(li.kids));
    NoTextWalkKids(li.kids, ResolveLevel(li.attrs, level) + 1);
  }

  lemma {:induction false} NoTextWalkKids(kids: seq<Node>, level: int)
    requires forall k :: 0 <= k < |kids| ==> NoText(kids[k])
    ensures WalkKids(kids, level) == []
    decreases kids
  {
    if kids != [] {
      assert forall k :: 0 <= k < |kids[1..]| ==> kids[1..][k] == kids[k + 1];
      if IsList(kids[0]) {
        NoTextWalkList(kids[0], level);
      }
      NoTextWalkKids(kids[1..], level);
    }
  }

  // ---- the level rule ------------------------------------------------

  /** An item's `aria-level`, when it parses, is at least 1. */
  predicate AriaLevelPositive(attrs: seq<Attr>)
  {
    match FirstAttr(attrs, AriaLevel)
    case None => true
    case Some(v) => Atoi(v).None? || Atoi(v).value >= 1
  }

  /** No element of the tree carries an `aria-level` that parses to 0 or less. */
  predicate LevelsPositive(n: Node)
    decreases n
  {
    match n
    case Text(_) => true
    case Element(_, attrs, kids) => AriaLevelPositive(attrs) && forall k :: 0 <= k < |kids| ==> LevelsPositive(kids[k])
    case Other(kids) => forall k :: 0 <= k < |kids| ==> LevelsPositive(kids[k])
  }

  /**
   * Walked from a non-negative level, a list whose `aria-level`s are all
   * at least 1 never reaches the panic of `strings.Repeat`.
   */
  lemma {:induction false} WalkListPrintable(list: Node, level: int)
    requires level >= 0 && LevelsPositive(list)
    ensures AllPrintable(WalkList(list, level))
    decreases list
  {
    match list
    case Element(_, _, kids) => WalkChildrenPrintable(kids, KindOf(list), level, 1);
    case Other(kids) => WalkChildrenPrintable(kids, KindOf(list), level, 1);
    case Text(_) =>
  }

  lemma {:induction false} WalkChildrenPrintable(kids: seq<Node>, kind: ListKind, level: int, index: nat)
    requires level >= 0 && forall k :: 0 <= k < |kids| ==> LevelsPositive(kids[k])
    ensures AllPrintable(WalkChildren(kids, kind, level, index))
    decreases kids
  {
    if kids != [] {
      var c := kids[0];
      assert forall k :: 0 <= k < |kids[1..]| ==> kids[1..][k] == kids[k + 1];
      if c.Element? && c.tag == "li" {
        ItemEntriesPrintable(c, kind, level, index);
        WalkChildrenPrintable(kids[1..], kind, level, NextIndex(c, kind, index));
        AllPrintableConcat(ItemEntries(c, kind, level, index), WalkChildren(kids[1..], kind, level, NextIndex(c, kind, index)));
      } else if c.Element? && IsListTag(c.tag) {
        WalkListPrintable(c, level + 1);
        WalkChildrenPrintable(kids[1..], kind, level, index);
        AllPrintableConcat(WalkList(c, level + 1), WalkChildren(kids[1..], kind, level, index));
      } else {
        WalkChildrenPrintable(kids[1..], kind, level, index);
      }
    }
  }

  lemma {:induction false} ItemEntriesPrintable(li: Node, kind: ListKind, level: int, index: nat)
    requires li.Element? && level >= 0 && LevelsPositive(li)
    ensures AllPrintable(ItemEntries(li, kind, level, index))
    decreases li
  {
    var current := ResolveLevel(li.attrs, level);
    ResolvedLevelNonNegative(li.attrs, level);
    var own := OwnEntries(li, kind, level, index);
    WalkKidsPrintable(li.kids, current + 1);
    AllPrintableConcat(own, WalkKids(li.kids, current + 1));
  }

  /** From a non-negative level, an `aria-level` of at least 1 resolves to a non-negative level. */
  lemma ResolvedLevelNonNegative(attrs: seq<Attr>, level: int)
    requires level >= 0 && AriaLevelPositive(attrs)
    ensures ResolveLevel(attrs, level) >= 0
  {
  }

  /** An item's own entries, before those of its nested lists: printable when its level is not negative. */
  lemma OwnEntries(li: Node, kind: ListKind, level: int, index: nat) returns (own: seq<Entry>)
    requires li.Element?
    ensures ItemEntries(li, kind, level, index) == own + WalkKids(li.kids, ResolveLevel(li.attrs, level) + 1)
    ensures ResolveLevel(li.attrs, level) >= 0 ==> AllPrintable(own)
  {
    var text := TrimmedItemText(li);
    own := if text != "" then [Item(text, kind, ResolveLevel(li.attrs, level), index)] else [];
  }

  lemma {:induction false} WalkKidsPrintable(kids: seq<Node>, level: int)
    requires level >= 0 && forall k :: 0 <= k < |kids| ==> LevelsPositive(kids[k])
    ensures AllPrintable(WalkKids(kids, level))
    decreases kids
  {
    if kids != [] {
      assert forall k :: 0 <= k < |kids[1..]| ==> kids[1..][k] == kids[k + 1];
      var first := if IsList(kids[0]) then WalkList(kids[0], level) else [];
      if IsList(kids[0]) {
        WalkListPrintable(kids[0], level);
      }
      WalkKidsPrintable(kids[1..], level);
      AllPrintableConcat(first, WalkKids(kids[1..], level));
    }
  }

  // ---- items and numbering -------------------------------------------

  /**
   * An item whose trimmed text is empty emits nothing of its own and does
   * not move the numbering on, but its nested lists are still walked, one
   * level below the item's resolved level.
   */
  lemma EmptyItemWalksNested(li: Node, kind: ListKind, level: int, index: nat)
    requires li.Element? && TrimmedItemText(li) == ""
    ensures ItemEntries(li, kind, level, index) == WalkSeq(NestedLists(li.kids), ResolveLevel(li.attrs, level) + 1)
    ensures NextIndex(li, kind, index) == index
  {
    var current := ResolveLevel(li.attrs, level);
    assert Children(li) == li.kids;
    var rest := WalkKids(li.kids, current + 1);
    assert ItemEntries(li, kind, level, index) == [] + rest;
    assert [] + rest == rest;
    WalkKidsIsWalkSeq(li.kids, current + 1);
  }

  /** An `li` child that emits an item of its own: its trimmed text is not empty. */
  predicate EmitsItem(c: Node)
  {
    c.Element? && c.tag == "li" && TrimmedItemText(c) != ""
  }

  /** How many children of a list emit an item of their own; items of nested lists are not counted. */
  function Emitted(kids: seq<Node>): nat
  {
    if kids == [] then 0 else (if EmitsItem(kids[0]) then 1 else 0) + Emitted(kids[1..])
  }

  /** The number that follows `count` emitted items numbered on from `index`: only an ordered list counts. */
  function NumberAfter(kind: ListKind, index: nat, count: nat): nat
  {
    if kind == Ordered then index + count else index
  }

  /** What one child of a list emits: an `li` its entries, a `ul`/`ol` its walk one level down, anything else nothing. */
  function ChildEntries(c: Node, kind: ListKind, level: int, index: nat): seq<Entry>
  {
    if c.Element? && c.tag == "li" then ItemEntries(c, kind, level, index)
    else if c.Element? && IsListTag(c.tag) then WalkList(c, level + 1)
    else []
  }

  /** The number after one child of a list: only an `li` can move it on. */
  function AfterChild(c: Node, kind: ListKind, index: nat): nat
  {
    if c.Element? && c.tag == "li" then NextIndex(c, kind, index) else index
  }

  lemma WalkChildrenHead(kids: seq<Node>, kind: ListKind, level: int, index: nat)
    requires kids != []
    ensures WalkChildren(kids, kind, level, index)
      == ChildEntries(kids[0], kind, level, index) + WalkChildren(kids[1..], kind, level, AfterChild(kids[0], kind, index))
  {
  }

  lemma AfterChildNumber(c: Node, rest: seq<Node>, kind: ListKind, index: nat)
    ensures NumberAfter(kind, AfterChild(c, kind, index), Emitted(rest)) == NumberAfter(kind, index, Emitted([c] + rest))
  {
    assert ([c] + rest)[0] == c && ([c] + rest)[1..] == rest;
  }

  /**
   * Walking the children `a + b` of a list: the entries of `a`, then those
   * of `b`, numbered on by the items `a` emitted.
   */
  lemma {:induction false} WalkChildrenConcat(a: seq<Node>, b: seq<Node>, kind: ListKind, level: int, index: nat)
    ensures WalkChildren(a + b, kind, level, index)
      == WalkChildren(a, kind, level, index) + WalkChildren(b, kind, level, NumberAfter(kind, index, Emitted(a)))
    decreases a
  {
    if a == [] {
      assert a + b == b;
    } else {
      var c, tail := a[0], a[1..];
      var next := AfterChild(c, kind, index);
      var head := ChildEntries(c, kind, level, index);
      var rest := WalkChildren(tail, kind, level, next);
      var after := WalkChildren(b, kind, level, NumberAfter(kind, index, Emitted(a)));
      assert WalkChildren(a + b, kind, level, index) == head + WalkChildren(tail + b, kind, level, next) by {
        assert (a + b)[0] == c && (a + b)[1..] == tail + b;
        WalkChildrenHead(a + b, kind, level, index);
      }
      assert WalkChildren(tail + b, kind, level, next) == rest + after by {
        WalkChildrenConcat(tail, b, kind, level, next);
        assert a == [c] + tail;
        AfterChildNumber(c, tail, kind, index);
      }
      assert WalkChildren(a, kind, level, index) == head + rest by {
        WalkChildrenHead(a, kind, level, index);
      }
      assert head + (rest + after) == (head + rest) + after;
    }
  }

  /** Walking the children of a list split after the first `k`. */
  lemma WalkChildrenSplit(kids: seq<Node>, kind: ListKind, level: int, index: nat, k: nat)
    requires k <= |kids|
    ensures WalkChildren(kids, kind, level, index)
      == WalkChildren(kids[..k], kind, level, index)
        + WalkChildren(kids[k..], kind, level, NumberAfter(kind, index, Emitted(kids[..k])))
  {
    assert kids == kids[..k] + kids[k..];
    WalkChildrenConcat(kids[..k], kids[k..], kind, level, index);
  }

  /**
   * The numbering of a list, whatever its nesting: the item of child `k`
   * comes right after everything the children before it emit (their
   * nested and sibling lists included), and it is numbered 1 plus the
   * number of items the list itself emitted before it when the list is
   * ordered, and 1 when it is a bullet list.
   */
  lemma ItemNumber(list: Node, level: int, k: nat)
    requires list.Element? && k < |list.kids| && EmitsItem(list.kids[k])
    ensures var kids, kind := list.kids, KindOf(list);
      var before := WalkChildren(kids[..k], kind, level, 1);
      && |before| < |WalkList(list, level)|
      && WalkList(list, level)[|before|]
        == Item(TrimmedItemText(kids[k]), kind, ResolveLevel(kids[k].attrs, level), NumberAfter(kind, 1, Emitted(kids[..k])))
  {
    var kids, kind := list.kids, KindOf(list);
    var n := NumberAfter(kind, 1, Emitted(kids[..k]));
    var c := kids[k];
    WalkChildrenSplit(kids, kind, level, 1, k);
    assert kids[k..][0] == c && kids[k..][1..] == kids[k + 1..];
    var own := ItemEntries(c, kind, level, n);
    assert own[0] == Item(TrimmedItemText(c), kind, ResolveLevel(c.attrs, level), n);
    assert WalkChildren(kids[k..], kind, level, n) == own + WalkChildren(kids[k + 1..], kind, level, NextIndex(c, kind, n));
  }

  lemma {:induction false} EmittedConcat(a: seq<Node>, b: seq<Node>)
    ensures Emitted(a + b) == Emitted(a) + Emitted(b)
  {
    if a == [] {
      assert a + b == b;
    } else {
      assert (a + b)[1..] == a[1..] + b;
      EmittedConcat(a[1..], b);
    }
  }

  /** Of two children that emit an item, the later one has more emitted items before it: ordered numbers strictly increase. */
  lemma NumbersIncrease(kids: seq<Node>, j: nat, k: nat)
    requires j < k <= |kids| && EmitsItem(kids[j])
    ensures Emitted(kids[..j]) < Emitted(kids[..k])
  {
    var a, b := kids[..j], kids[j..k];
    assert kids[..k] == a + b;
    EmittedConcat(a, b);
    assert b[0] == kids[j];
  }

  /** An `li` with text of its own and no nested list. */
  predicate FlatItemNode(c: Node)
  {
    c.Element? && c.tag == "li" && TrimmedItemText(c) != "" && NestedLists(c.kids) == []
  }

  /**
   * A flat list, every child an `li` with text and no nested list: one
   * item per child, in order, each at its own resolved level; ordered
   * items are numbered on from `index` and bullets all keep it.
   */
  lemma FlatListNumbering(kids: seq<Node>, kind: ListKind, level: int, index: nat)
    requires forall k :: 0 <= k < |kids| ==> FlatItemNode(kids[k])
    ensures |WalkChildren(kids, kind, level, index)| == |kids|
    ensures forall k :: 0 <= k < |kids| ==>
      WalkChildren(kids, kind, level, index)[k]
        == Item(TrimmedItemText(kids[k]), kind, ResolveLevel(AttrsOf(kids[k]), level), if kind == Ordered then index + k else index)
  {
    AllFlatOf(kids);
    WalkFlatList(kids, kind, level, index);
    var entry := FlatEntryOf(kind, level);
    if kids != [] {
      NumberedAt(kids, entry, index, kind == Ordered, 0);
    }
    forall k | 0 <= k < |kids|
      ensures Numbered(kids, entry, index, kind == Ordered)[k]
        == Item(TrimmedItemText(kids[k]), kind, ResolveLevel(AttrsOf(kids[k]), level), if kind == Ordered then index + k else index)
    {
      NumberedAt(kids, entry, index, kind == Ordered, k);
    }
  }

  /** Every node of `kids` is a flat item, stated one node at a time. */
  predicate AllFlat(kids: seq<Node>)
  {
    kids != [] ==> FlatItemNode(kids[0]) && AllFlat(kids[1..])
  }

  lemma {:induction false} AllFlatOf(kids: seq<Node>)
    requires forall k :: 0 <= k < |kids| ==> FlatItemNode(kids[k])
    ensures AllFlat(kids)
  {
    if kids != [] {
      assert forall k :: 0 <= k < |kids[1..]| ==> kids[1..][k] == kids[k + 1];
      AllFlatOf(kids[1..]);
    }
  }

  /** The item a flat `li` emits when numbered `number`. */
  function FlatEntry(c: Node, kind: ListKind, level: int, number: nat): Entry
  {
    Item(TrimmedItemText(c), kind, ResolveLevel(AttrsOf(c), level), number)
  }

  function FlatEntryOf(kind: ListKind, level: int): (Node, nat) -> Entry
  {
    (c: Node, number: nat) => FlatEntry(c, kind, level, number)
  }

  /**
   * One entry per node, numbered on from `index`: the number moves on by
   * one per node when `counting`, and stays at `index` otherwise.
   */
  function Numbered(kids: seq<Node>, entry: (Node, nat) -> Entry, index: nat, counting: bool): seq<Entry>
  {
    if kids == [] then []
    else [entry(kids[0], index)] + Numbered(kids[1..], entry, if counting then index + 1 else index, counting)
  }

  lemma {:induction false} WalkFlatList(kids: seq<Node>, kind: ListKind, level: int, index: nat)
    requires AllFlat(kids)
    ensures WalkChildren(kids, kind, level, index) == Numbered(kids, FlatEntryOf(kind, level), index, kind == Ordered)
  {
    if kids != [] {
      FlatHead(kids, kind, level, index);
      WalkFlatList(kids[1..], kind, level, if kind == Ordered then index + 1 else index);
    }
  }

  lemma {:induction false} NumberedAt(kids: seq<Node>, entry: (Node, nat) -> Entry, index: nat, counting: bool, k: nat)
    requires k < |kids|
    ensures |Numbered(kids, entry, index, counting)| == |kids|
    ensures Numbered(kids, entry, index, counting)[k] == entry(kids[k], if counting then index + k else index)
  {
    var next := if counting then index + 1 else index;
    if k > 0 {
      NumberedAt(kids[1..], entry, next, counting, k - 1);
      assert kids[1..][k - 1] == kids[k];
    } else if |kids| > 1 {
      NumberedAt(kids[1..], entry, next, counting, 0);
    }
  }

  /** The first child of a flat list emits its item and moves the number on. */
  lemma FlatHead(kids: seq<Node>, kind: ListKind, level: int, index: nat)
    requires kids != [] && FlatItemNode(kids[0])
    ensures WalkChildren(kids, kind, level, index)
      == [FlatEntryOf(kind, level)(kids[0], index)]
        + WalkChildren(kids[1..], kind, level, if kind == Ordered then index + 1 else index)
  {
    FlatItem(kids[0], kind, level, index);
  }

  /** An item with text and no nested list emits exactly itself. */
  lemma FlatItem(li: Node, kind: ListKind, level: int, index: nat)
    requires FlatItemNode(li)
    ensures ItemEntries(li, kind, level, index) == [FlatEntry(li, kind, level, index)]
  {
    var current := ResolveLevel(li.attrs, level);
    WalkKidsIsWalkSeq(li.kids, current + 1);
    assert WalkKids(li.kids, current + 1) == [];
  }
}
