/**
 * What `processList` emits for one list node, as a function of the tree:
 * the entries in emission order. The list walker reconciles two ways of
 * nesting lists: structural (`ul`/`ol` inside an `li`, or directly inside
 * another list) and flat (`aria-level` on each item).
 */
module ListWalk {
  import opened Wrappers
  import opened GoStrings
  import opened Markup
  import opened Delta

  const AriaLevel: string := "aria-level"

  /** `ordered` for an `ol` node, `bullet` for anything else. */
  function KindOf(list: Node): ListKind
  {
    if list.Element? && list.tag == "ol" then Ordered else Bullet
  }

  /** The value of the first attribute named `key`, if there is one. */
  function FirstAttr(attrs: seq<Attr>, key: string): (r: Option<string>)
    ensures r.None? <==> forall i :: 0 <= i < |attrs| ==> attrs[i].key != key
    ensures r.Some? ==> exists i :: (0 <= i < |attrs| && attrs[i].key == key && attrs[i].val == r.value
      && forall j :: 0 <= j < i ==> attrs[j].key != key)
  {
    if attrs == [] then None
    else if attrs[0].key == key then Some(attrs[0].val)
    else
      var r := FirstAttr(attrs[1..], key);
      assert forall i :: 1 <= i < |attrs| ==> attrs[i] == attrs[1..][i - 1];
      r
  }

  /**
   * The level of a list item: `v - 1` when its first `aria-level`
   * attribute parses as the integer `v`, otherwise the positional `level`.
   */
  function ResolveLevel(attrs: seq<Attr>, level: int): int
  {
    match FirstAttr(attrs, AriaLevel)
    case Some(v) => (match Atoi(v) case Some(n) => n - 1 case None => level)
    case None => level
  }

  /** A parseable `aria-level` decides the level whatever the position. */
  lemma AriaLevelWins(attrs: seq<Attr>, level: int, v: string)
    requires FirstAttr(attrs, AriaLevel) == Some(v) && Atoi(v).Some?
    ensures ResolveLevel(attrs, level) == Atoi(v).value - 1
    ensures forall other: int :: ResolveLevel(attrs, other) == ResolveLevel(attrs, level)
  {
  }

  /** A missing or unparseable `aria-level` keeps the positional level. */
  lemma PositionalLevelKept(attrs: seq<Attr>, level: int)
    requires FirstAttr(attrs, AriaLevel).None? || Atoi(FirstAttr(attrs, AriaLevel).value).None?
    ensures ResolveLevel(attrs, level) == level
  {
  }

  /** Only the first `aria-level` is consulted: attributes after it never matter. */
  lemma {:induction false} FirstAriaLevelOnly(attrs: seq<Attr>, later: seq<Attr>, level: int)
    requires exists i :: 0 <= i < |attrs| && attrs[i].key == AriaLevel
    ensures ResolveLevel(attrs + later, level) == ResolveLevel(attrs, level)
  {
    FirstAttrPrefix(attrs, later, AriaLevel);
  }

  lemma {:induction false} FirstAttrPrefix(attrs: seq<Attr>, later: seq<Attr>, key: string)
    requires exists i :: 0 <= i < |attrs| && attrs[i].key == key
    ensures FirstAttr(attrs + later, key) == FirstAttr(attrs, key)
  {
    if attrs[0].key != key {
      assert (attrs + later)[1..] == attrs[1..] + later;
      var i :| 0 <= i < |attrs| && attrs[i].key == key;
      assert attrs[1..][i - 1].key == key;
      FirstAttrPrefix(attrs[1..], later, key);
    }
  }

  /**
   * What one child of an `li` adds to the item's text: a text node its data,
   * a non-list element its extracted text, anything else nothing.
   */
  function ItemPiece(c: Node): string
  {
    match c
    case Text(data) => data
    case Element(tag, _, _) => if IsListTag(tag) then "" else ExtractText(c)
    case Other(_) => ""
  }

  /** The untrimmed text of an item: its children's pieces, concatenated in order. */
  function ItemText(kids: seq<Node>): string
  {
    if kids == [] then "" else ItemText(kids[..|kids| - 1]) + ItemPiece(kids[|kids| - 1])
  }

  /** The `ul`/`ol` children of an item, in order: its nested lists. */
  function NestedLists(kids: seq<Node>): (r: seq<Node>)
    ensures forall k :: 0 <= k < |r| ==> IsList(r[k]) && r[k] in kids
  {
    if kids == [] then []
    else
      var last := kids[|kids| - 1];
      var r := NestedLists(kids[..|kids| - 1]) + (if IsList(last) then [last] else []);
      assert forall x :: x in kids[..|kids| - 1] ==> x in kids;
      r
  }

  lemma {:induction false} NestedListsAppend(a: seq<Node>, b: seq<Node>)
    ensures NestedLists(a + b) == NestedLists(a) + NestedLists(b)
    decreases b
  {
    if b == [] {
      assert a + b == a;
    } else {
      assert (a + b)[..|a + b| - 1] == a + b[..|b| - 1];
      NestedListsAppend(a, b[..|b| - 1]);
    }
  }

  /**
   * An item's own text is the text `extractText` reads from the item,
   * as long as no child of it is a comment or other non-element node
   * with children of its own.
   */
  lemma {:induction false} ItemTextIsExtractText(kids: seq<Node>)
    requires forall k :: 0 <= k < |kids| ==> !kids[k].Other? || kids[k].kids == []
    ensures ItemText(kids) == ConcatText(kids)
  {
    if kids != [] {
      ItemTextIsExtractText(kids[..|kids| - 1]);
      var last := kids[|kids| - 1];
      if last.Other? {
        assert ConcatText(last.kids) == "";
      }
    }
  }

  /** The entries `processList(list, level)` emits. */
  function WalkList(list: Node, level: int): seq<Entry>
    decreases list
  {
    match list
    case Element(_, _, kids) => WalkChildren(kids, KindOf(list), level, 1)
    case Other(kids) => WalkChildren(kids, KindOf(list), level, 1)
    case Text(_) => []
  }

  /**
   * The entries emitted for the children `kids` of a list of the given kind
   * at the given level, when the next ordered number is `index`:
   * - a non-element child is skipped;
   * - an `li` emits its `ItemEntries`, and the number moves on as
   *   `NextIndex` says;
   * - a `ul`/`ol` child is walked one level below the list itself;
   * - any other element is skipped.
   */
  function WalkChildren(kids: seq<Node>, kind: ListKind, level: int, index: nat): seq<Entry>
    decreases kids
  {
    if kids == [] then []
    else
      var c := kids[0];
      if c.Element? && c.tag == "li" then
        ItemEntries(c, kind, level, index) + WalkChildren(kids[1..], kind, level, NextIndex(c, kind, index))
      else if c.Element? && IsListTag(c.tag) then
        WalkList(c, level + 1) + WalkChildren(kids[1..], kind, level, index)
      else
        WalkChildren(kids[1..], kind, level, index)
  }

  /** The trimmed text of a list item. */
  function TrimmedItemText(li: Node): string
  {
    TrimSpace(ItemText(Children(li)))
  }

  /**
   * The entries of one `li` of a list of the given kind at the given level:
   * one item when its trimmed text is not empty (numbered `index`), then
   * the entries of its nested lists, one level below its own.
   */
  function ItemEntries(li: Node, kind: ListKind, level: int, index: nat): seq<Entry>
    requires li.Element?
    decreases li
  {
    var current := ResolveLevel(li.attrs, level);
    var text := TrimmedItemText(li);
    (if text != "" then [Item(text, kind, current, index)] else []) + WalkKids(li.kids, current + 1)
  }

  /** The number the next item of the list gets: it moves on only after an emitted item of an ordered list. */
  function NextIndex(li: Node, kind: ListKind, index: nat): nat
  {
    if TrimmedItemText(li) != "" && kind == Ordered then index + 1 else index
  }

  /** The entries of the nested lists among an item's children, each walked at `level`. */
  function WalkKids(kids: seq<Node>, level: int): seq<Entry>
    decreases kids
  {
    if kids == [] then []
    else (if IsList(kids[0]) then WalkList(kids[0], level) else []) + WalkKids(kids[1..], level)
  }

  /** The entries of a sequence of lists, each walked at `level`. */
  function WalkSeq(lists: seq<Node>, level: int): seq<Entry>
  {
    if lists == [] then [] else WalkList(lists[0], level) + WalkSeq(lists[1..], level)
  }

  /** Walking an item's nested lists as `processList` collects them gives the entries of `WalkKids`. */
  lemma {:induction false} WalkKidsIsWalkSeq(kids: seq<Node>, level: int)
    ensures WalkKids(kids, level) == WalkSeq(NestedLists(kids), level)
  {
    if kids != [] {
      WalkKidsIsWalkSeq(kids[1..], level);
      NestedListsAppend([kids[0]], kids[1..]);
      assert [kids[0]] + kids[1..] == kids;
      assert NestedLists([kids[0]]) == (if IsList(kids[0]) then [kids[0]] else []) by {
        assert [kids[0]][..0] == [];
      }
      var rest := NestedLists(kids[1..]);
      if IsList(kids[0]) {
        assert NestedLists(kids) == [kids[0]] + rest;
        assert ([kids[0]] + rest)[1..] == rest;
      } else {
        assert NestedLists(kids) == rest;
      }
    }
  }
}
