/**
 * The state `Generate`'s closures share: the `ops` and `plainTextLines`
 * slices they append to, and `processList`, the list walker, which both
 * versions of the generator use.
 */
module Emitter {
  import opened Wrappers
  import opened GoStrings
  import opened Markup
  import opened Delta
  import opened ListWalk

  /**
   * `ops` and `lines` are the two slices; `entries` records, as a ghost,
   * the entries appended so far, from which both slices are determined.
   */
  class Accumulator {
    var ops: seq<Op>
    var lines: seq<string>
    ghost var entries: seq<Entry>

    ghost predicate Valid()
      reads this
    {
      && AllPrintable(entries)
      && ops == OpsOf(entries)
      && lines == LinesOf(entries)
    }

    constructor ()
      ensures Valid() && entries == [] && ops == [] && lines == []
    {
      ops, lines, entries := [], [], [];
    }

    /**
     * Appends the two operations and the line of a non-empty list item:
     * the text insert, the newline with `list` and (for a positive level)
     * `indent`, and the indented, marked line.
     */
    method EmitItem(itemText: string, listType: ListKind, currentLevel: nat, index: nat)
      requires Valid()
      modifies this
      ensures Valid() && entries == old(entries) + [Item(itemText, listType, currentLevel, index)]
    {
      var attrs := Attributes(listType, if currentLevel > 0 then Some(currentLevel as int) else None);
      ops := ops + [Op(itemText, None), Op("\n", Some(attrs))];
      var indentStr := Repeat("    ", currentLevel);
      var prefix := "- ";
      if listType == Ordered {
        prefix := DecimalString(index) + ". ";
      }
      lines := lines + [indentStr + prefix + itemText];
      OpsOfSnoc(entries, Item(itemText, listType, currentLevel, index));
      LinesOfSnoc(entries, Item(itemText, listType, currentLevel, index));
      entries := entries + [Item(itemText, listType, currentLevel, index)];
    }

    /** Appends a text block: its text insert, a bare newline insert, and the text as a line. */
    method EmitBlock(text: string)
      requires Valid()
      modifies this
      ensures Valid() && entries == old(entries) + [Block(text)]
    {
      ops := ops + [Op(text, None), Op("\n", None)];
      lines := lines + [text];
      OpsOfSnoc(entries, Block(text));
      LinesOfSnoc(entries, Block(text));
      entries := entries + [Block(text)];
    }

    /**
     * `processList(list, level)`. It fails (`ok` is false) exactly when
     * some item it would emit has a negative level, where
     * `strings.Repeat` panics; otherwise it appends exactly the entries
     * of `WalkList(list, level)`.
     */
    method ProcessList(list: Node, level: int) returns (ok: bool)
      requires Valid()
      modifies this
      decreases list, 2
      ensures Valid()
      ensures ok <==> AllPrintable(WalkList(list, level))
      ensures ok ==> entries == old(entries) + WalkList(list, level)
    {
      var listType := if list.Element? && list.tag == "ol" then Ordered else Bullet;
      var index: nat := 1;
      var kids := Children(list);
      ghost var total := WalkList(list, level);
      assert total == WalkChildren(kids, listType, level, 1);
      var i := 0;
      while i < |kids|
        invariant 0 <= i <= |kids|
        invariant Valid()
        invariant old(entries) + total == entries + WalkChildren(kids[i..], listType, level, index)
      {
        var child := kids[i];
        ghost var rest := WalkChildren(kids[i..], listType, level, index);
        ghost var before := entries;
        assert kids[i..][1..] == kids[i + 1..];
        if child.Element? && child.tag == "li" {
          ghost var emitted := ItemEntries(child, listType, level, index);
          assert rest == emitted + WalkChildren(kids[i + 1..], listType, level, NextIndex(child, listType, index));
          ok, index := ProcessItem(child, listType, level, index);
          if !ok {
            AllPrintableConcat(emitted, rest[|emitted|..]);
            assert rest == emitted + rest[|emitted|..];
            Unprintable(before, rest, old(entries), total);
            return;
          }
          Regroup(old(entries) + total, before, emitted, WalkChildren(kids[i + 1..], listType, level, index));
        } else if child.Element? && IsListTag(child.tag) {
          // a list directly inside a list: the flat sibling-list structure
          assert rest == WalkList(child, level + 1) + WalkChildren(kids[i + 1..], listType, level, index);
          ok := ProcessList(child, level + 1);
          if !ok {
            ghost var emitted := WalkList(child, level + 1);
            AllPrintableConcat(emitted, rest[|emitted|..]);
            assert rest == emitted + rest[|emitted|..];
            Unprintable(before, rest, old(entries), total);
            return;
          }
          Regroup(old(entries) + total, before, WalkList(child, level + 1), WalkChildren(kids[i + 1..], listType, level, index));
        } else {
          assert rest == WalkChildren(kids[i + 1..], listType, level, index);
        }
        i := i + 1;
      }
      assert entries == old(entries) + total;
      AllPrintableConcat(old(entries), total);
      ok := true;
    }

    /**
     * The body of `processList`'s loop for one `li`: resolve its level,
     * read its text and nested lists, emit it when its trimmed text is not
     * empty, then walk its nested lists one level below its own.
     */
    method ProcessItem(child: Node, listType: ListKind, level: int, index: nat) returns (ok: bool, next: nat)
      requires Valid() && child.Element?
      modifies this
      decreases child, 1
      ensures Valid()
      ensures ok ==> next == NextIndex(child, listType, index)
      ensures ok <==> AllPrintable(ItemEntries(child, listType, level, index))
      ensures ok ==> entries == old(entries) + ItemEntries(child, listType, level, index)
    {
      ghost var total := ItemEntries(child, listType, level, index);
      var currentLevel := ItemLevel(child.attrs, level);
      var itemText, nestedLists := SplitItem(child.kids);
      itemText := TrimSpace(itemText);
      WalkKidsIsWalkSeq(child.kids, currentLevel + 1);
      ghost var own := if itemText != "" then [Item(itemText, listType, currentLevel, index)] else [];
      ghost var nested := WalkSeq(nestedLists, currentLevel + 1);
      assert total == own + nested;
      next := index;
      if itemText != "" {
        if currentLevel < 0 {
          // strings.Repeat panics on a negative count
          assert total[0] == Item(itemText, listType, currentLevel, index);
          return false, next;
        }
        EmitItem(itemText, listType, currentLevel, index);
        if listType == Ordered {
          next := index + 1;
        }
      }
      assert entries == old(entries) + own;
      ghost var mid := entries;
      ok := ProcessNested(nestedLists, currentLevel + 1, child);
      AllPrintableConcat(own, nested);
      if ok {
        Regroup(entries, old(entries), own, nested);
      }
    }

    /** The loop over an item's nested lists, each walked at the level given. */
    method ProcessNested(lists: seq<Node>, level: int, ghost owner: Node) returns (ok: bool)
      requires Valid()
      requires forall k :: 0 <= k < |lists| ==> lists[k] in Children(owner)
      modifies this
      decreases owner, 0
      ensures Valid()
      ensures ok <==> AllPrintable(WalkSeq(lists, level))
      ensures ok ==> entries == old(entries) + WalkSeq(lists, level)
    {
      ghost var total := WalkSeq(lists, level);
      assert lists[0..] == lists;
      var k := 0;
      while k < |lists|
        invariant 0 <= k <= |lists|
        invariant Valid()
        invariant old(entries) + total == entries + WalkSeq(lists[k..], level)
      {
        var list := lists[k];
        ghost var p :| 0 <= p < |Children(owner)| && Children(owner)[p] == list;
        ghost var before := entries;
        ghost var rest := WalkSeq(lists[k..], level);
        assert lists[k..][1..] == lists[k + 1..];
        assert rest == WalkList(list, level) + WalkSeq(lists[k + 1..], level);
        ok := ProcessList(list, level);
        if !ok {
          AllPrintableConcat(WalkList(list, level), WalkSeq(lists[k + 1..], level));
          Unprintable(before, rest, old(entries), total);
          return;
        }
        Regroup(old(entries) + total, before, WalkList(list, level), WalkSeq(lists[k + 1..], level));
        k := k + 1;
      }
      assert entries == old(entries) + total;
      AllPrintableConcat(old(entries), total);
      ok := true;
    }

    /** The `aria-level` check: the first `aria-level` attribute decides, when it parses. */
    static method ItemLevel(attrs: seq<Attr>, level: int) returns (currentLevel: int)
      ensures currentLevel == ResolveLevel(attrs, level)
    {
      currentLevel := level;
      var a := 0;
      while a < |attrs|
        invariant 0 <= a <= |attrs|
        invariant forall j :: 0 <= j < a ==> attrs[j].key != AriaLevel
      {
        if attrs[a].key == AriaLevel {
          var val := Atoi(attrs[a].val);
          if val.Some? {
            currentLevel := val.value - 1;
          }
          break;
        }
        a := a + 1;
      }
    }

    /**
     * Reads an item's children once: text nodes and non-list elements
     * make up its text, `ul`/`ol` children are set aside as nested lists.
     */
    static method SplitItem(kids: seq<Node>) returns (itemText: string, nestedLists: seq<Node>)
      ensures itemText == ItemText(kids)
      ensures nestedLists == NestedLists(kids)
    {
      itemText, nestedLists := "", [];
      var j := 0;
      while j < |kids|
        invariant 0 <= j <= |kids|
        invariant itemText == ItemText(kids[..j])
        invariant nestedLists == NestedLists(kids[..j])
      {
        var c := kids[j];
        assert kids[..j + 1][..j] == kids[..j];
        if c.Text? {
          itemText := itemText + c.data;
        } else if c.Element? {
          if IsListTag(c.tag) {
            nestedLists := nestedLists + [c];
          } else {
            itemText := itemText + ExtractText(c);
          }
        }
        j := j + 1;
      }
      assert kids[..|kids|] == kids;
    }
  }
}
