/**
 * The generator's two outputs: Quill-style delta operations and plain-text
 * lines. Each emitted entry (a list item or a text block) contributes
 * exactly two operations and one line.
 */
module Delta {
  import opened Wrappers
  import opened GoStrings

  /** The value of the `list` attribute: `"bullet"` or `"ordered"`. */
  datatype ListKind = Bullet | Ordered

  /** The `attributes` object of a list item's newline insert. */
  datatype Attributes = Attributes(list: ListKind, indent: Option<int>)

  /** One delta operation: `{"insert": ..., "attributes"?: ...}`. */
  datatype Op = Op(insert: string, attributes: Option<Attributes>)

  /**
   * What one emission step produces: a list item (its trimmed text, the
   * kind of its list, its resolved level and its number within its list)
   * or a text block (paragraph, heading, quote, preformatted text, or the
   * whole-document fallback).
   */
  datatype Entry =
    | Item(text: string, kind: ListKind, level: int, number: nat)
    | Block(text: string)

  /** `strings.Repeat` accepts the entry's indentation count. */
  predicate Printable(e: Entry) { e.Block? || e.level >= 0 }

  predicate AllPrintable(es: seq<Entry>) { forall k :: 0 <= k < |es| ==> Printable(es[k]) }

  lemma AllPrintableConcat(a: seq<Entry>, b: seq<Entry>)
    ensures AllPrintable(a + b) <==> AllPrintable(a) && AllPrintable(b)
  {
    if AllPrintable(a + b) {
      forall k | 0 <= k < |a| ensures Printable(a[k]) {
        assert a[k] == (a + b)[k];
      }
      forall k | 0 <= k < |b| ensures Printable(b[k]) {
        assert b[k] == (a + b)[|a| + k];
      }
    }
    if AllPrintable(a) && AllPrintable(b) {
      forall k | 0 <= k < |a + b| ensures Printable((a + b)[k]) {
        if k < |a| {
          assert (a + b)[k] == a[k];
        } else {
          assert (a + b)[k] == b[k - |a|];
        }
      }
    }
  }

  /** Moving what was just appended from the part still to come to the part done. */
  lemma Regroup(whole: seq<Entry>, before: seq<Entry>, emitted: seq<Entry>, after: seq<Entry>)
    ensures whole == before + (emitted + after) <==> whole == (before + emitted) + after
  {
  }

  /** When what was still to come holds an entry `strings.Repeat` rejects, so does the whole walk. */
  lemma Unprintable(before: seq<Entry>, rest: seq<Entry>, start: seq<Entry>, total: seq<Entry>)
    requires start + total == before + rest
    requires AllPrintable(start) && !AllPrintable(rest)
    ensures !AllPrintable(total)
  {
    AllPrintableConcat(before, rest);
    AllPrintableConcat(start, total);
  }

  /** The attributes of the newline that closes an entry: present for list items only, with `indent` exactly when the level is positive. */
  function NewlineAttributes(e: Entry): (r: Option<Attributes>)
    ensures r.Some? <==> e.Item?
    ensures r.Some? ==> r.value.list == e.kind
    ensures r.Some? ==> (r.value.indent.Some? <==> e.level > 0)
    ensures r.Some? && r.value.indent.Some? ==> r.value.indent.value == e.level
  {
    match e
    case Item(_, kind, level, _) => Some(Attributes(kind, if level > 0 then Some(level) else None))
    case Block(_) => None
  }

  /** The line prefix: `- ` for bullets, `{number}. ` for ordered items. */
  function Marker(kind: ListKind, number: nat): string
  {
    if kind == Ordered then DecimalString(number) + ". " else "- "
  }

  /** The plain-text line of an entry: four spaces per level, the marker, the text. */
  function EntryLine(e: Entry): string
    requires Printable(e)
  {
    match e
    case Item(text, kind, level, number) => Repeat("    ", level) + Marker(kind, number) + text
    case Block(text) => text
  }

  /** The operations of a sequence of entries, two per entry, in order. */
  function OpsOf(es: seq<Entry>): (ops: seq<Op>)
    ensures |ops| == 2 * |es|
  {
    if es == [] then []
    else
      var e := es[|es| - 1];
      OpsOf(es[..|es| - 1]) + [Op(e.text, None), Op("\n", NewlineAttributes(e))]
  }

  /** The plain-text lines of a sequence of entries, one per entry, in order. */
  function LinesOf(es: seq<Entry>): (lines: seq<string>)
    requires AllPrintable(es)
    ensures |lines| == |es|
  {
    if es == [] then []
    else LinesOf(es[..|es| - 1]) + [EntryLine(es[|es| - 1])]
  }

  /** Appending an entry appends its two operations. */
  lemma OpsOfSnoc(es: seq<Entry>, e: Entry)
    ensures OpsOf(es + [e]) == OpsOf(es) + [Op(e.text, None), Op("\n", NewlineAttributes(e))]
  {
    assert (es + [e])[..|es|] == es;
  }

  /** Appending a printable entry appends its line. */
  lemma LinesOfSnoc(es: seq<Entry>, e: Entry)
    requires AllPrintable(es) && Printable(e)
    ensures AllPrintable(es + [e])
    ensures LinesOf(es + [e]) == LinesOf(es) + [EntryLine(e)]
  {
    assert (es + [e])[..|es|] == es;
  }

  /** Entry k owns operation 2k, its text, and operation 2k+1, its newline and attributes. */
  lemma {:induction false} OpsAligned(es: seq<Entry>)
    ensures forall k :: 0 <= k < |es| ==>
      OpsOf(es)[2 * k] == Op(es[k].text, None) && OpsOf(es)[2 * k + 1] == Op("\n", NewlineAttributes(es[k]))
  {
    if es != [] {
      var init, e := es[..|es| - 1], es[|es| - 1];
      OpsAligned(init);
      var front, back := OpsOf(init), [Op(e.text, None), Op("\n", NewlineAttributes(e))];
      assert OpsOf(es) == front + back;
      forall k | 0 <= k < |es|
        ensures OpsOf(es)[2 * k] == Op(es[k].text, None) && OpsOf(es)[2 * k + 1] == Op("\n", NewlineAttributes(es[k]))
      {
        if k < |init| {
          assert es[k] == init[k];
          assert (front + back)[2 * k] == front[2 * k] && (front + back)[2 * k + 1] == front[2 * k + 1];
        } else {
          assert (front + back)[2 * k] == back[0] && (front + back)[2 * k + 1] == back[1];
        }
      }
    }
  }

  /** Entry k owns line k. */
  lemma {:induction false} LinesAligned(es: seq<Entry>)
    requires AllPrintable(es)
    ensures forall k :: 0 <= k < |es| ==> LinesOf(es)[k] == EntryLine(es[k])
  {
    if es != [] {
      var init := es[..|es| - 1];
      LinesAligned(init);
      forall k | 0 <= k < |es| ensures LinesOf(es)[k] == EntryLine(es[k]) {
        if k < |init| {
          assert es[k] == init[k];
        }
      }
    }
  }

  /**
   * `len(ops) == 2 * len(plainTextLines)`, and entry k owns operation 2k
   * (its text), operation 2k+1 (its newline and attributes) and line k.
   */
  lemma OpsLinesAligned(es: seq<Entry>)
    requires AllPrintable(es)
    ensures |OpsOf(es)| == 2 * |LinesOf(es)|
    ensures forall k :: 0 <= k < |es| ==>
      && OpsOf(es)[2 * k] == Op(es[k].text, None)
      && OpsOf(es)[2 * k + 1] == Op("\n", NewlineAttributes(es[k]))
      && LinesOf(es)[k] == EntryLine(es[k])
  {
    OpsAligned(es);
    LinesAligned(es);
  }
}
