/**
 * The parsed markup tree the generator reads. It is produced by an
 * external HTML parser and never changed by the generator.
 */
module Markup {
  import opened GoStrings

  datatype Attr = Attr(key: string, val: string)

  /**
   * A node of the tree: an element with its tag, attributes and children,
   * a text node, or any other kind of node (the document root, a comment,
   * a doctype), which only ever contributes through its children.
   */
  datatype Node =
    | Element(tag: string, attrs: seq<Attr>, kids: seq<Node>)
    | Text(data: string)
    | Other(kids: seq<Node>)

  function Children(n: Node): seq<Node>
  {
    if n.Text? then [] else n.kids
  }

  /** The attributes of a node: an element's own, none for any other node. */
  function AttrsOf(n: Node): seq<Attr>
  {
    if n.Element? then n.attrs else []
  }

  predicate IsListTag(tag: string) { tag == "ul" || tag == "ol" }

  /** An element whose tag is `ul` or `ol`. */
  predicate IsList(n: Node) { n.Element? && IsListTag(n.tag) }

  /** `h1` to `h6`: two characters, `h` then a digit from 1 to 6. */
  predicate IsHeadingTag(tag: string) {
    |tag| == 2 && tag[0] == 'h' && '1' <= tag[1] <= '6'
  }

  /** The text blocks the scanner emits whole: paragraph, heading, quote, preformatted. */
  predicate IsBlockTag(tag: string) {
    tag == "p" || IsHeadingTag(tag) || tag == "blockquote" || tag == "pre"
  }

  /**
   * `extractText`: the text of a subtree in document order, where a list
   * subtree contributes nothing.
   */
  function ExtractText(n: Node): string
    decreases n
  {
    match n
    case Text(data) => data
    case Element(tag, _, kids) => if IsListTag(tag) then "" else ConcatText(kids)
    case Other(kids) => ConcatText(kids)
  }

  /** The extracted text of a sequence of siblings, concatenated in order. */
  function ConcatText(kids: seq<Node>): string
    decreases kids
  {
    if kids == [] then ""
    else ConcatText(kids[..|kids| - 1]) + ExtractText(kids[|kids| - 1])
  }

  lemma {:induction false} ConcatTextAppend(a: seq<Node>, b: seq<Node>)
    ensures ConcatText(a + b) == ConcatText(a) + ConcatText(b)
    decreases b
  {
    if b != [] {
      var last := b[|b| - 1];
      assert (a + b)[..|a + b| - 1] == a + b[..|b| - 1];
      ConcatTextAppend(a, b[..|b| - 1]);
    } else {
      assert a + b == a;
    }
  }

  /** A tree with no text anywhere: every text node holds only white space. */
  predicate NoText(n: Node)
    decreases n
  {
    match n
    case Text(data) => Blank(data)
    case Element(_, _, kids) => forall k :: 0 <= k < |kids| ==> NoText(kids[k])
    case Other(kids) => forall k :: 0 <= k < |kids| ==> NoText(kids[k])
  }

  /** Extracting text from a tree with no text gives white space only. */
  lemma {:induction false} NoTextExtractsBlank(n: Node)
    requires NoText(n)
    ensures Blank(ExtractText(n))
    decreases n, 1
  {
    match n
    case Text(_) =>
    case Element(tag, _, kids) =>
      if !IsListTag(tag) { NoTextConcatBlank(kids); }
    case Other(kids) => NoTextConcatBlank(kids);
  }

  lemma {:induction false} NoTextConcatBlank(kids: seq<Node>)
    requires forall k :: 0 <= k < |kids| ==> NoText(kids[k])
    ensures Blank(ConcatText(kids))
    decreases kids, 0
  {
    if kids != [] {
      NoTextConcatBlank(kids[..|kids| - 1]);
      NoTextExtractsBlank(kids[|kids| - 1]);
      BlankConcat(ConcatText(kids[..|kids| - 1]), ExtractText(kids[|kids| - 1]));
    }
  }
}
