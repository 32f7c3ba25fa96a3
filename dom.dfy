/**
 * The page as the extension sees it: a flat sequence of nodes in document
 * order, each naming its parent, with the compound selectors `tag.cls1.cls2`
 * that the extension builds and a `querySelectorAll` that filters by them.
 */
module Dom {
  import opened Wrappers
  import opened Strings

  /** `Node.ELEMENT_NODE`. */
  const ELEMENT_NODE := 1

  /**
   * One node of the page, without its inline style: `parent` is the index of
   * the parent node, or -1 for a node directly under the body. The extension
   * never changes these fields; the inline styles it writes are kept beside
   * the nodes, one map per node, from property name to value.
   */
  datatype Node = Node(
    nodeType: int,
    tagName: string,
    classList: seq<string>,
    className: string,
    parent: int)

  type Style = map<string, string>

  /** An element node: it has `matches` and `querySelectorAll`. */
  predicate IsElement(n: Node) {
    n.nodeType == ELEMENT_NODE
  }

  /** Parents come before their children. */
  predicate WellFormed(doc: seq<Node>) {
    forall i :: 0 <= i < |doc| ==> -1 <= doc[i].parent < i
  }

  /** Node `d` lies strictly below node `a`. */
  predicate IsDescendant(doc: seq<Node>, d: int, a: int)
    decreases d
  {
    0 <= d < |doc| && 0 <= doc[d].parent < d &&
    (doc[d].parent == a || IsDescendant(doc, doc[d].parent, a))
  }

  /** Where a query looks: the whole document, or strictly below one node. */
  predicate InScope(doc: seq<Node>, root: Option<int>, i: int) {
    0 <= i < |doc| && (root.None? || IsDescendant(doc, i, root.value))
  }

  /** A compound selector: an optional type selector ("" = any) and class selectors. */
  datatype Selector = Compound(tag: string, classes: seq<string>)

  /** `classes.map((cls) => `.${cls}`).join("")`. */
  function ClassSuffix(classes: seq<string>): string {
    if classes == [] then "" else "." + classes[0] + ClassSuffix(classes[1..])
  }

  /** The selector's text: the tag followed by `.cls` for each class, in order. */
  function Render(sel: Selector): string {
    sel.tag + ClassSuffix(sel.classes)
  }

  /** The pieces of `s` between occurrences of `sep`. */
  function Split(s: string, sep: char): (parts: seq<string>)
    ensures |parts| > 0
  {
    if s == [] then [""]
    else if s[0] == sep then [""] + Split(s[1..], sep)
    else
      var rest := Split(s[1..], sep);
      [[s[0]] + rest[0]] + rest[1..]
  }

  /** How the selector engine reads a compound selector. */
  function Parse(selector: string): Selector {
    var parts := Split(selector, '.');
    Compound(parts[0], parts[1..])
  }

  predicate DotFree(s: string) {
    '.' !in s
  }

  /** Splitting a piece without separators, then a separator, then the rest. */
  lemma {:induction false} SplitAfterPiece(piece: string, rest: string)
    requires DotFree(piece)
    ensures Split(piece + "." + rest, '.') == [piece] + Split(rest, '.')
    ensures Split(piece, '.') == [piece]
    decreases |piece|
  {
    if piece == [] {
      assert piece + "." + rest == "." + rest;
      assert ("." + rest)[1..] == rest;
    } else {
      SplitAfterPiece(piece[1..], rest);
      assert (piece + "." + rest)[1..] == piece[1..] + "." + rest;
      assert [piece[0]] + piece[1..] == piece;
    }
  }

  /** The built selector reads back as the tag and classes it was built from. */
  lemma {:induction false} ParseRender(sel: Selector)
    requires DotFree(sel.tag)
    requires forall c :: c in sel.classes ==> DotFree(c)
    ensures Parse(Render(sel)) == sel
    decreases |sel.classes|
  {
    var tag, cs := sel.tag, sel.classes;
    if cs == [] {
      SplitAfterPiece(tag, "");
      assert Render(sel) == tag;
    } else {
      var rest := Compound(cs[0], cs[1..]);
      ParseRender(rest);
      assert Render(sel) == tag + "." + Render(rest);
      SplitAfterPiece(tag, Render(rest));
      assert Split(Render(rest), '.') == [cs[0]] + cs[1..];
    }
  }

  /** The text of a selector is empty exactly when it has neither tag nor classes. */
  lemma RenderEmpty(sel: Selector)
    ensures Render(sel) == "" <==> sel.tag == "" && sel.classes == []
  {
    if sel.classes != [] {
      assert Render(sel)[|sel.tag|] == '.';
    }
  }

  /** Element `n` matches the selector: type selectors ignore ASCII case, class selectors do not. */
  predicate SelectorMatches(sel: Selector, n: Node) {
    && IsElement(n)
    && (sel.tag == "" || ToLower(n.tagName) == ToLower(sel.tag))
    && (forall c :: c in sel.classes ==> c in n.classList)
  }

  predicate Increasing(r: seq<int>) {
    forall a, b :: 0 <= a < b < |r| ==> r[a] < r[b]
  }

  /** Nodes from index `lo` on that lie in scope and match `sel`, in document order. */
  function MatchingFrom(doc: seq<Node>, root: Option<int>, sel: Selector, lo: nat): (r: seq<int>)
    ensures forall i :: i in r <==> lo <= i && InScope(doc, root, i) && SelectorMatches(sel, doc[i])
    ensures forall j :: 0 <= j < |r| ==> lo <= r[j] && InScope(doc, root, r[j])
    ensures Increasing(r)
    decreases |doc| - lo
  {
    if lo >= |doc| then []
    else
      var rest := MatchingFrom(doc, root, sel, lo + 1);
      assert forall b :: 0 <= b < |rest| ==> rest[b] in rest;
      if InScope(doc, root, lo) && SelectorMatches(sel, doc[lo]) then [lo] + rest else rest
  }

  /** `root.querySelectorAll(selector)` (the whole document when `root` is `None`). */
  function QuerySelectorAll(doc: seq<Node>, root: Option<int>, selector: string): (r: seq<int>)
    ensures forall i :: i in r <==> InScope(doc, root, i) && SelectorMatches(Parse(selector), doc[i])
    ensures forall j :: 0 <= j < |r| ==> InScope(doc, root, r[j])
    ensures Increasing(r)
  {
    MatchingFrom(doc, root, Parse(selector), 0)
  }

  /** `querySelectorAll('div')` finds exactly the `div` elements. */
  lemma DivSelector()
    ensures Parse("div") == Compound("div", [])
  {
    SplitAfterPiece("div", "");
  }
}
