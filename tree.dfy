/** The lxml tree the passes walk, as a value: elements with their attributes,
    `text` and `tail`, and the comment and processing-instruction nodes that
    lxml keeps among an element's children. Also the views the properties are
    stated in: the Kobo spans of a tree, its text content and its shape. */
module Tree {
  import opened Wrappers
  import opened Text

  const XhtmlNamespace: string := "http://www.w3.org/1999/xhtml"

  /** lxml's qualified tag names of the XHTML span and body elements. */
  const SpanTag: string := "{" + XhtmlNamespace + "}span"
  const BodyTag: string := "{" + XhtmlNamespace + "}body"

  /** A node of the parsed document. `text` is the content before the first
      child (for a comment or processing instruction, its data), `tail` the
      content after the node inside its parent. */
  datatype Node =
    | Element(tag: string, attrs: map<string, string>, text: Option<string>, children: seq<Node>, tail: Option<string>)
    | Comment(text: Option<string>, tail: Option<string>)
    | Instruction(target: string, text: Option<string>, tail: Option<string>)

  /** A text or tail as the characters it contributes: None contributes none. */
  function Str(t: Option<string>): string {
    if t.Some? then t.value else ""
  }

  /** `node.append(x)` on an element. */
  function Append(p: Node, x: Node): (r: Node)
    requires p.Element?
    ensures r.Element? && r.children == p.children + [x]
  {
    p.(children := p.children + [x])
  }

  /** The children with the last one's tail replaced by s. */
  function SetLastTail(kids: seq<Node>, s: string): (r: seq<Node>)
    requires kids != []
    ensures |r| == |kids| && r[..|r| - 1] == kids[..|kids| - 1]
    ensures r[|r| - 1] == kids[|kids| - 1].(tail := Some(s))
  {
    kids[..|kids| - 1] + [kids[|kids| - 1].(tail := Some(s))]
  }

  // ---------------------------------------------------------------------
  // Kobo spans
  // ---------------------------------------------------------------------

  /** The id attribute starts with "kobo.". */
  predicate HasKoboId(n: Node)
    requires n.Element?
  {
    "id" in n.attrs && |n.attrs["id"]| >= 5 && n.attrs["id"][..5] == "kobo."
  }

  /** What `xhtml:span[@class="koboSpan" or starts-with(@id, "kobo.")]`
      selects. */
  predicate IsMarker(n: Node) {
    n.Element? && n.tag == SpanTag
    && (("class" in n.attrs && n.attrs["class"] == "koboSpan") || HasKoboId(n))
  }

  /** What `xhtml:span[starts-with(@id, 'kobo.')]` selects. */
  predicate IsKoboIdSpan(n: Node) {
    n.Element? && n.tag == SpanTag && HasKoboId(n)
  }

  function IdOf(n: Node): string
    requires n.Element?
  {
    if "id" in n.attrs then n.attrs["id"] else ""
  }

  /** The ids of the Kobo spans of n, n included, in document order. */
  function Markers(n: Node): seq<string> {
    match n
    case Element(_, _, _, children, _) =>
      (if IsMarker(n) then [IdOf(n)] else []) + KidsMarkers(children)
    case _ => []
  }

  function KidsMarkers(kids: seq<Node>): seq<string> {
    if kids == [] then []
    else KidsMarkers(kids[..|kids| - 1]) + Markers(kids[|kids| - 1])
  }

  /** The idempotency guard: `.//xhtml:span[...]` finds a Kobo span strictly
      below n. */
  predicate HasMarkerBelow(n: Node) {
    n.Element? && KidsMarkers(n.children) != []
  }

  lemma {:induction false} KidsMarkersAppend(a: seq<Node>, b: seq<Node>)
    ensures KidsMarkers(a + b) == KidsMarkers(a) + KidsMarkers(b)
    decreases |b|
  {
    if b == [] {
      assert a + b == a;
    } else {
      var b' := b[..|b| - 1];
      assert (a + b)[..|a + b| - 1] == a + b';
      assert (a + b)[|a + b| - 1] == b[|b| - 1];
      KidsMarkersAppend(a, b');
      var x, y, z := KidsMarkers(a), KidsMarkers(b'), Markers(b[|b| - 1]);
      assert x + (y + z) == (x + y) + z;
    }
  }

  /** A span-free list of children has span-free members. */
  lemma {:induction false} KidsMarkersMember(kids: seq<Node>, k: nat)
    requires KidsMarkers(kids) == [] && k < |kids|
    ensures Markers(kids[k]) == []
    decreases |kids|
  {
    if k < |kids| - 1 {
      KidsMarkersMember(kids[..|kids| - 1], k);
    }
  }

  /** The spans of the children are unaffected by a new last tail. */
  lemma SetLastTailMarkers(kids: seq<Node>, s: string)
    requires kids != []
    ensures KidsMarkers(SetLastTail(kids, s)) == KidsMarkers(kids)
  {
    var r := SetLastTail(kids, s);
    assert r[..|r| - 1] == kids[..|kids| - 1];
  }

  // ---------------------------------------------------------------------
  // Text content and shape
  // ---------------------------------------------------------------------

  /** The text of the subtree of n in document order, without n's own tail:
      what itertext() yields. Comments and processing instructions contribute
      only their tails, which belong to the parent's content. */
  function Content(n: Node): string {
    match n
    case Element(_, _, text, children, _) => Str(text) + KidsContent(children)
    case _ => ""
  }

  function KidsContent(kids: seq<Node>): string {
    if kids == [] then ""
    else
      var last := kids[|kids| - 1];
      KidsContent(kids[..|kids| - 1]) + Content(last) + Str(last.tail)
  }

  /** Every child's tail is absent or whitespace only. */
  predicate BlankTails(kids: seq<Node>) {
    forall k :: 0 <= k < |kids| ==> AllSpace(Str(kids[k].tail))
  }

  /** The shape of n: its elements with their tags and attributes and its
      processing instructions, in order, without text, tails, comments or
      Kobo spans. */
  function Erase(n: Node): Node {
    match n
    case Element(tag, attrs, _, children, _) => Element(tag, attrs, None, EraseKids(children), None)
    case Comment(text, _) => Comment(text, None)
    case Instruction(target, text, _) => Instruction(target, text, None)
  }

  function EraseKids(kids: seq<Node>): seq<Node> {
    if kids == [] then []
    else
      var last := kids[|kids| - 1];
      EraseKids(kids[..|kids| - 1]) + (if last.Comment? || IsMarker(last) then [] else [Erase(last)])
  }

  /** The shape of the children is unaffected by a new last tail. */
  lemma SetLastTailErase(kids: seq<Node>, s: string)
    requires kids != []
    ensures EraseKids(SetLastTail(kids, s)) == EraseKids(kids)
  {
    var r := SetLastTail(kids, s);
    assert r[..|r| - 1] == kids[..|kids| - 1];
  }

  /** No comment anywhere in n. */
  predicate CommentFree(n: Node) {
    match n
    case Element(_, _, _, children, _) => KidsCommentFree(children)
    case Comment(_, _) => false
    case Instruction(_, _, _) => true
  }

  predicate KidsCommentFree(kids: seq<Node>) {
    kids == [] || (KidsCommentFree(kids[..|kids| - 1]) && CommentFree(kids[|kids| - 1]))
  }

  lemma SetLastTailCommentFree(kids: seq<Node>, s: string)
    requires kids != [] && KidsCommentFree(kids)
    ensures KidsCommentFree(SetLastTail(kids, s))
  {
    var r := SetLastTail(kids, s);
    assert r[..|r| - 1] == kids[..|kids| - 1];
  }

  /** Replacing one child of a span-free list leaves the replacement's spans
      as the only ones. */
  lemma KidsMarkersReplace(kids: seq<Node>, k: nat, x: Node)
    requires k < |kids| && KidsMarkers(kids) == []
    ensures KidsMarkers(kids[k := x]) == Markers(x)
  {
    var pre, post := kids[..k], kids[k + 1..];
    assert kids == pre + ([kids[k]] + post);
    assert kids[k := x] == pre + ([x] + post);
    KidsMarkersAppend(pre, [kids[k]] + post);
    KidsMarkersAppend([kids[k]], post);
    assert KidsMarkers(pre) == [] && KidsMarkers(post) == [];
    KidsMarkersAppend(pre, [x] + post);
    KidsMarkersAppend([x], post);
    assert [x][..0] == [];
    assert KidsMarkers([x]) == Markers(x);
  }

  /** Replacing one child by one of the same shape keeps the shape of the
      list. */
  lemma {:induction false} EraseKidsReplace(kids: seq<Node>, k: nat, x: Node)
    requires k < |kids| && !x.Comment? && !kids[k].Comment?
    requires Erase(x) == Erase(kids[k]) && IsMarker(x) == IsMarker(kids[k])
    ensures EraseKids(kids[k := x]) == EraseKids(kids)
    decreases |kids|
  {
    var m := |kids| - 1;
    var r := kids[k := x];
    if k < m {
      assert r[..m] == kids[..m][k := x];
      EraseKidsReplace(kids[..m], k, x);
    } else {
      assert r[..m] == kids[..m];
    }
  }
}
