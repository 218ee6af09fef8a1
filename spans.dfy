/** The Kobo span rewrite as functions: how one text run becomes a span
    (KEPubContainer.__add_kobo_spans_to_node, string branch), how an element
    is rebuilt around its rewritten text, children and tails (element
    branch), and what add_kobo_spans does to one document. The counters are
    threaded through explicitly; Container.KEPubContainer runs the same
    steps on its fields and is proved equal to these functions. */
module Spans {
  import opened Wrappers
  import opened Text
  import opened Tree

  /** (paragraph_counter, segment_counter). A span's id is the pair at the
      moment the span is created. */
  datatype Counters = Counters(paragraph: nat, segment: nat)

  /** The order in which the counters move: by paragraph, then segment. */
  predicate Before(a: Counters, b: Counters) {
    a.paragraph < b.paragraph || (a.paragraph == b.paragraph && a.segment < b.segment)
  }

  predicate NotAfter(a: Counters, b: Counters) {
    a == b || Before(a, b)
  }

  /** The counters moved forward from c to d and created the spans ids on the
      way, each strictly after c, none after d, in strictly increasing order. */
  predicate Progress(c: Counters, ids: seq<Counters>, d: Counters) {
    && NotAfter(c, d)
    && (forall i, j :: 0 <= i < j < |ids| ==> Before(ids[i], ids[j]))
    && (forall i :: 0 <= i < |ids| ==> Before(c, ids[i]) && NotAfter(ids[i], d))
  }

  lemma ProgressCompose(a: Counters, x: seq<Counters>, b: Counters, y: seq<Counters>, c: Counters)
    requires Progress(a, x, b) && Progress(b, y, c)
    ensures Progress(a, x + y, c)
  {
    var xy := x + y;
    forall i, j | 0 <= i < j < |xy| ensures Before(xy[i], xy[j]) {
      if j < |x| {
        assert xy[i] == x[i] && xy[j] == x[j];
      } else if i < |x| {
        assert xy[i] == x[i] && xy[j] == y[j - |x|];
      } else {
        assert xy[i] == y[i - |x|] && xy[j] == y[j - |x|];
      }
    }
    forall i | 0 <= i < |xy| ensures Before(a, xy[i]) && NotAfter(xy[i], c) {
      if i < |x| {
        assert xy[i] == x[i];
      } else {
        assert xy[i] == y[i - |x|];
      }
    }
  }

  /** The id attribute value "kobo.<paragraph>.<segment>". */
  function SpanId(c: Counters): string {
    IdString(c.paragraph, c.segment)
  }

  function IdStrings(ids: seq<Counters>): (r: seq<string>)
    ensures |r| == |ids| && forall k :: 0 <= k < |ids| ==> r[k] == SpanId(ids[k])
  {
    seq(|ids|, k requires 0 <= k < |ids| => SpanId(ids[k]))
  }

  /** Spans created in increasing order have pairwise different ids. */
  lemma IncreasingIdsDistinct(c: Counters, ids: seq<Counters>, d: Counters)
    requires Progress(c, ids, d)
    ensures forall i, j :: 0 <= i < j < |ids| ==> IdStrings(ids)[i] != IdStrings(ids)[j]
  {
    forall i, j | 0 <= i < j < |ids| ensures IdStrings(ids)[i] != IdStrings(ids)[j] {
      if IdStrings(ids)[i] == IdStrings(ids)[j] {
        IdStringInjective(ids[i].paragraph, ids[i].segment, ids[j].paragraph, ids[j].segment);
      }
    }
  }

  /** `attrib={"id": "kobo.P.S", "class": "koboSpan"}` */
  function SpanAttrs(c: Counters): map<string, string> {
    map["id" := SpanId(c), "class" := "koboSpan"]
  }

  function NewSpan(c: Counters, text: string): Node {
    Element(SpanTag, SpanAttrs(c), Some(text), [], None)
  }

  /** The m consecutive ids of paragraph c.paragraph starting at c.segment. */
  function SpanRun(c: Counters, m: nat): (r: seq<Counters>)
    ensures |r| == m && forall k :: 0 <= k < m ==> r[k] == Counters(c.paragraph, c.segment + k)
  {
    seq(m, k requires 0 <= k < m => Counters(c.paragraph, c.segment + k))
  }

  // ---------------------------------------------------------------------
  // One text run (container.py:219-251)
  // ---------------------------------------------------------------------

  /** The last chunk merged into the container's text: directly when it is a
      whitespace line or opens with a no-space-before character, after one
      inserted space otherwise (container.py:246-249). */
  function MergeText(text: string, g: string): string
    requires g != ""
  {
    if WhitespaceLine(g) || NoSpaceBefore(g[0]) then text + g else text + " " + g
  }

  /** text_container while its chunks are placed: its text, its child spans
      and the segment counter. */
  datatype TextContainer = TextContainer(text: Option<string>, children: seq<Node>, segment: nat)

  /** One turn of the loop over the chunks (container.py:233-249);
      curGroup counts from 1. */
  function PlaceChunk(st: TextContainer, g: string, curGroup: nat, ngroups: nat, paragraph: nat): TextContainer
    requires g != ""
  {
    if st.text.None? then st.(text := Some(g))
    else if curGroup < ngroups then
      var seg := st.segment + 1;
      TextContainer(st.text, st.children + [NewSpan(Counters(paragraph, seg), g)], seg)
    else if |st.children| > 0 then st.(children := SetLastTail(st.children, g))
    else st.(text := Some(MergeText(st.text.value, g)))
  }

  /** text_container after the first k chunks, starting at segment. */
  function PlaceChunks(groups: seq<string>, k: nat, paragraph: nat, segment: nat): TextContainer
    requires k <= |groups|
    requires forall i :: 0 <= i < |groups| ==> groups[i] != ""
  {
    if k == 0 then TextContainer(None, [], segment)
    else PlaceChunk(PlaceChunks(groups, k - 1, paragraph, segment), groups[k - 1], k, |groups|, paragraph)
  }

  /** Before the last chunk: the first chunk is the text and every later chunk
      is a fresh child span, one segment each. */
  lemma {:induction false} PlaceChunksPrefix(groups: seq<string>, k: nat, paragraph: nat, segment: nat)
    requires 1 <= k < |groups|
    requires forall i :: 0 <= i < |groups| ==> groups[i] != ""
    ensures var st := PlaceChunks(groups, k, paragraph, segment);
      && st.text == Some(groups[0])
      && st.segment == segment + k - 1
      && |st.children| == k - 1
      && forall j :: 0 <= j < k - 1 ==> st.children[j] == NewSpan(Counters(paragraph, segment + j + 1), groups[j + 1])
  {
    if k > 1 {
      PlaceChunksPrefix(groups, k - 1, paragraph, segment);
    }
  }

  /** The layout of the span built from n chunks g1..gn (container.py:231-249):
      the container's text is g1; g2..g(n-1) become child spans, in order, with
      consecutive segments; for n >= 3, gn is the last child's tail,
      unchanged; for n = 2, gn is merged into the container's text by the
      space rule; for n = 1 there is only the container. */
  lemma PlaceChunksLayout(groups: seq<string>, paragraph: nat, segment: nat)
    requires |groups| >= 1
    requires forall i :: 0 <= i < |groups| ==> groups[i] != ""
    ensures var n, st := |groups|, PlaceChunks(groups, |groups|, paragraph, segment);
      && (n == 1 ==> st == TextContainer(Some(groups[0]), [], segment))
      && (n == 2 ==> st == TextContainer(Some(MergeText(groups[0], groups[1])), [], segment))
      && (n >= 3 ==>
            && st.text == Some(groups[0])
            && st.segment == segment + n - 2
            && |st.children| == n - 2
            && (forall j :: 0 <= j < n - 3 ==> st.children[j] == NewSpan(Counters(paragraph, segment + j + 1), groups[j + 1]))
            && st.children[n - 3] == Element(SpanTag, SpanAttrs(Counters(paragraph, segment + n - 2)), Some(groups[n - 2]), [], Some(groups[n - 1])))
  {
    var n := |groups|;
    if n == 2 {
      PlaceChunksPrefix(groups, 1, paragraph, segment);
    } else if n >= 3 {
      PlaceChunksLong(groups, paragraph, segment);
    }
  }

  /** The n >= 3 case of PlaceChunksLayout: the last chunk becomes the tail of
      the last child span. */
  lemma PlaceChunksLong(groups: seq<string>, paragraph: nat, segment: nat)
    requires |groups| >= 3
    requires forall i :: 0 <= i < |groups| ==> groups[i] != ""
    ensures var n, st := |groups|, PlaceChunks(groups, |groups|, paragraph, segment);
      && st.text == Some(groups[0])
      && st.segment == segment + n - 2
      && |st.children| == n - 2
      && (forall j :: 0 <= j < n - 3 ==> st.children[j] == NewSpan(Counters(paragraph, segment + j + 1), groups[j + 1]))
      && st.children[n - 3] == Element(SpanTag, SpanAttrs(Counters(paragraph, segment + n - 2)), Some(groups[n - 2]), [], Some(groups[n - 1]))
  {
    var n := |groups|;
    PlaceChunksPrefix(groups, n - 1, paragraph, segment);
    var pre := PlaceChunks(groups, n - 1, paragraph, segment);
    var st := PlaceChunks(groups, n, paragraph, segment);
    assert st == pre.(children := SetLastTail(pre.children, groups[n - 1]));
    forall j | 0 <= j < n - 3
      ensures st.children[j] == NewSpan(Counters(paragraph, segment + j + 1), groups[j + 1])
    {
      SetLastTailKeeps(pre.children, groups[n - 1], j);
    }
  }

  lemma SetLastTailKeeps(kids: seq<Node>, s: string, k: nat)
    requires k < |kids| - 1
    ensures SetLastTail(kids, s)[k] == kids[k]
  {
    assert SetLastTail(kids, s)[k] == SetLastTail(kids, s)[..|kids| - 1][k];
  }

  /** What rewriting a text run yields: nothing (None), the run itself
      (a whitespace run), or a span. */
  datatype TextResult = Dropped | Kept(s: string) | Wrapped(span: Node)

  datatype TextOut = TextOut(result: TextResult, after: Counters, ids: seq<Counters>)

  /** The string branch of __add_kobo_spans_to_node: the segment counter
      moves on entry, the run is split into chunks, a whitespace run comes
      back as it is, an empty one as None, and otherwise the chunks are placed
      into a container span whose id is the entry counters. */
  function RewriteText(s: string, c: Counters): TextOut {
    var entry := Counters(c.paragraph, c.segment + 1);
    var groups := Chunks(s);
    if |groups| == 0 && WhitespaceLine(s) then TextOut(Kept(s), entry, [])
    else if |groups| == 0 then TextOut(Dropped, entry, [])
    else
      var st := PlaceChunks(groups, |groups|, entry.paragraph, entry.segment);
      TextOut(Wrapped(Element(SpanTag, SpanAttrs(entry), st.text, st.children, None)),
              Counters(entry.paragraph, st.segment),
              SpanRun(entry, |st.children| + 1))
  }

  /** Which runs are dropped, kept or wrapped (container.py:224-229, 251). */
  lemma RewriteTextKinds(s: string, c: Counters)
    ensures RewriteText(s, c).result == Dropped <==> s == ""
    ensures RewriteText(s, c).result.Kept? <==> s != "" && AllSpace(s)
    ensures RewriteText(s, c).result.Kept? ==> RewriteText(s, c).result.s == s
    ensures RewriteText(s, c).result.Wrapped? <==> !AllSpace(s)
  {
    ChunksEmptyIffBlank(s);
    if AllSpace(s) {
      WhitespaceLineOfBlank(s);
    }
  }

  /** The segment counter ends one past the container's for each child span. */
  lemma {:induction false} PlaceChunksSegment(groups: seq<string>, k: nat, paragraph: nat, segment: nat)
    requires k <= |groups|
    requires forall i :: 0 <= i < |groups| ==> groups[i] != ""
    ensures PlaceChunks(groups, k, paragraph, segment).segment == segment + |PlaceChunks(groups, k, paragraph, segment).children|
  {
    if k > 0 {
      PlaceChunksSegment(groups, k - 1, paragraph, segment);
    }
  }

  /** The segment counter moves once on entry and once per child span, the
      paragraph stays, and the spans made are the container then its
      children, with consecutive ids. */
  lemma RewriteTextCounters(s: string, c: Counters)
    ensures var out := RewriteText(s, c);
      && out.after.paragraph == c.paragraph
      && out.after.segment == c.segment + (if out.ids == [] then 1 else |out.ids|)
      && out.ids == SpanRun(Counters(c.paragraph, c.segment + 1), |out.ids|)
      && (out.result.Wrapped? <==> out.ids != [])
      && Progress(c, out.ids, out.after)
  {
    var out := RewriteText(s, c);
    var entry := Counters(c.paragraph, c.segment + 1);
    var groups := Chunks(s);
    if |groups| > 0 {
      PlaceChunksSegment(groups, |groups|, entry.paragraph, entry.segment);
      var st := PlaceChunks(groups, |groups|, entry.paragraph, entry.segment);
      var m := |st.children| + 1;
      assert out.ids == SpanRun(entry, m);
      assert out.after == Counters(c.paragraph, c.segment + m);
      SpanRunProgress(c, m);
    } else {
      assert out.ids == [] && out.after == entry;
    }
  }

  /** A run of m spans made right after c, ending at its last id. */
  lemma SpanRunProgress(c: Counters, m: nat)
    ensures Progress(c, SpanRun(Counters(c.paragraph, c.segment + 1), m), Counters(c.paragraph, c.segment + m))
  {
  }

  lemma ConcatSnoc(ps: seq<string>, x: string)
    ensures Concat(ps + [x]) == Concat(ps) + x
  {
    if ps != [] {
      assert (ps + [x])[1..] == ps[1..] + [x];
      ConcatSnoc(ps[1..], x);
    } else {
      assert ps + [x] == [x];
    }
  }

  /** Child spans holding g(1)..g(j), none with a tail, contribute exactly
      those chunks to the text. */
  lemma {:induction false} ChildSpansContent(kids: seq<Node>, groups: seq<string>, j: nat, paragraph: nat, segment: nat)
    requires j <= |kids| && j + 1 <= |groups|
    requires forall i :: 0 <= i < j ==> kids[i] == NewSpan(Counters(paragraph, segment + i + 1), groups[i + 1])
    ensures KidsContent(kids[..j]) == Concat(groups[1..j + 1])
  {
    if j == 0 {
      assert groups[1..1] == [];
    } else {
      ChildSpansContent(kids, groups, j - 1, paragraph, segment);
      assert kids[..j][..j - 1] == kids[..j - 1];
      assert kids[..j][j - 1] == kids[j - 1];
      assert Content(kids[j - 1]) == groups[j] && Str(kids[j - 1].tail) == "";
      assert groups[1..j + 1] == groups[1..j] + [groups[j]];
      ConcatSnoc(groups[1..j], groups[j]);
    }
  }

  /** Spans with the given consecutive ids and no children contribute those
      ids, in order. */
  lemma {:induction false} ChildSpansMarkers(kids: seq<Node>, c: Counters)
    requires forall i :: 0 <= i < |kids| ==>
      (kids[i].Element? && kids[i].tag == SpanTag
       && kids[i].attrs == SpanAttrs(Counters(c.paragraph, c.segment + i)) && kids[i].children == [])
    ensures KidsMarkers(kids) == IdStrings(SpanRun(c, |kids|))
    ensures KidsCommentFree(kids)
  {
    if kids != [] {
      var m := |kids| - 1;
      ChildSpansMarkers(kids[..m], c);
      var last := kids[m];
      assert IsMarker(last);
      assert Markers(last) == [SpanId(Counters(c.paragraph, c.segment + m))];
      assert IdStrings(SpanRun(c, m + 1)) == IdStrings(SpanRun(c, m)) + [SpanId(Counters(c.paragraph, c.segment + m))];
    }
  }

  /** The child spans of a placed container carry consecutive ids after the
      container's and hold no comment. */
  lemma PlacedChildrenMarkers(groups: seq<string>, paragraph: nat, segment: nat)
    requires |groups| >= 1
    requires forall i :: 0 <= i < |groups| ==> groups[i] != ""
    ensures var st := PlaceChunks(groups, |groups|, paragraph, segment);
      && KidsMarkers(st.children) == IdStrings(SpanRun(Counters(paragraph, segment + 1), |st.children|))
      && KidsCommentFree(st.children)
  {
    var st := PlaceChunks(groups, |groups|, paragraph, segment);
    var n := |groups|;
    if n >= 3 {
      PlaceChunksLong(groups, paragraph, segment);
      forall i | 0 <= i < |st.children|
        ensures st.children[i].Element? && st.children[i].tag == SpanTag
        ensures st.children[i].attrs == SpanAttrs(Counters(paragraph, segment + 1 + i)) && st.children[i].children == []
      {
        if i < n - 3 {
          assert st.children[i] == NewSpan(Counters(paragraph, segment + i + 1), groups[i + 1]);
        }
      }
    } else {
      PlaceChunksLayout(groups, paragraph, segment);
      assert st.children == [];
    }
    ChildSpansMarkers(st.children, Counters(paragraph, segment + 1));
  }

  /** With three chunks or more, a placed container holds exactly the chunks'
      characters, in order. */
  lemma PlacedContentLong(groups: seq<string>, paragraph: nat, segment: nat)
    requires |groups| >= 3
    requires forall i :: 0 <= i < |groups| ==> groups[i] != ""
    ensures var st := PlaceChunks(groups, |groups|, paragraph, segment);
      Str(st.text) + KidsContent(st.children) == Concat(groups)
  {
    PlaceChunksLong(groups, paragraph, segment);
    var st := PlaceChunks(groups, |groups|, paragraph, segment);
    LongContent(st.children, groups, paragraph, segment);
  }

  lemma LongContent(kids: seq<Node>, groups: seq<string>, paragraph: nat, segment: nat)
    requires |groups| >= 3 && |kids| == |groups| - 2
    requires forall j :: 0 <= j < |groups| - 3 ==> kids[j] == NewSpan(Counters(paragraph, segment + j + 1), groups[j + 1])
    requires kids[|groups| - 3] == Element(SpanTag, SpanAttrs(Counters(paragraph, segment + |groups| - 2)), Some(groups[|groups| - 2]), [], Some(groups[|groups| - 1]))
    ensures groups[0] + KidsContent(kids) == Concat(groups)
  {
    var n := |groups|;
    var last := kids[n - 3];
    ChildSpansContent(kids, groups, n - 3, paragraph, segment);
    KidsContentPrefix(kids, n - 3);
    assert kids[..n - 2] == kids;
    assert Content(last) == groups[n - 2] + KidsContent([]) == groups[n - 2];
    assert Str(last.tail) == groups[n - 1];
    var inner := KidsContent(kids[..n - 3]);
    assert KidsContent(kids) == inner + groups[n - 2] + groups[n - 1];
    ConcatLastTwo(groups);
    assert KidsContent(kids) == Concat(groups[1..]);
  }

  lemma ConcatLastTwo(groups: seq<string>)
    requires |groups| >= 3
    ensures var n := |groups|;
      Concat(groups[1..]) == Concat(groups[1..n - 2]) + groups[n - 2] + groups[n - 1]
  {
    var n := |groups|;
    assert groups[1..] == groups[1..n - 2] + [groups[n - 2]] + [groups[n - 1]];
    ConcatSnoc(groups[1..n - 2], groups[n - 2]);
    ConcatSnoc(groups[1..n - 2] + [groups[n - 2]], groups[n - 1]);
  }

  /** Merging a chunk into the text adds at most one blank. */
  lemma MergeTextNonSpace(text: string, g: string)
    requires g != ""
    ensures NonSpace(MergeText(text, g)) == NonSpace(text + g)
  {
    if !(WhitespaceLine(g) || NoSpaceBefore(g[0])) {
      assert MergeText(text, g) == (text + " ") + g;
      NonSpaceOfBlank(" ");
      NonSpaceAppend(text, " ");
      NonSpaceAppend(text + " ", g);
      NonSpaceAppend(text, g);
    }
  }

  /** A placed container holds the chunks' visible characters in order. */
  lemma PlacedContent(groups: seq<string>, paragraph: nat, segment: nat)
    requires |groups| >= 1
    requires forall i :: 0 <= i < |groups| ==> groups[i] != ""
    ensures var st := PlaceChunks(groups, |groups|, paragraph, segment);
      NonSpace(Str(st.text) + KidsContent(st.children)) == NonSpace(Concat(groups))
  {
    var n := |groups|;
    if n == 1 {
      PlaceChunksLayout(groups, paragraph, segment);
      assert groups[1..] == [];
    } else if n == 2 {
      PlaceChunksLayout(groups, paragraph, segment);
      var st := PlaceChunks(groups, 2, paragraph, segment);
      assert st.children == [] && st.text == Some(MergeText(groups[0], groups[1]));
      assert Str(st.text) + KidsContent(st.children) == MergeText(groups[0], groups[1]) + "";
      assert MergeText(groups[0], groups[1]) + "" == MergeText(groups[0], groups[1]);
      assert groups == [groups[0], groups[1]] + [];
      ConcatPair(groups[0], groups[1], []);
      assert groups[1] + Concat([]) == groups[1];
      MergeTextNonSpace(groups[0], groups[1]);
    } else {
      PlacedContentLong(groups, paragraph, segment);
    }
  }

  /** The span made from a run is a Kobo span without a tail whose spans are
      exactly the ones recorded, holds no comment, and shows the run's
      visible characters in order. */
  lemma RewriteTextSpan(s: string, c: Counters)
    requires RewriteText(s, c).result.Wrapped?
    ensures var out := RewriteText(s, c); var sp := out.result.span;
      && IsMarker(sp) && sp.tail == None
      && Markers(sp) == IdStrings(out.ids)
      && CommentFree(sp)
      && NonSpace(Content(sp)) == NonSpace(s)
  {
    var out := RewriteText(s, c);
    var sp := out.result.span;
    var entry := Counters(c.paragraph, c.segment + 1);
    var groups := Chunks(s);
    var st := PlaceChunks(groups, |groups|, entry.paragraph, entry.segment);
    assert sp == Element(SpanTag, SpanAttrs(entry), st.text, st.children, None);
    assert out.ids == SpanRun(entry, |st.children| + 1);
    PlacedChildrenMarkers(groups, entry.paragraph, entry.segment);
    ContainerMarkers(entry, st.text, st.children);
    PlacedContent(groups, entry.paragraph, entry.segment);
    ChunksKeepText(s);
  }

  /** The container span with id entry over child spans with the next ids
      carries the whole run of ids. */
  lemma ContainerMarkers(entry: Counters, text: Option<string>, kids: seq<Node>)
    requires KidsMarkers(kids) == IdStrings(SpanRun(Counters(entry.paragraph, entry.segment + 1), |kids|))
    ensures var sp := Element(SpanTag, SpanAttrs(entry), text, kids, None);
      IsMarker(sp) && Markers(sp) == IdStrings(SpanRun(entry, |kids| + 1))
  {
    var sp := Element(SpanTag, SpanAttrs(entry), text, kids, None);
    SpanAttrsLookup(entry);
    assert Markers(sp) == [IdOf(sp)] + KidsMarkers(kids);
    var first := Counters(entry.paragraph, entry.segment + 1);
    SpanRunCons(entry, |kids|);
    IdStringsCons(entry, SpanRun(first, |kids|));
  }

  lemma SpanAttrsLookup(c: Counters)
    ensures "id" in SpanAttrs(c) && SpanAttrs(c)["id"] == SpanId(c)
    ensures "class" in SpanAttrs(c) && SpanAttrs(c)["class"] == "koboSpan"
  {
    assert "id" != "class";
  }

  lemma SpanRunCons(c: Counters, m: nat)
    ensures SpanRun(c, m + 1) == [c] + SpanRun(Counters(c.paragraph, c.segment + 1), m)
  {
    var r, t := SpanRun(c, m + 1), [c] + SpanRun(Counters(c.paragraph, c.segment + 1), m);
    forall i | 0 <= i < m + 1 ensures r[i] == t[i] {
      if i > 0 {
        assert t[i] == SpanRun(Counters(c.paragraph, c.segment + 1), m)[i - 1];
      }
    }
  }

  lemma IdStringsCons(x: Counters, xs: seq<Counters>)
    ensures IdStrings([x] + xs) == [SpanId(x)] + IdStrings(xs)
  {
    var r, t := IdStrings([x] + xs), [SpanId(x)] + IdStrings(xs);
    forall i | 0 <= i < |r| ensures r[i] == t[i] {
      if i > 0 {
        assert ([x] + xs)[i] == xs[i - 1];
      }
    }
  }

  // ---------------------------------------------------------------------
  // Elements (container.py:252-303)
  // ---------------------------------------------------------------------

  datatype NodeOut = NodeOut(result: Option<Node>, after: Counters, ids: seq<Counters>)

  /** The element being rebuilt, with the counters and the spans made so far. */
  datatype WalkOut = WalkOut(node: Node, after: Counters, ids: seq<Counters>)

  /** __add_kobo_spans_to_node on a node: a comment is dropped, a processing
      instruction loses its tail, an element is rebuilt. */
  function RewriteNode(n: Node, c: Counters): (out: NodeOut)
    ensures n.Comment? ==> out.result == None
    ensures n.Instruction? ==> out.result == Some(Instruction(n.target, n.text, None))
    ensures n.Element? ==>
      (out.result.Some? && out.result.value.Element?
       && out.result.value.tag == n.tag && out.result.value.attrs == n.attrs
       && out.result.value.tail == None)
    decreases n, 1
  {
    match n
    case Comment(_, _) => NodeOut(None, c, [])
    case Instruction(target, text, _) => NodeOut(Some(Instruction(target, text, None)), c, [])
    case Element(_, _, _, children, _) =>
      var w := Walk(n, |children|, c);
      NodeOut(Some(w.node), w.after, w.ids)
  }

  /** The element after its text and its first i children (with their tails)
      have been rewritten. */
  function Walk(n: Node, i: nat, c: Counters): (w: WalkOut)
    requires n.Element? && i <= |n.children|
    ensures w.node.Element? && w.node.tag == n.tag && w.node.attrs == n.attrs && w.node.tail == None
    decreases n, 0, i
  {
    if i == 0 then InstallText(n, c)
    else
      var prev := Walk(n, i - 1, c);
      var step := ChildStep(prev.node, prev.after, n.children[i - 1]);
      WalkOut(step.node, step.after, prev.ids + step.ids)
  }

  /** The element cleared (text, tail and children gone, attributes put
      back) with its rewritten text installed: as text when it is a string,
      as the first child when it is a span (container.py:254-270). */
  function InstallText(n: Node, c: Counters): (w: WalkOut)
    requires n.Element?
    ensures w.node.Element? && w.node.tag == n.tag && w.node.attrs == n.attrs && w.node.tail == None
  {
    var cleared := Element(n.tag, n.attrs, None, [], None);
    if n.text.None? then WalkOut(cleared, c, [])
    else
      var t := RewriteText(n.text.value, c);
      match t.result
      case Dropped => WalkOut(cleared, t.after, t.ids)
      case Kept(s) => WalkOut(Element(n.tag, n.attrs, Some(s), [], None), t.after, t.ids)
      case Wrapped(span) => WalkOut(Append(cleared, span), t.after, t.ids)
  }

  /** One turn of the loop over the children (container.py:273-302), on the
      element q built so far with counters c: the child is rewritten and
      appended, its original tail is rewritten and attached, then the
      paragraph moves on and the segment restarts at 1. The ids are the
      spans this turn made. */
  function ChildStep(q: Node, c: Counters, child: Node): (w: WalkOut)
    requires q.Element?
    ensures w.node.Element? && w.node.tag == q.tag && w.node.attrs == q.attrs && w.node.tail == q.tail
    decreases child, 2
  {
    var r := RewriteNode(child, c);
    var t := TailOut(child, r.after);
    WalkOut(AttachTail(AppendSome(q, r.result), t.result), Counters(t.after.paragraph + 1, 1), r.ids + t.ids)
  }

  /** `if newelem is not None: node.append(newelem)` */
  function AppendSome(q: Node, x: Option<Node>): (r: Node)
    requires q.Element?
    ensures r.Element? && r.tag == q.tag && r.attrs == q.attrs && r.tail == q.tail && r.text == q.text
  {
    if x.Some? then Append(q, x.value) else q
  }

  /** The rewritten tail of child, or Dropped for a missing tail. */
  function TailOut(child: Node, c: Counters): TextOut {
    if child.tail.Some? then RewriteText(child.tail.value, c) else TextOut(Dropped, c, [])
  }

  /** Placing a rewritten tail (container.py:280-299): a span is appended; a
      string becomes the last child's tail or, with no child yet, is merged
      into the element's text, directly when it is a whitespace line and
      after one space otherwise. */
  function AttachTail(p: Node, t: TextResult): (r: Node)
    requires p.Element?
    ensures r.Element? && r.tag == p.tag && r.attrs == p.attrs && r.tail == p.tail
  {
    match t
    case Dropped => p
    case Wrapped(span) => Append(p, span)
    case Kept(s) =>
      if |p.children| > 0 then p.(children := SetLastTail(p.children, s))
      else if WhitespaceLine(s) then Element(p.tag, p.attrs, Some(if p.text.Some? then p.text.value + s else s), p.children, p.tail)
      else Element(p.tag, p.attrs, Some(if p.text.Some? then p.text.value + " " + s else s), p.children, p.tail)
  }

  lemma ProgressExtend(c: Counters, ids: seq<Counters>, d: Counters, e: Counters)
    requires Progress(c, ids, d) && NotAfter(d, e)
    ensures Progress(c, ids, e)
  {
  }

  lemma TailOutCounters(child: Node, c: Counters)
    ensures Progress(c, TailOut(child, c).ids, TailOut(child, c).after)
    ensures TailOut(child, c).after.paragraph == c.paragraph
  {
    if child.tail.Some? {
      RewriteTextCounters(child.tail.value, c);
    }
  }

  // ---------------------------------------------------------------------
  // Ids: every span made is later than the counters before it
  // ---------------------------------------------------------------------

  /** Rewriting a node makes its spans in strictly increasing id order, all
      after the counters it started from and none after the ones it ends
      with. */
  lemma {:induction false} RewriteNodeIds(n: Node, c: Counters)
    ensures Progress(c, RewriteNode(n, c).ids, RewriteNode(n, c).after)
    decreases n, 1
  {
    if n.Element? {
      WalkIds(n, |n.children|, c);
    }
  }

  lemma {:induction false} WalkIds(n: Node, i: nat, c: Counters)
    requires n.Element? && i <= |n.children|
    ensures Progress(c, Walk(n, i, c).ids, Walk(n, i, c).after)
    decreases n, 0, i
  {
    if i == 0 {
      if n.text.Some? {
        RewriteTextCounters(n.text.value, c);
      }
    } else {
      var prev := Walk(n, i - 1, c);
      WalkIds(n, i - 1, c);
      ChildStepIds(prev.node, prev.after, n.children[i - 1]);
      var step := ChildStep(prev.node, prev.after, n.children[i - 1]);
      assert Walk(n, i, c) == WalkOut(step.node, step.after, prev.ids + step.ids);
      ProgressCompose(c, prev.ids, prev.after, step.ids, step.after);
    }
  }

  lemma {:induction false} ChildStepIds(q: Node, c: Counters, child: Node)
    requires q.Element?
    ensures Progress(c, ChildStep(q, c, child).ids, ChildStep(q, c, child).after)
    decreases child, 2
  {
    var r := RewriteNode(child, c);
    var t := TailOut(child, r.after);
    RewriteNodeIds(child, c);
    TailOutCounters(child, r.after);
    ProgressCompose(c, r.ids, r.after, t.ids, t.after);
    ProgressExtend(c, r.ids + t.ids, t.after, Counters(t.after.paragraph + 1, 1));
  }

  // ---------------------------------------------------------------------
  // Appending one child
  // ---------------------------------------------------------------------

  lemma AppendChild(kids: seq<Node>, x: Node)
    ensures KidsMarkers(kids + [x]) == KidsMarkers(kids) + Markers(x)
    ensures KidsContent(kids + [x]) == KidsContent(kids) + Content(x) + Str(x.tail)
    ensures EraseKids(kids + [x]) == EraseKids(kids) + (if x.Comment? || IsMarker(x) then [] else [Erase(x)])
    ensures KidsCommentFree(kids + [x]) <==> KidsCommentFree(kids) && CommentFree(x)
    ensures BlankTails(kids + [x]) <==> BlankTails(kids) && AllSpace(Str(x.tail))
  {
    assert (kids + [x])[..|kids|] == kids;
    assert (kids + [x])[|kids|] == x;
  }

  lemma StringAssoc(a: string, b: string, c: string)
    ensures a + (b + c) == (a + b) + c
  {
  }

  lemma IdStringsAppend(a: seq<Counters>, b: seq<Counters>)
    ensures IdStrings(a + b) == IdStrings(a) + IdStrings(b)
  {
  }

  // ---------------------------------------------------------------------
  // Spans: the spans of the result are exactly the ones made
  // ---------------------------------------------------------------------

  /** On a node without Kobo spans, the spans of the result are exactly the
      spans made, in document order. */
  lemma {:induction false} RewriteNodeMarkers(n: Node, c: Counters)
    requires Markers(n) == []
    ensures var out := RewriteNode(n, c);
      && (out.result.Some? ==> Markers(out.result.value) == IdStrings(out.ids))
      && (out.result.None? ==> out.ids == [])
    decreases n, 1
  {
    if n.Element? {
      WalkMarkers(n, |n.children|, c);
    }
  }

  lemma {:induction false} WalkMarkers(n: Node, i: nat, c: Counters)
    requires n.Element? && i <= |n.children| && KidsMarkers(n.children) == []
    ensures KidsMarkers(Walk(n, i, c).node.children) == IdStrings(Walk(n, i, c).ids)
    decreases n, 0, i
  {
    if i == 0 {
      InstallTextMarkers(n, c);
    } else {
      var prev := Walk(n, i - 1, c);
      var step := ChildStep(prev.node, prev.after, n.children[i - 1]);
      WalkMarkers(n, i - 1, c);
      KidsMarkersMember(n.children, i - 1);
      ChildStepMarkers(prev.node, prev.after, n.children[i - 1]);
      IdStringsAppend(prev.ids, step.ids);
      assert Walk(n, i, c) == WalkOut(step.node, step.after, prev.ids + step.ids);
    }
  }

  lemma InstallTextMarkers(n: Node, c: Counters)
    requires n.Element?
    ensures KidsMarkers(InstallText(n, c).node.children) == IdStrings(InstallText(n, c).ids)
  {
    var w := InstallText(n, c);
    if n.text.Some? {
      var t := RewriteText(n.text.value, c);
      RewriteTextCounters(n.text.value, c);
      assert w.ids == t.ids;
      match t.result
      case Dropped => assert w.node.children == [] && t.ids == [];
      case Kept(_) => assert w.node.children == [] && t.ids == [];
      case Wrapped(span) =>
        assert w.node.children == [] + [span];
        RewriteTextSpan(n.text.value, c);
        AppendChild([], span);
    } else {
      assert w.node.children == [] && w.ids == [];
    }
  }

  lemma TailMarkers(p: Node, child: Node, c: Counters)
    requires p.Element?
    ensures var t := TailOut(child, c);
      KidsMarkers(AttachTail(p, t.result).children) == KidsMarkers(p.children) + IdStrings(t.ids)
  {
    var t := TailOut(child, c);
    if child.tail.Some? {
      RewriteTextCounters(child.tail.value, c);
      match t.result
      case Dropped =>
      case Kept(_) =>
        if |p.children| > 0 {
          SetLastTailMarkers(p.children, t.result.s);
        }
      case Wrapped(span) =>
        RewriteTextSpan(child.tail.value, c);
        AppendChild(p.children, span);
    }
  }

  lemma {:induction false} ResultMarkers(q: Node, c: Counters, child: Node)
    requires q.Element? && Markers(child) == []
    ensures var r := RewriteNode(child, c);
      KidsMarkers(AppendSome(q, r.result).children) == KidsMarkers(q.children) + IdStrings(r.ids)
    decreases child, 2
  {
    var r := RewriteNode(child, c);
    RewriteNodeMarkers(child, c);
    if r.result.Some? {
      AppendChild(q.children, r.result.value);
    }
  }

  lemma {:induction false} ChildStepMarkers(q: Node, c: Counters, child: Node)
    requires q.Element? && Markers(child) == []
    ensures KidsMarkers(ChildStep(q, c, child).node.children) == KidsMarkers(q.children) + IdStrings(ChildStep(q, c, child).ids)
    decreases child, 3
  {
    var r := RewriteNode(child, c);
    var p := AppendSome(q, r.result);
    var t := TailOut(child, r.after);
    var w := ChildStep(q, c, child);
    assert w.node.children == AttachTail(p, t.result).children && w.ids == r.ids + t.ids;
    ResultMarkers(q, c, child);
    TailMarkers(p, child, r.after);
    MarkersChain(q.children, p.children, w.node.children, r.ids, t.ids);
  }

  /** Markers gained in two steps add up. */
  lemma MarkersChain(a: seq<Node>, b: seq<Node>, d: seq<Node>, x: seq<Counters>, y: seq<Counters>)
    requires KidsMarkers(b) == KidsMarkers(a) + IdStrings(x)
    requires KidsMarkers(d) == KidsMarkers(b) + IdStrings(y)
    ensures KidsMarkers(d) == KidsMarkers(a) + IdStrings(x + y)
  {
    IdStringsAppend(x, y);
  }

  // ---------------------------------------------------------------------
  // Text: the visible characters survive, in order
  // ---------------------------------------------------------------------

  /** Rewriting keeps the visible (non-whitespace) characters of a node's
      content in document order; only whitespace is added or lost. */
  lemma {:induction false} RewriteNodeContent(n: Node, c: Counters)
    ensures var out := RewriteNode(n, c);
      out.result.Some? ==> NonSpace(Content(out.result.value)) == NonSpace(Content(n))
    decreases n, 1
  {
    if n.Element? {
      WalkContent(n, |n.children|, c);
      assert n.children[..|n.children|] == n.children;
    }
  }

  lemma {:induction false} WalkContent(n: Node, i: nat, c: Counters)
    requires n.Element? && i <= |n.children|
    ensures NonSpace(Content(Walk(n, i, c).node)) == NonSpace(Str(n.text) + KidsContent(n.children[..i]))
    ensures BlankTails(Walk(n, i, c).node.children)
    decreases n, 0, i
  {
    if i == 0 {
      InstallTextContent(n, c);
      ContentNoneBefore(n);
    } else {
      var prev := Walk(n, i - 1, c);
      WalkContent(n, i - 1, c);
      WalkStepContent(n, i, prev.node, prev.after);
    }
  }

  /** One turn of the walk extends the content by the next child and its
      tail. */
  lemma WalkStepContent(n: Node, i: nat, p: Node, pc: Counters)
    requires n.Element? && 0 < i <= |n.children| && p.Element? && BlankTails(p.children)
    requires NonSpace(Content(p)) == NonSpace(Str(n.text) + KidsContent(n.children[..i - 1]))
    ensures NonSpace(Content(ChildStep(p, pc, n.children[i - 1]).node))
      == NonSpace(Str(n.text) + KidsContent(n.children[..i]))
    ensures BlankTails(ChildStep(p, pc, n.children[i - 1]).node.children)
    decreases n.children[i - 1], 4
  {
    var child := n.children[i - 1];
    ChildStepContent(p, pc, child);
    ContentStep(n, i, p, ChildStep(p, pc, child).node);
  }
  lemma ContentNoneBefore(n: Node)
    requires n.Element?
    ensures Str(n.text) + KidsContent(n.children[..0]) == Str(n.text)
  {
    assert n.children[..0] == [];
  }

  /** The induction step of WalkContent, on the trees alone. */
  lemma ContentStep(n: Node, i: nat, p: Node, q: Node)
    requires n.Element? && 0 < i <= |n.children|
    requires NonSpace(Content(p)) == NonSpace(Str(n.text) + KidsContent(n.children[..i - 1]))
    requires NonSpace(Content(q))
      == NonSpace(Content(p)) + NonSpace(Content(n.children[i - 1])) + NonSpace(Str(n.children[i - 1].tail))
    ensures NonSpace(Content(q)) == NonSpace(Str(n.text) + KidsContent(n.children[..i]))
  {
    var child := n.children[i - 1];
    var kc := KidsContent(n.children[..i - 1]);
    KidsContentPrefix(n.children, i - 1);
    assert KidsContent(n.children[..i]) == kc + Content(child) + Str(child.tail);
    NonSpaceExtend(Content(p), Str(n.text), kc, Content(child), Str(child.tail));
  }

  /** The content of the first k + 1 children. */
  lemma KidsContentPrefix(kids: seq<Node>, k: nat)
    requires k < |kids|
    ensures KidsContent(kids[..k + 1]) == KidsContent(kids[..k]) + Content(kids[k]) + Str(kids[k].tail)
  {
    var p := kids[..k + 1];
    assert p[..|p| - 1] == kids[..k];
    assert p[|p| - 1] == kids[k];
  }

  /** Visible characters of a text followed by more children. */
  lemma NonSpaceExtend(p: string, t: string, kc: string, x: string, y: string)
    requires NonSpace(p) == NonSpace(t + kc)
    ensures NonSpace(p) + NonSpace(x) + NonSpace(y) == NonSpace(t + (kc + x + y))
  {
    NonSpaceAppend(t, kc);
    NonSpaceAppend(t, kc + x + y);
    NonSpaceAppend(kc, x);
    NonSpaceAppend(kc + x, y);
    var a, b, d, e := NonSpace(t), NonSpace(kc), NonSpace(x), NonSpace(y);
    StringAssoc(a, b + d, e);
    StringAssoc(a, b, d);
  }

  lemma InstallTextContent(n: Node, c: Counters)
    requires n.Element?
    ensures NonSpace(Content(InstallText(n, c).node)) == NonSpace(Str(n.text))
    ensures BlankTails(InstallText(n, c).node.children)
  {
    var cleared := Element(n.tag, n.attrs, None, [], None);
    ContentNoKids(cleared);
    if n.text.Some? {
      var t := RewriteText(n.text.value, c);
      RewriteTextKinds(n.text.value, c);
      match t.result
      case Dropped =>
      case Kept(s) =>
        ContentNoKids(InstallText(n, c).node);
      case Wrapped(span) =>
        RewriteTextSpan(n.text.value, c);
        AppendContent(cleared, span);
    }
  }

  lemma ContentNoKids(p: Node)
    requires p.Element? && p.children == []
    ensures Content(p) == Str(p.text)
  {
    assert Content(p) == Str(p.text) + "";
  }

  /** Appending a child without a tail adds its content. */
  lemma AppendContent(q: Node, x: Node)
    requires q.Element? && x.tail == None
    ensures NonSpace(Content(Append(q, x))) == NonSpace(Content(q)) + NonSpace(Content(x))
    ensures BlankTails(q.children) ==> BlankTails(Append(q, x).children)
  {
    var kids := q.children;
    AppendChild(kids, x);
    assert KidsContent(kids + [x]) == KidsContent(kids) + Content(x);
    assert Content(Append(q, x)) == Str(q.text) + KidsContent(kids + [x]);
    StringAssoc(Str(q.text), KidsContent(kids), Content(x));
    NonSpaceAppend(Content(q), Content(x));
  }

  lemma {:induction false} ResultContent(q: Node, c: Counters, child: Node)
    requires q.Element? && BlankTails(q.children)
    ensures var r := RewriteNode(child, c);
      && NonSpace(Content(AppendSome(q, r.result))) == NonSpace(Content(q)) + NonSpace(Content(child))
      && BlankTails(AppendSome(q, r.result).children)
    decreases child, 2
  {
    var r := RewriteNode(child, c);
    RewriteNodeContent(child, c);
    if r.result.Some? {
      AppendContent(q, r.result.value);
    } else {
      assert NonSpace(Content(child)) == "";
    }
  }

  /** A whitespace tail in place of the last child's whitespace tail leaves
      the visible characters as they were. */
  lemma SetLastTailContent(kids: seq<Node>, s: string)
    requires kids != [] && BlankTails(kids) && AllSpace(s)
    ensures NonSpace(KidsContent(SetLastTail(kids, s))) == NonSpace(KidsContent(kids))
    ensures BlankTails(SetLastTail(kids, s))
  {
    var m := |kids| - 1;
    var pre := KidsContent(kids[..m]) + Content(kids[m]);
    SetLastTailUnfold(kids, s);
    NonSpaceAppend(pre, s);
    NonSpaceAppend(pre, Str(kids[m].tail));
    NonSpaceOfBlank(s);
    NonSpaceOfBlank(Str(kids[m].tail));
    SetLastTailBlank(kids, s);
  }

  lemma SetLastTailUnfold(kids: seq<Node>, s: string)
    requires kids != []
    ensures var m := |kids| - 1;
      && KidsContent(SetLastTail(kids, s)) == KidsContent(kids[..m]) + Content(kids[m]) + s
      && KidsContent(kids) == KidsContent(kids[..m]) + Content(kids[m]) + Str(kids[m].tail)
  {
    var r := SetLastTail(kids, s);
    var m := |kids| - 1;
    assert r[..m] == kids[..m];
  }

  lemma SetLastTailBlank(kids: seq<Node>, s: string)
    requires kids != [] && BlankTails(kids) && AllSpace(s)
    ensures BlankTails(SetLastTail(kids, s))
  {
  }

  /** Merging a whitespace tail into the text, with or without a space. */
  lemma MergeBlankText(text: Option<string>, s: string, sep: string)
    requires AllSpace(s) && AllSpace(sep)
    ensures NonSpace(if text.Some? then text.value + sep + s else s) == NonSpace(Str(text))
  {
    NonSpaceOfBlank(s);
    NonSpaceOfBlank(sep);
    if text.Some? {
      NonSpaceAppend(text.value, sep);
      NonSpaceAppend(text.value + sep, s);
    }
  }

  lemma TailContent(p: Node, child: Node, c: Counters)
    requires p.Element? && BlankTails(p.children)
    ensures var t := TailOut(child, c);
      && NonSpace(Content(AttachTail(p, t.result))) == NonSpace(Content(p)) + NonSpace(Str(child.tail))
      && BlankTails(AttachTail(p, t.result).children)
  {
    var t := TailOut(child, c);
    if child.tail.None? {
      assert NonSpace(Str(child.tail)) == "";
    } else {
      var s := child.tail.value;
      RewriteTextKinds(s, c);
      match t.result
      case Dropped =>
        assert NonSpace(s) == "";
      case Kept(_) =>
        NonSpaceOfBlank(s);
        if |p.children| > 0 {
          SetLastTailContent(p.children, s);
          var r := AttachTail(p, t.result);
          NonSpaceAppend(Str(p.text), KidsContent(p.children));
          NonSpaceAppend(Str(p.text), KidsContent(r.children));
        } else {
          ContentNoKids(p);
          ContentNoKids(AttachTail(p, t.result));
          if WhitespaceLine(s) {
            MergeBlankText(p.text, s, "");
            assert (if p.text.Some? then p.text.value + "" + s else s) == (if p.text.Some? then p.text.value + s else s);
          } else {
            MergeBlankText(p.text, s, " ");
          }
        }
      case Wrapped(span) =>
        RewriteTextSpan(s, c);
        AppendContent(p, span);
    }
  }

  lemma {:induction false} ChildStepContent(q: Node, c: Counters, child: Node)
    requires q.Element? && BlankTails(q.children)
    ensures NonSpace(Content(ChildStep(q, c, child).node))
      == NonSpace(Content(q)) + NonSpace(Content(child)) + NonSpace(Str(child.tail))
    ensures BlankTails(ChildStep(q, c, child).node.children)
    decreases child, 3
  {
    var r := RewriteNode(child, c);
    ResultContent(q, c, child);
    TailContent(AppendSome(q, r.result), child, r.after);
  }

  // ---------------------------------------------------------------------
  // Shape: elements, attributes and instructions stay, comments go
  // ---------------------------------------------------------------------

  /** Rewriting keeps every element (tag and attributes) and processing
      instruction in place, adds only Kobo spans, removes every comment, and
      leaves no comment behind. */
  lemma {:induction false} RewriteNodeShape(n: Node, c: Counters)
    ensures var out := RewriteNode(n, c);
      out.result.Some? ==>
        && Erase(out.result.value) == Erase(n)
        && IsMarker(out.result.value) == IsMarker(n)
        && CommentFree(out.result.value)
    decreases n, 1
  {
    if n.Element? {
      WalkShape(n, |n.children|, c);
      assert n.children[..|n.children|] == n.children;
    }
  }

  lemma {:induction false} WalkShape(n: Node, i: nat, c: Counters)
    requires n.Element? && i <= |n.children|
    ensures EraseKids(Walk(n, i, c).node.children) == EraseKids(n.children[..i])
    ensures KidsCommentFree(Walk(n, i, c).node.children)
    decreases n, 0, i
  {
    if i == 0 {
      InstallTextShape(n, c);
      assert n.children[..0] == [];
    } else {
      var prev := Walk(n, i - 1, c);
      var step := ChildStep(prev.node, prev.after, n.children[i - 1]);
      assert Walk(n, i, c).node == step.node;
      WalkShape(n, i - 1, c);
      ChildStepShape(prev.node, prev.after, n.children[i - 1]);
      assert n.children[..i][..i - 1] == n.children[..i - 1];
      assert n.children[..i][i - 1] == n.children[i - 1];
    }
  }

  lemma InstallTextShape(n: Node, c: Counters)
    requires n.Element?
    ensures EraseKids(InstallText(n, c).node.children) == []
    ensures KidsCommentFree(InstallText(n, c).node.children)
  {
    var w := InstallText(n, c);
    if n.text.Some? {
      var t := RewriteText(n.text.value, c);
      match t.result
      case Dropped => assert w.node.children == [];
      case Kept(_) => assert w.node.children == [];
      case Wrapped(span) =>
        assert w.node.children == [] + [span];
        RewriteTextSpan(n.text.value, c);
        AppendChild([], span);
    } else {
      assert w.node.children == [];
    }
  }

  lemma {:induction false} ResultShape(q: Node, c: Counters, child: Node)
    requires q.Element? && KidsCommentFree(q.children)
    ensures var r := RewriteNode(child, c);
      && EraseKids(AppendSome(q, r.result).children)
         == EraseKids(q.children) + (if child.Comment? || IsMarker(child) then [] else [Erase(child)])
      && KidsCommentFree(AppendSome(q, r.result).children)
    decreases child, 2
  {
    var r := RewriteNode(child, c);
    RewriteNodeShape(child, c);
    if r.result.Some? {
      AppendChild(q.children, r.result.value);
    }
  }

  lemma TailShape(p: Node, child: Node, c: Counters)
    requires p.Element? && KidsCommentFree(p.children)
    ensures var t := TailOut(child, c);
      && EraseKids(AttachTail(p, t.result).children) == EraseKids(p.children)
      && KidsCommentFree(AttachTail(p, t.result).children)
  {
    var t := TailOut(child, c);
    if child.tail.Some? {
      match t.result
      case Dropped =>
      case Kept(s) =>
        if |p.children| > 0 {
          SetLastTailErase(p.children, s);
          SetLastTailCommentFree(p.children, s);
        }
      case Wrapped(span) =>
        RewriteTextSpan(child.tail.value, c);
        AppendChild(p.children, span);
    }
  }

  lemma {:induction false} ChildStepShape(q: Node, c: Counters, child: Node)
    requires q.Element? && KidsCommentFree(q.children)
    ensures EraseKids(ChildStep(q, c, child).node.children)
      == EraseKids(q.children) + (if child.Comment? || IsMarker(child) then [] else [Erase(child)])
    ensures KidsCommentFree(ChildStep(q, c, child).node.children)
    decreases child, 3
  {
    var r := RewriteNode(child, c);
    ResultShape(q, c, child);
    TailShape(AppendSome(q, r.result), child, r.after);
  }

  // ---------------------------------------------------------------------
  // One document (container.py:306-322)
  // ---------------------------------------------------------------------

  /** What `./xhtml:body` selects. */
  predicate IsBody(n: Node) {
    n.Element? && n.tag == BodyTag
  }

  /** The position of the first body at or after from. */
  function FirstBody(kids: seq<Node>, from: nat): (r: Option<nat>)
    requires from <= |kids|
    ensures r.Some? ==>
      (from <= r.value < |kids| && IsBody(kids[r.value])
       && forall j :: from <= j < r.value ==> !IsBody(kids[j]))
    ensures r.None? ==> forall j :: from <= j < |kids| ==> !IsBody(kids[j])
    decreases |kids| - from
  {
    if from == |kids| then None
    else if IsBody(kids[from]) then Some(from)
    else FirstBody(kids, from + 1)
  }

  /** `root.xpath('./xhtml:body')[0]`, or None when the list is empty. */
  function BodyIndex(root: Node): (r: Option<nat>)
    ensures r.Some? ==> root.Element? && r.value < |root.children| && IsBody(root.children[r.value])
    ensures r.None? ==> !root.Element? || forall j :: 0 <= j < |root.children| ==> !IsBody(root.children[j])
  {
    if root.Element? then FirstBody(root.children, 0) else None
  }

  /** What add_kobo_spans does to one document: skip it when a Kobo span is
      already below the root, fail (the IndexError of `[0]`) when there is no
      body, otherwise rewrite the first body from counters (1, 0). */
  datatype DocOutcome = Skipped | MissingBody | Done(root: Node, ids: seq<Counters>, after: Counters)

  function AddSpansToDocument(root: Node): DocOutcome {
    if HasMarkerBelow(root) then Skipped
    else match BodyIndex(root)
      case None => MissingBody
      case Some(k) =>
        var out := RewriteNode(root.children[k], Counters(1, 0));
        Done(root.(children := root.children[k := out.result.value]), out.ids, out.after)
  }

  /** The guard: a document is skipped exactly when it already holds a Kobo
      span, and a rewritten document keeps the root's tag and attributes,
      every child other than the body, and the body's position. */
  lemma AddSpansToDocumentCases(root: Node)
    ensures AddSpansToDocument(root).Skipped? <==> HasMarkerBelow(root)
    ensures AddSpansToDocument(root).MissingBody? <==> !HasMarkerBelow(root) && BodyIndex(root).None?
    ensures var d := AddSpansToDocument(root);
      d.Done? ==>
        && root.Element? && d.root.Element?
        && d.root.tag == root.tag && d.root.attrs == root.attrs && d.root.text == root.text
        && |d.root.children| == |root.children|
        && var k := BodyIndex(root).value;
           && (forall j :: 0 <= j < |root.children| && j != k ==> d.root.children[j] == root.children[j])
           && IsBody(d.root.children[k])
  {
  }

  /** In a rewritten document the Kobo spans are exactly the spans made, in
      document order; their ids strictly increase from kobo.1.1 on and are
      pairwise different; and the document keeps its shape and holds no
      comment in the body. */
  lemma AddSpansToDocumentSpans(root: Node)
    requires AddSpansToDocument(root).Done?
    ensures var d := AddSpansToDocument(root);
      && KidsMarkers(d.root.children) == IdStrings(d.ids)
      && (forall i :: 0 <= i < |d.ids| ==> Before(Counters(1, 0), d.ids[i]))
      && (forall i, j :: 0 <= i < j < |d.ids| ==> Before(d.ids[i], d.ids[j]))
      && (forall i, j :: 0 <= i < j < |d.ids| ==> IdStrings(d.ids)[i] != IdStrings(d.ids)[j])
      && Erase(d.root) == Erase(root)
      && CommentFree(d.root.children[BodyIndex(root).value])
  {
    var d := AddSpansToDocument(root);
    var k := BodyIndex(root).value;
    var body := root.children[k];
    var out := RewriteNode(body, Counters(1, 0));
    KidsMarkersMember(root.children, k);
    RewriteNodeMarkers(body, Counters(1, 0));
    KidsMarkersReplace(root.children, k, out.result.value);
    RewriteNodeIds(body, Counters(1, 0));
    IncreasingIdsDistinct(Counters(1, 0), out.ids, out.after);
    RewriteNodeShape(body, Counters(1, 0));
    EraseKidsReplace(root.children, k, out.result.value);
  }

  /** Running the pass again over a document in which it made a span skips
      that document: the guard sees the spans of the first run. */
  lemma AddSpansTwice(root: Node)
    requires AddSpansToDocument(root).Done? && AddSpansToDocument(root).ids != []
    ensures AddSpansToDocument(AddSpansToDocument(root).root).Skipped?
  {
    AddSpansToDocumentSpans(root);
  }

  /** A document that received no span (its body holds only whitespace) is
      not skipped by a second pass, which rewrites it into itself and makes
      no span. */
  lemma AddSpansTwiceBlank(root: Node)
    requires AddSpansToDocument(root).Done? && AddSpansToDocument(root).ids == []
    ensures var d := AddSpansToDocument(root);
      var again := AddSpansToDocument(d.root);
      again.Done? && again.root == d.root && again.ids == []
  {
    var d := AddSpansToDocument(root);
    AddSpansToDocumentSpans(root);
    AddSpansToDocumentCases(root);
    assert !HasMarkerBelow(d.root);
    var k := BodyIndex(root).value;
    SameBodyIndex(root, d.root, k);
    var out := RewriteNode(root.children[k], Counters(1, 0));
    var body := out.result.value;
    assert d.root.children[k] == body;
    RewriteNodeSettles(root.children[k], Counters(1, 0));
    RewriteNodeSettled(body, Counters(1, 0));
    assert d.root.children[k := body] == d.root.children;
  }

  /** Replacing the first body by another body keeps its position. */
  lemma SameBodyIndex(root: Node, root2: Node, k: nat)
    requires BodyIndex(root) == Some(k)
    requires root2.Element? && |root2.children| == |root.children| && IsBody(root2.children[k])
    requires forall j :: 0 <= j < |root.children| && j != k ==> root2.children[j] == root.children[j]
    ensures BodyIndex(root2) == Some(k)
  {
  }

  /** A text or tail the pass leaves as it is: absent, or a non-empty
      whitespace run. */
  predicate BlankRun(t: Option<string>) {
    t.None? || (t.value != "" && AllSpace(t.value))
  }

  /** A tree without comments whose texts and tails are all absent or
      non-empty whitespace runs: what the pass makes of a tree when it makes
      no span, and what it leaves unchanged. A node's own tail is not
      constrained, since its parent places it. */
  predicate Settled(n: Node) {
    match n
    case Comment(_, _) => false
    case Instruction(_, _, _) => true
    case Element(_, _, text, children, _) =>
      BlankRun(text) && forall i :: 0 <= i < |children| ==> Settled(children[i]) && BlankRun(children[i].tail)
  }

  /** A rewrite that makes no span gives a settled tree. */
  lemma {:induction false} RewriteNodeSettles(n: Node, c: Counters)
    requires RewriteNode(n, c).result.Some? && RewriteNode(n, c).ids == []
    ensures Settled(RewriteNode(n, c).result.value)
    decreases n, 1
  {
    if n.Element? {
      WalkSettles(n, |n.children|, c);
    }
  }

  lemma {:induction false} WalkSettles(n: Node, i: nat, c: Counters)
    requires n.Element? && i <= |n.children| && Walk(n, i, c).ids == []
    ensures Settled(Walk(n, i, c).node)
    decreases n, 0, i
  {
    if i == 0 {
      InstallTextSettles(n, c);
    } else {
      var prev := Walk(n, i - 1, c);
      var child := n.children[i - 1];
      var step := ChildStep(prev.node, prev.after, child);
      assert Walk(n, i, c).ids == prev.ids + step.ids;
      WalkSettles(n, i - 1, c);
      ChildStepSettles(prev.node, prev.after, child);
    }
  }

  lemma InstallTextSettles(n: Node, c: Counters)
    requires n.Element? && InstallText(n, c).ids == []
    ensures Settled(InstallText(n, c).node)
  {
    var w := InstallText(n, c);
    if n.text.Some? {
      var t := RewriteText(n.text.value, c);
      RewriteTextKinds(n.text.value, c);
      RewriteTextCounters(n.text.value, c);
      assert w.node.children == [];
    } else {
      assert w.node.children == [];
    }
  }

  lemma {:induction false} ChildStepSettles(q: Node, c: Counters, child: Node)
    requires q.Element? && Settled(q) && ChildStep(q, c, child).ids == []
    ensures Settled(ChildStep(q, c, child).node)
    decreases child, 2
  {
    var r := RewriteNode(child, c);
    var t := TailOut(child, r.after);
    assert r.ids + t.ids == [];
    var p := AppendSome(q, r.result);
    if r.result.Some? {
      RewriteNodeSettles(child, c);
      SettledAppend(q, r.result.value);
    }
    if child.tail.Some? {
      RewriteTextKinds(child.tail.value, r.after);
      RewriteTextCounters(child.tail.value, r.after);
    }
    SettledAttach(p, t.result);
  }

  lemma SettledAppend(q: Node, x: Node)
    requires q.Element? && Settled(q) && Settled(x) && x.tail == None
    ensures Settled(Append(q, x))
  {
    var a := Append(q, x);
    forall i | 0 <= i < |a.children| ensures Settled(a.children[i]) && BlankRun(a.children[i].tail) {
      if i < |q.children| {
        assert a.children[i] == q.children[i];
      }
    }
  }

  /** Placing a tail that made no span keeps a tree settled. */
  lemma SettledAttach(p: Node, t: TextResult)
    requires p.Element? && Settled(p) && !t.Wrapped?
    requires t.Kept? ==> t.s != "" && AllSpace(t.s)
    ensures Settled(AttachTail(p, t))
  {
    if t.Kept? {
      var r := AttachTail(p, t);
      if |p.children| > 0 {
        var m := |p.children| - 1;
        forall i | 0 <= i < |r.children| ensures Settled(r.children[i]) && BlankRun(r.children[i].tail) {
          if i < m {
            assert r.children[i] == r.children[..m][i] == p.children[i];
          } else {
            SettledRetail(p.children[m], Some(t.s));
          }
        }
      } else {
        WhitespaceLineOfBlank(t.s);
        var x := if p.text.Some? then p.text.value + t.s else t.s;
        assert r.text == Some(x);
        assert AllSpace(x) by {
          forall i | 0 <= i < |x| ensures IsSpace(x[i]) {
            if p.text.Some? && i < |p.text.value| {
              assert x[i] == p.text.value[i];
            } else if p.text.Some? {
              assert x[i] == t.s[i - |p.text.value|];
            }
          }
        }
      }
    }
  }

  lemma SettledRetail(x: Node, tail: Option<string>)
    requires Settled(x)
    ensures Settled(x.(tail := tail))
  {
  }

  /** A settled tree is rewritten into itself, without its tail, and the
      rewrite makes no span. */
  lemma {:induction false} RewriteNodeSettled(n: Node, c: Counters)
    requires Settled(n)
    ensures RewriteNode(n, c).ids == [] && RewriteNode(n, c).result == Some(n.(tail := None))
    decreases n, 1
  {
    if n.Element? {
      WalkSettled(n, |n.children|, c);
      assert n.children[..|n.children|] == n.children;
    }
  }

  lemma {:induction false} WalkSettled(n: Node, i: nat, c: Counters)
    requires n.Element? && Settled(n) && i <= |n.children|
    ensures Walk(n, i, c).ids == []
    ensures Walk(n, i, c).node == Element(n.tag, n.attrs, n.text, n.children[..i], None)
    decreases n, 0, i
  {
    if i == 0 {
      InstallTextSettled(n, c);
      assert n.children[..0] == [];
    } else {
      var prev := Walk(n, i - 1, c);
      WalkSettled(n, i - 1, c);
      WalkSettledStep(n, i, prev.node, prev.after);
    }
  }

  lemma WalkSettledStep(n: Node, i: nat, q: Node, c: Counters)
    requires n.Element? && Settled(n) && 0 < i <= |n.children|
    requires q == Element(n.tag, n.attrs, n.text, n.children[..i - 1], None)
    ensures ChildStep(q, c, n.children[i - 1]).ids == []
    ensures ChildStep(q, c, n.children[i - 1]).node == Element(n.tag, n.attrs, n.text, n.children[..i], None)
    decreases n.children[i - 1], 3
  {
    var child := n.children[i - 1];
    assert Settled(child) && BlankRun(child.tail);
    ChildStepSettled(q, c, child);
    assert n.children[..i - 1] + [child] == n.children[..i];
  }

  lemma InstallTextSettled(n: Node, c: Counters)
    requires n.Element? && BlankRun(n.text)
    ensures InstallText(n, c).ids == []
    ensures InstallText(n, c).node == Element(n.tag, n.attrs, n.text, [], None)
  {
    if n.text.Some? {
      RewriteTextKinds(n.text.value, c);
      RewriteTextCounters(n.text.value, c);
    }
  }

  lemma {:induction false} ChildStepSettled(q: Node, c: Counters, child: Node)
    requires q.Element? && Settled(child) && BlankRun(child.tail)
    ensures ChildStep(q, c, child).ids == []
    ensures ChildStep(q, c, child).node == q.(children := q.children + [child])
    decreases child, 2
  {
    var r := RewriteNode(child, c);
    RewriteNodeSettled(child, c);
    var p := Append(q, child.(tail := None));
    assert AppendSome(q, r.result) == p;
    if child.tail.Some? {
      var s := child.tail.value;
      RewriteTextKinds(s, r.after);
      RewriteTextCounters(s, r.after);
      var kids := SetLastTail(p.children, s);
      assert kids[..|kids| - 1] == q.children;
      assert kids == q.children + [child];
    }
  }

  // ---------------------------------------------------------------------
  // All documents (container.py:306-322)
  // ---------------------------------------------------------------------

  /** The container's state during add_kobo_spans: the documents, the
      dirtied ones and the counters. */
  datatype PassState = PassState(docs: seq<Node>, dirtied: set<nat>, counters: Counters)

  /** The state after add_kobo_spans has been through the first k documents.
      A skipped document changes nothing; any other resets the counters
      before it looks for the body, and a rewritten one is replaced and
      dirtied. A document without a body only resets the counters here and
      the pass goes on; the program raises there (container.py:315) and
      never goes on. So the function is used only up to and including the
      first such document, which is how `AddKoboSpans` uses it. */
  function PassUpTo(start: PassState, k: nat): (r: PassState)
    requires k <= |start.docs|
    ensures |r.docs| == |start.docs|
    ensures forall j :: k <= j < |start.docs| ==> r.docs[j] == start.docs[j]
  {
    if k == 0 then start
    else
      var prev := PassUpTo(start, k - 1);
      match AddSpansToDocument(start.docs[k - 1])
      case Skipped => prev
      case MissingBody => prev.(counters := Counters(1, 0))
      case Done(root, ids, after) => PassState(prev.docs[k - 1 := root], prev.dirtied + {k - 1}, after)
  }

  /** One more document of the pass, by the guard and the body lookup that
      decide its outcome. */
  lemma PassUpToNext(start: PassState, k: nat)
    requires k < |start.docs|
    ensures var prev := PassUpTo(start, k);
      var root := start.docs[k];
      && (HasMarkerBelow(root) ==> PassUpTo(start, k + 1) == prev)
      && (!HasMarkerBelow(root) && BodyIndex(root).Some? ==>
            var b := BodyIndex(root).value;
            var out := RewriteNode(root.children[b], Counters(1, 0));
            PassUpTo(start, k + 1)
              == PassState(prev.docs[k := root.(children := root.children[b := out.result.value])], prev.dirtied + {k}, out.after))
  {
  }

  /** Each document's outcome depends on that document alone: after the
      pass, a skipped document is as it was, and any other is the rewrite of
      its original. The documents passed all have a body, as in every run
      the program makes. */
  lemma {:induction false} PassUpToDocuments(start: PassState, k: nat)
    requires k <= |start.docs|
    requires forall j :: 0 <= j < k ==> !AddSpansToDocument(start.docs[j]).MissingBody?
    ensures forall j :: 0 <= j < k ==>
      && (AddSpansToDocument(start.docs[j]).Skipped? ==> PassUpTo(start, k).docs[j] == start.docs[j])
      && (AddSpansToDocument(start.docs[j]).Done? ==> PassUpTo(start, k).docs[j] == AddSpansToDocument(start.docs[j]).root)
  {
    if k > 0 {
      PassUpToDocuments(start, k - 1);
      var prev, r := PassUpTo(start, k - 1), PassUpTo(start, k);
      var out := AddSpansToDocument(start.docs[k - 1]);
      assert out.Skipped? ==> r.docs == prev.docs;
      assert out.Done? ==> r.docs == prev.docs[k - 1 := out.root];
    }
  }

  /** The pass dirties exactly the documents it rewrites. Past a document
      without a body this describes a run the program never makes, because
      it stops with an error at the first such document. */
  lemma {:induction false} PassUpToDirtied(start: PassState, k: nat)
    requires k <= |start.docs|
    ensures forall j: nat :: j in PassUpTo(start, k).dirtied <==>
      (j in start.dirtied || (j < k && AddSpansToDocument(start.docs[j]).Done?))
  {
    if k > 0 {
      PassUpToDirtied(start, k - 1);
    }
  }
}
