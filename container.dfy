/** KEPubContainer: the container of parsed content documents that the two
    passes work on. The passes run here as the source runs them, step by step
    on the container's counters and documents; each method is proved to
    compute what the functions of the Spans and Hyphenation modules describe,
    so that what is proved there holds of the container. */
module Container {
  import opened Wrappers
  import opened Text
  import opened Tree
  import opened Spans
  import opened Hyphenation

  // ---------------------------------------------------------------------
  // fix_tail (container.py:97-109)
  // ---------------------------------------------------------------------

  /** The parent after fix_tail on its child at idx: that child takes the
      parent's text as tail when it is first, otherwise its left sibling's
      tail, and when it is also last that sibling takes the parent's text. */
  function FixedTail(parent: Node, idx: nat): (r: Node)
    requires parent.Element? && idx < |parent.children|
  {
    var kids := parent.children;
    if idx == 0 then
      parent.(children := kids[0 := kids[0].(tail := parent.text)])
    else
      var moved := kids[idx := kids[idx].(tail := kids[idx - 1].tail)];
      if idx == |kids| - 1 then
        parent.(children := moved[idx - 1 := kids[idx - 1].(tail := parent.text)])
      else
        parent.(children := moved)
  }

  /** The text of a tree is the same when only blank tails move: if the
      parent's text and every tail are whitespace, fix_tail leaves the
      visible characters of the parent and the blankness of its tails as
      they were. */
  lemma FixedTailKeepsText(parent: Node, idx: nat)
    requires parent.Element? && idx < |parent.children|
    requires AllSpace(Str(parent.text)) && BlankTails(parent.children)
    ensures NonSpace(Content(FixedTail(parent, idx))) == NonSpace(Content(parent))
    ensures BlankTails(FixedTail(parent, idx).children)
  {
    var r := FixedTail(parent, idx);
    assert r.text == parent.text;
    forall k | 0 <= k < |r.children|
      ensures Content(r.children[k]) == Content(parent.children[k])
      ensures AllSpace(Str(r.children[k].tail))
    {
      assert r.children[k] == parent.children[k].(tail := r.children[k].tail);
      assert r.children[k].tail == parent.text
        || exists j :: 0 <= j < |parent.children| && r.children[k].tail == parent.children[j].tail;
    }
    RetailedContent(r.children, parent.children);
    NonSpaceAppend(Str(r.text), KidsContent(r.children));
    NonSpaceAppend(Str(parent.text), KidsContent(parent.children));
  }

  /** Two lists of children with the same contents and blank tails carry
      the same visible characters. */
  lemma {:induction false} RetailedContent(xs: seq<Node>, ys: seq<Node>)
    requires |xs| == |ys| && BlankTails(xs) && BlankTails(ys)
    requires forall k :: 0 <= k < |xs| ==> Content(xs[k]) == Content(ys[k])
    ensures NonSpace(KidsContent(xs)) == NonSpace(KidsContent(ys))
    decreases |xs|
  {
    if xs != [] {
      var m := |xs| - 1;
      RetailedContent(xs[..m], ys[..m]);
      NonSpaceAppend(KidsContent(xs[..m]) + Content(xs[m]), Str(xs[m].tail));
      NonSpaceAppend(KidsContent(xs[..m]), Content(xs[m]));
      NonSpaceAppend(KidsContent(ys[..m]) + Content(ys[m]), Str(ys[m].tail));
      NonSpaceAppend(KidsContent(ys[..m]), Content(ys[m]));
      NonSpaceOfBlank(Str(xs[m].tail));
      NonSpaceOfBlank(Str(ys[m].tail));
    }
  }

  /** The counters and documents of a container, and the passes over them. */
  class KEPubContainer {
    var paragraphCounter: nat
    var segmentCounter: nat
    /** The parsed content documents, in the order of get_html_names(). */
    var documents: seq<Node>
    /** The positions of the documents marked dirty. */
    var dirtied: set<nat>

    /** A container over the given documents, with both counters at their
        class defaults of 0 (container.py:56-57) and nothing dirty. */
    constructor(docs: seq<Node>)
      ensures paragraphCounter == 0 && segmentCounter == 0
      ensures documents == docs && dirtied == {}
    {
      paragraphCounter := 0;
      segmentCounter := 0;
      documents := docs;
      dirtied := {};
    }

    /** fix_tail on the child at idx of parent: the moved tails as stated,
        every other child, and the parent's own fields, unchanged. */
    method FixTail(parent: Node, idx: nat) returns (r: Node)
      requires parent.Element? && idx < |parent.children|
      ensures r == FixedTail(parent, idx)
      ensures r.Element? && r.tag == parent.tag && r.attrs == parent.attrs
      ensures r.text == parent.text && r.tail == parent.tail
      ensures |r.children| == |parent.children|
      ensures idx == 0 ==> r.children[0] == parent.children[0].(tail := parent.text)
      ensures idx > 0 ==> r.children[idx] == parent.children[idx].(tail := parent.children[idx - 1].tail)
      ensures 0 < idx == |parent.children| - 1 ==>
        r.children[idx - 1] == parent.children[idx - 1].(tail := parent.text)
      ensures forall j :: (0 <= j < |parent.children| && j != idx
        && !(0 < idx == |parent.children| - 1 && j == idx - 1)) ==> r.children[j] == parent.children[j]
    {
      var kids := parent.children;
      var item := kids[idx];
      if idx == 0 {
        kids := kids[0 := item.(tail := parent.text)];
      } else {
        var prev := kids[idx - 1];
        kids := kids[idx := item.(tail := prev.tail)];
        if idx == |kids| - 1 {
          kids := kids[idx - 1 := prev.(tail := parent.text)];
        }
      }
      r := parent.(children := kids);
    }

    // -------------------------------------------------------------------
    // __add_kobo_spans_to_node (container.py:210-303)
    // -------------------------------------------------------------------

    /** The string branch: the segment counter moves on, the run s is split
        into chunks, a whitespace run comes back as it is, one without chunks
        as None, and the chunks of any other are placed into a container
        span. The result and the counters are RewriteText's. */
    method AddSpansToText(s: string) returns (r: TextResult)
      modifies this`paragraphCounter, this`segmentCounter
      ensures var out := RewriteText(s, old(Counters(paragraphCounter, segmentCounter)));
        && r == out.result
        && Counters(paragraphCounter, segmentCounter) == out.after
    {
      segmentCounter := segmentCounter + 1;
      var groups := Chunks(s);
      var ngroups := |groups|;
      if ngroups == 0 && WhitespaceLine(s) {
        r := Kept(s);
      } else if ngroups == 0 {
        r := Dropped;
      } else {
        var container := PlaceGroups(groups);
        r := Wrapped(container);
      }
    }

    /** The container span for the chunks of one run (container.py:230-250),
        with the id of the current counters: the first chunk is its text,
        each later chunk but the last becomes a child span with the next
        segment, and the last is placed by the space rule. */
    method PlaceGroups(groups: seq<string>) returns (container: Node)
      requires groups != [] && forall i :: 0 <= i < |groups| ==> groups[i] != ""
      modifies this`segmentCounter
      ensures var entry := old(Counters(paragraphCounter, segmentCounter));
        var st := PlaceChunks(groups, |groups|, entry.paragraph, entry.segment);
        && container == Element(SpanTag, SpanAttrs(entry), st.text, st.children, None)
        && segmentCounter == st.segment
    {
      var ngroups := |groups|;
      var entry := Counters(paragraphCounter, segmentCounter);
      var text: Option<string> := None;
      var children: seq<Node> := [];
      var curGroup := 0;
      while curGroup < ngroups
        invariant 0 <= curGroup <= ngroups
        invariant segmentCounter == entry.segment + |children|
        invariant TextContainer(text, children, segmentCounter) == PlaceChunks(groups, curGroup, entry.paragraph, entry.segment)
      {
        var g := groups[curGroup];
        curGroup := curGroup + 1;
        if text.None? {
          text := Some(g);
        } else if curGroup < ngroups {
          segmentCounter := segmentCounter + 1;
          var span := NewSpan(Counters(paragraphCounter, segmentCounter), g);
          children := children + [span];
          assert SpanRun(entry, |children| + 1) == SpanRun(entry, |children|) + [Counters(paragraphCounter, segmentCounter)];
        } else if |children| > 0 {
          children := SetLastTail(children, g);
        } else if WhitespaceLine(g) || NoSpaceBefore(g[0]) {
          text := Some(text.value + g);
        } else {
          text := Some(text.value + " " + g);
        }
      }
      container := Element(SpanTag, SpanAttrs(entry), text, children, None);
    }

    /** __add_kobo_spans_to_node on a node: a comment is dropped, a
        processing instruction loses its tail, and an element is cleared,
        its attributes are put back and its rewritten text is installed,
        then each of its original children is handled by AddSpansToChild.
        The result and the counters are RewriteNode's. */
    method AddSpansToNode(n: Node) returns (r: Option<Node>)
      modifies this`paragraphCounter, this`segmentCounter
      ensures var out := RewriteNode(n, old(Counters(paragraphCounter, segmentCounter)));
        && r == out.result
        && Counters(paragraphCounter, segmentCounter) == out.after
      decreases n, 1
    {
      ghost var c0 := Counters(paragraphCounter, segmentCounter);
      if n.Comment? {
        r := None;
        return;
      }
      if n.Instruction? {
        r := Some(Instruction(n.target, n.text, None));
        return;
      }
      var node := ClearAndInstallText(n);
      assert Walk(n, 0, c0) == InstallText(n, c0);
      node := AddSpansToChildren(n, node, c0);
      r := Some(node);
    }

    /** The loop over the original children of n (container.py:273-302),
        on the element node built from n's text, the walk having started
        from counters c: each child is handled by AddSpansToChild in turn.
        The result and the counters are those of the walk of all of n's
        children. */
    method AddSpansToChildren(n: Node, node: Node, ghost c: Counters) returns (r: Node)
      requires n.Element?
      requires var w := Walk(n, 0, c);
        node == w.node && Counters(paragraphCounter, segmentCounter) == w.after
      modifies this`paragraphCounter, this`segmentCounter
      ensures var w := Walk(n, |n.children|, c);
        && r == w.node
        && Counters(paragraphCounter, segmentCounter) == w.after
      decreases n, 0
    {
      ghost var w := Walk(n, 0, c);
      var children := n.children;
      r := node;
      var i := 0;
      while i < |children|
        invariant 0 <= i <= |children|
        invariant w == Walk(n, i, c)
        invariant r == w.node && Counters(paragraphCounter, segmentCounter) == w.after
      {
        r := AddSpansToChild(r, children[i]);
        ghost var step := ChildStep(w.node, w.after, n.children[i]);
        w := WalkOut(step.node, step.after, w.ids + step.ids);
        i := i + 1;
      }
    }

    /** The element n cleared (text, tail and children gone, attributes put
        back) with its rewritten text installed: as its text when that is a
        string, as its first child when it is a span (container.py:254-270).
        The result and the counters are InstallText's. */
    method ClearAndInstallText(n: Node) returns (node: Node)
      requires n.Element?
      modifies this`paragraphCounter, this`segmentCounter
      ensures var w := InstallText(n, old(Counters(paragraphCounter, segmentCounter)));
        && node == w.node
        && Counters(paragraphCounter, segmentCounter) == w.after
    {
      var newtext: TextResult := Dropped;
      if n.text.Some? {
        newtext := AddSpansToText(n.text.value);
      }
      node := Element(n.tag, n.attrs, None, [], None);
      match newtext {
        case Dropped =>
        case Kept(s) => node := Element(n.tag, n.attrs, Some(s), [], None);
        case Wrapped(span) => node := Append(node, span);
      }
    }

    /** One turn of the loop over the children of the element being rebuilt
        (container.py:273-302): the child is rewritten and appended, its
        original tail is rewritten and placed (a span is appended; a string
        becomes the last child's tail or, with no child yet, is added to the
        element's text, after a space unless it is a whitespace line), then
        the paragraph counter moves on and the segment counter restarts at
        1. */
    method AddSpansToChild(node: Node, elem: Node) returns (r: Node)
      requires node.Element?
      modifies this`paragraphCounter, this`segmentCounter
      ensures var w := ChildStep(node, old(Counters(paragraphCounter, segmentCounter)), elem);
        && r == w.node
        && Counters(paragraphCounter, segmentCounter) == w.after
      decreases elem, 2
    {
      ghost var c0 := Counters(paragraphCounter, segmentCounter);
      r := node;
      var elemtail := elem.tail;
      var newelem := AddSpansToNode(elem);
      if newelem.Some? {
        r := Append(r, newelem.value);
      }
      ghost var appended := r;
      var newtail: TextResult := Dropped;
      if elemtail.Some? {
        newtail := AddSpansToText(elemtail.value);
        match newtail {
          case Dropped =>
          case Kept(s) =>
            if |r.children| > 0 {
              r := r.(children := SetLastTail(r.children, s));
            } else if WhitespaceLine(s) {
              r := Element(r.tag, r.attrs, Some(if r.text.Some? then r.text.value + s else s), r.children, r.tail);
            } else {
              // A string comes back from the string branch only when it
              // is a whitespace line, so the source's `u" " + newtail`
              // branch is never taken.
              assert false;
            }
          case Wrapped(span) => r := Append(r, span);
        }
      }
      assert r == AttachTail(appended, newtail);
      paragraphCounter := paragraphCounter + 1;
      segmentCounter := 1;
    }

    // -------------------------------------------------------------------
    // add_kobo_spans (container.py:306-322)
    // -------------------------------------------------------------------

    /** The pass over all documents: a document that already holds a Kobo
        span is skipped; any other has the counters reset to (1, 0) and its
        body rewritten and is marked dirty. The answer is None when every
        document was handled (the source returns True), or the position of
        the first document without a body, where the source's `[0]` raises
        and the pass stops. The new state is PassUpTo's. */
    method AddKoboSpans() returns (r: Option<nat>)
      modifies this
      ensures var start := old(PassState(documents, dirtied, Counters(paragraphCounter, segmentCounter)));
        && (r.None? ==>
              && (forall j :: 0 <= j < |start.docs| ==> !AddSpansToDocument(start.docs[j]).MissingBody?)
              && PassState(documents, dirtied, Counters(paragraphCounter, segmentCounter)) == PassUpTo(start, |start.docs|))
        && (r.Some? ==>
              && r.value < |start.docs|
              && AddSpansToDocument(start.docs[r.value]).MissingBody?
              && (forall j :: 0 <= j < r.value ==> !AddSpansToDocument(start.docs[j]).MissingBody?)
              && PassState(documents, dirtied, Counters(paragraphCounter, segmentCounter)) == PassUpTo(start, r.value + 1))
    {
      ghost var start := PassState(documents, dirtied, Counters(paragraphCounter, segmentCounter));
      var k := 0;
      while k < |documents|
        invariant |documents| == |start.docs| && 0 <= k <= |start.docs|
        invariant forall j :: 0 <= j < k ==> !AddSpansToDocument(start.docs[j]).MissingBody?
        invariant PassState(documents, dirtied, Counters(paragraphCounter, segmentCounter)) == PassUpTo(start, k)
      {
        var root := documents[k];
        assert root == start.docs[k];
        PassUpToNext(start, k);
        if HasMarkerBelow(root) {
          k := k + 1;
          continue;
        }
        paragraphCounter := 1;
        segmentCounter := 0;
        var b := BodyIndex(root);
        if b.None? {
          r := Some(k);
          return;
        }
        var body := AddSpansToNode(root.children[b.value]);
        documents := documents[k := root.(children := root.children[b.value := body.value])];
        dirtied := dirtied + {k};
        k := k + 1;
      }
      r := None;
    }

    // -------------------------------------------------------------------
    // __hyphenate_node and hyphenate (container.py:176-208)
    // -------------------------------------------------------------------

    /** The string branch of __hyphenate_node: the words of s, each
        eligible one replaced by the hyphenator's answer, joined by single
        spaces. */
    method HyphenateString(s: string, hyphenator: Hyphenator, hyphen: string) returns (r: string)
      ensures r == HyphenatedText(s, hyphenator, hyphen)
    {
      var words := Words(s);
      var newstr: seq<string> := [];
      for i := 0 to |words|
        invariant newstr == HyphenateWords(words[..i], hyphenator, hyphen)
      {
        var w := words[i];
        if |w| > 3 && '-' !in w && !Occurs(hyphen, w) {
          w := hyphenator(w, hyphen);
        }
        newstr := newstr + [w];
        assert words[..i + 1][..i] == words[..i];
      }
      assert words[..|words|] == words;
      r := Join(newstr, " ");
    }

    /** __hyphenate_node on a node: with neither text nor tail each child
        node is hyphenated in turn; otherwise the text (followed by a space)
        and the tail are hyphenated. */
    method HyphenateNode(elem: Node, hyphenator: Hyphenator, hyphen: string) returns (r: Node)
      ensures r == HyphenatedNode(elem, hyphenator, hyphen)
      decreases elem
    {
      if elem.text.None? && elem.tail.None? {
        if elem.Element? {
          var kids := elem.children;
          for i := 0 to |kids|
            invariant |kids| == |elem.children|
            invariant forall j :: 0 <= j < i ==> kids[j] == HyphenatedNode(elem.children[j], hyphenator, hyphen)
            invariant forall j :: i <= j < |kids| ==> kids[j] == elem.children[j]
          {
            var x := HyphenateNode(elem.children[i], hyphenator, hyphen);
            kids := kids[i := x];
          }
          r := Element(elem.tag, elem.attrs, elem.text, kids, elem.tail);
        } else {
          r := elem;
        }
      } else {
        var text: Option<string> := None;
        if elem.text.Some? {
          var t := HyphenateString(elem.text.value, hyphenator, hyphen);
          text := Some(t + " ");
        }
        var tail: Option<string> := None;
        if elem.tail.Some? {
          var t := HyphenateString(elem.tail.value, hyphenator, hyphen);
          tail := Some(t);
        }
        r := WithTextTail(elem, text, tail);
      }
    }

    /** The nodes below n in document order, each `kobo.` span among them
        hyphenated when it is reached. */
    method HyphenateBelow(n: Node, hyphenator: Hyphenator, hyphen: string) returns (r: Node)
      ensures r == HyphenateSpans(n, hyphenator, hyphen)
      decreases Shape(n), 0
    {
      if n.Element? {
        var kids := n.children;
        for i := 0 to |kids|
          invariant |kids| == |n.children|
          invariant forall j :: 0 <= j < i ==> kids[j] == HyphenateChild(n.children[j], hyphenator, hyphen)
          invariant forall j :: i <= j < |kids| ==> kids[j] == n.children[j]
        {
          assert ShapeKids(n.children)[i] == Shape(n.children[i]);
          var x := HyphenateVisit(n.children[i], hyphenator, hyphen);
          kids := kids[i := x];
        }
        r := Element(n.tag, n.attrs, n.text, kids, n.tail);
      } else {
        r := n;
      }
    }

    /** One node reached by the walk: hyphenated when it is a `kobo.` span,
        then walked below. */
    method HyphenateVisit(n: Node, hyphenator: Hyphenator, hyphen: string) returns (r: Node)
      ensures r == HyphenateChild(n, hyphenator, hyphen)
      decreases Shape(n), 1
    {
      var m := n;
      if IsKoboIdSpan(n) {
        m := HyphenateNode(n, hyphenator, hyphen);
      }
      r := HyphenateBelow(m, hyphenator, hyphen);
    }

    /** hyphenate: without a hyphenator, or with a missing or empty hyphen,
        the answer is false and nothing changes; otherwise every document
        has the `kobo.` spans below its body hyphenated and is marked dirty,
        and the answer is true. */
    method Hyphenate(hyphenator: Option<Hyphenator>, hyphen: Option<string>) returns (ok: bool)
      modifies this`documents, this`dirtied
      ensures ok <==> hyphenator.Some? && hyphen.Some? && hyphen.value != ""
      ensures !ok ==> documents == old(documents) && dirtied == old(dirtied)
      ensures ok ==>
        && |documents| == |old(documents)|
        && (forall k :: 0 <= k < |documents| ==>
              documents[k] == HyphenateDocument(old(documents)[k], hyphenator.value, hyphen.value))
        && (forall k: nat :: k in dirtied <==> k in old(dirtied) || k < |documents|)
    {
      if hyphenator.None? || hyphen.None? || hyphen.value == "" {
        return false;
      }
      var k := 0;
      while k < |documents|
        invariant 0 <= k <= |documents| == |old(documents)|
        invariant forall j :: 0 <= j < k ==> documents[j] == HyphenateDocument(old(documents)[j], hyphenator.value, hyphen.value)
        invariant forall j :: k <= j < |documents| ==> documents[j] == old(documents)[j]
        invariant forall j: nat :: j in dirtied <==> j in old(dirtied) || j < k
      {
        var root := HyphenateRoot(documents[k], hyphenator.value, hyphen.value);
        documents := documents[k := root];
        dirtied := dirtied + {k};
        k := k + 1;
      }
      return true;
    }

    /** The `./xhtml:body` children of root, each walked. */
    method HyphenateRoot(root: Node, hyphenator: Hyphenator, hyphen: string) returns (r: Node)
      ensures r == HyphenateDocument(root, hyphenator, hyphen)
    {
      if root.Element? {
        var kids := root.children;
        for i := 0 to |kids|
          invariant |kids| == |root.children|
          invariant forall j :: 0 <= j < i ==>
            kids[j] == if IsBody(root.children[j]) then HyphenateSpans(root.children[j], hyphenator, hyphen) else root.children[j]
          invariant forall j :: i <= j < |kids| ==> kids[j] == root.children[j]
        {
          if IsBody(kids[i]) {
            var x := HyphenateBelow(kids[i], hyphenator, hyphen);
            kids := kids[i := x];
          }
        }
        r := Element(root.tag, root.attrs, root.text, kids, root.tail);
      } else {
        r := root;
      }
    }
  }
}
