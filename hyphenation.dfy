/** The hyphenation pass as functions (KEPubContainer.__hyphenate_node and
    the walk of KEPubContainer.hyphenate): every word of the text and tail of
    a `kobo.` span goes through a hyphenation routine that is not part of
    this model and is therefore a parameter. */
module Hyphenation {
  import opened Wrappers
  import opened Text
  import opened Tree

  /** `hyphenator.inserted(word, hyphen=hyphen)` */
  type Hyphenator = (string, string) -> string

  /** `h in w` on strings: h occurs in w. */
  predicate Occurs(h: string, w: string)
    decreases |w|
  {
    if |h| > |w| then false
    else w[..|h|] == h || (w != [] && Occurs(h, w[1..]))
  }

  /** The words the hyphenator is given: longer than 3 characters, holding
      neither '-' nor the hyphen (container.py:183). */
  predicate Eligible(w: string, hyphen: string) {
    |w| > 3 && '-' !in w && !Occurs(hyphen, w)
  }

  function HyphenateWord(w: string, hyphenator: Hyphenator, hyphen: string): string {
    if Eligible(w, hyphen) then hyphenator(w, hyphen) else w
  }

  /** newstr after the loop over ws (container.py:182-185). */
  function HyphenateWords(ws: seq<string>, hyphenator: Hyphenator, hyphen: string): seq<string> {
    if ws == [] then []
    else HyphenateWords(ws[..|ws| - 1], hyphenator, hyphen) + [HyphenateWord(ws[|ws| - 1], hyphenator, hyphen)]
  }

  /** The string branch of __hyphenate_node (container.py:180-186). */
  function HyphenatedText(s: string, hyphenator: Hyphenator, hyphen: string): string {
    Join(HyphenateWords(Words(s), hyphenator, hyphen), " ")
  }

  /** Word i of the result is the hyphenated word i of the input: eligible
      words are replaced by the hyphenator's answer, all others kept. */
  lemma {:induction false} HyphenateWordsIndex(ws: seq<string>, hyphenator: Hyphenator, hyphen: string)
    ensures |HyphenateWords(ws, hyphenator, hyphen)| == |ws|
    ensures forall i :: 0 <= i < |ws| ==>
      HyphenateWords(ws, hyphenator, hyphen)[i]
        == (if Eligible(ws[i], hyphen) then hyphenator(ws[i], hyphen) else ws[i])
  {
    if ws != [] {
      HyphenateWordsIndex(ws[..|ws| - 1], hyphenator, hyphen);
    }
  }

  /** The hyphenator behaves like one on the words of s: it answers an
      eligible word with a non-empty word without whitespace. */
  predicate WordToWord(s: string, hyphenator: Hyphenator, hyphen: string) {
    forall w :: w in Words(s) && Eligible(w, hyphen) ==> hyphenator(w, hyphen) != "" && NoSpace(hyphenator(w, hyphen))
  }

  /** Hyphenating a string: its whitespace-separated words, eligible ones
      replaced by the hyphenator's answer and all others unchanged, joined by
      single spaces. */
  lemma HyphenatedTextWords(s: string, hyphenator: Hyphenator, hyphen: string)
    requires WordToWord(s, hyphenator, hyphen)
    ensures var ws, rs := Words(s), Words(HyphenatedText(s, hyphenator, hyphen));
      && |rs| == |ws|
      && (forall i :: 0 <= i < |ws| ==> rs[i] == (if Eligible(ws[i], hyphen) then hyphenator(ws[i], hyphen) else ws[i]))
      && HyphenatedText(s, hyphenator, hyphen) == Join(rs, " ")
  {
    var ws := Words(s);
    var hs := HyphenateWords(ws, hyphenator, hyphen);
    HyphenateWordsIndex(ws, hyphenator, hyphen);
    forall w | w in hs ensures w != "" && NoSpace(w) {
      var i :| 0 <= i < |hs| && hs[i] == w;
      assert ws[i] in ws;
    }
    WordsOfJoin(hs);
  }

  /** A string without eligible words only has its whitespace normalised. */
  lemma HyphenatedTextIneligible(s: string, hyphenator: Hyphenator, hyphen: string)
    requires forall w :: w in Words(s) ==> !Eligible(w, hyphen)
    ensures HyphenatedText(s, hyphenator, hyphen) == Join(Words(s), " ")
  {
    var ws := Words(s);
    HyphenateWordsIndex(ws, hyphenator, hyphen);
    var hs := HyphenateWords(ws, hyphenator, hyphen);
    forall i | 0 <= i < |ws| ensures hs[i] == ws[i] {
      assert ws[i] in ws;
    }
    assert hs == ws;
  }

  /** When the hyphenator's answers are themselves ineligible (they hold the
      hyphen, as a hyphenated word does), hyphenating twice is hyphenating
      once. */
  lemma HyphenatedTextTwice(s: string, hyphenator: Hyphenator, hyphen: string)
    requires WordToWord(s, hyphenator, hyphen)
    requires forall w :: w in Words(s) && Eligible(w, hyphen) ==> !Eligible(hyphenator(w, hyphen), hyphen)
    ensures HyphenatedText(HyphenatedText(s, hyphenator, hyphen), hyphenator, hyphen) == HyphenatedText(s, hyphenator, hyphen)
  {
    var r := HyphenatedText(s, hyphenator, hyphen);
    var ws := Words(s);
    HyphenatedTextWords(s, hyphenator, hyphen);
    var rs := Words(r);
    forall w | w in rs ensures !Eligible(w, hyphen) {
      var i :| 0 <= i < |rs| && rs[i] == w;
      assert ws[i] in ws;
    }
    HyphenatedTextIneligible(r, hyphenator, hyphen);
  }

  // ---------------------------------------------------------------------
  // Nodes (container.py:188-197)
  // ---------------------------------------------------------------------

  /** The tree without its texts and tails: what hyphenation never changes. */
  function Shape(n: Node): Node {
    match n
    case Element(tag, attrs, _, children, _) => Element(tag, attrs, None, ShapeKids(children), None)
    case Comment(_, _) => Comment(None, None)
    case Instruction(target, _, _) => Instruction(target, None, None)
  }

  function ShapeKids(kids: seq<Node>): (r: seq<Node>)
    ensures |r| == |kids| && forall i :: 0 <= i < |kids| ==> r[i] == Shape(kids[i])
  {
    seq(|kids|, i requires 0 <= i < |kids| => Shape(kids[i]))
  }

  /** Children of the same shapes make a list of the same shape. */
  lemma ShapeKidsSame(xs: seq<Node>, ys: seq<Node>)
    requires |xs| == |ys| && forall i :: 0 <= i < |xs| ==> Shape(xs[i]) == Shape(ys[i])
    ensures ShapeKids(xs) == ShapeKids(ys)
  {
    assert forall i :: 0 <= i < |xs| ==> ShapeKids(xs)[i] == ShapeKids(ys)[i];
  }

  /** n with the given text and tail. */
  function WithTextTail(n: Node, text: Option<string>, tail: Option<string>): (r: Node)
    ensures r.text == text && r.tail == tail
  {
    match n
    case Element(tag, attrs, _, children, _) => Element(tag, attrs, text, children, tail)
    case Comment(_, _) => Comment(text, tail)
    case Instruction(target, _, _) => Instruction(target, text, tail)
  }

  /** __hyphenate_node on a node: with neither text nor tail, its child
      nodes are hyphenated in turn; otherwise its text is hyphenated and
      followed by one space, and its tail is hyphenated. */
  function HyphenatedNode(n: Node, hyphenator: Hyphenator, hyphen: string): (r: Node)
    ensures Shape(r) == Shape(n)
    ensures n.Element? <==> r.Element?
    decreases n
  {
    if n.text.None? && n.tail.None? then
      match n
      case Element(tag, attrs, text, children, tail) =>
        var kids := seq(|children|, i requires 0 <= i < |children| => HyphenatedNode(children[i], hyphenator, hyphen));
        ShapeKidsSame(kids, children);
        Element(tag, attrs, text, kids, tail)
      case _ => n
    else
      var text := if n.text.Some? then Some(HyphenatedText(n.text.value, hyphenator, hyphen) + " ") else None;
      var tail := if n.tail.Some? then Some(HyphenatedText(n.tail.value, hyphenator, hyphen)) else None;
      WithTextTail(n, text, tail)
  }

  /** The two branches of __hyphenate_node: a node with neither text nor
      tail keeps both absent and has each child node hyphenated in place;
      any other node keeps its children, gets its text's words hyphenated
      and followed by exactly one space, and its tail's words hyphenated. */
  lemma HyphenatedNodeCases(n: Node, hyphenator: Hyphenator, hyphen: string)
    ensures var r := HyphenatedNode(n, hyphenator, hyphen);
      && (n.text.None? && n.tail.None? ==>
            && r.text.None? && r.tail.None?
            && (n.Element? ==>
                  (|r.children| == |n.children|
                   && forall i :: 0 <= i < |n.children| ==> r.children[i] == HyphenatedNode(n.children[i], hyphenator, hyphen)))
            && (!n.Element? ==> r == n))
      && (n.text.Some? || n.tail.Some? ==>
            && (r.Element? ==> r.children == n.children)
            && (n.text.None? ==> r.text.None?)
            && (n.text.Some? ==>
                  (r.text == Some(HyphenatedText(n.text.value, hyphenator, hyphen) + " ")
                   && |r.text.value| > 0 && r.text.value[|r.text.value| - 1] == ' '
                   && Words(r.text.value) == Words(HyphenatedText(n.text.value, hyphenator, hyphen))))
            && (n.tail.None? ==> r.tail.None?)
            && (n.tail.Some? ==> r.tail == Some(HyphenatedText(n.tail.value, hyphenator, hyphen))))
  {
    if n.text.Some? {
      WordsTrailingSpace(HyphenatedText(n.text.value, hyphenator, hyphen));
    }
  }

  /** A trailing space does not change the words of a string. */
  lemma {:induction false} WordsTrailingSpace(s: string)
    ensures Words(s + " ") == Words(s)
    decreases |s|
  {
    if s == "" {
      assert Words(" ") == Words(" "[1..]);
      assert " "[1..] == "";
    } else if IsSpace(s[0]) {
      assert (s + " ")[1..] == s[1..] + " ";
      WordsTrailingSpace(s[1..]);
    } else {
      var e := SkipWord(s, 0);
      SkipWordAppendSpace(s, 0);
      assert (s + " ")[..e] == s[..e];
      assert (s + " ")[e..] == s[e..] + " ";
      WordsTrailingSpace(s[e..]);
    }
  }

  /** A word ends where it did when a space is appended. */
  lemma {:induction false} SkipWordAppendSpace(s: string, k: nat)
    requires k <= |s|
    ensures SkipWord(s + " ", k) == SkipWord(s, k)
    decreases |s| - k
  {
    if k < |s| && !IsSpace(s[k]) {
      assert (s + " ")[k] == s[k];
      SkipWordAppendSpace(s, k + 1);
    } else if k == |s| {
      assert (s + " ")[k] == ' ';
    }
  }

  // ---------------------------------------------------------------------
  // Documents (container.py:199-208)
  // ---------------------------------------------------------------------

  /** The loop over `.//xhtml:span[starts-with(@id, 'kobo.')]` below n, in
      document order, each span hyphenated in its state at that point. */
  function HyphenateSpans(n: Node, hyphenator: Hyphenator, hyphen: string): (r: Node)
    ensures Shape(r) == Shape(n)
    decreases Shape(n), 0
  {
    match n
    case Element(tag, attrs, text, children, tail) =>
      var kids := seq(|children|, i requires 0 <= i < |children| =>
        assert ShapeKids(children)[i] == Shape(children[i]);
        HyphenateChild(children[i], hyphenator, hyphen));
      ShapeKidsSame(kids, children);
      Element(tag, attrs, text, kids, tail)
    case _ => n
  }

  /** A node below the body: hyphenated first when it is a `kobo.` span,
      then walked. */
  function HyphenateChild(n: Node, hyphenator: Hyphenator, hyphen: string): (r: Node)
    ensures Shape(r) == Shape(n)
    decreases Shape(n), 1
  {
    var m := if IsKoboIdSpan(n) then HyphenatedNode(n, hyphenator, hyphen) else n;
    HyphenateSpans(m, hyphenator, hyphen)
  }

  /** The `./xhtml:body` children of the root each have the spans below them
      hyphenated; nothing else changes. */
  function HyphenateDocument(root: Node, hyphenator: Hyphenator, hyphen: string): (r: Node)
    ensures Shape(r) == Shape(root)
  {
    match root
    case Element(tag, attrs, text, children, tail) =>
      var kids := seq(|children|, i requires 0 <= i < |children| =>
        if children[i].Element? && children[i].tag == BodyTag then HyphenateSpans(children[i], hyphenator, hyphen) else children[i]);
      ShapeKidsSame(kids, children);
      Element(tag, attrs, text, kids, tail)
    case _ => root
  }

  /** A `kobo.` span directly inside a body child of the root comes out of
      the pass with its text hyphenated and followed by one space, and its
      tail hyphenated. */
  lemma HyphenateDocumentSpan(root: Node, b: nat, k: nat, hyphenator: Hyphenator, hyphen: string)
    requires root.Element? && b < |root.children|
    requires root.children[b].Element? && root.children[b].tag == BodyTag
    requires k < |root.children[b].children| && IsKoboIdSpan(root.children[b].children[k])
    ensures var span, r := root.children[b].children[k], HyphenateDocument(root, hyphenator, hyphen);
      && b < |r.children| && r.children[b].Element? && k < |r.children[b].children|
      && (span.text.Some? ==> r.children[b].children[k].text == Some(HyphenatedText(span.text.value, hyphenator, hyphen) + " "))
      && (span.tail.Some? ==> r.children[b].children[k].tail == Some(HyphenatedText(span.tail.value, hyphenator, hyphen)))
  {
    var body := root.children[b];
    var span := body.children[k];
    var m := HyphenatedNode(span, hyphenator, hyphen);
    HyphenatedNodeCases(span, hyphenator, hyphen);
    var r := HyphenateDocument(root, hyphenator, hyphen);
    assert r.children[b] == HyphenateSpans(body, hyphenator, hyphen);
    assert r.children[b].children[k] == HyphenateChild(span, hyphenator, hyphen);
    assert HyphenateChild(span, hyphenator, hyphen) == HyphenateSpans(m, hyphenator, hyphen);
    assert m.Element?;
    assert HyphenateSpans(m, hyphenator, hyphen).text == m.text;
    assert HyphenateSpans(m, hyphenator, hyphen).tail == m.tail;
  }

  /** No `kobo.` span anywhere in n: nothing is hyphenated. */
  predicate NoKoboIdSpan(n: Node) {
    !IsKoboIdSpan(n)
    && match n
       case Element(_, _, _, children, _) => forall i :: 0 <= i < |children| ==> NoKoboIdSpan(children[i])
       case _ => true
  }

  /** A subtree without a `kobo.` span comes out of the walk unchanged. */
  lemma {:induction false} HyphenateSpansUntouched(n: Node, hyphenator: Hyphenator, hyphen: string)
    requires NoKoboIdSpan(n)
    ensures HyphenateSpans(n, hyphenator, hyphen) == n
    decreases n
  {
    if n.Element? {
      var kids := HyphenateSpans(n, hyphenator, hyphen).children;
      forall i | 0 <= i < |n.children| ensures kids[i] == n.children[i] {
        assert kids[i] == HyphenateChild(n.children[i], hyphenator, hyphen);
        HyphenateSpansUntouched(n.children[i], hyphenator, hyphen);
      }
      assert kids == n.children;
    }
  }

  /** A document without `kobo.` spans is unchanged by hyphenation. */
  lemma HyphenateDocumentUntouched(root: Node, hyphenator: Hyphenator, hyphen: string)
    requires NoKoboIdSpan(root)
    ensures HyphenateDocument(root, hyphenator, hyphen) == root
  {
    if root.Element? {
      var kids := HyphenateDocument(root, hyphenator, hyphen).children;
      forall i | 0 <= i < |root.children| ensures kids[i] == root.children[i] {
        HyphenateSpansUntouched(root.children[i], hyphenator, hyphen);
      }
      assert kids == root.children;
    }
  }

  /** Hyphenation changes only texts and tails: same elements, attributes,
      comments, instructions and Kobo spans, in the same places. */
  lemma HyphenationKeepsSpans(n: Node, hyphenator: Hyphenator, hyphen: string)
    ensures Markers(HyphenateDocument(n, hyphenator, hyphen)) == Markers(n)
  {
    ShapeMarkers(HyphenateDocument(n, hyphenator, hyphen), n);
  }

  /** The Kobo spans of a tree are determined by its shape. */
  lemma {:induction false} ShapeMarkers(a: Node, b: Node)
    requires Shape(a) == Shape(b)
    ensures Markers(a) == Markers(b)
    decreases a
  {
    if a.Element? {
      assert b.Element? && a.tag == b.tag && a.attrs == b.attrs;
      assert ShapeKids(a.children) == ShapeKids(b.children);
      assert forall i :: 0 <= i < |a.children| ==> ShapeKids(a.children)[i] == Shape(a.children[i]);
      ShapeKidsMarkers(a.children, b.children, |a.children|);
      assert a.children[..|a.children|] == a.children && b.children[..|b.children|] == b.children;
    }
  }

  lemma {:induction false} ShapeKidsMarkers(xs: seq<Node>, ys: seq<Node>, k: nat)
    requires |xs| == |ys| && k <= |xs|
    requires forall i :: 0 <= i < |xs| ==> Shape(xs[i]) == Shape(ys[i])
    ensures KidsMarkers(xs[..k]) == KidsMarkers(ys[..k])
    decreases xs, k
  {
    if k > 0 {
      ShapeKidsMarkers(xs, ys, k - 1);
      ShapeMarkers(xs[k - 1], ys[k - 1]);
      assert xs[..k][..k - 1] == xs[..k - 1] && ys[..k][..k - 1] == ys[..k - 1];
    }
  }
}
