# KEPub container: Kobo spans and hyphenation

A model of the text-rewriting core of `KEPubContainer`, the ePub container
that turns an ePub into a Kobo ePub (KEPub). The model covers four things:

* **The Kobo span pass.** `add_kobo_spans` walks the `<body>` of every HTML
  document. It cuts each text run into sentence chunks with the regular
  expression `(.*?[\.\!\?\:][\'"”’]?\s*)`. It wraps the chunks in
  `<span id="kobo.P.S" class="koboSpan">` elements, numbered by a paragraph
  counter and a segment counter held on the container.
* **The hyphenation pass.** `hyphenate` rewrites every `kobo.` span below the
  body. Each word longer than three characters that contains neither `-` nor
  the hyphen string is passed to the hyphenator.
* **The tail fix-up** `fix_tail`.
* **The no-space-before punctuation set.**

## Model structure

The model is split into modules:

* `Wrappers`: the Option type.
* `Text`: the string-level pieces.
  * Python's Unicode whitespace.
  * The sentence split: `re.split` with one capture group gives
    separator, match, separator, … pieces. `Split` models the lazy match,
    which does not cross a line break because `.` does not match a newline.
  * The chunk filter, and `^\s+$` under `re.MULTILINE`, where `$` also
    matches just before a newline.
  * `str.split()` and `" ".join`.
  * The decimal form of the counters.
* `Tree`: an lxml tree as a value.
  * Elements with attributes, `text`, `tail` and children.
  * Comments and processing instructions.
  * The views the properties are stated in: the Kobo spans of a tree, its
    text content (`itertext()`) and its shape.
* `Spans`: the span pass as functions.
  * `RewriteText` for a text run.
  * `RewriteNode`, `Walk`, `InstallText` and `ChildStep` for
    `__add_kobo_spans_to_node`.
  * `AddSpansToDocument` and `PassUpTo` for `add_kobo_spans`.
* `Hyphenation`: `__hyphenate_node` and the span walk of `hyphenate` as
  functions. The hyphenator is a function parameter.
* `Container`: the class `KEPubContainer`.
  * Its fields are the two counters, the parsed documents and the set of
    dirtied documents.
  * Every operation of the core is an imperative method, with the source's
    loops. Each method is proved equal to the function that specifies it.

### Behaviour worth knowing

* **Two spaces between two sentences, under conditions.** Take a run that
  gives exactly two chunks, where the first chunk ends in whitespace. Suppose
  the second chunk neither opens with a no-space-before character nor is a
  whitespace line. Then the container text is the first chunk, then `" "`,
  then the second chunk (container.py:246-249). So one space is added after
  the first chunk's trailing whitespace, and when that whitespace is a single
  space the gap is two spaces. Some examples:
  - `"Hello. World."`: the chunks are `"Hello. "` and `"World."`, and the
    result is `"Hello.  World."`.
  - `"Hello.World"`: nothing follows the terminator, so the gap is the one
    added space (`"Hello. World"`).
  - `"Hi. (x)"`: `(` is in NO_SPACE_BEFORE_CHARS (container.py:39), so no
    space is added.
  - `"abc\ndef."`: the match cannot cross the newline, so the first chunk is
    `"abc\n"` and the result is `"abc\n def."`.

  The merge is `Spans.MergeText`, and `Spans.PlaceChunksLayout` states that
  two chunks are merged this way.
* **Hyphenating a span with neither text nor tail.** `__hyphenate_node`
  recurses into every child node (container.py:188-191). Text nodes are not
  changed, because the result is bound to the loop variable and dropped.
  Child elements, comments and processing instructions are changed in place.
* **A comment's tail overwrites the previous tail.** When a child is a
  comment, it is dropped but its tail is still placed (container.py:275-286).
  A whitespace tail is stored as the previous child's tail, replacing
  whatever whitespace was there. So only whitespace is ever lost
  (`Spans.RewriteNodeContent`).
* **An unreachable branch.** For a string, `__add_kobo_spans_to_node` returns
  a string only when the run is whitespace. So the `u" " + newtail` branch of
  the tail placement (container.py:293-297) is never taken. The model proves
  this (`Spans.RewriteTextKinds`), and the method marks the branch dead.
* **The serialisation is discarded.** `add_kobo_spans` serialises the root and
  re-opens `<p/>` into a local variable, then drops the result
  (container.py:317-319). The documents change only through the in-place
  rewrite of the body, and that rewrite is what the model keeps.
* **A whitespace-only body is rewritten on every pass.** The guard
  (container.py:310) looks for Kobo spans, so a document whose body made none
  is rewritten and dirtied again. The second rewrite returns the same tree
  (`Spans.AddSpansTwiceBlank`).

## Model

| member | source | states |
|---|---|---|
| Text.SplitConcat | container.py:221 | Concatenating the pieces of the sentence split gives back the text run exactly. |
| Text.Split | container.py:221 | `re.split` with one capture group returns an odd number of pieces. |
| Text.SplitPieces | container.py:221 | The pieces alternate between unmatched stretches and sentence matches. A stretch holds no terminator and is empty or ends in a newline, because the lazy `.*?` starts at a line start and cannot cross a newline. A sentence match runs to its first terminator with no newline on the way, then takes at most one closing quote (`'`, `"`, U+201D, U+2019), then only whitespace. It cannot be longer: what follows does not open with whitespace, nor with a closing quote when the match stops at its terminator. The last piece holds no terminator. |
| Text.SentenceSplitAt | container.py:221 | The same facts for each pair of pieces 2j and 2j+1 of a split, and the count of pieces is odd. |
| Text.NonBlank | container.py:222 | The filter keeps only pieces of the input that are not whitespace-only, and never more pieces than it was given. |
| Text.WhitespaceLine | container.py:225 | `re.match(r'^\s+$', g, re.MULTILINE)`: a non-empty whitespace prefix that reaches the end of g or a newline. |
| Text.NoSpaceBefore | container.py:39 | `NO_SPACE_BEFORE_CHARS`: the ASCII punctuation of `string.punctuation` and `»`. |
| Text.Chunks | container.py:222 | Every chunk kept is non-empty and not whitespace-only. |
| Text.NonBlankMembers | container.py:222 | The chunks kept are exactly the pieces that are not whitespace-only, with nothing added. |
| Text.AllSpaceConcat | container.py:221-222 | A run is whitespace-only iff every piece of a list concatenating to it is. |
| Text.ChunksEmptyIffBlank | container.py:222-225 | A run yields no chunk iff it is whitespace-only or empty. |
| Text.WhitespaceLineOfBlank | container.py:225 | For a whitespace-only run, `^\s+$` under MULTILINE matches iff the run is non-empty. |
| Text.NonSpaceNonBlank | container.py:222 | Dropping blank pieces keeps every non-whitespace character, in order. |
| Text.ChunksKeepText | container.py:221-222 | The chunks hold exactly the run's non-whitespace characters, in order. |
| Text.WordsOfJoin | container.py:182-186 | Splitting the space-join of whitespace-free non-empty words gives those words back. |
| Text.Words | container.py:182 | `str.split()`: every word is non-empty and holds no whitespace. |
| Text.Join | container.py:186 | `" ".join`: the words with one separator between each pair. |
| Text.JoinIsNormal | container.py:182-186 | Splitting and re-joining a space-joined word list gives the same string. |
| Text.DecimalRoundTrip | container.py:231 | Reading back the decimal form of a counter gives the counter. |
| Text.Decimal | container.py:231 | The decimal form of a counter is a non-empty string of digits. |
| Text.IdString | container.py:231 | A span id is `kobo.` followed by the two counters in decimal. |
| Text.IdStringInjective | container.py:231 | Two `kobo.P.S` ids are equal only for equal paragraph and segment. |
| Tree.IsMarker | container.py:310 | What `xhtml:span[@class="koboSpan" or starts-with(@id, "kobo.")]` selects. |
| Tree.HasMarkerBelow | container.py:310 | The guard: such a span exists strictly below the root. |
| Tree.IsKoboIdSpan | container.py:205 | What `xhtml:span[starts-with(@id, 'kobo.')]` selects. |
| Spans.IncreasingIdsDistinct | container.py:238 | Spans created with strictly increasing counters have pairwise different ids. |
| Spans.MergeText | container.py:246-249 | The last chunk is appended directly when it is a whitespace line or opens with a no-space-before character, after one space otherwise. |
| Spans.PlaceChunk | container.py:233-249 | One turn of the chunk loop: the first chunk becomes the text, a middle chunk becomes a new child span with the next segment, and the last chunk becomes the last child's tail or is merged into the text. |
| Spans.PlaceChunks | container.py:230-249 | The container after the first k chunks, starting from an empty text at the entry segment. |
| Spans.RewriteText | container.py:219-251 | The string branch: segment+1 on entry, then None, the run unchanged, or the container span holding the chunks. |
| Spans.PlaceChunksPrefix | container.py:232-240 | Before the last chunk, the first chunk is the container text and each later chunk is a child span with the next segment. |
| Spans.PlaceChunksLayout | container.py:231-249 | n=1: only the container with the chunk. n=2: the second chunk merged into the text by the space rule. n>=3: chunks 2..n-1 become child spans and chunk n is the last child's tail. |
| Spans.PlaceChunksLong | container.py:241-244 | With three chunks or more, the last chunk becomes the tail of the last child span, and the other spans are unchanged. |
| Spans.PlaceChunksSegment | container.py:236-238 | The segment counter moves once per child span created. |
| Spans.RewriteTextKinds | container.py:219-251 | An empty run gives None. A whitespace run comes back unchanged. Any other run gives a span. |
| Spans.RewriteTextCounters | container.py:220-238 | The segment moves once on entry and once per child span. The paragraph stays. The span ids are consecutive, in creation order. |
| Spans.PlacedChildrenMarkers | container.py:236-240 | The child spans carry consecutive ids after the container's and hold no comment. |
| Spans.PlacedContent | container.py:232-249 | The container holds exactly the chunks' non-whitespace characters, in order. |
| Spans.RewriteTextSpan | container.py:229-250 | A span made from a run is a Kobo span without tail. Its spans are the ids made. It holds no comment and keeps the run's visible characters. |
| Spans.RewriteNode | container.py:210-217 | A comment gives None. A processing instruction comes back without its tail. An element keeps its tag and attributes and loses its tail. |
| Spans.Walk | container.py:258-265 | While the children are processed, the element keeps its tag and attributes. |
| Spans.InstallText | container.py:258-265 | After clear() and the restoring of the attributes, the element has its tag and attributes and no tail. |
| Spans.ChildStep | container.py:273-302 | One turn of the child loop keeps the element's tag, attributes and tail. |
| Spans.AppendSome | container.py:275-277 | The rewritten child is appended when it is not None. Text, tag, attributes and tail stay. |
| Spans.TailOut | container.py:279-281 | The original tail is rewritten when present, and gives nothing otherwise. |
| Spans.AttachTail | container.py:282-299 | A span is appended. A string becomes the last child's tail or is merged into the text. Tag, attributes and tail stay. |
| Spans.RewriteNodeIds | container.py:210-303 | The ids made by a rewrite strictly increase, come after the entry counters and are not after the exit counters. |
| Spans.WalkIds | container.py:273-302 | The same holds after the text and the first i children. |
| Spans.RewriteNodeMarkers | container.py:210-303 | On a tree without Kobo spans, the Kobo spans of the result are exactly the spans made, in document order. |
| Spans.WalkMarkers | container.py:273-302 | The same holds for the children built after the first i children. |
| Spans.TailMarkers | container.py:279-299 | Placing a rewritten tail adds exactly the spans it made. |
| Spans.RewriteNodeContent | container.py:210-303 | A rewrite keeps the non-whitespace characters of the content, in order. |
| Spans.WalkContent | container.py:254-302 | After i children, the element holds the visible characters of its text and first i children. All its tails are whitespace. |
| Spans.TailContent | container.py:279-299 | Placing a rewritten tail adds exactly the tail's visible characters. |
| Spans.SetLastTailContent | container.py:284-286 | A whitespace tail written over a whitespace tail loses no visible character. |
| Spans.MergeBlankText | container.py:288-292 | Appending a whitespace tail to the element text adds no visible character. |
| Spans.RewriteNodeShape | container.py:210-303 | A rewrite keeps elements, their tags, attributes and order and processing instructions. It drops every comment. |
| Spans.WalkShape | container.py:273-302 | The children built have the shape of the children processed and no comment. |
| Spans.TailShape | container.py:279-299 | Placing a tail keeps the shape and adds no comment. |
| Spans.BodyIndex | container.py:315 | The body found is the first `xhtml:body` child of the root. None means there is no such child. |
| Spans.AddSpansToDocument | container.py:310-316 | One document: skipped, failed for lack of a body, or its first body rewritten from counters (1, 0). |
| Spans.AddSpansToDocumentCases | container.py:310-316 | A document is skipped iff it already holds a Kobo span. It fails iff it has no body. Otherwise only the body changes, in place. |
| Spans.AddSpansToDocumentSpans | container.py:313-316 | A rewritten document's Kobo spans are the spans made, with ids after kobo.1.0, strictly increasing and pairwise distinct. Its shape is kept and its body has no comment. |
| Spans.AddSpansTwice | container.py:310-312 | A second pass over a document that received spans skips it. |
| Spans.AddSpansTwiceBlank | container.py:310-316 | A document whose rewrite made no span is not skipped by a second pass, which rewrites it into itself and makes no span. |
| Spans.RewriteNodeSettles | container.py:210-303 | A rewrite that makes no span gives a settled tree: no comment, and every text and tail absent or a non-empty whitespace run. |
| Spans.RewriteNodeSettled | container.py:210-303 | A settled tree is rewritten into itself, less its tail, and no span is made. |
| Spans.PassUpTo | container.py:307-320 | The pass over the first k documents keeps the number of documents and leaves the later ones untouched. |
| Spans.PassUpToDocuments | container.py:307-316 | After the pass, each skipped document is unchanged and each rewritten one is its rewrite. |
| Spans.PassUpToDirtied | container.py:313-320 | After the pass, the dirtied documents are the earlier ones plus exactly those rewritten. |
| Hyphenation.HyphenateWordsIndex | container.py:182-185 | Each word is replaced by its hyphenation iff it is eligible, and the count is kept. |
| Hyphenation.Eligible | container.py:183 | A word is hyphenated iff it is longer than three characters and contains neither `-` nor the hyphen. |
| Hyphenation.HyphenateWords | container.py:182-185 | The word loop: each word replaced by its hyphenation when eligible. |
| Hyphenation.HyphenatedText | container.py:180-186 | The hyphenated words joined by single spaces. |
| Hyphenation.HyphenatedTextWords | container.py:180-186 | For a hyphenator mapping words to words, the result's words are the eligible words hyphenated and the rest unchanged. |
| Hyphenation.HyphenatedTextIneligible | container.py:183-186 | Without an eligible word, the result is the run's words joined by single spaces. |
| Hyphenation.HyphenatedTextTwice | container.py:180-186 | When the hyphenator's output is never eligible, hyphenating twice equals hyphenating once. |
| Hyphenation.HyphenatedNode | container.py:176-197 | Hyphenating a node keeps its shape and kind. |
| Hyphenation.HyphenatedNodeCases | container.py:187-196 | With neither text nor tail, every child is hyphenated. Otherwise the children are kept, the text becomes the hyphenated text followed by exactly one space (so its words are the hyphenated words), and the tail is hyphenated. |
| Hyphenation.HyphenateSpans | container.py:205-206 | The walk below an element keeps its shape. |
| Hyphenation.HyphenateChild | container.py:205-206 | Visiting a node keeps its shape. |
| Hyphenation.HyphenateDocument | container.py:204-206 | Hyphenating a document keeps its shape. |
| Hyphenation.HyphenateSpansUntouched | container.py:205-206 | A subtree without a `kobo.` span is unchanged. |
| Hyphenation.HyphenateDocumentUntouched | container.py:205-206 | A document without a `kobo.` span is unchanged. |
| Hyphenation.HyphenateDocumentSpan | container.py:204-206 | A `kobo.` span directly in a body gets its text hyphenated and followed by one space, and its tail hyphenated. |
| Hyphenation.HyphenationKeepsSpans | container.py:199-208 | Hyphenation keeps every Kobo span and its id, in order. |
| Container.FixedTailKeepsText | container.py:97-109 | Where all text and tails are whitespace, the fix-up keeps the visible content and the whitespace-tail invariant. |
| Container.FixedTail | container.py:97-109 | The parent after `fix_tail` of its child at idx. |
| Container.KEPubContainer.constructor | container.py:55-57 | Both counters start at 0. No document is dirtied. |
| Container.KEPubContainer.FixTail | container.py:97-109 | First child: it takes the parent's text as tail. Otherwise it takes the previous sibling's tail. The last child also gives the previous sibling the parent's text. Nothing else changes. |
| Container.KEPubContainer.AddSpansToText | container.py:219-251 | The string branch returns RewriteText's result and leaves the counters where RewriteText does. |
| Container.KEPubContainer.PlaceGroups | container.py:229-250 | The chunk loop builds the span PlaceChunks describes and moves the segment counter to its end. |
| Container.KEPubContainer.AddSpansToNode | container.py:210-304 | `__add_kobo_spans_to_node` returns RewriteNode's result and leaves the counters where RewriteNode does. |
| Container.KEPubContainer.ClearAndInstallText | container.py:253-270 | Rewriting the text, clearing, restoring the attributes and installing the text gives InstallText. |
| Container.KEPubContainer.AddSpansToChildren | container.py:272-302 | The loop over the copied children ends in the Walk state for all children. |
| Container.KEPubContainer.AddSpansToChild | container.py:273-302 | One child and its tail give ChildStep. The paragraph moves on and the segment restarts at 1. |
| Container.KEPubContainer.AddKoboSpans | container.py:306-322 | With no bodiless document, the documents, dirtied set and counters are the whole pass. Otherwise the method stops at the first bodiless document (the IndexError), with the state the pass had reached. |
| Container.KEPubContainer.HyphenateString | container.py:180-186 | The word loop gives the eligible words hyphenated, joined by single spaces. |
| Container.KEPubContainer.HyphenateNode | container.py:176-197 | `__hyphenate_node` gives HyphenatedNode. |
| Container.KEPubContainer.HyphenateBelow | container.py:205-206 | The span walk below a node gives HyphenateSpans. |
| Container.KEPubContainer.HyphenateVisit | container.py:205-206 | Visiting one node gives HyphenateChild. |
| Container.KEPubContainer.HyphenateRoot | container.py:204-206 | One document's hyphenation gives HyphenateDocument. |
| Container.KEPubContainer.Hyphenate | container.py:199-208 | Returns True iff a hyphenator and a non-empty hyphen are given. Otherwise nothing changes. On True, every document is hyphenated and every document is dirtied. |

## Left out

* **Container plumbing.** `get_html_names`, `parsed`, `dirty`, `commit_item`,
  `flush_cache` and `get_raw` are I/O. The model holds the parsed HTML
  documents as a sequence in manifest order and the dirtied names as a set of
  indices. `flush_cache` writing the dirtied documents back is not modelled.
* **Other container operations.** `is_drm_encumbered`, `copy_file_to_container`,
  `add_content_file_reference`, `smarten_punctuation`, `clean_markup` and
  `forced_cleanup` are outside the span and hyphenation core.
  `add_content_file_reference` is the caller of `fix_tail`, which is modelled
  on its own.
* **Serialisation.** `etree.tostring` and the `<p/>` re-opening in
  `add_kobo_spans` are left out, because their result is discarded. Logging
  is left out too.
* **Byte strings.** The `.decode("utf-8")` of each chunk is left out. Python 2
  byte and unicode strings are both modelled as sequences of characters.
* **The hyphenator** (`hyphenator.inserted`) is a function parameter.
  Properties that need it to map one word to one word say so in their
  requires.
* **Node identity.** Nodes are values. Rewriting the body in place and
  `deepcopy` of the children are modelled as building the new node and
  storing it at the body's position. lxml `_Entity` nodes are not part of
  this model.
* **`None` passed to the rewrite.** `__add_kobo_spans_to_node(None)` and
  `__hyphenate_node(None)` never occur from the modelled callers, except for
  texts and tails, which are Option values in the model.
* **The xpath walks.** `root.xpath(".//...")` in `hyphenate` is modelled as a
  preorder walk of the body's descendants. Hyphenation changes only texts and
  tails, so the list of spans the xpath returns is the one the walk meets.
* Container.KEPubContainer.AddKoboSpans: the IndexError of a bodiless
  document is modelled as an early return of that document's index, not as an
  exception.
* `scripts/update-calibre.py` is not part of this model.
* Container.KEPubContainer.Hyphenate: `hyphenate` and `__hyphenate_node`
  default the hyphen to the soft hyphen U+00AD (container.py:176, 199). The
  method takes the hyphen as an explicit argument, with no default.
* **Attribute order.** container.py:260-265 copies the attributes through a
  Python dict and sets them back, which may reorder them. The model's
  attributes are an unordered map, so attribute order is not represented.
* **Comment and processing-instruction text.** lxml reads the text of a
  comment or processing instruction back as a string, never None. The model
  gives them an optional text. An empty comment `Comment(None, None)` and a
  processing instruction with neither text nor tail, `Instruction(t, None,
  None)`, are left unchanged by `Hyphenation.HyphenatedNode`. lxml reads
  their text as `''` and takes the text branch at container.py:193-195,
  setting the text to `" "`.
