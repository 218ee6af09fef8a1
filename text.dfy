/** The string-level pieces of the Kobo span and hyphenation passes: Python's
    whitespace classes, the sentence split performed by the regular expression
    `(.*?[\.\!\?\:][\'"”’]?\s*)`, whitespace word splitting and
    joining, and the decimal form of the span counters. */
module Text {
  import opened Wrappers

  /** Python's Unicode whitespace: the characters `\s` matches under
      re.UNICODE and that str.split() and str.strip() treat as space. */
  predicate IsSpace(ch: char) {
    ch == ' ' || ('\t' <= ch <= '\r') || ('\U{1C}' <= ch <= '\U{1F}')
    || ch == '\U{85}' || ch == '\U{A0}' || ch == '\U{1680}' || ch == '\U{180E}'
    || ('\U{2000}' <= ch <= '\U{200A}') || ch == '\U{2028}' || ch == '\U{2029}'
    || ch == '\U{202F}' || ch == '\U{205F}' || ch == '\U{3000}'
  }

  /** Every character of s is whitespace (true of the empty string). */
  predicate AllSpace(s: string) {
    forall i :: 0 <= i < |s| ==> IsSpace(s[i])
  }

  /** No character of s is whitespace. */
  predicate NoSpace(s: string) {
    forall i :: 0 <= i < |s| ==> !IsSpace(s[i])
  }

  /** The characters that end a sentence: `.`, `!`, `?` and `:`. */
  predicate IsTerminator(ch: char) {
    ch == '.' || ch == '!' || ch == '?' || ch == ':'
  }

  /** The closing quote a sentence boundary may take in: ', ", U+201D, U+2019. */
  predicate IsClosingQuote(ch: char) {
    ch == '\'' || ch == '"' || ch == '\U{201D}' || ch == '\U{2019}'
  }

  /** Python's string.punctuation. */
  const Punctuation: string := "!\"#$%&'()*+,-./:;<=>?@[\\]^_`{|}~"

  /** NO_SPACE_BEFORE_CHARS: ASCII punctuation and the guillemet U+00BB. */
  predicate NoSpaceBefore(ch: char) {
    ch in Punctuation || ch == '\U{BB}'
  }

  /** What `re.match(r'^\s+$', g, re.MULTILINE)` accepts: g opens with a
      non-empty whitespace run that reaches either the end of g or the end of
      a line (under MULTILINE, `$` also matches just before any newline). */
  predicate WhitespaceLine(g: string) {
    var n := SkipSpace(g, 0);
    n > 0 && (n == |g| || '\n' in g[1..n])
  }

  lemma WhitespaceLineOfBlank(g: string)
    requires AllSpace(g)
    ensures WhitespaceLine(g) <==> g != ""
  {
    SkipSpaceAll(g, 0);
  }

  lemma {:induction false} SkipSpaceAll(s: string, k: nat)
    requires k <= |s|
    requires forall j :: k <= j < |s| ==> IsSpace(s[j])
    ensures SkipSpace(s, k) == |s|
    decreases |s| - k
  {
    if k < |s| {
      SkipSpaceAll(s, k + 1);
    }
  }

  /** The end of the whitespace run that starts at k. */
  function SkipSpace(s: string, k: nat): (r: nat)
    requires k <= |s|
    ensures k <= r <= |s|
    ensures forall j :: k <= j < r ==> IsSpace(s[j])
    ensures r == |s| || !IsSpace(s[r])
    decreases |s| - k
  {
    if k == |s| || !IsSpace(s[k]) then k else SkipSpace(s, k + 1)
  }

  /** The end of the run of non-whitespace characters that starts at k. */
  function SkipWord(s: string, k: nat): (r: nat)
    requires k <= |s|
    ensures k <= r <= |s|
    ensures forall j :: k <= j < r ==> !IsSpace(s[j])
    ensures r == |s| || IsSpace(s[r])
    decreases |s| - k
  {
    if k == |s| || IsSpace(s[k]) then k else SkipWord(s, k + 1)
  }

  // ---------------------------------------------------------------------
  // Sentence splitting (container.py:221-222)
  // ---------------------------------------------------------------------

  /** The first sentence terminator at or after `from`, if any. */
  function FirstTerminator(s: string, from: nat): (r: Option<nat>)
    requires from <= |s|
    ensures r.Some? ==> from <= r.value < |s| && IsTerminator(s[r.value])
    ensures forall j :: from <= j < |s| && (r.None? || j < r.value) ==> !IsTerminator(s[j])
    decreases |s| - from
  {
    if from == |s| then None
    else if IsTerminator(s[from]) then Some(from)
    else FirstTerminator(s, from + 1)
  }

  /** The start of the line holding position t: just after the last newline
      before t, or 0. The lazy `.*?` cannot cross a newline, so this is where
      the match that ends at the terminator t begins. */
  function LineStart(s: string, t: nat): (r: nat)
    requires t <= |s|
    ensures r <= t
    ensures r == 0 || s[r - 1] == '\n'
    ensures forall j :: r <= j < t ==> s[j] != '\n'
  {
    if t == 0 then 0
    else if s[t - 1] == '\n' then t
    else LineStart(s, t - 1)
  }

  /** The end of the match whose terminator is at t: past one optional
      closing quote and then past all following whitespace. */
  function MatchEnd(s: string, t: nat): (r: nat)
    requires t < |s|
    ensures t < r <= |s|
  {
    var q := if t + 1 < |s| && IsClosingQuote(s[t + 1]) then t + 2 else t + 1;
    SkipSpace(s, q)
  }

  /** The list `re.split` returns for the sentence pattern: the unmatched
      stretches interleaved with the matched sentences (the pattern is one
      capturing group), starting and ending with an unmatched stretch. */
  function Split(s: string): (pieces: seq<string>)
    ensures |pieces| % 2 == 1
    decreases |s|
  {
    match FirstTerminator(s, 0)
    case None => [s]
    case Some(t) =>
      var i := LineStart(s, t);
      var e := MatchEnd(s, t);
      [s[..i], s[i..e]] + Split(s[e..])
  }

  function Concat(ps: seq<string>): string {
    if ps == [] then "" else ps[0] + Concat(ps[1..])
  }

  /** The pieces that hold at least one non-whitespace character, in order:
      the filter `not re.match(r'^\s*$', g.strip())`. */
  function NonBlank(ps: seq<string>): (r: seq<string>)
    ensures |r| <= |ps|
    ensures forall g :: g in r ==> g in ps && !AllSpace(g)
  {
    if ps == [] then []
    else (if AllSpace(ps[0]) then [] else [ps[0]]) + NonBlank(ps[1..])
  }

  /** The chunks of a text run: its split pieces without the blank ones. */
  function Chunks(s: string): (groups: seq<string>)
    ensures forall g :: g in groups ==> g != "" && !AllSpace(g)
    ensures forall i :: 0 <= i < |groups| ==> groups[i] != "" && !AllSpace(groups[i])
  {
    var r := NonBlank(Split(s));
    assert forall i :: 0 <= i < |r| ==> r[i] in r;
    r
  }

  /** Splitting loses nothing: the pieces concatenate back to the run. */
  lemma {:induction false} SplitConcat(s: string)
    ensures Concat(Split(s)) == s
    decreases |s|
  {
    match FirstTerminator(s, 0)
    case None =>
      ConcatPair(s, "", []);
    case Some(t) =>
      var i := LineStart(s, t);
      var e := MatchEnd(s, t);
      SplitConcat(s[e..]);
      ConcatPair(s[..i], s[i..e], Split(s[e..]));
      SliceThree(s, i, e);
  }

  lemma ConcatPair(x: string, y: string, rest: seq<string>)
    ensures Concat([x, y] + rest) == x + (y + Concat(rest))
    ensures Concat([x]) == x
  {
    var ps := [x, y] + rest;
    assert ps[1..] == [y] + rest && ([y] + rest)[1..] == rest;
    assert [x][1..] == [];
  }

  lemma SliceThree(s: string, i: nat, e: nat)
    requires i <= e <= |s|
    ensures s[..i] + (s[i..e] + s[e..]) == s
  {
  }

  /** No sentence terminator anywhere in p. */
  predicate NoTerminator(p: string) {
    forall j :: 0 <= j < |p| ==> !IsTerminator(p[j])
  }

  /** p is empty or ends a line, so a match may start right after it. */
  predicate EndsLine(p: string) {
    p == "" || p[|p| - 1] == '\n'
  }

  /** The text of one match of the sentence pattern: up to its first
      terminator with no newline on the way, then at most one closing quote,
      then only whitespace. */
  predicate SentencePiece(p: string) {
    match FirstTerminator(p, 0)
    case None => false
    case Some(t) =>
      && (forall j :: 0 <= j < t ==> p[j] != '\n')
      && (AllSpace(p[t + 1..]) || (t + 1 < |p| && IsClosingQuote(p[t + 1]) && AllSpace(p[t + 2..])))
  }

  /** The match p is as long as it can be before `next`: the whitespace run
      does not continue, and a match that stops right at its terminator is
      not followed by a closing quote. */
  predicate Maximal(p: string, next: string) {
    p != "" &&
    (next == "" || (!IsSpace(next[0]) && (IsTerminator(p[|p| - 1]) ==> !IsClosingQuote(next[0]))))
  }

  /** Where the pieces of a sentence split start and end. Even pieces are
      the unmatched stretches and hold no terminator. Each odd piece is a
      sentence match. It starts where a line starts, because the piece
      before it is empty or ends in a newline, and it extends as far as the
      greedy quote and whitespace allow. */
  predicate SentenceSplit(ps: seq<string>) {
    if |ps| <= 1 then |ps| == 1 && NoTerminator(ps[0])
    else
      && NoTerminator(ps[0]) && EndsLine(ps[0])
      && SentencePiece(ps[1]) && Maximal(ps[1], Concat(ps[2..]))
      && SentenceSplit(ps[2..])
  }

  /** Piece pair j of a sentence split: the stretch 2j holds no terminator
      and ends a line, and piece 2j+1 is a sentence match that cannot be
      longer. The last piece holds no terminator. */
  lemma {:induction false} SentenceSplitAt(ps: seq<string>, j: nat)
    requires SentenceSplit(ps)
    ensures |ps| % 2 == 1 && NoTerminator(ps[|ps| - 1])
    ensures 2 * j + 1 < |ps| ==>
      && NoTerminator(ps[2 * j]) && EndsLine(ps[2 * j])
      && SentencePiece(ps[2 * j + 1]) && Maximal(ps[2 * j + 1], Concat(ps[2 * j + 2..]))
    decreases |ps|
  {
    if |ps| > 1 {
      var rest := ps[2..];
      SentenceSplitAt(rest, if j == 0 then 0 else j - 1);
      assert ps[|ps| - 1] == rest[|rest| - 1];
      if j > 0 && 2 * j + 1 < |ps| {
        assert ps[2 * j] == rest[2 * (j - 1)] && ps[2 * j + 1] == rest[2 * (j - 1) + 1];
        assert ps[2 * j + 2..] == rest[2 * (j - 1) + 2..];
      }
    }
  }

  /** The split pieces delimit exactly the matches of the sentence pattern. */
  lemma {:induction false} SplitPieces(s: string)
    ensures SentenceSplit(Split(s))
    decreases |s|
  {
    match FirstTerminator(s, 0)
    case None =>
      assert Split(s) == [s];
    case Some(t) =>
      var i := LineStart(s, t);
      var e := MatchEnd(s, t);
      SplitPieces(s[e..]);
      FirstMatch(s, t);
      SplitConcat(s[e..]);
      assert Split(s)[2..] == Split(s[e..]);
  }

  /** The first match of the sentence pattern, found at the first terminator. */
  lemma FirstMatch(s: string, t: nat)
    requires t < |s| && FirstTerminator(s, 0) == Some(t)
    ensures var i, e := LineStart(s, t), MatchEnd(s, t);
      && NoTerminator(s[..i]) && EndsLine(s[..i])
      && SentencePiece(s[i..e]) && Maximal(s[i..e], s[e..])
  {
    var i := LineStart(s, t);
    assert forall j :: 0 <= j < i ==> s[..i][j] == s[j];
    MatchSentence(s, t);
    MatchMaximal(s, t);
  }

  lemma MatchSentence(s: string, t: nat)
    requires t < |s| && FirstTerminator(s, 0) == Some(t)
    ensures SentencePiece(s[LineStart(s, t)..MatchEnd(s, t)])
  {
    var i, e := LineStart(s, t), MatchEnd(s, t);
    var p := s[i..e];
    var u := t - i;
    assert forall j :: 0 <= j < |p| ==> p[j] == s[i + j];
    FirstTerminatorAt(p, u);
    assert forall j :: 0 <= j < u ==> p[j] != '\n';
    var q := if t + 1 < |s| && IsClosingQuote(s[t + 1]) then t + 2 else t + 1;
    assert e == SkipSpace(s, q);
    var r := p[q - i..];
    assert AllSpace(r) by {
      forall j | 0 <= j < |r| ensures IsSpace(r[j]) {
        assert r[j] == s[q + j];
      }
    }
  }

  lemma MatchMaximal(s: string, t: nat)
    requires t < |s| && FirstTerminator(s, 0) == Some(t)
    ensures Maximal(s[LineStart(s, t)..MatchEnd(s, t)], s[MatchEnd(s, t)..])
  {
    var i, e := LineStart(s, t), MatchEnd(s, t);
    var p, next := s[i..e], s[e..];
    var q := if t + 1 < |s| && IsClosingQuote(s[t + 1]) then t + 2 else t + 1;
    assert e == SkipSpace(s, q);
    assert p[|p| - 1] == s[e - 1];
    if next != "" {
      assert next[0] == s[e];
      if IsTerminator(s[e - 1]) {
        assert e - 1 == t;
      }
    }
  }

  lemma FirstTerminatorAt(p: string, t: nat)
    requires t < |p| && IsTerminator(p[t])
    requires forall j :: 0 <= j < t ==> !IsTerminator(p[j])
    ensures FirstTerminator(p, 0) == Some(t)
  {
  }

  /** Filtering keeps exactly the non-blank pieces. */
  lemma {:induction false} NonBlankMembers(ps: seq<string>)
    ensures forall g :: g in NonBlank(ps) <==> g in ps && !AllSpace(g)
  {
    if ps != [] {
      NonBlankMembers(ps[1..]);
      assert ps == [ps[0]] + ps[1..];
    }
  }

  /** Filtering keeps the order of the pieces: it distributes over `+`. */
  lemma {:induction false} NonBlankAppend(a: seq<string>, b: seq<string>)
    ensures NonBlank(a + b) == NonBlank(a) + NonBlank(b)
  {
    if a != [] {
      assert (a + b)[0] == a[0] && (a + b)[1..] == a[1..] + b;
      NonBlankAppend(a[1..], b);
    } else {
      assert a + b == b;
    }
  }

  lemma {:induction false} AllSpaceConcat(ps: seq<string>)
    ensures AllSpace(Concat(ps)) <==> forall g :: g in ps ==> AllSpace(g)
  {
    if ps != [] {
      AllSpaceConcat(ps[1..]);
      var c := Concat(ps);
      assert c == ps[0] + Concat(ps[1..]);
      if AllSpace(c) {
        assert AllSpace(ps[0]) by {
          forall i | 0 <= i < |ps[0]| ensures IsSpace(ps[0][i]) {
            assert c[i] == ps[0][i];
          }
        }
        assert AllSpace(Concat(ps[1..])) by {
          forall i | 0 <= i < |Concat(ps[1..])| ensures IsSpace(Concat(ps[1..])[i]) {
            assert c[|ps[0]| + i] == Concat(ps[1..])[i];
          }
        }
        forall g | g in ps ensures AllSpace(g) {
          if g != ps[0] {
            assert g in ps[1..];
          }
        }
      } else {
        assert !AllSpace(ps[0]) || !AllSpace(Concat(ps[1..]));
        if AllSpace(ps[0]) {
          var g :| g in ps[1..] && !AllSpace(g);
          assert g in ps;
        } else {
          assert ps[0] in ps;
        }
      }
    }
  }

  /** No chunk survives exactly when the run is whitespace only (or empty). */
  lemma ChunksEmptyIffBlank(s: string)
    ensures Chunks(s) == [] <==> AllSpace(s)
  {
    SplitConcat(s);
    NonBlankMembers(Split(s));
    AllSpaceConcat(Split(s));
    if Chunks(s) != [] {
      assert Chunks(s)[0] in Chunks(s);
    }
  }

  // ---------------------------------------------------------------------
  // Non-whitespace content
  // ---------------------------------------------------------------------

  /** The non-whitespace characters of s, in order. */
  function NonSpace(s: string): (r: string)
    ensures |r| <= |s|
  {
    if s == "" then ""
    else (if IsSpace(s[0]) then "" else [s[0]]) + NonSpace(s[1..])
  }

  lemma {:induction false} NonSpaceAppend(a: string, b: string)
    ensures NonSpace(a + b) == NonSpace(a) + NonSpace(b)
  {
    if a != "" {
      assert (a + b)[0] == a[0] && (a + b)[1..] == a[1..] + b;
      NonSpaceAppend(a[1..], b);
    } else {
      assert a + b == b;
    }
  }

  lemma {:induction false} NonSpaceOfBlank(s: string)
    requires AllSpace(s)
    ensures NonSpace(s) == ""
  {
    if s != "" {
      NonSpaceOfBlank(s[1..]);
    }
  }

  lemma {:induction false} NonSpaceNonBlank(ps: seq<string>)
    ensures NonSpace(Concat(NonBlank(ps))) == NonSpace(Concat(ps))
  {
    if ps != [] {
      NonSpaceNonBlank(ps[1..]);
      NonSpaceAppend(ps[0], Concat(ps[1..]));
      if AllSpace(ps[0]) {
        NonSpaceOfBlank(ps[0]);
        assert NonBlank(ps) == NonBlank(ps[1..]);
      } else {
        assert NonBlank(ps) == [ps[0]] + NonBlank(ps[1..]);
        assert ([ps[0]] + NonBlank(ps[1..]))[1..] == NonBlank(ps[1..]);
        NonSpaceAppend(ps[0], Concat(NonBlank(ps[1..])));
      }
    }
  }

  /** Dropping blank pieces loses no visible character of the run. */
  lemma ChunksKeepText(s: string)
    ensures NonSpace(Concat(Chunks(s))) == NonSpace(s)
  {
    SplitConcat(s);
    NonSpaceNonBlank(Split(s));
  }

  // ---------------------------------------------------------------------
  // Words (str.split() and " ".join, container.py:182, 186)
  // ---------------------------------------------------------------------

  /** str.split() with no argument: the maximal runs of non-whitespace. */
  function Words(s: string): (ws: seq<string>)
    ensures forall w :: w in ws ==> w != "" && NoSpace(w)
    decreases |s|
  {
    if s == "" then []
    else if IsSpace(s[0]) then Words(s[1..])
    else
      var e := SkipWord(s, 0);
      [s[..e]] + Words(s[e..])
  }

  /** sep.join(ws) */
  function Join(ws: seq<string>, sep: string): string {
    if |ws| == 0 then ""
    else if |ws| == 1 then ws[0]
    else ws[0] + sep + Join(ws[1..], sep)
  }

  /** Splitting words joined by single spaces gives the words back. */
  lemma {:induction false} WordsOfJoin(ws: seq<string>)
    requires forall w :: w in ws ==> w != "" && NoSpace(w)
    ensures Words(Join(ws, " ")) == ws
  {
    if |ws| == 1 {
      var w := ws[0];
      assert w in ws;
      assert !IsSpace(w[0]) && SkipWord(w, 0) == |w|;
      assert w[..|w|] == w && w[|w|..] == "";
    } else if |ws| > 1 {
      var w, rest := ws[0], Join(ws[1..], " ");
      assert w in ws;
      WordsOfWordSpace(w, rest);
      forall v | v in ws[1..] ensures v != "" && NoSpace(v) {
        assert v in ws;
      }
      WordsOfJoin(ws[1..]);
      assert ws == [w] + ws[1..];
    }
  }

  /** A word followed by a space and more text is the first word. */
  lemma WordsOfWordSpace(w: string, rest: string)
    requires w != "" && NoSpace(w)
    ensures Words(w + " " + rest) == [w] + Words(rest)
  {
    var s := w + " " + rest;
    assert s[0] == w[0];
    assert s[|w|] == ' ';
    assert forall j :: 0 <= j < |w| ==> s[j] == w[j];
    var e := SkipWord(s, 0);
    assert e == |w|;
    assert s[..e] == w;
    assert s[e..] == " " + rest;
    assert (" " + rest)[1..] == rest;
  }

  /** Words joined by single spaces are already in the normal form of the
      join: splitting and re-joining gives back the same string. */
  lemma JoinIsNormal(ws: seq<string>)
    requires forall w :: w in ws ==> w != "" && NoSpace(w)
    ensures Join(Words(Join(ws, " ")), " ") == Join(ws, " ")
  {
    WordsOfJoin(ws);
  }

  // ---------------------------------------------------------------------
  // Span ids "kobo.<paragraph>.<segment>" (container.py:231, 238)
  // ---------------------------------------------------------------------

  predicate IsDigit(ch: char) {
    '0' <= ch <= '9'
  }

  function DigitChar(d: nat): (ch: char)
    requires d < 10
    ensures IsDigit(ch) && ch as int - '0' as int == d
  {
    ('0' as int + d) as char
  }

  /** "{0}".format(n) for a non-negative integer: its decimal digits. */
  function Decimal(n: nat): (r: string)
    ensures r != "" && forall i :: 0 <= i < |r| ==> IsDigit(r[i])
  {
    if n < 10 then [DigitChar(n)] else Decimal(n / 10) + [DigitChar(n % 10)]
  }

  /** The value of a string of decimal digits. */
  function DecimalValue(s: string): nat
    requires forall i :: 0 <= i < |s| ==> IsDigit(s[i])
  {
    if s == "" then 0
    else
      assert IsDigit(s[|s| - 1]);
      DecimalValue(s[..|s| - 1]) * 10 + (s[|s| - 1] as int - '0' as int)
  }

  /** Formatting a counter in decimal can be read back. */
  lemma {:induction false} DecimalRoundTrip(n: nat)
    ensures DecimalValue(Decimal(n)) == n
  {
    var r := Decimal(n);
    if n >= 10 {
      DecimalRoundTrip(n / 10);
      assert r[..|r| - 1] == Decimal(n / 10);
    }
  }

  /** The span id of a (paragraph, segment) pair. */
  function IdString(paragraph: nat, segment: nat): (r: string)
    ensures |r| > 5 && r[..5] == "kobo."
  {
    "kobo." + Decimal(paragraph) + "." + Decimal(segment)
  }

  lemma IdStringLayout(a: string, b: string)
    requires forall i :: 0 <= i < |a| ==> IsDigit(a[i])
    ensures ("kobo." + a + "." + b)[5 + |a|] == '.'
    ensures forall j :: 5 <= j < 5 + |a| ==> IsDigit(("kobo." + a + "." + b)[j])
  {
    var x := "kobo." + a + "." + b;
    forall j | 5 <= j < 5 + |a| ensures IsDigit(x[j]) {
      assert x[j] == a[j - 5];
    }
  }

  /** Different counter pairs give different span ids. */
  lemma IdStringInjective(p1: nat, s1: nat, p2: nat, s2: nat)
    requires IdString(p1, s1) == IdString(p2, s2)
    ensures p1 == p2 && s1 == s2
  {
    var a, b, c, d := Decimal(p1), Decimal(s1), Decimal(p2), Decimal(s2);
    var x := IdString(p1, s1);
    assert x == "kobo." + a + "." + b;
    assert x == "kobo." + c + "." + d;
    IdStringLayout(a, b);
    IdStringLayout(c, d);
    assert |a| == |c|;
    assert a == x[5..5 + |a|] == c;
    assert b == x[6 + |a|..] == d;
    DecimalRoundTrip(p1);
    DecimalRoundTrip(p2);
    DecimalRoundTrip(s1);
    DecimalRoundTrip(s2);
  }
}
