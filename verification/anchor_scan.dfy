/** The anchor scan: `Regex.Matches(content, 0)` for the pattern
    `(i?)<a([^>]+)>(.+?)</a>` in ECMAScript mode.

    The pattern is case-sensitive. `(i?)` is a literal optional `i`, so a match may
    begin `i<a`. `[^>]+` takes every character up to the first `>`, at least one,
    so `<abbr ...>` also opens a match. `(.+?)` is lazy: the match ends at the
    first `</a>` that leaves at least one inner character, and `.` does not match
    a line feed. Matches are found left to right and do not overlap.
 */
module AnchorScan {
  import opened Results
  import opened Text

  /** A match `content[start..end]`. */
  datatype Span = Span(start: nat, end: nat)

  /** The pattern without `(i?)`, tried at index `a`: the end of the match, if any. */
  function TagAt(s: string, a: nat): (e: Option<nat>)
    ensures e.Some? ==> a + 9 <= e.value <= |s|
  {
    if !(OccursAt(s, "<a", a) && a + 2 < |s| && s[a + 2] != '>') then None
    else
      var q := IndexOf(s, ">", a + 3);
      if q < 0 then None
      else
        var k := IndexOf(s, "</a>", q + 2);
        if k < 0 || '\n' in s[q + 1..k] then None
        else Some(k + 4)
  }

  /** The whole pattern tried at index `p`. `(i?)` is greedy: when `s[p]` is `i`
      the engine takes it, and the fallback without it would need `s[p]` to be `<`. */
  function AnchorAt(s: string, p: nat): (e: Option<nat>)
    ensures e.Some? ==> p + 9 <= e.value <= |s|
  {
    TagAt(s, TagStart(s, p))
  }

  /** Where `<a` must be for a match at `p`: after the `i`, if there is one. */
  function TagStart(s: string, p: nat): (a: nat)
    ensures a == p || a == p + 1
    ensures a == p + 1 <==> p < |s| && s[p] == 'i'
  {
    if p < |s| && s[p] == 'i' then p + 1 else p
  }

  /** The language of `<a([^>]+)>(.+?)</a>`, with the lazy group read as
      "shortest inner text": `<a` at `a`, the opening tag closing at the first
      `>` at `q`, and the first `</a>` at `k` that leaves inner text, with no
      line feed in the inner text. */
  ghost predicate TagShape(s: string, a: int, q: int, k: int) {
    && OccursAt(s, "<a", a)
    && a + 2 < q < |s| && s[q] == '>'
    && (forall j | a + 2 <= j < q :: s[j] != '>')
    && q + 2 <= k && OccursAt(s, "</a>", k)
    && (forall j | q + 1 <= j < k :: s[j] != '\n')
    && (forall j | q + 2 <= j < k :: !OccursAt(s, "</a>", j))
  }

  /** The language of the whole pattern: `content[p..k + 4]` is a match that
      starts at `p`, optionally with the `i`, and whose `<a` is at `a`. */
  ghost predicate AnchorShape(s: string, p: nat, a: nat, q: nat, k: nat) {
    && (a == p || (a == p + 1 && p < |s| && s[p] == 'i'))
    && TagShape(s, a, q, k)
  }

  /** The recogniser's match at `a` has the shape of the pattern, with the
      closing `>` and `</a>` it found. */
  lemma TagAtSound(s: string, a: nat, q: int, k: int)
    requires TagAt(s, a).Some?
    requires q == IndexOf(s, ">", a + 3) && k == IndexOf(s, "</a>", q + 2)
    ensures TagShape(s, a, q, k) && TagAt(s, a) == Some(k + 4)
  {
    OccursAtChar(s, '>', q);
    forall j | a + 2 <= j < q
      ensures s[j] != '>'
    {
      OccursAtChar(s, '>', j);
    }
    LineFeedFree(s, q + 1, k);
  }

  /** Every match the recogniser reports has the shape of the pattern. */
  lemma AnchorAtSound(s: string, p: nat)
    requires AnchorAt(s, p).Some?
    ensures exists a: nat, q: nat, k: nat :: AnchorShape(s, p, a, q, k) && AnchorAt(s, p) == Some(k + 4)
  {
    var a := TagStart(s, p);
    var q := IndexOf(s, ">", a + 3);
    var k := IndexOf(s, "</a>", q + 2);
    TagAtSound(s, a, q, k);
    assert AnchorShape(s, p, a, q, k) && AnchorAt(s, p) == Some(k + 4);
  }

  /** Every occurrence of the pattern's shape is found by the recogniser. */
  lemma AnchorAtComplete(s: string, p: nat, a: nat, q: nat, k: nat)
    requires AnchorShape(s, p, a, q, k)
    ensures AnchorAt(s, p) == Some(k + 4)
  {
    assert s[a] == '<' by { assert s[a] == s[a..a + 2][0]; }
    assert a == TagStart(s, p);
    TagAtComplete(s, a, q, k);
  }

  lemma TagAtComplete(s: string, a: nat, q: nat, k: nat)
    requires TagShape(s, a, q, k)
    ensures TagAt(s, a) == Some(k + 4)
  {
    FirstCloseAngle(s, a, q);
    IndexOfFirst(s, "</a>", q + 2, k);
    LineFeedFree(s, q + 1, k);
  }

  lemma FirstCloseAngle(s: string, a: nat, q: nat)
    requires a + 2 < q < |s| && s[q] == '>'
    requires forall j | a + 2 <= j < q :: s[j] != '>'
    ensures IndexOf(s, ">", a + 3) == q
  {
    OccursAtChar(s, '>', q);
    forall j | a + 3 <= j < q
      ensures !OccursAt(s, ">", j)
    {
      OccursAtChar(s, '>', j);
    }
    IndexOfFirst(s, ">", a + 3, q);
  }

  /** A stretch has no line feed exactly when none of its characters is one. */
  lemma LineFeedFree(s: string, lo: nat, hi: nat)
    requires lo <= hi <= |s|
    ensures '\n' !in s[lo..hi] <==> forall j | lo <= j < hi :: s[j] != '\n'
  {
    if '\n' !in s[lo..hi] {
      forall j | lo <= j < hi
        ensures s[j] != '\n'
      {
        assert s[j] == s[lo..hi][j - lo];
      }
    }
  }

  /** No match starts in `[lo, hi)`. */
  ghost predicate NoMatchIn(s: string, lo: nat, hi: nat) {
    forall p | lo <= p < hi :: AnchorAt(s, p).None?
  }

  /** `spans` are the leftmost, non-overlapping matches at or after `from`: no
      match starts before the first span, the first span is the match at its
      start, and the remaining spans are the leftmost matches from its end. */
  ghost predicate Leftmost(s: string, from: nat, spans: seq<Span>)
    decreases |spans|
  {
    if spans == [] then NoMatchIn(s, from, |s|)
    else
      && from <= spans[0].start
      && NoMatchIn(s, from, spans[0].start)
      && AnchorAt(s, spans[0].start) == Some(spans[0].end)
      && Leftmost(s, spans[0].end, spans[1..])
  }

  /** `Regex.Matches(s, from)`: the match at `from` if there is one, then the
      matches after its end; otherwise the matches from the next index. */
  function Scan(s: string, from: nat): (spans: seq<Span>)
    ensures Leftmost(s, from, spans)
    decreases |s| - from
  {
    if from >= |s| then []
    else
      match AnchorAt(s, from)
      case Some(e) =>
        var rest := Scan(s, e);
        assert ([Span(from, e)] + rest)[1..] == rest;
        [Span(from, e)] + rest
      case None =>
        var rest := Scan(s, from + 1);
        LeftmostStep(s, from, rest);
        rest
  }

  /** An index where no match starts can be added in front of the search. */
  lemma LeftmostStep(s: string, from: nat, spans: seq<Span>)
    requires AnchorAt(s, from).None?
    requires Leftmost(s, from + 1, spans)
    ensures Leftmost(s, from, spans)
  {
  }

  /** The leftmost matches are unique: `Scan` is the only sequence of spans
      that satisfies `Leftmost`. */
  lemma {:induction false} LeftmostUnique(s: string, from: nat, spans: seq<Span>, other: seq<Span>)
    requires Leftmost(s, from, spans) && Leftmost(s, from, other)
    ensures spans == other
    decreases |spans|
  {
    if spans != [] {
      FirstSpanNoLater(s, from, other, spans[0].start);
    }
    if other != [] {
      FirstSpanNoLater(s, from, spans, other[0].start);
    }
    if spans != [] {
      var first, rest := spans[0], spans[1..];
      assert first == other[0] by {
        assert first.start == other[0].start;
        assert AnchorAt(s, first.start) == Some(first.end);
      }
      LeftmostUnique(s, first.end, rest, other[1..]);
      assert spans == [first] + rest;
      assert other == [other[0]] + other[1..];
    }
  }

  /** A match at `p` means the first leftmost span starts at `p` or earlier. */
  lemma FirstSpanNoLater(s: string, from: nat, spans: seq<Span>, p: nat)
    requires Leftmost(s, from, spans)
    requires from <= p && AnchorAt(s, p).Some?
    ensures spans != [] && spans[0].start <= p
  {
  }

  /** Every leftmost span is a match that lies inside the text, and the spans
      come in order without overlapping. */
  lemma {:induction false} LeftmostSpans(s: string, from: nat, spans: seq<Span>)
    requires Leftmost(s, from, spans)
    ensures forall i | 0 <= i < |spans| ::
      from <= spans[i].start && AnchorAt(s, spans[i].start) == Some(spans[i].end) && spans[i].end <= |s|
    ensures forall i | 0 <= i < |spans| - 1 :: spans[i].end <= spans[i + 1].start
    decreases |spans|
  {
    if spans != [] {
      LeftmostSpans(s, spans[0].end, spans[1..]);
      forall i | 1 <= i < |spans|
        ensures spans[0].end <= spans[i].start
      {
        assert spans[i] == spans[1..][i - 1];
      }
    }
  }

  /** The matched anchor strings of `content`, in order (`GetATagMatchCollection`). */
  function Anchors(content: string): (anchors: seq<string>)
    ensures |anchors| == |Scan(content, 0)|
    ensures forall i | 0 <= i < |anchors| ::
      var sp := Scan(content, 0)[i];
      AnchorAt(content, sp.start) == Some(sp.end) && anchors[i] == content[sp.start..sp.end]
  {
    var spans := Scan(content, 0);
    LeftmostSpans(content, 0, spans);
    seq(|spans|, i requires 0 <= i < |spans| => content[spans[i].start..spans[i].end])
  }

  /** The text of one match: `<a` or `i<a`, attribute text, `>`, inner text, `</a>`. */
  ghost predicate AnchorText(a: string) {
    && |a| >= 9
    && (StartsWith(a, "<a") || (a[0] == 'i' && OccursAt(a, "<a", 1)))
    && OccursAt(a, "</a>", |a| - 4)
  }

  /** The tag and the closing tag of a match found at `p`. */
  lemma AnchorAtParts(s: string, p: nat)
    requires AnchorAt(s, p).Some?
    ensures var a := TagStart(s, p);
      OccursAt(s, "<a", a) && OccursAt(s, "</a>", AnchorAt(s, p).value - 4)
  {
  }

  /** Every match has the text shape of an anchor. */
  lemma AnchorAtText(s: string, p: nat)
    requires AnchorAt(s, p).Some?
    ensures AnchorText(s[p..AnchorAt(s, p).value])
  {
    var e := AnchorAt(s, p).value;
    var a := TagStart(s, p);
    AnchorAtParts(s, p);
    var t := s[p..e];
    assert t[a - p..a - p + 2] == s[a..a + 2];
    assert t[|t| - 4..] == s[e - 4..e];
  }

  /** Every scanned anchor has the text shape of a match. */
  lemma AnchorsAreAnchorText(content: string)
    ensures forall a | a in Anchors(content) :: AnchorText(a)
  {
    var spans := Scan(content, 0);
    forall a | a in Anchors(content)
      ensures AnchorText(a)
    {
      var i :| 0 <= i < |Anchors(content)| && Anchors(content)[i] == a;
      AnchorAtText(content, spans[i].start);
    }
  }

  /** A match needs an `<a` in the content. */
  lemma MatchHasTag(s: string, p: nat)
    requires AnchorAt(s, p).Some?
    ensures Contains(s, "<a")
  {
    AnchorAtParts(s, p);
  }

  /** Content with no `<a` has no anchors. */
  lemma NoTagNoAnchors(content: string)
    requires !Contains(content, "<a")
    ensures Anchors(content) == []
  {
    var spans := Scan(content, 0);
    if |spans| > 0 {
      MatchHasTag(content, spans[0].start);
    }
  }
}
