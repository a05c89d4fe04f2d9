/** Href extraction (`GetHref`): the first match of
    `href[ ]*=[ ]*["']([\w:\/\.\~\-\?\&\=\;]+)["]` in ECMAScript mode, where `\w`
    is .NET's ECMAScript word class: `[A-Za-z0-9_]` and U+0130, the capital
    dotted `İ`. The value may open with either quote but must close with
    `"`. With no match the href is the empty string.

    Every quantifier in the pattern is followed by a character it cannot
    consume (`=` after the spaces, a quote after the spaces, `"` after the value
    characters), so at each start index the match is unique and the engine's
    backtracking never changes it.
 */
module Href {
  import opened Results
  import opened Text

  /** A character of the value class `[\w:/.~\-?&=;]`. */
  predicate IsHrefChar(c: char) {
    || 'A' <= c <= 'Z' || 'a' <= c <= 'z' || '0' <= c <= '9'
    || c == '_' || c == ':' || c == '/' || c == '.' || c == '~'
    || c == '-' || c == '?' || c == '&' || c == '=' || c == ';'
    || c == '\U{130}'
  }

  /** The first index at or after `i` that is not a space. */
  function SkipSpaces(s: string, i: nat): (j: nat)
    requires i <= |s|
    ensures i <= j <= |s|
    ensures forall m | i <= m < j :: s[m] == ' '
    ensures j < |s| ==> s[j] != ' '
    decreases |s| - i
  {
    if i == |s| || s[i] != ' ' then i else SkipSpaces(s, i + 1)
  }

  /** The first index at or after `i` that is not a value character. */
  function SkipHrefChars(s: string, i: nat): (j: nat)
    requires i <= |s|
    ensures i <= j <= |s|
    ensures forall m | i <= m < j :: IsHrefChar(s[m])
    ensures j < |s| ==> !IsHrefChar(s[j])
    decreases |s| - i
  {
    if i == |s| || !IsHrefChar(s[i]) then i else SkipHrefChars(s, i + 1)
  }

  /** The pattern tried at index `p`: the captured value, if it matches there. */
  function HrefAt(s: string, p: nat): (v: Option<string>)
    ensures v.Some? ==> |v.value| > 0 && forall c | c in v.value :: IsHrefChar(c)
  {
    if !OccursAt(s, "href", p) then None
    else
      var i := SkipSpaces(s, p + 4);
      if i == |s| || s[i] != '=' then None
      else
        var j := SkipSpaces(s, i + 1);
        if j == |s| || (s[j] != '"' && s[j] != '\'') then None
        else
          var k := SkipHrefChars(s, j + 1);
          if k == j + 1 || k == |s| || s[k] != '"' then None
          else Some(s[j + 1..k])
  }

  /** The language of the pattern: `s[p..k + 1]` is `href`, spaces, `=` at `i`,
      spaces, an opening quote at `j`, value characters, and `"` at `k`. */
  ghost predicate HrefShape(s: string, p: nat, i: nat, j: nat, k: nat) {
    && OccursAt(s, "href", p)
    && p + 4 <= i < |s| && s[i] == '='
    && (forall m | p + 4 <= m < i :: s[m] == ' ')
    && i < j < |s| && (s[j] == '"' || s[j] == '\'')
    && (forall m | i + 1 <= m < j :: s[m] == ' ')
    && j + 1 < k < |s| && s[k] == '"'
    && (forall m | j + 1 <= m < k :: IsHrefChar(s[m]))
  }

  /** Every value the recogniser captures comes from a match of the pattern. */
  lemma HrefAtSound(s: string, p: nat)
    requires HrefAt(s, p).Some?
    ensures exists i: nat, j: nat, k: nat :: HrefShape(s, p, i, j, k) && HrefAt(s, p) == Some(s[j + 1..k])
  {
    var i := SkipSpaces(s, p + 4);
    var j := SkipSpaces(s, i + 1);
    var k := SkipHrefChars(s, j + 1);
    assert HrefShape(s, p, i, j, k);
  }

  /** Every match of the pattern is captured by the recogniser. */
  lemma HrefAtComplete(s: string, p: nat, i: nat, j: nat, k: nat)
    requires HrefShape(s, p, i, j, k)
    ensures HrefAt(s, p) == Some(s[j + 1..k])
  {
    assert SkipSpaces(s, p + 4) == i;
    assert SkipSpaces(s, i + 1) == j;
    assert SkipHrefChars(s, j + 1) == k;
  }

  /** No match of the pattern starts in `[lo, hi)`. */
  ghost predicate NoHrefIn(s: string, lo: nat, hi: nat) {
    forall p | lo <= p < hi :: HrefAt(s, p).None?
  }

  /** The leftmost index at or after `from` where the pattern matches. */
  function FirstHref(s: string, from: nat): (p: Option<nat>)
    ensures p.None? ==> NoHrefIn(s, from, |s|)
    ensures p.Some? ==> from <= p.value < |s| && HrefAt(s, p.value).Some? && NoHrefIn(s, from, p.value)
    decreases |s| - from
  {
    if from >= |s| then None
    else if HrefAt(s, from).Some? then Some(from)
    else
      var p := FirstHref(s, from + 1);
      NoHrefStep(s, from, if p.Some? then p.value else |s|);
      p
  }

  /** An index where the pattern does not match can be added in front of a
      match-free stretch. */
  lemma NoHrefStep(s: string, from: nat, hi: nat)
    requires HrefAt(s, from).None? && NoHrefIn(s, from + 1, hi)
    ensures NoHrefIn(s, from, hi)
  {
  }

  /** `GetHref`: the value of the first `href` attribute match, or the empty string. */
  function GetHref(html: string): (v: string)
    ensures v == "" || (|v| > 0 && forall c | c in v :: IsHrefChar(c))
    ensures v == "" <==> NoHrefIn(html, 0, |html|)
  {
    match FirstHref(html, 0)
    case Some(p) => HrefAt(html, p).value
    case None => ""
  }

  /** A non-empty href is the value of the leftmost match of the pattern. */
  lemma GetHrefSound(html: string)
    requires GetHref(html) != ""
    ensures exists p: nat, i: nat, j: nat, k: nat ::
      HrefShape(html, p, i, j, k) && GetHref(html) == html[j + 1..k] && NoHrefIn(html, 0, p)
  {
    var p := FirstHref(html, 0).value;
    HrefAtSound(html, p);
    var i: nat, j: nat, k: nat :| HrefShape(html, p, i, j, k) && HrefAt(html, p) == Some(html[j + 1..k]);
  }

  /** The first match of the pattern determines the href. */
  lemma GetHrefComplete(html: string, p: nat, i: nat, j: nat, k: nat)
    requires HrefShape(html, p, i, j, k)
    requires forall p': nat, i': nat, j': nat, k': nat | p' < p :: !HrefShape(html, p', i', j', k')
    ensures GetHref(html) == html[j + 1..k]
  {
    HrefAtComplete(html, p, i, j, k);
    forall p' | 0 <= p' < p
      ensures HrefAt(html, p').None?
    {
      if HrefAt(html, p').Some? {
        HrefAtSound(html, p');
      }
    }
    assert FirstHref(html, 0) == Some(p);
  }

  /** Without a match of the pattern the href is empty. */
  lemma GetHrefEmpty(html: string)
    ensures GetHref(html) == "" <==> forall p: nat, i: nat, j: nat, k: nat :: !HrefShape(html, p, i, j, k)
  {
    if GetHref(html) != "" {
      GetHrefSound(html);
    } else {
      forall p: nat, i: nat, j: nat, k: nat
        ensures !HrefShape(html, p, i, j, k)
      {
        if HrefShape(html, p, i, j, k) {
          HrefAtComplete(html, p, i, j, k);
        }
      }
    }
  }

  /** The ECMAScript word class holds the capital dotted `İ`, so a value such
      as `/İ` is captured whole. */
  lemma DottedCapitalIHref()
    ensures GetHref("href=\"/\U{130}\"") == "/\U{130}"
  {
    var s := "href=\"/\U{130}\"";
    assert OccursAt(s, "href", 0) by { assert s[..4] == "href"; }
    assert SkipSpaces(s, 4) == 4 && SkipSpaces(s, 5) == 5;
    assert SkipHrefChars(s, 6) == 8;
    assert HrefAt(s, 0) == Some(s[6..8]);
  }
}
