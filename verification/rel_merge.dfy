/** Adding `rel="noopener noreferrer"` to one external `_blank` anchor.

    Without a ` rel=` in the anchor the whole attribute is inserted at index 2,
    right after `<a` (or after `i<` when the match began `i<a`). With one, the
    rel value is the window from the character after `rel=` (normally its
    opening quote) to just past the next `"`; `noopener` and `noreferrer` are
    searched there as tokens bounded by a quote or a space, and only the
    missing ones are inserted.
 */
module RelMerge {
  import opened Results
  import opened Text

  const RelMarker: string := " rel="

  /** The attribute inserted into an anchor that has no `rel`: 26 characters. */
  const ProtectionAttribute: string := " rel=\"noopener noreferrer\""

  predicate IsDelimiter(c: char) {
    c == '"' || c == ' '
  }

  /** The pattern `[" ]token[" ]` matches at `m`. */
  predicate TokenAt(s: string, token: string, m: int) {
    && 0 <= m && m + |token| + 2 <= |s|
    && IsDelimiter(s[m])
    && s[m + 1..m + 1 + |token|] == token
    && IsDelimiter(s[m + 1 + |token|])
  }

  /** No token match lies wholly inside the window `[from, end)`. */
  ghost predicate NoTokenIn(s: string, token: string, from: int, end: int) {
    forall m | from <= m && m + |token| + 2 <= end :: !TokenAt(s, token, m)
  }

  /** The leftmost token match inside the window `[from, end)`, reported as its
      index plus one (the index of the token itself), or -1. */
  function FindToken(s: string, token: string, from: nat, end: nat): (r: int)
    requires end <= |s|
    ensures r == -1 <==> NoTokenIn(s, token, from, end)
    ensures r != -1 ==> from < r && r + |token| + 1 <= end && TokenAt(s, token, r - 1)
    ensures r != -1 ==> NoTokenIn(s, token, from, r + |token|)  // none starts before r - 1
    decreases end - from
  {
    if from + |token| + 2 > end then -1
    else if TokenAt(s, token, from) then from + 1
    else FindToken(s, token, from + 1, end)
  }

  /** What a search reports: -1, or a token match inside the window. */
  lemma FoundToken(s: string, token: string, from: nat, end: nat, r: int)
    requires end <= |s| && r == FindToken(s, token, from, end)
    ensures r == -1 || (from < r && r + |token| + 1 <= end && TokenAt(s, token, r - 1))
  {
  }

  /** `GetValuePosition`: `Regex.Match(input, start, length)` for
      `[" ]token[" ]`, as the .NET Framework runs it. The call checks `start`
      and `length` each against the length of the input and throws when either
      lies outside it. A window that passes those checks but runs past the end
      of the input is scanned as given: a match inside the input is found as
      usual, and otherwise the scan reads past the end of the string and
      throws. */
  function GetValuePosition(input: string, token: string, start: int, length: int): (r: Result<int>)
    ensures r == Err(MatchWindowOutOfRange) <==> start < 0 || start > |input| || length < 0 || length > |input|
    ensures r == Err(ScanPastEnd) <==>
      && 0 <= start <= |input| && 0 <= length <= |input| && start + length > |input|
      && NoTokenIn(input, token, start, |input|)
    ensures r.Ok? ==>
      var end := if start + length <= |input| then start + length else |input|;
      && (r.value == -1 <==> NoTokenIn(input, token, start, end))
      && (r.value != -1 ==>
            && start < r.value && r.value + |token| + 1 <= end
            && TokenAt(input, token, r.value - 1)
            && NoTokenIn(input, token, start, r.value + |token|))
  {
    if start < 0 || start > |input| || length < 0 || length > |input| then Err(MatchWindowOutOfRange)
    else if start + length <= |input| then Ok(FindToken(input, token, start, start + length))
    else
      var found := FindToken(input, token, start, |input|);
      if found == -1 then Err(ScanPastEnd) else Ok(found)
  }

  /** Lines 55-84 of `Process`, with the `noreferrer` search of line 77 made
      over the same rel window as the `noopener` search. */
  function AddProtection(aNode: string): (r: Result<string>)
  {
    var relStartPosition := IndexOf(aNode, RelMarker, 0);
    if relStartPosition < 0 then
      if |aNode| < 2 then Err(InsertIndexOutOfRange)
      else Ok(Insert(aNode, 2, ProtectionAttribute))
    else MergeRel(aNode, relStartPosition + 5)
  }

  /** Merging into an existing rel value that starts at `relStart`. */
  function MergeRel(aNode: string, relStart: nat): (r: Result<string>)
    requires relStart <= |aNode|
  {
    if relStart + 1 > |aNode| then Err(IndexOfStartOutOfRange)
    else
      var relEnd := IndexOf(aNode, "\"", relStart + 1) + 1;
      var noopenerPosition :- GetValuePosition(aNode, "noopener", relStart, relEnd - relStart);
      var noreferrerPosition :- GetValuePosition(aNode, "noreferrer", relStart, relEnd - relStart);
      Ok(InsertMissing(aNode, relStart, noopenerPosition, noreferrerPosition))
  }

  /** Lines 68-82: `noopener ` after the value's opening delimiter when
      `noopener` was not found, then ` noreferrer` after the `noopener` token
      when `noreferrer` was not found. */
  function InsertMissing(aNode: string, relStart: nat, noopenerPosition: int, noreferrerPosition: int): string
    requires relStart + 1 <= |aNode|
    requires noopenerPosition < 0 || noopenerPosition + 8 <= |aNode|
  {
    if noopenerPosition < 0 then
      InsertParts(aNode, relStart + 1, "noopener ");
      var withNoopener := Insert(aNode, relStart + 1, "noopener ");
      if noreferrerPosition < 0 then Insert(withNoopener, relStart + 9, " noreferrer") else withNoopener
    else if noreferrerPosition < 0 then Insert(aNode, noopenerPosition + 8, " noreferrer")
    else aNode
  }

  /** A rel value that already holds both tokens inside its window is left
      alone: `idx` is the first ` rel=` and `q` the first `"` after the value's
      first character. */
  lemma CompleteRelKept(r: string, idx: nat, q: nat, m1: int, m2: int)
    requires CompleteRel(r, idx, q, m1, m2)
    ensures AddProtection(r) == Ok(r)
  {
  }

  /** The first ` rel=` is at `idx` and the first `"` after the rel value's
      first character is at `q`: the rel window is `[idx + 5, q + 1)`. */
  predicate RelWindow(a: string, idx: nat, q: nat) {
    IndexOf(a, RelMarker, 0) == idx && idx + 6 <= |a| && IndexOf(a, "\"", idx + 6) == q
  }

  /** The first ` rel=` is at `idx`, the first `"` after the value's first
      character is at `q`, and the window between holds `noopener` at `m1` and
      `noreferrer` at `m2`. */
  predicate CompleteRel(r: string, idx: nat, q: nat, m1: int, m2: int) {
    && RelWindow(r, idx, q)
    && idx + 5 <= m1 && m1 + 10 <= q + 1 && TokenAt(r, "noopener", m1)
    && idx + 5 <= m2 && m2 + 12 <= q + 1 && TokenAt(r, "noreferrer", m2)
  }

  /** A token match inside a stretch of `a` is a match in any text `r` that
      holds the same stretch, at the corresponding index. */
  lemma TokenShift(a: string, da: nat, r: string, dr: nat, len: nat, token: string, m: int)
    requires da + len <= |a| && dr + len <= |r| && r[dr..dr + len] == a[da..da + len]
    requires da <= m && m + |token| + 2 <= da + len
    requires TokenAt(a, token, m)
    ensures TokenAt(r, token, m - da + dr)
  {
    var n := m - da + dr;
    assert r[n] == r[dr..dr + len][m - da];
    forall i | 0 <= i < |token|
      ensures r[n + 1..n + 1 + |token|][i] == token[i]
    {
      assert r[n + 1 + i] == r[dr..dr + len][m - da + 1 + i];
      assert a[m + 1 + i] == a[m + 1..m + 1 + |token|][i];
    }
    assert r[n + 1 + |token|] == r[dr..dr + len][m - da + 1 + |token|];
  }

  /** The protection attribute holds both tokens, bounded by its own quotes. */
  lemma AttributeTokens()
    ensures ProtectionAttribute[..5] == RelMarker && ProtectionAttribute[5] == '"' && |ProtectionAttribute| == 26
    ensures TokenAt(ProtectionAttribute, "noopener", 5)
    ensures TokenAt(ProtectionAttribute, "noreferrer", 14)
    ensures forall i | 6 <= i < 25 :: ProtectionAttribute[i] != '"'
    ensures ProtectionAttribute[25] == '"'
  {
    assert ProtectionAttribute[6..14] == "noopener";
    assert ProtectionAttribute[15..25] == "noreferrer";
  }

  /** After the whole attribute has been inserted, a second pass leaves the
      anchor alone. */
  lemma InsertedAttributeKept(a: string)
    requires IndexOf(a, RelMarker, 0) < 0 && |a| >= 2
    ensures AddProtection(Insert(a, 2, ProtectionAttribute)) == Ok(Insert(a, 2, ProtectionAttribute))
  {
    AttributeTokens();
    InsertParts(a, 2, ProtectionAttribute);
    AttributeAtTwoKept(Insert(a, 2, ProtectionAttribute));
  }

  lemma AttributeAtTwoKept(r: string)
    requires |r| >= 28 && r[2..28] == ProtectionAttribute
    ensures AddProtection(r) == Ok(r)
  {
    AttributeTokens();
    assert OccursAt(r, RelMarker, 2) by { assert r[2..7] == r[2..28][..5]; }
    assert r[2] == r[2..28][0] && r[3] == r[2..28][1];
    IndexOfFirst(r, RelMarker, 0, 2);
    forall j | 8 <= j < 27
      ensures !OccursAt(r, "\"", j)
    {
      OccursAtChar(r, '"', j);
      assert r[j] == r[2..28][j - 2];
    }
    assert r[27] == r[2..28][25];
    OccursAtChar(r, '"', 27);
    IndexOfFirst(r, "\"", 8, 27);
    TokenShift(ProtectionAttribute, 0, r, 2, 26, "noopener", 5);
    TokenShift(ProtectionAttribute, 0, r, 2, 26, "noreferrer", 14);
    CompleteRelKept(r, 2, 27, 7, 16);
  }

  /** Case: `noopener` was found at `p`, ` noreferrer` was inserted after it. */
  lemma NoreferrerAddedKept(a: string, idx: nat, q: nat, p: nat)
    requires RelWindow(a, idx, q)
    requires idx + 5 < p && p + 9 <= q + 1 && TokenAt(a, "noopener", p - 1)
    ensures var r := InsertMissing(a, idx + 5, p, -1); AddProtection(r) == Ok(r)
  {
    NoreferrerInsertFacts(a, idx, q, p - 1);
    CompleteRelKept(Insert(a, p + 8, " noreferrer"), idx, q + 11, p - 1, p + 8);
  }

  lemma NoreferrerInsertFacts(a: string, idx: nat, q: nat, m: nat)
    requires RelWindow(a, idx, q)
    requires idx + 5 <= m && m + 10 <= q + 1 && TokenAt(a, "noopener", m)
    ensures CompleteRel(Insert(a, m + 9, " noreferrer"), idx, q + 11, m, m + 9)
  {
    WindowAfterInsert(a, idx, q, m + 9, " noreferrer");
    InsertParts(a, m + 9, " noreferrer");
    TokensAfterNoreferrerInsert(a, Insert(a, m + 9, " noreferrer"), m);
  }

  /** Text without `"` inserted inside the rel value moves its closing quote
      and nothing before it. */
  lemma WindowAfterInsert(a: string, idx: nat, q: nat, x: nat, ins: string)
    requires RelWindow(a, idx, q)
    requires idx + 6 <= x <= q && '"' !in ins
    ensures RelWindow(Insert(a, x, ins), idx, q + |ins|)
  {
    IndexOfBeforeInsert(a, RelMarker, 0, x, ins);
    IndexOfCharAfterInsert(a, '"', idx + 6, x, ins);
    InsertParts(a, x, ins);
  }

  lemma TokensAfterNoreferrerInsert(a: string, r: string, m: nat)
    requires InsertedAt(r, a, m + 9, " noreferrer")
    requires TokenAt(a, "noopener", m)
    ensures TokenAt(r, "noopener", m) && TokenAt(r, "noreferrer", m + 9)
  {
    var x := m + 9;
    assert TokenAt(r, "noopener", m) by {
      assert r[m] == r[..x][m];
      assert r[m + 1..m + 9] == r[..x][m + 1..m + 9];
      assert a[m + 1..m + 9] == a[..x][m + 1..m + 9];
      assert r[x] == r[x..x + 11][0];
    }
    assert TokenAt(r, "noreferrer", x) by {
      assert r[x + 1..x + 11] == r[x..x + 11][1..11];
      assert r[x + 11] == r[x + 11..][0];
    }
  }

  /** Case: `noreferrer` was found at `p`, `noopener ` was inserted after the
      rel value's opening delimiter. */
  lemma NoopenerAddedKept(a: string, idx: nat, q: nat, p: nat)
    requires RelWindow(a, idx, q) && IsDelimiter(a[idx + 5])
    requires idx + 5 < p && p + 11 <= q + 1 && TokenAt(a, "noreferrer", p - 1)
    ensures var r := InsertMissing(a, idx + 5, -1, p); AddProtection(r) == Ok(r)
  {
    NoopenerInsertFacts(a, idx, q, p - 1);
    CompleteRelKept(Insert(a, idx + 6, "noopener "), idx, q + 9, idx + 5, p + 8);
  }

  lemma NoopenerInsertFacts(a: string, idx: nat, q: nat, m: nat)
    requires RelWindow(a, idx, q) && IsDelimiter(a[idx + 5])
    requires idx + 5 <= m && m + 12 <= q + 1 && TokenAt(a, "noreferrer", m)
    ensures CompleteRel(Insert(a, idx + 6, "noopener "), idx, q + 9, idx + 5, m + 9)
  {
    var x := idx + 6;
    WindowAfterInsert(a, idx, q, x, "noopener ");
    InsertParts(a, x, "noopener ");
    TokensAfterNoopenerInsert(a, Insert(a, x, "noopener "), x, m);
  }

  lemma TokensAfterNoopenerInsert(a: string, r: string, x: nat, m: nat)
    requires 1 <= x && InsertedAt(r, a, x, "noopener ") && IsDelimiter(a[x - 1])
    requires x - 1 <= m && TokenAt(a, "noreferrer", m)
    ensures TokenAt(r, "noopener", x - 1) && TokenAt(r, "noreferrer", m + 9)
  {
    assert TokenAt(r, "noopener", x - 1) by {
      assert r[x - 1] == r[..x][x - 1];
      assert r[x..x + 8] == r[x..x + 9][..8];
      assert r[x + 8] == r[x..x + 9][8];
    }
    if m == x - 1 {
      assert r[x + 8] == r[x..x + 9][8];
      assert r[x + 9..x + 19] == r[x + 9..][..10];
      assert a[x..x + 10] == a[x..][..10];
      assert r[x + 19] == r[x + 9..][10];
    } else {
      TokenShift(a, x, r, x + 9, |a| - x, "noreferrer", m);
    }
  }

  /** Case: both tokens were missing; `noopener noreferrer ` ends up after the
      rel value's opening delimiter. */
  lemma BothAddedKept(a: string, idx: nat, q: nat)
    requires RelWindow(a, idx, q) && IsDelimiter(a[idx + 5])
    ensures var r := InsertMissing(a, idx + 5, -1, -1); AddProtection(r) == Ok(r)
  {
    BothInserted(a, idx + 5);
    BothInsertFacts(a, idx, q);
    CompleteRelKept(Insert(a, idx + 6, "noopener noreferrer "), idx, q + 20, idx + 5, idx + 14);
  }

  /** The two insertions made when both tokens are missing amount to one. */
  lemma BothInserted(a: string, relStart: nat)
    requires relStart + 1 <= |a|
    ensures InsertMissing(a, relStart, -1, -1) == Insert(a, relStart + 1, "noopener noreferrer ")
  {
    InsertInsert(a, relStart + 1, "noopener ", 8, " noreferrer");
    assert "noopener "[..8] + " noreferrer" + "noopener "[8..] == "noopener noreferrer ";
  }

  lemma BothInsertFacts(a: string, idx: nat, q: nat)
    requires RelWindow(a, idx, q) && IsDelimiter(a[idx + 5])
    ensures CompleteRel(Insert(a, idx + 6, "noopener noreferrer "), idx, q + 20, idx + 5, idx + 14)
  {
    var x := idx + 6;
    var t := "noopener noreferrer ";
    WindowAfterInsert(a, idx, q, x, t);
    InsertParts(a, x, t);
    TokensAfterBothInsert(a, Insert(a, x, t), x);
  }

  lemma TokensAfterBothInsert(a: string, r: string, x: nat)
    requires 1 <= x && InsertedAt(r, a, x, "noopener noreferrer ") && IsDelimiter(a[x - 1])
    ensures TokenAt(r, "noopener", x - 1) && TokenAt(r, "noreferrer", x + 8)
  {
    var t := "noopener noreferrer ";
    var w := r[x..x + 20];
    assert w == t;
    assert t[..8] == "noopener" && t[8] == ' ' && t[9..19] == "noreferrer" && t[19] == ' ';
    assert r[x - 1] == r[..x][x - 1];
    assert r[x..x + 8] == w[..8];
    assert r[x + 8] == w[8];
    assert r[x + 9..x + 19] == w[9..19] by {
      forall i | 0 <= i < 10
        ensures r[x + 9..x + 19][i] == w[9..19][i]
      {
        assert r[x + 9 + i] == w[9 + i];
      }
    }
    assert r[x + 19] == w[19];
  }

  /** The rel value, if any, opens with a quote or a space (the editor writes
      `rel="..."`). */
  predicate RelOpensWithDelimiter(aNode: string) {
    var idx := IndexOf(aNode, RelMarker, 0);
    idx < 0 || (idx + 5 < |aNode| && IsDelimiter(aNode[idx + 5]))
  }

  /** Protecting an anchor twice is the same as protecting it once: the result
      holds both tokens inside its rel window. */
  lemma AddProtectionIdempotent(aNode: string)
    requires AddProtection(aNode).Ok?
    requires RelOpensWithDelimiter(aNode)
    ensures AddProtection(AddProtection(aNode).value) == AddProtection(aNode)
  {
    var idx := IndexOf(aNode, RelMarker, 0);
    if idx < 0 {
      InsertedAttributeKept(aNode);
    } else {
      MergeRelIdempotent(aNode, idx, IndexOf(aNode, "\"", idx + 6));
    }
  }

  lemma MergeRelIdempotent(aNode: string, idx: nat, q: nat)
    requires RelWindow(aNode, idx, q) && IsDelimiter(aNode[idx + 5])
    ensures AddProtection(aNode).Ok?
    ensures AddProtection(AddProtection(aNode).value) == AddProtection(aNode)
  {
    AddProtectionMerges(aNode, idx, q);
    SearchedKept(aNode, idx, q);
  }

  /** The merge of what the two searches report is kept by a second pass. */
  lemma SearchedKept(aNode: string, idx: nat, q: nat)
    requires RelWindow(aNode, idx, q) && IsDelimiter(aNode[idx + 5])
    ensures var r := InsertMissing(aNode, idx + 5, FindToken(aNode, "noopener", idx + 5, q + 1),
                                   FindToken(aNode, "noreferrer", idx + 5, q + 1));
      AddProtection(r) == Ok(r)
  {
    var noopener := FindToken(aNode, "noopener", idx + 5, q + 1);
    var noreferrer := FindToken(aNode, "noreferrer", idx + 5, q + 1);
    FoundToken(aNode, "noopener", idx + 5, q + 1, noopener);
    FoundToken(aNode, "noreferrer", idx + 5, q + 1, noreferrer);
    MergedKept(aNode, idx, q, noopener, noreferrer);
  }

  /** Whatever tokens the merge inserted, a second pass finds both: the
      positions are the token indices found in the rel window, or -1. */
  lemma MergedKept(aNode: string, idx: nat, q: nat, noopener: int, noreferrer: int)
    requires RelWindow(aNode, idx, q) && IsDelimiter(aNode[idx + 5])
    requires noopener == -1 || (idx + 5 < noopener && noopener + 9 <= q + 1 && TokenAt(aNode, "noopener", noopener - 1))
    requires noreferrer == -1 || (idx + 5 < noreferrer && noreferrer + 11 <= q + 1 && TokenAt(aNode, "noreferrer", noreferrer - 1))
    ensures var r := InsertMissing(aNode, idx + 5, noopener, noreferrer); AddProtection(r) == Ok(r)
  {
    if noopener != -1 && noreferrer != -1 {
      CompleteRelKept(aNode, idx, q, noopener - 1, noreferrer - 1);
    } else if noopener != -1 {
      NoreferrerAddedKept(aNode, idx, q, noopener);
    } else if noreferrer != -1 {
      NoopenerAddedKept(aNode, idx, q, noreferrer);
    } else {
      BothAddedKept(aNode, idx, q);
    }
  }

  /** An anchor whose first ` rel=` is at `idx` and whose rel value is closed
      by the `"` at `q` is protected by inserting the tokens its window lacks. */
  lemma AddProtectionMerges(aNode: string, idx: nat, q: nat)
    requires RelWindow(aNode, idx, q)
    ensures var noopener := FindToken(aNode, "noopener", idx + 5, q + 1);
      AddProtection(aNode)
      == Ok(InsertMissing(aNode, idx + 5, noopener, FindToken(aNode, "noreferrer", idx + 5, q + 1)))
  {
  }

  /** Without a ` rel=` the attribute goes in at index 2, right after `<a`
      (or after `i<` in a match that began `i<a`): 26 characters more, the
      rest unchanged. */
  lemma AddProtectionNoRel(aNode: string)
    requires IndexOf(aNode, RelMarker, 0) < 0 && |aNode| >= 2
    ensures AddProtection(aNode) == Ok(aNode[..2] + ProtectionAttribute + aNode[2..])
    ensures |AddProtection(aNode).value| == |aNode| + 26
  {
    InsertParts(aNode, 2, ProtectionAttribute);
  }

  /** A match that starts with the optional `i` of the anchor pattern still gets
      the attribute after its first two characters: between `<` and `a`, which
      breaks the tag. */
  lemma LeadingISplitsTag(rest: string)
    requires IndexOf("i<a" + rest, RelMarker, 0) < 0
    ensures AddProtection("i<a" + rest) == Ok("i<" + ProtectionAttribute + "a" + rest)
    ensures AddProtection("i<a" + rest).value[..3] == "i< "
  {
    var aNode := "i<a" + rest;
    AddProtectionNoRel(aNode);
    assert aNode[..2] == "i<" && aNode[2..] == "a" + rest;
    assert "i<" + ProtectionAttribute + aNode[2..] == "i<" + ProtectionAttribute + "a" + rest;
  }

  /** With a complete rel window, the merge inserts exactly what the window
      lacks, where the source puts it, and changes nothing else. */
  lemma MergeInserts(aNode: string, idx: nat, q: nat)
    requires RelWindow(aNode, idx, q)
    ensures AddProtection(aNode).Ok?
    ensures var r := AddProtection(aNode).value;
      var noopener := FindToken(aNode, "noopener", idx + 5, q + 1);
      var noreferrer := FindToken(aNode, "noreferrer", idx + 5, q + 1);
      && (noopener != -1 && noreferrer != -1 ==> r == aNode)
      && (noopener != -1 && noreferrer == -1 ==>
            r == aNode[..noopener + 8] + " noreferrer" + aNode[noopener + 8..])
      && (noopener == -1 && noreferrer != -1 ==>
            r == aNode[..idx + 6] + "noopener " + aNode[idx + 6..])
      && (noopener == -1 && noreferrer == -1 ==>
            r == aNode[..idx + 6] + "noopener noreferrer " + aNode[idx + 6..])
  {
    var noopener := FindToken(aNode, "noopener", idx + 5, q + 1);
    var noreferrer := FindToken(aNode, "noreferrer", idx + 5, q + 1);
    AddProtectionMerges(aNode, idx, q);
    FoundToken(aNode, "noopener", idx + 5, q + 1, noopener);
    InsertMissingParts(aNode, idx + 5, noopener, noreferrer);
  }

  lemma InsertMissingParts(aNode: string, relStart: nat, noopener: int, noreferrer: int)
    requires relStart + 1 <= |aNode|
    requires noopener < 0 || noopener + 8 <= |aNode|
    ensures var r := InsertMissing(aNode, relStart, noopener, noreferrer);
      && (noopener >= 0 && noreferrer >= 0 ==> r == aNode)
      && (noopener >= 0 && noreferrer < 0 ==>
            r == aNode[..noopener + 8] + " noreferrer" + aNode[noopener + 8..])
      && (noopener < 0 && noreferrer >= 0 ==>
            r == aNode[..relStart + 1] + "noopener " + aNode[relStart + 1..])
      && (noopener < 0 && noreferrer < 0 ==>
            r == aNode[..relStart + 1] + "noopener noreferrer " + aNode[relStart + 1..])
  {
    if noopener >= 0 {
      if noreferrer < 0 {
        InsertParts(aNode, noopener + 8, " noreferrer");
      }
    } else if noreferrer >= 0 {
      InsertParts(aNode, relStart + 1, "noopener ");
    } else {
      BothInserted(aNode, relStart);
      InsertParts(aNode, relStart + 1, "noopener noreferrer ");
    }
  }

  /** The value of ` rel=`, if any, has no closing `"`. */
  predicate RelUnclosed(aNode: string) {
    var idx := IndexOf(aNode, RelMarker, 0);
    idx >= 0 && IndexOf(aNode, "\"", idx + 6) < 0
  }

  /** Protection of anything at least two characters long fails exactly when
      its rel value is not closed: the window length of line 67 is then
      negative (or the start of the quote search lies past the end). */
  lemma AddProtectionFails(aNode: string)
    requires |aNode| >= 2
    ensures AddProtection(aNode).Err? <==> RelUnclosed(aNode)
  {
    var idx := IndexOf(aNode, RelMarker, 0);
    if idx >= 0 {
      var q := IndexOf(aNode, "\"", idx + 6);
      if q >= 0 {
        AddProtectionMerges(aNode, idx, q);
      }
    }
  }
}
