/** The rel merge of `Process` exactly as written. After inserting `noopener `
    the code advances the end of the rel window by 9 (line 73), but the
    `noreferrer` search of line 77 still runs over the original `aNode`. When
    the closing quote of the rel value is fewer than ten characters from the
    end of the anchor, that window runs past the end. `Regex.Match` then scans
    past the end of the string and throws, unless a `noreferrer` inside the rel
    value stops the scan first. Everywhere else the two merges agree.
 */
module RelMergeAsWritten {
  import opened Results
  import opened Text
  import opened RelMerge

  function AddProtectionAsWritten(aNode: string): (r: Result<string>)
  {
    var relStartPosition := IndexOf(aNode, RelMarker, 0);
    if relStartPosition < 0 then AddProtection(aNode)
    else MergeRelAsWritten(aNode, relStartPosition + 5)
  }

  function MergeRelAsWritten(aNode: string, relStart: nat): (r: Result<string>)
    requires relStart <= |aNode|
  {
    if relStart + 1 > |aNode| then Err(IndexOfStartOutOfRange)
    else
      var relEnd := IndexOf(aNode, "\"", relStart + 1) + 1;
      var noopenerPosition :- GetValuePosition(aNode, "noopener", relStart, relEnd - relStart);
      var searchEnd := if noopenerPosition < 0 then relEnd + 9 else relEnd;
      var noreferrerPosition :- GetValuePosition(aNode, "noreferrer", relStart, searchEnd - relStart);
      Ok(InsertMissing(aNode, relStart, noopenerPosition, noreferrerPosition))
  }

  /** The anchor has a closed rel value that lacks `noopener`, and its closing
      quote is fewer than ten characters before the end of the anchor: the
      window widened by 9 runs past the end. */
  predicate WindowOverrun(aNode: string) {
    var idx := IndexOf(aNode, RelMarker, 0);
    && idx >= 0
    && var q := IndexOf(aNode, "\"", idx + 6);
       && q >= 0
       && FindToken(aNode, "noopener", idx + 5, q + 1) == -1
       && q + 10 > |aNode|
  }

  /** The merge as written throws on a window overrun when the widened window
      is longer than the whole anchor, or when the rel value holds no
      `noreferrer` to stop the scan before the end. */
  predicate AsWrittenThrows(aNode: string) {
    && WindowOverrun(aNode)
    && var idx := IndexOf(aNode, RelMarker, 0);
       var q := IndexOf(aNode, "\"", idx + 6);
       (q + 5 - idx > |aNode| || FindToken(aNode, "noreferrer", idx + 5, q + 1) == -1)
  }

  /** The merge as written throws exactly where `AsWrittenThrows` says, and the
      corrected merge succeeds there; on every other anchor the two agree. */
  lemma AsWrittenAgrees(aNode: string)
    ensures AsWrittenThrows(aNode) ==> AddProtectionAsWritten(aNode).Err? && AddProtection(aNode).Ok?
    ensures !AsWrittenThrows(aNode) ==> AddProtectionAsWritten(aNode) == AddProtection(aNode)
  {
    var idx := IndexOf(aNode, RelMarker, 0);
    if idx >= 0 && idx + 6 <= |aNode| {
      var q := IndexOf(aNode, "\"", idx + 6);
      if q >= 0 {
        WindowAgrees(aNode, idx, q);
      } else {
        NoClosingQuote(aNode, idx);
      }
    }
  }

  /** Protecting an anchor as written fails exactly when its rel value is not
      closed or the widened window makes the scan throw. */
  lemma AsWrittenFails(aNode: string)
    requires |aNode| >= 2
    ensures AddProtectionAsWritten(aNode).Err? <==> RelUnclosed(aNode) || AsWrittenThrows(aNode)
  {
    AsWrittenAgrees(aNode);
    AddProtectionFails(aNode);
  }

  /** Without a closing quote both merges fail on the `noopener` search. */
  lemma NoClosingQuote(aNode: string, idx: nat)
    requires IndexOf(aNode, RelMarker, 0) == idx && idx + 6 <= |aNode|
    requires IndexOf(aNode, "\"", idx + 6) < 0
    ensures AddProtection(aNode) == Err(MatchWindowOutOfRange)
    ensures AddProtectionAsWritten(aNode) == Err(MatchWindowOutOfRange)
  {
  }

  lemma WindowAgrees(aNode: string, idx: nat, q: nat)
    requires RelWindow(aNode, idx, q)
    ensures AsWrittenThrows(aNode) ==> AddProtectionAsWritten(aNode).Err? && AddProtection(aNode).Ok?
    ensures !AsWrittenThrows(aNode) ==> AddProtectionAsWritten(aNode) == AddProtection(aNode)
  {
    var noopener := FindToken(aNode, "noopener", idx + 5, q + 1);
    ThrowsOnWindow(aNode, idx, q);
    AddProtectionMerges(aNode, idx, q);
    AsWrittenMerges(aNode, idx, q);
    if noopener == -1 {
      OccursAtChar(aNode, '"', q);
      NoreferrerStopsAtQuote(aNode, q);
      FindTokenWider(aNode, "noreferrer", idx + 5, q + 1, if q + 10 <= |aNode| then q + 10 else |aNode|);
    }
  }

  /** `AsWrittenThrows` in terms of a known rel window. */
  lemma ThrowsOnWindow(aNode: string, idx: nat, q: nat)
    requires RelWindow(aNode, idx, q)
    ensures AsWrittenThrows(aNode) <==>
      && FindToken(aNode, "noopener", idx + 5, q + 1) == -1
      && q + 10 > |aNode|
      && (q + 5 - idx > |aNode| || FindToken(aNode, "noreferrer", idx + 5, q + 1) == -1)
  {
  }

  /** What the merge as written computes on a rel window closed at `q`: the
      `noreferrer` search covers the widened window, cut at the end of the
      anchor, and throws where `GetValuePosition` does. */
  lemma AsWrittenMerges(aNode: string, idx: nat, q: nat)
    requires RelWindow(aNode, idx, q)
    ensures var noopener := FindToken(aNode, "noopener", idx + 5, q + 1);
      var searchEnd := if noopener < 0 then q + 10 else q + 1;
      var noreferrer := FindToken(aNode, "noreferrer", idx + 5, if searchEnd <= |aNode| then searchEnd else |aNode|);
      AddProtectionAsWritten(aNode)
      == if searchEnd - (idx + 5) > |aNode| then Err(MatchWindowOutOfRange)
         else if searchEnd > |aNode| && noreferrer == -1 then Err(ScanPastEnd)
         else Ok(InsertMissing(aNode, idx + 5, noopener, noreferrer))
  {
  }

  /** A `noreferrer` match cannot straddle a `"`: widening a window that ends
      just past a quote by up to 9 characters adds no match. */
  lemma NoreferrerStopsAtQuote(s: string, q: nat)
    requires q < |s| && s[q] == '"'
    ensures forall m | q + 1 < m + 12 <= q + 10 :: !TokenAt(s, "noreferrer", m)
  {
    assert '"' !in "noreferrer";
    forall m | q + 1 < m + 12 <= q + 10
      ensures !TokenAt(s, "noreferrer", m)
    {
      if 0 <= m && m + 12 <= |s| {
        assert s[m + 1..m + 11][q - m - 1] == s[q];
      }
    }
  }

  /** Widening a search window changes nothing when no match ends in the
      added part. */
  lemma {:induction false} FindTokenWider(s: string, token: string, from: nat, end: nat, wide: nat)
    requires end <= wide <= |s|
    requires forall m | end < m + |token| + 2 <= wide :: !TokenAt(s, token, m)
    ensures FindToken(s, token, from, wide) == FindToken(s, token, from, end)
    decreases wide - from
  {
    if from + |token| + 2 <= wide && !TokenAt(s, token, from) {
      FindTokenWider(s, token, from + 1, end, wide);
    }
  }

  /** An external `_blank` anchor whose rel value is its last attribute and
      whose text is one character long: `<a target="_blank" rel="nofollow">x</a>`,
      in three parts around the start of the rel value. */
  const ExampleHead: string := "<a target=\"_blank\""
  const ExampleRel: string := " rel=\""
  const ExampleRest: string := "nofollow\">x</a>"
  const Example: string := ExampleHead + ExampleRel + ExampleRest

  /** On the example the merge as written throws: the scan of line 77 runs
      past the end, as nothing in the rel value stops it. The corrected merge
      puts both tokens in front of `nofollow`:
      `<a target="_blank" rel="noopener noreferrer nofollow">x</a>`. */
  lemma OverrunExample()
    ensures AsWrittenThrows(Example)
    ensures AddProtectionAsWritten(Example) == Err(ScanPastEnd)
    ensures AddProtection(Example) == Ok(ExampleHead + ExampleRel + "noopener noreferrer " + ExampleRest)
  {
    ExampleWindow();
    ExampleLacksNoopener();
    OccursAtChar(Example, '"', 32);
    NoreferrerStopsAtQuote(Example, 32);
    FindTokenWider(Example, "noreferrer", 23, 33, 39);
    AsWrittenMerges(Example, 18, 32);
    ExampleCorrected();
  }

  lemma ExampleParts()
    ensures |Example| == 39
    ensures Example[..24] == ExampleHead + ExampleRel && Example[24..] == ExampleRest
    ensures forall i | 0 <= i < 18 :: Example[i] == ExampleHead[i]
    ensures forall i | 0 <= i < 6 :: Example[18 + i] == ExampleRel[i]
    ensures forall i | 0 <= i < 15 :: Example[24 + i] == ExampleRest[i]
  {
  }

  lemma ExampleLacksNoopener()
    ensures FindToken(Example, "noopener", 23, 33) == -1
    ensures FindToken(Example, "noreferrer", 23, 33) == -1
  {
    ExampleParts();
    assert Example[26] == ExampleRest[2] == 'f';
    assert !TokenAt(Example, "noopener", 23) by { assert Example[24..32][2] == Example[26]; }
  }

  lemma ExampleCorrected()
    ensures AddProtection(Example) == Ok(ExampleHead + ExampleRel + "noopener noreferrer " + ExampleRest)
  {
    ExampleWindow();
    ExampleLacksNoopener();
    AddProtectionMerges(Example, 18, 32);
    BothInserted(Example, 23);
    ExampleParts();
    InsertParts(Example, 24, "noopener noreferrer ");
  }

  /** Where the example's rel window lies: ` rel=` at 18, closing quote at 32. */
  lemma ExampleWindow()
    ensures RelWindow(Example, 18, 32)
  {
    RelAtHead(ExampleRest);
    ExampleQuoteAt();
  }

  /** The parts of an anchor that opens like the example and continues with
      `rest` after the opening quote of its rel value. */
  lemma HeadParts(rest: string)
    ensures var e := ExampleHead + ExampleRel + rest;
      && |e| == 24 + |rest| && e[..24] == ExampleHead + ExampleRel && e[24..] == rest
      && (forall i | 0 <= i < 18 :: e[i] == ExampleHead[i])
      && (forall i | 0 <= i < 6 :: e[18 + i] == ExampleRel[i])
      && (forall i | 0 <= i < |rest| :: e[24 + i] == rest[i])
  {
  }

  /** In such an anchor the first ` rel=` is at 18, whatever follows. */
  lemma RelAtHead(rest: string)
    ensures IndexOf(ExampleHead + ExampleRel + rest, RelMarker, 0) == 18
  {
    var e := ExampleHead + ExampleRel + rest;
    HeadParts(rest);
    assert OccursAt(e, RelMarker, 18) by {
      assert e[18..23] == ExampleRel[..5];
    }
    assert e[..3] == "<a " && e[3] == 't';
    NoOccurrenceWithout(e, RelMarker, 0, 2);
    assert e[2..7][1] == e[3];
    assert e[3..18] == ExampleHead[3..];
    NoOccurrenceWithout(e, RelMarker, 3, 18);
    IndexOfFirst(e, RelMarker, 0, 18);
  }

  /** The rel value of the second example is just `noreferrer`:
      `<a target="_blank" rel="noreferrer">x</a>`. */
  const NoreferrerRest: string := "noreferrer\">x</a>"
  const NoreferrerExample: string := ExampleHead + ExampleRel + NoreferrerRest

  /** On the second example the widened window also runs past the end, but
      the `noreferrer` at the start of the rel value stops the scan first, so
      the code as written succeeds and agrees with the corrected merge:
      `<a target="_blank" rel="noopener noreferrer">x</a>`. */
  lemma NoreferrerStopsScanExample()
    ensures WindowOverrun(NoreferrerExample) && !AsWrittenThrows(NoreferrerExample)
    ensures AddProtectionAsWritten(NoreferrerExample) == AddProtection(NoreferrerExample)
    ensures AddProtection(NoreferrerExample) == Ok(ExampleHead + ExampleRel + "noopener " + NoreferrerRest)
  {
    var e := NoreferrerExample;
    NoreferrerExampleWindow();
    NoreferrerExampleTokens();
    ThrowsOnWindow(e, 18, 34);
    AsWrittenAgrees(e);
    MergeInserts(e, 18, 34);
    HeadParts(NoreferrerRest);
  }

  lemma NoreferrerExampleWindow()
    ensures |NoreferrerExample| == 41 && RelWindow(NoreferrerExample, 18, 34)
  {
    RelAtHead(NoreferrerRest);
    NoreferrerQuoteAt();
  }

  lemma NoreferrerQuoteAt()
    ensures |NoreferrerExample| == 41 && IndexOf(NoreferrerExample, "\"", 24) == 34
  {
    var e := NoreferrerExample;
    HeadParts(NoreferrerRest);
    assert e[24..34] == NoreferrerRest[..10] == "noreferrer";
    NoOccurrenceWithout(e, "\"", 24, 34);
    assert e[34] == NoreferrerRest[10] == '"';
    OccursAtChar(e, '"', 34);
    IndexOfFirst(e, "\"", 24, 34);
  }

  lemma NoreferrerExampleTokens()
    ensures |NoreferrerExample| == 41
    ensures FindToken(NoreferrerExample, "noopener", 23, 35) == -1
    ensures FindToken(NoreferrerExample, "noreferrer", 23, 35) == 24
  {
    NoreferrerExampleStart();
    var e := NoreferrerExample;
    assert !TokenAt(e, "noopener", 23) by { assert e[24..32][2] == e[26]; }
  }

  lemma NoreferrerExampleStart()
    ensures |NoreferrerExample| == 41
    ensures TokenAt(NoreferrerExample, "noreferrer", 23)
    ensures NoreferrerExample[24] == 'n' && NoreferrerExample[25] == 'o' && NoreferrerExample[26] == 'r'
  {
    var e := NoreferrerExample;
    HeadParts(NoreferrerRest);
    assert e[23] == ExampleRel[5] == '"';
    assert e[24..34] == NoreferrerRest[..10] == "noreferrer";
    assert e[34] == NoreferrerRest[10] == '"';
    assert e[24] == NoreferrerRest[0] && e[25] == NoreferrerRest[1] && e[26] == NoreferrerRest[2];
  }

  lemma ExampleQuoteAt()
    ensures |Example| == 39 && IndexOf(Example, "\"", 24) == 32
  {
    var e := Example;
    ExampleParts();
    assert e[24..32] == ExampleRest[..8] == "nofollow";
    NoOccurrenceWithout(e, "\"", 24, 32);
    assert e[32] == ExampleRest[8] == '"';
    OccursAtChar(e, '"', 32);
    IndexOfFirst(e, "\"", 24, 32);
  }
}
