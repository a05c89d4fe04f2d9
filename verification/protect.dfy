/** The save step `Process`: every anchor match of the original content that
    targets `_blank` and points outside the site gets `rel="noopener
    noreferrer"`, and the protected anchor replaces every literal occurrence
    of the original in the content. `ProcessAsWritten` is the step exactly as
    the code runs it; `Process` is the same loop over the corrected merge. */
module LinkProtector {
  import opened Results
  import opened Text
  import opened AnchorScan
  import opened Href
  import opened LinkClassifier
  import opened RelMerge
  import opened RelMergeAsWritten

  /** An anchor the loop of `Process` rewrites: non-empty, mentioning
      `_blank`, and not internal. */
  predicate NeedsProtection(aNode: string, cfg: Config) {
    aNode != "" && Contains(aNode, "_blank") && !IsInternalLink(aNode, cfg)
  }

  /** The loop of `Process` over the matches, in order. The matches come from
      the original content; every rewrite applies to the content as rewritten
      so far. `Distinct()` compares the match objects by reference, so a
      repeated anchor text is visited once per occurrence. */
  function ProtectAll(content: string, anchors: seq<string>, cfg: Config): (r: Result<string>)
    decreases |anchors|
  {
    if anchors == [] then Ok(content)
    else
      var aNode := anchors[0];
      if !NeedsProtection(aNode, cfg) then ProtectAll(content, anchors[1..], cfg)
      else
        var protectedLink :- AddProtection(aNode);
        ProtectAll(ReplaceAll(content, aNode, protectedLink), anchors[1..], cfg)
  }

  /** `Process` with the corrected merge: nothing to do for empty content or
      with the setting off; otherwise every anchor match is visited. */
  function Process(content: string, cfg: Config): (r: Result<string>)
  {
    if content == "" || !cfg.protectExternalLinks then Ok(content)
    else ProtectAll(content, Anchors(content), cfg)
  }

  /** The loop of `Process` as the code runs it, with the merge as written. */
  function ProtectAllAsWritten(content: string, anchors: seq<string>, cfg: Config): (r: Result<string>)
    decreases |anchors|
  {
    if anchors == [] then Ok(content)
    else
      var aNode := anchors[0];
      if !NeedsProtection(aNode, cfg) then ProtectAllAsWritten(content, anchors[1..], cfg)
      else
        var protectedLink :- AddProtectionAsWritten(aNode);
        ProtectAllAsWritten(ReplaceAll(content, aNode, protectedLink), anchors[1..], cfg)
  }

  /** `Process` exactly as the code runs it. */
  function ProcessAsWritten(content: string, cfg: Config): (r: Result<string>)
  {
    if content == "" || !cfg.protectExternalLinks then Ok(content)
    else ProtectAllAsWritten(content, Anchors(content), cfg)
  }

  /** The two loops agree when no anchor they rewrite makes the merge as
      written throw. */
  lemma {:induction false} ProtectAllAsWrittenAgrees(content: string, anchors: seq<string>, cfg: Config)
    requires forall a | a in anchors :: NeedsProtection(a, cfg) ==> !AsWrittenThrows(a)
    ensures ProtectAllAsWritten(content, anchors, cfg) == ProtectAll(content, anchors, cfg)
    decreases |anchors|
  {
    if anchors != [] {
      var aNode := anchors[0];
      assert aNode in anchors;
      assert forall a | a in anchors[1..] :: a in anchors;
      if !NeedsProtection(aNode, cfg) {
        ProtectAllAsWrittenAgrees(content, anchors[1..], cfg);
      } else {
        AsWrittenAgrees(aNode);
        if AddProtection(aNode).Ok? {
          ProtectAllAsWrittenAgrees(ReplaceAll(content, aNode, AddProtection(aNode).value), anchors[1..], cfg);
        }
      }
    }
  }

  /** The loop as written fails exactly when the merge as written fails on one
      of the anchors it rewrites. */
  lemma {:induction false} ProtectAllAsWrittenFails(content: string, anchors: seq<string>, cfg: Config)
    ensures ProtectAllAsWritten(content, anchors, cfg).Err? <==>
      exists a | a in anchors :: NeedsProtection(a, cfg) && AddProtectionAsWritten(a).Err?
    decreases |anchors|
  {
    if anchors != [] {
      var aNode := anchors[0];
      assert aNode in anchors;
      assert forall a | a in anchors[1..] :: a in anchors;
      assert forall a | a in anchors :: a == aNode || a in anchors[1..];
      if !NeedsProtection(aNode, cfg) {
        ProtectAllAsWrittenFails(content, anchors[1..], cfg);
      } else if AddProtectionAsWritten(aNode).Ok? {
        ProtectAllAsWrittenFails(ReplaceAll(content, aNode, AddProtectionAsWritten(aNode).value), anchors[1..], cfg);
      }
    }
  }

  /** The save step as written gives the same result as the corrected one
      unless some external `_blank` anchor makes the merge as written throw. */
  lemma ProcessAsWrittenAgrees(content: string, cfg: Config)
    requires forall a | a in Anchors(content) :: NeedsProtection(a, cfg) ==> !AsWrittenThrows(a)
    ensures ProcessAsWritten(content, cfg) == Process(content, cfg)
  {
    if content != "" && cfg.protectExternalLinks {
      ProtectAllAsWrittenAgrees(content, Anchors(content), cfg);
    }
  }

  /** The save step as written throws exactly when the setting is on and some
      external `_blank` anchor has an unclosed rel value or makes the widened
      `noreferrer` search throw. */
  lemma ProcessAsWrittenFails(content: string, cfg: Config)
    ensures ProcessAsWritten(content, cfg).Err? <==>
      && content != "" && cfg.protectExternalLinks
      && exists a | a in Anchors(content) :: NeedsProtection(a, cfg) && (RelUnclosed(a) || AsWrittenThrows(a))
  {
    if content != "" && cfg.protectExternalLinks {
      var anchors := Anchors(content);
      ProtectAllAsWrittenFails(content, anchors, cfg);
      AnchorsAreAnchorText(content);
      forall a | a in anchors
        ensures AddProtectionAsWritten(a).Err? <==> RelUnclosed(a) || AsWrittenThrows(a)
      {
        AsWrittenFails(a);
      }
    }
  }

  /** An anchor the loop would rewrite, but whose rewrite throws. */
  predicate Unprotectable(aNode: string, cfg: Config) {
    NeedsProtection(aNode, cfg) && AddProtection(aNode).Err?
  }

  /** The loop fails exactly when one of the anchors it would rewrite cannot
      be protected. */
  lemma {:induction false} ProtectAllFails(content: string, anchors: seq<string>, cfg: Config)
    ensures ProtectAll(content, anchors, cfg).Err? <==> exists a | a in anchors :: Unprotectable(a, cfg)
    decreases |anchors|
  {
    if anchors != [] {
      var aNode := anchors[0];
      assert aNode in anchors;
      assert forall a | a in anchors[1..] :: a in anchors;
      assert forall a | a in anchors :: a == aNode || a in anchors[1..];
      if !NeedsProtection(aNode, cfg) {
        ProtectAllFails(content, anchors[1..], cfg);
      } else if AddProtection(aNode).Ok? {
        ProtectAllFails(ReplaceAll(content, aNode, AddProtection(aNode).value), anchors[1..], cfg);
      }
    }
  }

  /** Content whose anchors are all either skipped or already protected comes
      back unchanged. */
  lemma {:induction false} ProtectAllKeeps(content: string, anchors: seq<string>, cfg: Config)
    requires forall a | a in anchors :: NeedsProtection(a, cfg) ==> AddProtection(a) == Ok(a)
    ensures ProtectAll(content, anchors, cfg) == Ok(content)
    decreases |anchors|
  {
    if anchors != [] {
      var aNode := anchors[0];
      assert aNode in anchors;
      assert forall a | a in anchors[1..] :: a in anchors;
      if NeedsProtection(aNode, cfg) {
        ReplaceAllSelf(content, aNode);
      }
      ProtectAllKeeps(content, anchors[1..], cfg);
    }
  }

  /** With empty content or the setting off, the content is returned as is. */
  lemma ProcessDisabled(content: string, cfg: Config)
    requires content == "" || !cfg.protectExternalLinks
    ensures Process(content, cfg) == Ok(content)
  {
  }

  /** Anchors without `_blank` and internal anchors leave the content alone. */
  lemma ProcessSkipsSafeAnchors(content: string, cfg: Config)
    requires forall a | a in Anchors(content) :: !Contains(a, "_blank") || IsInternalLink(a, cfg)
    ensures Process(content, cfg) == Ok(content)
  {
    ProtectAllKeeps(content, Anchors(content), cfg);
  }

  /** Content without `<a` has no anchor to protect. */
  lemma ProcessWithoutTag(content: string, cfg: Config)
    requires !Contains(content, "<a")
    ensures Process(content, cfg) == Ok(content)
  {
    NoTagNoAnchors(content);
  }

  /** Protecting content a second time changes nothing when every anchor the
      loop rewrites is already protected. */
  lemma ProcessKeepsProtected(content: string, cfg: Config)
    requires forall a | a in Anchors(content) :: NeedsProtection(a, cfg) ==> AddProtection(a) == Ok(a)
    ensures Process(content, cfg) == Ok(content)
  {
    ProtectAllKeeps(content, Anchors(content), cfg);
  }

  /** The corrected step throws exactly when the setting is on and some
      external `_blank` anchor has a ` rel=` whose value is never closed by a
      `"`. */
  lemma ProcessFails(content: string, cfg: Config)
    ensures Process(content, cfg).Err? <==>
      && content != "" && cfg.protectExternalLinks
      && exists a | a in Anchors(content) :: NeedsProtection(a, cfg) && RelUnclosed(a)
  {
    if content != "" && cfg.protectExternalLinks {
      var anchors := Anchors(content);
      ProtectAllFails(content, anchors, cfg);
      AnchorsAreAnchorText(content);
      forall a | a in anchors
        ensures Unprotectable(a, cfg) <==> NeedsProtection(a, cfg) && RelUnclosed(a)
      {
        AddProtectionFails(a);
      }
    }
  }

  /** One external `_blank` anchor without ` rel=`, visited first: every
      occurrence of it is replaced by the anchor with the attribute inserted at
      index 2, 26 characters longer each. */
  lemma ProtectNoRelAnchor(content: string, aNode: string, rest: seq<string>, cfg: Config)
    requires NeedsProtection(aNode, cfg) && IndexOf(aNode, RelMarker, 0) < 0 && |aNode| >= 2
    ensures var protectedLink := aNode[..2] + ProtectionAttribute + aNode[2..];
      var replaced := ReplaceAll(content, aNode, protectedLink);
      && ProtectAll(content, [aNode] + rest, cfg) == ProtectAll(replaced, rest, cfg)
      && |replaced| == |content| + 26 * CountOccurrences(content, aNode)
      && (Contains(content, aNode) ==> Contains(replaced, protectedLink))
  {
    var protectedLink := aNode[..2] + ProtectionAttribute + aNode[2..];
    AddProtectionNoRel(aNode);
    assert ([aNode] + rest)[1..] == rest;
    ReplaceAllLength(content, aNode, protectedLink);
    if Contains(content, aNode) {
      ReplaceAllInserts(content, aNode, protectedLink);
    }
  }

  /** A configuration with the setting on, no media prefixes, the usual item
      link prefix and no server URL. */
  const ExampleConfig: Config := Config(true, [], "~/link.aspx?", "")

  /** Saving content that is just the anchor `<a target="_blank"
      rel="nofollow">x</a>`: the step as written throws, while the corrected
      step protects the anchor. */
  lemma ProcessOverrunExample()
    ensures ProcessAsWritten(Example, ExampleConfig) == Err(ScanPastEnd)
    ensures Process(Example, ExampleConfig) == Ok(ExampleHead + ExampleRel + "noopener noreferrer " + ExampleRest)
  {
    ExampleAnchors();
    ExampleLoops();
  }

  /** Both loops over the single example anchor. */
  lemma ExampleLoops()
    ensures ProtectAllAsWritten(Example, [Example], ExampleConfig) == Err(ScanPastEnd)
    ensures ProtectAll(Example, [Example], ExampleConfig) == Ok(ExampleHead + ExampleRel + "noopener noreferrer " + ExampleRest)
  {
    var protectedLink := ExampleHead + ExampleRel + "noopener noreferrer " + ExampleRest;
    ExampleNeedsProtection();
    OverrunExample();
    ReplaceAllWhole(Example, protectedLink);
    assert [Example][1..] == [];
  }

  /** The example is the only anchor match of itself. */
  lemma ExampleAnchors()
    ensures Anchors(Example) == [Example]
  {
    ExampleMatch();
    assert Scan(Example, 0) == [Span(0, 39)] by {
      assert Scan(Example, 39) == [];
    }
    assert Example[0..39] == Example;
  }

  /** The anchor pattern matches the whole example at index 0. */
  lemma ExampleMatch()
    ensures |Example| == 39 && AnchorAt(Example, 0) == Some(39)
  {
    var e := Example;
    ExampleParts();
    assert OccursAt(e, "<a", 0) by { assert e[0..2] == ExampleHead[0..2] == "<a"; }
    assert e[2] == ExampleHead[2] == ' ';
    ExampleCloseAngle();
    assert OccursAt(e, "</a>", 35) by { assert e[35..39] == ExampleRest[11..15] == "</a>"; }
    IndexOfFirst(e, "</a>", 35, 35);
    assert e[34..35] == ExampleRest[10..11] == "x";
  }

  /** The example's opening tag closes at index 33. */
  lemma ExampleCloseAngle()
    ensures IndexOf(Example, ">", 3) == 33
  {
    var e := Example;
    ExampleParts();
    assert e[33] == ExampleRest[9] == '>';
    var value := ExampleRest[..9];
    assert value == "nofollow\"";
    assert '>' !in ExampleHead && '>' !in ExampleRel && '>' !in value;
    forall j | 2 <= j < 33
      ensures e[j] != '>'
    {
      if j < 18 {
        assert e[j] == ExampleHead[j];
      } else if j < 24 {
        assert e[j] == ExampleRel[j - 18];
      } else {
        assert e[j] == value[j - 24];
      }
    }
    FirstCloseAngle(e, 0, 33);
  }

  /** The example targets `_blank`, and with no `href` and no server URL it is
      external. */
  lemma ExampleNeedsProtection()
    ensures NeedsProtection(Example, ExampleConfig)
  {
    var e := Example;
    ExampleParts();
    assert OccursAt(e, "_blank", 11) by { assert e[11..17] == ExampleHead[11..17] == "_blank"; }
    assert 'h' !in e by {
      assert 'h' !in ExampleHead && 'h' !in ExampleRel && 'h' !in ExampleRest;
    }
    NoOccurrenceWithout(e, "href", 0, |e|);
    assert GetHref(e) == "" by {
      forall p | 0 <= p < |e|
        ensures HrefAt(e, p).None?
      {
        assert !OccursAt(e, "href", p);
      }
    }
  }

  /** The tag the obsolete `GetProtectedHtml` writes (no leading space). */
  const ProtectionTag: string := "rel=\"noopener noreferrer\""

  /** The obsolete `GetProtectedHtml`: `Substring(start, length)` throws
      outside the content; a window that already holds the tag leaves the
      content alone; otherwise the result is `content[..start + 1]`, the tag,
      and `content[start..]` (and `Substring(0, start + 1)` throws when `start`
      is the end of the content). */
  function GetProtectedHtml(content: string, start: int, length: int): (r: Result<string>)
  {
    if start < 0 || length < 0 || start + length > |content| then Err(SubstringOutOfRange)
    else if Contains(content[start..start + length], ProtectionTag) then Ok(content)
    else if start + 1 > |content| then Err(SubstringOutOfRange)
    else Ok(content[..start + 1] + ProtectionTag + content[start..])
  }

  /** The call throws exactly when the window is outside the content or starts
      at its very end, and returns the content unchanged exactly when the
      window already holds the tag. */
  lemma ProtectedHtmlOutcome(content: string, start: int, length: int)
    ensures var inRange := 0 <= start && 0 <= length && start + length <= |content|;
      && (GetProtectedHtml(content, start, length).Err? <==> !inRange || start == |content|)
      && (GetProtectedHtml(content, start, length) == Ok(content) <==>
            inRange && Contains(content[start..start + length], ProtectionTag))
  {
    if 0 <= start && 0 <= length && start + length <= |content| && start == |content| {
      assert content[start..start + length] == [];
    }
  }

  /** Otherwise the character at `start` ends up on both sides of the tag
      (with `start` at the space after `<a`, the tag is set off by a space on
      either side); removing the tag and one copy of that character gives the
      content back. */
  lemma ProtectedHtmlWrapsTag(content: string, start: nat, length: nat)
    requires start + length <= |content| && start < |content|
    requires !Contains(content[start..start + length], ProtectionTag)
    ensures var r := GetProtectedHtml(content, start, length).value;
      && |r| == |content| + |ProtectionTag| + 1
      && r[start + 1..start + 1 + |ProtectionTag|] == ProtectionTag
      && r[start] == content[start] && r[start + 1 + |ProtectionTag|] == content[start]
      && r[..start + 1] + r[start + 2 + |ProtectionTag|..] == content
  {
    var r := content[..start + 1] + ProtectionTag + content[start..];
    assert r[..start + 1] == content[..start + 1];
    assert r[start + 2 + |ProtectionTag|..] == content[start + 1..];
    assert content[..start + 1] + content[start + 1..] == content;
  }

  /** With `start` at the space after `<a`: `<a href="x">y</a>` becomes
      `<a rel="noopener noreferrer" href="x">y</a>`. */
  lemma ProtectedHtmlExample()
    ensures GetProtectedHtml("<a" + HtmlRest, 2, 1) == Ok("<a " + ProtectionTag + HtmlRest)
  {
    var c := "<a" + HtmlRest;
    assert |HtmlRest| == 15 && HtmlRest[0] == ' ';
    assert c[..2] == "<a" && c[2..] == HtmlRest;
    assert c[2] == HtmlRest[0];
    assert c[2..3] == [c[2]] == " ";
    assert c[..3] == c[..2] + [c[2]];
    assert !Contains(c[2..3], ProtectionTag);
    assert GetProtectedHtml(c, 2, 1) == Ok(c[..3] + ProtectionTag + c[2..]);
    assert c[..3] + ProtectionTag + c[2..] == "<a " + ProtectionTag + HtmlRest;
  }

  /** The rest of the example anchor after `<a`. */
  const HtmlRest: string := " href=\"x\">y</a>"
}
