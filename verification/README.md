# Protecting external `_blank` links in rich-text content

This project models the `ProtectExternalLink` step of the rich-text editor's save pipeline. The step runs when rich-text content is saved, and it finds every anchor tag that:

- contains `_blank` anywhere in its matched text, normally as `target="_blank"` (an href such as `http://x/_blank` also qualifies),
- and points outside the site.

To each such anchor it adds `rel="noopener noreferrer"`:

- an anchor without a ` rel=` attribute gets the whole attribute after the first two characters of the match, which is right after `<a` unless the match starts with `i` (see below);
- an anchor with a rel value gets only the tokens that value lacks.

Each anchor that was rewritten then replaces every literal occurrence of its original text in the content.

Modules, in dependency order:

- `Results`: `Option`, `Result` and the `Failure` kinds. A failure stands for an exception the .NET code would throw, such as `ArgumentOutOfRangeException` from `IndexOf`, `Regex.Match`, `Insert` or `Substring`, or the `IndexOutOfRangeException` of a regex scan that runs past the end of its input.
- `Text`: ordinal `IndexOf`, `Contains`, `StartsWith`, `Insert` and `Replace`, with lemmas about insertion and replacement.
- `Href`: `GetHref`, a recogniser for the pattern `href[ ]*=[ ]*["']([\w:/.~\-?&=;]+)["]`, which returns the first match. In ECMAScript mode, .NET's `\w` is `[A-Za-z0-9_]` plus U+0130 (`İ`).
- `LinkClassifier`: `IsInternalLink`, which applies the href prefix rules first and then the server-URL rule.
- `AnchorScan`: `GetATagMatchCollection`, the leftmost non-overlapping matches of `(i?)<a([^>]+)>(.+?)</a>`.
- `RelMerge`: `GetValuePosition` and the rewrite of one anchor (`AddProtection`), with the rel-window search done as evidently intended (see Findings).
- `RelMergeAsWritten`: the rewrite of one anchor as the code does it, with `Regex.Match` behaving as in the .NET Framework, and how it differs from `AddProtection`.
- `LinkProtector`: the loop over the matches, both as written (`ProcessAsWritten`) and over the corrected rewrite (`Process`), and the obsolete `GetProtectedHtml`.

Several values come from the environment, and the model takes all of them as fields of `LinkClassifier.Config`:

- the `ProtectExternalLinksWithBlankTarget` setting;
- the media-library URL prefixes (`GetMediaPrefixes`);
- `Constants.LinkPrefix`;
- the server URL (`WebUtil.GetServerUrl(false)`).

`ProcessAsWritten` returns the new content, or the failure where the code would throw. `Process` is the same step with the rel-window search of Findings corrected; `LinkProtector.ProcessAsWrittenAgrees` says the two agree on all content where no rewritten anchor hits that defect.

Four behaviours of the code are worth knowing:

- **Matching is case-sensitive.** In the code, both patterns are built with `RegexOptions.ECMAScript` only and have no `IgnoreCase`. The `(i?)` at the head of the anchor pattern is a literal optional `i`, not an inline flag. So `<A HREF=...>` is not matched. The model follows the code.
- **A ` rel=` with no `"` anywhere after it makes the step throw.** Take an external `_blank` anchor with a ` rel=` and no `"` from the second character after the `=` to the end of the anchor. An unquoted value followed by another quoted attribute, as in `<a rel=n target="_blank">z</a>`, does not throw: the search finds that attribute's quote. `IndexOf` then returns -1, the search window gets a negative length, and `Regex.Match` throws. `LinkProtector.ProcessFails` says this is the only way the corrected step throws. `LinkProtector.ProcessAsWrittenFails` says the step as written throws on exactly these anchors and on the ones of Findings.
- **`Regex.Match(input, beginning, length)` checks only its two arguments.** In the .NET Framework it throws when `beginning` or `length` is outside `0..input.Length`. When `beginning + length` runs past the end, the scan reads past the end and throws `IndexOutOfRangeException`, unless it finds a match first. `RelMerge.GetValuePosition` models this.
- **A match that starts with `i` gets a broken tag.** The anchor pattern begins with a literal optional `i`, so in `Wiki<a …>` the match is `i<a …>`. The attribute goes after its first two characters, between `<` and `a`, giving `i< rel="noopener noreferrer"a …`. `RelMerge.LeadingISplitsTag` states this; the model follows the code.

## Model

| member | source | states |
|---|---|---|
| Text.IndexOf | src/Sitecore.Support.223855/Shell/Controls/RichTextEditor/Pipelines/SaveRichTextContent/ProtectExternalLink.cs:66 | the result is -1 exactly when the pattern does not occur at or after the start; otherwise it is the first occurrence there |
| Text.ContainsIndexOf | src/Sitecore.Support.223855/Shell/Controls/RichTextEditor/Pipelines/SaveRichTextContent/ProtectExternalLink.cs:55-57 | text contains a pattern exactly when searching from 0 finds it |
| Text.IndexOfFirst | src/Sitecore.Support.223855/Shell/Controls/RichTextEditor/Pipelines/SaveRichTextContent/ProtectExternalLink.cs:66 | an occurrence with none before it (from the start index) is what the search returns |
| Text.InsertParts | src/Sitecore.Support.223855/Shell/Controls/RichTextEditor/Pipelines/SaveRichTextContent/ProtectExternalLink.cs:59 | inserting at `i` keeps the text before `i`, puts the inserted text there, and shifts the rest unchanged |
| Text.InsertInsert | src/Sitecore.Support.223855/Shell/Controls/RichTextEditor/Pipelines/SaveRichTextContent/ProtectExternalLink.cs:72-81 | a second insertion inside text just inserted is the same as one insertion of the combined text |
| Text.IndexOfCharAfterInsert | src/Sitecore.Support.223855/Shell/Controls/RichTextEditor/Pipelines/SaveRichTextContent/ProtectExternalLink.cs:66 | after an insertion that lacks the quote, the closing quote of the rel value is found shifted by the inserted length |
| Text.CountOccurrences | src/Sitecore.Support.223855/Shell/Controls/RichTextEditor/Pipelines/SaveRichTextContent/ProtectExternalLink.cs:60 | `Replace` has something to replace exactly when the text contains the pattern |
| Text.ReplaceAllAbsent | src/Sitecore.Support.223855/Shell/Controls/RichTextEditor/Pipelines/SaveRichTextContent/ProtectExternalLink.cs:84 | content that does not contain the anchor text is not changed by the replacement |
| Text.ReplaceAllSelf | src/Sitecore.Support.223855/Shell/Controls/RichTextEditor/Pipelines/SaveRichTextContent/ProtectExternalLink.cs:84 | replacing an anchor by an identical protected anchor leaves the content unchanged |
| Text.ReplaceAllWhole | src/Sitecore.Support.223855/Shell/Controls/RichTextEditor/Pipelines/SaveRichTextContent/ProtectExternalLink.cs:84 | content that is exactly the anchor text becomes the protected anchor |
| Text.ReplaceAllInserts | src/Sitecore.Support.223855/Shell/Controls/RichTextEditor/Pipelines/SaveRichTextContent/ProtectExternalLink.cs:60 | content that contains the anchor contains the protected anchor after the replacement |
| Text.ReplaceAllLength | src/Sitecore.Support.223855/Shell/Controls/RichTextEditor/Pipelines/SaveRichTextContent/ProtectExternalLink.cs:60 | each of the non-overlapping occurrences that get replaced changes the length by the difference in lengths |
| Href.SkipSpaces | src/Sitecore.Support.223855/Shell/Controls/RichTextEditor/Pipelines/SaveRichTextContent/ProtectExternalLink.cs:17 | `[ ]*` consumes exactly the run of spaces and stops at the first non-space |
| Href.SkipHrefChars | src/Sitecore.Support.223855/Shell/Controls/RichTextEditor/Pipelines/SaveRichTextContent/ProtectExternalLink.cs:17 | the value class consumes exactly the run of value characters |
| Href.HrefAt | src/Sitecore.Support.223855/Shell/Controls/RichTextEditor/Pipelines/SaveRichTextContent/ProtectExternalLink.cs:17 | a captured value is non-empty and made only of value characters |
| Href.HrefAtSound | src/Sitecore.Support.223855/Shell/Controls/RichTextEditor/Pipelines/SaveRichTextContent/ProtectExternalLink.cs:17 | every value the recogniser reports comes from text in the language of the href pattern |
| Href.HrefAtComplete | src/Sitecore.Support.223855/Shell/Controls/RichTextEditor/Pipelines/SaveRichTextContent/ProtectExternalLink.cs:17 | every text in the language of the href pattern is recognised, and its group 1 is captured |
| Href.FirstHref | src/Sitecore.Support.223855/Shell/Controls/RichTextEditor/Pipelines/SaveRichTextContent/ProtectExternalLink.cs:149 | `Regex.Match` finds the leftmost start index where the pattern matches, or none |
| Href.GetHref | src/Sitecore.Support.223855/Shell/Controls/RichTextEditor/Pipelines/SaveRichTextContent/ProtectExternalLink.cs:145-157 | the href is empty exactly when the pattern matches nowhere; otherwise it is made of value characters |
| Href.GetHrefSound | src/Sitecore.Support.223855/Shell/Controls/RichTextEditor/Pipelines/SaveRichTextContent/ProtectExternalLink.cs:149-153 | a non-empty href is group 1 of a match with no match starting earlier |
| Href.GetHrefComplete | src/Sitecore.Support.223855/Shell/Controls/RichTextEditor/Pipelines/SaveRichTextContent/ProtectExternalLink.cs:149-153 | the earliest match in the language of the pattern determines the href |
| Href.GetHrefEmpty | src/Sitecore.Support.223855/Shell/Controls/RichTextEditor/Pipelines/SaveRichTextContent/ProtectExternalLink.cs:151-156 | the href is the empty string exactly when no text in the anchor is in the pattern's language |
| Href.DottedCapitalIHref | src/Sitecore.Support.223855/Shell/Controls/RichTextEditor/Pipelines/SaveRichTextContent/ProtectExternalLink.cs:17 | the value class holds the capital dotted `İ` of the ECMAScript word class, so `href="/İ"` yields `/İ` |
| LinkClassifier.InternalByHrefPrefix | src/Sitecore.Support.223855/Shell/Controls/RichTextEditor/Pipelines/SaveRichTextContent/ProtectExternalLink.cs:112-121 | an anchor whose first href value starts with a media prefix, the link prefix, `/`, `~` or `-` is internal |
| LinkClassifier.ServerUrlDecides | src/Sitecore.Support.223855/Shell/Controls/RichTextEditor/Pipelines/SaveRichTextContent/ProtectExternalLink.cs:123-125 | when the first href value matches no prefix rule, the anchor is internal exactly when a non-empty server URL occurs in the anchor text |
| LinkClassifier.UnparsableHrefDecidedByServerUrl | src/Sitecore.Support.223855/Shell/Controls/RichTextEditor/Pipelines/SaveRichTextContent/ProtectExternalLink.cs:110-125 | with no parsable href and non-empty prefixes, only the server URL can make the anchor internal |
| LinkClassifier.EmptyServerUrlOnlyPrefixes | src/Sitecore.Support.223855/Shell/Controls/RichTextEditor/Pipelines/SaveRichTextContent/ProtectExternalLink.cs:123-125 | with an empty server URL, the anchor is internal exactly when its href matches a prefix rule |
| LinkClassifier.DottedCapitalIInternal | src/Sitecore.Support.223855/Shell/Controls/RichTextEditor/Pipelines/SaveRichTextContent/ProtectExternalLink.cs:112-121 | `<a href="/İ" target="_blank">x</a>` is internal under any configuration, because its href `/İ` starts with `/` |
| AnchorScan.TagAt | src/Sitecore.Support.223855/Shell/Controls/RichTextEditor/Pipelines/SaveRichTextContent/ProtectExternalLink.cs:18 | a match of `<a([^>]+)>(.+?)</a>` is at least nine characters and ends inside the text |
| AnchorScan.TagStart | src/Sitecore.Support.223855/Shell/Controls/RichTextEditor/Pipelines/SaveRichTextContent/ProtectExternalLink.cs:18 | `(i?)` skips one character exactly when the text there is `i`, and otherwise none |
| AnchorScan.AnchorAt | src/Sitecore.Support.223855/Shell/Controls/RichTextEditor/Pipelines/SaveRichTextContent/ProtectExternalLink.cs:18 | a match of the whole pattern is at least nine characters and ends inside the text |
| AnchorScan.TagAtSound | src/Sitecore.Support.223855/Shell/Controls/RichTextEditor/Pipelines/SaveRichTextContent/ProtectExternalLink.cs:18 | every match reported has the language's shape: tag up to the first `>`, line-feed-free inner text, and the first `</a>` after at least one inner character |
| AnchorScan.TagAtComplete | src/Sitecore.Support.223855/Shell/Controls/RichTextEditor/Pipelines/SaveRichTextContent/ProtectExternalLink.cs:18 | every text of that shape is reported, with the same end |
| AnchorScan.AnchorAtSound | src/Sitecore.Support.223855/Shell/Controls/RichTextEditor/Pipelines/SaveRichTextContent/ProtectExternalLink.cs:18 | every match of the whole pattern has that shape, after the optional `i` |
| AnchorScan.AnchorAtComplete | src/Sitecore.Support.223855/Shell/Controls/RichTextEditor/Pipelines/SaveRichTextContent/ProtectExternalLink.cs:18 | every text of that shape, after the optional `i`, is a match of the whole pattern |
| AnchorScan.Scan | src/Sitecore.Support.223855/Shell/Controls/RichTextEditor/Pipelines/SaveRichTextContent/ProtectExternalLink.cs:133-138 | `Matches(content, 0)` yields leftmost matches, each resuming the search at the end of the previous one |
| AnchorScan.LeftmostUnique | src/Sitecore.Support.223855/Shell/Controls/RichTextEditor/Pipelines/SaveRichTextContent/ProtectExternalLink.cs:137 | only one sequence of spans is leftmost and non-overlapping, so the scan's result is the only possible one |
| AnchorScan.LeftmostSpans | src/Sitecore.Support.223855/Shell/Controls/RichTextEditor/Pipelines/SaveRichTextContent/ProtectExternalLink.cs:137 | every span is a match inside the text, and the spans are in order without overlapping |
| AnchorScan.FirstSpanNoLater | src/Sitecore.Support.223855/Shell/Controls/RichTextEditor/Pipelines/SaveRichTextContent/ProtectExternalLink.cs:137 | whenever a match exists at some index, the first span starts at or before it |
| AnchorScan.Anchors | src/Sitecore.Support.223855/Shell/Controls/RichTextEditor/Pipelines/SaveRichTextContent/ProtectExternalLink.cs:37 | the visited anchors are the matched texts of the scan, one per span, in order |
| AnchorScan.AnchorAtText | src/Sitecore.Support.223855/Shell/Controls/RichTextEditor/Pipelines/SaveRichTextContent/ProtectExternalLink.cs:18 | a matched text begins with `<a` or `i<a` and ends with `</a>` |
| AnchorScan.AnchorsAreAnchorText | src/Sitecore.Support.223855/Shell/Controls/RichTextEditor/Pipelines/SaveRichTextContent/ProtectExternalLink.cs:46 | every anchor the loop visits begins with `<a` or `i<a`, ends with `</a>`, and has at least nine characters |
| AnchorScan.NoTagNoAnchors | src/Sitecore.Support.223855/Shell/Controls/RichTextEditor/Pipelines/SaveRichTextContent/ProtectExternalLink.cs:133-138 | content without `<a` yields no matches |
| RelMerge.FindToken | src/Sitecore.Support.223855/Shell/Controls/RichTextEditor/Pipelines/SaveRichTextContent/ProtectExternalLink.cs:93-100 | -1 exactly when no quote- or space-delimited token lies inside the window; otherwise the leftmost such token's index (the match index plus one) |
| RelMerge.GetValuePosition | src/Sitecore.Support.223855/Shell/Controls/RichTextEditor/Pipelines/SaveRichTextContent/ProtectExternalLink.cs:91-101 | throws `ArgumentOutOfRangeException` exactly when the start or the length lies outside the input; when the window runs past the end, throws exactly when no delimited token lies between the start and the end of the input; otherwise reports the leftmost delimited token in the window cut at the end, or -1 exactly when there is none |
| RelMerge.AddProtectionNoRel | src/Sitecore.Support.223855/Shell/Controls/RichTextEditor/Pipelines/SaveRichTextContent/ProtectExternalLink.cs:55-59 | an anchor without ` rel=` gets the 26-character attribute right after its first two characters, and the rest is unchanged |
| RelMerge.LeadingISplitsTag | src/Sitecore.Support.223855/Shell/Controls/RichTextEditor/Pipelines/SaveRichTextContent/ProtectExternalLink.cs:55-59 | a match `i<a…` without ` rel=` gets the attribute between `<` and `a`, so the result starts with `i< ` |
| RelMerge.MergeInserts | src/Sitecore.Support.223855/Shell/Controls/RichTextEditor/Pipelines/SaveRichTextContent/ProtectExternalLink.cs:65-82 | with a closed rel value: with both tokens there, nothing changes; without `noreferrer`, it goes after `noopener`; without `noopener`, it goes first in the value; with neither, `noopener noreferrer ` goes first |
| RelMerge.InsertMissingParts | src/Sitecore.Support.223855/Shell/Controls/RichTextEditor/Pipelines/SaveRichTextContent/ProtectExternalLink.cs:68-82 | the same four outcomes, stated as slices, for any reported positions |
| RelMerge.BothInserted | src/Sitecore.Support.223855/Shell/Controls/RichTextEditor/Pipelines/SaveRichTextContent/ProtectExternalLink.cs:72-81 | inserting `noopener ` and then ` noreferrer` after it is a single insertion of `noopener noreferrer ` |
| RelMerge.AddProtectionFails | src/Sitecore.Support.223855/Shell/Controls/RichTextEditor/Pipelines/SaveRichTextContent/ProtectExternalLink.cs:55-67 | protecting an anchor fails exactly when it has ` rel=` and no `"` closes the value |
| RelMerge.CompleteRelKept | src/Sitecore.Support.223855/Shell/Controls/RichTextEditor/Pipelines/SaveRichTextContent/ProtectExternalLink.cs:63-84 | a rel value whose window already holds both tokens is left alone |
| RelMerge.InsertedAttributeKept | src/Sitecore.Support.223855/Shell/Controls/RichTextEditor/Pipelines/SaveRichTextContent/ProtectExternalLink.cs:55-84 | an anchor that got the whole attribute is left alone by a second pass |
| RelMerge.NoreferrerAddedKept | src/Sitecore.Support.223855/Shell/Controls/RichTextEditor/Pipelines/SaveRichTextContent/ProtectExternalLink.cs:79-82 | after ` noreferrer` is added behind an existing `noopener`, a second pass leaves the anchor alone |
| RelMerge.NoopenerAddedKept | src/Sitecore.Support.223855/Shell/Controls/RichTextEditor/Pipelines/SaveRichTextContent/ProtectExternalLink.cs:70-75 | after `noopener ` is added in front of an existing `noreferrer`, a second pass leaves the anchor alone |
| RelMerge.BothAddedKept | src/Sitecore.Support.223855/Shell/Controls/RichTextEditor/Pipelines/SaveRichTextContent/ProtectExternalLink.cs:70-82 | after both tokens are added, a second pass leaves the anchor alone |
| RelMerge.MergedKept | src/Sitecore.Support.223855/Shell/Controls/RichTextEditor/Pipelines/SaveRichTextContent/ProtectExternalLink.cs:65-84 | whichever tokens the merge inserted, a second pass leaves the result alone |
| RelMerge.MergeRelIdempotent | src/Sitecore.Support.223855/Shell/Controls/RichTextEditor/Pipelines/SaveRichTextContent/ProtectExternalLink.cs:63-84 | merging into a closed rel value that opens with a quote or space succeeds, and merging again changes nothing |
| RelMerge.AddProtectionIdempotent | src/Sitecore.Support.223855/Shell/Controls/RichTextEditor/Pipelines/SaveRichTextContent/ProtectExternalLink.cs:55-84 | protecting an already protected anchor changes nothing, when the rel value, if any, opens with a quote or space |
| RelMergeAsWritten.NoClosingQuote | src/Sitecore.Support.223855/Shell/Controls/RichTextEditor/Pipelines/SaveRichTextContent/ProtectExternalLink.cs:66-67 | with an unclosed rel value, both versions throw at the `noopener` search |
| RelMergeAsWritten.NoreferrerStopsAtQuote | src/Sitecore.Support.223855/Shell/Controls/RichTextEditor/Pipelines/SaveRichTextContent/ProtectExternalLink.cs:77 | no `noreferrer` match straddles the closing quote, so the widened part of the window holds none |
| RelMergeAsWritten.FindTokenWider | src/Sitecore.Support.223855/Shell/Controls/RichTextEditor/Pipelines/SaveRichTextContent/ProtectExternalLink.cs:77 | widening the search window does not change the result when no match ends in the added part |
| RelMergeAsWritten.WindowAgrees | src/Sitecore.Support.223855/Shell/Controls/RichTextEditor/Pipelines/SaveRichTextContent/ProtectExternalLink.cs:66-84 | with a closed rel value, the code as written throws exactly where the widened `noreferrer` scan runs past the end, and the corrected merge succeeds there; otherwise the two agree |
| RelMergeAsWritten.AsWrittenAgrees | src/Sitecore.Support.223855/Shell/Controls/RichTextEditor/Pipelines/SaveRichTextContent/ProtectExternalLink.cs:70-77 | the code as written throws on an anchor lacking `noopener` whose widened window runs past the end, unless the window is short enough and a `noreferrer` in the rel value stops the scan; the corrected merge succeeds there, and on every other anchor the two agree |
| RelMergeAsWritten.AsWrittenFails | src/Sitecore.Support.223855/Shell/Controls/RichTextEditor/Pipelines/SaveRichTextContent/ProtectExternalLink.cs:55-84 | protecting an anchor as written fails exactly when its rel value is unclosed or the widened scan runs past the end |
| RelMergeAsWritten.OverrunExample | src/Sitecore.Support.223855/Shell/Controls/RichTextEditor/Pipelines/SaveRichTextContent/ProtectExternalLink.cs:73-77 | `<a target="_blank" rel="nofollow">x</a>` makes the code as written scan past the end and throw; the corrected merge gives `rel="noopener noreferrer nofollow"` |
| RelMergeAsWritten.NoreferrerStopsScanExample | src/Sitecore.Support.223855/Shell/Controls/RichTextEditor/Pipelines/SaveRichTextContent/ProtectExternalLink.cs:73-82 | `<a target="_blank" rel="noreferrer">x</a>` has a widened window past the end, yet the `noreferrer` match stops the scan, so the code as written succeeds and agrees with the corrected merge |
| LinkProtector.ProcessDisabled | src/Sitecore.Support.223855/Shell/Controls/RichTextEditor/Pipelines/SaveRichTextContent/ProtectExternalLink.cs:27-35 | empty content, or the setting off, leaves the content as it is |
| LinkProtector.ProcessWithoutTag | src/Sitecore.Support.223855/Shell/Controls/RichTextEditor/Pipelines/SaveRichTextContent/ProtectExternalLink.cs:37-51 | content without `<a` comes back unchanged |
| LinkProtector.ProcessSkipsSafeAnchors | src/Sitecore.Support.223855/Shell/Controls/RichTextEditor/Pipelines/SaveRichTextContent/ProtectExternalLink.cs:48-53 | content whose anchors all lack `_blank` or are internal comes back unchanged |
| LinkProtector.ProtectAllKeeps | src/Sitecore.Support.223855/Shell/Controls/RichTextEditor/Pipelines/SaveRichTextContent/ProtectExternalLink.cs:39-87 | the loop leaves the content alone when every anchor it would rewrite is already protected |
| LinkProtector.ProcessKeepsProtected | src/Sitecore.Support.223855/Shell/Controls/RichTextEditor/Pipelines/SaveRichTextContent/ProtectExternalLink.cs:37-87 | saving content again, when its external `_blank` anchors are already protected, changes nothing |
| LinkProtector.ProtectAllFails | src/Sitecore.Support.223855/Shell/Controls/RichTextEditor/Pipelines/SaveRichTextContent/ProtectExternalLink.cs:39-87 | the loop fails exactly when one of the anchors it would rewrite cannot be protected |
| LinkProtector.ProtectAllAsWrittenFails | src/Sitecore.Support.223855/Shell/Controls/RichTextEditor/Pipelines/SaveRichTextContent/ProtectExternalLink.cs:39-87 | the loop as written fails exactly when the rewrite as written fails on one of the anchors it would rewrite |
| LinkProtector.ProtectAllAsWrittenAgrees | src/Sitecore.Support.223855/Shell/Controls/RichTextEditor/Pipelines/SaveRichTextContent/ProtectExternalLink.cs:39-87 | when no anchor the loop rewrites hits the scan past the end, the loop as written and the corrected loop give the same result |
| LinkProtector.ProcessFails | src/Sitecore.Support.223855/Shell/Controls/RichTextEditor/Pipelines/SaveRichTextContent/ProtectExternalLink.cs:25-89 | the corrected step throws exactly when the setting is on and some external `_blank` anchor has an unclosed rel value |
| LinkProtector.ProcessAsWrittenFails | src/Sitecore.Support.223855/Shell/Controls/RichTextEditor/Pipelines/SaveRichTextContent/ProtectExternalLink.cs:25-89 | the save step as written throws exactly when the setting is on and some external `_blank` anchor has an unclosed rel value or makes the widened scan run past the end |
| LinkProtector.ProcessAsWrittenAgrees | src/Sitecore.Support.223855/Shell/Controls/RichTextEditor/Pipelines/SaveRichTextContent/ProtectExternalLink.cs:25-89 | on content where no external `_blank` anchor makes the widened scan run past the end, the step as written and the corrected step give the same result |
| LinkProtector.ProcessOverrunExample | src/Sitecore.Support.223855/Shell/Controls/RichTextEditor/Pipelines/SaveRichTextContent/ProtectExternalLink.cs:73-77 | saving the content `<a target="_blank" rel="nofollow">x</a>` with the setting on throws as written, while the corrected step protects the anchor |
| LinkProtector.ProtectNoRelAnchor | src/Sitecore.Support.223855/Shell/Controls/RichTextEditor/Pipelines/SaveRichTextContent/ProtectExternalLink.cs:55-61 | an external `_blank` anchor without rel has every occurrence replaced by its protected form. Each replacement adds 26 characters, and the protected form ends up in the content |
| LinkProtector.ProtectedHtmlOutcome | src/Sitecore.Support.223855/Shell/Controls/RichTextEditor/Pipelines/SaveRichTextContent/ProtectExternalLink.cs:168-175 | throws exactly when the window is outside the content or starts at its end; the content comes back unchanged exactly when the window already holds the tag |
| LinkProtector.ProtectedHtmlWrapsTag | src/Sitecore.Support.223855/Shell/Controls/RichTextEditor/Pipelines/SaveRichTextContent/ProtectExternalLink.cs:172-174 | the tag goes right after the character at the start index, and that character appears on both sides of it; removing the tag and one copy of the character gives the content back |
| LinkProtector.ProtectedHtmlExample | src/Sitecore.Support.223855/Shell/Controls/RichTextEditor/Pipelines/SaveRichTextContent/ProtectExternalLink.cs:172-174 | with the start index at the space after `<a`, the tag comes out set off by one space on each side |

## Left out

- Text encoding: a Dafny `string` counts Unicode scalar values, and .NET's `Length`, `IndexOf`, `Insert`, `Substring` and `Regex.Match` count UTF-16 code units. A character outside the Basic Multilingual Plane counts once in the model and twice in the code. Every length and index in the model is in scalar values, so every bound the model compares with a length holds for .NET only on text inside the Basic Multilingual Plane.
- RelMergeAsWritten.WindowOverrun: compares the widened window with the length in scalar values. In `<a target="_blank" rel="nofollow">😀😀😀</a>` (41 scalar values, 44 UTF-16 units) the window ends at 42, so the model reports an overrun that .NET does not have.
- RelMergeAsWritten.AsWrittenAgrees: its throw condition counts scalar values, so after a character outside the Basic Multilingual Plane the model can report a throw where .NET protects the anchor (the example above). It also states the behaviour of `Regex.Match` on the .NET Framework. On .NET Core, `Regex.Match` also checks `beginning + length` against the input, so every anchor satisfying `WindowOverrun` throws, including `<a target="_blank" rel="noreferrer">x</a>`.
- RelMergeAsWritten.WindowAgrees: the same scalar-value overrun test, with the same gap.
- RelMergeAsWritten.AsWrittenFails: "exactly when" is in scalar values. On text outside the Basic Multilingual Plane it can report failures .NET does not make.
- LinkProtector.ProtectAllAsWrittenFails: inherits that gap from `AsWrittenFails`.
- LinkProtector.ProcessAsWrittenFails: inherits that gap from `AsWrittenFails`.
- LinkProtector.ProtectedHtmlOutcome: its index bounds are in scalar values, not UTF-16 units.
- Culture: `IndexOf(string)` and `StartsWith(string)` compare with the current culture in .NET. The model compares ordinally, as `Contains` and `Replace` do.
- The pipeline arguments: `SaveRichTextContentArgs` is reduced to its `Content` string. `Process` returns the new content instead of assigning it.
- The environment: `Settings.ProtectExternalLinksWithBlankTarget`, `MediaManager.Config.MediaPrefixes` (`GetMediaPrefixes`), `Constants.LinkPrefix` and `WebUtil.GetServerUrl(false)` are fields of `Config`, because their sources are not part of this model.
- The regex engine: the two patterns are modelled by hand-written recognisers, each proved equal to the language of its pattern. No general regular-expression engine is modelled.
- `Distinct()` compares `Match` objects by reference, so it never removes anything. The model visits every match, repeated anchor texts included.
- `Process` and `ProcessAsWritten` as a whole: `LinkProtector.ProcessKeepsProtected` needs every rewritten anchor to be already protected. Protecting the content twice is not proved to change nothing, because a replacement can change which texts the second scan matches and whether they count as internal.
- RelMerge.GetValuePosition: a scan past the end is modelled as succeeding when a delimited token lies wholly inside the input, and as `ScanPastEnd` otherwise. The order in which the regex engine reads the characters near the end is not modelled.
- RelMerge.AddProtectionIdempotent: requires the rel value to open with a quote or a space. A value such as `rel=x"` is outside the claim, because the token pattern needs a delimiter before `noopener`.
- LinkClassifier.UnparsableHrefDecidedByServerUrl: requires non-empty prefixes, because `StartsWith("")` holds for every href.

## Findings

| source | as written | input that shows it | evidently intended | confidence | as-written member | corrected member |
|---|---|---|---|---|---|---|
| src/Sitecore.Support.223855/Shell/Controls/RichTextEditor/Pipelines/SaveRichTextContent/ProtectExternalLink.cs:73-77 | After `noopener ` is inserted into `protectedLink`, the rel window end moves 9 characters further. The `noreferrer` search still runs over the original `aNode`, so the widened window can run past the end of the anchor. The scan then reads past the end and throws `IndexOutOfRangeException` unless a `noreferrer` in the rel value stops it first. | Saving the external anchor `<a target="_blank" rel="nofollow">x</a>`: its rel value closes 6 characters before the end, so the widened window does not fit, and the value holds no `noreferrer` | the `noreferrer` search covers the same rel value as the `noopener` search, so the anchor becomes `<a target="_blank" rel="noopener noreferrer nofollow">x</a>` | not executed; high (the widened part can never hold a match, so the widening can only cause the exception) | LinkProtector.ProcessOverrunExample | LinkProtector.ProcessFails |
