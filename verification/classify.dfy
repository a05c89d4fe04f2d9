/** Internal-link classification (`IsInternalLink`). */
module LinkClassifier {
  import opened Text
  import opened Href

  /** What the save step reads from its environment: the
      `ProtectExternalLinksWithBlankTarget` setting, the media-library URL
      prefixes, `Constants.LinkPrefix` (the marker of internal item links) and
      the current server URL. */
  datatype Config = Config(
    protectExternalLinks: bool,
    mediaPrefixes: seq<string>,
    linkPrefix: string,
    serverUrl: string)

  /** The prefix rules: an href under a media prefix, the link prefix, or
      starting with `/`, `~` or `-` points into the site. */
  predicate HasInternalPrefix(href: string, cfg: Config) {
    || (exists m | m in cfg.mediaPrefixes :: StartsWith(href, m))
    || StartsWith(href, cfg.linkPrefix)
    || StartsWith(href, "/")
    || StartsWith(href, "~")
    || StartsWith(href, "-")
  }

  /** The fallback rule: the anchor text mentions the site's own URL. */
  predicate MentionsServer(html: string, cfg: Config) {
    |cfg.serverUrl| > 0 && Contains(html, cfg.serverUrl)
  }

  /** `IsInternalLink(html)`: the prefix rules on the extracted href, then the
      server-URL rule on the whole anchor text. */
  predicate IsInternalLink(html: string, cfg: Config) {
    HasInternalPrefix(GetHref(html), cfg) || MentionsServer(html, cfg)
  }

  /** An anchor whose first `href` value starts with a media prefix, the link
      prefix, `/`, `~` or `-` is internal. */
  lemma InternalByHrefPrefix(html: string, cfg: Config, p: nat, i: nat, j: nat, k: nat)
    requires HrefShape(html, p, i, j, k)
    requires forall p': nat, i': nat, j': nat, k': nat | p' < p :: !HrefShape(html, p', i', j', k')
    requires HasInternalPrefix(html[j + 1..k], cfg)
    ensures IsInternalLink(html, cfg)
  {
    GetHrefComplete(html, p, i, j, k);
  }

  /** When the first `href` value matches no prefix rule, the anchor is internal
      exactly when the server URL is non-empty and occurs in the anchor text. */
  lemma ServerUrlDecides(html: string, cfg: Config, p: nat, i: nat, j: nat, k: nat)
    requires HrefShape(html, p, i, j, k)
    requires forall p': nat, i': nat, j': nat, k': nat | p' < p :: !HrefShape(html, p', i', j', k')
    requires !HasInternalPrefix(html[j + 1..k], cfg)
    ensures IsInternalLink(html, cfg) <==> |cfg.serverUrl| > 0 && Contains(html, cfg.serverUrl)
  {
    GetHrefComplete(html, p, i, j, k);
  }

  /** An anchor with no parsable `href` falls back to external unless it
      mentions the server URL, provided no configured prefix is empty (an empty
      prefix matches every href, the empty one included). */
  lemma UnparsableHrefDecidedByServerUrl(html: string, cfg: Config)
    requires forall p: nat, i: nat, j: nat, k: nat :: !HrefShape(html, p, i, j, k)
    requires forall m | m in cfg.mediaPrefixes :: m != ""
    requires cfg.linkPrefix != ""
    ensures IsInternalLink(html, cfg) <==> |cfg.serverUrl| > 0 && Contains(html, cfg.serverUrl)
  {
    GetHrefEmpty(html);
    assert GetHref(html) == "";
  }

  /** With an empty server URL only the prefix rules can make a link internal. */
  lemma EmptyServerUrlOnlyPrefixes(html: string, cfg: Config)
    requires cfg.serverUrl == ""
    ensures IsInternalLink(html, cfg) <==> HasInternalPrefix(GetHref(html), cfg)
  {
  }

  /** `<a href="/İ" target="_blank">x</a>`, whose href value holds the capital
      dotted `İ` of the ECMAScript word class. */
  const DottedAnchor := "<a " + "href=\"/\U{130}\"" + " target=\"_blank\">x</a>"

  /** `DottedAnchor` is internal under any configuration: its href `/İ` is
      captured whole and starts with `/`. */
  lemma DottedCapitalIInternal(cfg: Config)
    ensures IsInternalLink(DottedAnchor, cfg)
  {
    DottedAnchorShape();
    DottedAnchorNoEarlier();
    InternalByHrefPrefix(DottedAnchor, cfg, 3, 7, 8, 11);
  }

  /** The href pattern matches `DottedAnchor` at 3 and captures `/İ`. */
  lemma DottedAnchorShape()
    ensures HrefShape(DottedAnchor, 3, 7, 8, 11)
    ensures DottedAnchor[9..11] == "/\U{130}"
  {
    var h := "href=\"/\U{130}\"";
    assert DottedAnchor[3..12] == h;
    assert DottedAnchor[3..7] == "href";
  }

  /** No match of the href pattern starts before index 3 of `DottedAnchor`. */
  lemma DottedAnchorNoEarlier()
    ensures forall p: nat, i: nat, j: nat, k: nat | p < 3 :: !HrefShape(DottedAnchor, p, i, j, k)
  {
    assert DottedAnchor[..3] == "<a ";
    forall p: nat, i: nat, j: nat, k: nat | p < 3
      ensures !HrefShape(DottedAnchor, p, i, j, k)
    {
      assert DottedAnchor[p] != 'h';
    }
  }
}
