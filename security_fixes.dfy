/**
 * `AppleBot::getSecurityDetails`: the reference link and the fix lines for
 * one OS release. Fetching the pages and running the regular expressions
 * are outside the model; what they produced arrives as a `DetailSource`,
 * and `strip_tags` / `html_entity_decode` arrive as an `Html` value.
 */
module SecurityFixes {
  import opened Wrappers
  import opened Text

  /** The PHP library functions applied to scraped markup. */
  datatype Html = Html(stripTags: Bytes -> Bytes, decodeEntities: Bytes -> Bytes)

  /**
   * One `preg_match_all` match in set order: index 0 is the whole match,
   * index k the k-th capture group. The release-page pattern has three
   * groups, and the repeated paragraph group keeps only its last repetition.
   */
  type Match = seq<Bytes>

  /** What fetching the index page, finding the release link and fetching the release page gave. */
  datatype DetailSource =
    | IndexUnavailable                          // the HT201222 index could not be loaded
    | NoReleaseLink                             // no anchor names both the OS and the version
    | ReleasePageUnavailable(path: Bytes)       // the linked page (site path) could not be loaded
    | ReleasePage(path: Bytes, matches: seq<Match>)

  /** The pair `[$url, $fixes]` returned by `getSecurityDetails`. */
  datatype Details = Details(url: Option<Bytes>, fixes: seq<Bytes>)

  const LINE_LIMIT: nat := 120
  const KEEP: nat := 117
  const ELLIPSIS: Bytes := Ascii("...")
  const SUPPORT_SITE: Bytes := Ascii("https://support.apple.com")
  const NO_CVE: Bytes := Ascii("Sin CVE")
  const NOT_PUBLISHED: Bytes := Ascii("Detalles a") + EncodeChar('ú') + Ascii("n no publicados.")
  const ERROR_PREFIX: Bytes := Ascii("Error: ")
  const BULLET: Bytes := EncodeChar('•') + Ascii(" ")
  const ARROW: Bytes := Ascii(" ") + EncodeChar('→') + Ascii(" ")
  const BAR: Bytes := Ascii(" | ")

  /** `$m[k] ?? ''`. */
  function Group(m: Match, k: nat): Bytes
  {
    if k < |m| then m[k] else []
  }

  /** `isset($m[4]) ? strip_tags($m[4]) : 'Sin CVE'`. */
  function Cve(m: Match, html: Html): Bytes
  {
    if 4 < |m| then html.stripTags(m[4]) else NO_CVE
  }

  /** `"• $component → $impact | $desc | $cve"` before entity decoding. */
  function RawLine(m: Match, html: Html): Bytes
  {
    BULLET + html.stripTags(Group(m, 1)) + ARROW + html.stripTags(Group(m, 2))
      + BAR + html.stripTags(Group(m, 3)) + BAR + Cve(m, html)
  }

  /** With the three-group release-page pattern, the CVE field is always the fallback text. */
  lemma ThreeGroupsGiveNoCve(m: Match, html: Html)
    requires |m| == 4
    ensures Cve(m, html) == NO_CVE
    ensures |NO_CVE| <= |RawLine(m, html)|
    ensures RawLine(m, html)[|RawLine(m, html)| - |NO_CVE|..] == NO_CVE
  {
  }

  /** Lines over 120 bytes become their first 117 bytes and "..." (byte-wise `substr`). */
  function Truncate(line: Bytes): (r: Bytes)
    ensures |r| <= LINE_LIMIT
    ensures |line| <= LINE_LIMIT ==> r == line
    ensures |line| > LINE_LIMIT ==> |r| == LINE_LIMIT && r[..KEEP] == line[..KEEP] && r[KEEP..] == ELLIPSIS
  {
    if |line| > LINE_LIMIT then line[..KEEP] + ELLIPSIS else line
  }

  lemma TruncateIdempotent(line: Bytes)
    ensures Truncate(Truncate(line)) == Truncate(line)
  {
  }

  /** The fix line for one match. */
  function FixLine(m: Match, html: Html): (r: Bytes)
    ensures |r| <= LINE_LIMIT
  {
    Truncate(html.decodeEntities(RawLine(m, html)))
  }

  /** The fix lines for the matches, one per match and in match order. */
  function FixLines(matches: seq<Match>, html: Html): (r: seq<Bytes>)
    ensures |r| == |matches|
    ensures forall i :: 0 <= i < |r| ==> r[i] == FixLine(matches[i], html) && |r[i]| <= LINE_LIMIT
  {
    if matches == [] then []
    else FixLines(matches[..|matches| - 1], html) + [FixLine(matches[|matches| - 1], html)]
  }

  const PAGE_NOT_LOADED: Bytes := Ascii("No se pudo cargar la p") + EncodeChar('á') + Ascii("gina ")
  const NO_LINK_FOUND: Bytes := Ascii("No se encontr") + EncodeChar('ó') + Ascii(" enlace de seguridad para ")

  /** The message of the exception thrown on each failure path. */
  function Failure(os: Bytes, version: Bytes, src: DetailSource): Bytes
  {
    match src
    case IndexUnavailable => PAGE_NOT_LOADED + Ascii("HT201222")
    case NoReleaseLink => NO_LINK_FOUND + os + Ascii(" ") + version
    case ReleasePageUnavailable(path) => PAGE_NOT_LOADED + Ascii("de detalles ") + SUPPORT_SITE + path
    case ReleasePage(_, _) => []
  }

  /** What `getSecurityDetails(os, version)` returns. */
  function SecurityDetails(os: Bytes, version: Bytes, src: DetailSource, html: Html): (d: Details)
    ensures d.url.None? <==> !src.ReleasePage?
    ensures |d.fixes| >= 1
    ensures !src.ReleasePage? ==> d.fixes == [ERROR_PREFIX + Failure(os, version, src)]
    ensures src.ReleasePage? ==> d.url == Some(SUPPORT_SITE + src.path)
    ensures src.ReleasePage? ==>
      forall i :: 0 <= i < |d.fixes| ==> |d.fixes[i]| <= LINE_LIMIT
    ensures src.ReleasePage? && src.matches == [] ==> d.fixes == [NOT_PUBLISHED]
  {
    match src
    case ReleasePage(path, matches) =>
      var fixes := FixLines(matches, html);
      Details(Some(SUPPORT_SITE + path), if fixes == [] then [NOT_PUBLISHED] else fixes)
    case _ => Details(None, [ERROR_PREFIX + Failure(os, version, src)])
  }

  /** The release-page loop of `getSecurityDetails`, with its fallbacks. */
  method GetSecurityDetails(os: Bytes, version: Bytes, src: DetailSource, html: Html)
    returns (url: Option<Bytes>, fixes: seq<Bytes>)
    ensures url.None? <==> !src.ReleasePage?
    ensures src.ReleasePage? && src.matches != [] ==>
      |fixes| == |src.matches| && forall i :: 0 <= i < |fixes| ==> fixes[i] == FixLine(src.matches[i], html)
    ensures Details(url, fixes) == SecurityDetails(os, version, src, html)
  {
    if !src.ReleasePage? {
      return None, [ERROR_PREFIX + Failure(os, version, src)];
    }
    url := Some(SUPPORT_SITE + src.path);
    var matches := src.matches;
    fixes := [];
    var i := 0;
    while i < |matches|
      invariant 0 <= i <= |matches|
      invariant fixes == FixLines(matches[..i], html)
    {
      var line := FixLine(matches[i], html);
      FixLinesSnoc(matches, html, i);
      fixes := fixes + [line];
      i := i + 1;
    }
    TakeAll(matches);
    if fixes == [] {
      fixes := [NOT_PUBLISHED];
    }
  }

  lemma FixLinesSnoc(matches: seq<Match>, html: Html, i: nat)
    requires i < |matches|
    ensures FixLines(matches[..i + 1], html) == FixLines(matches[..i], html) + [FixLine(matches[i], html)]
  {
    assert matches[..i + 1][..i] == matches[..i];
  }
}
