/**
 * The parts of `urllib.parse` the repository clients use: the path of a URL
 * as `urlparse` splits it, `urljoin` against the response URL, and removal
 * of the fragment.
 */
module Url {
  import opened PyLib

  /** `s.find(c)`, with `|s|` instead of -1 when `c` does not occur. */
  function FindOr(s: string, c: char): (r: nat)
    ensures r <= |s|
    ensures r < |s| ==> s[r] == c
    ensures forall j :: 0 <= j < r ==> s[j] != c
  {
    if s == [] then 0 else if s[0] == c then 0 else 1 + FindOr(s[1..], c)
  }

  /** The first index holding `?` or `#`, or `|s|`. */
  function FindQueryOrFragment(s: string): (r: nat)
    ensures r <= |s|
    ensures forall j :: 0 <= j < r ==> s[j] != '?' && s[j] != '#'
  {
    if s == [] || s[0] == '?' || s[0] == '#' then 0 else 1 + FindQueryOrFragment(s[1..])
  }

  /** The first index holding `/`, `?` or `#` (where a network location ends), or `|s|`. */
  function FindNetlocEnd(s: string): (r: nat)
    ensures r <= |s|
  {
    if s == [] || s[0] == '/' || s[0] == '?' || s[0] == '#' then 0 else 1 + FindNetlocEnd(s[1..])
  }

  predicate IsAsciiLetter(c: char) { 'a' <= c <= 'z' || 'A' <= c <= 'Z' }

  predicate IsSchemeChar(c: char) {
    IsAsciiLetter(c) || '0' <= c <= '9' || c == '+' || c == '-' || c == '.'
  }

  /**
   * The length of the `scheme:` prefix `urlsplit` recognises: the text
   * before the first `:` when it is non-empty, starts with a letter and
   * holds only scheme characters; otherwise 0.
   */
  function SchemeLength(url: string): (r: nat)
    ensures r <= |url|
  {
    var i := FindOr(url, ':');
    if 0 < i < |url| && IsAsciiLetter(url[0]) && (forall j :: 0 <= j < i ==> IsSchemeChar(url[j])) then i + 1 else 0
  }

  /** The URL after its scheme: `//netloc` followed by the path, query and fragment. */
  function AfterScheme(url: string): string {
    url[SchemeLength(url)..]
  }

  /** The length of the `//netloc` part at the start of `rest`, or 0 when there is none. */
  function NetlocLength(rest: string): (r: nat)
    ensures r <= |rest|
  {
    if StartsWith(rest, "//") then 2 + FindNetlocEnd(rest[2..]) else 0
  }

  /** `urlparse(url).path` together with its `;params`. */
  function PathAndParams(url: string): (r: string)
    ensures '?' !in r && '#' !in r
  {
    var rest := AfterScheme(url);
    var tail := rest[NetlocLength(rest)..];
    tail[..FindQueryOrFragment(tail)]
  }

  /**
   * `urlparse(url).path.split('/')[-1]`: the last `/`-separated segment of
   * the path, without the `;params` `urlparse` splits off that segment.
   */
  function LastPathSegment(url: string): (r: string)
    ensures '/' !in r && '?' !in r && '#' !in r && ';' !in r
  {
    var path := PathAndParams(url);
    var segment := path[RFind(path, '/') + 1..];
    segment[..FindOr(segment, ';')]
  }

  /** `scheme://netloc` of a URL. */
  function Origin(url: string): string {
    var rest := AfterScheme(url);
    url[..SchemeLength(url)] + rest[..NetlocLength(rest)]
  }

  /** The base URL up to and including the last `/` of its path. */
  function Directory(url: string): string {
    var path := PathAndParams(url);
    var cut := RFind(path, '/') + 1;
    if cut == 0 then Origin(url) + "/" else Origin(url) + path[..cut]
  }

  /**
   * `urljoin(base, url)`: an absolute reference replaces the base; a
   * network-path, absolute-path, query-only or fragment-only reference keeps
   * the matching part of the base; any other reference is resolved against
   * the base's directory.
   */
  function UrlJoin(base: string, url: string): string {
    if base == [] then url
    else if url == [] then base
    else if SchemeLength(url) > 0 then url
    else if StartsWith(url, "//") then base[..SchemeLength(base)] + url
    else if StartsWith(url, "/") then Origin(base) + url
    else if StartsWith(url, "?") then base[..FindQueryOrFragment(base)] + url
    else if StartsWith(url, "#") then base[..FindOr(base, '#')] + url
    else Directory(base) + url
  }

  /** `urlparse(url)._replace(fragment='').geturl()`: the URL up to its first `#`. */
  function DropFragment(url: string): (r: string)
    ensures '#' !in r
    ensures StartsWith(url, r)
    ensures '#' !in url ==> r == url
  {
    url[..FindOr(url, '#')]
  }
}
