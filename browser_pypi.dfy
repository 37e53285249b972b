/**
 * pypi_browser/pypi.py: reading a package's file list from a repository
 * (the HTML or JSON simple index, or the legacy JSON API), grouping files by
 * version, and the download cache that stores each file under
 * `cache/base64url(package)/base64url(filename)` and commits it atomically.
 */
module BrowserPypi {
  import opened Wrappers
  import opened PyLib
  import Utf8
  import Base64
  import opened Url
  import opened Http
  import opened Files
  import BrowserPackaging

  datatype PypiError =
    | PackageDoesNotExist(package: string)
    | HttpStatusError(status: int)          // `raise_for_status` raised
    | MalformedResponse                     // JSON decoding or a missing field raised
    | CannotFindFile(package: string, filename: string)
    | StreamFailed                          // the download stream raised part-way

  // ---------------------------------------------------------------------
  // HTMLAnchorParser
  // ---------------------------------------------------------------------

  /**
   * The anchor `handle_starttag` records for one tag: for an `a` tag, the
   * value `dict(attrs)` holds for `href`, when it is present and non-empty.
   */
  function HrefOf(tag: StartTag): Option<string> {
    var attrs := DictOf(tag.attrs);
    if tag.name == "a" && "href" in attrs && attrs["href"].Some? && attrs["href"].value != [] then
      Some(attrs["href"].value)
    else
      None
  }

  /**
   * An `a` tag yields exactly the non-empty value of its LAST `href`
   * attribute; any other tag, and an `a` tag whose last `href` is empty or
   * has no value, yields nothing.
   */
  lemma HrefLastWins(tag: StartTag, h: string)
    ensures HrefOf(tag) == Some(h) <==>
      tag.name == "a" && h != [] &&
      exists i :: 0 <= i < |tag.attrs| && tag.attrs[i] == ("href", Some(h)) && IsLastKey(tag.attrs, i)
  {
    var attrs := DictOf(tag.attrs);
    if "href" in attrs {
      DictOfLast(tag.attrs, "href");
      var i :| 0 <= i < |tag.attrs| && tag.attrs[i].0 == "href" && IsLastKey(tag.attrs, i) && attrs["href"] == tag.attrs[i].1;
      forall j | 0 <= j < |tag.attrs| && tag.attrs[j].0 == "href" && IsLastKey(tag.attrs, j)
        ensures j == i
      {
      }
    }
  }

  /** The anchors a parser collects from a sequence of start tags. */
  function AnchorsOf(tags: seq<StartTag>): set<string> {
    if tags == [] then {}
    else
      var last := tags[|tags| - 1];
      AnchorsOf(tags[..|tags| - 1]) + (if HrefOf(last).Some? then {HrefOf(last).value} else {})
  }

  /**
   * The anchors of a page are exactly the anchors of its tags: each tag's
   * anchor is collected, and every collected anchor is a non-empty anchor
   * of some tag.
   */
  lemma {:induction false} AnchorsOfTags(tags: seq<StartTag>)
    ensures IsAnchorsOf(tags, AnchorsOf(tags))
  {
    if tags != [] {
      var front, last := tags[..|tags| - 1], tags[|tags| - 1];
      AnchorsOfTags(front);
      AnchorsStep(front, last, AnchorsOf(front));
      assert front + [last] == tags;
    }
  }

  /** What `AnchorsOf` promises about `r` for `tags`. */
  ghost predicate IsAnchorsOf(tags: seq<StartTag>, r: set<string>) {
    && (forall i :: 0 <= i < |tags| && HrefOf(tags[i]).Some? ==> HrefOf(tags[i]).value in r)
    && (forall h :: h in r ==> h != [] && exists i :: 0 <= i < |tags| && HrefOf(tags[i]) == Some(h))
  }

  /** One more tag keeps the promise. */
  lemma AnchorsStep(front: seq<StartTag>, last: StartTag, rest: set<string>)
    requires IsAnchorsOf(front, rest)
    ensures IsAnchorsOf(front + [last], rest + (if HrefOf(last).Some? then {HrefOf(last).value} else {}))
  {
    var tags, r := front + [last], rest + (if HrefOf(last).Some? then {HrefOf(last).value} else {});
    forall i | 0 <= i < |tags| && HrefOf(tags[i]).Some?
      ensures HrefOf(tags[i]).value in r
    {
      if i < |front| {
        assert tags[i] == front[i];
      }
    }
    forall h | h in r
      ensures h != [] && exists i :: 0 <= i < |tags| && HrefOf(tags[i]) == Some(h)
    {
      if h in rest {
        var i :| 0 <= i < |front| && HrefOf(front[i]) == Some(h);
        assert tags[i] == front[i];
      } else {
        assert tags[|front|] == last;
      }
    }
  }

  class HtmlAnchorParser {
    var anchors: set<string>

    constructor()
      ensures anchors == {}
    {
      anchors := {};
    }

    /** `handle_starttag`: the set gains the tag's anchor, if it has one, and nothing else. */
    method HandleStartTag(tag: StartTag)
      modifies this
      ensures anchors == old(anchors) + (if HrefOf(tag).Some? then {HrefOf(tag).value} else {})
    {
      var attrs := DictOf(tag.attrs);
      if tag.name == "a" {
        if "href" in attrs && attrs["href"].Some? && attrs["href"].value != [] {
          anchors := anchors + {attrs["href"].value};
        }
      }
    }

    /** `feed`: every start tag of the page, in order. */
    method Feed(tags: seq<StartTag>)
      modifies this
      ensures anchors == old(anchors) + AnchorsOf(tags)
    {
      var i := 0;
      while i < |tags|
        invariant 0 <= i <= |tags|
        invariant anchors == old(anchors) + AnchorsOf(tags[..i])
      {
        assert tags[..i + 1][..i] == tags[..i];
        HandleStartTag(tags[i]);
        i := i + 1;
      }
      assert tags[..i] == tags;
    }
  }

  // ---------------------------------------------------------------------
  // files_for_package
  // ---------------------------------------------------------------------

  datatype Repository = SimpleRepository(pypiUrl: string) | LegacyJsonRepository(pypiUrl: string)

  datatype PyPIConfig = PyPIConfig(repo: Repository, cachePath: string)

  const SimpleJsonType := "application/vnd.pypi.simple.v1+json"

  /** The URL `files_for_package` requests. */
  function IndexUrl(repo: Repository, package: string): string {
    match repo
    case SimpleRepository(base) => base + "/" + package
    case LegacyJsonRepository(base) => base + "/pypi/" + package + "/json"
  }

  /** `clean_url`: the link resolved against the response URL, without its fragment. */
  function CleanUrl(base: string, url: string): (r: string)
    ensures '#' !in r
  {
    DropFragment(UrlJoin(base, url))
  }

  /** The (filename, URL) pairs of a JSON simple index, URLs cleaned. */
  function CleanedFiles(base: string, files: seq<FileRecord>): (r: seq<(string, string)>)
    ensures |r| == |files|
    ensures forall i :: 0 <= i < |files| ==> r[i] == (files[i].filename, CleanUrl(base, files[i].url))
  {
    if files == [] then [] else [(files[0].filename, CleanUrl(base, files[0].url))] + CleanedFiles(base, files[1..])
  }

  /** `itertools.chain.from_iterable` over the files of every release. */
  function Flatten(releases: seq<Release>): seq<FileRecord> {
    if releases == [] then [] else releases[0].files + Flatten(releases[1..])
  }

  /** Every file of every release is in the chain. */
  lemma {:induction false} FlattenHasFile(releases: seq<Release>, i: int, k: int)
    requires 0 <= i < |releases| && 0 <= k < |releases[i].files|
    ensures releases[i].files[k] in Flatten(releases)
  {
    assert Flatten(releases) == releases[0].files + Flatten(releases[1..]);
    if i > 0 {
      FlattenHasFile(releases[1..], i - 1, k);
    }
  }

  /** Every file in the chain is a file of one of the releases. */
  lemma {:induction false} FlattenFileFrom(releases: seq<Release>, k: int)
    requires 0 <= k < |Flatten(releases)|
    ensures exists i, k' :: 0 <= i < |releases| && 0 <= k' < |releases[i].files| && releases[i].files[k'] == Flatten(releases)[k]
  {
    var head := releases[0].files;
    assert Flatten(releases) == head + Flatten(releases[1..]);
    if k < |head| {
      assert releases[0].files[k] == Flatten(releases)[k];
    } else {
      FlattenFileFrom(releases[1..], k - |head|);
      var i, k' :| 0 <= i < |releases[1..]| && 0 <= k' < |releases[1..][i].files|
        && releases[1..][i].files[k'] == Flatten(releases[1..])[k - |head|];
      assert releases[i + 1].files[k'] == Flatten(releases)[k];
    }
  }

  /**
   * `d[version] = files` for one more member of the `releases` object, as
   * the JSON decoder builds the dict: a version already present keeps its
   * place and takes the new files; a new version goes last.
   */
  function SetRelease(obj: seq<Release>, r: Release): seq<Release> {
    if obj == [] then [r]
    else if obj[0].version == r.version then [r] + obj[1..]
    else [obj[0]] + SetRelease(obj[1..], r)
  }

  /**
   * `response.json()['releases'].values()`: the members of the `releases`
   * object, in document order, put into a dict one after the other, so one
   * release per version, at the place the version first appears, holding
   * the last release with that version.
   */
  function ReleaseValues(releases: seq<Release>): seq<Release> {
    if releases == [] then []
    else SetRelease(ReleaseValues(releases[..|releases| - 1]), releases[|releases| - 1])
  }

  /** No two releases share a version. */
  predicate DistinctVersions(releases: seq<Release>) {
    forall i, j :: 0 <= i < j < |releases| ==> releases[i].version != releases[j].version
  }

  /** No release after position `i` has the version of release `i`. */
  predicate IsLastVersion(releases: seq<Release>, i: int)
    requires 0 <= i < |releases|
  {
    forall j :: i < j < |releases| ==> releases[j].version != releases[i].version
  }

  /** Every release the dict holds after setting a version is the new one or one of another version it held before. */
  lemma {:induction false} SetReleaseFrom(obj: seq<Release>, r: Release, x: Release)
    requires DistinctVersions(obj)
    requires x in SetRelease(obj, r)
    ensures x == r || (x in obj && x.version != r.version)
  {
    if obj != [] && x != r {
      var s := SetRelease(obj, r);
      if obj[0].version != r.version {
        if x != obj[0] {
          var rest := obj[1..];
          assert s == [obj[0]] + SetRelease(rest, r);
          assert x in SetRelease(rest, r);
          SetReleaseFrom(rest, r, x);
        }
      } else {
        var k :| 0 <= k < |s| && s[k] == x;
        assert k > 0 && obj[k] == x;
      }
    }
  }

  /** Setting a version keeps the versions distinct. */
  lemma {:induction false} SetReleaseDistinct(obj: seq<Release>, r: Release)
    requires DistinctVersions(obj)
    ensures DistinctVersions(SetRelease(obj, r))
  {
    var s := SetRelease(obj, r);
    if obj != [] && obj[0].version != r.version {
      var rest := obj[1..];
      SetReleaseDistinct(rest, r);
      assert s == [obj[0]] + SetRelease(rest, r);
      forall i, j | 0 <= i < j < |s|
        ensures s[i].version != s[j].version
      {
        if i == 0 {
          assert s[j] == SetRelease(rest, r)[j - 1];
          SetReleaseFrom(rest, r, s[j]);
          if s[j] != r {
            var k :| 0 <= k < |rest| && rest[k] == s[j];
            assert obj[k + 1] == s[j];
          }
        } else {
          assert s[i] == SetRelease(rest, r)[i - 1] && s[j] == SetRelease(rest, r)[j - 1];
        }
      }
    } else if obj != [] {
      forall i, j | 0 <= i < j < |s|
        ensures s[i].version != s[j].version
      {
        assert s[j] == obj[j];
        if i > 0 {
          assert s[i] == obj[i];
        }
      }
    }
  }

  /** After setting a version, the dict holds the new release and every release of another version. */
  lemma {:induction false} SetReleaseKeeps(obj: seq<Release>, r: Release, x: Release)
    requires x == r || (x in obj && x.version != r.version)
    ensures x in SetRelease(obj, r)
  {
    if obj != [] && obj[0].version != r.version && x != obj[0] {
      if x != r {
        assert x in obj[1..];
      }
      SetReleaseKeeps(obj[1..], r, x);
    } else if obj != [] && obj[0].version == r.version && x != r {
      var k :| 0 <= k < |obj| && obj[k] == x;
      assert SetRelease(obj, r)[k] == x;
    }
  }

  /** Setting a version not yet present appends the release. */
  lemma {:induction false} SetReleaseNew(obj: seq<Release>, r: Release)
    requires forall i :: 0 <= i < |obj| ==> obj[i].version != r.version
    ensures SetRelease(obj, r) == obj + [r]
  {
    if obj != [] {
      SetReleaseNew(obj[1..], r);
      assert [obj[0]] + (obj[1..] + [r]) == obj + [r];
    }
  }

  /** The dict's values have distinct versions. */
  lemma {:induction false} ReleaseValuesDistinctVersions(releases: seq<Release>)
    ensures DistinctVersions(ReleaseValues(releases))
  {
    if releases != [] {
      var n := |releases| - 1;
      ReleaseValuesDistinctVersions(releases[..n]);
      SetReleaseDistinct(ReleaseValues(releases[..n]), releases[n]);
    }
  }

  /** Each of the dict's values is the last release with its version. */
  lemma {:induction false} ReleaseValuesAreLast(releases: seq<Release>, x: Release)
    requires x in ReleaseValues(releases)
    ensures exists j :: 0 <= j < |releases| && releases[j] == x && IsLastVersion(releases, j)
  {
    assert releases != [];
    var n := |releases| - 1;
    var front := releases[..n];
    assert ReleaseValues(releases) == SetRelease(ReleaseValues(front), releases[n]);
    ReleaseValuesDistinctVersions(front);
    SetReleaseFrom(ReleaseValues(front), releases[n], x);
    if x == releases[n] {
      assert IsLastVersion(releases, n);
    } else {
      ReleaseValuesAreLast(front, x);
      var j :| 0 <= j < |front| && front[j] == x && IsLastVersion(front, j);
      forall k | j < k < |releases|
        ensures releases[k].version != releases[j].version
      {
        if k < n {
          assert releases[k] == front[k];
        }
      }
      assert releases[j] == x && IsLastVersion(releases, j);
    }
  }

  /** The last release of every version is among the dict's values. */
  lemma {:induction false} ReleaseValuesHaveLast(releases: seq<Release>, j: int)
    requires 0 <= j < |releases| && IsLastVersion(releases, j)
    ensures releases[j] in ReleaseValues(releases)
  {
    var n := |releases| - 1;
    var front := releases[..n];
    assert ReleaseValues(releases) == SetRelease(ReleaseValues(front), releases[n]);
    if j < n {
      forall k | j < k < |front|
        ensures front[k].version != front[j].version
      {
        assert front[k] == releases[k];
      }
      ReleaseValuesHaveLast(front, j);
      assert releases[j] == front[j] && releases[j].version != releases[n].version;
    }
    SetReleaseKeeps(ReleaseValues(front), releases[n], releases[j]);
  }

  /** A list with distinct versions is its own dict's values. */
  lemma {:induction false} ReleaseValuesDistinct(releases: seq<Release>)
    requires DistinctVersions(releases)
    ensures ReleaseValues(releases) == releases
  {
    if releases != [] {
      var n := |releases| - 1;
      var front := releases[..n];
      ReleaseValuesDistinct(front);
      SetReleaseNew(front, releases[n]);
      assert front + [releases[n]] == releases;
    }
  }

  /** The (filename, URL) pairs of the legacy API, URLs joined to the response URL. */
  function JoinedFiles(base: string, files: seq<FileRecord>): (r: seq<(string, string)>)
    ensures |r| == |files|
    ensures forall i :: 0 <= i < |files| ==> r[i] == (files[i].filename, UrlJoin(base, files[i].url))
  {
    if files == [] then [] else [(files[0].filename, UrlJoin(base, files[0].url))] + JoinedFiles(base, files[1..])
  }

  /** What the HTML branch returns: one key per anchor's last path segment, each bound to a cleaned anchor with that segment. */
  ghost predicate IsHtmlMapping(base: string, anchors: set<string>, m: map<string, string>) {
    && (forall u :: u in anchors ==> LastPathSegment(u) in m)
    && (forall k :: k in m ==> exists u :: u in anchors && LastPathSegment(u) == k && m[k] == CleanUrl(base, u))
  }

  /**
   * The dict comprehension of the HTML branch. The set is iterated in an
   * order Python does not fix, so when two anchors share a last segment
   * either may supply the value.
   */
  method HtmlMapping(base: string, anchors: set<string>) returns (m: map<string, string>)
    ensures IsHtmlMapping(base, anchors, m)
    ensures forall k :: k in m ==> '/' !in k && '#' !in m[k]
  {
    m := map[];
    var rest := anchors;
    ghost var done: set<string> := {};
    while rest != {}
      invariant rest <= anchors && done == anchors - rest
      invariant forall u :: u in done ==> LastPathSegment(u) in m
      invariant forall k :: k in m ==> exists u :: u in done && LastPathSegment(u) == k && m[k] == CleanUrl(base, u)
      decreases rest
    {
      var u :| u in rest;
      m := m[LastPathSegment(u) := CleanUrl(base, u)];
      rest := rest - {u};
      done := done + {u};
    }
  }

  /**
   * What `files_for_package` returns for the response `resp` to its GET of
   * the index URL: a 404 raises `PackageDoesNotExist` before anything is
   * parsed; a JSON simple index maps each file name to its cleaned URL, the
   * last record of a name winning; an HTML page maps the last path segment
   * of each anchor to a cleaned anchor with that segment; the legacy API
   * raises for an unsuccessful status and maps each file of every value of
   * the `releases` dict to its URL joined to the response URL.
   */
  ghost predicate IsFilesForPackage(repo: Repository, resp: Response, package: string, r: Result<map<string, string>, PypiError>) {
    && (resp.status == 404 ==> r == Err(PackageDoesNotExist(package)))
    && (resp.status != 404 && repo.SimpleRepository? && resp.contentType == Some(SimpleJsonType) ==>
          r == if resp.body.SimpleIndex? then Ok(DictOf(CleanedFiles(resp.url, resp.body.files))) else Err(MalformedResponse))
    && (resp.status != 404 && repo.SimpleRepository? && resp.contentType != Some(SimpleJsonType) ==>
          r.Ok? && IsHtmlMapping(resp.url, AnchorsOf(TagsOf(resp.body)), r.value))
    && (resp.status != 404 && repo.LegacyJsonRepository? && !IsSuccess(resp.status) ==> r == Err(HttpStatusError(resp.status)))
    && (resp.status != 404 && repo.LegacyJsonRepository? && IsSuccess(resp.status) ==>
          r == if resp.body.ReleaseIndex? then Ok(DictOf(JoinedFiles(resp.url, Flatten(ReleaseValues(resp.body.releases))))) else Err(MalformedResponse))
  }

  /**
   * `files_for_package` of either repository: one GET of the index URL; a
   * 404 raises `PackageDoesNotExist` before anything is parsed.
   */
  method FilesForPackage(repo: Repository, net: Network, package: string) returns (r: Result<map<string, string>, PypiError>)
    modifies net
    ensures net.requests == old(net.requests) + [IndexUrl(repo, package)]
    ensures IsFilesForPackage(repo, net.pages(IndexUrl(repo, package)), package, r)
  {
    var resp := net.Get(IndexUrl(repo, package));
    if resp.status == 404 {
      return Err(PackageDoesNotExist(package));
    }
    match repo
    case SimpleRepository(_) =>
      if resp.contentType == Some(SimpleJsonType) {
        if resp.body.SimpleIndex? {
          r := Ok(DictOf(CleanedFiles(resp.url, resp.body.files)));
        } else {
          r := Err(MalformedResponse);
        }
      } else {
        var parser := new HtmlAnchorParser();
        parser.Feed(TagsOf(resp.body));
        var m := HtmlMapping(resp.url, parser.anchors);
        r := Ok(m);
      }
    case LegacyJsonRepository(_) =>
      if !IsSuccess(resp.status) {
        r := Err(HttpStatusError(resp.status));
      } else if resp.body.ReleaseIndex? {
        r := Ok(DictOf(JoinedFiles(resp.url, Flatten(ReleaseValues(resp.body.releases)))));
      } else {
        r := Err(MalformedResponse);
      }
  }

  // ---------------------------------------------------------------------
  // files_by_version
  // ---------------------------------------------------------------------

  /** What `guess_version_from_filename` does with a name: a version (or None), or ValueError. */
  datatype Guess = Unparseable | Parsed(version: Option<string>)

  /**
   * What `files_by_version` builds from the names: each name whose version
   * parses is in exactly that version's set, names that raise are nowhere,
   * and no set is empty.
   */
  ghost predicate IsGrouping(names: set<string>, guess: string -> Guess, groups: map<Option<string>, set<string>>) {
    && (forall n :: n in names && guess(n).Parsed? ==> guess(n).version in groups && n in groups[guess(n).version])
    && (forall v, n :: v in groups && n in groups[v] ==> n in names && guess(n) == Parsed(v))
    && (forall v :: v in groups ==> groups[v] != {})
  }

  /** The grouping of a set of names is determined by the names alone, whatever order they are visited in. */
  lemma GroupingUnique(names: set<string>, guess: string -> Guess, g1: map<Option<string>, set<string>>, g2: map<Option<string>, set<string>>)
    requires IsGrouping(names, guess, g1) && IsGrouping(names, guess, g2)
    ensures g1 == g2
  {
    forall v | v in g1
      ensures v in g2 && g1[v] == g2[v]
    {
      var n :| n in g1[v];
      assert n in names && guess(n) == Parsed(v);
      assert guess(n).version in g2;
      forall m | m in g1[v]
        ensures m in g2[v]
      {
        assert m in names && guess(m) == Parsed(v);
      }
      forall m | m in g2[v]
        ensures m in g1[v]
      {
        assert m in names && guess(m) == Parsed(v);
      }
    }
    forall v | v in g2
      ensures v in g1
    {
      var n :| n in g2[v];
      assert n in names && guess(n) == Parsed(v);
    }
  }

  /**
   * The loop of `files_by_version`: each name whose version parses goes into
   * that version's set; names that raise are skipped.
   */
  method GroupByVersion(names: set<string>, guess: string -> Guess) returns (groups: map<Option<string>, set<string>>)
    ensures IsGrouping(names, guess, groups)
  {
    groups := map[];
    var rest := names;
    ghost var seen: set<string> := {};
    while rest != {}
      invariant rest <= names && seen == names - rest
      invariant forall n :: n in seen && guess(n).Parsed? ==> guess(n).version in groups && n in groups[guess(n).version]
      invariant forall v, n :: v in groups && n in groups[v] ==> n in seen && guess(n) == Parsed(v)
      invariant forall v :: v in groups ==> groups[v] != {}
      decreases rest
    {
      var n :| n in rest;
      if guess(n).Parsed? {
        var v := guess(n).version;
        var current := if v in groups then groups[v] else {};
        groups := groups[v := current + {n}];
      }
      rest := rest - {n};
      seen := seen + {n};
    }
  }

  /**
   * The errors `files_for_package` raises: PackageDoesNotExist exactly for a
   * 404, otherwise a failed status or an unreadable body; never a missing
   * file or a broken stream.
   */
  lemma FilesForPackageErrors(repo: Repository, resp: Response, package: string, r: Result<map<string, string>, PypiError>)
    requires IsFilesForPackage(repo, resp, package, r)
    ensures r.Err? ==> r.error.PackageDoesNotExist? || r.error.HttpStatusError? || r.error.MalformedResponse?
    ensures r.Err? && r.error.PackageDoesNotExist? <==> resp.status == 404
    ensures resp.status == 404 ==> r == Err(PackageDoesNotExist(package))
  {
  }

  /**
   * `files_by_version`: the names of the repository's mapping, grouped by
   * their guessed version, or the error `files_for_package` raised.
   */
  method FilesByVersion(config: PyPIConfig, net: Network, package: string, guess: string -> Guess)
    returns (r: Result<map<Option<string>, set<string>>, PypiError>)
    modifies net
    ensures net.requests == old(net.requests) + [IndexUrl(config.repo, package)]
    ensures exists index :: (IsFilesForPackage(config.repo, net.pages(IndexUrl(config.repo, package)), package, index)
                             && (index.Err? ==> r == Err(index.error))
                             && (index.Ok? ==> r.Ok? && IsGrouping(index.value.Keys, guess, r.value)))
  {
    var files := FilesForPackage(config.repo, net, package);
    if files.Err? {
      return Err(files.error);
    }
    var groups := GroupByVersion(files.value.Keys, guess);
    r := Ok(groups);
  }

  // ---------------------------------------------------------------------
  // _storage_path
  // ---------------------------------------------------------------------

  /** `base64.urlsafe_b64encode(s.encode('utf8')).decode('ascii')`. */
  function Component(s: string): string {
    Base64.Encode(Base64.UrlSafe, Utf8.Encode(s))
  }

  /** `_storage_path(config, package, filename)`. */
  function StoragePath(cachePath: string, package: string, filename: string): string {
    Join(Join(cachePath, Component(package)), Component(filename))
  }

  lemma EncodeEmpty(s: string)
    ensures Utf8.Encode(s) == [] <==> s == []
  {
    if s != [] {
      assert Utf8.Encode(s) == Utf8.EncodeChar(s[0]) + Utf8.Encode(s[1..]);
    }
  }

  /**
   * A path component is made of URL-safe base64 characters only: it holds
   * no `/` and no `.`, so it is never `..`, and it is empty only for an
   * empty name.
   */
  lemma ComponentIsSafe(s: string)
    ensures '/' !in Component(s) && '.' !in Component(s) && Component(s) != ".."
    ensures Component(s) == [] <==> s == []
    ensures BrowserPackaging.IsAscii(Component(s))
  {
    Base64.UrlSafeAlphabet(Utf8.Encode(s));
    EncodeEmpty(s);
    assert ".."[0] == '.';
  }

  /** The directory every stored file sits in, with its trailing `/`. */
  function CacheDir(cachePath: string): string {
    if cachePath == [] || EndsWith(cachePath, "/") then cachePath else cachePath + "/"
  }

  /** For non-empty names the stored path is the cache directory, then the two components. */
  lemma StoragePathShape(cachePath: string, package: string, filename: string)
    requires package != [] && filename != []
    ensures StoragePath(cachePath, package, filename) == CacheDir(cachePath) + Component(package) + "/" + Component(filename)
  {
    ComponentIsSafe(package);
    ComponentIsSafe(filename);
    var a := Component(package);
    var b := Component(filename);
    assert a[0] != '/' && b[0] != '/';
    assert Join(cachePath, a) == CacheDir(cachePath) + a;
    var x := CacheDir(cachePath) + a;
    assert x[|x| - 1] == a[|a| - 1];
  }

  /** The basename of a join is the joined component, when it holds no `/`. */
  lemma BasenameJoin(x: string, b: string)
    requires '/' !in b
    ensures Basename(Join(x, b)) == b
  {
    var p := Join(x, b);
    assert EndsWith(p, b);
    var r := RFind(p, '/');
    assert b == [] || b[0] != '/';
    if p != x + b || x == [] || EndsWith(x, "/") {
      assert |p| - |b| == 0 || p[|p| - |b| - 1] == '/';
    }
    assert r < |p| - |b|;
    assert r >= |p| - |b| - 1;
  }

  /** The stored path's basename is the filename's component. */
  lemma StoragePathBasename(cachePath: string, package: string, filename: string)
    ensures Basename(StoragePath(cachePath, package, filename)) == Component(filename)
  {
    ComponentIsSafe(filename);
    BasenameJoin(Join(cachePath, Component(package)), Component(filename));
  }

  lemma RFindSlash(x: string, b: string)
    requires '/' !in b
    ensures RFind(x + "/" + b, '/') == |x|
  {
    SlashThenNoSlash(x, b);
    RFindIs(x + "/" + b, '/', |x|);
  }

  lemma SlashThenNoSlash(x: string, b: string)
    requires '/' !in b
    ensures var p := x + "/" + b; p[|x|] == '/' && forall j :: |x| < j < |p| ==> p[j] != '/'
  {
    var p := x + "/" + b;
    forall j | |x| < j < |p|
      ensures p[j] != '/'
    {
      assert p[j] == b[j - |x| - 1];
    }
  }

  lemma RFindIs(s: string, c: char, k: int)
    requires 0 <= k < |s| && s[k] == c
    requires forall j :: k < j < |s| ==> s[j] != c
    ensures RFind(s, c) == k
  {
  }

  /** A path ending in `/` and a slash-free component splits there in one way only. */
  lemma SplitAtLastSlash(x: string, b: string, y: string, c: string)
    requires '/' !in b && '/' !in c && x + "/" + b == y + "/" + c
    ensures x == y && b == c
  {
    RFindSlash(x, b);
    RFindSlash(y, c);
    assert x == (x + "/" + b)[..|x|];
    assert y == (y + "/" + c)[..|y|];
    assert b == (x + "/" + b)[|x| + 1..];
    assert c == (y + "/" + c)[|y| + 1..];
  }

  /** Distinct (package, filename) pairs of non-empty names are stored at distinct paths. */
  lemma StoragePathInjective(cachePath: string, p1: string, f1: string, p2: string, f2: string)
    requires p1 != [] && f1 != [] && p2 != [] && f2 != []
    requires StoragePath(cachePath, p1, f1) == StoragePath(cachePath, p2, f2)
    ensures p1 == p2 && f1 == f2
  {
    StoragePathShape(cachePath, p1, f1);
    StoragePathShape(cachePath, p2, f2);
    ComponentIsSafe(f1);
    ComponentIsSafe(f2);
    var d := CacheDir(cachePath);
    SplitAtLastSlash(d + Component(p1), Component(f1), d + Component(p2), Component(f2));
    assert Component(p1) == (d + Component(p1))[|d|..];
    assert Component(p2) == (d + Component(p2))[|d|..];
    Base64.EncodeUrlSafeInjective(Utf8.Encode(p1), Utf8.Encode(p2));
    Utf8.EncodeInjective(p1, p2);
    Base64.EncodeUrlSafeInjective(Utf8.Encode(f1), Utf8.Encode(f2));
    Utf8.EncodeInjective(f1, f2);
  }

  /**
   * With the URL-safe decoding, the name a stored path stands for is the
   * file name it was stored under, so classifying a cached file classifies
   * the original file name.
   */
  lemma FromPathOfStoragePath(cachePath: string, package: string, filename: string)
    ensures BrowserPackaging.DecodeStoredName(Basename(StoragePath(cachePath, package, filename)), Base64.UrlSafe) == Ok(filename)
    ensures var r := BrowserPackaging.FromPath(StoragePath(cachePath, package, filename));
      && (r.Ok? <==> BrowserPackaging.Classify(filename).Some?)
      && (r.Ok? ==> BrowserPackaging.Classify(filename) == Some((r.value.packageType, r.value.packageFormat)))
      && (r.Err? ==> r.error == BrowserPackaging.UnsupportedPackageType(filename))
  {
    StoragePathBasename(cachePath, package, filename);
    ComponentIsSafe(filename);
    Base64.DecodeEncodeUrlSafe(Utf8.Encode(filename));
    Utf8.DecodeEncode(filename);
  }

  /**
   * As written, `from_path` decodes with the standard alphabet, which drops
   * the `-` that URL-safe encoding puts in the component of "ab~.whl"; nine
   * data characters remain and `b64decode` raises, although the name is a
   * wheel and the URL-safe decoding recovers it.
   */
  lemma FromPathAsWrittenRejectsStoredWheel(cachePath: string, package: string)
    ensures Component("ab~.whl") == "YWJ-LndobA=="
    ensures BrowserPackaging.FromPathAsWritten(StoragePath(cachePath, package, "ab~.whl")) == Err(BrowserPackaging.InvalidBase64)
    ensures BrowserPackaging.FromPath(StoragePath(cachePath, package, "ab~.whl")) == Ok(BrowserPackaging.Package(BrowserPackaging.Wheel, BrowserPackaging.ZipFile, StoragePath(cachePath, package, "ab~.whl")))
  {
    var name := "ab~.whl";
    var stored := StoragePath(cachePath, package, name);
    ComponentOfTildeWheel();
    StoragePathBasename(cachePath, package, name);
    StandardDecoderRejectsTildeWheel();
    TildeWheelComponentAscii();
    BrowserPackaging.FromPathAsWrittenInvalid(stored);
    FromPathOfStoragePath(cachePath, package, name);
    assert BrowserPackaging.Classify(name) == Some((BrowserPackaging.Wheel, BrowserPackaging.ZipFile)) by {
      assert EndsWith(name, ".whl");
    }
  }

  lemma TildeWheelComponentAscii()
    ensures BrowserPackaging.IsAscii("YWJ-LndobA==")
  {
  }

  /** The stored component of "ab~.whl": the byte 0x7E puts the URL-safe `-` in it. */
  lemma ComponentOfTildeWheel()
    ensures Component("ab~.whl") == "YWJ-LndobA=="
  {
    var b: seq<byte> := [0x61, 0x62, 0x7E, 0x2E, 0x77, 0x68, 0x6C];
    TildeWheelBytes();
    Base64.EncodeUnfold(Base64.UrlSafe, b);
    Base64.EncodeUnfold(Base64.UrlSafe, b[3..]);
    assert b[3..][3..] == [0x6C];
    TildeWheelQuanta();
  }

  lemma TildeWheelBytes()
    ensures Utf8.Encode("ab~.whl") == [0x61, 0x62, 0x7E, 0x2E, 0x77, 0x68, 0x6C]
  {
    Utf8.EncodeAscii("ab~.whl");
  }

  lemma TildeWheelQuanta()
    ensures Base64.EncodeGroup(Base64.UrlSafe, 0x61, 0x62, 0x7E) == "YWJ-"
    ensures Base64.EncodeGroup(Base64.UrlSafe, 0x2E, 0x77, 0x68) == "Lndo"
    ensures Base64.Encode(Base64.UrlSafe, [0x6C]) == "bA=="
  {
    Base64.EncodeOne(Base64.UrlSafe, [0x6C]);
  }

  /**
   * `b64decode("YWJ-LndobA==")` skips the `-`, so the `=` arrive after nine
   * data characters, with one character of a quantum in hand: it raises.
   */
  lemma StandardDecoderRejectsTildeWheel()
    ensures Base64.DecodeLenient("YWJ-LndobA==") == None
  {
    var s := "YWJ-LndobA==";
    var s0 := Base64.Fresh([]);
    var s4 := TildeWheelFirstQuad();
    Base64.RunQuad(s0, s);
    assert s[..4] == "YWJ-" && s[4..] == "LndobA==";
    TildeWheelRest(s4);
  }

  /** After "YWJ-": three data characters in hand, the `-` skipped. */
  lemma TildeWheelFirstQuad() returns (st: Base64.DecodeState)
    ensures st == Base64.Step(Base64.Step(Base64.Step(Base64.Step(Base64.Fresh([]), 'Y'), 'W'), 'J'), '-')
    ensures Base64.ValidState(st) && st.quadPos == 3 && !st.done
    ensures !Base64.Step(Base64.Fresh([]), 'Y').done && !Base64.Step(Base64.Step(Base64.Fresh([]), 'Y'), 'W').done
    ensures !Base64.Step(Base64.Step(Base64.Step(Base64.Fresh([]), 'Y'), 'W'), 'J').done
  {
    st := Base64.Step(Base64.Step(Base64.Step(Base64.Step(Base64.Fresh([]), 'Y'), 'W'), 'J'), '-');
  }

  /** The rest, "LndobA==", leaves the quantum one character short. */
  lemma TildeWheelRest(s4: Base64.DecodeState)
    requires Base64.ValidState(s4) && s4.quadPos == 3 && !s4.done
    ensures var st := Base64.Run(s4, "LndobA=="); !st.done && st.quadPos == 1
  {
    var s := "LndobA==";
    Base64.RunQuad(s4, s);
    var s8 := Base64.Step(Base64.Step(Base64.Step(Base64.Step(s4, 'L'), 'n'), 'd'), 'o');
    assert s8.quadPos == 3 && !s8.done;
    assert s[4..] == "bA==";
    Base64.RunQuad(s8, s[4..]);
    assert s[4..][4..] == [];
    var s12 := Base64.Step(Base64.Step(Base64.Step(Base64.Step(s8, 'b'), 'A'), '='), '=');
    assert s12.quadPos == 1 && !s12.done;
  }

  // ---------------------------------------------------------------------
  // _atomic_file and downloaded_file_path
  // ---------------------------------------------------------------------

  /** `async for chunk in resp.aiter_bytes(): f.write(chunk)`: the file grows by every chunk, in order. */
  method WriteChunks(fs: FileSystem, p: string, chunks: seq<seq<byte>>)
    requires p in fs.files
    modifies fs`files
    ensures fs.files == old(fs.files)[p := old(fs.files)[p] + Concat(chunks)]
  {
    var i := 0;
    ghost var before := fs.files[p];
    assert chunks[..0] == [];
    assert before + Concat(chunks[..0]) == before;
    assert fs.files == old(fs.files)[p := before];
    while i < |chunks|
      invariant 0 <= i <= |chunks|
      invariant fs.files == old(fs.files)[p := before + Concat(chunks[..i])]
    {
      assert chunks[..i + 1] == chunks[..i] + [chunks[i]];
      ConcatAppend(chunks[..i], chunks[i]);
      assert before + Concat(chunks[..i + 1]) == (before + Concat(chunks[..i])) + chunks[i];
      fs.Append(p, chunks[i]);
      i := i + 1;
    }
    assert chunks[..i] == chunks;
  }

  /**
   * `_atomic_file(path)` around the streamed download of `url`: the chunks
   * go to a fresh temporary file `tmp`, which is renamed onto `path` when
   * the body finishes and removed when it raises.
   */
  method AtomicDownload(fs: FileSystem, net: Network, url: string, path: string, tmp: string) returns (r: Outcome<PypiError>)
    requires tmp !in fs.files && tmp != path
    modifies fs, net
    ensures net.requests == old(net.requests) + [url]
    ensures fs.dirs == old(fs.dirs)
    ensures var d := net.downloads(url);
      && (r.Pass? <==> IsSuccess(d.status) && d.completes)
      && (r.Pass? ==> fs.files == old(fs.files)[path := Concat(d.chunks)])
      && (!IsSuccess(d.status) ==> r == Fail(HttpStatusError(d.status)))
      && (IsSuccess(d.status) && !d.completes ==> r == Fail(StreamFailed))
    ensures r.Fail? ==> fs.files == old(fs.files)
  {
    fs.Create(tmp);
    var d := net.Stream(url);
    if !IsSuccess(d.status) {
      fs.Remove(tmp);
      assert fs.files == old(fs.files);
      return Fail(HttpStatusError(d.status));
    }
    WriteChunks(fs, tmp, d.chunks);
    assert [] + Concat(d.chunks) == Concat(d.chunks);
    if !d.completes {
      fs.Remove(tmp);
      assert fs.files == old(fs.files);
      return Fail(StreamFailed);
    }
    fs.Rename(tmp, path);
    assert fs.files == old(fs.files)[path := Concat(d.chunks)];
    r := Pass;
  }

  /** The URL the mapping of `files_for_package` gives `filename`: its error, no URL, or the URL. */
  function UrlIn(index: Result<map<string, string>, PypiError>, filename: string): (r: Result<Option<string>, PypiError>)
    ensures index.Err? <==> r.Err?
    ensures index.Ok? ==> (r.value.Some? <==> filename in index.value)
    ensures r.Ok? && r.value.Some? ==> r.value.value == index.value[filename]
  {
    match index
    case Err(e) => Err(e)
    case Ok(m) => Ok(if filename in m then Some(m[filename]) else None)
  }

  /**
   * What fetching a file into the cache does once its URL has been looked
   * up, `found` being the lookup's error, no URL, or the URL, and
   * `requests0` the log after the lookup's request: an error, or a name
   * the lookup does not know, fails with nothing written, no directory made
   * and no further request; otherwise the storage path's directory and its
   * ancestors are made, the URL is the one further request, and the
   * download is stored at the storage path exactly when its status is a
   * success and its stream completes, the status error or the stream's
   * failure being raised otherwise.
   */
  ghost predicate IsFetchOf(package: string, filename: string, stored: string, found: Result<Option<string>, PypiError>,
                            files0: map<string, seq<byte>>, dirs0: set<string>, requests0: seq<string>,
                            downloads: string -> Download,
                            r: Result<string, PypiError>, files: map<string, seq<byte>>, dirs: set<string>, requests: seq<string>)
  {
    match found
    case Err(e) =>
      r == Err(e) && files == files0 && dirs == dirs0 && requests == requests0
    case Ok(None) =>
      r == Err(CannotFindFile(package, filename)) && files == files0 && dirs == dirs0 && requests == requests0
    case Ok(Some(url)) =>
      var d := downloads(url);
      && requests == requests0 + [url]
      && dirs == dirs0 + DirChain(Dirname(stored))
      && if IsSuccess(d.status) && d.completes then
           r == Ok(stored) && files == files0[stored := Concat(d.chunks)]
         else
           r == Err(if IsSuccess(d.status) then StreamFailed else HttpStatusError(d.status)) && files == files0
  }

  /** `IsFetchOf` for the URL the repository's index gives the file, after the index's request. */
  ghost predicate IsFetch(config: PyPIConfig, pages: string -> Response, package: string, filename: string, stored: string,
                          files0: map<string, seq<byte>>, dirs0: set<string>, requests0: seq<string>,
                          downloads: string -> Download,
                          r: Result<string, PypiError>, files: map<string, seq<byte>>, dirs: set<string>, requests: seq<string>)
  {
    exists index :: (IsFilesForPackage(config.repo, pages(IndexUrl(config.repo, package)), package, index)
                     && IsFetchOf(package, filename, stored, UrlIn(index, filename),
                                  files0, dirs0, requests0 + [IndexUrl(config.repo, package)], downloads, r, files, dirs, requests))
  }

  /**
   * The part of `downloaded_file_path` after the URL was looked up: raise
   * the lookup's error or CannotFindFileError, or make the directories and
   * download the URL into the storage path through `_atomic_file`.
   */
  method FetchFound(fs: FileSystem, net: Network, package: string, filename: string, stored: string,
                    found: Result<Option<string>, PypiError>, tmp: string) returns (r: Result<string, PypiError>)
    requires tmp !in fs.files && tmp != stored
    modifies fs, net
    ensures IsFetchOf(package, filename, stored, found, old(fs.files), old(fs.dirs), old(net.requests), net.downloads,
                      r, fs.files, fs.dirs, net.requests)
  {
    if found.Err? {
      return Err(found.error);
    }
    if found.value.None? {
      return Err(CannotFindFile(package, filename));
    }
    var url := found.value.value;
    fs.MakeDirs(Dirname(stored));
    var written := AtomicDownload(fs, net, url, stored, tmp);
    if written.Fail? {
      return Err(written.error);
    }
    r := Ok(stored);
  }

  /**
   * A fetch answers PackageDoesNotExist exactly when the index answers 404,
   * and then nothing is written; a success leaves the downloaded bytes at
   * the storage path, where the next call finds them; any failure leaves
   * the cached files as they were.
   */
  lemma FetchOutcome(config: PyPIConfig, pages: string -> Response, package: string, filename: string, stored: string,
                     files0: map<string, seq<byte>>, dirs0: set<string>, requests0: seq<string>,
                     downloads: string -> Download,
                     r: Result<string, PypiError>, files: map<string, seq<byte>>, dirs: set<string>, requests: seq<string>)
    requires IsFetch(config, pages, package, filename, stored, files0, dirs0, requests0, downloads, r, files, dirs, requests)
    ensures r == Err(PackageDoesNotExist(package)) <==> pages(IndexUrl(config.repo, package)).status == 404
    ensures pages(IndexUrl(config.repo, package)).status == 404 ==> files == files0 && dirs == dirs0
    ensures r.Ok? ==> r.value == stored && stored in files && |requests| == |requests0| + 2
                      && files[stored] == Concat(downloads(requests[|requests0| + 1]).chunks)
    ensures r.Err? ==> files == files0
  {
    var index :| IsFilesForPackage(config.repo, pages(IndexUrl(config.repo, package)), package, index)
      && IsFetchOf(package, filename, stored, UrlIn(index, filename),
                   files0, dirs0, requests0 + [IndexUrl(config.repo, package)], downloads, r, files, dirs, requests);
    FilesForPackageErrors(config.repo, pages(IndexUrl(config.repo, package)), package, index);
  }

  /**
   * `downloaded_file_path`: a path that exists is returned at once without
   * asking the repository; otherwise the file is fetched into the cache.
   * `tmp` is the fresh name the temporary file gets.
   */
  method DownloadedFilePath(config: PyPIConfig, fs: FileSystem, net: Network, package: string, filename: string, tmp: string)
    returns (r: Result<string, PypiError>)
    requires tmp !in fs.files && tmp != StoragePath(config.cachePath, package, filename)
    modifies fs, net
    ensures var stored := StoragePath(config.cachePath, package, filename);
      old(fs.Exists(stored)) ==> r == Ok(stored) && fs.files == old(fs.files) && fs.dirs == old(fs.dirs) && net.requests == old(net.requests)
    ensures var stored := StoragePath(config.cachePath, package, filename);
      !old(fs.Exists(stored)) ==> IsFetch(config, net.pages, package, filename, stored, old(fs.files), old(fs.dirs), old(net.requests), net.downloads, r, fs.files, fs.dirs, net.requests)
  {
    var stored := StoragePath(config.cachePath, package, filename);
    if fs.Exists(stored) {
      return Ok(stored);
    }
    r := Fetch(config, fs, net, package, filename, stored, tmp);
  }

  /** The part of `downloaded_file_path` after the cache missed. */
  method Fetch(config: PyPIConfig, fs: FileSystem, net: Network, package: string, filename: string, stored: string, tmp: string)
    returns (r: Result<string, PypiError>)
    requires tmp !in fs.files && tmp != stored
    modifies fs, net
    ensures IsFetch(config, net.pages, package, filename, stored, old(fs.files), old(fs.dirs), old(net.requests), net.downloads, r, fs.files, fs.dirs, net.requests)
  {
    var mapping := FilesForPackage(config.repo, net, package);
    r := FetchFound(fs, net, package, filename, stored, UrlIn(mapping, filename), tmp);
  }
}
