/**
 * pypi_view/pypi.py: the earlier repository client, which reads only the
 * legacy JSON API of one fixed index, and its download cache under a fixed
 * storage directory. The cache encodes names exactly as the later version
 * does and commits downloads through the same `_atomic_file` pattern, so
 * those pieces are shared with BrowserPypi.
 */
module ViewPypi {
  import opened Wrappers
  import opened PyLib
  import opened Http
  import opened Files
  import BrowserPackaging
  import opened BrowserPypi
  import ViewPackaging

  /** PYPI: the index every request goes to. */
  const PypiUrl := "https://pypi.org"

  /** STORAGE_DIR: the directory the cache lives in. */
  const StorageDir := "/home/ckuehl/tmp/pypi-view"

  /** The URL `package_metadata` requests. */
  function MetadataUrl(package: string): string {
    PypiUrl + "/pypi/" + package + "/json"
  }

  /**
   * What `package_metadata` gives back for the response `resp`: a 404 raises
   * `PackageDoesNotExist`, any other unsuccessful status raises from
   * `raise_for_status`, and a successful response is read for its releases.
   */
  ghost predicate IsPackageMetadata(resp: Response, package: string, r: Result<seq<Release>, PypiError>) {
    && (resp.status == 404 ==> r == Err(PackageDoesNotExist(package)))
    && (resp.status != 404 && !IsSuccess(resp.status) ==> r == Err(HttpStatusError(resp.status)))
    && (IsSuccess(resp.status) ==>
          r == if resp.body.ReleaseIndex? then Ok(resp.body.releases) else Err(MalformedResponse))
  }

  /** `package_metadata(client, package)`: one GET of the package's JSON document. */
  method PackageMetadata(net: Network, package: string) returns (r: Result<seq<Release>, PypiError>)
    modifies net
    ensures net.requests == old(net.requests) + [MetadataUrl(package)]
    ensures IsPackageMetadata(net.pages(MetadataUrl(package)), package, r)
  {
    var resp := net.Get(MetadataUrl(package));
    if resp.status == 404 {
      return Err(PackageDoesNotExist(package));
    }
    if !IsSuccess(resp.status) {
      return Err(HttpStatusError(resp.status));
    }
    if resp.body.ReleaseIndex? {
      r := Ok(resp.body.releases);
    } else {
      r := Err(MalformedResponse);
    }
  }

  // ---------------------------------------------------------------------
  // files_for_package
  // ---------------------------------------------------------------------

  /** `{file_['filename'] for file_ in files}`. */
  function FileNames(files: seq<FileRecord>): (r: set<string>)
    ensures forall i :: 0 <= i < |files| ==> files[i].filename in r
    ensures forall n :: n in r ==> exists i :: 0 <= i < |files| && files[i].filename == n
  {
    if files == [] then {}
    else
      var front := files[..|files| - 1];
      assert forall i :: 0 <= i < |front| ==> front[i] == files[i];
      FileNames(front) + {files[|files| - 1].filename}
  }

  /** The (version, file names) pairs the dict comprehension is built from, in release order. */
  function VersionPairs(releases: seq<Release>): (r: seq<(string, set<string>)>)
    ensures |r| == |releases|
    ensures forall i :: 0 <= i < |releases| ==> r[i] == (releases[i].version, FileNames(releases[i].files))
  {
    if releases == [] then []
    else VersionPairs(releases[..|releases| - 1]) + [(releases[|releases| - 1].version, FileNames(releases[|releases| - 1].files))]
  }

  /** The dict `files_for_package` builds from the releases. */
  function VersionMap(releases: seq<Release>): map<string, set<string>> {
    DictOf(VersionPairs(releases))
  }

  /**
   * Every release's version is a key, every key is the version of some
   * release, and each key maps to exactly the file names of the last
   * release with that version (JSON objects keep the last duplicate key).
   */
  lemma VersionMapSpec(releases: seq<Release>)
    ensures forall i :: 0 <= i < |releases| ==> releases[i].version in VersionMap(releases)
    ensures forall v :: v in VersionMap(releases) ==>
      exists i :: (0 <= i < |releases| && releases[i].version == v && IsLastVersion(releases, i)
                   && VersionMap(releases)[v] == FileNames(releases[i].files))
  {
    var pairs := VersionPairs(releases);
    var m := VersionMap(releases);
    forall i | 0 <= i < |releases|
      ensures releases[i].version in m
    {
      assert pairs[i].0 == releases[i].version;
    }
    forall v | v in m
      ensures exists i :: (0 <= i < |releases| && releases[i].version == v && IsLastVersion(releases, i)
                           && m[v] == FileNames(releases[i].files))
    {
      DictOfLast(pairs, v);
      var i :| 0 <= i < |pairs| && pairs[i].0 == v && IsLastKey(pairs, i) && m[v] == pairs[i].1;
      assert IsLastVersion(releases, i) by {
        forall j | i < j < |releases|
          ensures releases[j].version != releases[i].version
        {
          assert pairs[j].0 != pairs[i].0;
        }
      }
    }
  }

  /** With distinct versions, every release's version maps to exactly its own file names. */
  lemma VersionMapDistinct(releases: seq<Release>, i: int)
    requires forall j, k :: 0 <= j < k < |releases| ==> releases[j].version != releases[k].version
    requires 0 <= i < |releases|
    ensures VersionMap(releases)[releases[i].version] == FileNames(releases[i].files)
  {
    VersionMapSpec(releases);
    var v := releases[i].version;
    var k :| 0 <= k < |releases| && releases[k].version == v && IsLastVersion(releases, k)
      && VersionMap(releases)[v] == FileNames(releases[k].files);
    assert k == i;
  }

  /** `files_for_package(package)`: each release version, with the names of its files. */
  method FilesForPackage(net: Network, package: string) returns (r: Result<map<string, set<string>>, PypiError>)
    modifies net
    ensures net.requests == old(net.requests) + [MetadataUrl(package)]
    ensures var resp := net.pages(MetadataUrl(package));
      && (resp.status == 404 ==> r == Err(PackageDoesNotExist(package)))
      && (resp.status != 404 && !IsSuccess(resp.status) ==> r == Err(HttpStatusError(resp.status)))
      && (IsSuccess(resp.status) && !resp.body.ReleaseIndex? ==> r == Err(MalformedResponse))
      && (IsSuccess(resp.status) && resp.body.ReleaseIndex? ==> r == Ok(VersionMap(resp.body.releases)))
  {
    var metadata := PackageMetadata(net, package);
    if metadata.Err? {
      return Err(metadata.error);
    }
    r := Ok(VersionMap(metadata.value));
  }

  // ---------------------------------------------------------------------
  // The search for the file's URL.
  // ---------------------------------------------------------------------

  /** The URL of the first file, in order, with the given name. */
  function FirstMatch(files: seq<FileRecord>, filename: string): Option<string> {
    if files == [] then None
    else if files[0].filename == filename then Some(files[0].url)
    else FirstMatch(files[1..], filename)
  }

  /** `FirstMatch` finds the earliest file with the name, and finds nothing only when no file has it. */
  lemma {:induction false} FirstMatchSpec(files: seq<FileRecord>, filename: string)
    ensures FirstMatch(files, filename).None? <==> forall i :: 0 <= i < |files| ==> files[i].filename != filename
    ensures FirstMatch(files, filename).Some? ==>
      exists k :: (0 <= k < |files| && files[k].filename == filename && FirstMatch(files, filename).value == files[k].url
                   && forall j :: 0 <= j < k ==> files[j].filename != filename)
  {
    if files != [] && files[0].filename != filename {
      FirstMatchSpec(files[1..], filename);
      if FirstMatch(files[1..], filename).Some? {
        var k :| 0 <= k < |files[1..]| && files[1..][k].filename == filename && FirstMatch(files[1..], filename).value == files[1..][k].url
          && forall j :: 0 <= j < k ==> files[1..][j].filename != filename;
        assert files[k + 1] == files[1..][k];
        forall j | 0 <= j < k + 1
          ensures files[j].filename != filename
        {
          if j > 0 {
            assert files[j] == files[1..][j - 1];
          }
        }
      } else {
        forall i | 0 <= i < |files|
          ensures files[i].filename != filename
        {
          if i > 0 {
            assert files[i] == files[1..][i - 1];
          }
        }
      }
    } else if files != [] {
      assert files[0].filename == filename;
    }
  }

  /** `FirstMatch` of a list is found in its front, or else in its back. */
  lemma {:induction false} FirstMatchAppend(front: seq<FileRecord>, back: seq<FileRecord>, filename: string)
    ensures FirstMatch(front + back, filename) ==
      if FirstMatch(front, filename).Some? then FirstMatch(front, filename) else FirstMatch(back, filename)
  {
    if front != [] {
      assert (front + back)[1..] == front[1..] + back;
      FirstMatchAppend(front[1..], back, filename);
    } else {
      assert front + back == back;
    }
  }

  /**
   * The `for ... break ... else` over the flattened releases: the URL of the
   * first file whose name equals `filename`, or None when the loop runs out.
   */
  method FindFileUrl(files: seq<FileRecord>, filename: string) returns (url: Option<string>)
    ensures url == FirstMatch(files, filename)
  {
    var i := 0;
    while i < |files|
      invariant 0 <= i <= |files|
      invariant FirstMatch(files, filename) == FirstMatch(files[i..], filename)
    {
      if files[i].filename == filename {
        return Some(files[i].url);
      }
      assert files[i..][1..] == files[i + 1..];
      i := i + 1;
    }
    return None;
  }

  // ---------------------------------------------------------------------
  // _storage_path and downloaded_file_path
  // ---------------------------------------------------------------------

  /** `_storage_path(package, filename)`: the later version's path, under STORAGE_DIR. */
  function StoragePath(package: string, filename: string): string {
    BrowserPypi.StoragePath(StorageDir, package, filename)
  }

  /**
   * For non-empty names the stored path is STORAGE_DIR, then two URL-safe
   * base64 components that hold no `/` and are never `..`; distinct pairs of
   * names get distinct paths.
   */
  lemma StoragePathShape(package: string, filename: string)
    requires package != [] && filename != []
    ensures StoragePath(package, filename) == StorageDir + "/" + Component(package) + "/" + Component(filename)
    ensures '/' !in Component(package) && '/' !in Component(filename)
    ensures Component(package) != ".." && Component(filename) != ".."
    ensures forall p, f :: p != [] && f != [] && StoragePath(p, f) == StoragePath(package, filename) ==> p == package && f == filename
  {
    BrowserPypi.StoragePathShape(StorageDir, package, filename);
    ComponentIsSafe(package);
    ComponentIsSafe(filename);
    forall p, f | p != [] && f != [] && StoragePath(p, f) == StoragePath(package, filename)
      ensures p == package && f == filename
    {
      StoragePathInjective(StorageDir, p, f, package, filename);
    }
  }

  /**
   * As written, `from_path` decodes with the standard alphabet: a cached
   * "ab~.whl" is rejected as invalid base64 although the URL-safe decoding
   * recovers the wheel it is.
   */
  lemma FromPathAsWrittenRejectsStoredWheel(package: string)
    ensures ViewPackaging.FromPathAsWritten(StoragePath(package, "ab~.whl")) == Err(BrowserPackaging.InvalidBase64)
    ensures ViewPackaging.FromPath(StoragePath(package, "ab~.whl")) ==
      Ok(ViewPackaging.Package(ViewPackaging.Wheel, ViewPackaging.ZipFile, StoragePath(package, "ab~.whl")))
  {
    BrowserPypi.FromPathAsWrittenRejectsStoredWheel(StorageDir, package);
    FromPathOfStoragePath(StorageDir, package, "ab~.whl");
    assert EndsWith("ab~.whl", ".whl");
  }

  /** With the URL-safe decoding, a stored file is classified by the name it was stored under. */
  lemma FromPathOfStored(package: string, filename: string)
    ensures var r := ViewPackaging.FromPath(StoragePath(package, filename));
      && (r.Ok? <==> ViewPackaging.Classify(filename).Some?)
      && (r.Ok? ==> ViewPackaging.Classify(filename) == Some((r.value.packageType, r.value.packageFormat))
                    && r.value.path == StoragePath(package, filename))
      && (r.Err? ==> r.error == BrowserPackaging.UnsupportedPackageType(filename))
  {
    FromPathOfStoragePath(StorageDir, package, filename);
  }

  /**
   * The URL the JSON document gives `filename`: the error `package_metadata`
   * raised, or the first matching file's URL over the values of the
   * `releases` dict, None when none of them lists the name.
   */
  function UrlOf(metadata: Result<seq<Release>, PypiError>, filename: string): (r: Result<Option<string>, PypiError>)
    ensures metadata.Err? <==> r.Err?
    ensures metadata.Ok? ==> r.value == FirstMatch(Flatten(ReleaseValues(metadata.value)), filename)
  {
    match metadata
    case Err(e) => Err(e)
    case Ok(releases) => Ok(FirstMatch(Flatten(ReleaseValues(releases)), filename))
  }

  /** A version of the document's version map is one of the dict's values' version map, with the same files. */
  lemma VersionOfValues(releases: seq<Release>, v: string)
    requires v in VersionMap(releases)
    ensures v in VersionMap(ReleaseValues(releases)) && VersionMap(ReleaseValues(releases))[v] == VersionMap(releases)[v]
  {
    var values := ReleaseValues(releases);
    VersionMapSpec(releases);
    var j :| 0 <= j < |releases| && releases[j].version == v && IsLastVersion(releases, j)
      && VersionMap(releases)[v] == FileNames(releases[j].files);
    ReleaseValuesHaveLast(releases, j);
    var i :| 0 <= i < |values| && values[i] == releases[j];
    ReleaseValuesDistinctVersions(releases);
    VersionMapDistinct(values, i);
  }

  /** A version of the values' version map is a version of the document's. */
  lemma VersionFromValues(releases: seq<Release>, v: string)
    requires v in VersionMap(ReleaseValues(releases))
    ensures v in VersionMap(releases)
  {
    var values := ReleaseValues(releases);
    VersionMapSpec(values);
    var i :| 0 <= i < |values| && values[i].version == v && IsLastVersion(values, i)
      && VersionMap(values)[v] == FileNames(values[i].files);
    ReleaseValuesAreLast(releases, values[i]);
    var j :| 0 <= j < |releases| && releases[j] == values[i] && IsLastVersion(releases, j);
    VersionMapSpec(releases);
  }

  /** The version map read off the dict's values is the version map of the document. */
  lemma VersionMapOfValues(releases: seq<Release>)
    ensures VersionMap(ReleaseValues(releases)) == VersionMap(releases)
  {
    var m, m' := VersionMap(releases), VersionMap(ReleaseValues(releases));
    forall v | v in m
      ensures v in m' && m'[v] == m[v]
    {
      VersionOfValues(releases, v);
    }
    forall v | v in m'
      ensures v in m
    {
      VersionFromValues(releases, v);
    }
  }

  /**
   * A version that repeats in the document keeps only its last release, so
   * a file listed only by the release it replaced is not found.
   */
  lemma RepeatedVersionShadows()
    ensures UrlOf(Ok([Release("1.0", [FileRecord("x.whl", "A")]), Release("1.0", [])]), "x.whl") == Ok(None)
  {
    var releases := [Release("1.0", [FileRecord("x.whl", "A")]), Release("1.0", [])];
    var first, second := releases[0], releases[1];
    assert releases[..1] == [first] && [first][..0] == [];
    assert ReleaseValues([first]) == [first];
    assert SetRelease([first], second) == [second];
    assert Flatten(ReleaseValues(releases)) == [];
  }

  /** The package page of that document shows version "1.0" with no files. */
  lemma RepeatedVersionMap()
    ensures VersionMap([Release("1.0", [FileRecord("x.whl", "A")]), Release("1.0", [])]) == map["1.0" := {}]
  {
    var releases := [Release("1.0", [FileRecord("x.whl", "A")]), Release("1.0", [])];
    var pairs := VersionPairs(releases);
    assert pairs[1] == ("1.0", {}) && IsLastKey(pairs, 1);
  }

  /** A file the search finds is listed under some version of the version map. */
  lemma FoundIsListed(values: seq<Release>, filename: string)
    requires DistinctVersions(values)
    requires FirstMatch(Flatten(values), filename).Some?
    ensures exists v :: v in VersionMap(values) && filename in VersionMap(values)[v]
  {
    FirstMatchSpec(Flatten(values), filename);
    var f :| 0 <= f < |Flatten(values)| && Flatten(values)[f].filename == filename;
    FlattenFileFrom(values, f);
    var i, k :| 0 <= i < |values| && 0 <= k < |values[i].files| && values[i].files[k] == Flatten(values)[f];
    VersionMapDistinct(values, i);
    assert filename in FileNames(values[i].files);
  }

  /** A file listed under a version of the version map is found by the search. */
  lemma ListedIsFound(values: seq<Release>, filename: string, v: string)
    requires v in VersionMap(values) && filename in VersionMap(values)[v]
    ensures FirstMatch(Flatten(values), filename).Some?
  {
    VersionMapSpec(values);
    var i :| 0 <= i < |values| && values[i].version == v && IsLastVersion(values, i) && VersionMap(values)[v] == FileNames(values[i].files);
    var k :| 0 <= k < |values[i].files| && values[i].files[k].filename == filename;
    FlattenHasFile(values, i, k);
    var f :| 0 <= f < |Flatten(values)| && Flatten(values)[f] == values[i].files[k];
    FirstMatchSpec(Flatten(values), filename);
  }

  /**
   * The download finds a file exactly when the package page lists it: the
   * name is among the files of some version of the version map.
   */
  lemma FoundIffListed(releases: seq<Release>, filename: string)
    ensures FirstMatch(Flatten(ReleaseValues(releases)), filename).Some? <==>
      exists v :: v in VersionMap(releases) && filename in VersionMap(releases)[v]
  {
    var values := ReleaseValues(releases);
    ReleaseValuesDistinctVersions(releases);
    VersionMapOfValues(releases);
    if FirstMatch(Flatten(values), filename).Some? {
      FoundIsListed(values, filename);
    }
    if exists v :: v in VersionMap(releases) && filename in VersionMap(releases)[v] {
      var v :| v in VersionMap(values) && filename in VersionMap(values)[v];
      ListedIsFound(values, filename, v);
    }
  }

  /**
   * What fetching a file into the cache does, given the JSON document `resp`
   * the index serves: the document is requested first, then the file is
   * fetched from the first matching URL as `IsFetchOf` says.
   */
  ghost predicate IsViewFetch(package: string, filename: string, stored: string, resp: Response,
                              files0: map<string, seq<byte>>, dirs0: set<string>, requests0: seq<string>,
                              downloads: string -> Download,
                              r: Result<string, PypiError>, files: map<string, seq<byte>>, dirs: set<string>, requests: seq<string>)
  {
    exists metadata :: (IsPackageMetadata(resp, package, metadata)
                        && IsFetchOf(package, filename, stored, UrlOf(metadata, filename),
                                     files0, dirs0, requests0 + [MetadataUrl(package)], downloads, r, files, dirs, requests))
  }

  /**
   * A fetch answers PackageDoesNotExist exactly for a 404 and the status
   * error for any other failed status, with nothing written; a name no
   * release lists fails with CannotFindFile; when the document lists it, the
   * first matching URL is downloaded and the fetch succeeds exactly when
   * that download does.
   */
  lemma ViewFetchOutcome(package: string, filename: string, stored: string, resp: Response,
                         files0: map<string, seq<byte>>, dirs0: set<string>, requests0: seq<string>,
                         downloads: string -> Download,
                         r: Result<string, PypiError>, files: map<string, seq<byte>>, dirs: set<string>, requests: seq<string>)
    requires IsViewFetch(package, filename, stored, resp, files0, dirs0, requests0, downloads, r, files, dirs, requests)
    ensures resp.status == 404 <==> r == Err(PackageDoesNotExist(package))
    ensures resp.status != 404 && !IsSuccess(resp.status) ==> r == Err(HttpStatusError(resp.status))
    ensures !(IsSuccess(resp.status) && resp.body.ReleaseIndex?) ==> files == files0 && dirs == dirs0
    ensures IsSuccess(resp.status) && resp.body.ReleaseIndex? ==>
      var url := FirstMatch(Flatten(ReleaseValues(resp.body.releases)), filename);
      && (url.None? <==> r == Err(CannotFindFile(package, filename)))
      && (url.Some? ==> requests == requests0 + [MetadataUrl(package), url.value]
                        && (r.Ok? <==> IsSuccess(downloads(url.value).status) && downloads(url.value).completes)
                        && (r.Ok? ==> r.value == stored && files == files0[stored := Concat(downloads(url.value).chunks)]))
    ensures r.Err? ==> files == files0
  {
    var metadata :| IsPackageMetadata(resp, package, metadata)
      && IsFetchOf(package, filename, stored, UrlOf(metadata, filename),
                   files0, dirs0, requests0 + [MetadataUrl(package)], downloads, r, files, dirs, requests);
    if IsSuccess(resp.status) && resp.body.ReleaseIndex? {
      assert UrlOf(metadata, filename) == Ok(FirstMatch(Flatten(ReleaseValues(resp.body.releases)), filename));
    } else {
      assert UrlOf(metadata, filename).Err?;
    }
  }

  /**
   * `downloaded_file_path(package, filename)`: a path that exists is
   * returned at once without asking the index; otherwise the file is
   * fetched into the cache. `tmp` is the fresh name the temporary file gets.
   */
  method DownloadedFilePath(fs: FileSystem, net: Network, package: string, filename: string, tmp: string)
    returns (r: Result<string, PypiError>)
    requires tmp !in fs.files && tmp != StoragePath(package, filename)
    modifies fs, net
    ensures old(fs.Exists(StoragePath(package, filename))) ==>
      r == Ok(StoragePath(package, filename)) && fs.files == old(fs.files) && fs.dirs == old(fs.dirs)
      && net.requests == old(net.requests)
    ensures !old(fs.Exists(StoragePath(package, filename))) ==>
      IsViewFetch(package, filename, StoragePath(package, filename), net.pages(MetadataUrl(package)),
                  old(fs.files), old(fs.dirs), old(net.requests), net.downloads, r, fs.files, fs.dirs, net.requests)
  {
    var stored := StoragePath(package, filename);
    if fs.Exists(stored) {
      return Ok(stored);
    }
    r := Fetch(fs, net, package, filename, stored, tmp);
  }

  /** The part of `downloaded_file_path` after the cache missed. */
  method Fetch(fs: FileSystem, net: Network, package: string, filename: string, stored: string, tmp: string)
    returns (r: Result<string, PypiError>)
    requires tmp !in fs.files && tmp != stored
    modifies fs, net
    ensures IsViewFetch(package, filename, stored, net.pages(MetadataUrl(package)),
                        old(fs.files), old(fs.dirs), old(net.requests), net.downloads, r, fs.files, fs.dirs, net.requests)
  {
    var metadata := PackageMetadata(net, package);
    var found: Result<Option<string>, PypiError>;
    if metadata.Err? {
      found := Err(metadata.error);
    } else {
      var url := FindFileUrl(Flatten(ReleaseValues(metadata.value)), filename);
      found := Ok(url);
    }
    assert found == UrlOf(metadata, filename);
    r := FetchFound(fs, net, package, filename, stored, found, tmp);
  }
}
