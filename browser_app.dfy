/**
 * pypi_browser/app.py: the request rules of the web front end. Starlette,
 * the templates and the libraries the handlers consult are not modelled;
 * what they decide is given as inputs (`mimetypes.guess_type` as `mimetype`,
 * `identify.is_text` as `isText`, the `raw` query parameter as `raw`, the
 * archive libraries' reading of a file as `parse`). What is modelled is the
 * order in which a handler consults them and what it answers.
 */
module BrowserApp {
  import opened Wrappers
  import opened PyLib
  import opened Archive
  import opened Files
  import opened Http
  import opened BrowserPackaging
  import opened BrowserPypi

  const OneKb := 1024
  const OneMb := 1048576
  const OneGb := 1073741824

  /** TEXT_RENDER_FILESIZE_LIMIT when the environment does not set it; handlers take the limit as a parameter. */
  const DefaultTextRenderLimit := OneMb

  /** How many bytes `transfer_file` asks for per read. */
  const RawChunkSize := 1024

  // ---------------------------------------------------------------------
  // Template filters: _pluralize and _human_size.
  // ---------------------------------------------------------------------

  function Pluralize(n: int): (r: string)
    ensures r == "" <==> n == 1
    ensures r != "" ==> r == "s"
  {
    if n == 1 then "" else "s"
  }

  datatype SizeUnit = KiB | MiB | GiB

  function UnitBytes(u: SizeUnit): int {
    match u
    case KiB => OneKb
    case MiB => OneMb
    case GiB => OneGb
  }

  /**
   * What `_human_size` prints: a size in a binary unit (printed as
   * `size / unit` to one decimal place), or the exact byte count.
   */
  datatype SizeLabel = Scaled(size: int, unit: SizeUnit) | Exact(text: string)

  /**
   * `_human_size(size)`: the largest unit not above the size, so the printed
   * number is at least 1 and, below GiB, less than 1024; below one KiB the
   * exact count with "byte" or "bytes".
   */
  function HumanSize(size: int): (r: SizeLabel)
    ensures r.Scaled? <==> size >= OneKb
    ensures r.Scaled? ==> r.size == size && UnitBytes(r.unit) <= size
    ensures r.Scaled? && r.unit != GiB ==> size < 1024 * UnitBytes(r.unit)
    ensures r.Exact? ==> r.text == IntToDecimal(size) + (if size == 1 then " byte" else " bytes")
  {
    if size >= OneGb then Scaled(size, GiB)
    else if size >= OneMb then Scaled(size, MiB)
    else if size >= OneKb then Scaled(size, KiB)
    else Exact(IntToDecimal(size) + " byte" + Pluralize(size))
  }

  // ---------------------------------------------------------------------
  // Redirect to the normalised package name.
  // ---------------------------------------------------------------------

  /** The three routes that carry a package name. */
  datatype Route =
    | PackageRoute(package: string)
    | PackageFileRoute(package: string, filename: string)
    | ArchivePathRoute(package: string, filename: string, archivePath: string)

  /** The route a handler redirects to, if any: the same route under the normalised name. */
  function RedirectFor(route: Route): (r: Option<Route>)
    ensures r.Some? <==> !IsNormalized(route.package)
    ensures r.Some? ==> r.value == route.(package := Normalize(route.package))
  {
    NormalizeFixedPoint(route.package);
    if route.package == Normalize(route.package) then None
    else Some(route.(package := Normalize(route.package)))
  }

  /** Following a redirect never leads to another one. */
  lemma RedirectTargetIsFinal(route: Route)
    requires RedirectFor(route).Some?
    ensures RedirectFor(RedirectFor(route).value).None?
  {
    NormalizeIdempotent(route.package);
  }

  // ---------------------------------------------------------------------
  // The metadata entry.
  // ---------------------------------------------------------------------

  const DistInfoMetadata := ".dist-info/METADATA"
  const PkgInfo := "/PKG-INFO"

  /** What `[^/]+` matches: a non-empty run without `/` (a newline is allowed). */
  predicate IsComponent(d: string) {
    d != [] && '/' !in d
  }

  /** `s` is a component followed by `suffix`. */
  predicate ComponentThen(s: string, suffix: string) {
    EndsWith(s, suffix) && IsComponent(s[..|s| - |suffix|])
  }

  /** The part before `$` of `(?:[^/]+\.dist-info/METADATA|^[^/]+/PKG-INFO)$`, matched from the start. */
  predicate MatchesMetadataBody(s: string) {
    ComponentThen(s, DistInfoMetadata) || ComponentThen(s, PkgInfo)
  }

  /**
   * `re.match` of the metadata pattern: `$` matches at the end of the path
   * or just before a newline that ends it.
   */
  predicate IsMetadataPath(path: string) {
    MatchesMetadataBody(path) || (EndsWith(path, "\n") && MatchesMetadataBody(path[..|path| - 1]))
  }

  /** One of the four forms the metadata pattern accepts, for the component `d`. */
  predicate IsMetadataForm(path: string, d: string) {
    IsComponent(d) &&
      (path == d + DistInfoMetadata || path == d + PkgInfo ||
       path == d + DistInfoMetadata + "\n" || path == d + PkgInfo + "\n")
  }

  /**
   * A metadata path is `D.dist-info/METADATA` or `D/PKG-INFO`, possibly
   * followed by one newline, where `D` is one non-empty component.
   */
  lemma MetadataPathShape(path: string)
    ensures IsMetadataPath(path) <==> exists d :: IsMetadataForm(path, d)
  {
    if IsMetadataPath(path) {
      var d := MetadataComponent(path);
    }
    if exists d :: IsMetadataForm(path, d) {
      var d :| IsMetadataForm(path, d);
      MetadataFormMatches(path, d);
    }
  }

  /** The component of a metadata path. */
  lemma MetadataComponent(path: string) returns (d: string)
    requires IsMetadataPath(path)
    ensures IsMetadataForm(path, d)
  {
    if MatchesMetadataBody(path) {
      var suffix := if ComponentThen(path, DistInfoMetadata) then DistInfoMetadata else PkgInfo;
      d := path[..|path| - |suffix|];
      assert path == d + suffix;
    } else {
      var q := path[..|path| - 1];
      assert path == q + "\n";
      var suffix := if ComponentThen(q, DistInfoMetadata) then DistInfoMetadata else PkgInfo;
      d := q[..|q| - |suffix|];
      assert q == d + suffix;
    }
  }

  lemma MetadataFormMatches(path: string, d: string)
    requires IsMetadataForm(path, d)
    ensures IsMetadataPath(path)
  {
    if path == d + DistInfoMetadata || path == d + PkgInfo {
      var suffix := if path == d + DistInfoMetadata then DistInfoMetadata else PkgInfo;
      assert path[..|path| - |suffix|] == d;
      assert path[|path| - |suffix|..] == suffix;
      assert ComponentThen(path, suffix);
    } else {
      var suffix := if path == d + DistInfoMetadata + "\n" then DistInfoMetadata else PkgInfo;
      var q := d + suffix;
      assert path == q + "\n";
      assert path[..|path| - 1] == q;
      assert q[..|q| - |suffix|] == d;
      assert q[|q| - |suffix|..] == suffix;
      assert ComponentThen(q, suffix);
      assert path[|path| - 1..] == "\n";
    }
  }

  /** An entry the metadata filter keeps. */
  predicate IsMetadataCandidate(e: PackageEntry, limit: int) {
    IsMetadataPath(e.path) && e.size <= limit
  }

  /**
   * `metadata_entries[0].path`: the path of some candidate (the first in the
   * set's iteration order), or None when there is none. Both versions of the
   * handler use it, with their own entries and candidate filter.
   */
  method SelectMetadata<E>(entries: set<E>, isCandidate: E -> bool, pathOf: E -> string) returns (path: Option<string>)
    ensures path.None? <==> forall e :: e in entries ==> !isCandidate(e)
    ensures path.Some? ==> exists e :: e in entries && isCandidate(e) && pathOf(e) == path.value
  {
    var candidates := set e | e in entries && isCandidate(e);
    if candidates == {} {
      forall e | e in entries
        ensures !isCandidate(e)
      {
        assert e !in candidates;
      }
      return None;
    }
    var e :| e in candidates;
    path := Some(pathOf(e));
  }

  /**
   * `matching_entries[0]`: some entry with the requested path, or None when
   * there is none. Both versions of the handler use it.
   */
  method FindEntry<E>(entries: set<E>, pathOf: E -> string, archivePath: string) returns (entry: Option<E>)
    ensures entry.None? <==> forall e :: e in entries ==> pathOf(e) != archivePath
    ensures entry.Some? ==> entry.value in entries && pathOf(entry.value) == archivePath
  {
    var matching := set e | e in entries && pathOf(e) == archivePath;
    if matching == {} {
      forall e | e in entries
        ensures pathOf(e) != archivePath
      {
        assert e !in matching;
      }
      return None;
    }
    var e :| e in matching;
    entry := Some(e);
  }

  // ---------------------------------------------------------------------
  // The media type of a raw transfer.
  // ---------------------------------------------------------------------

  /** Media types that may be served as detected. */
  const MimeWhitelist: seq<string> := [
    "application/javascript",
    "application/json",
    "application/pdf",
    "application/x-ruby",
    "audio/",
    "image/",
    "text/css",
    "text/plain",
    "text/x-python",
    "text/x-sh",
    "video/"
  ]

  /** `mimetype if (mimetype or '').startswith(MIME_WHITELIST) else None`. */
  function MediaType(mimetype: Option<string>): (r: Option<string>)
    ensures r.Some? <==> mimetype.Some? && StartsWithAny(mimetype.value, MimeWhitelist)
    ensures r.Some? ==> r == mimetype
  {
    if mimetype.Some? && StartsWithAny(mimetype.value, MimeWhitelist) then mimetype else None
  }

  /** Two strings that differ at position `k` are not prefixes of one another. */
  lemma DifferAt(a: string, b: string, k: nat)
    requires k < |a| && k < |b| && a[k] != b[k]
    ensures !StartsWith(a, b) && !StartsWith(b, a)
  {
  }

  /** A position where `p` differs from each listed prefix in turn. */
  lemma UnrelatedAt(p: string, split: seq<nat>)
    requires |split| == |MimeWhitelist|
    requires forall i :: 0 <= i < |split| ==> split[i] < |p| && split[i] < |MimeWhitelist[i]| && p[split[i]] != MimeWhitelist[i][split[i]]
    ensures forall m :: StartsWith(m, p) ==> MediaType(Some(m)).None?
  {
    forall i | 0 <= i < |MimeWhitelist|
      ensures !StartsWith(p, MimeWhitelist[i]) && !StartsWith(MimeWhitelist[i], p)
    {
      DifferAt(p, MimeWhitelist[i], split[i]);
    }
    UnrelatedToWhitelist(p);
  }

  /** No listed prefix and `p` are prefixes of one another. */
  lemma UnrelatedToWhitelist(p: string)
    requires forall i :: 0 <= i < |MimeWhitelist| ==> !StartsWith(p, MimeWhitelist[i]) && !StartsWith(MimeWhitelist[i], p)
    ensures forall m :: StartsWith(m, p) ==> MediaType(Some(m)).None?
  {
    forall m | StartsWith(m, p)
      ensures !StartsWithAny(m, MimeWhitelist)
    {
      forall i | 0 <= i < |MimeWhitelist|
        ensures !StartsWith(m, MimeWhitelist[i])
      {
        if StartsWith(m, MimeWhitelist[i]) {
          if |p| <= |MimeWhitelist[i]| {
            StartsWithBoth(m, p, MimeWhitelist[i]);
          } else {
            StartsWithBoth(m, MimeWhitelist[i], p);
          }
        }
      }
    }
  }

  /** Markup that a browser would run is never served with its own media type. */
  lemma MarkupNeverServed(m: string)
    requires StartsWith(m, "text/html") || StartsWith(m, "application/xhtml")
    ensures MediaType(Some(m)).None?
  {
    UnrelatedAt("text/html", [0, 0, 0, 0, 0, 0, 5, 5, 5, 5, 0]);
    UnrelatedAt("application/xhtml", [12, 12, 12, 13, 1, 0, 0, 0, 0, 0, 0]);
  }

  // ---------------------------------------------------------------------
  // transfer_file: the raw body, read 1024 bytes at a time.
  // ---------------------------------------------------------------------

  /** The successive reads of `n` bytes from position `pos` that use up `data`. */
  function ChunksFrom(data: seq<byte>, pos: nat, n: nat): seq<seq<byte>>
    requires n > 0 && pos <= |data|
    decreases |data| - pos
  {
    if pos == |data| then []
    else
      var e := ReadEnd(data, pos, Some(n));
      [data[pos..e]] + ChunksFrom(data, e, n)
  }

  /** The chunks put back together give the data from `pos` on. */
  lemma {:induction false} ChunksFromConcat(data: seq<byte>, pos: nat, n: nat)
    requires n > 0 && pos <= |data|
    ensures Concat(ChunksFrom(data, pos, n)) == data[pos..]
    decreases |data| - pos
  {
    if pos < |data| {
      var e := ReadEnd(data, pos, Some(n));
      ChunksFromConcat(data, e, n);
      ConcatPrepend(data[pos..e], ChunksFrom(data, e, n));
      assert data[pos..e] + data[e..] == data[pos..];
    }
  }

  /** Every chunk holds between 1 and `n` bytes, and all but the last exactly `n`. */
  lemma {:induction false} ChunksFromSizes(data: seq<byte>, pos: nat, n: nat)
    requires n > 0 && pos <= |data|
    ensures var cs := ChunksFrom(data, pos, n);
      forall i :: 0 <= i < |cs| ==> 0 < |cs[i]| <= n && (i < |cs| - 1 ==> |cs[i]| == n)
    decreases |data| - pos
  {
    if pos < |data| {
      var e := ReadEnd(data, pos, Some(n));
      ChunksFromSizes(data, e, n);
      var cs := ChunksFrom(data, pos, n);
      assert cs == [data[pos..e]] + ChunksFrom(data, e, n);
      forall i | 0 < i < |cs|
        ensures cs[i] == ChunksFrom(data, e, n)[i - 1]
      {
      }
      if e - pos < n {
        assert ChunksFrom(data, e, n) == [];
      }
    }
  }

  /**
   * `transfer_file`: inside `open_from_archive`, read 1024 bytes at a time
   * and yield each read, the final empty one included, then leave the
   * context. A member without a stream fails at the first read.
   */
  method TransferFile(s: ArchiveSession, pkg: Package, file: ArchiveFile, path: string)
    returns (chunks: seq<seq<byte>>, r: Outcome<ArchiveError>)
    requires s.Valid() && !s.archiveOpen && s.member == NoMember
    modifies s
    ensures s.Valid()
    ensures r.Pass? <==> Opens(file, LibraryOf(pkg.packageFormat)) && LookupMember(file, path).Some? && LookupMember(file, path).value.Stream?
    ensures r.Pass? ==> chunks == ChunksFrom(LookupMember(file, path).value.data, 0, RawChunkSize) + [[]]
    ensures r.Pass? ==> !s.archiveOpen && s.events == old(s.events) + [ArchiveOpened, MemberOpened, MemberClosed, ArchiveClosed]
    ensures r.Fail? ==> chunks == []
    ensures !Opens(file, LibraryOf(pkg.packageFormat)) ==> r == Fail(BadArchive) && s.events == old(s.events)
    ensures Opens(file, LibraryOf(pkg.packageFormat)) && LookupMember(file, path).None? ==>
      r == Fail(NoSuchMember(path)) && s.events == old(s.events) + [ArchiveOpened]
    ensures Opens(file, LibraryOf(pkg.packageFormat)) && LookupMember(file, path) == Some(NoStream) ==>
      r == Fail(NoFileObject) && !s.archiveOpen && s.events == old(s.events) + [ArchiveOpened, ArchiveClosed]
  {
    chunks := [];
    r := EnterArchive(s, pkg, file, path);
    if r.Fail? {
      return;
    }
    if s.member.NoStream? {
      var got := s.Read(Some(RawChunkSize));
      var closed := ExitArchive(s);
      return [], Fail(got.error);
    }
    chunks := ReadAllChunks(s);
    r := ExitArchive(s);
  }

  /** The `while data is None or len(data) > 0` loop over an open member stream. */
  method ReadAllChunks(s: ArchiveSession) returns (chunks: seq<seq<byte>>)
    requires s.Valid() && s.member.Stream? && s.pos == 0
    modifies s`pos
    ensures s.Valid() && s.pos == |s.member.data|
    ensures chunks == ChunksFrom(s.member.data, 0, RawChunkSize) + [[]]
  {
    var d := s.member.data;
    chunks := [];
    var data: Option<seq<byte>> := None;
    while data.None? || |data.value| > 0
      invariant s.Valid() && s.member == Stream(d)
      invariant data.None? ==> s.pos == 0 && chunks == []
      invariant data.None? || |data.value| > 0 ==> chunks + ChunksFrom(d, s.pos, RawChunkSize) == ChunksFrom(d, 0, RawChunkSize)
      invariant data.Some? && |data.value| == 0 ==> s.pos == |d| && chunks == ChunksFrom(d, 0, RawChunkSize) + [[]]
      decreases |d| - s.pos, if data.None? || |data.value| > 0 then 1 else 0
    {
      var got := s.Read(Some(RawChunkSize));
      data := Some(got.value);
      chunks := chunks + [got.value];
    }
  }

  /** The raw body puts the member back together exactly. */
  lemma TransferredBody(data: seq<byte>)
    ensures Concat(ChunksFrom(data, 0, RawChunkSize) + [[]]) == data
  {
    ConcatAppend(ChunksFrom(data, 0, RawChunkSize), []);
    ChunksFromConcat(data, 0, RawChunkSize);
  }

  /**
   * `async with package.open_from_archive(path) as f: data = await f.read(n)`:
   * one read from the start of the member, inside the context.
   */
  method ReadMember(s: ArchiveSession, pkg: Package, file: ArchiveFile, path: string, n: Option<int>)
    returns (r: Result<seq<byte>, ArchiveError>)
    requires s.Valid() && !s.archiveOpen && s.member == NoMember
    modifies s
    ensures s.Valid()
    ensures r.Ok? <==> Opens(file, LibraryOf(pkg.packageFormat)) && LookupMember(file, path).Some? && LookupMember(file, path).value.Stream?
    ensures r.Ok? ==> var d := LookupMember(file, path).value.data;
      r.value == d[..ReadEnd(d, 0, n)] && !s.archiveOpen
      && s.events == old(s.events) + [ArchiveOpened, MemberOpened, MemberClosed, ArchiveClosed]
  {
    var entered := EnterArchive(s, pkg, file, path);
    if entered.Fail? {
      return Err(entered.error);
    }
    r := s.Read(n);
    var closed := ExitArchive(s);
  }

  // ---------------------------------------------------------------------
  // Which view of an entry to render.
  // ---------------------------------------------------------------------

  /** Case 1, 2 or 3 of the entry page. */
  datatype View = Highlighted(text: seq<byte>) | TooLong | Binary

  /**
   * The entry page: the first `limit` bytes are read and judged; text no
   * longer than the limit is highlighted, longer text is refused, anything
   * else is treated as binary.
   */
  method ViewEntry(s: ArchiveSession, pkg: Package, file: ArchiveFile, entry: PackageEntry,
                   isText: seq<byte> -> bool, limit: int) returns (r: Result<View, ArchiveError>)
    requires s.Valid() && !s.archiveOpen && s.member == NoMember
    modifies s
    ensures s.Valid()
    ensures r.Ok? <==> Opens(file, LibraryOf(pkg.packageFormat)) && LookupMember(file, entry.path).Some? && LookupMember(file, entry.path).value.Stream?
    ensures r.Ok? ==> var d := LookupMember(file, entry.path).value.data;
      var first := d[..ReadEnd(d, 0, Some(limit))];
      && (r.value.Highlighted? <==> isText(first) && entry.size <= limit)
      && (r.value.TooLong? <==> isText(first) && entry.size > limit)
      && (r.value.Binary? <==> !isText(first))
      && (r.value.Highlighted? ==> r.value.text == first)
      && (r.value.Highlighted? && entry.size == |d| ==> r.value.text == d)
  {
    var first := ReadMember(s, pkg, file, entry.path, Some(limit));
    if first.Err? {
      return Err(first.error);
    }
    if isText(first.value) {
      if entry.size <= limit {
        r := Ok(Highlighted(first.value));
      } else {
        r := Ok(TooLong);
      }
    } else {
      r := Ok(Binary);
    }
  }

  // ---------------------------------------------------------------------
  // The handlers.
  // ---------------------------------------------------------------------

  /** Why a handler answers 404. */
  datatype Missing = NoSuchPackage(package: string) | NoSuchFile(package: string, filename: string) | NoSuchPath(path: string)

  datatype Response =
    | Redirect(to: Route)
    | NotFound(missing: Missing)
    | NotSupported      // 501 with PACKAGE_TYPE_NOT_SUPPORTED_ERROR
    | InternalError     // an exception no handler catches
    | FileListing(isTarball: bool, entries: set<PackageEntry>, metadataPath: Option<string>, metadata: seq<byte>)
    | EntryPage(isTarball: bool, entry: PackageEntry, size: SizeLabel, mimetype: Option<string>, view: View)
    | Raw(mediaType: Option<string>, contentLength: string, body: seq<seq<byte>>, completes: bool)

  /** What the archive libraries make of `path`; a directory or a missing file is no archive. */
  function ArchiveAt(files: map<string, seq<byte>>, path: string, parse: seq<byte> -> ArchiveFile): ArchiveFile {
    if path in files then parse(files[path]) else NotAnArchive
  }

  /** The 404 and 501 answers, and the 500 of an exception no handler catches. */
  predicate IsLoadFailure(resp: Response, package: string, filename: string) {
    resp == NotFound(NoSuchPackage(package)) || resp == NotFound(NoSuchFile(package, filename))
    || resp == NotSupported || resp == InternalError
  }

  /**
   * What loading answers after a cache miss, `found` being what looking the
   * file up gave: 404 for a package the index does not know or a file it
   * does not list; 500 for any other error of the lookup or a download that
   * fails; after a complete download, the package exactly when the name is
   * classified, 501 otherwise.
   */
  ghost predicate IsLoadAfter(package: string, filename: string, found: Result<Option<string>, PypiError>,
                              downloads: string -> Download, r: Result<Package, Response>) {
    match found
    case Err(e) => r == Err(if e.PackageDoesNotExist? then NotFound(NoSuchPackage(package)) else InternalError)
    case Ok(None) => r == Err(NotFound(NoSuchFile(package, filename)))
    case Ok(Some(url)) =>
      if IsSuccess(downloads(url).status) && downloads(url).completes then
        (r.Ok? <==> Classify(filename).Some?) && (r.Err? ==> r.error == NotSupported)
      else
        r == Err(InternalError)
  }

  /**
   * What the loading both file handlers share answers: a package is stored
   * at the storage path and classified by the file name; a cached file is
   * only classified (501 for an unsupported name); otherwise the answer
   * follows the index's mapping as `IsLoadAfter` says.
   */
  ghost predicate IsLoad(config: PyPIConfig, package: string, filename: string, cached: bool,
                         pages: string -> Http.Response, downloads: string -> Download, r: Result<Package, Response>) {
    && (r.Ok? ==> r.value.path == StoragePath(config.cachePath, package, filename)
                  && Classify(filename) == Some((r.value.packageType, r.value.packageFormat)))
    && (cached ==> (r.Ok? <==> Classify(filename).Some?) && (r.Err? ==> r.error == NotSupported))
    && (!cached ==> exists index :: (IsFilesForPackage(config.repo, pages(IndexUrl(config.repo, package)), package, index)
                                     && IsLoadAfter(package, filename, UrlIn(index, filename), downloads, r)))
  }

  /**
   * Loading answers 404 for the package exactly when the file is not cached
   * and the index answers 404, and 501 only for a name that is not
   * classified.
   */
  lemma LoadNotFound(config: PyPIConfig, package: string, filename: string, cached: bool,
                     pages: string -> Http.Response, downloads: string -> Download, r: Result<Package, Response>)
    requires IsLoad(config, package, filename, cached, pages, downloads, r)
    ensures r == Err(NotFound(NoSuchPackage(package))) <==> !cached && pages(IndexUrl(config.repo, package)).status == 404
    ensures r == Err(NotSupported) ==> Classify(filename).None?
    ensures r.Err? ==> IsLoadFailure(r.error, package, filename)
  {
    if !cached {
      var index :| IsFilesForPackage(config.repo, pages(IndexUrl(config.repo, package)), package, index)
        && IsLoadAfter(package, filename, UrlIn(index, filename), downloads, r);
      FilesForPackageErrors(config.repo, pages(IndexUrl(config.repo, package)), package, index);
    }
  }

  /**
   * The part both file handlers share: download the file (404 for an unknown
   * package or file), then classify it (501 for an unsupported name); other
   * failures of the download propagate. The classification decodes the
   * stored name with the URL-safe alphabet it was encoded with, so it is
   * that of `filename` itself.
   */
  method LoadPackage(config: PyPIConfig, fs: FileSystem, net: Network, package: string, filename: string, tmp: string)
    returns (r: Result<Package, Response>)
    requires tmp !in fs.files && tmp != StoragePath(config.cachePath, package, filename)
    modifies fs, net
    ensures IsLoad(config, package, filename, old(fs.Exists(StoragePath(config.cachePath, package, filename))), net.pages, net.downloads, r)
    ensures r.Ok? ==> fs.Exists(r.value.path)
    ensures old(fs.Exists(StoragePath(config.cachePath, package, filename))) ==>
      fs.files == old(fs.files) && fs.dirs == old(fs.dirs) && net.requests == old(net.requests)
    ensures !old(fs.Exists(StoragePath(config.cachePath, package, filename))) ==>
      exists d :: IsFetch(config, net.pages, package, filename, StoragePath(config.cachePath, package, filename),
                          old(fs.files), old(fs.dirs), old(net.requests), net.downloads, d, fs.files, fs.dirs, net.requests)
  {
    var stored := StoragePath(config.cachePath, package, filename);
    ghost var cached := fs.Exists(stored);
    var downloaded := DownloadedFilePath(config, fs, net, package, filename, tmp);
    r := AnswerDownload(config, package, filename, downloaded);
    if !cached {
      ghost var index :| IsFilesForPackage(config.repo, net.pages(IndexUrl(config.repo, package)), package, index)
        && IsFetchOf(package, filename, stored, UrlIn(index, filename), old(fs.files), old(fs.dirs),
                     old(net.requests) + [IndexUrl(config.repo, package)], net.downloads, downloaded, fs.files, fs.dirs, net.requests);
      FilesForPackageErrors(config.repo, net.pages(IndexUrl(config.repo, package)), package, index);
      LoadAfterFetch(package, filename, stored, UrlIn(index, filename), old(fs.files), old(fs.dirs),
                     old(net.requests) + [IndexUrl(config.repo, package)], net.downloads, downloaded, fs.files, fs.dirs, net.requests, r);
    }
  }

  /** The 404 or 500 a handler answers for an error `downloaded_file_path` raised. */
  function DownloadError(package: string, filename: string, e: PypiError): (resp: Response)
    ensures resp == NotFound(NoSuchPackage(package)) <==> e.PackageDoesNotExist?
    ensures resp == NotFound(NoSuchFile(package, filename)) <==> e.CannotFindFile?
    ensures resp == InternalError <==> !e.PackageDoesNotExist? && !e.CannotFindFile?
  {
    match e
    case PackageDoesNotExist(_) => NotFound(NoSuchPackage(package))
    case CannotFindFile(_, _) => NotFound(NoSuchFile(package, filename))
    case _ => InternalError
  }

  /**
   * The two `try` blocks of a file handler on what `downloaded_file_path`
   * gave: its two 404s and, for any other error, the 500 of an exception
   * nobody catches; then `from_path` on the stored file, whose only error
   * is the 501 for a name that is not classified.
   */
  method AnswerDownload(config: PyPIConfig, package: string, filename: string, downloaded: Result<string, PypiError>)
    returns (r: Result<Package, Response>)
    requires downloaded.Ok? ==> downloaded.value == StoragePath(config.cachePath, package, filename)
    ensures downloaded.Err? ==> r == Err(DownloadError(package, filename, downloaded.error))
    ensures downloaded.Ok? ==> (r.Ok? <==> Classify(filename).Some?) && (r.Err? ==> r.error == NotSupported)
    ensures r.Ok? ==> r.value.path == StoragePath(config.cachePath, package, filename)
                      && Classify(filename) == Some((r.value.packageType, r.value.packageFormat))
  {
    if downloaded.Err? {
      return Err(DownloadError(package, filename, downloaded.error));
    }
    FromPathOfStoragePath(config.cachePath, package, filename);
    match FromPath(downloaded.value)
    case Err(_) => return Err(NotSupported);
    case Ok(pkg) => return Ok(pkg);
  }

  /** A fetch as `IsFetchOf` says, answered as `AnswerDownload` says, loads as `IsLoadAfter` says. */
  lemma LoadAfterFetch(package: string, filename: string, stored: string, found: Result<Option<string>, PypiError>,
                       files0: map<string, seq<byte>>, dirs0: set<string>, requests0: seq<string>, downloads: string -> Download,
                       d: Result<string, PypiError>, files: map<string, seq<byte>>, dirs: set<string>, requests: seq<string>,
                       r: Result<Package, Response>)
    requires IsFetchOf(package, filename, stored, found, files0, dirs0, requests0, downloads, d, files, dirs, requests)
    requires found.Err? ==> !found.error.CannotFindFile?
    requires d.Err? ==> r == Err(DownloadError(package, filename, d.error))
    requires d.Ok? ==> (r.Ok? <==> Classify(filename).Some?) && (r.Err? ==> r.error == NotSupported)
    ensures IsLoadAfter(package, filename, found, downloads, r)
  {
  }

  /** Whether the member at `path` opens as a readable stream. */
  predicate Streams(file: ArchiveFile, path: string) {
    LookupMember(file, path).Some? && LookupMember(file, path).value.Stream?
  }

  /**
   * What the listing part of `package_file` answers for a classified
   * package: the entries, and the metadata path with the bytes of that
   * member; a failure to list raises, and so does a chosen metadata member
   * that does not open as a stream.
   */
  ghost predicate IsListing(pkg: Package, file: ArchiveFile, limit: int, resp: Response) {
    if Entries(pkg, file).Err? then resp == InternalError
    else
      var entries := Entries(pkg, file).value;
      && (resp.FileListing? || resp == InternalError)
      && (resp == InternalError ==> exists e :: e in entries && IsMetadataCandidate(e, limit) && !Streams(file, e.path))
      && (resp.FileListing? ==>
            && resp.entries == entries
            && resp.isTarball == (pkg.packageFormat == Tarball)
            && (resp.metadataPath.None? <==> forall e :: e in entries ==> !IsMetadataCandidate(e, limit))
            && (resp.metadataPath.None? ==> resp.metadata == [])
            && (resp.metadataPath.Some? ==>
                  && (exists e :: e in entries && IsMetadataCandidate(e, limit) && e.path == resp.metadataPath.value)
                  && Streams(file, resp.metadataPath.value)
                  && resp.metadata == LookupMember(file, resp.metadataPath.value).value.data))
  }

  method ServeListing(s: ArchiveSession, pkg: Package, file: ArchiveFile, limit: int) returns (resp: Response)
    requires s.Valid() && !s.archiveOpen && s.member == NoMember
    modifies s
    ensures IsListing(pkg, file, limit, resp)
  {
    var entries := Entries(pkg, file);
    if entries.Err? {
      return InternalError;
    }
    var metadataPath := SelectMetadata(entries.value, e => IsMetadataCandidate(e, limit), (e: PackageEntry) => e.path);
    var metadata := [];
    if metadataPath.Some? {
      var read := ReadMember(s, pkg, file, metadataPath.value, None);
      if read.Err? {
        return InternalError;
      }
      metadata := read.value;
    }
    resp := FileListing(pkg.packageFormat == Tarball, entries.value, metadataPath, metadata);
  }

  /**
   * What the entry part of `package_file_archive_path` answers for a
   * classified package: 404 when no entry has the path; with `raw`, always
   * the streamed member, its 1024-byte reads under a whitelisted media type
   * and the entry's size as Content-Length, the stream completing exactly
   * when the member opens as one; otherwise the page with its view, or a
   * 500 when the member does not open as a stream.
   */
  ghost predicate IsEntryAnswer(pkg: Package, file: ArchiveFile, archivePath: string, raw: bool,
                                mimetype: Option<string>, isText: seq<byte> -> bool, limit: int, resp: Response) {
    if Entries(pkg, file).Err? then resp == InternalError
    else
      var entries := Entries(pkg, file).value;
      var present := exists e :: e in entries && e.path == archivePath;
      && (resp == NotFound(NoSuchPath(archivePath)) <==> !present)
      && (resp.Raw? <==> present && raw)
      && (resp == InternalError ==> present && !raw && !Streams(file, archivePath))
      && (resp == NotFound(NoSuchPath(archivePath)) || resp.Raw? || resp.EntryPage? || resp == InternalError)
      && (resp.Raw? ==>
            && resp.mediaType == MediaType(mimetype)
            && (exists e :: e in entries && e.path == archivePath && resp.contentLength == IntToDecimal(e.size))
            && (resp.completes <==> Streams(file, archivePath))
            && (resp.completes ==> Concat(resp.body) == LookupMember(file, archivePath).value.data)
            && (!resp.completes ==> resp.body == []))
      && (resp.EntryPage? ==>
            && !raw && resp.entry in entries && resp.entry.path == archivePath
            && resp.mimetype == mimetype && resp.size == HumanSize(resp.entry.size)
            && resp.isTarball == (pkg.packageFormat == Tarball)
            && Streams(file, archivePath)
            && var d := LookupMember(file, archivePath).value.data;
            && var first := d[..ReadEnd(d, 0, Some(limit))];
            && (resp.view.Highlighted? <==> isText(first) && resp.entry.size <= limit)
            && (resp.view.TooLong? <==> isText(first) && resp.entry.size > limit)
            && (resp.view.Highlighted? ==> resp.view.text == first))
  }

  method ServeEntry(s: ArchiveSession, pkg: Package, file: ArchiveFile, archivePath: string, raw: bool,
                    mimetype: Option<string>, isText: seq<byte> -> bool, limit: int) returns (resp: Response)
    requires s.Valid() && !s.archiveOpen && s.member == NoMember
    modifies s
    ensures IsEntryAnswer(pkg, file, archivePath, raw, mimetype, isText, limit, resp)
  {
    var entries := Entries(pkg, file);
    if entries.Err? {
      return InternalError;
    }
    var entry := FindEntry(entries.value, (e: PackageEntry) => e.path, archivePath);
    if entry.None? {
      return NotFound(NoSuchPath(archivePath));
    }
    if raw {
      var body, outcome := TransferFile(s, pkg, file, archivePath);
      if outcome.Pass? {
        TransferredBody(LookupMember(file, archivePath).value.data);
      }
      return Raw(MediaType(mimetype), IntToDecimal(entry.value.size), body, outcome.Pass?);
    }
    var view := ViewEntry(s, pkg, file, entry.value, isText, limit);
    if view.Err? {
      return InternalError;
    }
    resp := EntryPage(pkg.packageFormat == Tarball, entry.value, HumanSize(entry.value.size), mimetype, view.value);
  }

  /** The handler's load result: the package it got to, or the answer it gave instead. */
  function LoadResult(loaded: Option<Package>, resp: Response): Result<Package, Response> {
    if loaded.Some? then Ok(loaded.value) else Err(resp)
  }

  /**
   * The part of `package_file` after the name check: download and classify
   * the file, then list it. `loaded` is the package the file was classified
   * as, when the handler got that far.
   */
  method LoadAndList(config: PyPIConfig, fs: FileSystem, net: Network, s: ArchiveSession,
                     package: string, filename: string, tmp: string,
                     parse: seq<byte> -> ArchiveFile, limit: int) returns (resp: Response, ghost loaded: Option<Package>)
    requires tmp !in fs.files && tmp != StoragePath(config.cachePath, package, filename)
    requires s.Valid() && !s.archiveOpen && s.member == NoMember
    modifies fs, net, s
    ensures !resp.Redirect?
    ensures loaded.None? ==> IsLoadFailure(resp, package, filename)
    ensures resp.NotSupported? ==> loaded.None? && Classify(filename).None?
    ensures IsLoad(config, package, filename, old(fs.Exists(StoragePath(config.cachePath, package, filename))), net.pages, net.downloads, LoadResult(loaded, resp))
    ensures loaded.Some? ==> IsListing(loaded.value, ArchiveAt(fs.files, loaded.value.path, parse), limit, resp)
  {
    var pkg := LoadPackage(config, fs, net, package, filename, tmp);
    if pkg.Err? {
      return pkg.error, None;
    }
    loaded := Some(pkg.value);
    resp := ServeListing(s, pkg.value, ArchiveAt(fs.files, pkg.value.path, parse), limit);
  }

  /** `package_file`: redirect to the normalised name, or load and list the file. */
  method PackageFile(config: PyPIConfig, fs: FileSystem, net: Network, s: ArchiveSession,
                     package: string, filename: string, tmp: string,
                     parse: seq<byte> -> ArchiveFile, limit: int) returns (resp: Response, ghost loaded: Option<Package>)
    requires tmp !in fs.files && tmp != StoragePath(config.cachePath, package, filename)
    requires s.Valid() && !s.archiveOpen && s.member == NoMember
    modifies fs, net, s
    ensures resp.Redirect? <==> !IsNormalized(package)
    ensures resp.Redirect? ==> resp.to == PackageFileRoute(Normalize(package), filename)
    ensures resp.Redirect? ==> fs.files == old(fs.files) && fs.dirs == old(fs.dirs) && net.requests == old(net.requests)
                               && s.events == old(s.events)
    ensures loaded.None? ==> resp.Redirect? || IsLoadFailure(resp, package, filename)
    ensures resp.NotSupported? ==> loaded.None? && Classify(filename).None?
    ensures !resp.Redirect? ==> IsLoad(config, package, filename, old(fs.Exists(StoragePath(config.cachePath, package, filename))), net.pages, net.downloads, LoadResult(loaded, resp))
    ensures loaded.Some? ==> IsListing(loaded.value, ArchiveAt(fs.files, loaded.value.path, parse), limit, resp)
  {
    var redirect := RedirectFor(PackageFileRoute(package, filename));
    if redirect.Some? {
      return Redirect(redirect.value), None;
    }
    resp, loaded := LoadAndList(config, fs, net, s, package, filename, tmp, parse, limit);
  }

  /**
   * The part of `package_file_archive_path` after the name check: download
   * and classify the file, then serve the entry at `archivePath`.
   */
  method LoadAndServe(config: PyPIConfig, fs: FileSystem, net: Network, s: ArchiveSession,
                      package: string, filename: string, archivePath: string, tmp: string,
                      parse: seq<byte> -> ArchiveFile, raw: bool, mimetype: Option<string>,
                      isText: seq<byte> -> bool, limit: int) returns (resp: Response, ghost loaded: Option<Package>)
    requires tmp !in fs.files && tmp != StoragePath(config.cachePath, package, filename)
    requires s.Valid() && !s.archiveOpen && s.member == NoMember
    modifies fs, net, s
    ensures !resp.Redirect?
    ensures loaded.None? ==> IsLoadFailure(resp, package, filename)
    ensures resp.NotSupported? ==> loaded.None? && Classify(filename).None?
    ensures IsLoad(config, package, filename, old(fs.Exists(StoragePath(config.cachePath, package, filename))), net.pages, net.downloads, LoadResult(loaded, resp))
    ensures loaded.Some? ==> IsEntryAnswer(loaded.value, ArchiveAt(fs.files, loaded.value.path, parse), archivePath, raw, mimetype, isText, limit, resp)
  {
    var pkg := LoadPackage(config, fs, net, package, filename, tmp);
    if pkg.Err? {
      return pkg.error, None;
    }
    loaded := Some(pkg.value);
    resp := ServeEntry(s, pkg.value, ArchiveAt(fs.files, pkg.value.path, parse), archivePath, raw, mimetype, isText, limit);
  }

  /** `package_file_archive_path`: redirect to the normalised name, or load the file and serve the entry. */
  method ArchivePath(config: PyPIConfig, fs: FileSystem, net: Network, s: ArchiveSession,
                     package: string, filename: string, archivePath: string, tmp: string,
                     parse: seq<byte> -> ArchiveFile, raw: bool, mimetype: Option<string>,
                     isText: seq<byte> -> bool, limit: int) returns (resp: Response, ghost loaded: Option<Package>)
    requires tmp !in fs.files && tmp != StoragePath(config.cachePath, package, filename)
    requires s.Valid() && !s.archiveOpen && s.member == NoMember
    modifies fs, net, s
    ensures resp.Redirect? <==> !IsNormalized(package)
    ensures resp.Redirect? ==> resp.to == ArchivePathRoute(Normalize(package), filename, archivePath)
    ensures resp.Redirect? ==> fs.files == old(fs.files) && fs.dirs == old(fs.dirs) && net.requests == old(net.requests)
                               && s.events == old(s.events)
    ensures loaded.None? ==> resp.Redirect? || IsLoadFailure(resp, package, filename)
    ensures resp.NotSupported? ==> loaded.None? && Classify(filename).None?
    ensures !resp.Redirect? ==> IsLoad(config, package, filename, old(fs.Exists(StoragePath(config.cachePath, package, filename))), net.pages, net.downloads, LoadResult(loaded, resp))
    ensures loaded.Some? ==> IsEntryAnswer(loaded.value, ArchiveAt(fs.files, loaded.value.path, parse), archivePath, raw, mimetype, isText, limit, resp)
  {
    var redirect := RedirectFor(ArchivePathRoute(package, filename, archivePath));
    if redirect.Some? {
      return Redirect(redirect.value), None;
    }
    resp, loaded := LoadAndServe(config, fs, net, s, package, filename, archivePath, tmp, parse, raw, mimetype, isText, limit);
  }
}
