/**
 * pypi_view/app.py: the request rules of the earlier web front end. It
 * shares the later version's name check, media-type whitelist and
 * 1024-byte raw transfer, which are used from BrowserApp. What differs is
 * modelled here: a fixed 50 KiB render limit, zip-only packages, the
 * package page built from the JSON API, and binary media that browsers
 * display inline being served raw without asking for `raw`. The outcomes
 * of `mimetypes.guess_type`, `identify.is_text` and the zip library's
 * reading of a file are inputs, as in BrowserApp.
 */
module ViewApp {
  import opened Wrappers
  import opened PyLib
  import opened Archive
  import opened Files
  import opened Http
  import BrowserPackaging
  import opened BrowserPypi
  import opened ViewPackaging
  import ViewPypi
  import BrowserApp

  /** TEXT_RENDER_FILESIZE_LIMIT: a fixed 50 KiB. */
  const TextRenderLimit := 50 * BrowserApp.OneKb

  /** Binary media types a browser displays inline. */
  const InlineDisplayWhitelist: seq<string> := ["application/pdf", "audio/", "image/", "video/"]

  /** `mimetype is not None and mimetype.startswith(INLINE_DISPLAY_MIME_WHITELIST)`. */
  predicate IsInlineDisplay(mimetype: Option<string>) {
    mimetype.Some? && StartsWithAny(mimetype.value, InlineDisplayWhitelist)
  }

  /**
   * Every inline-display prefix is also on the media-type whitelist, so a
   * file served raw because it displays inline keeps its media type, and
   * HTML never displays inline.
   */
  lemma InlineDisplayKeepsMediaType(mimetype: Option<string>)
    ensures IsInlineDisplay(mimetype) ==> BrowserApp.MediaType(mimetype) == mimetype
    ensures mimetype.Some? && StartsWith(mimetype.value, "text/html") ==> !IsInlineDisplay(mimetype)
  {
    if IsInlineDisplay(mimetype) {
      var i :| 0 <= i < |InlineDisplayWhitelist| && StartsWith(mimetype.value, InlineDisplayWhitelist[i]);
      var j := [2, 4, 5, 10][i];
      assert BrowserApp.MimeWhitelist[j] == InlineDisplayWhitelist[i];
      assert StartsWith(mimetype.value, BrowserApp.MimeWhitelist[j]);
    }
    if mimetype.Some? && StartsWith(mimetype.value, "text/html") {
      var m := mimetype.value;
      assert m[0] == 't';
      forall i | 0 <= i < |InlineDisplayWhitelist|
        ensures !StartsWith(m, InlineDisplayWhitelist[i])
      {
        assert InlineDisplayWhitelist[i][0] != 't';
      }
    }
  }

  // ---------------------------------------------------------------------
  // The metadata entry and the requested entry.
  // ---------------------------------------------------------------------

  /** An entry the metadata filter of `package_file` keeps. */
  predicate IsMetadataCandidate(e: PackageEntry) {
    BrowserApp.IsMetadataPath(e.path) && e.size <= TextRenderLimit
  }

  // ---------------------------------------------------------------------
  // Reading members.
  // ---------------------------------------------------------------------

  /** The member `open_from_archive(path)` can read: the last zip member of that name. */
  predicate Readable(pkg: Package, file: ArchiveFile, path: string) {
    pkg.packageFormat == ZipFile && file.ZipArchive? && LookupMember(file, path).Some?
  }

  /**
   * `async with package.open_from_archive(path) as f: data = await f.read(n)`:
   * one read from the start of the member, between the opens and the closes.
   */
  method ReadMember(s: ArchiveSession, pkg: Package, file: ArchiveFile, path: string, n: Option<int>)
    returns (r: Result<seq<byte>, ArchiveError>)
    requires s.Valid() && !s.archiveOpen && s.member == NoMember
    modifies s
    ensures s.Valid()
    ensures r.Ok? <==> Readable(pkg, file, path)
    ensures r.Ok? ==> var d := LookupMember(file, path).value.data;
      r.value == d[..ReadEnd(d, 0, n)] && !s.archiveOpen
      && s.events == old(s.events) + [ArchiveOpened, MemberOpened, MemberClosed, ArchiveClosed]
  {
    var entered := EnterArchive(s, pkg, file, path);
    if entered.Fail? {
      return Err(entered.error);
    }
    r := s.Read(n);
    ExitArchive(s);
  }

  /**
   * `transfer_file`: inside `open_from_archive`, read 1024 bytes at a time
   * and yield every read, the final empty one included.
   */
  method TransferFile(s: ArchiveSession, pkg: Package, file: ArchiveFile, path: string)
    returns (chunks: seq<seq<byte>>, r: Outcome<ArchiveError>)
    requires s.Valid() && !s.archiveOpen && s.member == NoMember
    modifies s
    ensures s.Valid()
    ensures r.Pass? <==> Readable(pkg, file, path)
    ensures r.Pass? ==> chunks == BrowserApp.ChunksFrom(LookupMember(file, path).value.data, 0, BrowserApp.RawChunkSize) + [[]]
    ensures r.Pass? ==> !s.archiveOpen && s.events == old(s.events) + [ArchiveOpened, MemberOpened, MemberClosed, ArchiveClosed]
    ensures r.Fail? ==> chunks == []
  {
    chunks := [];
    r := EnterArchive(s, pkg, file, path);
    if r.Fail? {
      return;
    }
    chunks := BrowserApp.ReadAllChunks(s);
    ExitArchive(s);
  }

  /**
   * The entry page: the first 50 KiB are read and judged; text no longer
   * than the limit is highlighted, longer text is refused, anything else is
   * shown as a binary.
   */
  method ViewEntry(s: ArchiveSession, pkg: Package, file: ArchiveFile, entry: PackageEntry,
                   isText: seq<byte> -> bool) returns (r: Result<BrowserApp.View, ArchiveError>)
    requires s.Valid() && !s.archiveOpen && s.member == NoMember
    modifies s
    ensures s.Valid()
    ensures r.Ok? <==> Readable(pkg, file, entry.path)
    ensures r.Ok? ==> var d := LookupMember(file, entry.path).value.data;
      var first := d[..ReadEnd(d, 0, Some(TextRenderLimit))];
      && (r.value.Highlighted? <==> isText(first) && entry.size <= TextRenderLimit)
      && (r.value.TooLong? <==> isText(first) && entry.size > TextRenderLimit)
      && (r.value.Binary? <==> !isText(first))
      && (r.value.Highlighted? ==> r.value.text == first)
      && (r.value.Highlighted? && entry.size == |d| ==> r.value.text == d)
  {
    var first := ReadMember(s, pkg, file, entry.path, Some(TextRenderLimit));
    if first.Err? {
      return Err(first.error);
    }
    if isText(first.value) {
      if entry.size <= TextRenderLimit {
        r := Ok(BrowserApp.Highlighted(first.value));
      } else {
        r := Ok(BrowserApp.TooLong);
      }
    } else {
      r := Ok(BrowserApp.Binary);
    }
  }

  // ---------------------------------------------------------------------
  // The handlers.
  // ---------------------------------------------------------------------

  datatype Response =
    | Redirect(to: BrowserApp.Route)
    | NotFound(missing: BrowserApp.Missing)
    | NotSupported      // 501 with PACKAGE_TYPE_NOT_SUPPORTED_ERROR
    | InternalError     // an exception no handler catches
    | PackagePage(versions: map<string, set<string>>, totalFiles: nat)
    | FileListing(entries: set<PackageEntry>, metadataPath: Option<string>, metadata: seq<byte>)
    | EntryPage(entry: PackageEntry, view: BrowserApp.View)
    | Raw(mediaType: Option<string>, contentLength: string, body: seq<seq<byte>>, completes: bool)

  /** `set(itertools.chain.from_iterable(version_to_files.values()))`. */
  function AllFiles(versions: map<string, set<string>>): set<string> {
    set v, f | v in versions && f in versions[v] :: f
  }

  /** Every file the package page counts is listed by some release of the JSON document. */
  lemma AllFilesListed(releases: seq<Release>)
    ensures forall f :: f in AllFiles(ViewPypi.VersionMap(releases)) ==>
      exists i, j :: 0 <= i < |releases| && 0 <= j < |releases[i].files| && releases[i].files[j].filename == f
  {
    var m := ViewPypi.VersionMap(releases);
    ViewPypi.VersionMapSpec(releases);
    forall f | f in AllFiles(m)
      ensures exists i, j :: 0 <= i < |releases| && 0 <= j < |releases[i].files| && releases[i].files[j].filename == f
    {
      var v :| v in m && f in m[v];
      var i :| 0 <= i < |releases| && releases[i].version == v && BrowserPypi.IsLastVersion(releases, i)
        && m[v] == ViewPypi.FileNames(releases[i].files);
      assert f in ViewPypi.FileNames(releases[i].files);
    }
  }

  /**
   * `package`: redirect to the normalised name; otherwise list the versions
   * and their files, or 404 when the index does not know the package.
   */
  method Package(net: Network, package: string) returns (resp: Response)
    modifies net
    ensures resp.Redirect? <==> !BrowserPackaging.IsNormalized(package)
    ensures resp.Redirect? ==> resp.to == BrowserApp.PackageRoute(BrowserPackaging.Normalize(package)) && net.requests == old(net.requests)
    ensures !resp.Redirect? ==> net.requests == old(net.requests) + [ViewPypi.MetadataUrl(package)]
    ensures !resp.Redirect? ==> var index := net.pages(ViewPypi.MetadataUrl(package));
      && (resp == NotFound(BrowserApp.NoSuchPackage(package)) <==> index.status == 404)
      && (resp.PackagePage? <==> IsSuccess(index.status) && index.body.ReleaseIndex?)
      && (resp.PackagePage? ==> resp.versions == ViewPypi.VersionMap(index.body.releases)
                                && resp.totalFiles == |AllFiles(resp.versions)|)
      && (resp == NotFound(BrowserApp.NoSuchPackage(package)) || resp.PackagePage? || resp == InternalError)
  {
    var redirect := BrowserApp.RedirectFor(BrowserApp.PackageRoute(package));
    if redirect.Some? {
      return Redirect(redirect.value);
    }
    var versions := ViewPypi.FilesForPackage(net, package);
    if versions.Err? {
      if versions.error.PackageDoesNotExist? {
        return NotFound(BrowserApp.NoSuchPackage(package));
      }
      return InternalError;
    }
    resp := PackagePage(versions.value, |AllFiles(versions.value)|);
  }

  /** What the archive library makes of `path`; a directory or a missing file is no archive. */
  function ArchiveAt(files: map<string, seq<byte>>, path: string, parse: seq<byte> -> ArchiveFile): ArchiveFile {
    if path in files then parse(files[path]) else NotAnArchive
  }

  /** The 404 and 501 answers, and the 500 of an exception no handler catches. */
  predicate IsLoadFailure(resp: Response, package: string, filename: string) {
    resp == NotFound(BrowserApp.NoSuchPackage(package)) || resp == NotFound(BrowserApp.NoSuchFile(package, filename))
    || resp == NotSupported || resp == InternalError
  }

  /**
   * What loading answers after a cache miss, `found` being what searching
   * the JSON document gave: 404 for a package the index does not know or a
   * file no release lists; 500 for any other error of the request or a
   * download that fails; after a complete download, the package exactly
   * when the name is a wheel or a zip, 501 otherwise.
   */
  ghost predicate IsLoadAfter(package: string, filename: string, found: Result<Option<string>, PypiError>,
                              downloads: string -> Download, r: Result<Package, Response>) {
    match found
    case Err(e) => r == Err(if e.PackageDoesNotExist? then NotFound(BrowserApp.NoSuchPackage(package)) else InternalError)
    case Ok(None) => r == Err(NotFound(BrowserApp.NoSuchFile(package, filename)))
    case Ok(Some(url)) =>
      if IsSuccess(downloads(url).status) && downloads(url).completes then
        (r.Ok? <==> Classify(filename).Some?) && (r.Err? ==> r.error == NotSupported)
      else
        r == Err(InternalError)
  }

  /**
   * What the loading both file handlers share answers: a package is stored
   * at the storage path and classified by the file name; a cached file is
   * only classified (501 for a name that is neither a wheel nor a zip);
   * otherwise the answer follows the JSON document as `IsLoadAfter` says.
   */
  ghost predicate IsLoad(package: string, filename: string, cached: bool, resp: Http.Response,
                         downloads: string -> Download, r: Result<Package, Response>) {
    && (r.Ok? ==> r.value.path == ViewPypi.StoragePath(package, filename)
                  && Classify(filename) == Some((r.value.packageType, r.value.packageFormat)))
    && (cached ==> (r.Ok? <==> Classify(filename).Some?) && (r.Err? ==> r.error == NotSupported))
    && (!cached ==> exists metadata :: (ViewPypi.IsPackageMetadata(resp, package, metadata)
                                        && IsLoadAfter(package, filename, ViewPypi.UrlOf(metadata, filename), downloads, r)))
  }

  /**
   * Loading answers 404 for the package exactly when the file is not cached
   * and the index answers 404; a file the document does not list, that is
   * one the package page would not show, is a 404 for the file; 501 is only
   * for a name that is not classified.
   */
  lemma LoadNotFound(package: string, filename: string, cached: bool, resp: Http.Response,
                     downloads: string -> Download, r: Result<Package, Response>)
    requires IsLoad(package, filename, cached, resp, downloads, r)
    ensures r == Err(NotFound(BrowserApp.NoSuchPackage(package))) <==> !cached && resp.status == 404
    ensures !cached && IsSuccess(resp.status) && resp.body.ReleaseIndex? ==>
      (r == Err(NotFound(BrowserApp.NoSuchFile(package, filename))) <==> ViewPypi.FirstMatch(Flatten(ReleaseValues(resp.body.releases)), filename).None?)
    ensures !cached && IsSuccess(resp.status) && resp.body.ReleaseIndex? ==>
      var versions := ViewPypi.VersionMap(resp.body.releases);
      (r == Err(NotFound(BrowserApp.NoSuchFile(package, filename))) <==> forall v :: v in versions ==> filename !in versions[v])
    ensures r == Err(NotSupported) ==> Classify(filename).None?
    ensures r.Err? ==> IsLoadFailure(r.error, package, filename)
  {
    if !cached {
      var metadata :| ViewPypi.IsPackageMetadata(resp, package, metadata)
        && IsLoadAfter(package, filename, ViewPypi.UrlOf(metadata, filename), downloads, r);
      if IsSuccess(resp.status) && resp.body.ReleaseIndex? {
        ViewPypi.FoundIffListed(resp.body.releases, filename);
      }
    }
  }

  /**
   * The part both file handlers share: download the file (404 for an unknown
   * package or file), then classify it (501 for a name that is neither a
   * wheel nor a zip); other failures of the download propagate.
   */
  method LoadPackage(fs: FileSystem, net: Network, package: string, filename: string, tmp: string)
    returns (r: Result<Package, Response>)
    requires tmp !in fs.files && tmp != ViewPypi.StoragePath(package, filename)
    modifies fs, net
    ensures IsLoad(package, filename, old(fs.Exists(ViewPypi.StoragePath(package, filename))),
                   net.pages(ViewPypi.MetadataUrl(package)), net.downloads, r)
    ensures r.Ok? ==> fs.Exists(r.value.path)
    ensures old(fs.Exists(ViewPypi.StoragePath(package, filename))) ==>
      fs.files == old(fs.files) && fs.dirs == old(fs.dirs) && net.requests == old(net.requests)
    ensures !old(fs.Exists(ViewPypi.StoragePath(package, filename))) ==>
      exists d :: ViewPypi.IsViewFetch(package, filename, ViewPypi.StoragePath(package, filename), net.pages(ViewPypi.MetadataUrl(package)),
                                       old(fs.files), old(fs.dirs), old(net.requests), net.downloads, d, fs.files, fs.dirs, net.requests)
  {
    var stored := ViewPypi.StoragePath(package, filename);
    ghost var cached := fs.Exists(stored);
    var downloaded := ViewPypi.DownloadedFilePath(fs, net, package, filename, tmp);
    r := AnswerDownload(package, filename, downloaded);
    if !cached {
      ghost var resp := net.pages(ViewPypi.MetadataUrl(package));
      ghost var metadata :| ViewPypi.IsPackageMetadata(resp, package, metadata)
        && IsFetchOf(package, filename, stored, ViewPypi.UrlOf(metadata, filename), old(fs.files), old(fs.dirs),
                     old(net.requests) + [ViewPypi.MetadataUrl(package)], net.downloads, downloaded, fs.files, fs.dirs, net.requests);
      LoadAfterFetch(package, filename, stored, ViewPypi.UrlOf(metadata, filename), old(fs.files), old(fs.dirs),
                     old(net.requests) + [ViewPypi.MetadataUrl(package)], net.downloads, downloaded, fs.files, fs.dirs, net.requests, r);
    }
  }

  /** The 404 or 500 a handler answers for an error `downloaded_file_path` raised. */
  function DownloadError(package: string, filename: string, e: PypiError): (resp: Response)
    ensures resp == NotFound(BrowserApp.NoSuchPackage(package)) <==> e.PackageDoesNotExist?
    ensures resp == NotFound(BrowserApp.NoSuchFile(package, filename)) <==> e.CannotFindFile?
    ensures resp == InternalError <==> !e.PackageDoesNotExist? && !e.CannotFindFile?
  {
    match e
    case PackageDoesNotExist(_) => NotFound(BrowserApp.NoSuchPackage(package))
    case CannotFindFile(_, _) => NotFound(BrowserApp.NoSuchFile(package, filename))
    case _ => InternalError
  }

  /**
   * The two `try` blocks of a file handler on what `downloaded_file_path`
   * gave: its two 404s and, for any other error, the 500 of an exception
   * nobody catches; then `from_path` on the stored file, whose only error
   * is the 501 for a name that is neither a wheel nor a zip.
   */
  method AnswerDownload(package: string, filename: string, downloaded: Result<string, PypiError>)
    returns (r: Result<Package, Response>)
    requires downloaded.Ok? ==> downloaded.value == ViewPypi.StoragePath(package, filename)
    ensures downloaded.Err? ==> r == Err(DownloadError(package, filename, downloaded.error))
    ensures downloaded.Ok? ==> (r.Ok? <==> Classify(filename).Some?) && (r.Err? ==> r.error == NotSupported)
    ensures r.Ok? ==> r.value.path == ViewPypi.StoragePath(package, filename)
                      && Classify(filename) == Some((r.value.packageType, r.value.packageFormat))
  {
    if downloaded.Err? {
      return Err(DownloadError(package, filename, downloaded.error));
    }
    ViewPypi.FromPathOfStored(package, filename);
    match FromPath(downloaded.value)
    case Err(_) => return Err(NotSupported);
    case Ok(pkg) => return Ok(pkg);
  }

  /** A fetch as `IsFetchOf` says, answered as `AnswerDownload` says, loads as `IsLoadAfter` says. */
  lemma LoadAfterFetch(package: string, filename: string, stored: string, found: Result<Option<string>, PypiError>,
                       files0: map<string, seq<byte>>, dirs0: set<string>, requests0: seq<string>, downloads: string -> Download,
                       d: Result<string, PypiError>, files: map<string, seq<byte>>, dirs: set<string>, requests: seq<string>,
                       r: Result<Package, Response>)
    requires IsFetchOf(package, filename, stored, found, files0, dirs0, requests0, downloads, d, files, dirs, requests)
    requires found.Err? ==> !found.error.CannotFindFile?
    requires d.Err? ==> r == Err(DownloadError(package, filename, d.error))
    requires d.Ok? ==> (r.Ok? <==> Classify(filename).Some?) && (r.Err? ==> r.error == NotSupported)
    ensures IsLoadAfter(package, filename, found, downloads, r)
  {
  }

  /**
   * What the listing part of `package_file` answers for a classified
   * package: the entries, and the metadata path with the bytes of that
   * member. Every listed member is readable, so only a file the zip library
   * cannot read raises.
   */
  ghost predicate IsListing(pkg: Package, file: ArchiveFile, resp: Response) {
    if Entries(pkg, file).Err? then resp == InternalError
    else
      var entries := Entries(pkg, file).value;
      && resp.FileListing?
      && resp.entries == entries
      && (resp.metadataPath.None? <==> forall e :: e in entries ==> !IsMetadataCandidate(e))
      && (resp.metadataPath.None? ==> resp.metadata == [])
      && (resp.metadataPath.Some? ==>
            && (exists e :: e in entries && IsMetadataCandidate(e) && e.path == resp.metadataPath.value)
            && Readable(pkg, file, resp.metadataPath.value)
            && resp.metadata == LookupMember(file, resp.metadataPath.value).value.data)
  }

  method ServeListing(s: ArchiveSession, pkg: Package, file: ArchiveFile) returns (resp: Response)
    requires s.Valid() && !s.archiveOpen && s.member == NoMember
    modifies s
    ensures IsListing(pkg, file, resp)
  {
    var entries := Entries(pkg, file);
    if entries.Err? {
      return InternalError;
    }
    var metadataPath := BrowserApp.SelectMetadata(entries.value, IsMetadataCandidate, (e: PackageEntry) => e.path);
    var metadata := [];
    if metadataPath.Some? {
      ghost var e :| e in entries.value && IsMetadataCandidate(e) && e.path == metadataPath.value;
      EntriesAreMembers(file.infos, e);
      var read := ReadMember(s, pkg, file, metadataPath.value, None);
      assert read.Ok?;
      metadata := read.value;
    }
    resp := FileListing(entries.value, metadataPath, metadata);
  }

  /**
   * What the entry part of `package_file_archive_path` answers for a
   * classified package: 404 when no entry has the path; with `raw`, or for
   * a media type browsers display inline, the member's bytes in 1024-byte
   * reads under a whitelisted media type with the entry's size as
   * Content-Length; otherwise the page with its view. Every listed member is
   * readable, so only a file the zip library cannot read raises.
   */
  ghost predicate IsEntryAnswer(pkg: Package, file: ArchiveFile, archivePath: string, raw: bool,
                                mimetype: Option<string>, isText: seq<byte> -> bool, resp: Response) {
    if Entries(pkg, file).Err? then resp == InternalError
    else
      var entries := Entries(pkg, file).value;
      var present := exists e :: e in entries && e.path == archivePath;
      && (resp == NotFound(BrowserApp.NoSuchPath(archivePath)) <==> !present)
      && (resp.Raw? <==> present && (raw || IsInlineDisplay(mimetype)))
      && (resp == NotFound(BrowserApp.NoSuchPath(archivePath)) || resp.Raw? || resp.EntryPage?)
      && (resp.Raw? ==>
            && resp.mediaType == BrowserApp.MediaType(mimetype)
            && (exists e :: e in entries && e.path == archivePath && resp.contentLength == IntToDecimal(e.size))
            && resp.completes && Readable(pkg, file, archivePath)
            && Concat(resp.body) == LookupMember(file, archivePath).value.data)
      && (resp.EntryPage? ==>
            && resp.entry in entries && resp.entry.path == archivePath
            && Readable(pkg, file, archivePath)
            && var d := LookupMember(file, archivePath).value.data;
            && var first := d[..ReadEnd(d, 0, Some(TextRenderLimit))];
            && (resp.view.Highlighted? <==> isText(first) && resp.entry.size <= TextRenderLimit)
            && (resp.view.TooLong? <==> isText(first) && resp.entry.size > TextRenderLimit)
            && (resp.view.Highlighted? ==> resp.view.text == first))
  }

  method ServeEntry(s: ArchiveSession, pkg: Package, file: ArchiveFile, archivePath: string, raw: bool,
                    mimetype: Option<string>, isText: seq<byte> -> bool) returns (resp: Response)
    requires s.Valid() && !s.archiveOpen && s.member == NoMember
    modifies s
    ensures IsEntryAnswer(pkg, file, archivePath, raw, mimetype, isText, resp)
  {
    var entries := Entries(pkg, file);
    if entries.Err? {
      return InternalError;
    }
    var entry := BrowserApp.FindEntry(entries.value, (e: PackageEntry) => e.path, archivePath);
    if entry.None? {
      return NotFound(BrowserApp.NoSuchPath(archivePath));
    }
    EntriesAreMembers(file.infos, entry.value);
    if raw || IsInlineDisplay(mimetype) {
      var body, outcome := TransferFile(s, pkg, file, archivePath);
      assert outcome.Pass?;
      BrowserApp.TransferredBody(LookupMember(file, archivePath).value.data);
      return Raw(BrowserApp.MediaType(mimetype), IntToDecimal(entry.value.size), body, true);
    }
    var view := ViewEntry(s, pkg, file, entry.value, isText);
    assert view.Ok?;
    resp := EntryPage(entry.value, view.value);
  }

  /** The handler's load result: the package it got to, or the answer it gave instead. */
  function LoadResult(loaded: Option<Package>, resp: Response): Result<Package, Response> {
    if loaded.Some? then Ok(loaded.value) else Err(resp)
  }

  /**
   * The part of `package_file` after the name check: download and classify
   * the file, then list it. `loaded` is the package the file was classified
   * as, when the handler got that far.
   */
  method LoadAndList(fs: FileSystem, net: Network, s: ArchiveSession, package: string, filename: string, tmp: string,
                     parse: seq<byte> -> ArchiveFile) returns (resp: Response, ghost loaded: Option<Package>)
    requires tmp !in fs.files && tmp != ViewPypi.StoragePath(package, filename)
    requires s.Valid() && !s.archiveOpen && s.member == NoMember
    modifies fs, net, s
    ensures !resp.Redirect?
    ensures loaded.None? ==> IsLoadFailure(resp, package, filename)
    ensures resp.NotSupported? ==> loaded.None? && Classify(filename).None?
    ensures IsLoad(package, filename, old(fs.Exists(ViewPypi.StoragePath(package, filename))), net.pages(ViewPypi.MetadataUrl(package)), net.downloads, LoadResult(loaded, resp))
    ensures loaded.Some? ==> IsListing(loaded.value, ArchiveAt(fs.files, loaded.value.path, parse), resp)
  {
    var pkg := LoadPackage(fs, net, package, filename, tmp);
    if pkg.Err? {
      return pkg.error, None;
    }
    loaded := Some(pkg.value);
    resp := ServeListing(s, pkg.value, ArchiveAt(fs.files, pkg.value.path, parse));
  }

  /** `package_file`: redirect to the normalised name, or load and list the file. */
  method PackageFile(fs: FileSystem, net: Network, s: ArchiveSession, package: string, filename: string, tmp: string,
                     parse: seq<byte> -> ArchiveFile) returns (resp: Response, ghost loaded: Option<Package>)
    requires tmp !in fs.files && tmp != ViewPypi.StoragePath(package, filename)
    requires s.Valid() && !s.archiveOpen && s.member == NoMember
    modifies fs, net, s
    ensures resp.Redirect? <==> !BrowserPackaging.IsNormalized(package)
    ensures resp.Redirect? ==> resp.to == BrowserApp.PackageFileRoute(BrowserPackaging.Normalize(package), filename)
    ensures resp.Redirect? ==> fs.files == old(fs.files) && fs.dirs == old(fs.dirs) && net.requests == old(net.requests)
                               && s.events == old(s.events)
    ensures loaded.None? ==> resp.Redirect? || IsLoadFailure(resp, package, filename)
    ensures resp.NotSupported? ==> loaded.None? && Classify(filename).None?
    ensures !resp.Redirect? ==> IsLoad(package, filename, old(fs.Exists(ViewPypi.StoragePath(package, filename))), net.pages(ViewPypi.MetadataUrl(package)), net.downloads, LoadResult(loaded, resp))
    ensures loaded.Some? ==> IsListing(loaded.value, ArchiveAt(fs.files, loaded.value.path, parse), resp)
  {
    var redirect := BrowserApp.RedirectFor(BrowserApp.PackageFileRoute(package, filename));
    if redirect.Some? {
      return Redirect(redirect.value), None;
    }
    resp, loaded := LoadAndList(fs, net, s, package, filename, tmp, parse);
  }

  /**
   * The part of `package_file_archive_path` after the name check: download
   * and classify the file, then serve the entry at `archivePath`.
   */
  method LoadAndServe(fs: FileSystem, net: Network, s: ArchiveSession,
                      package: string, filename: string, archivePath: string, tmp: string,
                      parse: seq<byte> -> ArchiveFile, raw: bool, mimetype: Option<string>,
                      isText: seq<byte> -> bool) returns (resp: Response, ghost loaded: Option<Package>)
    requires tmp !in fs.files && tmp != ViewPypi.StoragePath(package, filename)
    requires s.Valid() && !s.archiveOpen && s.member == NoMember
    modifies fs, net, s
    ensures !resp.Redirect?
    ensures loaded.None? ==> IsLoadFailure(resp, package, filename)
    ensures resp.NotSupported? ==> loaded.None? && Classify(filename).None?
    ensures IsLoad(package, filename, old(fs.Exists(ViewPypi.StoragePath(package, filename))), net.pages(ViewPypi.MetadataUrl(package)), net.downloads, LoadResult(loaded, resp))
    ensures loaded.Some? ==> IsEntryAnswer(loaded.value, ArchiveAt(fs.files, loaded.value.path, parse), archivePath, raw, mimetype, isText, resp)
  {
    var pkg := LoadPackage(fs, net, package, filename, tmp);
    if pkg.Err? {
      return pkg.error, None;
    }
    loaded := Some(pkg.value);
    var file := ArchiveAt(fs.files, pkg.value.path, parse);
    resp := ServeEntry(s, pkg.value, file, archivePath, raw, mimetype, isText);
    assert !resp.Redirect? && !resp.NotSupported?;
    assert LoadResult(loaded, resp) == pkg;
  }

  /** `package_file_archive_path`: redirect to the normalised name, or load the file and serve the entry. */
  method ArchivePath(fs: FileSystem, net: Network, s: ArchiveSession,
                     package: string, filename: string, archivePath: string, tmp: string,
                     parse: seq<byte> -> ArchiveFile, raw: bool, mimetype: Option<string>,
                     isText: seq<byte> -> bool) returns (resp: Response, ghost loaded: Option<Package>)
    requires tmp !in fs.files && tmp != ViewPypi.StoragePath(package, filename)
    requires s.Valid() && !s.archiveOpen && s.member == NoMember
    modifies fs, net, s
    ensures resp.Redirect? <==> !BrowserPackaging.IsNormalized(package)
    ensures resp.Redirect? ==> resp.to == BrowserApp.ArchivePathRoute(BrowserPackaging.Normalize(package), filename, archivePath)
    ensures resp.Redirect? ==> fs.files == old(fs.files) && fs.dirs == old(fs.dirs) && net.requests == old(net.requests)
                               && s.events == old(s.events)
    ensures loaded.None? ==> resp.Redirect? || IsLoadFailure(resp, package, filename)
    ensures resp.NotSupported? ==> loaded.None? && Classify(filename).None?
    ensures !resp.Redirect? ==> IsLoad(package, filename, old(fs.Exists(ViewPypi.StoragePath(package, filename))), net.pages(ViewPypi.MetadataUrl(package)), net.downloads, LoadResult(loaded, resp))
    ensures loaded.Some? ==> IsEntryAnswer(loaded.value, ArchiveAt(fs.files, loaded.value.path, parse), archivePath, raw, mimetype, isText, resp)
  {
    var redirect := BrowserApp.RedirectFor(BrowserApp.ArchivePathRoute(package, filename, archivePath));
    if redirect.Some? {
      return Redirect(redirect.value), None;
    }
    resp, loaded := LoadAndServe(fs, net, s, package, filename, archivePath, tmp, parse, raw, mimetype, isText);
  }
}
