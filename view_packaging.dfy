/**
 * pypi_view/packaging.py: the earlier archive abstraction. It classifies a
 * downloaded file as a wheel or a zip sdist by the suffix of its
 * (base64-encoded) file name, lists every member of the zip file, and
 * brackets the reading of one member between opening and closing the archive.
 */
module ViewPackaging {
  import opened Wrappers
  import opened PyLib
  import Base64
  import opened Archive
  import BrowserPackaging

  datatype PackageType = Sdist | Wheel

  /** The four formats the enum declares; classification only ever produces ZipFile. */
  datatype PackageFormat = ZipFile | Tarball | TarballGz | TarballBz2

  datatype Package = Package(packageType: PackageType, packageFormat: PackageFormat, path: string)

  /** A `PackageEntry` of this version: a path and a size, no mode. */
  datatype PackageEntry = PackageEntry(path: string, size: nat)

  // ---------------------------------------------------------------------
  // Package.from_path
  // ---------------------------------------------------------------------

  /** The `if`/`elif`/`else` of `from_path` on the decoded file name. */
  function Classify(name: string): Option<(PackageType, PackageFormat)> {
    if EndsWith(name, ".whl") then Some((Wheel, ZipFile))
    else if EndsWith(name, ".zip") then Some((Sdist, ZipFile))
    else None
  }

  /**
   * The suffix table in both directions: `.whl` gives a zip wheel, `.zip` a
   * zip sdist, and every other name (tarballs included) is unsupported.
   */
  lemma SuffixTable(name: string)
    ensures Classify(name) == Some((Wheel, ZipFile)) <==> EndsWith(name, ".whl")
    ensures Classify(name) == Some((Sdist, ZipFile)) <==> EndsWith(name, ".zip")
    ensures Classify(name) == None <==> !EndsWith(name, ".whl") && !EndsWith(name, ".zip")
  {
    BrowserPackaging.NotBothSuffixes(name, ".whl", ".zip");
  }

  /**
   * What this classification accepts, the later one accepts in the same
   * way; the later one adds `.egg` and the tar suffixes.
   */
  lemma ClassifyAgreesWithLater(name: string)
    ensures Classify(name) == Some((Wheel, ZipFile)) ==>
      BrowserPackaging.Classify(name) == Some((BrowserPackaging.Wheel, BrowserPackaging.ZipFile))
    ensures Classify(name) == Some((Sdist, ZipFile)) ==>
      BrowserPackaging.Classify(name) == Some((BrowserPackaging.Sdist, BrowserPackaging.ZipFile))
    ensures BrowserPackaging.Classify(name).Some? && Classify(name).None? ==>
      BrowserPackaging.Classify(name).value.0 == BrowserPackaging.Egg || BrowserPackaging.Classify(name).value.1 == BrowserPackaging.Tarball
  {
    BrowserPackaging.SuffixTable(name);
    SuffixTable(name);
  }

  /** `Package.from_path(path)` with the base64 alphabet its decoding uses. */
  function FromPathWith(path: string, alphabet: Base64.Alphabet): (r: Result<Package, BrowserPackaging.FromPathError>)
    ensures r.Ok? ==> r.value.path == path && r.value.packageFormat == ZipFile
    ensures var name := BrowserPackaging.DecodeStoredName(Basename(path), alphabet);
      && (r.Ok? <==> name.Ok? && Classify(name.value).Some?)
      && (r.Ok? ==> Classify(name.value) == Some((r.value.packageType, r.value.packageFormat)))
      && (r.Err? && name.Ok? ==> r.error == BrowserPackaging.UnsupportedPackageType(name.value))
  {
    match BrowserPackaging.DecodeStoredName(Basename(path), alphabet)
    case Err(e) => Err(e)
    case Ok(name) =>
      match Classify(name)
      case None => Err(BrowserPackaging.UnsupportedPackageType(name))
      case Some((t, f)) => Ok(Package(t, f, path))
  }

  /** `Package.from_path` as written: `base64.b64decode`, the standard alphabet. */
  function FromPathAsWritten(path: string): Result<Package, BrowserPackaging.FromPathError> {
    FromPathWith(path, Base64.Standard)
  }

  /** `Package.from_path` decoding with the URL-safe alphabet the cache encodes with. */
  function FromPath(path: string): Result<Package, BrowserPackaging.FromPathError> {
    FromPathWith(path, Base64.UrlSafe)
  }

  // ---------------------------------------------------------------------
  // Package.entries
  // ---------------------------------------------------------------------

  function ZipEntry(info: ZipInfo): PackageEntry {
    PackageEntry(info.filename, info.fileSize)
  }

  /** `_package_entries_from_zipfile`: one entry per member, directories included. */
  function ZipEntries(infos: seq<ZipInfo>): (r: set<PackageEntry>)
    ensures forall i :: 0 <= i < |infos| ==> ZipEntry(infos[i]) in r
    ensures forall e :: e in r ==> exists i :: 0 <= i < |infos| && e == ZipEntry(infos[i])
  {
    if infos == [] then {}
    else
      var front := infos[..|infos| - 1];
      assert forall i :: 0 <= i < |front| ==> front[i] == infos[i];
      ZipEntries(front) + {ZipEntry(infos[|infos| - 1])}
  }

  /** `Package.entries()`: the zip listing, or AssertionError for any other format. */
  function Entries(pkg: Package, file: ArchiveFile): (r: Result<set<PackageEntry>, ArchiveError>)
    ensures pkg.packageFormat != ZipFile <==> r == Err(AssertionFailed)
    ensures pkg.packageFormat == ZipFile && !file.ZipArchive? <==> r == Err(BadArchive)
    ensures r.Ok? ==> file.ZipArchive? && r.value == ZipEntries(file.infos)
  {
    if pkg.packageFormat != ZipFile then Err(AssertionFailed)
    else if file.ZipArchive? then Ok(ZipEntries(file.infos))
    else Err(BadArchive)
  }

  /**
   * Whatever `from_path` returns is a zip file, so the AssertionError branch
   * of `entries` cannot be reached from it.
   */
  lemma FromPathEntriesNoAssertion(path: string, alphabet: Base64.Alphabet, file: ArchiveFile)
    requires FromPathWith(path, alphabet).Ok?
    ensures Entries(FromPathWith(path, alphabet).value, file) != Err(AssertionFailed)
    ensures file.ZipArchive? ==> Entries(FromPathWith(path, alphabet).value, file) == Ok(ZipEntries(file.infos))
  {
  }

  /**
   * Every listed entry names a member `zf.open` finds: the last member of
   * that name, which is at or after the member the entry came from.
   */
  lemma EntriesAreMembers(infos: seq<ZipInfo>, e: PackageEntry)
    requires e in ZipEntries(infos)
    ensures LookupMember(ZipArchive(infos), e.path).Some?
  {
    var i :| 0 <= i < |infos| && e == ZipEntry(infos[i]);
    assert LastZipIndex(infos, e.path) >= i;
  }

  // ---------------------------------------------------------------------
  // Package.open_from_archive
  // ---------------------------------------------------------------------

  /**
   * Entering `open_from_archive(path)`: for a zip file, open the archive and
   * then the member; when opening the member raises, the `try` has not been
   * reached and the archive stays open. Any other format raises
   * AssertionError before anything is opened.
   */
  method EnterArchive(s: ArchiveSession, pkg: Package, file: ArchiveFile, path: string) returns (r: Outcome<ArchiveError>)
    requires s.Valid() && !s.archiveOpen && s.member == NoMember
    modifies s
    ensures s.Valid()
    ensures pkg.packageFormat != ZipFile ==> r == Fail(AssertionFailed) && !s.archiveOpen && s.events == old(s.events)
    ensures r.Pass? <==> pkg.packageFormat == ZipFile && file.ZipArchive? && LookupMember(file, path).Some?
    ensures pkg.packageFormat == ZipFile && !file.ZipArchive? ==>
      r == Fail(BadArchive) && !s.archiveOpen && s.events == old(s.events)
    ensures pkg.packageFormat == ZipFile && file.ZipArchive? && LookupMember(file, path).None? ==>
      r == Fail(NoSuchMember(path)) && s.archiveOpen && s.member == NoMember && s.events == old(s.events) + [ArchiveOpened]
    ensures r.Pass? ==> s.archiveOpen && s.member == LookupMember(file, path).value && s.member.Stream? && s.pos == 0
    ensures r.Pass? ==> s.events == old(s.events) + [ArchiveOpened, MemberOpened]
  {
    if pkg.packageFormat != ZipFile {
      return Fail(AssertionFailed);
    }
    var isOpen := s.OpenArchive(file, ZipLibrary);
    if !isOpen {
      return Fail(BadArchive);
    }
    r := s.OpenMember(file, path);
  }

  /**
   * Leaving `open_from_archive`, normally or by an exception from the body:
   * `AsyncArchiveFile.__aexit__` closes the member, then the `finally`
   * closes the archive.
   */
  method ExitArchive(s: ArchiveSession)
    requires s.Valid() && s.archiveOpen && s.member.Stream?
    modifies s
    ensures s.Valid() && !s.archiveOpen && s.member == NoMember
    ensures s.events == old(s.events) + [MemberClosed, ArchiveClosed]
  {
    var closed := s.CloseMember();
    s.CloseArchive();
  }
}
