/**
 * pypi_browser/packaging.py: package-name normalisation, classification of a
 * downloaded archive by the suffix of its (base64-encoded) file name, the
 * entry listing of zip and tar archives, and the open/close bracket around
 * reading one archive member.
 */
module BrowserPackaging {
  import opened Wrappers
  import opened PyLib
  import Utf8
  import Base64
  import opened Archive

  // ---------------------------------------------------------------------
  // pep426_normalize: every run of `-`, `_` and `.` becomes one `-`, then
  // the name is lower-cased (the "Normalized Names" rule of PEP 503).
  // ---------------------------------------------------------------------

  predicate IsSeparator(c: char) { c == '-' || c == '_' || c == '.' }

  predicate IsUpper(c: char) { 'A' <= c <= 'Z' }

  /** `str.lower()` on one character; only ASCII letters are mapped. */
  function LowerChar(c: char): char {
    if IsUpper(c) then (c as int + 32) as char else c
  }

  function Lower(s: string): (r: string)
    ensures |r| == |s|
    ensures forall i :: 0 <= i < |s| ==> r[i] == LowerChar(s[i])
  {
    if s == [] then [] else [LowerChar(s[0])] + Lower(s[1..])
  }

  /** The string after its leading run of separators. */
  function SkipSeparators(s: string): (r: string)
    ensures |r| <= |s|
    ensures r == [] || !IsSeparator(r[0])
  {
    if s != [] && IsSeparator(s[0]) then SkipSeparators(s[1..]) else s
  }

  /** `re.sub(r'[-_.]+', '-', s)`: each maximal run of separators becomes one `-`. */
  function CollapseSeparators(s: string): string
    decreases |s|
  {
    if s == [] then []
    else if IsSeparator(s[0]) then "-" + CollapseSeparators(SkipSeparators(s[1..]))
    else [s[0]] + CollapseSeparators(s[1..])
  }

  /** `pep426_normalize(name)`. */
  function Normalize(name: string): string {
    Lower(CollapseSeparators(name))
  }

  /** The shape of a normalised name: no `_`, no `.`, no upper-case letter, no `--`. */
  predicate IsNormalized(s: string) {
    && (forall i :: 0 <= i < |s| ==> s[i] != '_' && s[i] != '.' && !IsUpper(s[i]))
    && (forall i :: 0 < i < |s| ==> !(s[i - 1] == '-' && s[i] == '-'))
  }

  /** No `_`, no `.` and no `--`: what collapsing the separators leaves. */
  predicate IsCollapsed(s: string) {
    && (forall i :: 0 <= i < |s| ==> s[i] != '_' && s[i] != '.')
    && (forall i :: 0 < i < |s| ==> !(s[i - 1] == '-' && s[i] == '-'))
  }

  lemma {:induction false} CollapseFirst(s: string)
    requires s != []
    ensures CollapseSeparators(s) != []
    ensures CollapseSeparators(s)[0] == if IsSeparator(s[0]) then '-' else s[0]
  {
  }

  lemma {:induction false} CollapseShape(s: string)
    ensures IsCollapsed(CollapseSeparators(s))
    decreases |s|
  {
    if s != [] {
      if IsSeparator(s[0]) {
        var x := SkipSeparators(s[1..]);
        CollapseShape(x);
        if x != [] {
          CollapseFirst(x);
        }
      } else {
        CollapseShape(s[1..]);
        if s[1..] != [] {
          CollapseFirst(s[1..]);
        }
      }
    }
  }

  /** The result of `pep426_normalize` has the normalised shape. */
  lemma NormalizeShape(name: string)
    ensures IsNormalized(Normalize(name))
  {
    CollapseShape(name);
  }

  lemma {:induction false} CollapseCollapsed(s: string)
    requires IsCollapsed(s)
    ensures CollapseSeparators(s) == s
    decreases |s|
  {
    if s != [] {
      assert IsCollapsed(s[1..]);
      CollapseCollapsed(s[1..]);
      if IsSeparator(s[0]) {
        assert s[1..] == [] || !IsSeparator(s[1]);
        assert SkipSeparators(s[1..]) == s[1..];
      }
    }
  }

  /** A name of the normalised shape is left as it is. */
  lemma NormalizeNormalized(name: string)
    requires IsNormalized(name)
    ensures Normalize(name) == name
  {
    CollapseCollapsed(name);
  }

  /** Normalising twice gives what normalising once gives. */
  lemma NormalizeIdempotent(name: string)
    ensures Normalize(Normalize(name)) == Normalize(name)
  {
    NormalizeShape(name);
    NormalizeNormalized(Normalize(name));
  }

  /** A name is a fixed point of `pep426_normalize` exactly when it has the normalised shape. */
  lemma NormalizeFixedPoint(name: string)
    ensures Normalize(name) == name <==> IsNormalized(name)
  {
    NormalizeShape(name);
    if IsNormalized(name) {
      NormalizeNormalized(name);
    }
  }

  predicate AllSeparators(s: string) {
    forall i :: 0 <= i < |s| ==> IsSeparator(s[i])
  }

  lemma {:induction false} SkipSeparatorsAppend(x: string, v: string)
    ensures SkipSeparators(x + v) == if AllSeparators(x) then SkipSeparators(v) else SkipSeparators(x) + v
  {
    if x != [] {
      assert (x + v)[1..] == x[1..] + v;
      SkipSeparatorsAppend(x[1..], v);
    } else {
      assert x + v == v;
    }
  }

  /**
   * `re.sub(r'[-_.]+', '-', ...)` then `.lower()`, one token at a time: a
   * character that is not a separator stays where it is, lower-cased, ...
   */
  lemma NormalizeLetter(c: char, t: string)
    requires !IsSeparator(c)
    ensures Normalize([c] + t) == [LowerChar(c)] + Normalize(t)
  {
    var s := [c] + t;
    assert s[0] == c && s[1..] == t;
    assert CollapseSeparators(s) == [c] + CollapseSeparators(t);
    var ct := CollapseSeparators(t);
    assert Lower([c] + ct) == [LowerChar(c)] + Lower(ct);
  }

  /** ... and a whole run of separators, up to the next other character, becomes exactly one `-`. */
  lemma NormalizeRunThen(run: string, t: string)
    requires run != [] && AllSeparators(run)
    requires t == [] || !IsSeparator(t[0])
    ensures Normalize(run + t) == "-" + Normalize(t)
  {
    var s := run + t;
    assert s[0] == run[0] && s[1..] == run[1..] + t;
    SkipSeparatorsAppend(run[1..], t);
    assert AllSeparators(run[1..]);
    assert SkipSeparators(t) == t;
    assert CollapseSeparators(s) == "-" + CollapseSeparators(t);
    var ct := CollapseSeparators(t);
    assert Lower("-" + ct) == "-" + Lower(ct);
  }

  // ---------------------------------------------------------------------
  // Package.from_path: classification by file-name suffix.
  // ---------------------------------------------------------------------

  datatype PackageType = Sdist | Wheel | Egg

  datatype PackageFormat = ZipFile | Tarball

  datatype Package = Package(packageType: PackageType, packageFormat: PackageFormat, path: string)

  const TarSuffixes: seq<string> := [".tar", ".tar.gz", ".tgz", ".tar.bz2"]

  /** The `if`/`elif` chain of `from_path` on the decoded file name. */
  function Classify(name: string): Option<(PackageType, PackageFormat)> {
    if EndsWith(name, ".whl") then Some((Wheel, ZipFile))
    else if EndsWith(name, ".zip") then Some((Sdist, ZipFile))
    else if EndsWith(name, ".egg") then Some((Egg, ZipFile))
    else if EndsWithAny(name, TarSuffixes) then Some((Sdist, Tarball))
    else None
  }

  /** Two suffixes with different last characters cannot both end one name. */
  lemma NotBothSuffixes(name: string, a: string, b: string)
    requires a != [] && b != [] && a[|a| - 1] != b[|b| - 1]
    ensures !(EndsWith(name, a) && EndsWith(name, b))
  {
  }

  /** No name ends with two of the recognised suffixes of different kinds. */
  lemma SuffixesExclusive(name: string)
    ensures EndsWith(name, ".whl") ==> !EndsWith(name, ".zip") && !EndsWith(name, ".egg") && !EndsWithAny(name, TarSuffixes)
    ensures EndsWith(name, ".zip") ==> !EndsWith(name, ".egg") && !EndsWithAny(name, TarSuffixes)
    ensures EndsWith(name, ".egg") ==> !EndsWithAny(name, TarSuffixes)
  {
    forall a | a in [".whl", ".zip", ".egg"]
      ensures forall i :: 0 <= i < |TarSuffixes| ==> !(EndsWith(name, a) && EndsWith(name, TarSuffixes[i]))
    {
      NotBothSuffixes(name, a, ".tar");
      NotBothSuffixes(name, a, ".tar.gz");
      NotBothSuffixes(name, a, ".tgz");
      NotBothSuffixes(name, a, ".tar.bz2");
    }
    NotBothSuffixes(name, ".whl", ".zip");
    NotBothSuffixes(name, ".whl", ".egg");
    NotBothSuffixes(name, ".zip", ".egg");
  }

  /**
   * The suffix table, in both directions: each recognised suffix gives its
   * (type, format) pair and every other name is unsupported.
   */
  lemma SuffixTable(name: string)
    ensures Classify(name) == Some((Wheel, ZipFile)) <==> EndsWith(name, ".whl")
    ensures Classify(name) == Some((Sdist, ZipFile)) <==> EndsWith(name, ".zip")
    ensures Classify(name) == Some((Egg, ZipFile)) <==> EndsWith(name, ".egg")
    ensures Classify(name) == Some((Sdist, Tarball)) <==> EndsWithAny(name, TarSuffixes)
    ensures Classify(name) == None <==>
      !EndsWith(name, ".whl") && !EndsWith(name, ".zip") && !EndsWith(name, ".egg") && !EndsWithAny(name, TarSuffixes)
  {
    SuffixesExclusive(name);
  }

  datatype FromPathError =
    | UnsupportedPackageType(name: string)  // the suffix is not recognised
    | NonAsciiName                          // `.encode('ascii')` raises
    | InvalidBase64                         // `b64decode` raises binascii.Error
    | InvalidUtf8                           // `.decode('utf8')` raises

  /** `s.encode('ascii')` succeeds: every character is below 128. */
  predicate IsAscii(s: string) {
    forall i :: 0 <= i < |s| ==> s[i] < 128 as char
  }

  /**
   * The file name a stored basename stands for: the basename is ASCII-encoded,
   * base64-decoded with the given alphabet and UTF-8-decoded.
   */
  function DecodeStoredName(basename: string, alphabet: Base64.Alphabet): Result<string, FromPathError> {
    if !IsAscii(basename) then Err(NonAsciiName)
    else
      var decoded := if alphabet == Base64.Standard then Base64.DecodeLenient(basename) else Base64.UrlSafeDecode(basename);
      match decoded
      case None => Err(InvalidBase64)
      case Some(bytes) =>
        match Utf8.Decode(bytes)
        case None => Err(InvalidUtf8)
        case Some(name) => Ok(name)
  }

  /** `Package.from_path(path)` with the base64 alphabet its decoding uses. */
  function FromPathWith(path: string, alphabet: Base64.Alphabet): (r: Result<Package, FromPathError>)
    ensures r.Ok? ==> r.value.path == path
    ensures r.Ok? <==> DecodeStoredName(Basename(path), alphabet).Ok? && Classify(DecodeStoredName(Basename(path), alphabet).value).Some?
    ensures r.Ok? ==> Classify(DecodeStoredName(Basename(path), alphabet).value) == Some((r.value.packageType, r.value.packageFormat))
    ensures r.Err? && DecodeStoredName(Basename(path), alphabet).Ok? ==> r.error == UnsupportedPackageType(DecodeStoredName(Basename(path), alphabet).value)
  {
    match DecodeStoredName(Basename(path), alphabet)
    case Err(e) => Err(e)
    case Ok(name) =>
      match Classify(name)
      case None => Err(UnsupportedPackageType(name))
      case Some((t, f)) => Ok(Package(t, f, path))
  }

  /** `Package.from_path` as written: `base64.b64decode`, the standard alphabet. */
  function FromPathAsWritten(path: string): Result<Package, FromPathError> {
    FromPathWith(path, Base64.Standard)
  }

  /** As written, an ASCII name that `b64decode` rejects is reported as invalid base64. */
  lemma FromPathAsWrittenInvalid(path: string)
    requires IsAscii(Basename(path)) && Base64.DecodeLenient(Basename(path)).None?
    ensures FromPathAsWritten(path) == Err(InvalidBase64)
  {
  }

  /** `Package.from_path` decoding with the URL-safe alphabet the cache encodes with. */
  function FromPath(path: string): Result<Package, FromPathError> {
    FromPathWith(path, Base64.UrlSafe)
  }

  // ---------------------------------------------------------------------
  // Package.entries: the non-directory members of the archive.
  // ---------------------------------------------------------------------

  /** A `PackageEntry`; `mode` holds the permission bits `stat.filemode` renders. */
  datatype PackageEntry = PackageEntry(path: string, mode: nat, size: nat)

  /** The entry of a zip member: its mode sits in the high 16 bits of `external_attr`. */
  function ZipEntry(info: ZipInfo): PackageEntry {
    PackageEntry(info.filename, info.externalAttr / 65536, info.fileSize)
  }

  function TarEntry(m: TarInfo): PackageEntry {
    PackageEntry(m.name, m.mode, m.size)
  }

  /** `_package_entries_from_zipfile`: one entry per member that is not a directory. */
  function ZipEntries(infos: seq<ZipInfo>): (r: set<PackageEntry>)
    ensures forall i :: 0 <= i < |infos| && !infos[i].IsDir() ==> ZipEntry(infos[i]) in r
    ensures forall e :: e in r ==> exists i :: 0 <= i < |infos| && !infos[i].IsDir() && e == ZipEntry(infos[i])
    ensures forall e :: e in r ==> !EndsWith(e.path, "/")
  {
    if infos == [] then {}
    else
      var front := ZipEntries(infos[..|infos| - 1]);
      var last := infos[|infos| - 1];
      assert forall i :: 0 <= i < |infos| - 1 ==> infos[..|infos| - 1][i] == infos[i];
      if last.IsDir() then front else front + {ZipEntry(last)}
  }

  /** `_package_entries_from_tarball`: one entry per member that is not a directory. */
  function TarEntries(members: seq<TarInfo>): (r: set<PackageEntry>)
    ensures forall i :: 0 <= i < |members| && !members[i].IsDir() ==> TarEntry(members[i]) in r
    ensures forall e :: e in r ==> exists i :: 0 <= i < |members| && !members[i].IsDir() && e == TarEntry(members[i])
  {
    if members == [] then {}
    else
      var front := TarEntries(members[..|members| - 1]);
      var last := members[|members| - 1];
      assert forall i :: 0 <= i < |members| - 1 ==> members[..|members| - 1][i] == members[i];
      if last.IsDir() then front else front + {TarEntry(last)}
  }

  /** The library `entries` and `open_from_archive` use for a format. */
  function LibraryOf(format: PackageFormat): Library {
    if format == ZipFile then ZipLibrary else TarLibrary
  }

  /** `Package.entries()`, given what the archive libraries read from `pkg.path`. */
  function Entries(pkg: Package, file: ArchiveFile): (r: Result<set<PackageEntry>, ArchiveError>)
    ensures r.Err? <==> !Opens(file, LibraryOf(pkg.packageFormat))
    ensures r.Err? ==> r.error == BadArchive
    ensures r.Ok? && pkg.packageFormat == ZipFile ==> r.value == ZipEntries(file.infos)
    ensures r.Ok? && pkg.packageFormat == Tarball ==> r.value == TarEntries(file.members)
  {
    match (pkg.packageFormat, file)
    case (ZipFile, ZipArchive(infos)) => Ok(ZipEntries(infos))
    case (Tarball, TarArchive(members)) => Ok(TarEntries(members))
    case _ => Err(BadArchive)
  }

  // ---------------------------------------------------------------------
  // Package.open_from_archive: the context manager around reading a member.
  // ---------------------------------------------------------------------

  /**
   * Entering `open_from_archive(path)`: open the archive, then the member.
   * When opening the member raises, the code has not yet reached its `try`,
   * so the archive is left open.
   */
  method EnterArchive(s: ArchiveSession, pkg: Package, file: ArchiveFile, path: string) returns (r: Outcome<ArchiveError>)
    requires s.Valid() && !s.archiveOpen && s.member == NoMember
    modifies s
    ensures s.Valid()
    ensures r.Pass? <==> Opens(file, LibraryOf(pkg.packageFormat)) && LookupMember(file, path).Some?
    ensures !Opens(file, LibraryOf(pkg.packageFormat)) ==>
      r == Fail(BadArchive) && !s.archiveOpen && s.events == old(s.events)
    ensures Opens(file, LibraryOf(pkg.packageFormat)) && LookupMember(file, path).None? ==>
      r == Fail(NoSuchMember(path)) && s.archiveOpen && s.member == NoMember && s.events == old(s.events) + [ArchiveOpened]
    ensures r.Pass? ==> s.archiveOpen && s.member == LookupMember(file, path).value && s.pos == 0
    ensures r.Pass? ==> s.events == old(s.events) + [ArchiveOpened] + (if s.member.Stream? then [MemberOpened] else [])
  {
    var isOpen := s.OpenArchive(file, LibraryOf(pkg.packageFormat));
    if !isOpen {
      return Fail(BadArchive);
    }
    r := s.OpenMember(file, path);
  }

  /**
   * Leaving `open_from_archive`, normally or by an exception from the body:
   * `AsyncArchiveFile.__aexit__` closes the member, then the `finally` closes
   * the archive, even when closing the member raised.
   */
  method ExitArchive(s: ArchiveSession) returns (r: Outcome<ArchiveError>)
    requires s.Valid() && s.archiveOpen && s.member != NoMember
    modifies s
    ensures s.Valid() && !s.archiveOpen && s.member == NoMember
    ensures r.Pass? <==> old(s.member).Stream?
    ensures s.events == old(s.events) + (if old(s.member).Stream? then [MemberClosed] else []) + [ArchiveClosed]
  {
    r := s.CloseMember();
    s.CloseArchive();
  }
}
