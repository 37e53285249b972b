# pypi-browser, modelled in Dafny

pypi-browser is a read-only web viewer for the files of Python packages: it
downloads a wheel, zip or tarball from a package index into a local cache,
lists the archive's members, shows the package metadata, and renders one
member as highlighted text or serves it raw. The repository holds two
versions of the same program: `pypi_browser` (the current one, with
configurable repositories, tarballs and eggs) and `pypi_view` (an earlier
snapshot that reads only pypi.org's JSON API and only zip files).

This project models the rules under the web glue of both versions, one Dafny
module per source file:

| module | source file | what it holds |
|---|---|---|
| `BrowserPackaging` | pypi_browser/packaging.py | name normalisation (PEP 503), classification by suffix, entry listings, opening and closing an archive member |
| `BrowserPypi` | pypi_browser/pypi.py | the anchor parser, the simple/HTML/legacy-JSON index mappings, grouping by version, the storage path, the atomic download into the cache |
| `BrowserApp` | pypi_browser/app.py | size labels, the redirect to the normalised name, the metadata filter, entry lookup, the media-type whitelist, the 1024-byte raw transfer, the choice of view, the file handlers |
| `ViewPackaging` | pypi_view/packaging.py | the zip-only classification and listing, opening and closing a member |
| `ViewPypi` | pypi_view/pypi.py | the JSON metadata request, the version map, the first-match search, the cache |
| `ViewApp` | pypi_view/app.py | the 50 KiB limit, the inline-display rule and the three handlers |

Helper modules model what the code calls into: `Wrappers` (Option, Result,
Outcome), `PyLib` (string prefixes and suffixes, `dict()` of a pair list,
`os.path.basename/dirname/join`, `str(int)`), `Utf8`, `Base64` (encoding in
both alphabets and CPython's lenient `b64decode`), `Url` (`urljoin` as far as
fragments and last path segments go), `Http` (responses and downloads as
fixed functions of the URL, with a log of requests), `Files` (a file system
whose files are a `map<string, seq<byte>>` field of a class) and `Archive`
(the zip/tar member lists and a class holding the open archive, the open
member, the read position and the log of opens and closes).

Library decisions the handlers consult are inputs: `mimetypes.guess_type`
is an `Option<string>`, `identify.is_text` a function on bytes,
`guess_version_from_filename` a function to a parsed version or a failure,
the archive libraries' reading of a file a function from its bytes to a
member list, and the name of the temporary file a fresh path.

The open/close order of `open_from_archive` is stated as a log of events.
On every path that opens the member, the member is closed before the
archive and each is closed once. When `zf.open(path)` itself raises, the
`try` has not been entered yet, so the archive stays open; the contracts of
`EnterArchive` state this as written.

## Model

| member | source | states |
|---|---|---|
| BrowserPackaging.NormalizeShape | pypi_browser/packaging.py:14-15 | the normalised name has no `_`, no `.`, no upper-case ASCII letter and no two adjacent `-` |
| BrowserPackaging.NormalizeIdempotent | pypi_browser/packaging.py:14-15 | normalising twice is normalising once |
| BrowserPackaging.NormalizeFixedPoint | pypi_browser/packaging.py:14-15 | a name equals its normalisation exactly when it has the normalised shape |
| BrowserPackaging.NormalizeLetter | pypi_browser/packaging.py:15 | a non-separator character is kept in place (lower-cased) before the normalisation of the rest |
| BrowserPackaging.NormalizeRunThen | pypi_browser/packaging.py:15 | a maximal run of `-`, `_`, `.` becomes exactly one `-` |
| BrowserPackaging.CollapseShape | pypi_browser/packaging.py:15 | `re.sub(r'[-_.]+', '-', …)` leaves no `_`, `.` or adjacent `-` |
| BrowserPackaging.Lower | pypi_browser/packaging.py:15 | lower-casing keeps the length and maps each character on its own |
| BrowserPackaging.SuffixTable | pypi_browser/packaging.py:96-109 | `.whl`, `.zip`, `.egg` and the four tar suffixes give their (type, format) pairs, in both directions; every other name is unsupported |
| BrowserPackaging.SuffixesExclusive | pypi_browser/packaging.py:96-107 | no name has two of the suffixes, so the order of the branches does not matter |
| BrowserPackaging.FromPathWith | pypi_browser/packaging.py:93-115 | the result keeps `path`; it is a package exactly when the basename decodes and its suffix is known, classified by the decoded name alone; otherwise `UnsupportedPackageType(name)` |
| BrowserPackaging.FromPathAsWrittenInvalid | pypi_browser/packaging.py:94 | a basename `b64decode` rejects makes `from_path` raise a decoding error |
| BrowserPackaging.ZipEntries | pypi_browser/packaging.py:40-50 | one entry per non-directory member, path, mode and size from that member, and no directory paths |
| BrowserPackaging.TarEntries | pypi_browser/packaging.py:53-63 | one entry per non-directory member, path, mode and size from that member |
| BrowserPackaging.Entries | pypi_browser/packaging.py:117-123 | the listing of the package's format, or a failure exactly when the library cannot open the file |
| BrowserPackaging.EnterArchive | pypi_browser/packaging.py:125-137 | the archive is opened, then the member; a missing member leaves the archive open; on success the member is the last of that name at position 0 |
| BrowserPackaging.ExitArchive | pypi_browser/packaging.py:130-142 | the member is closed before the archive, the archive closed once; a tar member without a stream fails to close but the archive still closes |
| BrowserPypi.HrefLastWins | pypi_browser/pypi.py:32-35 | a tag yields an anchor exactly when it is `a` and its last `href` attribute is non-empty, and the anchor is that value |
| BrowserPypi.AnchorsOfTags | pypi_browser/pypi.py:25-35 | the anchors of a page are every anchor of its tags and nothing else, all non-empty |
| BrowserPypi.HtmlAnchorParser.HandleStartTag | pypi_browser/pypi.py:32-35 | the set gains the tag's anchor, if any, and nothing else |
| BrowserPypi.HtmlAnchorParser.Feed | pypi_browser/pypi.py:67-68 | after feeding a page the set grew by exactly the page's anchors |
| BrowserPypi.CleanUrl | pypi_browser/pypi.py:59-61 | a cleaned URL has no fragment |
| BrowserPypi.CleanedFiles | pypi_browser/pypi.py:63-65 | each JSON file record gives its name with its cleaned URL, in order |
| BrowserPypi.JoinedFiles | pypi_browser/pypi.py:90-93 | each legacy file record gives its name with its URL joined to the response URL |
| BrowserPypi.HtmlMapping | pypi_browser/pypi.py:70-73 | every anchor's last path segment is a key, every key is the segment of an anchor whose cleaned URL is its value, keys hold no `/` and values no `#` |
| BrowserPypi.FilesForPackage | pypi_browser/pypi.py:43-93 | one GET of the index URL; a 404 raises `PackageDoesNotExist` before anything is parsed; then the JSON, HTML or legacy mapping as above, the legacy mapping taking the files of the values of the `releases` dict, and the legacy API raises for other failed statuses |
| BrowserPypi.FlattenHasFile | pypi_browser/pypi.py:92 | `chain.from_iterable` yields every file of every release |
| BrowserPypi.FlattenFileFrom | pypi_browser/pypi.py:92 | every file it yields is a file of one of the releases |
| BrowserPypi.SetReleaseFrom | pypi_browser/pypi.py:92 | after one member of the `releases` object is put into the dict, every release it holds is the new one or one of another version it held before |
| BrowserPypi.SetReleaseDistinct | pypi_browser/pypi.py:92 | putting one member into the dict keeps its versions distinct |
| BrowserPypi.SetReleaseKeeps | pypi_browser/pypi.py:92 | after one member is put into the dict, it holds the new release and every release of another version |
| BrowserPypi.ReleaseValuesDistinctVersions | pypi_browser/pypi.py:92 | the values of the `releases` dict have distinct versions |
| BrowserPypi.ReleaseValuesAreLast | pypi_browser/pypi.py:92 | each value is the last release in the document with its version |
| BrowserPypi.ReleaseValuesHaveLast | pypi_browser/pypi.py:92 | the last release of every version is a value |
| BrowserPypi.ReleaseValuesDistinct | pypi_browser/pypi.py:92 | a document without a repeated version is its own list of values, in order |
| BrowserPypi.FilesForPackageErrors | pypi_browser/pypi.py:43-93 | the index raises `PackageDoesNotExist` exactly for a 404 and otherwise only a status or body error |
| BrowserPypi.GroupByVersion | pypi_browser/pypi.py:106-117 | a name whose version parses is in exactly that version's set, unparseable names are nowhere, no other name appears, and no group is empty |
| BrowserPypi.GroupingUnique | pypi_browser/pypi.py:106-117 | two groupings of the same names agree, so the result does not depend on the order the names are visited in |
| BrowserPypi.FilesByVersion | pypi_browser/pypi.py:106-117 | one request of the index; the error `files_for_package` raised for its answer, or exactly the grouping of the names of the mapping it returned |
| BrowserPypi.ComponentIsSafe | pypi_browser/pypi.py:129-130 | a URL-safe base64 component has no `/` and no `.`, so it is never `..`, and is empty only for an empty name |
| BrowserPypi.StoragePathShape | pypi_browser/pypi.py:124-131 | for non-empty names the stored path is the cache directory, the package component, `/`, the file component |
| BrowserPypi.StoragePathBasename | pypi_browser/pypi.py:124-131 | the basename of the stored path is the file name's component |
| BrowserPypi.StoragePathInjective | pypi_browser/pypi.py:124-131 | distinct pairs of non-empty names are stored at distinct paths |
| BrowserPypi.FromPathOfStoragePath | pypi_browser/pypi.py:124-131 | with URL-safe decoding, the stored basename decodes to the file name it was stored under, so a cached file is classified by its own file name |
| BrowserPypi.FromPathAsWrittenRejectsStoredWheel | pypi_browser/packaging.py:94 | the stored path of the wheel "ab~.whl" is rejected by the standard-alphabet decoding although it is a wheel |
| BrowserPypi.ComponentOfTildeWheel | pypi_browser/pypi.py:130 | the component of "ab~.whl" is "YWJ-LndobA==" |
| BrowserPypi.StandardDecoderRejectsTildeWheel | pypi_browser/packaging.py:94 | `b64decode("YWJ-LndobA==")` fails |
| BrowserPypi.WriteChunks | pypi_browser/pypi.py:170-171 | the file grows by every chunk, in order, and no other file changes |
| BrowserPypi.AtomicDownload | pypi_browser/pypi.py:134-145 | success exactly when the status is good and the stream completes; then the destination holds exactly the chunks; on any failure the files are as before |
| Files.DirChain | pypi_browser/pypi.py:164 | `os.makedirs` leaves the directory and every ancestor of it, and nothing that is not the directory or one of its ancestors |
| BrowserPypi.UrlIn | pypi_browser/pypi.py:158-162 | the lookup fails exactly when `files_for_package` did, finds a URL exactly when the name is a key, and that URL is the mapping's value |
| BrowserPypi.FetchFound | pypi_browser/pypi.py:158-173 | the lookup's error, or `CannotFindFileError` for an unlisted name, with no directory, file or request; otherwise the directory and its ancestors are made, the looked-up URL is the one request, and the file is stored exactly when the status is good and the stream completes, the status error or the stream failure raised otherwise |
| BrowserPypi.Fetch | pypi_browser/pypi.py:158-173 | the index is requested first, then the file is fetched from the URL the index's mapping gives it, as `FetchFound` states |
| BrowserPypi.FetchOutcome | pypi_browser/pypi.py:148-173 | a fetch raises `PackageDoesNotExist` exactly for an index 404, with nothing written; a success stores the bytes of the second request at the stored path; a failure changes no file |
| BrowserPypi.DownloadedFilePath | pypi_browser/pypi.py:148-173 | a cache hit returns the stored path with no request and no change; a miss fetches as `Fetch` states, against the index the repository serves |
| BrowserApp.Pluralize | pypi_browser/app.py:94-95 | `''` exactly when n is 1, else `'s'`; pypi_view/app.py has the same rule at lines 91-92 |
| BrowserApp.HumanSize | pypi_browser/app.py:98-106 | the largest binary unit not above the size, so the printed number is at least 1 and below 1024 below GiB; under 1 KiB the exact count with "byte" or "bytes"; pypi_view/app.py has the same rule at lines 95-103 |
| BrowserApp.RedirectFor | pypi_browser/app.py:155-163 | a handler redirects exactly when the name is not normalised, to the same route under the normalised name; pypi_view/app.py applies it at lines 118-120, 151-159 and 224-233 |
| BrowserApp.RedirectTargetIsFinal | pypi_browser/app.py:122-124 | following a redirect never leads to another one |
| BrowserApp.MetadataPathShape | pypi_browser/app.py:190 | a path matches the metadata pattern exactly when it is `D.dist-info/METADATA` or `D/PKG-INFO`, possibly followed by one newline, with D one non-empty slash-free component |
| BrowserApp.SelectMetadata | pypi_browser/app.py:187-194 | no metadata path exactly when no entry is a candidate (shape and size within the limit); otherwise the path of a candidate; pypi_view/app.py calls it at lines 183-190 with its 50 KiB limit |
| BrowserApp.FindEntry | pypi_browser/app.py:261-267 | none exactly when no entry has the requested path; otherwise an entry with that path; pypi_view/app.py does the same at lines 256-262 |
| BrowserApp.MediaType | pypi_browser/app.py:44-56 | the guessed type is kept exactly when it starts with a whitelisted prefix, else there is none; pypi_view/app.py has the same list at lines 40-52 |
| BrowserApp.MarkupNeverServed | pypi_browser/app.py:286 | `text/html` and `application/xhtml…` are never served with their own media type |
| BrowserApp.ChunksFromConcat | pypi_browser/app.py:277-282 | the 1024-byte reads put back together give the member |
| BrowserApp.ChunksFromSizes | pypi_browser/app.py:281 | every read holds 1 to 1024 bytes and all but the last exactly 1024 |
| BrowserApp.ReadAllChunks | pypi_browser/app.py:279-282 | the read loop yields the 1024-byte reads of the member and then one empty read, and stops at the end of the member |
| BrowserApp.TransferredBody | pypi_browser/app.py:277-282 | the raw body is exactly the member's bytes; ViewApp.TransferFile reuses the same loop |
| BrowserApp.TransferFile | pypi_browser/app.py:277-282 | the transfer succeeds exactly when the member opens with a stream; its chunks are then the reads above, and the archive is opened and closed around them |
| BrowserApp.ReadMember | pypi_browser/app.py:301-302 | one read of at most n bytes from the start of the member, between the opens and closes |
| BrowserApp.ViewEntry | pypi_browser/app.py:301-375 | highlighted exactly for text within the limit, too long exactly for longer text, binary exactly for non-text; highlighted text is the first chunk |
| BrowserApp.DownloadError | pypi_browser/app.py:165-177 | `PackageDoesNotExist` gives the package's 404 and `CannotFindFileError` the file's 404, each exactly; every other error is a 500 |
| BrowserApp.AnswerDownload | pypi_browser/app.py:165-184 | a download error is answered as `DownloadError` says; with the corrected URL-safe decoding, a stored file is the package exactly when its name is classified, 501 otherwise |
| BrowserApp.LoadPackage | pypi_browser/app.py:165-184 | a cached file is only classified, with no request or write; on a miss: the package's 404 for an index 404, the file's 404 for a name the mapping lacks, 500 for other index errors or a failed download, and after a complete download the package at the stored path exactly when the name is classified, 501 otherwise |
| BrowserApp.LoadNotFound | pypi_browser/app.py:165-184 | the package's 404 exactly when the file is not cached and the index answers 404; 501 only for an unclassified name |
| BrowserApp.ServeListing | pypi_browser/app.py:186-220 | the page lists the entries and the tarball flag; the metadata path exists exactly when a candidate does, with that member's bytes; a 500 only when some candidate does not open as a stream |
| BrowserApp.ServeEntry | pypi_browser/app.py:260-375 | 404 exactly when no entry has the path; raw exactly for `raw`, under the whitelisted media type with the entry's size as Content-Length, complete exactly when the member streams, with its bytes; a 500 only for a member that does not stream; otherwise the page with its view |
| BrowserApp.PackageFile | pypi_browser/app.py:150-220 | redirect exactly for a non-normalised name, with nothing fetched or written; otherwise loading as `LoadPackage` states and then the listing |
| BrowserApp.ArchivePath | pypi_browser/app.py:223-375 | redirect exactly for a non-normalised name, with nothing fetched or written; otherwise loading as `LoadPackage` states and then the entry answer |
| ViewPackaging.SuffixTable | pypi_view/packaging.py:74-82 | `.whl` gives a zip wheel and `.zip` a zip sdist, in both directions; every other name is unsupported |
| ViewPackaging.ClassifyAgreesWithLater | pypi_view/packaging.py:74-82 | what the earlier version accepts, the later accepts the same way; the later adds only eggs and tarballs |
| ViewPackaging.FromPathWith | pypi_view/packaging.py:70-88 | the result keeps `path` and is always a zip file; it is a package exactly when the basename decodes to a known suffix, classified by the decoded name alone |
| ViewPackaging.ZipEntries | pypi_view/packaging.py:33-41 | one entry per member, directories included, with path and size from that member |
| ViewPackaging.EntriesAreMembers | pypi_view/packaging.py:33-41 | every listed entry's path names a member of the zip, so it can be opened |
| ViewPackaging.Entries | pypi_view/packaging.py:90-94 | the zip listing; AssertionError exactly for another format; a failure to open exactly for a file that is not a zip |
| ViewPackaging.FromPathEntriesNoAssertion | pypi_view/packaging.py:90-94 | a package `from_path` returns never reaches the AssertionError of `entries` |
| ViewPackaging.EnterArchive | pypi_view/packaging.py:96-100 | another format raises before anything opens; the archive opens, then the member; a missing member leaves the archive open |
| ViewPackaging.ExitArchive | pypi_view/packaging.py:101-105 | the member is closed (`__aexit__`) before the archive (`finally`), each once |
| ViewPypi.PackageMetadata | pypi_view/pypi.py:20-25 | one GET of the JSON URL; a 404 raises `PackageDoesNotExist`, another failed status raises, a success gives the releases |
| ViewPypi.FileNames | pypi_view/pypi.py:33 | the set of file names of a release, every one and only those |
| ViewPypi.VersionMapSpec | pypi_view/pypi.py:32-35 | every release's version is a key, every key is some release's version, mapped to the file names of the last release with it |
| ViewPypi.VersionMapDistinct | pypi_view/pypi.py:32-35 | with distinct versions each version maps to exactly its own file names |
| ViewPypi.FilesForPackage | pypi_view/pypi.py:28-35 | one request; the errors of `package_metadata`; on success the version map of the releases |
| ViewPypi.FirstMatchSpec | pypi_view/pypi.py:81-86 | no URL exactly when no file has the name; otherwise the URL of the earliest file with it |
| ViewPypi.FirstMatchAppend | pypi_view/pypi.py:81 | a search over a chained list finds in the front first |
| ViewPypi.FindFileUrl | pypi_view/pypi.py:81-86 | the `for … break … else` loop returns the first match over the flattened releases |
| ViewPypi.StoragePathShape | pypi_view/pypi.py:42-49 | the stored path is STORAGE_DIR and two components without `/`, never `..`, distinct for distinct non-empty names |
| ViewPypi.FromPathOfStored | pypi_view/pypi.py:42-49 | with URL-safe decoding a cached file is classified by the file name it was stored under |
| ViewPypi.FromPathAsWrittenRejectsStoredWheel | pypi_view/packaging.py:72 | the stored "ab~.whl" is rejected by the standard-alphabet decoding although it is a wheel |
| ViewPypi.UrlOf | pypi_view/pypi.py:81-86 | the lookup fails exactly when `package_metadata` did, and otherwise gives the first matching URL over the values of the `releases` dict |
| ViewPypi.VersionOfValues | pypi_view/pypi.py:32-35 | every version of the document's version map is one of the values' version map, with the same files |
| ViewPypi.VersionFromValues | pypi_view/pypi.py:32-35 | every version of the values' version map is one of the document's |
| ViewPypi.VersionMapOfValues | pypi_view/pypi.py:32-35 | the version map built from the dict's values is the version map of the document, so the search and the package page read the same releases |
| ViewPypi.FoundIsListed | pypi_view/pypi.py:81-86 | over releases with distinct versions, a file the search finds is listed under some version of the version map |
| ViewPypi.ListedIsFound | pypi_view/pypi.py:81-86 | a file listed under a version of the version map is found by the search |
| ViewPypi.FoundIffListed | pypi_view/pypi.py:81-86 | the search finds a file exactly when some version of the version map lists its name |
| ViewPypi.RepeatedVersionShadows | pypi_view/pypi.py:81-86 | in a document where version "1.0" repeats, a file only the replaced release lists is not found |
| ViewPypi.RepeatedVersionMap | pypi_view/pypi.py:32-35 | in that document the version map holds version "1.0" with the last release's files only |
| ViewPypi.DownloadedFilePath | pypi_view/pypi.py:65-96 | a cache hit returns the stored path with no request; a miss fetches as `Fetch` states, against the document the index serves |
| ViewPypi.Fetch | pypi_view/pypi.py:75-96 | the JSON is requested first, then the file is fetched from the first matching URL over the values of the `releases` dict as `BrowserPypi.FetchFound` states |
| ViewPypi.ViewFetchOutcome | pypi_view/pypi.py:65-96 | `PackageDoesNotExist` exactly for a 404 and the status error for any other failed status, with nothing written; `CannotFindFileError` exactly when no value of the `releases` dict lists the name; otherwise the first matching URL over those values is the second request and the fetch succeeds exactly when its download does, storing its bytes |
| ViewApp.InlineDisplayKeepsMediaType | pypi_view/app.py:58-63 | every inline-display prefix is whitelisted, so such files keep their media type, and HTML is never inline |
| ViewApp.ReadMember | pypi_view/app.py:299-300 | one read from the start of the zip member, between the opens and closes |
| ViewApp.TransferFile | pypi_view/app.py:267-272 | the transfer succeeds exactly when the zip member exists; its chunks are the 1024-byte reads and one empty read |
| ViewApp.ViewEntry | pypi_view/app.py:299-359 | highlighted exactly for text within 50 KiB, too long for longer text, binary for non-text |
| ViewApp.AllFilesListed | pypi_view/app.py:141 | every file the package page counts is listed by some release |
| ViewApp.Package | pypi_view/app.py:115-143 | redirect exactly for a non-normalised name with no request; the package's 404 exactly for a 404 from the index, a 500 for any other failure; otherwise the version map and the number of distinct files |
| ViewApp.DownloadError | pypi_view/app.py:161-173 | `PackageDoesNotExist` gives the package's 404 and `CannotFindFileError` the file's 404, each exactly; every other error is a 500 |
| ViewApp.AnswerDownload | pypi_view/app.py:161-180 | a download error is answered as `DownloadError` says; with the corrected URL-safe decoding, a stored file is the package exactly when its name is a wheel or a zip, 501 otherwise |
| ViewApp.LoadPackage | pypi_view/app.py:161-180 | a cached file is only classified, with no request or write; on a miss: the package's 404 for a 404 from the index, the file's 404 for a name no release lists, 500 for other failures, and after a complete download the package at the stored path exactly when the name is a wheel or a zip, 501 otherwise |
| ViewApp.LoadNotFound | pypi_view/app.py:161-180 | the package's 404 exactly when the file is not cached and the index answers 404; the file's 404 exactly when no value of the `releases` dict lists the name, that is exactly when no version of the version map does; 501 only for an unclassified name |
| ViewApp.ServeListing | pypi_view/app.py:182-215 | the entries, and a metadata path exactly when a candidate exists, with that member's bytes; a 500 only when the file does not open as a zip |
| ViewApp.ServeEntry | pypi_view/app.py:255-359 | 404 exactly when no entry has the path; raw exactly for `raw` or an inline-display type, under the whitelisted media type, always complete with the member's bytes; otherwise the page with its view; a 500 only when the file does not open as a zip |
| ViewApp.PackageFile | pypi_view/app.py:146-215 | redirect exactly for a non-normalised name, nothing fetched; otherwise loading as `LoadPackage` states and then the listing |
| ViewApp.ArchivePath | pypi_view/app.py:218-359 | redirect exactly for a non-normalised name, nothing fetched; otherwise loading as `LoadPackage` states and then the entry answer |

## Left out

- HTTP, Starlette routing, middleware, static files and templates: responses are values, and the page content is what the templates would be given.
- `asyncio.to_thread` and concurrent requests: every operation runs alone, so two simultaneous cache misses are not modelled.
- The `home` and `search` handlers: they only render a page or redirect to a query parameter.
- The `package` handler of pypi_browser/app.py (lines 119-147) and the `pypi_config` it uses (lines 75-79): it calls a `files_for_package(pypi_config, …)` that pypi_browser/pypi.py does not define and builds a `PyPIConfig` with fields that class lacks. The handlers are modelled with the `PyPIConfig(repo, cache_path)` of pypi_browser/pypi.py.
- `pep426_normalize` of pypi_view: pypi_view/app.py calls it, but pypi_view/packaging.py does not define it. ViewApp uses the pypi_browser rule.
- Lower-casing covers ASCII letters only; Python's `str.lower` also maps other scripts.
- `_human_size` float formatting (`:.1f`): the label keeps the size and its unit, not the printed decimal.
- `stat.filemode`: an entry's mode is the raw mode number, not its printed form.
- `email.message_from_file`: the listing carries the metadata member's bytes, not the parsed headers.
- `packaging.version.parse` ordering of the package page: the page carries the version map, not its sorted order.
- `guess_version_from_filename` is not part of this model (pypi_browser/packaging.py does not define it); it is an input function.
- JSON decoding and `urljoin`: a response body is already a value of one of the shapes the code reads (a `releases` object as its members in document order, which BrowserPypi.ReleaseValues puts into a dict as the decoder does), and `urljoin` is modelled only as far as the fragment and last segment.
- zipfile and tarfile parsing: a file on disk is turned into a member list by an input function, and a tar member that is a link stands for the file it resolves to.
- The syntax highlighting itself (pygments, fluffy_code) and the text decoding with `errors='replace'`: a highlighted view carries the bytes that would be rendered.
- Reads in `transfer_file` after the client disconnects: the raw body is the whole sequence of reads.
- BrowserPypi.HtmlMapping: when two anchors share a last segment the set iteration order picks the value; the contract allows either.
- BrowserApp.SelectMetadata: `metadata_entries[0]` depends on set iteration order, in both versions; the contract allows any candidate.
- BrowserApp.FindEntry: when two entries share a path (members of one name with different sizes) the contract allows either, in both versions.
- BrowserApp.LoadPackage: classifies the stored file with the URL-safe decoding of the first finding below, so it is classified by its own file name; as written, `from_path` raises a decoding error for a stored name such as that of "ab~.whl", the handler catches only `UnsupportedPackageType` (pypi_browser/app.py:178-184), and the answer is a 500. BrowserPackaging.FromPathAsWrittenInvalid and BrowserPypi.FromPathAsWrittenRejectsStoredWheel state that behaviour.
- ViewApp.LoadPackage: the same corrected decoding (second finding below); as written the stored "ab~.whl" gives an uncaught decoding error and a 500 (pypi_view/app.py:174-180), as ViewPypi.FromPathAsWrittenRejectsStoredWheel states.
- BrowserApp.AnswerDownload: makes the corrected classification of BrowserApp.LoadPackage above; as written a stored "ab~.whl" is a 500, not a package.
- ViewApp.AnswerDownload: makes the corrected classification of ViewApp.LoadPackage above; as written a stored "ab~.whl" is a 500, not a package.
- Files.DirChain: paths are not normalised (`a//b`, `./a`), and `os.makedirs` failing because a prefix is a file, or for an empty directory name, is not modelled.

## Findings

| source | as written | input that shows it | evidently intended | confidence | as-written member | corrected member |
|---|---|---|---|---|---|---|
| pypi_browser/packaging.py:94 | `from_path` decodes the basename with `b64decode` (standard alphabet), while `_storage_path` (pypi_browser/pypi.py:129-130) encodes it URL-safe | a file named "ab~.whl" is stored as "YWJ-LndobA=="; the standard decoder skips the `-`, is left with nine data characters and raises, so the cached wheel cannot be opened | decode with the URL-safe alphabet, so every stored name decodes back to its file name | not executed | BrowserPypi.FromPathAsWrittenRejectsStoredWheel | BrowserPypi.FromPathOfStoragePath |
| pypi_view/packaging.py:72 | the same standard-alphabet decoding, against the URL-safe `_storage_path` of pypi_view/pypi.py:47-48 | "ab~.whl" stored under STORAGE_DIR: decoding fails although it is a wheel | decode with the URL-safe alphabet | not executed | ViewPypi.FromPathAsWrittenRejectsStoredWheel | ViewPypi.FromPathOfStored |
