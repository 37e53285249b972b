/**
 * The archive handles the core opens through `zipfile` and `tarfile`. The
 * libraries' parsing is not modelled: an archive on disk is given as the
 * list of members they would report, each with the bytes it holds. What is
 * modelled is the handle state the core drives: an open archive, an open
 * member with a read position, and the order of opens and closes.
 */
module Archive {
  import opened Wrappers
  import opened PyLib

  /** One member as `zipfile.ZipInfo` describes it, with its uncompressed bytes. */
  datatype ZipInfo = ZipInfo(filename: string, fileSize: nat, externalAttr: nat, data: seq<byte>) {
    /** `ZipInfo.is_dir()`: the name ends with `/`. */
    predicate IsDir() { EndsWith(filename, "/") }
  }

  /** The member kinds `tarfile` distinguishes here; a link stands for the file it resolves to. */
  datatype TarKind = RegularFile | Directory | Special

  /** One member as `tarfile.TarInfo` describes it, with its bytes. */
  datatype TarInfo = TarInfo(name: string, size: nat, mode: nat, kind: TarKind, data: seq<byte>) {
    /** `TarInfo.isdir()`. */
    predicate IsDir() { kind == Directory }
  }

  /** What the archive libraries make of a file on disk. */
  datatype ArchiveFile = ZipArchive(infos: seq<ZipInfo>) | TarArchive(members: seq<TarInfo>) | NotAnArchive

  /** The library a caller opens the file with. */
  datatype Library = ZipLibrary | TarLibrary

  /** `zipfile.ZipFile(path)` or `tarfile.open(path)` succeeds. */
  predicate Opens(file: ArchiveFile, lib: Library) {
    if lib == ZipLibrary then file.ZipArchive? else file.TarArchive?
  }

  /** What opening a member yields: a readable stream, or `None` from `extractfile`. */
  datatype MemberHandle = NoMember | Stream(data: seq<byte>) | NoStream

  datatype Event = ArchiveOpened | MemberOpened | MemberClosed | ArchiveClosed

  datatype ArchiveError =
    | BadArchive            // zipfile.BadZipFile / tarfile.ReadError
    | NoSuchMember(name: string)  // KeyError from getinfo/getmember
    | NoFileObject          // AttributeError: extractfile gave None
    | AssertionFailed       // the format dispatch found no branch

  /**
   * The member `zf.open(name)` or `tf.extractfile(name)` opens. Both look the
   * name up in a table where a later member of the same name replaces an
   * earlier one, so the LAST member with that name is the one opened.
   */
  function LookupMember(file: ArchiveFile, name: string): (r: Option<MemberHandle>)
    ensures r.Some? ==> r.value != NoMember
  {
    match file
    case ZipArchive(infos) =>
      var i := LastZipIndex(infos, name);
      if i < 0 then None else Some(Stream(infos[i].data))
    case TarArchive(members) =>
      var i := LastTarIndex(members, name);
      if i < 0 then None
      else if members[i].kind == RegularFile then Some(Stream(members[i].data))
      else Some(NoStream)
    case NotAnArchive => None
  }

  function LastZipIndex(infos: seq<ZipInfo>, name: string): (i: int)
    ensures -1 <= i < |infos|
    ensures i >= 0 ==> infos[i].filename == name
    ensures forall j :: i < j < |infos| ==> infos[j].filename != name
  {
    if infos == [] then -1
    else if infos[|infos| - 1].filename == name then |infos| - 1
    else LastZipIndex(infos[..|infos| - 1], name)
  }

  function LastTarIndex(members: seq<TarInfo>, name: string): (i: int)
    ensures -1 <= i < |members|
    ensures i >= 0 ==> members[i].name == name
    ensures forall j :: i < j < |members| ==> members[j].name != name
  {
    if members == [] then -1
    else if members[|members| - 1].name == name then |members| - 1
    else LastTarIndex(members[..|members| - 1], name)
  }

  /** What `read(n)` returns from position `pos`: all the rest when `n` is None or negative. */
  function ReadEnd(data: seq<byte>, pos: nat, n: Option<int>): (e: nat)
    requires pos <= |data|
    ensures pos <= e <= |data|
    ensures n.Some? && n.value >= 0 ==> e - pos <= n.value
    ensures e < |data| ==> n.Some? && n.value >= 0 && e - pos == n.value
  {
    if n.None? || n.value < 0 || pos + n.value > |data| then |data| else pos + n.value
  }

  /**
   * The handles one `open_from_archive` call holds: the archive, the member
   * opened from it, and the log of opens and closes.
   */
  class ArchiveSession {
    var events: seq<Event>
    var archiveOpen: bool
    var member: MemberHandle
    var pos: nat

    ghost predicate Valid()
      reads this
    {
      && (member.Stream? ==> pos <= |member.data|)
      && (member != NoMember ==> archiveOpen)
    }

    constructor ()
      ensures Valid() && events == [] && !archiveOpen && member == NoMember && pos == 0
    {
      events := [];
      archiveOpen := false;
      member := NoMember;
      pos := 0;
    }

    /** `zipfile.ZipFile(path)` / `tarfile.open(path)`. */
    method OpenArchive(file: ArchiveFile, lib: Library) returns (ok: bool)
      requires Valid() && !archiveOpen
      modifies this`archiveOpen, this`events
      ensures Valid()
      ensures ok == Opens(file, lib) && archiveOpen == ok
      ensures events == if ok then old(events) + [ArchiveOpened] else old(events)
    {
      ok := Opens(file, lib);
      if ok {
        archiveOpen := true;
        events := events + [ArchiveOpened];
      }
    }

    /** `zf.open(name)` / `tf.extractfile(name)` on the open archive. */
    method OpenMember(file: ArchiveFile, name: string) returns (r: Outcome<ArchiveError>)
      requires Valid() && archiveOpen && member == NoMember
      modifies this`member, this`pos, this`events
      ensures Valid() && archiveOpen
      ensures r.Fail? <==> LookupMember(file, name).None?
      ensures r.Fail? ==> r.error == NoSuchMember(name) && member == NoMember && events == old(events)
      ensures r.Pass? ==> member == LookupMember(file, name).value && pos == 0
      ensures events == if member.Stream? then old(events) + [MemberOpened] else old(events)
    {
      match LookupMember(file, name)
      case None =>
        r := Fail(NoSuchMember(name));
      case Some(h) =>
        member := h;
        pos := 0;
        if h.Stream? {
          events := events + [MemberOpened];
        }
        r := Pass;
    }

    /** `AsyncArchiveFile.read(n)`: up to `n` bytes (all the rest for None or a negative `n`). */
    method Read(n: Option<int>) returns (r: Result<seq<byte>, ArchiveError>)
      requires Valid() && member != NoMember
      modifies this`pos
      ensures Valid()
      ensures member.NoStream? ==> r == Err(NoFileObject) && pos == old(pos)
      ensures member.Stream? ==> pos == ReadEnd(member.data, old(pos), n) && r == Ok(member.data[old(pos)..pos])
    {
      if member.NoStream? {
        r := Err(NoFileObject);
      } else {
        var end := ReadEnd(member.data, pos, n);
        r := Ok(member.data[pos..end]);
        pos := end;
      }
    }

    /** `AsyncArchiveFile.__aexit__`: closes the member (which fails on `None`). */
    method CloseMember() returns (r: Outcome<ArchiveError>)
      requires Valid() && member != NoMember
      modifies this`member, this`events
      ensures Valid() && member == NoMember
      ensures r.Pass? <==> old(member).Stream?
      ensures r.Fail? ==> r.error == NoFileObject
      ensures events == if r.Pass? then old(events) + [MemberClosed] else old(events)
    {
      if member.Stream? {
        events := events + [MemberClosed];
        r := Pass;
      } else {
        r := Fail(NoFileObject);
      }
      member := NoMember;
    }

    /** `zf.close()` / `tf.close()`. */
    method CloseArchive()
      requires Valid() && archiveOpen && member == NoMember
      modifies this`archiveOpen, this`events
      ensures Valid() && !archiveOpen
      ensures events == old(events) + [ArchiveClosed]
    {
      archiveOpen := false;
      events := events + [ArchiveClosed];
    }
  }
}
