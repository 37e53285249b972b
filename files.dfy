/** The local filesystem the download cache lives on. */
module Files {
  import opened PyLib

  /**
   * The directories `os.makedirs(p, exist_ok=True)` leaves in place: `p`
   * itself and every ancestor of it, that is every non-empty proper prefix
   * of `p` that a `/` follows.
   */
  function DirChain(p: string): (r: set<string>)
    ensures p in r
    ensures forall i :: 0 < i < |p| && p[i] == '/' ==> p[..i] in r
    ensures forall d :: d in r ==> d == p || (d != [] && d < p && p[|d|] == '/')
  {
    {p} + set i | 0 < i < |p| && p[i] == '/' :: p[..i]
  }

  class FileSystem {
    var files: map<string, seq<byte>>
    var dirs: set<string>

    constructor(files: map<string, seq<byte>>, dirs: set<string>)
      ensures this.files == files && this.dirs == dirs
    {
      this.files := files;
      this.dirs := dirs;
    }

    /** `os.path.exists(p)`: a file or a directory is there. */
    predicate Exists(p: string)
      reads this
    {
      p in files || p in dirs
    }

    /** `os.makedirs(p, exist_ok=True)`: `p` and every missing ancestor are made. */
    method MakeDirs(p: string)
      modifies this`dirs
      ensures dirs == old(dirs) + DirChain(p)
    {
      dirs := dirs + DirChain(p);
    }

    /** Creating a new, empty file, as `NamedTemporaryFile` does. */
    method Create(p: string)
      requires p !in files
      modifies this`files
      ensures files == old(files)[p := []]
    {
      files := files[p := []];
    }

    method Append(p: string, chunk: seq<byte>)
      requires p in files
      modifies this`files
      ensures files == old(files)[p := old(files)[p] + chunk]
    {
      files := files[p := files[p] + chunk];
    }

    /** `os.rename(src, dst)`: `dst` now holds what `src` held, and `src` is gone. */
    method Rename(src: string, dst: string)
      requires src in files
      modifies this`files
      ensures files == (old(files) - {src})[dst := old(files)[src]]
    {
      files := (files - {src})[dst := files[src]];
    }

    /** `os.remove(p)`. */
    method Remove(p: string)
      requires p in files
      modifies this`files
      ensures files == old(files) - {p}
    {
      files := files - {p};
    }
  }
}
