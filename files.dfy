/** The file system as the core sees it through atl/file.h: FileExists,
    FileReadContent, FileWriteContent and MkDir over a map from path to
    content and a set of directories. Which paths cannot be read or written
    (permissions, a missing parent) is fixed per store. */
module Files {
  import opened Wrappers

  /** A snapshot of the file system. */
  datatype Disk = Disk(files: map<string, string>, dirs: set<string>,
                       unreadable: set<string>, unwritable: set<string>)
  {
    /** A path is a file or a directory, never both. */
    predicate Valid() {
      files.Keys !! dirs
    }

    /** atl::FileExists: a file or a directory is there. */
    predicate Exists(p: string) {
      p in files || p in dirs
    }

    /** atl::FileReadContent: None when nothing can be opened at `p`. A
        file gives its content. A directory opens too (std::ifstream does
        on POSIX systems), and reading it stops at once, so it gives the
        empty text. */
    function Read(p: string): Option<string> {
      if p in unreadable then None
      else if p in files then Some(files[p])
      else if p in dirs then Some("")
      else None
    }

    /** Whether FileWriteContent can open `p` for writing. */
    predicate Writable(p: string) {
      p !in dirs && p !in unwritable
    }

    /** The snapshot after FileWriteContent(p, content): the file holds the
        content, or nothing changed when it could not be opened. */
    function Write(p: string, content: string): Disk {
      if Writable(p) then this.(files := files[p := content]) else this
    }

    /** The snapshot after MkDir(p). */
    function MkDir(p: string): Disk {
      this.(dirs := dirs + {p})
    }
  }

  /** `b` differs from `a` at most in the content of the file `p`. */
  predicate AgreesExcept(a: Disk, b: Disk, p: string) {
    AgreesOutside(a, b, {p})
  }

  /** `b` holds the same directories and permissions as `a`, and the same
      files apart from those at the paths in `ps`. */
  predicate AgreesOutside(a: Disk, b: Disk, ps: set<string>) {
    a.dirs == b.dirs && a.unreadable == b.unreadable && a.unwritable == b.unwritable &&
    a.files - ps == b.files - ps
  }

  /** A change at `p` followed by a change at `q` changes nothing outside
      the two. */
  lemma AgreesExceptCompose(a: Disk, b: Disk, c: Disk, p: string, q: string)
    requires AgreesExcept(a, b, p) && AgreesExcept(b, c, q)
    ensures AgreesOutside(a, c, {p, q})
  {
    assert a.files - {p, q} == (a.files - {p}) - {q};
    assert b.files - {p, q} == (b.files - {p}) - {q};
    assert b.files - {p, q} == (b.files - {q}) - {p};
    assert c.files - {p, q} == (c.files - {q}) - {p};
  }

  /** A file outside the changed paths is still there with its content. */
  lemma AgreesOutsideAt(a: Disk, b: Disk, ps: set<string>, q: string)
    requires AgreesOutside(a, b, ps) && q !in ps && q in a.files
    ensures q in b.files && b.files[q] == a.files[q]
  {
    assert q in a.files - ps;
    assert (a.files - ps)[q] == a.files[q];
  }

  /** Writing a file changes that file and nothing else, and keeps files
      and directories apart. */
  lemma WriteChangesOnlyTarget(d: Disk, p: string, content: string)
    ensures AgreesExcept(d, d.Write(p, content), p)
    ensures d.Valid() ==> d.Write(p, content).Valid()
    ensures d.Write(p, content).Read(p) == if d.Writable(p) && p !in d.unreadable then Some(content) else d.Read(p)
  {
    if d.Writable(p) {
      assert d.files[p := content] - {p} == d.files - {p};
    }
  }

  /** Writing one file leaves what every other path reads as and whether
      it can be written. */
  lemma WriteElsewhere(d: Disk, p: string, q: string, content: string)
    requires p != q
    ensures d.Write(p, content).Read(q) == d.Read(q)
    ensures d.Write(p, content).Writable(q) == d.Writable(q)
  {
  }

  class FileStore {
    var files: map<string, string>
    var dirs: set<string>
    /** Files that exist but cannot be opened for reading. */
    const unreadable: set<string>
    /** Paths a file cannot be created or overwritten at. */
    const unwritable: set<string>

    /** The current snapshot. */
    function View(): Disk
      reads this
    {
      Disk(files, dirs, unreadable, unwritable)
    }

    constructor (d: Disk)
      ensures View() == d
    {
      files, dirs := d.files, d.dirs;
      unreadable, unwritable := d.unreadable, d.unwritable;
    }

    /** atl::FileExists. */
    method Exists(p: string) returns (found: bool)
      ensures found <==> p in View().files || p in View().dirs
    {
      found := p in files || p in dirs;
    }

    /** atl::FileReadContent: a readable file gives its content, a readable
        directory the empty text, anything else nothing. */
    method Read(p: string) returns (content: Option<string>)
      ensures content.Some? <==> p !in unreadable && (p in View().files || p in View().dirs)
      ensures content.Some? && p in View().files ==> content.value == files[p]
      ensures content.Some? && p !in View().files ==> content.value == ""
      ensures content == View().Read(p)
    {
      if p in unreadable {
        return None;
      }
      if p in files {
        return Some(files[p]);
      }
      if p in dirs {
        return Some("");
      }
      return None;
    }

    /** atl::FileWriteContent: creates or overwrites the file; false, and
        nothing changes, when it cannot be opened. */
    method Write(p: string, content: string) returns (written: bool)
      modifies this`files
      ensures written == old(View()).Writable(p)
      ensures View() == old(View()).Write(p, content)
    {
      written := p !in dirs && p !in unwritable;
      if written {
        files := files[p := content];
      }
    }

    /** atl::MkDir (boost create_directory): creates the directory and
        answers true, or answers false when it exists already. Boost throws
        when a file stands at the path; callers must not ask for that. */
    method MkDir(p: string) returns (created: bool)
      requires p !in files
      modifies this`dirs
      ensures created == (p !in old(dirs))
      ensures View() == old(View()).MkDir(p)
      ensures old(View()).Valid() ==> View().Valid()
    {
      created := p !in dirs;
      dirs := dirs + {p};
    }
  }
}
