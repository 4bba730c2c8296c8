/**
  The disk the shell works on, as a map from location to node, and the
  `java.nio.file.Files` / `java.io.File` operations the shell calls on it.
  Each operation returns `None` where the library throws (or returns false)
  and leaves the disk as it was.
*/
module Disk {
  import opened Wrappers
  import opened Paths

  /** An archive entry: its name and, for a file, its bytes (one byte per character). */
  datatype Entry = Entry(name: string, content: string)

  /** `ZipEntry.isDirectory`: the name ends with a separator. */
  predicate IsDirectoryEntry(e: Entry)
  {
    |e.name| > 0 && e.name[|e.name| - 1] == '/'
  }

  /**
    A node on disk. A file written by `zip` is an `Archive`: the model keeps
    its entries, not its compressed bytes.
  */
  datatype Node = Dir | File(content: string) | Archive(entries: seq<Entry>)

  type FileSystem = map<Path, Node>

  predicate IsDir(fs: FileSystem, p: Path)
  {
    p in fs && fs[p] == Dir
  }

  /** `p` is not the root and the location that holds it is a directory. */
  predicate ParentIsDir(fs: FileSystem, p: Path)
  {
    p != [] && IsDir(fs, p[..|p| - 1])
  }

  predicate IsChild(d: Path, q: Path)
  {
    q != [] && q[..|q| - 1] == d
  }

  predicate HasChild(fs: FileSystem, d: Path)
  {
    exists q :: q in fs && IsChild(d, q)
  }

  /** A directory `File.list` shows as empty. */
  predicate IsEmptyDir(fs: FileSystem, d: Path)
  {
    IsDir(fs, d) && !HasChild(fs, d)
  }

  /**
    The shape every disk has: the root is a directory, every location is
    normalized, and whatever is not the root sits in a directory.
  */
  predicate WellFormed(fs: FileSystem)
  {
    && IsDir(fs, [])
    && (forall p :: p in fs ==> Normal(p))
    && (forall p {:trigger p[..|p| - 1]} :: p in fs && p != [] ==> IsDir(fs, p[..|p| - 1]))
  }

  /** The nodes of the directory `d`. */
  function Children(fs: FileSystem, d: Path): set<Path>
  {
    set q | q in fs && IsChild(d, q)
  }

  /** `d` and everything below it. */
  function Subtree(fs: FileSystem, d: Path): set<Path>
  {
    set q | q in fs && Under(d, q)
  }

  /**
    Opening `p` for writing with CREATE and TRUNCATE_EXISTING (`Files.write`,
    `new FileOutputStream`): it fails when the enclosing location is not a
    directory or `p` is a directory; otherwise `p` holds `node` afterwards.
  */
  function Create(fs: FileSystem, p: Path, node: Node): (r: Option<FileSystem>)
    requires node != Dir
    ensures r.Some? <==> ParentIsDir(fs, p) && !IsDir(fs, p)
    ensures WellFormed(fs) && Normal(p) && r.Some? ==> WellFormed(r.value)
  {
    if ParentIsDir(fs, p) && !IsDir(fs, p) then Some(fs[p := node]) else None
  }

  /**
    `Files.write` with CREATE and APPEND: a missing file is created with
    `text`, an existing one gets `text` after its content. Appending to an
    archive's bytes is outside the model and fails.
  */
  function Append(fs: FileSystem, p: Path, text: string): (r: Option<FileSystem>)
    ensures r.Some? ==> p in r.value && r.value[p].File?
    ensures r.Some? ==> (p !in fs || fs[p].File?)
    ensures r.Some? ==> r.value[p].content == (if p in fs && fs[p].File? then fs[p].content else []) + text
    ensures WellFormed(fs) && Normal(p) && r.Some? ==> WellFormed(r.value)
  {
    if !ParentIsDir(fs, p) || IsDir(fs, p) then None
    else if p !in fs then Some(fs[p := File(text)])
    else if fs[p].File? then Some(fs[p := File(fs[p].content + text)])
    else None
  }

  /**
    Putting `node` at `p` with REPLACE_EXISTING (`Files.copy`): an existing
    file or empty directory is replaced; it fails when the enclosing location
    is not a directory or `p` is a directory that is not empty.
  */
  function Replace(fs: FileSystem, p: Path, node: Node): (r: Option<FileSystem>)
    ensures r.Some? <==> ParentIsDir(fs, p) && !(IsDir(fs, p) && HasChild(fs, p))
    ensures WellFormed(fs) && Normal(p) && r.Some? ==> WellFormed(r.value)
  {
    if ParentIsDir(fs, p) && !(IsDir(fs, p) && HasChild(fs, p)) then Some(fs[p := node]) else None
  }

  /**
    `Files.copy(source, target, REPLACE_EXISTING)`: the source must exist; a
    directory is copied as an empty directory; copying a node onto itself
    does nothing.
  */
  function CopyNode(fs: FileSystem, source: Path, target: Path): (r: Option<FileSystem>)
    ensures r.Some? ==> source in fs && target in r.value && r.value[target] == fs[source]
    ensures WellFormed(fs) && Normal(target) && r.Some? ==> WellFormed(r.value)
  {
    if source !in fs then None
    else if source == target then Some(fs)
    else Replace(fs, target, fs[source])
  }

  /** `p` and the locations above it. */
  function Ancestry(p: Path): set<Path>
  {
    set i | 0 <= i <= |p| :: p[..i]
  }

  /** Every location along `p` that exists is a directory. */
  predicate OnlyDirsAlong(fs: FileSystem, p: Path)
  {
    forall i :: 0 <= i <= |p| ==> (p[..i] in fs ==> fs[p[..i]] == Dir)
  }

  /**
    `Files.createDirectories(p)` (and `File.mkdirs`): creates every missing
    directory along `p`; fails, creating nothing, when a location along `p`
    holds a file.
  */
  function CreateDirectories(fs: FileSystem, p: Path): (r: Option<FileSystem>)
    ensures r.Some? <==> OnlyDirsAlong(fs, p)
    ensures r.Some? ==> IsDir(r.value, p)
    ensures r.Some? ==> forall q :: q in fs ==> q in r.value && r.value[q] == fs[q]
    ensures r.Some? ==> forall q :: q in r.value && q !in fs ==> r.value[q] == Dir && q in Ancestry(p)
    ensures WellFormed(fs) && Normal(p) && r.Some? ==> WellFormed(r.value)
  {
    if OnlyDirsAlong(fs, p) then
      var added := map q | q in Ancestry(p) && q !in fs :: Dir;
      var r := fs + added;
      assert p[..|p|] == p;
      assert IsDir(r, p);
      assert WellFormed(fs) && Normal(p) ==> WellFormed(r) by {
        if WellFormed(fs) && Normal(p) {
          forall q | q in r && q != [] ensures IsDir(r, q[..|q| - 1]) {
            if q !in fs {
              var i :| 0 <= i <= |p| && q == p[..i];
              assert q[..|q| - 1] == p[..i - 1];
            }
          }
          forall q | q in r ensures Normal(q) {
            if q !in fs {
              var i :| 0 <= i <= |p| && q == p[..i];
            }
          }
        }
      }
      Some(r)
    else None
  }

  /** In a well-formed disk, only directories lie on the way to a new node of an existing directory. */
  lemma NewChildIsCreatable(fs: FileSystem, dir: Path, name: string)
    requires WellFormed(fs) && IsDir(fs, dir) && dir + [name] !in fs
    ensures OnlyDirsAlong(fs, dir + [name])
  {
    var p := dir + [name];
    forall i | 0 <= i <= |p| ensures p[..i] in fs ==> fs[p[..i]] == Dir {
      if i < |dir| {
        assert p[..i] == dir[..i];
        AncestorIsDir(fs, dir, i);
      } else if i == |dir| {
        assert p[..i] == dir;
      } else {
        assert p[..i] == p;
      }
    }
  }

  /** Everything above a node of a well-formed disk is a directory. */
  lemma {:induction false} AncestorIsDir(fs: FileSystem, p: Path, i: nat)
    requires WellFormed(fs) && p in fs && i < |p|
    ensures IsDir(fs, p[..i])
    decreases |p| - i
  {
    var up := p[..|p| - 1];
    assert IsDir(fs, up);
    if i < |up| {
      AncestorIsDir(fs, up, i);
      assert up[..i] == p[..i];
    }
  }

  /** A single missing directory inside an existing one is all `createDirectories` adds. */
  lemma CreateOneDirectory(fs: FileSystem, p: Path)
    requires WellFormed(fs) && ParentIsDir(fs, p) && p !in fs
    ensures CreateDirectories(fs, p) == Some(fs[p := Dir])
  {
    var up := p[..|p| - 1];
    assert p == up + [p[|p| - 1]];
    NewChildIsCreatable(fs, up, p[|p| - 1]);
    var added := map q | q in Ancestry(p) && q !in fs :: Dir;
    forall q | q in Ancestry(p) && q !in fs ensures q == p {
      var i :| 0 <= i <= |p| && q == p[..i];
      if i < |p| {
        if i < |up| {
          assert up[..i] == q;
          AncestorIsDir(fs, up, i);
        }
        assert false;
      }
    }
    assert p[..|p|] == p;
    assert added == map[p := Dir];
    assert fs + added == fs[p := Dir];
    assert OnlyDirsAlong(fs, p);
  }

  /** `createDirectories` of an existing directory changes nothing. */
  lemma CreateExistingDirectory(fs: FileSystem, p: Path)
    requires WellFormed(fs) && IsDir(fs, p)
    ensures CreateDirectories(fs, p) == Some(fs)
  {
    forall i | 0 <= i <= |p| ensures p[..i] in fs && fs[p[..i]] == Dir {
      if i < |p| {
        AncestorIsDir(fs, p, i);
      } else {
        assert p[..i] == p;
      }
    }
    var added := map q | q in Ancestry(p) && q !in fs :: Dir;
    assert added == map[];
    assert fs + added == fs;
  }

  /** Removing a leaf: a file, or a directory without children. */
  function Delete(fs: FileSystem, p: Path): (r: FileSystem)
    requires p != [] && !HasChild(fs, p)
    ensures r.Keys == fs.Keys - {p}
    ensures WellFormed(fs) ==> WellFormed(r)
  {
    fs - {p}
  }
}
