/**
  Commands on single files: `touch`, `rm` and `cp` without `-r`, and the
  argument handling of `cp` (src/Terminal.java, touch, rm, cp and copy).
*/
module FileOps {
  import opened Text
  import opened Paths
  import opened Disk
  import opened Reports

  /** `File.getName`: the last name of a path string, "" when it has none. */
  function FileName(token: string): string
  {
    var segments := Get(token).segments;
    if segments == [] then "" else segments[|segments| - 1]
  }

  /**
    `touch`: exactly one argument; an existing node is reported and left
    alone; a new empty file is created when the location sits in a
    directory, and the attempt fails otherwise.
  */
  function Touch(fs: FileSystem, at: Resolver, args: seq<string>): (r: Run)
    ensures |args| != 1 ==> r == Run(fs, [Said(Usage("touch"))])
    ensures |args| == 1 && at(args[0]) in fs ==> r == Run(fs, [Said(FileExists)])
    ensures |args| == 1 && at(args[0]) !in fs && !ParentIsDir(fs, at(args[0])) ==> r == Run(fs, [Said(Failed("touch"))])
    ensures |args| == 1 && at(args[0]) !in fs && ParentIsDir(fs, at(args[0])) ==>
      r == Run(fs[at(args[0]) := File("")], [Said(FileCreated(FileName(args[0])))])
    ensures WellFormed(fs) && Locates(at) ==> WellFormed(r.disk)
  {
    if |args| != 1 then Run(fs, [Said(Usage("touch"))])
    else
      var p := at(args[0]);
      if p in fs then Run(fs, [Said(FileExists)])
      else match Create(fs, p, File(""))
        case Some(f) => Run(f, [Said(FileCreated(FileName(args[0])))])
        case None => Run(fs, [Said(Failed("touch"))])
  }

  /** A second `touch` of the same name only reports that the file exists. */
  lemma TouchTwice(fs: FileSystem, at: Resolver, name: string)
    requires Touch(fs, at, [name]).log != [Said(Failed("touch"))]
    ensures var once := Touch(fs, at, [name]);
      Touch(once.disk, at, [name]) == Run(once.disk, [Said(FileExists)])
  {
  }

  /**
    `rm` of one name: a missing name and a directory are reported and
    skipped; anything else is deleted.
  */
  function RemoveOne(fs: FileSystem, at: Resolver, name: string): (r: Run)
    requires WellFormed(fs)
    ensures at(name) !in fs ==> r == Run(fs, [Said(RemoveMissing(name))])
    ensures at(name) in fs && fs[at(name)] == Dir ==> r == Run(fs, [Said(RemoveIsDirectory(name))])
    ensures at(name) in fs && fs[at(name)] != Dir ==> r.disk.Keys == fs.Keys - {at(name)} && r.log == [Said(Removed(name))]
    ensures WellFormed(r.disk)
  {
    var p := at(name);
    if p !in fs then Run(fs, [Said(RemoveMissing(name))])
    else if fs[p] == Dir then Run(fs, [Said(RemoveIsDirectory(name))])
    else
      Run(Delete(fs, p), [Said(Removed(name))])
  }

  /** `rm` undoes a `touch` that created a file. */
  lemma RemoveUndoesTouch(fs: FileSystem, at: Resolver, name: string)
    requires WellFormed(fs) && Locates(at)
    requires at(name) !in fs && ParentIsDir(fs, at(name))
    ensures var touched := Touch(fs, at, [name]);
      RemoveOne(touched.disk, at, name) == Run(fs, [Said(Removed(name))])
  {
    var p := at(name);
    assert fs[p := File("")] - {p} == fs;
  }

  /** `rm` with its names, one after the other; no name is a usage error. */
  function Remove(fs: FileSystem, at: Resolver, names: seq<string>): (r: Run)
    requires WellFormed(fs)
    ensures names == [] ==> r == Run(fs, [Said(Usage("rm"))])
    ensures names != [] ==> |r.log| == |names|
    ensures WellFormed(r.disk)
  {
    if names == [] then Run(fs, [Said(Usage("rm"))]) else RemoveAll(fs, at, names)
  }

  function RemoveAll(fs: FileSystem, at: Resolver, names: seq<string>): (r: Run)
    requires WellFormed(fs)
    ensures |r.log| == |names|
    ensures WellFormed(r.disk)
    decreases |names|
  {
    if names == [] then Run(fs, [])
    else
      var first := RemoveOne(fs, at, names[0]);
      var rest := RemoveAll(first.disk, at, names[1..]);
      Run(rest.disk, first.log + rest.log)
  }

  /** The locations `rm` deletes: those of the names that are there and are not directories. */
  function Doomed(fs: FileSystem, at: Resolver, names: seq<string>): (r: set<Path>)
    ensures forall q :: q in r ==> q in fs && fs[q] != Dir && exists i :: 0 <= i < |names| && at(names[i]) == q
    ensures forall i :: 0 <= i < |names| && at(names[i]) in fs && fs[at(names[i])] != Dir ==> at(names[i]) in r
    decreases |names|
  {
    if names == [] then {}
    else (if at(names[0]) in fs && fs[at(names[0])] != Dir then {at(names[0])} else {}) + Doomed(fs, at, names[1..])
  }

  /** Once a leaf is gone, the names no longer doom it and doom everything else as before. */
  lemma {:induction false} DoomedAfterDelete(fs: FileSystem, at: Resolver, names: seq<string>, p: Path)
    ensures Doomed(fs - {p}, at, names) == Doomed(fs, at, names) - {p}
    decreases |names|
  {
    if names != [] {
      DoomedAfterDelete(fs, at, names[1..], p);
    }
  }

  /**
    `rm` deletes exactly the named nodes that are not directories, whatever
    the order of the names and however often one is repeated, and changes
    nothing else.
  */
  lemma {:induction false} RemoveDeletesExactly(fs: FileSystem, at: Resolver, names: seq<string>)
    requires WellFormed(fs)
    ensures var r := RemoveAll(fs, at, names);
      r.disk.Keys == fs.Keys - Doomed(fs, at, names) && forall q :: q in r.disk ==> r.disk[q] == fs[q]
    decreases |names|
  {
    if names != [] {
      var first := RemoveOne(fs, at, names[0]);
      RemoveDeletesExactly(first.disk, at, names[1..]);
      var p := at(names[0]);
      if p in fs && fs[p] != Dir {
        assert first.disk == fs - {p};
        DoomedAfterDelete(fs, at, names[1..], p);
      }
    }
  }

  // ---------------------------------------------------------------------
  // cp
  // ---------------------------------------------------------------------

  /** What `cp` makes of its arguments. */
  datatype CopyPlan = CopyRefused | CopyTree(source: string, destination: string) | CopyFile(source: string, destination: string)

  /**
    `cp -r source destination` copies a tree and `cp source destination` one
    node; any other number of arguments, and no argument at all, fails.
  */
  function PlanCopy(args: seq<string>): (plan: CopyPlan)
    ensures plan.CopyTree? <==> |args| == 3 && args[0] == "-r"
    ensures plan.CopyFile? <==> |args| == 2 && args[0] != "-r"
    ensures plan.CopyTree? ==> plan == CopyTree(args[1], args[2])
    ensures plan.CopyFile? ==> plan == CopyFile(args[0], args[1])
  {
    if args == [] then CopyRefused
    else if args[0] == "-r" then (if |args| == 3 then CopyTree(args[1], args[2]) else CopyRefused)
    else if |args| == 2 then CopyFile(args[0], args[1])
    else CopyRefused
  }

  /**
    `cp source destination`: the destination gets the source's node,
    replacing a file or an empty directory; copying a node onto itself does
    nothing.
  */
  function CopyOne(fs: FileSystem, at: Resolver, source: string, destination: string): (r: Run)
    ensures r.log == [Said(CopyCompleted)] || r == Run(fs, [Said(CopyFailed)])
    ensures WellFormed(fs) && Locates(at) ==> WellFormed(r.disk)
  {
    match CopyNode(fs, at(source), at(destination))
    case Some(f) => Run(f, [Said(CopyCompleted)])
    case None => Run(fs, [Said(CopyFailed)])
  }

  /**
    `cp` fails exactly when the source is missing, or when it is another
    node and the destination does not sit in a directory or is a directory
    that is not empty; when it succeeds the destination holds what the source
    held and nothing else changes.
  */
  lemma CopyOneCopies(fs: FileSystem, at: Resolver, source: string, destination: string)
    ensures var s, t := at(source), at(destination);
      var r := CopyOne(fs, at, source, destination);
      && (r.log == [Said(CopyFailed)] <==>
           s !in fs || (s != t && !(ParentIsDir(fs, t) && !(IsDir(fs, t) && HasChild(fs, t)))))
      && (r.log == [Said(CopyCompleted)] ==>
           && t in r.disk && r.disk[t] == fs[s]
           && (forall q :: q in fs && q != t ==> q in r.disk && r.disk[q] == fs[q])
           && (forall q :: q in r.disk && q != t ==> q in fs))
  {
  }
}
