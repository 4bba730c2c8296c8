/**
  `zip` and `unzip` (src/Terminal.java, zip, zipFiles, zipDirectory and
  unzip). An archive on disk is an `Archive` node holding its entries, each
  a name and the bytes of a file.
*/
module Archives {
  import opened Wrappers
  import opened Text
  import opened Paths
  import opened Disk
  import opened Reports
  import opened Walks

  // ---------------------------------------------------------------------
  // zip
  // ---------------------------------------------------------------------

  /** What `zip` makes of its arguments. */
  datatype ZipPlan =
    | ZipUsage                                   // fewer than two arguments
    | ZipFault                                   // `zip -r name` without a directory
    | ZipFlat(archive: string, files: seq<string>)
    | ZipTree(archive: string, source: string)

  /**
    `zip name file...` packs files; `zip -r name dir` packs a directory and
    ignores any further argument.
  */
  function PlanZip(args: seq<string>): (plan: ZipPlan)
    ensures plan == ZipUsage <==> |args| < 2
    ensures plan == ZipFault <==> |args| == 2 && args[0] == "-r"
    ensures plan.ZipTree? <==> |args| >= 3 && args[0] == "-r"
    ensures plan.ZipTree? ==> plan == ZipTree(args[1], args[2])
    ensures plan.ZipFlat? <==> |args| >= 2 && args[0] != "-r"
    ensures plan.ZipFlat? ==> plan == ZipFlat(args[0], args[1..])
  {
    if |args| < 2 then ZipUsage
    else if args[0] == "-r" then (if |args| == 2 then ZipFault else ZipTree(args[1], args[2]))
    else ZipFlat(args[0], args[1..])
  }

  /**
    `getFileName` of a file argument taken from the working directory `dir`
    when it is relative: the last name of the path as written, none for the
    root.
  */
  function EntryName(dir: Path, file: string): (name: Option<string>)
    ensures name.None? <==> Resolve(dir, Get(file)) == []
    ensures Get(file).segments != [] ==> name == Some(Get(file).segments[|Get(file).segments| - 1])
    ensures Normal(dir) && name.Some? ==> IsSegment(name.value)
  {
    var raw := Resolve(dir, Get(file));
    if raw == [] then None else Some(raw[|raw| - 1])
  }

  /** Entries packed so far, and whether packing went on to the end. */
  datatype Packed = Packed(entries: seq<Entry>, complete: bool)

  /** No two entries share a name. */
  predicate DistinctNames(entries: seq<Entry>)
  {
    forall k, j :: 0 <= k < j < |entries| ==> entries[k].name != entries[j].name
  }

  predicate NameTaken(entries: seq<Entry>, name: string)
  {
    exists i :: 0 <= i < |entries| && entries[i].name == name
  }

  /**
    One file of `zip name file...`, read at `here(file)`: a path without a
    name, and a name already in the archive, stop packing with no new entry;
    an entry is added otherwise, and packing stops after it, empty, unless
    the file is a plain file.
  */
  function PackStep(fs: FileSystem, dir: Path, here: Resolver, entries: seq<Entry>, file: string): (r: Packed)
    ensures EntryName(dir, file).None? ==> r == Packed(entries, false)
    ensures EntryName(dir, file).Some? && NameTaken(entries, EntryName(dir, file).value) ==> r == Packed(entries, false)
    ensures EntryName(dir, file).Some? && !NameTaken(entries, EntryName(dir, file).value) ==>
      && |r.entries| == |entries| + 1 && r.entries[..|entries|] == entries
      && r.entries[|entries|].name == EntryName(dir, file).value
      && (r.complete <==> here(file) in fs && fs[here(file)].File?)
      && r.entries[|entries|].content == (if r.complete then fs[here(file)].content else "")
  {
    match EntryName(dir, file)
    case None => Packed(entries, false)
    case Some(name) =>
      if NameTaken(entries, name) then Packed(entries, false)
      else
        var p := here(file);
        if p in fs && fs[p].File? then Packed(entries + [Entry(name, fs[p].content)], true)
        else Packed(entries + [Entry(name, "")], false)
  }

  /** The files packed one after the other, after the entries already there, until one fails. */
  function PackFrom(fs: FileSystem, dir: Path, here: Resolver, entries: seq<Entry>, files: seq<string>): (r: Packed)
    ensures |r.entries| >= |entries| && r.entries[..|entries|] == entries
    ensures |r.entries| <= |entries| + |files|
    decreases |files|
  {
    if files == [] then Packed(entries, true)
    else
      var step := PackStep(fs, dir, here, entries, files[0]);
      if !step.complete then step else PackFrom(fs, dir, here, step.entries, files[1..])
  }

  /**
    `zip name file...`: the archive is created, at `at(name)`, before any
    file is read, which fails when it cannot be written; what was packed
    when a file failed stays in the archive.
  */
  function ZipFiles(fs: FileSystem, at: Resolver, dir: Path, here: Resolver, zipName: string, files: seq<string>): (r: Run)
    ensures Create(fs, at(zipName), Archive([])).None? ==> r == Run(fs, [Said(ZipFilesFailed)])
    ensures Create(fs, at(zipName), Archive([])).Some? ==>
      var packed := PackFrom(fs[at(zipName) := Archive([])], dir, here, [], files);
      && r.disk == fs[at(zipName) := Archive(packed.entries)]
      && r.log == [Said(if packed.complete then ZipCreated(zipName) else ZipFilesFailed)]
    ensures WellFormed(fs) && Locates(at) ==> WellFormed(r.disk)
  {
    var z := at(zipName);
    match Create(fs, z, Archive([]))
    case None => Run(fs, [Said(ZipFilesFailed)])
    case Some(created) =>
      var packed := PackFrom(created, dir, here, [], files);
      var written := Create(fs, z, Archive(packed.entries));
      Run(written.value, [Said(if packed.complete then ZipCreated(zipName) else ZipFilesFailed)])
  }

  /** A name without separators, the only kind `mkdir` and `touch` take from the working directory. */
  predicate PlainNames(files: seq<string>)
  {
    forall i :: 0 <= i < |files| ==> IsName(files[i])
  }

  /** Each file has a name of its own, the last name of its path as written, and no two share one. */
  predicate DistinctBaseNames(dir: Path, files: seq<string>)
  {
    && (forall i :: 0 <= i < |files| ==> EntryName(dir, files[i]).Some?)
    && (forall i, j :: 0 <= i < j < |files| ==> EntryName(dir, files[i]) != EntryName(dir, files[j]))
  }

  /** The entries of files packed under their base names. */
  function FileEntries(fs: FileSystem, dir: Path, here: Resolver, files: seq<string>): (entries: seq<Entry>)
    requires forall i :: 0 <= i < |files| ==> EntryName(dir, files[i]).Some?
    requires forall i :: 0 <= i < |files| ==> here(files[i]) in fs && fs[here(files[i])].File?
    ensures |entries| == |files|
    ensures forall i :: 0 <= i < |files| ==> entries[i] == Entry(EntryName(dir, files[i]).value, fs[here(files[i])].content)
  {
    if files == [] then [] else [Entry(EntryName(dir, files[0]).value, fs[here(files[0])].content)] + FileEntries(fs, dir, here, files[1..])
  }

  /** A plain name taken from the working directory is its own entry name. */
  lemma PlainEntryName(dir: Path, name: string)
    requires IsName(name)
    ensures EntryName(dir, name) == Some(name)
  {
    SplitOnJoin([name], '/');
    assert Join("/", [name]) == name;
  }

  /** A name is taken after an entry is added when it was taken before or is the new entry's. */
  lemma NameTakenSnoc(entries: seq<Entry>, e: Entry, name: string)
    ensures NameTaken(entries + [e], name) <==> NameTaken(entries, name) || e.name == name
  {
    var more := entries + [e];
    if NameTaken(more, name) && e.name != name {
      var k :| 0 <= k < |more| && more[k].name == name;
      assert k < |entries| && entries[k] == more[k];
    }
    if NameTaken(entries, name) {
      var k :| 0 <= k < |entries| && entries[k].name == name;
      assert more[k] == entries[k];
    }
    if e.name == name {
      assert more[|entries|] == e;
    }
  }

  lemma SnocThenAppend(xs: seq<Entry>, x: Entry, ys: seq<Entry>)
    ensures (xs + [x]) + ys == xs + ([x] + ys)
  {
  }

  /**
    Packing files with distinct base names, none of them already in the
    archive, all of them plain files, never stops early and adds one entry
    per file, in order, with the file's base name and content.
  */
  lemma {:induction false} PackDistinctFiles(fs: FileSystem, dir: Path, here: Resolver, entries: seq<Entry>, files: seq<string>)
    requires DistinctBaseNames(dir, files)
    requires forall i :: 0 <= i < |files| ==> !NameTaken(entries, EntryName(dir, files[i]).value)
    requires forall i :: 0 <= i < |files| ==> here(files[i]) in fs && fs[here(files[i])].File?
    ensures PackFrom(fs, dir, here, entries, files) == Packed(entries + FileEntries(fs, dir, here, files), true)
    decreases |files|
  {
    if files != [] {
      var f := files[0];
      var rest := files[1..];
      var e := Entry(EntryName(dir, f).value, fs[here(f)].content);
      var next := entries + [e];
      assert PackStep(fs, dir, here, entries, f) == Packed(next, true);
      forall i | 0 <= i < |rest| ensures !NameTaken(next, EntryName(dir, rest[i]).value) {
        assert rest[i] == files[i + 1];
        NameTakenSnoc(entries, e, EntryName(dir, rest[i]).value);
      }
      assert DistinctBaseNames(dir, rest) by {
        forall i | 0 <= i < |rest| ensures EntryName(dir, rest[i]).Some? { assert rest[i] == files[i + 1]; }
        forall i, j | 0 <= i < j < |rest| ensures EntryName(dir, rest[i]) != EntryName(dir, rest[j]) {
          assert rest[i] == files[i + 1] && rest[j] == files[j + 1];
        }
      }
      assert forall i :: 0 <= i < |rest| ==> here(rest[i]) in fs && fs[here(rest[i])].File? by {
        forall i | 0 <= i < |rest| ensures here(rest[i]) in fs && fs[here(rest[i])].File? { assert rest[i] == files[i + 1]; }
      }
      assert PackFrom(fs, dir, here, entries, files) == PackFrom(fs, dir, here, next, rest);
      PackDistinctFiles(fs, dir, here, next, rest);
      assert FileEntries(fs, dir, here, files) == [e] + FileEntries(fs, dir, here, rest);
      SnocThenAppend(entries, e, FileEntries(fs, dir, here, rest));
    }
  }

  /**
    `zip name file...` of plain files with distinct base names, none of
    them the archive itself, into a place where an archive can be written:
    the archive holds one entry per file, in order, named by the last name
    of the file's path and holding its content, and success is reported.
  */
  lemma ZipDistinctFiles(fs: FileSystem, at: Resolver, dir: Path, here: Resolver, zipName: string, files: seq<string>)
    requires DistinctBaseNames(dir, files)
    requires ParentIsDir(fs, at(zipName)) && !IsDir(fs, at(zipName))
    requires forall i :: 0 <= i < |files| ==> here(files[i]) in fs && fs[here(files[i])].File? && here(files[i]) != at(zipName)
    ensures ZipFiles(fs, at, dir, here, zipName, files) ==
      Run(fs[at(zipName) := Archive(FileEntries(fs, dir, here, files))], [Said(ZipCreated(zipName))])
  {
    var z := at(zipName);
    var created := fs[z := Archive([])];
    assert Create(fs, z, Archive([])) == Some(created);
    FileEntriesElsewhere(fs, dir, here, files, z, Archive([]));
    PackDistinctFiles(created, dir, here, [], files);
    var entries := FileEntries(fs, dir, here, files);
    assert [] + entries == entries;
    assert Create(fs, z, Archive(entries)) == Some(fs[z := Archive(entries)]);
  }

  /** Writing a place that is none of the files leaves their entries as they were. */
  lemma FileEntriesElsewhere(fs: FileSystem, dir: Path, here: Resolver, files: seq<string>, z: Path, node: Node)
    requires forall i :: 0 <= i < |files| ==> EntryName(dir, files[i]).Some?
    requires forall i :: 0 <= i < |files| ==> here(files[i]) in fs && fs[here(files[i])].File? && here(files[i]) != z
    ensures forall i :: 0 <= i < |files| ==> here(files[i]) in fs[z := node] && fs[z := node][here(files[i])].File?
    ensures FileEntries(fs[z := node], dir, here, files) == FileEntries(fs, dir, here, files)
  {
    var a, b := FileEntries(fs[z := node], dir, here, files), FileEntries(fs, dir, here, files);
    assert |a| == |b|;
    forall i | 0 <= i < |files| ensures a[i] == b[i] {
    }
  }

  /**
    One node of the walk of `zip -r`: directories are skipped; a file
    becomes an entry named by its place relative to the directory zipped; an
    archive's bytes are not modelled, so its entry is left empty and the
    failure to copy it is reported.
  */
  function TreeEntry(fs: FileSystem, root: Path, p: Path): (r: (seq<Entry>, seq<Out>))
    requires Under(root, p)
    ensures p !in fs || fs[p] == Dir ==> r == ([], [])
    ensures p in fs && fs[p].File? ==> r == ([Entry(RelativeString(Relative(root, p)), fs[p].content)], [])
    ensures p in fs && fs[p].Archive? ==> r == ([Entry(RelativeString(Relative(root, p)), "")], [Said(ZipEntryFailed)])
  {
    if p !in fs || fs[p] == Dir then ([], [])
    else
      var name := RelativeString(Relative(root, p));
      if fs[p].File? then ([Entry(name, fs[p].content)], [])
      else ([Entry(name, "")], [Said(ZipEntryFailed)])
  }

  /** The entries `zip -r` writes for the walk so far, and what it reported. */
  function TreeEntries(fs: FileSystem, root: Path, order: seq<Path>): (r: (seq<Entry>, seq<Out>))
    requires AllUnder(root, order)
    ensures |r.0| <= |order|
    decreases |order|
  {
    if order == [] then ([], [])
    else
      var before := TreeEntries(fs, root, order[..|order| - 1]);
      var step := TreeEntry(fs, root, order[|order| - 1]);
      (before.0 + step.0, before.1 + step.1)
  }

  /**
    `zip -r name dir`: the archive is created first, and stays empty when
    the directory is missing; otherwise the walk of the disk, archive
    included, is packed and success is reported at the end.
  */
  function ZipDirectory(fs: FileSystem, at: Resolver, zipName: string, source: string, order: seq<Path>): (r: Run)
    requires AllUnder(at(source), order)
    ensures Create(fs, at(zipName), Archive([])).None? ==> r == Run(fs, [Said(ZipDirectoryFailed)])
    ensures Create(fs, at(zipName), Archive([])).Some? && at(source) !in fs[at(zipName) := Archive([])] ==>
      r == Run(fs[at(zipName) := Archive([])], [Said(ZipDirectoryFailed)])
    ensures Create(fs, at(zipName), Archive([])).Some? && at(source) in fs[at(zipName) := Archive([])] ==>
      var packed := TreeEntries(fs[at(zipName) := Archive([])], at(source), order);
      r == Run(fs[at(zipName) := Archive(packed.0)], packed.1 + [Said(DirectoryZipped)])
    ensures WellFormed(fs) && Locates(at) ==> WellFormed(r.disk)
  {
    var z := at(zipName);
    match Create(fs, z, Archive([]))
    case None => Run(fs, [Said(ZipDirectoryFailed)])
    case Some(created) =>
      var s := at(source);
      if s !in created then Run(created, [Said(ZipDirectoryFailed)])
      else
        var packed := TreeEntries(created, s, order);
        var written := Create(fs, z, Archive(packed.0));
        Run(written.value, packed.1 + [Said(DirectoryZipped)])
  }

  /** `e` is named by the place of a file or archive met in `order`. */
  predicate NamedFrom(fs: FileSystem, root: Path, order: seq<Path>, e: Entry)
    requires AllUnder(root, order)
  {
    exists i :: 0 <= i < |order| && order[i] in fs && fs[order[i]] != Dir && e.name == RelativeString(Relative(root, order[i]))
  }

  /** Every entry `zip -r` writes names the place of a file or archive in the tree. */
  lemma {:induction false} TreeEntriesNamed(fs: FileSystem, root: Path, order: seq<Path>)
    requires AllUnder(root, order)
    ensures forall k :: 0 <= k < |TreeEntries(fs, root, order).0| ==> NamedFrom(fs, root, order, TreeEntries(fs, root, order).0[k])
    decreases |order|
  {
    if order != [] {
      var init := order[..|order| - 1];
      var p := order[|order| - 1];
      TreeEntriesNamed(fs, root, init);
      var before := TreeEntries(fs, root, init).0;
      var entries := TreeEntries(fs, root, order).0;
      forall k | 0 <= k < |entries| ensures NamedFrom(fs, root, order, entries[k]) {
        if k < |before| {
          assert entries[k] == before[k];
          assert NamedFrom(fs, root, init, before[k]);
          var i :| 0 <= i < |init| && init[i] in fs && fs[init[i]] != Dir && before[k].name == RelativeString(Relative(root, init[i]));
          assert order[i] == init[i];
        } else {
          assert p in fs && fs[p] != Dir && entries[k].name == RelativeString(Relative(root, p));
        }
      }
    }
  }

  /** Different places under the same directory give different entry names. */
  lemma RelativeStringInjective(root: Path, p: Path, q: Path)
    requires Normal(p) && Normal(q) && Under(root, p) && Under(root, q) && p != q
    ensures RelativeString(Relative(root, p)) != RelativeString(Relative(root, q))
  {
    var a, b := Relative(root, p), Relative(root, q);
    assert forall i :: 0 <= i < |a| ==> a[i] == p[|root| + i];
    assert forall i :: 0 <= i < |b| ==> b[i] == q[|root| + i];
    GetRelativeString(a);
    GetRelativeString(b);
  }

  /**
    Over a walk without repeats of a well-formed disk, `zip -r` never writes
    two entries with the same name.
  */
  lemma {:induction false} TreeEntryNamesDistinct(fs: FileSystem, root: Path, order: seq<Path>)
    requires WellFormed(fs) && AllUnder(root, order) && Distinct(order)
    ensures DistinctNames(TreeEntries(fs, root, order).0)
    decreases |order|
  {
    if order != [] {
      var init := order[..|order| - 1];
      var p := order[|order| - 1];
      assert Distinct(init) && AllUnder(root, init);
      TreeEntryNamesDistinct(fs, root, init);
      TreeEntriesNamed(fs, root, init);
      var before := TreeEntries(fs, root, init).0;

      var entries := TreeEntries(fs, root, order).0;
      forall k, j | 0 <= k < j < |entries| ensures entries[k].name != entries[j].name {
        if j >= |before| {
          assert entries[j].name == RelativeString(Relative(root, p)) && p in fs;
          assert entries[k] == before[k];
          assert NamedFrom(fs, root, init, before[k]);
          var i :| 0 <= i < |init| && init[i] in fs && fs[init[i]] != Dir && before[k].name == RelativeString(Relative(root, init[i]));
          assert init[i] == order[i] && order[i] != p;
          RelativeStringInjective(root, init[i], p);
          assert before[k].name != entries[j].name;
        } else {
          assert entries[k] == before[k] && entries[j] == before[j];
          assert before[k].name != before[j].name;
        }
      }
    }
  }

  /** Every file met by the walk so far has its entry, named by its place, holding its content. */
  lemma {:induction false} TreeEntriesHaveFiles(fs: FileSystem, root: Path, order: seq<Path>)
    requires AllUnder(root, order)
    ensures var entries := TreeEntries(fs, root, order).0;
      forall i :: 0 <= i < |order| && order[i] in fs && fs[order[i]].File? ==>
        Entry(RelativeString(Relative(root, order[i])), fs[order[i]].content) in entries
    decreases |order|
  {
    if order != [] {
      var init := order[..|order| - 1];
      TreeEntriesHaveFiles(fs, root, init);
      var entries := TreeEntries(fs, root, order).0;
      var before := TreeEntries(fs, root, init).0;
      assert entries[..|before|] == before;
      forall i | 0 <= i < |order| && order[i] in fs && fs[order[i]].File?
        ensures Entry(RelativeString(Relative(root, order[i])), fs[order[i]].content) in entries
      {
        if i < |init| {
          assert order[i] == init[i];
          var e := Entry(RelativeString(Relative(root, init[i])), fs[init[i]].content);
          var k :| 0 <= k < |before| && before[k] == e;
          assert entries[k] == e;
        } else {
          assert entries[|before|] == Entry(RelativeString(Relative(root, order[i])), fs[order[i]].content);
        }
      }
    }
  }

  /** Archives in a tree are the only nodes `zip -r` reports on. */
  lemma {:induction false} TreeEntriesQuiet(fs: FileSystem, root: Path, order: seq<Path>)
    requires AllUnder(root, order)
    requires forall i :: 0 <= i < |order| ==> order[i] !in fs || !fs[order[i]].Archive?
    ensures TreeEntries(fs, root, order).1 == []
    decreases |order|
  {
    if order != [] {
      TreeEntriesQuiet(fs, root, order[..|order| - 1]);
    }
  }

  /**
    `zip -r name dir` over a walk of the directory: the archive holds, under
    distinct names, one entry for each file of the tree, named by its place
    below the directory and holding its content, and the command reports
    success last; when the archive lies outside the directory and the tree
    holds no archive, success is all it reports.
  */
  lemma ZipDirectoryHoldsEachFile(fs: FileSystem, at: Resolver, zipName: string, source: string, order: seq<Path>)
    requires WellFormed(fs) && Locates(at)
    requires ParentIsDir(fs, at(zipName)) && !IsDir(fs, at(zipName))
    requires at(source) in fs && at(source) != at(zipName)
    requires IsWalk(fs[at(zipName) := Archive([])], at(source), order)
    ensures AllUnder(at(source), order)
    ensures var r := ZipDirectory(fs, at, zipName, source, order);
      && at(zipName) in r.disk && r.disk[at(zipName)].Archive?
      && DistinctNames(r.disk[at(zipName)].entries)
      && (forall p :: p in fs && p != at(zipName) && Under(at(source), p) && fs[p].File? ==>
            Entry(RelativeString(Relative(at(source), p)), fs[p].content) in r.disk[at(zipName)].entries)
      && r.log[|r.log| - 1] == Said(DirectoryZipped)
    ensures !Under(at(source), at(zipName)) && (forall p :: p in fs && Under(at(source), p) ==> !fs[p].Archive?) ==>
      ZipDirectory(fs, at, zipName, source, order).log == [Said(DirectoryZipped)]
  {
    var z, s := at(zipName), at(source);
    var created := fs[z := Archive([])];
    assert created == Create(fs, z, Archive([])).value;
    assert WellFormed(created);
    assert AllUnder(s, order) by {
      forall i | 0 <= i < |order| ensures Under(s, order[i]) {
        assert order[i] in order;
      }
    }
    TreeEntryNamesDistinct(created, s, order);
    TreeEntriesHaveFiles(created, s, order);
    var entries := TreeEntries(created, s, order).0;
    forall p | p in fs && p != z && Under(s, p) && fs[p].File?
      ensures Entry(RelativeString(Relative(s, p)), fs[p].content) in entries
    {
      assert p in Subtree(created, s);
      var i :| 0 <= i < |order| && order[i] == p;
    }
    if !Under(s, z) && (forall p :: p in fs && Under(s, p) ==> !fs[p].Archive?) {
      forall i | 0 <= i < |order| ensures order[i] !in created || !created[order[i]].Archive? {
        assert Under(s, order[i]) && order[i] != z;
      }
      TreeEntriesQuiet(created, s, order);
    }
  }

  /**
    Each entry name of `zip -r`, read back as a path and located under any
    directory, is the place of its node relative to the directory zipped.
  */
  lemma TreeEntryNameLocates(base: Path, root: Path, p: Path)
    requires Normal(base) && Normal(p) && Under(root, p)
    ensures Locate(base, RelativeString(Relative(root, p))) == base + Relative(root, p)
  {
    var rest := Relative(root, p);
    assert forall i :: 0 <= i < |rest| ==> rest[i] == p[|root| + i];
    LocateRelativeString(base, rest);
  }

  // ---------------------------------------------------------------------
  // unzip
  // ---------------------------------------------------------------------

  /** What `unzip` makes of its arguments: the archive and where to put what it holds. */
  datatype UnzipPlan = UnzipUsage | UnzipFrom(archive: string, destination: Option<string>)

  /**
    `unzip archive [destination]`: double quotes are dropped from both; the
    destination is the last argument when there is more than one, and the
    working directory otherwise.
  */
  function PlanUnzip(args: seq<string>): (plan: UnzipPlan)
    ensures plan == UnzipUsage <==> args == []
    ensures |args| == 1 ==> plan == UnzipFrom(WithoutQuotes(args[0]), None)
    ensures |args| > 1 ==> plan == UnzipFrom(WithoutQuotes(args[0]), Some(WithoutQuotes(args[|args| - 1])))
  {
    if args == [] then UnzipUsage
    else if |args| == 1 then UnzipFrom(WithoutQuotes(args[0]), None)
    else UnzipFrom(WithoutQuotes(args[0]), Some(WithoutQuotes(args[|args| - 1])))
  }

  /**
    One entry put under `dest`: a directory entry is created with the
    directories above it; any other entry gets the directories above it,
    then replaces what is at its place with a file of its bytes.
    Names are resolved as written, so `..` and absolute names reach outside
    `dest`.
  */
  function ExtractEntry(fs: FileSystem, dest: Path, e: Entry): (r: Option<FileSystem>)
    requires Normal(dest)
    ensures IsDirectoryEntry(e) ==> r == CreateDirectories(fs, Locate(dest, e.name))
    ensures WellFormed(fs) && r.Some? ==> WellFormed(r.value)
  {
    var place := Locate(dest, e.name);
    if IsDirectoryEntry(e) then CreateDirectories(fs, place)
    else
      var raw := Resolve(dest, Get(e.name));
      var ready := if raw == [] then Some(fs) else CreateDirectories(fs, Normalize(raw[..|raw| - 1]));
      match ready
      case None => None
      case Some(f) => Replace(f, place, File(e.content))
  }

  /**
    A file entry that is extracted leaves a file of its bytes at its place,
    keeps every other node, and adds nothing else but directories.
  */
  lemma ExtractFileEntry(fs: FileSystem, dest: Path, e: Entry)
    requires Normal(dest) && !IsDirectoryEntry(e) && ExtractEntry(fs, dest, e).Some?
    ensures var place, r := Locate(dest, e.name), ExtractEntry(fs, dest, e).value;
      && place in r && r[place] == File(e.content)
      && (forall q :: q in fs && q != place ==> q in r && r[q] == fs[q])
      && (forall q :: q in r && q !in fs && q != place ==> r[q] == Dir)
  {
  }

  /** The disk after extracting, and whether every entry was extracted. */
  datatype Extracted = Extracted(disk: FileSystem, complete: bool)

  /** The entries put under `dest` in archive order; the first that fails stops the rest. */
  function Extract(fs: FileSystem, dest: Path, entries: seq<Entry>): (r: Extracted)
    requires Normal(dest)
    ensures WellFormed(fs) ==> WellFormed(r.disk)
    decreases |entries|
  {
    if entries == [] then Extracted(fs, true)
    else match ExtractEntry(fs, dest, entries[0])
      case None => Extracted(fs, false)
      case Some(f) => Extract(f, dest, entries[1..])
  }

  /**
    `unzip`: "Arguments:" is printed first. Without arguments, with a
    missing archive, with a destination that cannot be created and with an
    archive that is a directory, the command fails; a missing destination
    is created with the directories above it. A plain file read as an
    archive holds no entries. Success is reported only when every entry was
    extracted; what was extracted before a failure stays.
  */
  function Unzip(fs: FileSystem, at: Resolver, dir: Path, args: seq<string>): (r: Run)
    requires Normal(dir) && Locates(at)
    ensures |r.log| == 2 && r.log[0] == Said(UnzipArguments)
    ensures r.log[1] == Said(UnzipCompleted) ==> PlanUnzip(args).UnzipFrom? && at(PlanUnzip(args).archive) in fs
    ensures args == [] ==> r == Run(fs, [Said(UnzipArguments), Said(Failed("unzip"))])
    ensures args != [] && at(WithoutQuotes(args[0])) !in fs ==> r == Run(fs, [Said(UnzipArguments), Said(Failed("unzip"))])
    ensures WellFormed(fs) ==> WellFormed(r.disk)
  {
    match PlanUnzip(args)
    case UnzipUsage => Run(fs, [Said(UnzipArguments), Said(Failed("unzip"))])
    case UnzipFrom(archive, destination) =>
      var z := at(archive);
      var dest := if destination.None? then dir else at(destination.value);
      if z !in fs then Run(fs, [Said(UnzipArguments), Said(Failed("unzip"))])
      else
        var ready := if dest in fs then Some(fs) else CreateDirectories(fs, dest);
        match ready
        case None => Run(fs, [Said(UnzipArguments), Said(Failed("unzip"))])
        case Some(f) =>
          if f[z] == Dir then Run(f, [Said(UnzipArguments), Said(Failed("unzip"))])
          else
            var entries := if f[z].Archive? then f[z].entries else [];
            var x := Extract(f, dest, entries);
            Run(x.disk, [Said(UnzipArguments), Said(if x.complete then UnzipCompleted else Failed("unzip"))])
  }

  /** A name that stays inside the destination: relative, naming something, with neither `.` nor `..`. */
  predicate InsideName(name: string)
  {
    !Get(name).absolute && Get(name).segments != [] && Normal(Get(name).segments)
  }

  /**
    A file entry whose name stays inside the destination lands at the
    destination followed by its names, and it is extracted exactly when only
    directories lie on the way to the location that holds it and its place
    is not a directory with something in it.
  */
  lemma ExtractNestedEntry(fs: FileSystem, dest: Path, e: Entry)
    requires Normal(dest) && InsideName(e.name) && !IsDirectoryEntry(e)
    ensures var place := dest + Get(e.name).segments;
      && Locate(dest, e.name) == place
      && (ExtractEntry(fs, dest, e).Some? <==> OnlyDirsAlong(fs, place[..|place| - 1]) && !(IsDir(fs, place) && HasChild(fs, place)))
      && (ExtractEntry(fs, dest, e).Some? ==>
            forall q :: q in ExtractEntry(fs, dest, e).value && q !in fs && q != place ==> q in Ancestry(place[..|place| - 1]))
  {
    var place := dest + Get(e.name).segments;
    var up := place[..|place| - 1];
    InsideEntryUnfolds(fs, dest, e);
    if CreateDirectories(fs, up).Some? {
      CreatedAboveLeavesPlace(fs, up, place[|place| - 1]);
      assert place == up + [place[|place| - 1]];
    }
  }

  /** A file entry with a name inside the destination: the directories above its place, then its file. */
  lemma InsideEntryUnfolds(fs: FileSystem, dest: Path, e: Entry)
    requires Normal(dest) && InsideName(e.name) && !IsDirectoryEntry(e)
    ensures var place := dest + Get(e.name).segments;
      var up := place[..|place| - 1];
      && Locate(dest, e.name) == place && Normal(up)
      && ExtractEntry(fs, dest, e) ==
           (if CreateDirectories(fs, up).Some? then Replace(CreateDirectories(fs, up).value, place, File(e.content)) else None)
  {
    var segs := Get(e.name).segments;
    var place := dest + segs;
    NormalAppend(dest, segs);
    var up := place[..|place| - 1];
    assert up == dest + segs[..|segs| - 1];
    NormalAppend(dest, segs[..|segs| - 1]);
  }

  /** Creating the directories along `up` leaves what lies at and inside a name within it as it was. */
  lemma CreatedAboveLeavesPlace(fs: FileSystem, up: Path, name: string)
    requires CreateDirectories(fs, up).Some?
    ensures var f := CreateDirectories(fs, up).value;
      && ParentIsDir(f, up + [name])
      && (IsDir(f, up + [name]) <==> IsDir(fs, up + [name]))
      && (HasChild(f, up + [name]) <==> HasChild(fs, up + [name]))
  {
    var f := CreateDirectories(fs, up).value;
    var place := up + [name];
    assert place[..|place| - 1] == up;
    assert place !in fs ==> place !in f;
    assert HasChild(f, place) ==> HasChild(fs, place) by {
      if HasChild(f, place) {
        var q :| q in f && IsChild(place, q);
        assert q in fs;
      }
    }
  }

  /** The places the file entries of `entries` land on. */
  function FilePlaces(dest: Path, entries: seq<Entry>): set<Path>
    requires Normal(dest)
    decreases |entries|
  {
    if entries == [] then {}
    else (if IsDirectoryEntry(entries[0]) then {} else {Locate(dest, entries[0].name)}) + FilePlaces(dest, entries[1..])
  }

  /** A place that no file entry lands on is not among the places of the entries. */
  lemma {:induction false} FilePlacesMiss(dest: Path, entries: seq<Entry>, q: Path)
    requires Normal(dest)
    requires forall j :: 0 <= j < |entries| && !IsDirectoryEntry(entries[j]) ==> Locate(dest, entries[j].name) != q
    ensures q !in FilePlaces(dest, entries)
    decreases |entries|
  {
    if entries != [] {
      var rest := entries[1..];
      forall j | 0 <= j < |rest| && !IsDirectoryEntry(rest[j]) ensures Locate(dest, rest[j].name) != q {
        assert rest[j] == entries[j + 1];
      }
      FilePlacesMiss(dest, rest, q);
    }
  }

  /**
    Whatever the entries, and whether or not extraction completes, nothing is
    removed, a node changes only where a file entry lands, and every node
    added elsewhere is a directory.
  */
  lemma {:induction false} ExtractFrame(fs: FileSystem, dest: Path, entries: seq<Entry>)
    requires Normal(dest)
    ensures var x := Extract(fs, dest, entries);
      && (forall q :: q in fs ==> q in x.disk)
      && (forall q :: q in fs && q !in FilePlaces(dest, entries) ==> x.disk[q] == fs[q])
      && (forall q :: q in x.disk && q !in fs && q !in FilePlaces(dest, entries) ==> x.disk[q] == Dir)
    decreases |entries|
  {
    if entries != [] {
      match ExtractEntry(fs, dest, entries[0])
      case None =>
      case Some(f) =>
        if !IsDirectoryEntry(entries[0]) {
          ExtractFileEntry(fs, dest, entries[0]);
        }
        ExtractFrame(f, dest, entries[1..]);
    }
  }

  /** What an entry leaves at its place: a directory, or a file of its bytes. */
  function Landed(e: Entry): Node
  {
    if IsDirectoryEntry(e) then Dir else File(e.content)
  }

  /** The first entry, once extracted, stays at its place unless a later file entry lands there. */
  lemma FirstEntryStays(fs: FileSystem, dest: Path, entries: seq<Entry>)
    requires Normal(dest) && entries != [] && ExtractEntry(fs, dest, entries[0]).Some?
    requires Locate(dest, entries[0].name) !in FilePlaces(dest, entries[1..])
    ensures var place := Locate(dest, entries[0].name);
      var x := Extract(ExtractEntry(fs, dest, entries[0]).value, dest, entries[1..]);
      place in x.disk && x.disk[place] == Landed(entries[0])
  {
    var f := ExtractEntry(fs, dest, entries[0]).value;
    if !IsDirectoryEntry(entries[0]) {
      ExtractFileEntry(fs, dest, entries[0]);
    }
    assert Locate(dest, entries[0].name) in f && f[Locate(dest, entries[0].name)] == Landed(entries[0]);
    ExtractFrame(f, dest, entries[1..]);
  }

  /**
    When extraction completes, an entry that no later file entry lands on
    has the last word at its place: a file of its bytes, or a directory for
    a directory entry.
  */
  lemma {:induction false} ExtractLastWins(fs: FileSystem, dest: Path, entries: seq<Entry>, k: nat)
    requires Normal(dest) && k < |entries| && Extract(fs, dest, entries).complete
    requires Locate(dest, entries[k].name) !in FilePlaces(dest, entries[k + 1..])
    ensures var place := Locate(dest, entries[k].name);
      var x := Extract(fs, dest, entries);
      place in x.disk && x.disk[place] == Landed(entries[k])
    decreases |entries|
  {
    ExtractCompleteStep(fs, dest, entries);
    if k == 0 {
      FirstEntryStays(fs, dest, entries);
    } else {
      var rest := entries[1..];
      assert rest[k - 1] == entries[k] && rest[k..] == entries[k + 1..];
      ExtractLastWins(ExtractEntry(fs, dest, entries[0]).value, dest, rest, k - 1);
    }
  }

  /** A complete extraction extracts the first entry, then completes on the rest. */
  lemma ExtractCompleteStep(fs: FileSystem, dest: Path, entries: seq<Entry>)
    requires Normal(dest) && entries != [] && Extract(fs, dest, entries).complete
    ensures ExtractEntry(fs, dest, entries[0]).Some?
    ensures Extract(fs, dest, entries) == Extract(ExtractEntry(fs, dest, entries[0]).value, dest, entries[1..])
  {
  }

  /**
    `unzip` of an archive that exists: a missing destination that cannot be
    created makes the command fail and change nothing; otherwise the
    destination is there afterwards as a directory when it was missing, the
    archive is untouched by that, an archive that is a directory makes the
    command fail, and anything else has its entries (none for a plain file)
    extracted into the destination, success being reported exactly when
    every one was.
  */
  lemma UnzipOutcome(fs: FileSystem, at: Resolver, dir: Path, args: seq<string>)
    requires Normal(dir) && Locates(at) && args != []
    requires at(WithoutQuotes(args[0])) in fs
    ensures var plan := PlanUnzip(args);
      var z := at(plan.archive);
      var dest := if plan.destination.None? then dir else at(plan.destination.value);
      var r := Unzip(fs, at, dir, args);
      && (dest !in fs && !OnlyDirsAlong(fs, dest) ==> r == Run(fs, [Said(UnzipArguments), Said(Failed("unzip"))]))
      && (dest in fs || OnlyDirsAlong(fs, dest) ==>
            var ready := if dest in fs then fs else CreateDirectories(fs, dest).value;
            && (dest !in fs ==> IsDir(ready, dest))
            && z in ready && ready[z] == fs[z]
            && (fs[z] == Dir ==> r == Run(ready, [Said(UnzipArguments), Said(Failed("unzip"))]))
            && (fs[z] != Dir ==>
                  var x := Extract(ready, dest, if fs[z].Archive? then fs[z].entries else []);
                  r == Run(x.disk, [Said(UnzipArguments), Said(if x.complete then UnzipCompleted else Failed("unzip"))])))
  {
  }

  /** What extracting entries of plain names into an existing directory amounts to: one write after the other. */
  function WriteAll(fs: FileSystem, dest: Path, entries: seq<Entry>): FileSystem
    decreases |entries|
  {
    if entries == [] then fs else WriteAll(fs[dest + [entries[0].name] := File(entries[0].content)], dest, entries[1..])
  }

  predicate PlainEntries(entries: seq<Entry>)
  {
    forall i :: 0 <= i < |entries| ==> IsName(entries[i].name)
  }

  /** An entry with a plain name is written right inside an existing directory. */
  lemma ExtractPlainEntry(fs: FileSystem, dest: Path, e: Entry)
    requires WellFormed(fs) && Normal(dest) && IsDir(fs, dest) && IsName(e.name) && !IsDir(fs, dest + [e.name])
    ensures ExtractEntry(fs, dest, e) == Some(fs[dest + [e.name] := File(e.content)])
  {
    LocateName(dest, e.name);
    SplitOnJoin([e.name], '/');
    assert Join("/", [e.name]) == e.name;
    var raw := dest + [e.name];
    assert Resolve(dest, Get(e.name)) == raw;
    assert raw[..|raw| - 1] == dest;
    NormalizeNormal(dest);
    CreateExistingDirectory(fs, dest);
    assert !IsDirectoryEntry(e) by {
      assert e.name[|e.name| - 1] in e.name;
    }
  }

  /**
    Extracting entries with plain names into an existing directory, where
    none of those names is a directory, always completes; it writes each
    entry as a file right inside the directory, one after the other, and
    touches nothing else.
  */
  lemma {:induction false} ExtractPlain(fs: FileSystem, dest: Path, entries: seq<Entry>)
    requires WellFormed(fs) && Normal(dest) && IsDir(fs, dest) && PlainEntries(entries)
    requires forall i :: 0 <= i < |entries| ==> !IsDir(fs, dest + [entries[i].name])
    ensures Extract(fs, dest, entries) == Extracted(WriteAll(fs, dest, entries), true)
    decreases |entries|
  {
    if entries != [] {
      var e := entries[0];
      ExtractPlainEntry(fs, dest, e);
      var next := fs[dest + [e.name] := File(e.content)];
      assert dest + [e.name] != dest;
      forall i | 0 <= i < |entries[1..]| ensures !IsDir(next, dest + [entries[1..][i].name]) {
        assert entries[1..][i] == entries[i + 1];
      }
      NormalAppend(dest, [e.name]);
      ExtractPlain(next, dest, entries[1..]);
    }
  }

  /** The writes leave every place whose name no entry has as it was. */
  lemma {:induction false} WriteAllElsewhere(fs: FileSystem, dest: Path, entries: seq<Entry>, name: string)
    requires forall j :: 0 <= j < |entries| ==> entries[j].name != name
    ensures var w := WriteAll(fs, dest, entries);
      (dest + [name] in w <==> dest + [name] in fs) && (dest + [name] in fs ==> w[dest + [name]] == fs[dest + [name]])
    decreases |entries|
  {
    if entries != [] {
      var e := entries[0];
      assert dest + [e.name] != dest + [name] by { assert (dest + [e.name])[|dest|] == e.name; }
      var rest := entries[1..];
      assert forall j :: 0 <= j < |rest| ==> rest[j].name != name by {
        forall j | 0 <= j < |rest| ensures rest[j].name != name { assert rest[j] == entries[j + 1]; }
      }
      WriteAllElsewhere(fs[dest + [e.name] := File(e.content)], dest, rest, name);
    }
  }

  /** After the writes, a name holds the content of the last entry with that name. */
  lemma {:induction false} WriteAllLastWins(fs: FileSystem, dest: Path, entries: seq<Entry>, k: nat)
    requires k < |entries|
    requires forall j :: k < j < |entries| ==> entries[j].name != entries[k].name
    ensures var w := WriteAll(fs, dest, entries);
      dest + [entries[k].name] in w && w[dest + [entries[k].name]] == File(entries[k].content)
    decreases |entries|
  {
    var e := entries[0];
    var rest := entries[1..];
    var next := fs[dest + [e.name] := File(e.content)];
    if k == 0 {
      assert forall j :: 0 <= j < |rest| ==> rest[j].name != e.name by {
        forall j | 0 <= j < |rest| ensures rest[j].name != e.name { assert rest[j] == entries[j + 1]; }
      }
      WriteAllElsewhere(next, dest, rest, e.name);
    } else {
      assert rest[k - 1] == entries[k];
      assert forall j :: k - 1 < j < |rest| ==> rest[j].name != rest[k - 1].name by {
        forall j | k - 1 < j < |rest| ensures rest[j].name != rest[k - 1].name { assert rest[j] == entries[j + 1]; }
      }
      WriteAllLastWins(next, dest, rest, k - 1);
    }
  }

  /** Unzipping an archive of plain names into an existing directory writes each entry there and reports success. */
  lemma UnzipPlainArchive(fs: FileSystem, at: Resolver, dir: Path, zipName: string, destName: string, entries: seq<Entry>)
    requires WellFormed(fs) && Locates(at) && Normal(dir)
    requires '"' !in zipName && '"' !in destName
    requires at(zipName) in fs && fs[at(zipName)] == Archive(entries)
    requires IsDir(fs, at(destName)) && PlainEntries(entries)
    requires forall i :: 0 <= i < |entries| ==> !IsDir(fs, at(destName) + [entries[i].name])
    ensures Unzip(fs, at, dir, [zipName, destName]) ==
      Run(WriteAll(fs, at(destName), entries), [Said(UnzipArguments), Said(UnzipCompleted)])
  {
    assert PlanUnzip([zipName, destName]) == UnzipFrom(zipName, Some(destName));
    ExtractPlain(fs, at(destName), entries);
  }

  /**
    The round trip: plain files of the working directory zipped with
    `zip name file...`, then unzipped into an existing directory with
    `unzip name destination`, reappear in that directory, each holding what
    it held when it was zipped, and both commands report success.
  */
  lemma ZipThenUnzip(fs: FileSystem, at: Resolver, dir: Path, zipName: string, destName: string, files: seq<string>)
    requires WellFormed(fs) && Locates(at) && Normal(dir)
    requires PlainNames(files)
    requires forall i, j :: 0 <= i < j < |files| ==> files[i] != files[j]
    requires '"' !in zipName && '"' !in destName
    requires ParentIsDir(fs, at(zipName)) && !IsDir(fs, at(zipName))
    requires forall i :: 0 <= i < |files| ==> dir + [files[i]] in fs && fs[dir + [files[i]]].File? && dir + [files[i]] != at(zipName)
    requires IsDir(fs, at(destName))
    requires forall i :: 0 <= i < |files| ==> !IsDir(fs, at(destName) + [files[i]])
    ensures var zipped := ZipFiles(fs, at, dir, From(dir), zipName, files);
      var unzipped := Unzip(zipped.disk, at, dir, [zipName, destName]);
      && zipped.log == [Said(ZipCreated(zipName))]
      && unzipped.log == [Said(UnzipArguments), Said(UnzipCompleted)]
      && forall i :: 0 <= i < |files| ==>
           at(destName) + [files[i]] in unzipped.disk && unzipped.disk[at(destName) + [files[i]]] == fs[dir + [files[i]]]
  {
    var here := From(dir);
    var z := at(zipName);
    var dest := at(destName);
    forall i | 0 <= i < |files| ensures here(files[i]) == dir + [files[i]] && EntryName(dir, files[i]) == Some(files[i]) {
      LocateName(dir, files[i]);
      PlainEntryName(dir, files[i]);
    }
    ZipDistinctFiles(fs, at, dir, here, zipName, files);
    var entries := FileEntries(fs, dir, here, files);
    var zipped := fs[z := Archive(entries)];
    assert WellFormed(zipped) by {
      assert Create(fs, z, Archive(entries)) == Some(zipped);
    }
    assert IsDir(zipped, dest);
    forall i | 0 <= i < |entries| ensures !IsDir(zipped, dest + [entries[i].name]) && IsName(entries[i].name) {
      assert entries[i].name == files[i];
    }
    UnzipPlainArchive(zipped, at, dir, zipName, destName, entries);
    var w := WriteAll(zipped, dest, entries);
    forall i | 0 <= i < |files| ensures dest + [files[i]] in w && w[dest + [files[i]]] == fs[dir + [files[i]]] {
      assert entries[i] == Entry(files[i], fs[dir + [files[i]]].content);
      forall j | i < j < |entries| ensures entries[j].name != entries[i].name {
        assert entries[j].name == files[j];
      }
      WriteAllLastWins(zipped, dest, entries, i);
    }
  }

  // ---------------------------------------------------------------------
  // zip -r, then unzip
  // ---------------------------------------------------------------------

  /** The name of an entry of `zip -r` never ends with a separator, so it is never read back as a directory entry. */
  lemma TreeEntryIsFileEntry(rest: Path, content: string)
    requires Normal(rest) && rest != []
    ensures !IsDirectoryEntry(Entry(RelativeString(rest), content))
  {
    JoinEndsWithLast("/", rest);
    var last := rest[|rest| - 1];
    assert last[|last| - 1] in last;
  }

  /**
    Below `d`, `cur` holds only what mirrors the tree at `s`: each node has a
    node at the same place below `s`, and is a directory exactly when that
    one is.
  */
  ghost predicate Mirrors(cur: FileSystem, tree: FileSystem, s: Path, d: Path)
  {
    && WellFormed(cur) && IsDir(cur, d)
    && forall q :: q in cur && Under(d, q) && q != d ==>
         s + Relative(d, q) in tree && (cur[q] == Dir <==> tree[s + Relative(d, q)] == Dir)
  }

  /** The entry `zip -r` names after a node of the tree below `s` stays inside any destination and is a file entry. */
  lemma TreeEntryName(s: Path, p: Path, e: Entry)
    requires Normal(p) && Under(s, p) && p != s
    requires e.name == RelativeString(Relative(s, p))
    ensures Normal(Relative(s, p)) && InsideName(e.name) && Get(e.name).segments == Relative(s, p) && !IsDirectoryEntry(e)
  {
    var rel := Relative(s, p);
    assert Normal(rel) by { assert forall i :: 0 <= i < |rel| ==> rel[i] == p[|s| + i]; }
    GetRelativeString(rel);
    TreeEntryIsFileEntry(rel, e.content);
  }

  /**
    A file or archive of the tree at `s`, named by its place below `s`,
    extracted into `d` where the disk mirrors the tree: it is extracted, and
    the disk still mirrors the tree.
  */
  lemma ExtractMirroredEntry(cur: FileSystem, tree: FileSystem, s: Path, d: Path, p: Path, e: Entry)
    requires WellFormed(tree) && Mirrors(cur, tree, s, d)
    requires p in tree && tree[p] != Dir && Under(s, p) && p != s
    requires e.name == RelativeString(Relative(s, p))
    ensures ExtractEntry(cur, d, e).Some? && Mirrors(ExtractEntry(cur, d, e).value, tree, s, d)
  {
    TreeEntryName(s, p, e);
    ExtractNestedEntry(cur, d, e);
    var place := d + Relative(s, p);
    MirroredWayIsClear(cur, tree, s, d, p);
    var f := ExtractEntry(cur, d, e).value;
    ExtractFileEntry(cur, d, e);
    MirroredAfterEntry(cur, tree, s, d, p, f);
  }

  /** Where the disk mirrors the tree, the way to a node of the tree placed below `d` is clear and its place is no directory. */
  lemma MirroredWayIsClear(cur: FileSystem, tree: FileSystem, s: Path, d: Path, p: Path)
    requires WellFormed(tree) && Mirrors(cur, tree, s, d)
    requires p in tree && tree[p] != Dir && Under(s, p) && p != s
    ensures var place := d + Relative(s, p);
      OnlyDirsAlong(cur, place[..|place| - 1]) && !IsDir(cur, place)
  {
    var place := d + Relative(s, p);
    var up := place[..|place| - 1];
    forall i | 0 <= i <= |up| && up[..i] in cur ensures cur[up[..i]] == Dir {
      assert up[..i] == place[..i];
      MirroredAbove(cur, tree, s, d, p, i);
    }
    if place in cur {
      assert Under(d, place) && Relative(d, place) == Relative(s, p);
    }
  }

  /**
    The disk after a file of the tree is written at its place below `d`,
    with only directories along its way added, still mirrors the tree.
  */
  lemma MirroredAfterEntry(cur: FileSystem, tree: FileSystem, s: Path, d: Path, p: Path, f: FileSystem)
    requires WellFormed(tree) && Mirrors(cur, tree, s, d)
    requires p in tree && tree[p] != Dir && Under(s, p) && p != s
    requires var place := d + Relative(s, p);
      && WellFormed(f) && place in f && f[place].File?
      && (forall q :: q in cur && q != place ==> q in f && f[q] == cur[q])
      && (forall q :: q in f && q !in cur && q != place ==> f[q] == Dir && q in Ancestry(place[..|place| - 1]))
    ensures Mirrors(f, tree, s, d)
  {
    var place := d + Relative(s, p);
    var up := place[..|place| - 1];
    assert d in cur && d != place;
    forall q | q in f && Under(d, q) && q != d
      ensures s + Relative(d, q) in tree && (f[q] == Dir <==> tree[s + Relative(d, q)] == Dir)
    {
      if q == place {
        assert Relative(d, q) == Relative(s, p);
      } else if q !in cur {
        var i :| 0 <= i <= |up| && q == up[..i];
        assert q == place[..i];
        MirroredAbove(cur, tree, s, d, p, i);
      }
    }
  }

  /**
    On the way to a node of the tree placed below `d`, every location
    strictly below `d` mirrors a directory of the tree, and every location
    that exists on the disk is a directory.
  */
  lemma MirroredAbove(cur: FileSystem, tree: FileSystem, s: Path, d: Path, p: Path, i: nat)
    requires WellFormed(tree) && Mirrors(cur, tree, s, d)
    requires p in tree && Under(s, p) && p != s
    requires i < |d| + |Relative(s, p)|
    ensures var q := (d + Relative(s, p))[..i];
      && (|d| < i ==> Under(d, q) && q != d && s + Relative(d, q) in tree && tree[s + Relative(d, q)] == Dir)
      && (q in cur ==> cur[q] == Dir)
  {
    var rel := Relative(s, p);
    var q := (d + rel)[..i];
    if i <= |d| {
      assert q == d[..i];
      if i < |d| {
        AncestorIsDir(cur, d, i);
      } else {
        assert q == d;
      }
    } else {
      var j := |s| + i - |d|;
      assert Relative(d, q) == rel[..i - |d|];
      assert s + Relative(d, q) == p[..j];
      AncestorIsDir(tree, p, j);
    }
  }

  /**
    Entries each named by a file or archive of the tree at `s`, extracted
    into `d` where the disk mirrors the tree: every one of them is extracted.
  */
  lemma {:induction false} ExtractMirrored(cur: FileSystem, tree: FileSystem, s: Path, d: Path, order: seq<Path>, entries: seq<Entry>)
    requires WellFormed(tree) && IsDir(tree, s) && Mirrors(cur, tree, s, d) && AllUnder(s, order)
    requires forall k :: 0 <= k < |entries| ==> NamedFrom(tree, s, order, entries[k])
    ensures Extract(cur, d, entries).complete
    decreases |entries|
  {
    if entries != [] {
      var e := entries[0];
      assert NamedFrom(tree, s, order, e);
      var i :| 0 <= i < |order| && order[i] in tree && tree[order[i]] != Dir && e.name == RelativeString(Relative(s, order[i]));
      ExtractMirroredEntry(cur, tree, s, d, order[i], e);
      var rest := entries[1..];
      forall k | 0 <= k < |rest| ensures NamedFrom(tree, s, order, rest[k]) {
        assert rest[k] == entries[k + 1];
      }
      ExtractMirrored(ExtractEntry(cur, d, e).value, tree, s, d, order, rest);
    }
  }

  /**
    The round trip for directories: a directory zipped with `zip -r name
    dir` over a walk of it, then unzipped with `unzip name destination` into
    an empty directory that does not hold the archive: both commands report
    success, and every file of the tree reappears at its place below the
    destination, holding what it held when it was zipped.
  */
  lemma ZipTreeThenUnzip(fs: FileSystem, at: Resolver, dir: Path, zipName: string, source: string, destName: string, order: seq<Path>)
    requires WellFormed(fs) && Locates(at) && Normal(dir)
    requires '"' !in zipName && '"' !in destName
    requires ParentIsDir(fs, at(zipName)) && !IsDir(fs, at(zipName))
    requires IsDir(fs, at(source))
    requires IsWalk(fs[at(zipName) := Archive([])], at(source), order)
    requires IsDir(fs, at(destName)) && Subtree(fs, at(destName)) == {at(destName)} && !Under(at(destName), at(zipName))
    ensures AllUnder(at(source), order)
    ensures var zipped := ZipDirectory(fs, at, zipName, source, order);
      var unzipped := Unzip(zipped.disk, at, dir, [zipName, destName]);
      && zipped.log[|zipped.log| - 1] == Said(DirectoryZipped)
      && unzipped.log == [Said(UnzipArguments), Said(UnzipCompleted)]
      && forall p :: p in fs && p != at(zipName) && Under(at(source), p) && fs[p].File? ==>
           at(destName) + Relative(at(source), p) in unzipped.disk && unzipped.disk[at(destName) + Relative(at(source), p)] == fs[p]
  {
    var z, s, d := at(zipName), at(source), at(destName);
    var tree := fs[z := Archive([])];
    ZipDirectoryHoldsEachFile(fs, at, zipName, source, order);
    assert Create(fs, z, Archive([])) == Some(tree);
    assert WellFormed(tree);
    var entries := TreeEntries(tree, s, order).0;
    var zipped := fs[z := Archive(entries)];
    assert ZipDirectory(fs, at, zipName, source, order).disk == zipped;
    assert WellFormed(zipped);
    assert Mirrors(zipped, tree, s, d) by {
      forall q | q in zipped && Under(d, q) ensures q == d {
        assert q != z;
        assert q in Subtree(fs, d);
      }
    }
    TreeEntriesNamed(tree, s, order);
    ExtractMirrored(zipped, tree, s, d, order, entries);
    assert PlanUnzip([zipName, destName]) == UnzipFrom(zipName, Some(destName));
    var x := Extract(zipped, d, entries);
    assert Unzip(zipped, at, dir, [zipName, destName]) == Run(x.disk, [Said(UnzipArguments), Said(UnzipCompleted)]);
    forall p | p in fs && p != z && Under(s, p) && fs[p].File?
      ensures d + Relative(s, p) in x.disk && x.disk[d + Relative(s, p)] == fs[p]
    {
      UnzippedFileOfTree(tree, s, d, order, zipped, p);
    }
  }

  /** One file of the round trip: the last entry landing at its place is its own, so the place holds its bytes. */
  lemma UnzippedFileOfTree(tree: FileSystem, s: Path, d: Path, order: seq<Path>, zipped: FileSystem, p: Path)
    requires WellFormed(tree) && Normal(d) && IsDir(tree, s) && AllUnder(s, order)
    requires var entries := TreeEntries(tree, s, order).0;
      && DistinctNames(entries)
      && (forall k :: 0 <= k < |entries| ==> NamedFrom(tree, s, order, entries[k]))
      && Extract(zipped, d, entries).complete
    requires p in tree && Under(s, p) && tree[p].File?
    requires Entry(RelativeString(Relative(s, p)), tree[p].content) in TreeEntries(tree, s, order).0
    ensures var x := Extract(zipped, d, TreeEntries(tree, s, order).0);
      d + Relative(s, p) in x.disk && x.disk[d + Relative(s, p)] == tree[p]
  {
    var entries := TreeEntries(tree, s, order).0;
    var k :| 0 <= k < |entries| && entries[k] == Entry(RelativeString(Relative(s, p)), tree[p].content);
    TreeEntryName(s, p, entries[k]);
    TreeEntryNameLocates(d, s, p);
    var later := entries[k + 1..];
    forall j | 0 <= j < |later| && !IsDirectoryEntry(later[j])
      ensures Locate(d, later[j].name) != Locate(d, entries[k].name)
    {
      assert later[j] == entries[k + 1 + j];
      NamedPlacesDiffer(tree, s, d, order, later[j], entries[k]);
    }
    FilePlacesMiss(d, later, Locate(d, entries[k].name));
    ExtractLastWins(zipped, d, entries, k);
  }

  /** Entries of `zip -r` with different names land at different places. */
  lemma NamedPlacesDiffer(tree: FileSystem, s: Path, d: Path, order: seq<Path>, a: Entry, b: Entry)
    requires WellFormed(tree) && Normal(d) && AllUnder(s, order)
    requires NamedFrom(tree, s, order, a) && NamedFrom(tree, s, order, b) && a.name != b.name
    ensures Locate(d, a.name) != Locate(d, b.name)
  {
    var i :| 0 <= i < |order| && order[i] in tree && tree[order[i]] != Dir && a.name == RelativeString(Relative(s, order[i]));
    var j :| 0 <= j < |order| && order[j] in tree && tree[order[j]] != Dir && b.name == RelativeString(Relative(s, order[j]));
    TreeEntryNameLocates(d, s, order[i]);
    TreeEntryNameLocates(d, s, order[j]);
    var ri, rj := Relative(s, order[i]), Relative(s, order[j]);
    assert d + ri == d + rj ==> ri == rj by {
      assert (d + ri)[|d|..] == ri && (d + rj)[|d|..] == rj;
    }
  }
}
