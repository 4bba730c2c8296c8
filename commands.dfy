/**
  The loops of the commands (src/Terminal.java): each goes through its
  arguments, the nodes of a directory, or the entries of an archive, one at
  a time, on a disk it updates as it goes, and ends where the function of
  the command's module says.
*/
module Commands {
  import opened Text
  import opened Paths
  import opened Disk
  import opened Reports
  import opened Walks
  import FileOps
  import Reading
  import Listing
  import Directories
  import TreeCopy
  import Archives

  /** The run `r` with `log` printed before it. */
  function Then(log: seq<Out>, r: Run): Run
  {
    Run(r.disk, log + r.log)
  }

  lemma ThenThen(a: seq<Out>, b: seq<Out>, r: Run)
    ensures Then(a, Then(b, r)) == Then(a + b, r)
  {
    assert a + (b + r.log) == a + b + r.log;
  }

  /** The loop of `rm`: each name is deleted, or reported and skipped. */
  method RemoveFiles(fs: FileSystem, at: Resolver, names: seq<string>) returns (r: Run)
    requires WellFormed(fs)
    ensures r == FileOps.RemoveAll(fs, at, names)
  {
    var cur := fs;
    var log: seq<Out> := [];
    for i := 0 to |names|
      invariant WellFormed(cur)
      invariant FileOps.RemoveAll(fs, at, names) == Then(log, FileOps.RemoveAll(cur, at, names[i..]))
    {
      assert names[i..][1..] == names[i + 1..];
      var step := FileOps.RemoveOne(cur, at, names[i]);
      ThenThen(log, step.log, FileOps.RemoveAll(step.disk, at, names[i + 1..]));
      cur, log := step.disk, log + step.log;
    }
    assert names[|names|..] == [];
    r := Run(cur, log);
  }

  /** The loop of `mkdir`: each name is reported as existing, created with the directories above it, or reported as failed. */
  method MakeDirectories(fs: FileSystem, at: Resolver, names: seq<string>) returns (r: Run)
    requires WellFormed(fs) && Locates(at)
    ensures r == Directories.Mkdir(fs, at, names)
    ensures WellFormed(r.disk)
  {
    var cur := fs;
    var log: seq<Out> := [];
    for i := 0 to |names|
      invariant WellFormed(cur)
      invariant Directories.Mkdir(fs, at, names) == Then(log, Directories.Mkdir(cur, at, names[i..]))
    {
      assert names[i..][1..] == names[i + 1..];
      var step := Directories.MakeDirectory(cur, at(names[i]));
      ThenThen(log, step.log, Directories.Mkdir(step.disk, at, names[i + 1..]));
      cur, log := step.disk, log + step.log;
    }
    assert names[|names|..] == [];
    r := Run(cur, log);
  }

  /** What `cat` has gathered once `text` comes before what the rest of the arguments gather. */
  function After(text: string, rest: Reading.Gathered): Reading.Gathered
  {
    if rest.Gathered? then Reading.Gathered(text + rest.text) else rest
  }

  /** The lines of one file as `cat` reads them: each appended with a line break. */
  method TerminateLines(lines: seq<string>) returns (text: string)
    ensures text == Terminated(lines)
  {
    text := "";
    for j := 0 to |lines|
      invariant text == Terminated(lines[..j])
    {
      assert lines[..j + 1] == lines[..j] + [lines[j]];
      TerminatedSnoc(lines[..j], lines[j]);
      text := text + lines[j] + Newline;
    }
    assert lines[..|lines|] == lines;
  }

  /** Reading the next file of `cat` appends its lines to what was gathered. */
  lemma GatherNext(fs: FileSystem, at: Resolver, args: seq<string>, i: nat, output: string)
    requires i < |args| && !Reading.IsOperator(args[i]) && at(args[i]) in fs && fs[at(args[i])].File?
    ensures After(output, Reading.Gather(fs, at, args[i..])) ==
      After(output + Terminated(Lines(fs[at(args[i])].content)), Reading.Gather(fs, at, args[i + 1..]))
  {
    assert args[i..][1..] == args[i + 1..];
    var rest := Reading.Gather(fs, at, args[i + 1..]);
    var text := Terminated(Lines(fs[at(args[i])].content));
    assert rest.Gathered? ==> output + (text + rest.text) == output + text + rest.text;
  }

  /**
    The loop of `cat`: up to the first redirection operator, each file's
    lines are appended, each with a line break; a missing or unreadable file
    stops it.
  */
  method GatherFiles(fs: FileSystem, at: Resolver, args: seq<string>) returns (g: Reading.Gathered)
    ensures g == Reading.Gather(fs, at, args)
  {
    var output := "";
    var i := 0;
    while i < |args| && !Reading.IsOperator(args[i])
      invariant 0 <= i <= |args|
      invariant Reading.Gather(fs, at, args) == After(output, Reading.Gather(fs, at, args[i..]))
    {
      var p := at(args[i]);
      if p !in fs {
        return Reading.NotFound(args[i]);
      }
      if !fs[p].File? {
        return Reading.Unreadable;
      }
      var text := TerminateLines(Lines(fs[p].content));
      GatherNext(fs, at, args, i, output);
      output := output + text;
      i := i + 1;
    }
    g := Reading.Gathered(output);
  }

  /** The counts of one file as `wc` reads it line by line. */
  method CountLines(content: seq<string>) returns (t: Reading.Tally)
    ensures t == Reading.Tally(|content|, Reading.WordCount(content), Reading.ByteCount(content))
  {
    var lines: nat, words: nat, bytes: nat := 0, 0, 0;
    for j := 0 to |content|
      invariant lines == j
      invariant words == Reading.WordCount(content[..j])
      invariant bytes == Reading.ByteCount(content[..j])
    {
      assert content[..j + 1][..j] == content[..j];
      lines := lines + 1;
      words := words + |SplitWhitespace(content[j])|;
      bytes := bytes + |content[j]| + 1;
    }
    assert content[..|content|] == content;
    t := Reading.Tally(lines, words, bytes);
  }

  /**
    The loop of `wc`: each file is counted and its counts added to the
    totals; a counts line is printed per file, then the totals, unless a
    name that is missing or a directory stops it first.
  */
  method CountFiles(fs: FileSystem, at: Resolver, names: seq<string>) returns (log: seq<Out>)
    ensures log == Reading.WcReport(fs, at, names, Reading.Tally(0, 0, 0))
  {
    log := [];
    var total := Reading.Tally(0, 0, 0);
    var i := 0;
    while i < |names|
      invariant 0 <= i <= |names|
      invariant Reading.WcReport(fs, at, names, Reading.Tally(0, 0, 0)) == log + Reading.WcReport(fs, at, names[i..], total)
    {
      assert names[i..][1..] == names[i + 1..];
      var p := at(names[i]);
      if p !in fs || fs[p] == Dir {
        return log + [Said(NoSuchFile)];
      }
      if fs[p].Archive? {
        return log + [Said(Failed("wc"))];
      }
      var t := CountLines(Lines(fs[p].content));
      var line := Said(Counts(names[i], t.lines, t.words, t.bytes));
      ghost var rest := Reading.WcReport(fs, at, names[i + 1..], Reading.Plus(total, t));
      assert log + ([line] + rest) == log + [line] + rest;
      log := log + [line];
      total := Reading.Plus(total, t);
      i := i + 1;
    }
    log := log + [Said(Totals(total.lines, total.words, total.bytes))];
  }

  /** The loop of `ls`: the nodes of `d`, in an order `File.listFiles` may take, one line each. */
  method ListDirectory(fs: FileSystem, d: Path) returns (text: string, ghost listed: seq<Path>)
    ensures IsListing(fs, d, listed) && Listing.NoRoot(listed)
    ensures text == Listing.LsText(fs, listed)
  {
    var visited: seq<Path> := [];
    var remaining := Children(fs, d);
    text := "";
    while remaining != {}
      invariant ListingSoFar(fs, d, visited, remaining)
      invariant Listing.NoRoot(visited)
      invariant text == Listing.LsText(fs, visited)
      decreases |remaining|
    {
      var n :| n in remaining;
      ListingStep(fs, d, visited, remaining, n);
      text := text + Listing.LsEntry(fs, n) + "\n";
      assert (visited + [n])[..|visited|] == visited;
      visited := visited + [n];
      remaining := remaining - {n};
    }
    ListingDone(fs, d, visited);
    listed := visited;
  }

  /** Some listing of `d` exists. */
  lemma ListAll(fs: FileSystem, d: Path) returns (order: seq<Path>)
    ensures IsListing(fs, d, order)
  {
    order := [];
    var remaining := Children(fs, d);
    while remaining != {}
      invariant ListingSoFar(fs, d, order, remaining)
      decreases |remaining|
    {
      var n :| n in remaining;
      ListingStep(fs, d, order, remaining, n);
      order := order + [n];
      remaining := remaining - {n};
    }
    ListingDone(fs, d, order);
  }

  /**
    Part of `rmdir *` is done: of the nodes listed so far, the empty
    directories are deleted and named; nothing else has changed, and the
    nodes still to come are empty exactly when they were at the start.
  */
  ghost predicate RemovedSoFar(fs: FileSystem, d: Path, visited: seq<Path>, remaining: set<Path>, cur: FileSystem, log: seq<Out>)
  {
    && ListingSoFar(fs, d, visited, remaining)
    && Directories.NoRootIn(visited)
    && WellFormed(cur)
    && (forall q :: q in cur <==> q in fs && !(q in visited && IsEmptyDir(fs, q)))
    && (forall q :: q in cur ==> cur[q] == fs[q])
    && (forall c :: c in remaining ==> (IsEmptyDir(cur, c) <==> IsEmptyDir(fs, c)))
    && log == Directories.DeletedLog(fs, visited)
  }

  lemma DeletedLogSnoc(fs: FileSystem, visited: seq<Path>, n: Path)
    ensures Directories.DeletedLog(fs, visited + [n]) ==
      Directories.DeletedLog(fs, visited) + (if n != [] && IsEmptyDir(fs, n) then [Said(EmptyDirectoryDeleted(n[|n| - 1]))] else [])
  {
    assert (visited + [n])[..|visited|] == visited;
  }

  /** `rmdir *` deleting the next listed node, an empty directory. */
  lemma RemoveAdvance(fs: FileSystem, d: Path, visited: seq<Path>, remaining: set<Path>, cur: FileSystem, log: seq<Out>, n: Path)
    requires WellFormed(fs) && RemovedSoFar(fs, d, visited, remaining, cur, log) && n in remaining
    requires IsEmptyDir(cur, n)
    ensures n != []
    ensures RemovedSoFar(fs, d, visited + [n], remaining - {n}, Delete(cur, n), log + [Said(EmptyDirectoryDeleted(n[|n| - 1]))])
  {
    ListingStep(fs, d, visited, remaining, n);
    DeletedLogSnoc(fs, visited, n);
    forall c | c in remaining - {n} ensures IsEmptyDir(Delete(cur, n), c) <==> IsEmptyDir(cur, c) {
      Directories.SiblingStaysAsItWas(cur, d, n, c);
    }
  }

  /** `rmdir *` keeping the next listed node, which is not an empty directory. */
  lemma KeepAdvance(fs: FileSystem, d: Path, visited: seq<Path>, remaining: set<Path>, cur: FileSystem, log: seq<Out>, n: Path)
    requires WellFormed(fs) && RemovedSoFar(fs, d, visited, remaining, cur, log) && n in remaining
    requires !IsEmptyDir(cur, n)
    ensures RemovedSoFar(fs, d, visited + [n], remaining - {n}, cur, log)
  {
    ListingStep(fs, d, visited, remaining, n);
    DeletedLogSnoc(fs, visited, n);
  }

  /**
    The loop of `rmdir *`: the nodes of `d`, in an order `File.listFiles`
    may take; each that is a directory and empty when it comes up is
    deleted and named.
  */
  method RemoveEmptyDirectories(fs: FileSystem, d: Path) returns (r: Run, ghost listed: seq<Path>)
    requires WellFormed(fs)
    ensures IsListing(fs, d, listed)
    ensures r == Directories.RmdirAll(fs, d, listed)
    ensures WellFormed(r.disk)
  {
    var remaining := Children(fs, d);
    if !IsDir(fs, d) || remaining == {} {
      listed := ListAll(fs, d);
      return Run(fs, [Said(NoDirectories)]), listed;
    }
    var cur := fs;
    var log: seq<Out> := [];
    var visited: seq<Path> := [];
    var foundEmpty := false;
    while remaining != {}
      invariant RemovedSoFar(fs, d, visited, remaining, cur, log)
      invariant foundEmpty <==> log != []
      decreases |remaining|
    {
      var n :| n in remaining;
      if IsDir(cur, n) && !HasChild(cur, n) {
        RemoveAdvance(fs, d, visited, remaining, cur, log, n);
        cur := Delete(cur, n);
        log := log + [Said(EmptyDirectoryDeleted(n[|n| - 1]))];
        foundEmpty := true;
      } else {
        KeepAdvance(fs, d, visited, remaining, cur, log, n);
      }
      visited := visited + [n];
      remaining := remaining - {n};
    }
    ListingDone(fs, d, visited);
    listed := visited;
    assert cur == Directories.WithoutEmptySubdirectories(fs, d);
    r := Run(cur, if foundEmpty then log else [Said(NoEmptyDirectories)]);
  }

  /** Part of `cp -r` is done: the nodes of `visited`, walked so far, are copied. */
  ghost predicate CopiedSoFar(fs: FileSystem, s: Path, d: Path, visited: seq<Path>, remaining: set<Path>, r: Run)
  {
    && WalkSoFar(fs, s, visited, remaining)
    && AllUnder(s, visited)
    && r == TreeCopy.CopyWalk(fs, s, d, visited)
  }

  /** Copying the next node of the walk. */
  lemma CopyAdvance(fs: FileSystem, s: Path, d: Path, visited: seq<Path>, remaining: set<Path>, r: Run, n: Path)
    requires CopiedSoFar(fs, s, d, visited, remaining, r)
    requires n in remaining && MayComeNext(fs, s, visited, n)
    ensures Under(s, n)
    ensures CopiedSoFar(fs, s, d, visited + [n], remaining - {n},
      Then(r.log, TreeCopy.CopyStep(r.disk, n, TreeCopy.Target(s, d, n))))
  {
    WalkStep(fs, s, visited, remaining, n);
    CopyNext(fs, s, d, visited, n);
  }

  /** The copy of one more node is the copy so far followed by that node's step. */
  lemma CopyNext(fs: FileSystem, s: Path, d: Path, visited: seq<Path>, n: Path)
    requires AllUnder(s, visited) && Under(s, n)
    ensures AllUnder(s, visited + [n])
    ensures var r := TreeCopy.CopyWalk(fs, s, d, visited);
      TreeCopy.CopyWalk(fs, s, d, visited + [n]) == Then(r.log, TreeCopy.CopyStep(r.disk, n, TreeCopy.Target(s, d, n)))
  {
    var v := visited + [n];
    assert v[..|visited|] == visited;
    TreeCopy.CopyWalkLast(fs, s, d, v);
  }

  /**
    The loop of `cp -r`: the nodes under `s`, in an order `Files.walk` may
    take; a directory is created at its place under `d` unless something is
    there, anything else is copied over its place; a failure is reported
    and the walk goes on.
  */
  method CopyTree(fs: FileSystem, s: Path, d: Path) returns (r: Run, ghost walked: seq<Path>)
    requires WellFormed(fs) && Normal(d)
    ensures IsWalk(fs, s, walked) && AllUnder(s, walked)
    ensures r == TreeCopy.CopyWalk(fs, s, d, walked)
  {
    var cur := fs;
    var log: seq<Out> := [];
    var visited: seq<Path> := [];
    var remaining := Subtree(fs, s);
    WalkStart(fs, s);
    while remaining != {}
      invariant CopiedSoFar(fs, s, d, visited, remaining, Run(cur, log))
      decreases |remaining|
    {
      ghost var next := WalkCanGoOn(fs, s, visited, remaining);
      var n :| n in remaining && MayComeNext(fs, s, visited, n);
      assert |remaining - {n}| < |remaining|;
      CopyAdvance(fs, s, d, visited, remaining, Run(cur, log), n);
      var step := TreeCopy.CopyStep(cur, n, TreeCopy.Target(s, d, n));
      cur, log := step.disk, log + step.log;
      visited := visited + [n];
      remaining := remaining - {n};
    }
    WalkDone(fs, s, visited);
    walked := visited;
    r := Run(cur, log);
  }

  /**
    The loop of `zip name file...`: each file is packed under its name
    until one fails.
  */
  method PackFiles(fs: FileSystem, dir: Path, here: Resolver, files: seq<string>) returns (p: Archives.Packed)
    ensures p == Archives.PackFrom(fs, dir, here, [], files)
  {
    var entries: seq<Entry> := [];
    var i := 0;
    while i < |files|
      invariant 0 <= i <= |files|
      invariant Archives.PackFrom(fs, dir, here, [], files) == Archives.PackFrom(fs, dir, here, entries, files[i..])
    {
      assert files[i..][1..] == files[i + 1..];
      match Archives.EntryName(dir, files[i])
      case None =>
        return Archives.Packed(entries, false);
      case Some(name) =>
        if Archives.NameTaken(entries, name) {
          return Archives.Packed(entries, false);
        }
        var f := here(files[i]);
        if f in fs && fs[f].File? {
          entries := entries + [Entry(name, fs[f].content)];
        } else {
          return Archives.Packed(entries + [Entry(name, "")], false);
        }
      i := i + 1;
    }
    assert files[|files|..] == [];
    p := Archives.Packed(entries, true);
  }

  /** Part of `zip -r` is done: the nodes of `visited`, walked so far, are packed. */
  ghost predicate PackedSoFar(fs: FileSystem, root: Path, visited: seq<Path>, remaining: set<Path>, packed: (seq<Entry>, seq<Out>))
  {
    && WalkSoFar(fs, root, visited, remaining)
    && AllUnder(root, visited)
    && packed == Archives.TreeEntries(fs, root, visited)
  }

  /** Packing the next node of the walk. */
  lemma PackAdvance(fs: FileSystem, root: Path, visited: seq<Path>, remaining: set<Path>, packed: (seq<Entry>, seq<Out>), n: Path)
    requires PackedSoFar(fs, root, visited, remaining, packed)
    requires n in remaining && MayComeNext(fs, root, visited, n)
    ensures Under(root, n)
    ensures var step := Archives.TreeEntry(fs, root, n);
      PackedSoFar(fs, root, visited + [n], remaining - {n}, (packed.0 + step.0, packed.1 + step.1))
  {
    WalkStep(fs, root, visited, remaining, n);
    PackNext(fs, root, visited, n);
  }

  /** The entries of one more node are the entries so far followed by that node's. */
  lemma PackNext(fs: FileSystem, root: Path, visited: seq<Path>, n: Path)
    requires AllUnder(root, visited) && Under(root, n)
    ensures AllUnder(root, visited + [n])
    ensures var before, step := Archives.TreeEntries(fs, root, visited), Archives.TreeEntry(fs, root, n);
      Archives.TreeEntries(fs, root, visited + [n]) == (before.0 + step.0, before.1 + step.1)
  {
    var v := visited + [n];
    assert v[..|visited|] == visited;
  }

  /**
    The loop of `zip -r`: the nodes under `root`, in an order `Files.walk`
    may take; directories are skipped, a file is packed under its place
    below the root, and an archive gets an empty entry and a report.
  */
  method PackTree(fs: FileSystem, root: Path) returns (entries: seq<Entry>, log: seq<Out>, ghost walked: seq<Path>)
    requires WellFormed(fs)
    ensures IsWalk(fs, root, walked) && AllUnder(root, walked)
    ensures (entries, log) == Archives.TreeEntries(fs, root, walked)
  {
    entries, log := [], [];
    var visited: seq<Path> := [];
    var remaining := Subtree(fs, root);
    WalkStart(fs, root);
    while remaining != {}
      invariant PackedSoFar(fs, root, visited, remaining, (entries, log))
      decreases |remaining|
    {
      ghost var next := WalkCanGoOn(fs, root, visited, remaining);
      var n :| n in remaining && MayComeNext(fs, root, visited, n);
      assert |remaining - {n}| < |remaining|;
      PackAdvance(fs, root, visited, remaining, (entries, log), n);
      var step := Archives.TreeEntry(fs, root, n);
      entries, log := entries + step.0, log + step.1;
      visited := visited + [n];
      remaining := remaining - {n};
    }
    WalkDone(fs, root, visited);
    walked := visited;
  }

  /**
    The loop of `unzip`: each entry is put under `dest` in archive order,
    the directories above it created first; the first that fails stops it.
  */
  method ExtractAll(fs: FileSystem, dest: Path, entries: seq<Entry>) returns (x: Archives.Extracted)
    requires WellFormed(fs) && Normal(dest)
    ensures x == Archives.Extract(fs, dest, entries)
  {
    var cur := fs;
    for i := 0 to |entries|
      invariant WellFormed(cur)
      invariant Archives.Extract(fs, dest, entries) == Archives.Extract(cur, dest, entries[i..])
    {
      assert entries[i..][1..] == entries[i + 1..];
      match Archives.ExtractEntry(cur, dest, entries[i])
      case None => return Archives.Extracted(cur, false);
      case Some(f) => cur := f;
    }
    assert entries[|entries|..] == [];
    x := Archives.Extracted(cur, true);
  }

  /**
    `zip -r name dir`: the archive is opened for writing first, and the walk
    then sees it on the disk; the archive is written with what was packed.
  */
  method ZipTree(fs: FileSystem, at: Resolver, zipName: string, source: string) returns (r: Run, ghost walked: seq<Path>)
    requires WellFormed(fs) && Locates(at)
    ensures AllUnder(at(source), walked)
    ensures var z, s := at(zipName), at(source);
      Create(fs, z, Archive([])).Some? && s in fs[z := Archive([])] ==> IsWalk(fs[z := Archive([])], s, walked)
    ensures r == Archives.ZipDirectory(fs, at, zipName, source, walked)
    ensures WellFormed(r.disk)
  {
    var z, s := at(zipName), at(source);
    walked := [];
    match Create(fs, z, Archive([]))
    case None =>
      r := Run(fs, [Said(ZipDirectoryFailed)]);
    case Some(created) =>
      if s !in created {
        return Run(created, [Said(ZipDirectoryFailed)]), walked;
      }
      var entries, log;
      entries, log, walked := PackTree(created, s);
      r := Run(Create(fs, z, Archive(entries)).value, log + [Said(DirectoryZipped)]);
  }

  /**
    `unzip archive [destination]`: "Arguments:" is printed first; the
    destination is created when missing, then every entry is extracted
    under it in archive order.
  */
  method UnzipArchive(fs: FileSystem, at: Resolver, dir: Path, args: seq<string>) returns (r: Run)
    requires WellFormed(fs) && Normal(dir) && Locates(at)
    ensures r == Archives.Unzip(fs, at, dir, args)
    ensures WellFormed(r.disk)
  {
    var failed := [Said(UnzipArguments), Said(Failed("unzip"))];
    match Archives.PlanUnzip(args)
    case UnzipUsage =>
      r := Run(fs, failed);
    case UnzipFrom(archive, destination) =>
      var z := at(archive);
      var dest := if destination.None? then dir else at(destination.value);
      if z !in fs {
        return Run(fs, failed);
      }
      var cur := fs;
      if dest !in fs {
        match CreateDirectories(fs, dest)
        case None =>
          return Run(fs, failed);
        case Some(f) =>
          cur := f;
      }
      if cur[z] == Dir {
        return Run(cur, failed);
      }
      var entries := if cur[z].Archive? then cur[z].entries else [];
      var x := ExtractAll(cur, dest, entries);
      r := Run(x.disk, [Said(UnzipArguments), Said(if x.complete then UnzipCompleted else Failed("unzip"))]);
  }
}
