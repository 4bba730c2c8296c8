/**
  Making and removing directories: `mkdir` and `rmdir`
  (src/Terminal.java, isPath, mkdir and rmdir).
*/
module Directories {
  import opened Text
  import opened Paths
  import opened Disk
  import opened Reports
  import opened Walks
  import Navigation

  /** `isPath`: whether a name contains a separator, "/" or "\". */
  function IsPath(s: string): (r: bool)
    ensures !r ==> Get(s) == PathName(false, if s == "" then [] else [s])
    ensures r <==> exists i :: 0 <= i < |s| && (s[i] == '/' || s[i] == '\\')
  {
    if '/' in s || '\\' in s then true
    else
      SplitOnJoin([s], '/');
      assert Join("/", [s]) == s;
      false
  }

  /**
    Where `mkdir` puts a name: a name with a separator is taken from the
    directory the program was launched in, any other inside the working
    directory.
  */
  function MkdirResolver(launch: Path, dir: Path): (at: Resolver)
    requires Normal(launch) && Normal(dir)
    ensures Locates(at)
    ensures forall name :: at(name) == if IsPath(name) then Locate(launch, name) else Locate(dir, name)
  {
    (name: string) => if IsPath(name) then Locate(launch, name) else Locate(dir, name)
  }

  /** A plain name is created right inside the working directory. */
  lemma MkdirPlainName(launch: Path, dir: Path, name: string)
    requires Normal(launch) && Normal(dir) && IsName(name) && !IsPath(name)
    ensures MkdirResolver(launch, dir)(name) == dir + [name]
  {
    LocateName(dir, name);
  }

  /**
    One directory of `mkdir`: an existing location is reported, whatever it
    holds; otherwise it is created with every missing directory above it,
    which fails when a file is in the way.
  */
  function MakeDirectory(fs: FileSystem, p: Path): (r: Run)
    ensures p in fs ==> r == Run(fs, [Said(DirectoryExists(p))])
    ensures p !in fs && OnlyDirsAlong(fs, p) ==> r.log == [Said(DirectoryCreated(p))] && IsDir(r.disk, p)
    ensures p !in fs && !OnlyDirsAlong(fs, p) ==> r == Run(fs, [Said(CreateFailed(p))])
    ensures forall q :: q in fs ==> q in r.disk && r.disk[q] == fs[q]
    ensures forall q :: q in r.disk && q !in fs ==> r.disk[q] == Dir
    ensures WellFormed(fs) && Normal(p) ==> WellFormed(r.disk)
  {
    if p in fs then Run(fs, [Said(DirectoryExists(p))])
    else match CreateDirectories(fs, p)
      case Some(f) => Run(f, [Said(DirectoryCreated(p))])
      case None => Run(fs, [Said(CreateFailed(p))])
  }

  /** `mkdir` with its names, one after the other. */
  function Mkdir(fs: FileSystem, at: Resolver, names: seq<string>): (r: Run)
    ensures forall q :: q in fs ==> q in r.disk && r.disk[q] == fs[q]
    ensures forall q :: q in r.disk && q !in fs ==> r.disk[q] == Dir
    ensures |r.log| == |names|
    decreases |names|
  {
    if names == [] then Run(fs, [])
    else
      var first := MakeDirectory(fs, at(names[0]));
      var rest := Mkdir(first.disk, at, names[1..]);
      Run(rest.disk, first.log + rest.log)
  }

  /** One report of `mkdir` about the location `p`. */
  predicate ReportsOn(out: Out, p: Path)
  {
    out == Said(DirectoryExists(p)) || out == Said(DirectoryCreated(p)) || out == Said(CreateFailed(p))
  }

  /**
    `mkdir` only adds directories, never changes what exists, prints one
    report per name, and every name it does not report as failed is there
    afterwards.
  */
  lemma {:induction false} MkdirOnlyAddsDirectories(fs: FileSystem, at: Resolver, names: seq<string>)
    ensures var r := Mkdir(fs, at, names);
      && (forall q :: q in fs ==> q in r.disk && r.disk[q] == fs[q])
      && (forall q :: q in r.disk && q !in fs ==> r.disk[q] == Dir)
      && |r.log| == |names|
      && (forall i :: 0 <= i < |names| ==> ReportsOn(r.log[i], at(names[i])))
      && (forall i :: 0 <= i < |names| && r.log[i] != Said(CreateFailed(at(names[i]))) ==> at(names[i]) in r.disk)
    decreases |names|
  {
    if names != [] {
      var first := MakeDirectory(fs, at(names[0]));
      MkdirOnlyAddsDirectories(first.disk, at, names[1..]);
      MkdirReportsStep(fs, at, names);
    }
  }

  /** The reports of `mkdir` past its first name are those of the rest of the names on the disk the first left. */
  lemma MkdirReportsStep(fs: FileSystem, at: Resolver, names: seq<string>)
    requires names != []
    requires var first := MakeDirectory(fs, at(names[0]));
      var rest := Mkdir(first.disk, at, names[1..]);
      && |first.log| == 1
      && (forall q :: q in first.disk ==> q in rest.disk)
      && |rest.log| == |names| - 1
      && (forall i :: 0 <= i < |names| - 1 ==> ReportsOn(rest.log[i], at(names[1..][i])))
      && (forall i :: 0 <= i < |names| - 1 && rest.log[i] != Said(CreateFailed(at(names[1..][i]))) ==> at(names[1..][i]) in rest.disk)
    ensures var r := Mkdir(fs, at, names);
      && |r.log| == |names|
      && (forall i :: 0 <= i < |names| ==> ReportsOn(r.log[i], at(names[i])))
      && (forall i :: 0 <= i < |names| && r.log[i] != Said(CreateFailed(at(names[i]))) ==> at(names[i]) in r.disk)
  {
    var first := MakeDirectory(fs, at(names[0]));
    var rest := Mkdir(first.disk, at, names[1..]);
    var r := Mkdir(fs, at, names);
    assert r == Run(rest.disk, first.log + rest.log);
    assert ReportsOn(first.log[0], at(names[0]));
    assert first.log[0] != Said(CreateFailed(at(names[0]))) ==> at(names[0]) in first.disk;
    forall i | 0 <= i < |names| ensures ReportsOn(r.log[i], at(names[i])) {
      if i > 0 {
        assert r.log[i] == rest.log[i - 1];
        assert names[1..][i - 1] == names[i];
      }
    }
    forall i | 0 <= i < |names| && r.log[i] != Said(CreateFailed(at(names[i]))) ensures at(names[i]) in r.disk {
      if i > 0 {
        assert r.log[i] == rest.log[i - 1];
        assert names[1..][i - 1] == names[i];
      }
    }
  }

  /**
    `mkdir name` followed by `cd name`, for a new plain name in an existing
    working directory: the directory is created and `cd` enters it.
  */
  lemma MkdirThenCd(fs: FileSystem, launch: Path, home: Path, dir: Path, name: string)
    requires WellFormed(fs) && Normal(launch) && Normal(home) && Normal(dir)
    requires IsDir(fs, dir) && IsName(name) && !IsPath(name) && dir + [name] !in fs
    ensures var r := Mkdir(fs, MkdirResolver(launch, dir), [name]);
      && r.log == [Said(DirectoryCreated(dir + [name]))]
      && Navigation.ChangeDirectory(r.disk, home, dir, [name]).dir == dir + [name]
  {
    var p := dir + [name];
    MkdirPlainName(launch, dir, name);
    LocateName(dir, name);
    NewChildIsCreatable(fs, dir, name);
    var made := MakeDirectory(fs, p);
    assert Mkdir(fs, MkdirResolver(launch, dir), [name]) == Run(made.disk, made.log + []) by {
      assert [name][1..] == [];
    }
    assert IsDir(made.disk, Locate(dir, name));
  }

  // ---------------------------------------------------------------------
  // rmdir
  // ---------------------------------------------------------------------

  /** The empty directories directly inside `d`. */
  function EmptySubdirectories(fs: FileSystem, d: Path): set<Path>
  {
    set q | q in Children(fs, d) && IsEmptyDir(fs, q)
  }

  /**
    The disk once `rmdir *` has gone through the working directory: its empty
    subdirectories are gone, files and non-empty directories stay.
  */
  function WithoutEmptySubdirectories(fs: FileSystem, d: Path): (r: FileSystem)
    ensures r.Keys == fs.Keys - EmptySubdirectories(fs, d)
    ensures forall q :: q in r ==> r[q] == fs[q]
    ensures WellFormed(fs) ==> WellFormed(r)
  {
    var r := map q | q in fs && q !in EmptySubdirectories(fs, d) :: fs[q];
    assert WellFormed(fs) ==> WellFormed(r) by {
      if WellFormed(fs) {
        forall q | q in r && q != [] ensures IsDir(r, q[..|q| - 1]) {
          var up := q[..|q| - 1];
          assert IsDir(fs, up);
          assert up !in EmptySubdirectories(fs, d) by {
            assert q in fs && IsChild(up, q);
          }
        }
        assert [] !in EmptySubdirectories(fs, d);
      }
    }
    r
  }

  /** What `rmdir *` prints for the nodes it lists, in listing order. */
  function DeletedLog(fs: FileSystem, order: seq<Path>): (log: seq<Out>)
    ensures forall k :: 0 <= k < |log| ==> log[k].Said? && log[k].message.EmptyDirectoryDeleted?
  {
    if order == [] then []
    else
      var last := order[|order| - 1];
      DeletedLog(fs, order[..|order| - 1])
        + (if last != [] && IsEmptyDir(fs, last) then [Said(EmptyDirectoryDeleted(last[|last| - 1]))] else [])
  }

  /** The deletion log is empty exactly when no listed node is an empty directory. */
  lemma {:induction false} DeletedLogEmpty(fs: FileSystem, order: seq<Path>)
    requires NoRootIn(order)
    ensures DeletedLog(fs, order) == [] <==> forall i :: 0 <= i < |order| ==> !IsEmptyDir(fs, order[i])
    decreases |order|
  {
    if order != [] {
      var init := order[..|order| - 1];
      DeletedLogEmpty(fs, init);
      assert forall i :: 0 <= i < |init| ==> init[i] == order[i];
    }
  }

  predicate NoRootIn(order: seq<Path>)
  {
    forall i :: 0 <= i < |order| ==> order[i] != []
  }

  /**
    `rmdir *` given the order the working directory is listed in: when it is
    not a directory or holds nothing, that is reported; otherwise every
    empty subdirectory is deleted and named, or it is reported that there
    was none.
  */
  function RmdirAll(fs: FileSystem, dir: Path, order: seq<Path>): (r: Run)
    ensures !IsDir(fs, dir) || Children(fs, dir) == {} ==> r == Run(fs, [Said(NoDirectories)])
    ensures IsDir(fs, dir) && Children(fs, dir) != {} ==> r.disk == WithoutEmptySubdirectories(fs, dir)
  {
    if !IsDir(fs, dir) || Children(fs, dir) == {} then Run(fs, [Said(NoDirectories)])
    else
      var log := DeletedLog(fs, order);
      Run(WithoutEmptySubdirectories(fs, dir), if log == [] then [Said(NoEmptyDirectories)] else log)
  }

  /**
    For a listing of the working directory, `rmdir *` reports that no empty
    directory was found exactly when there was none: every empty
    subdirectory is then deleted and named.
  */
  lemma RmdirAllReportsNoneOnlyWhenNone(fs: FileSystem, dir: Path, order: seq<Path>)
    requires IsListing(fs, dir, order) && IsDir(fs, dir) && Children(fs, dir) != {}
    ensures RmdirAll(fs, dir, order).log == [Said(NoEmptyDirectories)] <==> EmptySubdirectories(fs, dir) == {}
  {
    assert NoRootIn(order) by {
      forall i | 0 <= i < |order| ensures order[i] != [] {
        assert order[i] in Children(fs, dir);
      }
    }
    DeletedLogEmpty(fs, order);
    var log := DeletedLog(fs, order);
    assert RmdirAll(fs, dir, order).log == if log == [] then [Said(NoEmptyDirectories)] else log;
    if log != [] {
      assert log[0].message.EmptyDirectoryDeleted?;
    }
    if EmptySubdirectories(fs, dir) != {} {
      var q :| q in EmptySubdirectories(fs, dir);
      assert q in order;
      var i :| 0 <= i < |order| && order[i] == q;
      assert IsEmptyDir(fs, order[i]);
    } else {
      forall i | 0 <= i < |order| ensures !IsEmptyDir(fs, order[i]) {
        assert order[i] in Children(fs, dir);
        assert order[i] !in EmptySubdirectories(fs, dir);
      }
    }
  }

  /** The listed nodes that are empty directories, in listing order. */
  function EmptyListed(fs: FileSystem, order: seq<Path>): (r: seq<Path>)
    ensures forall q :: q in r <==> q in order && IsEmptyDir(fs, q)
    decreases |order|
  {
    if order == [] then []
    else
      var last := order[|order| - 1];
      EmptyListed(fs, order[..|order| - 1]) + (if IsEmptyDir(fs, last) then [last] else [])
  }

  /** Filtering a listing with distinct nodes keeps them distinct and leaves out the root. */
  lemma {:induction false} EmptyListedDistinct(fs: FileSystem, order: seq<Path>)
    requires Distinct(order) && NoRootIn(order)
    ensures Distinct(EmptyListed(fs, order)) && NoRootIn(EmptyListed(fs, order))
    decreases |order|
  {
    if order != [] {
      var init, last := order[..|order| - 1], order[|order| - 1];
      assert Distinct(init) && NoRootIn(init) by {
        assert forall i :: 0 <= i < |init| ==> init[i] == order[i];
      }
      EmptyListedDistinct(fs, init);
      assert last !in init by {
        forall i | 0 <= i < |init| ensures init[i] != last { assert init[i] == order[i]; }
      }
    }
  }

  /** The deletion log names the empty directories of the listing, one report each, in listing order. */
  lemma {:induction false} DeletedLogNames(fs: FileSystem, order: seq<Path>)
    requires NoRootIn(order)
    ensures var empties, log := EmptyListed(fs, order), DeletedLog(fs, order);
      && NoRootIn(empties) && |log| == |empties|
      && forall k :: 0 <= k < |log| ==> log[k] == Said(EmptyDirectoryDeleted(empties[k][|empties[k]| - 1]))
    decreases |order|
  {
    if order != [] {
      var init, last := order[..|order| - 1], order[|order| - 1];
      assert NoRootIn(init) by { assert forall i :: 0 <= i < |init| ==> init[i] == order[i]; }
      DeletedLogNames(fs, init);
      var e := EmptyListed(fs, init);
      var e' := EmptyListed(fs, order);
      assert e' == e + (if IsEmptyDir(fs, last) then [last] else []);
      assert NoRootIn(e') by {
        forall k | 0 <= k < |e'| ensures e'[k] != [] {
          if k < |e| { assert e'[k] == e[k]; }
        }
      }
      var got := DeletedLog(fs, order);
      forall k | 0 <= k < |got| ensures got[k] == Said(EmptyDirectoryDeleted(e'[k][|e'[k]| - 1])) {
        if k < |e| {
          assert e'[k] == e[k];
        }
      }
    }
  }

  /**
    For a listing of the working directory, `rmdir *` names every empty
    subdirectory exactly once, in the order of the listing, and nothing
    else.
  */
  lemma DeletedLogInListingOrder(fs: FileSystem, d: Path, order: seq<Path>)
    requires IsListing(fs, d, order)
    ensures var empties := EmptyListed(fs, order);
      && Distinct(empties) && NoRootIn(empties)
      && (forall q :: q in empties <==> q in EmptySubdirectories(fs, d))
      && var log := DeletedLog(fs, order);
         && |log| == |empties|
         && forall k :: 0 <= k < |log| ==> log[k] == Said(EmptyDirectoryDeleted(empties[k][|empties[k]| - 1]))
  {
    assert NoRootIn(order) by {
      forall i | 0 <= i < |order| ensures order[i] != [] {
        assert order[i] in Children(fs, d);
      }
    }
    EmptyListedDistinct(fs, order);
    DeletedLogNames(fs, order);
  }

  /**
    Whether the last name of `arg` is ".": the operating system refuses to
    delete a directory named that way, even an empty one.
  */
  predicate EndsInDot(arg: string)
  {
    var names := Get(arg).segments;
    names != [] && names[|names| - 1] == "."
  }

  /**
    `rmdir` of one named directory, taken from the launch directory unless
    absolute: it must be an existing directory, and an empty one; the root,
    and a directory named by a last name ".", cannot be deleted.
  */
  function RmdirOne(fs: FileSystem, at: Resolver, arg: string): (r: Run)
    ensures var p := at(arg);
      && (!IsDir(fs, p) ==> r == Run(fs, [Said(DirectoryMissing)]))
      && (IsDir(fs, p) && HasChild(fs, p) ==> r == Run(fs, [Said(DirectoryNotEmpty)]))
      && (IsEmptyDir(fs, p) && (p == [] || EndsInDot(arg)) ==> r == Run(fs, [Said(DeleteFailed)]))
      && (IsEmptyDir(fs, p) && p != [] && !EndsInDot(arg) ==> r.disk.Keys == fs.Keys - {p} && r.log == [Said(DirectoryDeleted)])
    ensures forall q :: q in r.disk ==> q in fs && r.disk[q] == fs[q]
    ensures WellFormed(fs) ==> WellFormed(r.disk)
  {
    var p := at(arg);
    if !IsDir(fs, p) then Run(fs, [Said(DirectoryMissing)])
    else if HasChild(fs, p) then Run(fs, [Said(DirectoryNotEmpty)])
    else if p == [] || EndsInDot(arg) then Run(fs, [Said(DeleteFailed)])
    else Run(Delete(fs, p), [Said(DirectoryDeleted)])
  }

  /** `rmdir .` never deletes the working directory, even when it is empty. */
  lemma RmdirDotKeepsDirectory(fs: FileSystem, at: Resolver)
    requires IsEmptyDir(fs, at("."))
    ensures RmdirOne(fs, at, ".") == Run(fs, [Said(DeleteFailed)])
  {
    assert Get(".").segments == ["."] by { SplitOnJoin(["."], '/'); }
  }

  /**
    Deleting an empty subdirectory of `d` leaves the other subdirectories of
    `d` as empty or non-empty as they were.
  */
  lemma SiblingStaysAsItWas(fs: FileSystem, d: Path, gone: Path, c: Path)
    requires IsChild(d, gone) && IsChild(d, c) && gone != c && !HasChild(fs, gone)
    ensures IsEmptyDir(Delete(fs, gone), c) <==> IsEmptyDir(fs, c)
  {
    var r := Delete(fs, gone);
    if HasChild(fs, c) {
      var q :| q in fs && IsChild(c, q);
      assert q != gone by { assert |q| == |c| + 1; }
    }
  }
}
