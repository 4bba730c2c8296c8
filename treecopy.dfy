/**
  `cp -r source destination` (src/Terminal.java, cpDashR): every node the
  walk of the source yields is copied to the same place under the
  destination, directories by creating them, everything else with
  `Files.copy`.
*/
module TreeCopy {
  import opened Wrappers
  import opened Paths
  import opened Disk
  import opened Reports
  import opened Walks

  /** `destination.resolve(source.relativize(p))`. */
  function Target(s: Path, d: Path, p: Path): (t: Path)
    requires Under(s, p)
    ensures Under(d, t) && Relative(d, t) == Relative(s, p)
  {
    d + Relative(s, p)
  }

  /**
    Where the destination of the copy of a node lies: normalizing the
    resolved destination with the node's relative names appended is the
    destination's own location with those names appended.
  */
  lemma TargetLocation(launch: Path, destination: string, rest: Path)
    requires Normal(launch) && Normal(rest)
    ensures Normalize(Resolve(launch, Get(destination)) + rest) == Locate(launch, destination) + rest
  {
    var raw := Resolve(launch, Get(destination));
    assert Segments(raw);
    NormalizeConcat(raw, rest);
    NormalAppend(Locate(launch, destination), rest);
  }

  /**
    One node of the walk, looked at on the disk as it is by then: a
    directory is created at its target unless something is there already;
    anything else is copied over the target. A failure is reported and the
    walk goes on.
  */
  function CopyStep(cur: FileSystem, p: Path, t: Path): (r: Run)
    ensures r.log == [] || r == Run(cur, [Said(CopyFailed)])
    ensures IsDir(cur, p) && t in cur ==> r == Run(cur, [])
    ensures IsDir(cur, p) && t !in cur && !OnlyDirsAlong(cur, t) ==> r == Run(cur, [Said(CopyFailed)])
    ensures IsDir(cur, p) && t !in cur && OnlyDirsAlong(cur, t) ==> r == Run(CreateDirectories(cur, t).value, [])
    ensures !IsDir(cur, p) ==> (r.log == [] <==> CopyNode(cur, p, t).Some?)
    ensures !IsDir(cur, p) && CopyNode(cur, p, t).Some? ==> r == Run(CopyNode(cur, p, t).value, [])
    ensures WellFormed(cur) && Normal(t) ==> WellFormed(r.disk)
  {
    if IsDir(cur, p) then
      if t in cur then Run(cur, [])
      else match CreateDirectories(cur, t)
        case Some(f) => Run(f, [])
        case None => Run(cur, [Said(CopyFailed)])
    else match CopyNode(cur, p, t)
      case Some(f) => Run(f, [])
      case None => Run(cur, [Said(CopyFailed)])
  }

  /** The walk's nodes copied one after the other, each on the disk the earlier ones left. */
  function CopyWalk(fs: FileSystem, s: Path, d: Path, order: seq<Path>): (r: Run)
    requires AllUnder(s, order)
    ensures forall i :: 0 <= i < |r.log| ==> r.log[i] == Said(CopyFailed)
    ensures WellFormed(fs) && Normal(d) && (forall i :: 0 <= i < |order| ==> Normal(order[i])) ==> WellFormed(r.disk)
    decreases |order|
  {
    if order == [] then Run(fs, [])
    else
      var before := CopyWalk(fs, s, d, order[..|order| - 1]);
      var p := order[|order| - 1];
      assert Normal(p) ==> Normal(Relative(s, p));
      var t := Target(s, d, p);
      assert Normal(d) && Normal(p) ==> Normal(t) by {
        if Normal(d) && Normal(p) { NormalAppend(d, Relative(s, p)); }
      }
      var step := CopyStep(before.disk, p, t);
      Run(step.disk, before.log + step.log)
  }

  /**
    `cp -r`: a missing source is reported and nothing is copied; otherwise
    the walk is copied and success is reported at the end, whatever single
    nodes failed on the way.
  */
  function CpDashR(fs: FileSystem, at: Resolver, source: string, destination: string, order: seq<Path>): (r: Run)
    requires AllUnder(at(source), order)
    ensures at(source) !in fs ==> r == Run(fs, [Said(Failed("cp -r"))])
    ensures at(source) in fs ==>
      && |r.log| >= 1 && r.log[|r.log| - 1] == Said(CopyCompleted)
      && forall i :: 0 <= i < |r.log| - 1 ==> r.log[i] == Said(CopyFailed)
    ensures WellFormed(fs) && Locates(at) && (forall i :: 0 <= i < |order| ==> Normal(order[i])) ==> WellFormed(r.disk)
  {
    var s := at(source);
    if s !in fs then Run(fs, [Said(Failed("cp -r"))])
    else
      var w := CopyWalk(fs, s, at(destination), order);
      Run(w.disk, w.log + [Said(CopyCompleted)])
  }

  /**
    The walk so far has been copied into a destination that did not exist:
    the original nodes are all still there as they were, every new node lies
    under the destination and is the copy of a visited node, and every
    visited node has its copy.
  */
  ghost predicate CopiedSoFar(fs: FileSystem, s: Path, d: Path, visited: seq<Path>, cur: FileSystem)
  {
    && WellFormed(cur)
    && (forall q :: q in fs ==> q in cur && cur[q] == fs[q])
    && (forall q :: q in cur && q !in fs ==> Under(d, q) && s + Relative(d, q) in visited)
    && (forall p :: p in visited ==> p in fs && Under(s, p))
    && (forall p {:trigger Target(s, d, p)} :: p in visited ==> Target(s, d, p) in cur && cur[Target(s, d, p)] == fs[p])
  }

  /** Nothing of a well-formed disk lies under a location it does not have. */
  lemma NothingUnderMissing(fs: FileSystem, d: Path)
    requires WellFormed(fs) && d !in fs
    ensures forall q :: q in fs ==> !Under(d, q)
  {
    forall q | q in fs && |d| <= |q| ensures q[..|d|] != d {
      if |d| < |q| {
        AncestorIsDir(fs, q, |d|);
      } else {
        assert q[..|d|] == q;
      }
    }
  }

  /** The target of the next node of the walk is free. */
  lemma TargetIsFree(fs: FileSystem, s: Path, d: Path, visited: seq<Path>, cur: FileSystem, p: Path)
    requires WellFormed(fs) && d !in fs
    requires forall q :: q in cur && q !in fs ==> Under(d, q) && s + Relative(d, q) in visited
    requires Under(s, p) && p !in visited
    ensures Target(s, d, p) !in cur
  {
    var t := Target(s, d, p);
    NothingUnderMissing(fs, d);
    assert s + Relative(d, t) == p;
  }

  /** The directory the target of the next node of the walk goes in is there. */
  lemma TargetHasParent(fs: FileSystem, s: Path, d: Path, visited: seq<Path>, cur: FileSystem, p: Path)
    requires WellFormed(fs) && ParentIsDir(fs, d)
    requires forall q :: q in fs ==> q in cur && cur[q] == fs[q]
    requires forall p :: p in visited ==> p in fs && Under(s, p)
    requires forall p {:trigger Target(s, d, p)} :: p in visited ==> Target(s, d, p) in cur && cur[Target(s, d, p)] == fs[p]
    requires p in fs && Under(s, p) && (p == s || Up(p) in visited)
    ensures ParentIsDir(cur, Target(s, d, p))
  {
    var t := Target(s, d, p);
    if p == s {
      assert t == d;
    } else {
      var u := Up(p);
      assert fs[u] == Dir;
      assert t[..|t| - 1] == Target(s, d, u);
    }
  }

  /** A node copied to a free place inside a directory lands there, and nothing fails. */
  lemma CopyStepAdds(cur: FileSystem, p: Path, t: Path)
    requires WellFormed(cur) && p in cur && p != t && t !in cur && ParentIsDir(cur, t)
    ensures CopyStep(cur, p, t) == Run(cur[t := cur[p]], [])
  {
    if IsDir(cur, p) {
      CreateOneDirectory(cur, t);
    }
  }

  /** Recording the copy of the next node keeps the invariant of the walk. */
  lemma CopiedSoFarExtends(fs: FileSystem, s: Path, d: Path, visited: seq<Path>, cur: FileSystem, p: Path)
    requires CopiedSoFar(fs, s, d, visited, cur)
    requires p in fs && Under(s, p)
    requires Target(s, d, p) !in cur && WellFormed(cur[Target(s, d, p) := fs[p]])
    ensures CopiedSoFar(fs, s, d, visited + [p], cur[Target(s, d, p) := fs[p]])
  {
    var t := Target(s, d, p);
    var next := cur[t := fs[p]];
    forall q | q in next && q !in fs ensures Under(d, q) && s + Relative(d, q) in visited + [p] {
      if q == t {
        assert s + Relative(d, q) == p;
      }
    }
    forall p' | p' in visited + [p] ensures Target(s, d, p') in next && next[Target(s, d, p')] == fs[p'] {
      if p' != p {
        assert Target(s, d, p') in cur;
      }
    }
  }

  /** Copying the next node of the walk into a fresh destination puts its copy there and fails nowhere. */
  lemma CopyStepExtends(fs: FileSystem, s: Path, d: Path, visited: seq<Path>, cur: FileSystem, p: Path)
    requires WellFormed(fs) && Normal(d) && d !in fs && ParentIsDir(fs, d)
    requires CopiedSoFar(fs, s, d, visited, cur)
    requires p in Subtree(fs, s) && p !in visited && (p == s || Up(p) in visited)
    ensures CopyStep(cur, p, Target(s, d, p)) == Run(cur[Target(s, d, p) := fs[p]], [])
    ensures CopiedSoFar(fs, s, d, visited + [p], cur[Target(s, d, p) := fs[p]])
  {
    var t := Target(s, d, p);
    TargetIsFree(fs, s, d, visited, cur, p);
    TargetHasParent(fs, s, d, visited, cur, p);
    NormalAppend(d, Relative(s, p));
    NothingUnderMissing(fs, d);
    CopyStepAdds(cur, p, t);
    var step := CopyStep(cur, p, t);
    assert WellFormed(step.disk);
    CopiedSoFarExtends(fs, s, d, visited, cur, p);
  }

  /** A walk prefix: no node twice, all in the subtree, each after its directory. */
  ghost predicate WalkPrefix(fs: FileSystem, s: Path, order: seq<Path>)
  {
    && Distinct(order)
    && (forall i :: 0 <= i < |order| ==> order[i] in Subtree(fs, s))
    && (forall i {:trigger Up(order[i])} :: 0 <= i < |order| && order[i] != s ==> Up(order[i]) in order[..i])
  }

  /** A walk prefix without its last node is one too, and that node comes after its directory. */
  lemma WalkPrefixInit(fs: FileSystem, s: Path, order: seq<Path>)
    requires WalkPrefix(fs, s, order) && order != []
    ensures var init, p := order[..|order| - 1], order[|order| - 1];
      && WalkPrefix(fs, s, init) && p in Subtree(fs, s) && p !in init && (p == s || Up(p) in init)
  {
    var n := |order| - 1;
    var init, p := order[..n], order[n];
    forall i, j | 0 <= i < j < |init| ensures init[i] != init[j] {
      assert init[i] == order[i] && init[j] == order[j];
    }
    forall i | 0 <= i < |init| ensures init[i] in Subtree(fs, s) && init[i] != p {
      assert init[i] == order[i];
    }
    forall i | 0 <= i < |init| && init[i] != s ensures Up(init[i]) in init[..i] {
      assert init[i] == order[i];
      assert init[..i] == order[..i];
      assert Up(order[i]) in order[..i];
    }
    assert p != s ==> Up(order[n]) in order[..n];
  }

  /** Copying a walk prefix into a fresh destination fails nowhere and leaves a copy of each visited node. */
  lemma {:induction false} CopyWalkSoFar(fs: FileSystem, s: Path, d: Path, order: seq<Path>)
    requires WellFormed(fs) && Normal(d) && d !in fs && ParentIsDir(fs, d)
    requires WalkPrefix(fs, s, order)
    ensures AllUnder(s, order)
    ensures CopyWalk(fs, s, d, order).log == []
    ensures CopiedSoFar(fs, s, d, order, CopyWalk(fs, s, d, order).disk)
    decreases |order|
  {
    if order != [] {
      var init := order[..|order| - 1];
      var p := order[|order| - 1];
      WalkPrefixInit(fs, s, order);
      CopyWalkSoFar(fs, s, d, init);
      CopyWalkSoFarStep(fs, s, d, order);
    } else {
      assert CopyWalk(fs, s, d, order).disk == fs;
    }
  }

  /** Copying one more node, one whose directory was copied already, keeps a faithful copy without failing. */
  lemma CopyWalkSoFarStep(fs: FileSystem, s: Path, d: Path, order: seq<Path>)
    requires WellFormed(fs) && Normal(d) && d !in fs && ParentIsDir(fs, d)
    requires order != []
    requires var init, p := order[..|order| - 1], order[|order| - 1];
      && AllUnder(s, init)
      && CopyWalk(fs, s, d, init).log == []
      && CopiedSoFar(fs, s, d, init, CopyWalk(fs, s, d, init).disk)
      && p in Subtree(fs, s) && p !in init && (p == s || Up(p) in init)
    ensures AllUnder(s, order)
    ensures CopyWalk(fs, s, d, order).log == []
    ensures CopiedSoFar(fs, s, d, order, CopyWalk(fs, s, d, order).disk)
  {
    var init, p := order[..|order| - 1], order[|order| - 1];
    assert init + [p] == order;
    var before := CopyWalk(fs, s, d, init);
    CopyStepExtends(fs, s, d, init, before.disk, p);
    CopyWalkLast(fs, s, d, order);
  }

  /** The copy of a walk is the copy of all but its last node, followed by that node's step. */
  lemma CopyWalkLast(fs: FileSystem, s: Path, d: Path, order: seq<Path>)
    requires AllUnder(s, order) && order != []
    ensures var init, p := order[..|order| - 1], order[|order| - 1];
      var before := CopyWalk(fs, s, d, init);
      var step := CopyStep(before.disk, p, Target(s, d, p));
      CopyWalk(fs, s, d, order) == Run(step.disk, before.log + step.log)
  {
  }

  /**
    `cp -r` into a destination that does not exist yet, inside an existing
    directory: only success is reported; afterwards every node of the
    source has its copy at the same relative place under the destination,
    holding what it held; the original nodes are untouched, and nothing new
    appears outside the destination or without a node it copies.
  */
  lemma CopyIntoFreshDestination(fs: FileSystem, at: Resolver, source: string, destination: string, order: seq<Path>)
    requires WellFormed(fs) && Locates(at)
    requires at(source) in fs && at(destination) !in fs && ParentIsDir(fs, at(destination))
    requires IsWalk(fs, at(source), order)
    ensures AllUnder(at(source), order)
    ensures var s, d := at(source), at(destination);
      var r := CpDashR(fs, at, source, destination, order);
      && r.log == [Said(CopyCompleted)]
      && (forall p :: p in Subtree(fs, s) ==> Target(s, d, p) in r.disk && r.disk[Target(s, d, p)] == fs[p])
      && (forall q :: q in fs ==> q in r.disk && r.disk[q] == fs[q])
      && (forall q :: q in r.disk && q !in fs ==> Under(d, q) && s + Relative(d, q) in Subtree(fs, s))
  {
    var s, d := at(source), at(destination);
    assert WalkPrefix(fs, s, order);
    CopyWalkSoFar(fs, s, d, order);
  }

  // -------------------------------------------------------------------
  // Copying into a directory that exists already
  // -------------------------------------------------------------------

  /** Neither of two locations lies below the other. */
  predicate Apart(s: Path, d: Path)
  {
    !Under(s, d) && !Under(d, s)
  }

  /** A location below two others tells that one of those lies below the other. */
  lemma UnderBoth(s: Path, d: Path, p: Path)
    requires Under(s, p) && Under(d, p)
    ensures !Apart(s, d)
  {
    if |s| <= |d| {
      assert d[..|s|] == p[..|s|];
    } else {
      assert s[..|d|] == p[..|d|];
    }
  }

  /**
    Whatever the destination holds already at the place of a node of the
    source is a directory exactly when that node is one.
  */
  ghost predicate Compatible(fs: FileSystem, s: Path, d: Path)
  {
    forall p :: p in Subtree(fs, s) && Target(s, d, p) in fs ==> (IsDir(fs, p) <==> IsDir(fs, Target(s, d, p)))
  }

  /**
    The walk so far has been copied into the destination: every node of the
    disk is still there, and is unchanged unless it is the target of a
    visited node; every new node lies under the destination and is the
    target of a visited node; every visited node's target holds what the
    node holds.
  */
  ghost predicate MergedSoFar(fs: FileSystem, s: Path, d: Path, visited: seq<Path>, cur: FileSystem)
  {
    && WellFormed(cur)
    && (forall q :: q in fs ==> q in cur && (cur[q] == fs[q] || (Under(d, q) && s + Relative(d, q) in visited)))
    && (forall q :: q in cur && q !in fs ==> Under(d, q) && s + Relative(d, q) in visited)
    && (forall p :: p in visited ==> p in fs && Under(s, p))
    && (forall p {:trigger Target(s, d, p)} :: p in visited ==> Target(s, d, p) in cur && cur[Target(s, d, p)] == fs[p])
  }

  /**
    The next node of the walk is copied over its target: a directory is
    kept or created, anything else overwrites what was there.
  */
  lemma MergeStepDisk(fs: FileSystem, s: Path, d: Path, visited: seq<Path>, cur: FileSystem, p: Path)
    requires WellFormed(fs) && IsDir(fs, d) && Apart(s, d) && Compatible(fs, s, d)
    requires MergedSoFar(fs, s, d, visited, cur)
    requires p in Subtree(fs, s) && p !in visited && (p == s || Up(p) in visited)
    ensures CopyStep(cur, p, Target(s, d, p)) == Run(cur[Target(s, d, p) := fs[p]], [])
    ensures WellFormed(cur[Target(s, d, p) := fs[p]])
  {
    var t := Target(s, d, p);
    NormalAppend(d, Relative(s, p));
    assert s + Relative(d, t) == p;
    if cur[p] != fs[p] {
      UnderBoth(s, d, p);
    }
    assert t in cur ==> t in fs && cur[t] == fs[t];
    if p == s {
      assert t == d;
    } else {
      assert Target(s, d, Up(p)) == t[..|t| - 1];
      assert fs[Up(p)] == Dir;
    }
    if IsDir(fs, p) {
      if t in cur {
        assert cur[t := fs[p]] == cur;
      } else {
        CreateOneDirectory(cur, t);
      }
    } else {
      if p == t {
        UnderBoth(s, d, p);
      }
    }
  }

  /** Recording the copy of the next node keeps the invariant of the walk. */
  lemma MergedSoFarExtends(fs: FileSystem, s: Path, d: Path, visited: seq<Path>, cur: FileSystem, p: Path)
    requires MergedSoFar(fs, s, d, visited, cur)
    requires p in fs && Under(s, p)
    requires WellFormed(cur[Target(s, d, p) := fs[p]])
    ensures MergedSoFar(fs, s, d, visited + [p], cur[Target(s, d, p) := fs[p]])
  {
    var t := Target(s, d, p);
    var next := cur[t := fs[p]];
    assert s + Relative(d, t) == p;
    forall p' | p' in visited + [p] ensures Target(s, d, p') in next && next[Target(s, d, p')] == fs[p'] {
      if p' != p {
        assert s + Relative(d, Target(s, d, p')) == p';
      }
    }
  }

  /** One more node of the walk: it is copied without failing and the invariant is kept. */
  lemma MergeWalkStep(fs: FileSystem, s: Path, d: Path, init: seq<Path>, p: Path)
    requires WellFormed(fs) && IsDir(fs, d) && Normal(d) && Apart(s, d) && Compatible(fs, s, d)
    requires AllUnder(s, init)
    requires CopyWalk(fs, s, d, init).log == []
    requires MergedSoFar(fs, s, d, init, CopyWalk(fs, s, d, init).disk)
    requires p in Subtree(fs, s) && p !in init && (p == s || Up(p) in init)
    ensures AllUnder(s, init + [p])
    ensures CopyWalk(fs, s, d, init + [p]).log == []
    ensures MergedSoFar(fs, s, d, init + [p], CopyWalk(fs, s, d, init + [p]).disk)
  {
    var order := init + [p];
    assert order[..|order| - 1] == init && order[|order| - 1] == p;
    var before := CopyWalk(fs, s, d, init);
    MergeStepDisk(fs, s, d, init, before.disk, p);
    MergedSoFarExtends(fs, s, d, init, before.disk, p);
    CopyWalkLast(fs, s, d, order);
  }

  /** Copying a walk prefix into an existing destination fails nowhere and keeps the invariant. */
  lemma {:induction false} MergeWalkSoFar(fs: FileSystem, s: Path, d: Path, order: seq<Path>)
    requires WellFormed(fs) && IsDir(fs, d) && Normal(d) && Apart(s, d) && Compatible(fs, s, d)
    requires WalkPrefix(fs, s, order)
    ensures AllUnder(s, order)
    ensures CopyWalk(fs, s, d, order).log == []
    ensures MergedSoFar(fs, s, d, order, CopyWalk(fs, s, d, order).disk)
    decreases |order|
  {
    if order != [] {
      var init, p := order[..|order| - 1], order[|order| - 1];
      assert order == init + [p];
      WalkPrefixInit(fs, s, order);
      MergeWalkSoFar(fs, s, d, init);
      MergeWalkStep(fs, s, d, init, p);
    } else {
      assert CopyWalk(fs, s, d, order).disk == fs;
    }
  }

  /**
    `cp -r` into an existing directory apart from the source, where every
    place the source's nodes land on is free or of the same kind: only
    success is reported; every file's target holds the file, overwriting
    what was there, and every directory's target is a directory, kept when
    it existed; every other node is untouched, and every new node is the
    target of a node of the source.
  */
  lemma CopyIntoExistingDirectory(fs: FileSystem, at: Resolver, source: string, destination: string, order: seq<Path>)
    requires WellFormed(fs) && Locates(at)
    requires at(source) in fs && IsDir(fs, at(destination))
    requires Apart(at(source), at(destination)) && Compatible(fs, at(source), at(destination))
    requires IsWalk(fs, at(source), order)
    ensures AllUnder(at(source), order)
    ensures var s, d := at(source), at(destination);
      var r := CpDashR(fs, at, source, destination, order);
      && r.log == [Said(CopyCompleted)]
      && (forall p :: p in Subtree(fs, s) ==> Target(s, d, p) in r.disk && r.disk[Target(s, d, p)] == fs[p])
      && (forall q :: q in fs ==> q in r.disk && (r.disk[q] == fs[q] || (Under(d, q) && s + Relative(d, q) in Subtree(fs, s))))
      && (forall q :: q in r.disk && q !in fs ==> Under(d, q) && s + Relative(d, q) in Subtree(fs, s))
  {
    var s, d := at(source), at(destination);
    assert WalkPrefix(fs, s, order);
    MergeWalkSoFar(fs, s, d, order);
  }

  /** Where the walks with and without a failed node split into all but their last node and that node. */
  lemma SkipSplit(s: Path, a: seq<Path>, x: Path, b: seq<Path>)
    requires AllUnder(s, a) && Under(s, x) && AllUnder(s, b)
    ensures AllUnder(s, a + [x] + b) && AllUnder(s, a + b)
    ensures b == [] ==> a + [x] + b == a + [x] && a + b == a
    ensures b != [] ==>
      var o1, o2, b' := a + [x] + b, a + b, b[..|b| - 1];
      && o1[..|o1| - 1] == a + [x] + b' && o1[|o1| - 1] == b[|b| - 1]
      && o2[..|o2| - 1] == a + b' && o2[|o2| - 1] == b[|b| - 1]
      && AllUnder(s, b')
  {
    var o1, o2 := a + [x] + b, a + b;
    assert forall i :: 0 <= i < |o1| ==> o1[i] == (if i < |a| then a[i] else if i == |a| then x else b[i - |a| - 1]);
    assert forall i :: 0 <= i < |o2| ==> o2[i] == (if i < |a| then a[i] else b[i - |a|]);
    if b != [] {
      var b' := b[..|b| - 1];
      assert o1[..|o1| - 1] == a + [x] + b';
      assert o2[..|o2| - 1] == a + b';
    }
  }

  /**
    A node whose copy fails changes nothing for the nodes after it: the
    walk leaves the disk the walk without that node leaves, with one more
    failure reported.
  */
  lemma {:induction false} CopyWalkSkipsFailed(fs: FileSystem, s: Path, d: Path, a: seq<Path>, x: Path, b: seq<Path>)
    requires AllUnder(s, a) && Under(s, x) && AllUnder(s, b)
    requires CopyStep(CopyWalk(fs, s, d, a).disk, x, Target(s, d, x)).log != []
    ensures AllUnder(s, a + [x] + b) && AllUnder(s, a + b)
    ensures CopyWalk(fs, s, d, a + [x] + b) == Run(CopyWalk(fs, s, d, a + b).disk, CopyWalk(fs, s, d, a + b).log + [Said(CopyFailed)])
    decreases |b|
  {
    SkipSplit(s, a, x, b);
    if b == [] {
      var o1 := a + [x] + b;
      assert o1[..|o1| - 1] == a;
      CopyWalkLast(fs, s, d, o1);
    } else {
      var b', y := b[..|b| - 1], b[|b| - 1];
      assert b' + [y] == b;
      CopyWalkSkipsFailed(fs, s, d, a, x, b');
      SkipsFailedStep(fs, s, d, a, x, b', y);
    }
  }

  /** The walks with and without the failed node, each one node longer, still differ only by that failure. */
  lemma SkipsFailedStep(fs: FileSystem, s: Path, d: Path, a: seq<Path>, x: Path, b: seq<Path>, y: Path)
    requires AllUnder(s, a) && Under(s, x) && AllUnder(s, b + [y])
    requires AllUnder(s, a + [x] + b) && AllUnder(s, a + b)
    requires CopyWalk(fs, s, d, a + [x] + b) == Run(CopyWalk(fs, s, d, a + b).disk, CopyWalk(fs, s, d, a + b).log + [Said(CopyFailed)])
    ensures AllUnder(s, a + [x] + (b + [y])) && AllUnder(s, a + (b + [y]))
    ensures CopyWalk(fs, s, d, a + [x] + (b + [y])) ==
      Run(CopyWalk(fs, s, d, a + (b + [y])).disk, CopyWalk(fs, s, d, a + (b + [y])).log + [Said(CopyFailed)])
  {
    SkipSplit(s, a, x, b + [y]);
    var o1, o2 := a + [x] + (b + [y]), a + (b + [y]);
    assert (b + [y])[..|b + [y]| - 1] == b;
    CopyWalkLast(fs, s, d, o1);
    CopyWalkLast(fs, s, d, o2);
    var before := CopyWalk(fs, s, d, a + b);
    var step := CopyStep(before.disk, y, Target(s, d, y));
    assert step.log == [] || step.log == [Said(CopyFailed)];
    assert before.log + [Said(CopyFailed)] + step.log == before.log + step.log + [Said(CopyFailed)];
  }
}
