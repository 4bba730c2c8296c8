/**
  The orders in which `Files.walk` and `File.listFiles` may hand out the
  nodes of a disk. `Files.walk` goes depth first: a directory comes before
  what it holds, and everything below it comes right after it, with the
  order among the nodes of one directory left open. `File.listFiles` fixes
  no order at all.
*/
module Walks {
  import opened Paths
  import opened Disk

  /** `order` has no location twice. */
  predicate Distinct(order: seq<Path>)
  {
    forall i, j :: 0 <= i < j < |order| ==> order[i] != order[j]
  }

  /** Every location of `order` is `s` or lies below it. */
  predicate AllUnder(s: Path, order: seq<Path>)
  {
    forall i :: 0 <= i < |order| ==> Under(s, order[i])
  }

  /** Nothing comes between a node and what lies below it that is not below it too. */
  predicate Contiguous(order: seq<Path>)
  {
    forall i, j, k :: 0 <= i < j < k < |order| && Under(order[i], order[k]) ==> Under(order[i], order[j])
  }

  /**
    A possible `Files.walk(root)`: every node of the subtree once, each after
    the directory that holds it, and each followed by all that lies below it.
  */
  ghost predicate IsWalk(fs: FileSystem, root: Path, order: seq<Path>)
  {
    && Distinct(order)
    && (forall p :: p in order <==> p in Subtree(fs, root))
    && (forall i {:trigger Up(order[i])} :: 0 <= i < |order| && order[i] != root ==> Up(order[i]) in order[..i])
    && Contiguous(order)
  }

  /** A possible `File.listFiles` of `d`: every node directly inside it, once. */
  ghost predicate IsListing(fs: FileSystem, d: Path, order: seq<Path>)
  {
    && Distinct(order)
    && (forall p :: p in order <==> p in Children(fs, d))
  }

  /** Everything below `p`, `p` included, has been visited. */
  predicate Finished(fs: FileSystem, p: Path, visited: seq<Path>)
  {
    forall q :: q in Subtree(fs, p) ==> q in visited
  }

  /**
    The node `n` may come next in a depth-first walk from `root`: the root
    first; after that a node whose directory has been visited, once every
    node visited after that directory lies below it and is finished.
  */
  predicate MayComeNext(fs: FileSystem, root: Path, visited: seq<Path>, n: Path)
  {
    && n in Subtree(fs, root) && n !in visited
    && (visited == [] ==> n == root)
    && (visited != [] ==>
          exists k :: 0 <= k < |visited| && visited[k] == Up(n) && n != root &&
            forall j :: k < j < |visited| ==> Under(visited[k], visited[j]) && Finished(fs, visited[j], visited))
  }

  /**
    Part of a depth-first walk is done. Besides what every walk keeps, what
    was visited holds every directory above each of its nodes, never a node
    before a directory above it, and keeps subtrees together; a node that is
    not above the last one visited is finished.
  */
  ghost predicate DepthFirstSoFar(root: Path, fs: FileSystem, visited: seq<Path>)
  {
    && (forall x, q :: x in visited && Under(root, q) && Under(q, x) ==> q in visited)
    && (forall i, j :: 0 <= i < j < |visited| ==> !(Under(visited[j], visited[i]) && visited[i] != visited[j]))
    && Contiguous(visited)
    && (forall i :: 0 <= i < |visited| ==> Under(visited[i], visited[|visited| - 1]) || Finished(fs, visited[i], visited))
  }

  /**
    Part of a walk is done: `visited` in the order visited, `remaining` the
    nodes still to come.
  */
  ghost predicate WalkSoFar(fs: FileSystem, root: Path, visited: seq<Path>, remaining: set<Path>)
  {
    Visiting(fs, root, visited, remaining) && DepthFirstSoFar(root, fs, visited)
  }

  /**
    What every walk keeps: the tree is split between `visited`, each node
    once, and `remaining`, and every directory comes before what it holds.
  */
  ghost predicate Visiting(fs: FileSystem, root: Path, visited: seq<Path>, remaining: set<Path>)
  {
    && Distinct(visited)
    && (forall p :: p in visited ==> p in Subtree(fs, root) && p !in remaining)
    && (forall p :: p in remaining ==> p in Subtree(fs, root))
    && (forall p :: p in Subtree(fs, root) ==> p in visited || p in remaining)
    && (forall i {:trigger Up(visited[i])} :: 0 <= i < |visited| && visited[i] != root ==> Up(visited[i]) in visited[..i])
  }

  /** Nothing is visited yet. */
  lemma WalkStart(fs: FileSystem, root: Path)
    ensures WalkSoFar(fs, root, [], Subtree(fs, root))
  {
  }

  /**
    While nodes remain, one of them can come next: the root first, and
    after it a node of the deepest directory above the last visited node
    that is not finished.
  */
  lemma WalkCanGoOn(fs: FileSystem, root: Path, visited: seq<Path>, remaining: set<Path>) returns (n: Path)
    requires WellFormed(fs)
    requires WalkSoFar(fs, root, visited, remaining) && remaining != {}
    ensures n in remaining && MayComeNext(fs, root, visited, n)
  {
    n :| n in remaining;
    if visited == [] {
      n := ClimbToRoot(fs, root, remaining, n);
    } else {
      var c := DeepestOpen(fs, root, visited, remaining);
      var k :| 0 <= k < |visited| && visited[k] == c;
      var m :| m in Subtree(fs, c) && m !in visited;
      n := ClimbToVisited(fs, root, visited, remaining, c, m);
      ChildOfDeepestOpen(fs, root, visited, remaining, c, k, n);
    }
  }

  /** With nothing visited, climbing from any remaining node reaches the root, which remains. */
  lemma ClimbToRoot(fs: FileSystem, root: Path, remaining: set<Path>, m: Path) returns (n: Path)
    requires WellFormed(fs)
    requires WalkSoFar(fs, root, [], remaining) && m in remaining
    ensures n == root && n in remaining
  {
    n := m;
    while n != root
      invariant n in remaining
      decreases |n|
    {
      assert |n| > |root|;
      var u := Up(n);
      assert u[..|root|] == n[..|root|];
      assert u in fs;
      n := u;
    }
  }

  /**
    The deepest directory above the last visited node, or that node itself,
    that is not finished; everything between it and the last node is.
  */
  lemma DeepestOpen(fs: FileSystem, root: Path, visited: seq<Path>, remaining: set<Path>) returns (c: Path)
    requires WalkSoFar(fs, root, visited, remaining) && remaining != {} && visited != []
    ensures var last := visited[|visited| - 1];
      && Under(root, c) && Under(c, last) && c in visited && !Finished(fs, c, visited)
      && forall m :: |c| < m <= |last| ==> Finished(fs, last[..m], visited)
  {
    var last := visited[|visited| - 1];
    assert last in Subtree(fs, root);
    var r :| r in remaining;
    assert !Finished(fs, root, visited) by { assert r in Subtree(fs, root) && r !in visited; }
    c := last;
    while Finished(fs, c, visited)
      invariant Under(root, c) && Under(c, last)
      invariant forall m :: |c| < m <= |last| ==> Finished(fs, last[..m], visited)
      decreases |c|
    {
      assert c != root;
      assert c == last[..|c|];
      c := last[..|c| - 1];
    }
    assert c == last[..|c|];
  }

  /** Climbing from an unvisited node below the visited `c` reaches a node whose directory is visited. */
  lemma ClimbToVisited(fs: FileSystem, root: Path, visited: seq<Path>, remaining: set<Path>, c: Path, m: Path) returns (n: Path)
    requires WellFormed(fs)
    requires WalkSoFar(fs, root, visited, remaining)
    requires Under(root, c) && c in visited && m in Subtree(fs, c) && m !in visited
    ensures n in remaining && Under(c, n) && n != c && Up(n) in visited
  {
    n := m;
    assert n in Subtree(fs, root);
    while Up(n) !in visited
      invariant n in fs && n !in visited && Under(c, n) && n != c
      decreases |n|
    {
      var u := Up(n);
      assert u[..|c|] == n[..|c|];
      assert u in fs;
      n := u;
    }
    assert n[..|root|] == root;
  }

  /**
    A node of the tree below the deepest unfinished directory `c`, whose
    own directory is visited, hangs right below `c` and may come next.
  */
  lemma ChildOfDeepestOpen(fs: FileSystem, root: Path, visited: seq<Path>, remaining: set<Path>, c: Path, k: nat, n: Path)
    requires WalkSoFar(fs, root, visited, remaining) && visited != []
    requires var last := visited[|visited| - 1];
      && Under(root, c) && Under(c, last) && !Finished(fs, c, visited)
      && forall m :: |c| < m <= |last| ==> Finished(fs, last[..m], visited)
    requires k < |visited| && visited[k] == c
    requires n in remaining && Under(c, n) && n != c && Up(n) in visited
    ensures MayComeNext(fs, root, visited, n)
  {
    var last := visited[|visited| - 1];
    var p := Up(n);
    assert Under(c, p) by { assert p[..|c|] == n[..|c|]; }
    assert !Finished(fs, p, visited) by { assert n in Subtree(fs, p); }
    var ip :| 0 <= ip < |visited| && visited[ip] == p;
    assert Under(p, last);
    assert p == last[..|p|];
    assert p == c;
    forall j | k < j < |visited| ensures Under(c, visited[j]) && Finished(fs, visited[j], visited) {
      if j < |visited| - 1 {
        assert Under(visited[k], visited[|visited| - 1]);
      }
    }
    assert n !in visited;
  }

  /** Visiting the chosen node extends the walk. */
  lemma WalkStep(fs: FileSystem, root: Path, visited: seq<Path>, remaining: set<Path>, n: Path)
    requires WalkSoFar(fs, root, visited, remaining)
    requires n in remaining && MayComeNext(fs, root, visited, n)
    ensures WalkSoFar(fs, root, visited + [n], remaining - {n})
  {
    DepthFirstStep(fs, root, visited, n);
    if visited != [] {
      var k :| 0 <= k < |visited| && visited[k] == Up(n) && n != root;
    }
    VisitingStep(fs, root, visited, remaining, n);
  }

  /** Visiting a node of `remaining` whose directory was visited keeps what every walk keeps. */
  lemma VisitingStep(fs: FileSystem, root: Path, visited: seq<Path>, remaining: set<Path>, n: Path)
    requires Visiting(fs, root, visited, remaining) && n in remaining
    requires visited == [] ==> n == root
    requires visited != [] ==> n != root && Up(n) in visited
    ensures Visiting(fs, root, visited + [n], remaining - {n})
  {
    var v := visited + [n];
    assert v[..|visited|] == visited;
    assert Distinct(v) by {
      forall i, j | 0 <= i < j < |v| ensures v[i] != v[j] {
        if j < |visited| {
          assert v[i] == visited[i] && v[j] == visited[j];
        } else {
          assert v[i] in visited;
        }
      }
    }
    forall p | p in v ensures p in Subtree(fs, root) && p !in remaining - {n} {
      if p != n {
        assert p in visited;
      }
    }
    forall i | 0 <= i < |v| && v[i] != root ensures Up(v[i]) in v[..i] {
      if i < |visited| {
        assert v[..i] == visited[..i];
        assert v[i] == visited[i];
      } else {
        assert v[..i] == visited;
      }
    }
  }

  /** Visiting a node that may come next keeps the walk depth first. */
  lemma DepthFirstStep(fs: FileSystem, root: Path, visited: seq<Path>, n: Path)
    requires Distinct(visited) && (forall p :: p in visited ==> p in Subtree(fs, root))
    requires DepthFirstSoFar(root, fs, visited) && MayComeNext(fs, root, visited, n)
    ensures DepthFirstSoFar(root, fs, visited + [n])
  {
    DepthFirstStepAbove(fs, root, visited, n);
    DepthFirstStepOrdered(root, visited, n);
    if visited != [] {
      DepthFirstStepContiguous(fs, root, visited, n);
      DepthFirstStepFinished(fs, root, visited, n);
    }
  }

  /** The next node keeps every location between the root and a visited node visited. */
  lemma DepthFirstStepAbove(fs: FileSystem, root: Path, visited: seq<Path>, n: Path)
    requires forall x, q :: x in visited && Under(root, q) && Under(q, x) ==> q in visited
    requires MayComeNext(fs, root, visited, n)
    ensures var v := visited + [n];
      forall x, q :: x in v && Under(root, q) && Under(q, x) ==> q in v
  {
    var v := visited + [n];
    forall x, q | x in v && Under(root, q) && Under(q, x) ensures q in v {
      if x == n && q != n && visited != [] {
        var k :| 0 <= k < |visited| && visited[k] == Up(n) && n != root;
        assert Under(q, visited[k]) by { assert visited[k] == n[..|n| - 1]; }
      } else if x != n {
        assert x in visited;
      }
    }
  }

  /** A node whose directories above are all visited, itself unvisited, has no visited node below it. */
  lemma DepthFirstStepOrdered(root: Path, visited: seq<Path>, n: Path)
    requires forall x, q :: x in visited && Under(root, q) && Under(q, x) ==> q in visited
    requires forall i, j :: 0 <= i < j < |visited| ==> !(Under(visited[j], visited[i]) && visited[i] != visited[j])
    requires Under(root, n) && n !in visited
    ensures var v := visited + [n];
      forall i, j :: 0 <= i < j < |v| ==> !(Under(v[j], v[i]) && v[i] != v[j])
  {
    var v := visited + [n];
    forall i, j | 0 <= i < j < |v| ensures !(Under(v[j], v[i]) && v[i] != v[j]) {
      if j < |visited| {
        assert v[i] == visited[i] && v[j] == visited[j];
      } else {
        assert v[i] in visited;
      }
    }
  }

  /** The next node keeps subtrees together. */
  lemma DepthFirstStepContiguous(fs: FileSystem, root: Path, visited: seq<Path>, n: Path)
    requires Distinct(visited) && Contiguous(visited)
    requires visited != [] && MayComeNext(fs, root, visited, n)
    ensures Contiguous(visited + [n])
  {
    var k :| 0 <= k < |visited| && visited[k] == Up(n) && n != root &&
      forall j :: k < j < |visited| ==> Under(visited[k], visited[j]) && Finished(fs, visited[j], visited);
    var v, N, p := visited + [n], |visited|, visited[k];
    forall i, j, l | 0 <= i < j < l < |v| && Under(v[i], v[l]) ensures Under(v[i], v[j]) {
      if l < N {
        assert v[i] == visited[i] && v[j] == visited[j] && v[l] == visited[l];
      } else {
        var x := visited[i];
        assert v[i] == x && v[l] == n;
        assert x != n;
        assert Under(x, p) by { assert p[..|x|] == n[..|x|]; }
        if i < k && j < k {
          assert v[j] == visited[j];
          assert Under(visited[i], visited[k]);
        } else if i <= k && j > k {
          assert v[j] == visited[j];
          assert Under(p, visited[j]);
        }
      }
    }
  }

  /** After the next node, every node not above it is finished. */
  lemma DepthFirstStepFinished(fs: FileSystem, root: Path, visited: seq<Path>, n: Path)
    requires Distinct(visited)
    requires forall i, j :: 0 <= i < j < |visited| ==> !(Under(visited[j], visited[i]) && visited[i] != visited[j])
    requires forall i :: 0 <= i < |visited| ==> Under(visited[i], visited[|visited| - 1]) || Finished(fs, visited[i], visited)
    requires visited != [] && MayComeNext(fs, root, visited, n)
    ensures var v := visited + [n];
      forall i :: 0 <= i < |v| ==> Under(v[i], v[|v| - 1]) || Finished(fs, v[i], v)
  {
    var k :| 0 <= k < |visited| && visited[k] == Up(n) && n != root &&
      forall j :: k < j < |visited| ==> Under(visited[k], visited[j]) && Finished(fs, visited[j], visited);
    var v, N, p := visited + [n], |visited|, visited[k];
    var last := visited[N - 1];
    assert Under(p, n) by { assert n[..|p|] == p; }
    forall i | 0 <= i < |v| ensures Under(v[i], n) || Finished(fs, v[i], v) {
      if i < N {
        var x := visited[i];
        assert v[i] == x;
        if Finished(fs, x, visited) {
        } else if i < k {
          assert Under(x, last);
          if k < N - 1 {
            assert Under(p, last);
          }
          if |x| <= |p| {
            assert x == p[..|x|];
            assert n[..|x|] == x;
          }
        }
      }
    }
  }

  /** A finished walk is a walk. */
  lemma WalkDone(fs: FileSystem, root: Path, visited: seq<Path>)
    requires WalkSoFar(fs, root, visited, {})
    ensures IsWalk(fs, root, visited)
  {
  }

  /**
    A walk does not leave a directory before it is done with it: with `a`
    and `b` in the root and `x` in `a`, `b` cannot come between `a` and `a/x`.
  */
  lemma InterleavedIsNoWalk()
    ensures !IsWalk(map[[] := Dir, ["a"] := Dir, ["b"] := File(""), ["a", "x"] := File("")],
                    [], [[], ["a"], ["b"], ["a", "x"]])
  {
    var order: seq<Path> := [[], ["a"], ["b"], ["a", "x"]];
    assert order[3][..1] == ["a"];
    assert order[2][0] != order[1][0] && order[2][..1] != order[1];
    assert !Contiguous(order);
  }

  /** Part of a listing is done. */
  ghost predicate ListingSoFar(fs: FileSystem, d: Path, visited: seq<Path>, remaining: set<Path>)
  {
    && Distinct(visited)
    && (forall p :: p in visited ==> p in Children(fs, d) && p !in remaining)
    && (forall p :: p in remaining ==> p in Children(fs, d))
    && (forall p :: p in Children(fs, d) ==> p in visited || p in remaining)
  }

  lemma ListingStep(fs: FileSystem, d: Path, visited: seq<Path>, remaining: set<Path>, n: Path)
    requires ListingSoFar(fs, d, visited, remaining) && n in remaining
    ensures ListingSoFar(fs, d, visited + [n], remaining - {n})
  {
  }

  lemma ListingDone(fs: FileSystem, d: Path, visited: seq<Path>)
    requires ListingSoFar(fs, d, visited, {})
    ensures IsListing(fs, d, visited)
  {
  }
}
