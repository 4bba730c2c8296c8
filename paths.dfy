/**
  Unix path algebra as `java.nio.file.Path` does it: parsing a path string
  (`Paths.get`), `resolve`, `normalize`, `getParent`, `getFileName`,
  `relativize` and `toString`. A location on disk is a list of names from
  the root.
*/
module Paths {
  import opened Wrappers
  import opened Text

  /** A location: the names from the root down, "/" being the empty list. */
  type Path = seq<string>

  /** One name of a normalized path. */
  predicate IsName(s: string)
  {
    s != "" && s != "." && s != ".." && '/' !in s
  }

  predicate Normal(p: Path)
  {
    forall i :: 0 <= i < |p| ==> IsName(p[i])
  }

  /** A name as `Paths.get` leaves it: non-empty and without a separator. */
  predicate IsSegment(s: string)
  {
    s != "" && '/' !in s
  }

  predicate Segments(p: seq<string>)
  {
    forall i :: 0 <= i < |p| ==> IsSegment(p[i])
  }

  /** What `Paths.get(token)` parses: whether the path is absolute, and its names. */
  datatype PathName = PathName(absolute: bool, segments: seq<string>)

  function NonEmpty(xs: seq<string>): (r: seq<string>)
    ensures forall i :: 0 <= i < |r| ==> r[i] != "" && r[i] in xs
    ensures (forall i :: 0 <= i < |xs| ==> xs[i] != "") ==> r == xs
  {
    if xs == [] then []
    else if xs[0] == "" then NonEmpty(xs[1..])
    else [xs[0]] + NonEmpty(xs[1..])
  }

  /**
    `Paths.get(token)` on Unix: absolute when it starts with "/"; repeated
    and trailing separators are dropped, "." and ".." are kept as names.
  */
  function Get(token: string): (p: PathName)
    ensures Segments(p.segments)
  {
    var pieces := SplitOn(token, '/');
    PathName(token != "" && token[0] == '/', NonEmpty(pieces))
  }

  function Up(p: Path): Path
  {
    if p == [] then [] else p[..|p| - 1]
  }

  /** One name of `Path.normalize`: "." is dropped, ".." removes the previous name, or stays at the root. */
  function NormalStep(n: Path, s: string): Path
  {
    if s == "." then n else if s == ".." then Up(n) else n + [s]
  }

  /** `Path.normalize` of an absolute path. */
  function Normalize(p: seq<string>): (r: Path)
    ensures |r| <= |p|
    ensures Segments(p) ==> Normal(r)
  {
    if p == [] then [] else NormalStep(Normalize(p[..|p| - 1]), p[|p| - 1])
  }

  /** A normalized path is left as it is. */
  lemma {:induction false} NormalizeNormal(p: Path)
    requires Normal(p)
    ensures Normalize(p) == p
  {
    if p != [] {
      NormalizeNormal(p[..|p| - 1]);
      assert p[..|p| - 1] + [p[|p| - 1]] == p;
    }
  }

  /** Normalizing after appending names only normalizes what they are appended to first. */
  lemma {:induction false} NormalizeConcat(a: seq<string>, q: seq<string>)
    requires Segments(a)
    ensures Normalize(a + q) == Normalize(Normalize(a) + q)
    decreases |q|
  {
    if q == [] {
      assert a + q == a;
      assert Normalize(a) + q == Normalize(a);
      NormalizeNormal(Normalize(a));
    } else {
      var q' := q[..|q| - 1];
      NormalizeConcat(a, q');
      assert (a + q)[..|a + q| - 1] == a + q';
      assert (Normalize(a) + q)[..|Normalize(a) + q| - 1] == Normalize(a) + q';
    }
  }

  /** Appending normalized names to a normalized path needs no normalizing. */
  lemma NormalAppend(a: Path, q: Path)
    requires Normal(a) && Normal(q)
    ensures Normal(a + q) && Normalize(a + q) == a + q
  {
    NormalizeNormal(a + q);
  }

  /** `base.resolve(p)`: an absolute `p` replaces the base, a relative one is appended. */
  function Resolve(base: Path, p: PathName): seq<string>
  {
    if p.absolute then p.segments else base + p.segments
  }

  /**
    The location `token` names when the process works in `base`: resolved
    against `base`, then normalized by name, so a ".." cancels the name
    before it whether or not that name is a directory.
  */
  function Locate(base: Path, token: string): (r: Path)
    requires Normal(base)
    ensures Normal(r)
    ensures !Get(token).absolute ==> r == Normalize(base + Get(token).segments)
    ensures Get(token).absolute ==> r == Normalize(Get(token).segments)
  {
    Normalize(Resolve(base, Get(token)))
  }

  /** How the shell turns a name typed on the command line into a location. */
  type Resolver = string -> Path

  /** Every name is located at a normalized location. */
  ghost predicate Locates(at: Resolver)
  {
    forall token :: Normal(at(token))
  }

  /** Names located the way the operating system does for a process working in `base`. */
  function From(base: Path): (at: Resolver)
    requires Normal(base)
    ensures forall token :: at(token) == Locate(base, token)
    ensures Locates(at)
  {
    (token: string) => Locate(base, token)
  }

  /** A name without separators that is neither "." nor ".." is located right inside the base. */
  lemma LocateName(base: Path, name: string)
    requires Normal(base) && IsName(name)
    ensures Locate(base, name) == base + [name]
  {
    SplitOnJoin([name], '/');
    assert Join("/", [name]) == name;
    NormalAppend(base, [name]);
  }

  /** ".." is located at the parent of the base, and at the root when the base is the root. */
  lemma LocateDotDot(base: Path)
    requires Normal(base)
    ensures Locate(base, "..") == Up(base)
  {
    SplitOnJoin([".."], '/');
    assert Join("/", [".."]) == "..";
    assert Get("..") == PathName(false, [".."]);
    var p := base + [".."];
    assert p[..|p| - 1] == base && p[|p| - 1] == "..";
    NormalizeNormal(base);
    assert Normalize(p) == Up(base);
  }

  /** `Path.getParent` of an absolute path: none for the root. */
  function Parent(p: Path): (r: Option<Path>)
    ensures r.None? <==> p == []
    ensures r.Some? ==> |r.value| + 1 == |p| && p == r.value + [p[|p| - 1]]
  {
    if p == [] then None else Some(p[..|p| - 1])
  }

  /** `p` is `root` or lies below it. */
  predicate Under(root: Path, p: Path)
  {
    |root| <= |p| && p[..|root|] == root
  }

  /** `root.relativize(p)` for `p` under `root`. */
  function Relative(root: Path, p: Path): (r: Path)
    requires Under(root, p)
    ensures root + r == p
  {
    p[|root|..]
  }

  /** `Path.toString` of an absolute path. */
  function PathString(p: Path): string
  {
    "/" + Join("/", p)
  }

  /** The separator-joined names, as `Path.toString` prints a relative path. */
  function RelativeString(rest: Path): string
  {
    Join("/", rest)
  }

  /** Printing a normalized absolute path and parsing it again gives the same path. */
  lemma GetPathString(p: Path)
    requires Normal(p)
    ensures Get(PathString(p)) == PathName(true, p)
  {
    var s := PathString(p);
    assert s[0] == '/';
    if p == [] {
      assert s == "/";
      assert SplitOn("/", '/') == ["", ""];
    } else {
      var j := Join("/", p);
      SplitOnJoin(p, '/');
      assert s == [] + ['/'] + j;
      assert ['/'] + j == s;
      assert s[1..] == j;
      assert SplitOn(s, '/') == [""] + p;
      assert NonEmpty([""] + p) == NonEmpty(p) by {
        assert ([""] + p)[1..] == p;
      }
    }
  }

  /** Printing a normalized relative path and parsing it again gives the same names. */
  lemma GetRelativeString(rest: Path)
    requires Normal(rest)
    ensures Get(RelativeString(rest)) == PathName(false, rest)
  {
    if rest == [] {
      assert RelativeString(rest) == "";
    } else {
      SplitOnJoin(rest, '/');
      var s := RelativeString(rest);
      assert rest[0] != "" && |s| > 0 && s[0] == rest[0][0] by {
        JoinCons("/", rest[0], rest[1..]);
        assert [rest[0]] + rest[1..] == rest;
      }
      assert rest[0][0] != '/' by { assert '/' !in rest[0]; }
    }
  }

  /** A relative entry name printed from normalized names is located at those names under the base. */
  lemma LocateRelativeString(base: Path, rest: Path)
    requires Normal(base) && Normal(rest)
    ensures Locate(base, RelativeString(rest)) == base + rest
  {
    GetRelativeString(rest);
    NormalAppend(base, rest);
  }
}
