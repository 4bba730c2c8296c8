/**
  The working directory: `cd` and `pwd` (src/Terminal.java, cd and pwd).
  The shell keeps its working directory in the `user.dir` property; the
  model keeps it as a normalized location.
*/
module Navigation {
  import opened Text
  import opened Paths
  import opened Disk
  import opened Reports

  /** The working directory after `cd`, and what `cd` printed. */
  datatype Moved = Moved(dir: Path, log: seq<Out>)

  /**
    `cd`: no argument goes to the home directory; ".." goes to the parent,
    and stays at the root; one other argument, taken from the working
    directory unless it is absolute, is entered when it is an existing
    directory and reported otherwise; more arguments are refused. The
    working directory is printed at the end in every case.
  */
  function ChangeDirectory(fs: FileSystem, home: Path, dir: Path, args: seq<string>): (r: Moved)
    requires Normal(home) && Normal(dir)
    ensures Normal(r.dir)
    ensures |r.log| >= 1 && r.log[|r.log| - 1] == Said(CurrentDirectory(PathString(r.dir)))
    ensures args == [] ==> r == Moved(home, [Said(CurrentDirectory(PathString(home)))])
    ensures args == [".."] ==> r.dir == Up(dir) && |r.log| == 1
    ensures |args| == 1 && args[0] != ".." && IsDir(fs, Locate(dir, args[0])) ==>
      r.dir == Locate(dir, args[0]) && |r.log| == 1
    ensures |args| == 1 && args[0] != ".." && !IsDir(fs, Locate(dir, args[0])) ==>
      r.dir == dir && r.log[0] == Said(InvalidDirectory)
    ensures |args| > 1 ==> r.dir == dir && r.log[0] == Said(TooManyArguments)
  {
    var target :=
      if args == [] then home
      else if |args| == 1 && args[0] == ".." then Up(dir)
      else if |args| == 1 && IsDir(fs, Locate(dir, args[0])) then Locate(dir, args[0])
      else dir;
    var complaint :=
      if args == [] || (|args| == 1 && args[0] == "..") then []
      else if |args| == 1 then (if IsDir(fs, Locate(dir, args[0])) then [] else [Said(InvalidDirectory)])
      else [Said(TooManyArguments)];
    Moved(target, complaint + [Said(CurrentDirectory(PathString(target)))])
  }

  /** When the working and home directories exist, `cd` always lands on an existing directory. */
  lemma CdStaysOnDirectory(fs: FileSystem, home: Path, dir: Path, args: seq<string>)
    requires WellFormed(fs) && Normal(home) && Normal(dir)
    requires IsDir(fs, home) && IsDir(fs, dir)
    ensures IsDir(fs, ChangeDirectory(fs, home, dir, args).dir)
  {
    if dir != [] {
      assert IsDir(fs, dir[..|dir| - 1]);
    }
  }

  /** Entering a subdirectory by its name and then going to ".." comes back. */
  lemma CdIntoAndBack(fs: FileSystem, home: Path, dir: Path, name: string)
    requires Normal(home) && Normal(dir) && IsName(name)
    requires IsDir(fs, dir + [name])
    ensures var inside := ChangeDirectory(fs, home, dir, [name]).dir;
      inside == dir + [name] && ChangeDirectory(fs, home, inside, [".."]).dir == dir
  {
    LocateName(dir, name);
    assert (dir + [name])[..|dir|] == dir;
  }

  /** `cd` to the directory `pwd` printed goes there, from wherever the shell is. */
  lemma CdToPrintedDirectory(fs: FileSystem, home: Path, dir: Path, p: Path)
    requires Normal(home) && Normal(dir) && Normal(p) && IsDir(fs, p)
    ensures ChangeDirectory(fs, home, dir, [PathString(p)]).dir == p
  {
    GetPathString(p);
    NormalizeNormal(p);
    assert PathString(p)[0] == '/';
    assert PathString(p) != "..";
  }
}
