/**
  The shell itself (src/Terminal.java): a parser, the working directory the
  Java code keeps in the `user.dir` property, the disk and the console. Each
  command is a method that changes the disk, the working directory and the
  console the way the function of its module says.

  Two directories matter: `dir`, the working directory that `cd` changes,
  and `launch`, the directory the program was started in. The Java code
  opens most names with `Paths.get` and `new File`, which the operating
  system takes from `launch`, whatever `cd` did; only `cd`, `ls`, `mkdir`
  of a plain name, `rmdir *`, `unzip` into the working directory and the
  file names of `zip` are taken from `dir`.
*/
module Shell {
  import opened Wrappers
  import opened Text
  import opened Paths
  import opened Disk
  import opened Reports
  import opened Walks
  import opened Dispatch
  import CommandLine
  import Redirection
  import Reading
  import Navigation
  import Listing
  import Directories
  import FileOps
  import TreeCopy
  import Archives
  import Commands

  /** The working directory, the disk and what was printed after a command. */
  datatype Outcome = Outcome(dir: Path, disk: FileSystem, log: seq<Out>)

  /** `after` is the outcome of the run `r`, which leaves the working directory where it was. */
  predicate Ran(dir: Path, r: Run, after: Outcome)
  {
    after == Outcome(dir, r.disk, r.log)
  }

  /**
    What the command `c` with the arguments `args` does, started in `dir` on
    the disk `fs`, for the shell started in `launch` whose home is `home`
    and which locates names with `at`.
    A command that walks or lists a directory may take any order
    `Files.walk` or `File.listFiles` may take; `order` is the one taken.
  */
  ghost predicate Does(home: Path, launch: Path, at: Resolver, dir: Path, fs: FileSystem, c: Command, args: seq<string>,
                       order: seq<Path>, after: Outcome)
    requires Normal(home) && Normal(launch) && Normal(dir) && Locates(at) && WellFormed(fs)
  {
    match c
    case EchoCommand => Ran(dir, Redirection.Echo(fs, at, args), after)
    case PwdCommand => after == Outcome(dir, fs, [Printed(PathString(dir) + Newline)])
    case RmdirCommand =>
      if |args| != 1 then after == Outcome(dir, fs, [Said(Usage("rmdir"))])
      else if args[0] == "*" then IsListing(fs, dir, order) && Ran(dir, Directories.RmdirAll(fs, dir, order), after)
      else Ran(dir, Directories.RmdirOne(fs, at, args[0]), after)
    case CpCommand =>
      (match FileOps.PlanCopy(args)
      case CopyRefused => after == Outcome(dir, fs, [Said(Failed("cp"))])
      case CopyFile(s, d) => Ran(dir, FileOps.CopyOne(fs, at, s, d), after)
      case CopyTree(s, d) =>
        && AllUnder(at(s), order) && (at(s) in fs ==> IsWalk(fs, at(s), order))
        && Ran(dir, TreeCopy.CpDashR(fs, at, s, d, order), after))
    case CdCommand =>
      var m := Navigation.ChangeDirectory(fs, home, dir, args);
      after == Outcome(m.dir, fs, m.log)
    case ZipCommand =>
      (match Archives.PlanZip(args)
      case ZipUsage => after == Outcome(dir, fs, [Said(Usage("zip"))])
      case ZipFault => after == Outcome(dir, fs, [Said(Failed("zip"))])
      case ZipFlat(z, files) => Ran(dir, Archives.ZipFiles(fs, at, dir, From(dir), z, files), after)
      case ZipTree(z, s) =>
        && AllUnder(at(s), order)
        && (Create(fs, at(z), Archive([])).Some? && at(s) in fs[at(z) := Archive([])] ==>
             IsWalk(fs[at(z) := Archive([])], at(s), order))
        && Ran(dir, Archives.ZipDirectory(fs, at, z, s, order), after))
    case LsCommand =>
      IsListing(fs, dir, order) && Listing.NoRoot(order) && Ran(dir, Listing.Ls(fs, at, dir, order, args), after)
    case TouchCommand => Ran(dir, FileOps.Touch(fs, at, args), after)
    case CatCommand => Ran(dir, Reading.Cat(fs, at, args), after)
    case WcCommand => after == Outcome(dir, fs, Reading.Wc(fs, at, args))
    case MkdirCommand => Ran(dir, Directories.Mkdir(fs, Directories.MkdirResolver(launch, dir), args), after)
    case RmCommand => Ran(dir, FileOps.Remove(fs, at, args), after)
    case UnzipCommand => Ran(dir, Archives.Unzip(fs, at, dir, args), after)
  }

  /** What the line whose command name is `name` does: the command it names, or a report that it names none. */
  ghost predicate Performs(home: Path, launch: Path, at: Resolver, dir: Path, fs: FileSystem, name: string, args: seq<string>,
                           order: seq<Path>, after: Outcome)
    requires Normal(home) && Normal(launch) && Normal(dir) && Locates(at) && WellFormed(fs)
  {
    match CommandOf(name)
    case None => after == Outcome(dir, fs, [Said(UnknownCommand)])
    case Some(c) => Does(home, launch, at, dir, fs, c, args, order, after)
  }

  class Terminal {
    const parser: CommandLine.Parser
    /** `user.home`. */
    const home: Path
    /** The directory the program was started in. */
    const launch: Path
    /** How the operating system locates a name: from the launch directory, whatever `cd` did. */
    const at: Resolver
    /** `user.dir`. */
    var dir: Path
    var disk: FileSystem
    /** Everything printed so far. */
    var console: seq<Out>

    ghost predicate Valid()
      reads this, parser, parser.args
    {
      && parser.Valid()
      && Normal(home) && Normal(launch) && Normal(dir)
      && Locates(at)
      && WellFormed(disk)
    }

    /** The arguments of the line parsed last. */
    ghost function Arguments(): seq<string>
      reads parser, parser.args
      requires parser.args != null
    {
      parser.args[..]
    }

    /** A new shell works in the directory it was started in. */
    constructor (home: Path, launch: Path, disk: FileSystem)
      requires Normal(home) && Normal(launch) && WellFormed(disk)
      ensures Valid() && fresh(parser) && parser.line == None
      ensures this.home == home && this.launch == launch && at == From(launch) && dir == launch
      ensures this.disk == disk && console == []
    {
      parser := new CommandLine.Parser();
      this.home := home;
      this.launch := launch;
      at := From(launch);
      dir := launch;
      this.disk := disk;
      console := [];
    }

    /** The arguments of the line parsed last, as a sequence. */
    method Args() returns (args: seq<string>)
      requires Valid() && parser.line.Some?
      ensures args == Arguments()
    {
      var a := parser.GetArgs();
      args := a[..];
    }

    // -------------------------------------------------------------------
    // echo, pwd, cd
    // -------------------------------------------------------------------

    method Echo()
      requires Valid() && parser.line.Some?
      modifies this
      ensures Valid() && dir == old(dir)
      ensures var r := Redirection.Echo(old(disk), at, Arguments()); disk == r.disk && console == old(console) + r.log
    {
      var args := Args();
      var r := Redirection.Echo(disk, at, args);
      disk := r.disk;
      console := console + r.log;
    }

    /** The working directory, as `pwd` prints it. */
    method Pwd() returns (d: string)
      requires Valid()
      ensures d == PathString(dir) && Get(d) == PathName(true, dir)
    {
      d := PathString(dir);
      GetPathString(dir);
    }

    method Cd(args: seq<string>)
      requires Valid()
      modifies this
      ensures Valid() && disk == old(disk)
      ensures var m := Navigation.ChangeDirectory(old(disk), home, old(dir), args); dir == m.dir && console == old(console) + m.log
    {
      var m := Navigation.ChangeDirectory(disk, home, dir, args);
      dir := m.dir;
      console := console + m.log;
    }

    // -------------------------------------------------------------------
    // touch, rm, cp
    // -------------------------------------------------------------------

    method Touch()
      requires Valid() && parser.line.Some?
      modifies this
      ensures Valid() && dir == old(dir)
      ensures var r := FileOps.Touch(old(disk), at, Arguments()); disk == r.disk && console == old(console) + r.log
    {
      var args := Args();
      var r := FileOps.Touch(disk, at, args);
      disk := r.disk;
      console := console + r.log;
    }

    method Rm()
      requires Valid() && parser.line.Some?
      modifies this
      ensures Valid() && dir == old(dir)
      ensures var r := FileOps.Remove(old(disk), at, Arguments()); disk == r.disk && console == old(console) + r.log
    {
      var names := Args();
      if |names| == 0 {
        console := console + [Said(Usage("rm"))];
        return;
      }
      var r := Commands.RemoveFiles(disk, at, names);
      disk := r.disk;
      console := console + r.log;
    }

    method Cp(source: string, destination: string)
      requires Valid()
      modifies this
      ensures Valid() && dir == old(dir)
      ensures var r := FileOps.CopyOne(old(disk), at, source, destination); disk == r.disk && console == old(console) + r.log
    {
      var r := FileOps.CopyOne(disk, at, source, destination);
      disk := r.disk;
      console := console + r.log;
    }

    /**
      `cp -r`: the nodes under the source are visited in an order `Files.walk`
      may take, each directory before what it holds, and each is copied to
      its place under the destination.
    */
    method CpDashR(source: string, destination: string) returns (ghost walked: seq<Path>)
      requires Valid()
      modifies this
      ensures Valid() && dir == old(dir)
      ensures AllUnder(at(source), walked)
      ensures at(source) in old(disk) ==> IsWalk(old(disk), at(source), walked)
      ensures var r := TreeCopy.CpDashR(old(disk), at, source, destination, walked); disk == r.disk && console == old(console) + r.log
    {
      var s := at(source);
      if s !in disk {
        walked := [];
        console := console + [Said(Failed("cp -r"))];
        return;
      }
      var r;
      r, walked := Commands.CopyTree(disk, s, at(destination));
      assert forall i :: 0 <= i < |walked| ==> Normal(walked[i]) by {
        forall i | 0 <= i < |walked| ensures Normal(walked[i]) {
          assert walked[i] in Subtree(disk, s);
        }
      }
      assert TreeCopy.CpDashR(disk, at, source, destination, walked) == Run(r.disk, r.log + [Said(CopyCompleted)]);
      disk := r.disk;
      console := console + (r.log + [Said(CopyCompleted)]);
    }

    /** `cp`, with or without `-r`; any other number of arguments is refused. */
    method Copy() returns (ghost walked: seq<Path>)
      requires Valid() && parser.line.Some?
      modifies this
      ensures Valid() && dir == old(dir)
      ensures match FileOps.PlanCopy(Arguments())
        case CopyRefused => disk == old(disk) && console == old(console) + [Said(Failed("cp"))]
        case CopyFile(s, d) =>
          var r := FileOps.CopyOne(old(disk), at, s, d); disk == r.disk && console == old(console) + r.log
        case CopyTree(s, d) =>
          && AllUnder(at(s), walked) && (at(s) in old(disk) ==> IsWalk(old(disk), at(s), walked))
          && var r := TreeCopy.CpDashR(old(disk), at, s, d, walked); disk == r.disk && console == old(console) + r.log
    {
      var args := Args();
      walked := [];
      match FileOps.PlanCopy(args)
      case CopyRefused =>
        console := console + [Said(Failed("cp"))];
      case CopyFile(s, d) =>
        Cp(s, d);
      case CopyTree(s, d) =>
        walked := CpDashR(s, d);
    }

    // -------------------------------------------------------------------
    // cat, wc
    // -------------------------------------------------------------------

    method Cat()
      requires Valid() && parser.line.Some?
      modifies this
      ensures Valid() && dir == old(dir)
      ensures var r := Reading.Cat(old(disk), at, Arguments()); disk == r.disk && console == old(console) + r.log
    {
      var args := Args();
      if |args| == 0 {
        console := console + [Said(Usage("cat"))];
        return;
      }
      var g := Commands.GatherFiles(disk, at, args);
      match g
      case NotFound(name) =>
        console := console + [Said(FileNotFound(name))];
      case Unreadable =>
        console := console + [Said(Failed("cat"))];
      case Gathered(output) =>
        match Redirection.RedirectionOf(args)
        case Some(rd) =>
          var r := Redirection.WriteTo(disk, at, rd.mode, rd.target, output);
          disk := r.disk;
          console := console + r.log;
        case None =>
          console := console + [Printed(output)];
    }

    method Wc()
      requires Valid() && parser.line.Some?
      modifies this
      ensures Valid() && dir == old(dir) && disk == old(disk)
      ensures console == old(console) + Reading.Wc(old(disk), at, Arguments())
    {
      var names := Args();
      if |names| == 0 {
        console := console + [Said(Usage("wc"))];
        return;
      }
      var log := Commands.CountFiles(disk, at, names);
      console := console + log;
    }

    // -------------------------------------------------------------------
    // ls, mkdir, rmdir
    // -------------------------------------------------------------------

    /** `ls`: the nodes of the working directory are listed in an order `File.listFiles` may take. */
    method Ls() returns (ghost listed: seq<Path>)
      requires Valid() && parser.line.Some?
      modifies this
      ensures Valid() && dir == old(dir)
      ensures IsListing(old(disk), dir, listed) && Listing.NoRoot(listed)
      ensures var r := Listing.Ls(old(disk), at, dir, listed, Arguments()); disk == r.disk && console == old(console) + r.log
    {
      var args := Args();
      var output;
      output, listed := Commands.ListDirectory(disk, dir);
      if !IsDir(disk, dir) {
        console := console + [Said(ReadDirectoryFailed)];
        return;
      }
      match Redirection.RedirectionOf(args)
      case Some(rd) =>
        var r := Redirection.WriteTo(disk, at, rd.mode, rd.target, output);
        disk := r.disk;
        console := console + r.log;
      case None =>
        console := console + [Printed(output)];
    }

    method Mkdir()
      requires Valid() && parser.line.Some?
      modifies this
      ensures Valid() && dir == old(dir)
      ensures var r := Directories.Mkdir(old(disk), Directories.MkdirResolver(launch, dir), Arguments());
        disk == r.disk && console == old(console) + r.log
    {
      var names := Args();
      var r := Commands.MakeDirectories(disk, Directories.MkdirResolver(launch, dir), names);
      disk := r.disk;
      console := console + r.log;
    }

    /**
      `rmdir`: one argument only. `*` deletes the empty directories of the
      working directory, listed in an order `File.listFiles` may take; any
      other argument is one directory to delete.
    */
    method Rmdir() returns (ghost listed: seq<Path>)
      requires Valid() && parser.line.Some?
      modifies this
      ensures Valid() && dir == old(dir)
      ensures |Arguments()| != 1 ==> disk == old(disk) && console == old(console) + [Said(Usage("rmdir"))]
      ensures Arguments() == ["*"] ==>
        && IsListing(old(disk), dir, listed)
        && var r := Directories.RmdirAll(old(disk), dir, listed); disk == r.disk && console == old(console) + r.log
      ensures |Arguments()| == 1 && Arguments()[0] != "*" ==>
        var r := Directories.RmdirOne(old(disk), at, Arguments()[0]); disk == r.disk && console == old(console) + r.log
    {
      var args := Args();
      listed := [];
      if |args| != 1 {
        console := console + [Said(Usage("rmdir"))];
        return;
      }
      if args[0] == "*" {
        var r;
        r, listed := Commands.RemoveEmptyDirectories(disk, dir);
        disk := r.disk;
        console := console + r.log;
        return;
      }
      var r := Directories.RmdirOne(disk, at, args[0]);
      disk := r.disk;
      console := console + r.log;
    }

    // -------------------------------------------------------------------
    // zip, unzip
    // -------------------------------------------------------------------

    /**
      `zip name file...`: the archive is opened for writing first, relative
      to the launch directory; the files are taken from the working
      directory.
    */
    method ZipFiles(files: seq<string>, zipName: string)
      requires Valid()
      modifies this
      ensures Valid() && dir == old(dir)
      ensures var r := Archives.ZipFiles(old(disk), at, dir, From(dir), zipName, files);
        disk == r.disk && console == old(console) + r.log
    {
      var z := at(zipName);
      match Create(disk, z, Archive([]))
      case None =>
        console := console + [Said(ZipFilesFailed)];
      case Some(created) =>
        var packed := Commands.PackFiles(created, dir, From(dir), files);
        disk := Create(disk, z, Archive(packed.entries)).value;
        console := console + [Said(if packed.complete then ZipCreated(zipName) else ZipFilesFailed)];
    }

    /**
      `zip -r name dir`: the archive is opened for writing first; the walk
      then sees it on the disk.
    */
    method ZipDirectory(source: string, zipName: string) returns (ghost walked: seq<Path>)
      requires Valid()
      modifies this
      ensures Valid() && dir == old(dir)
      ensures AllUnder(at(source), walked)
      ensures var z, s := at(zipName), at(source);
        Create(old(disk), z, Archive([])).Some? && s in old(disk)[z := Archive([])] ==>
          IsWalk(old(disk)[z := Archive([])], s, walked)
      ensures var r := Archives.ZipDirectory(old(disk), at, zipName, source, walked);
        disk == r.disk && console == old(console) + r.log
    {
      var r;
      r, walked := Commands.ZipTree(disk, at, zipName, source);
      disk := r.disk;
      console := console + r.log;
    }

    /** `zip`: at least two arguments; `-r` packs a directory, anything else a list of files. */
    method Zip() returns (ghost walked: seq<Path>)
      requires Valid() && parser.line.Some?
      modifies this
      ensures Valid() && dir == old(dir)
      ensures match Archives.PlanZip(Arguments())
        case ZipUsage => disk == old(disk) && console == old(console) + [Said(Usage("zip"))]
        case ZipFault => disk == old(disk) && console == old(console) + [Said(Failed("zip"))]
        case ZipFlat(z, files) =>
          var r := Archives.ZipFiles(old(disk), at, dir, From(dir), z, files); disk == r.disk && console == old(console) + r.log
        case ZipTree(z, s) =>
          && AllUnder(at(s), walked)
          && (Create(old(disk), at(z), Archive([])).Some? && at(s) in old(disk)[at(z) := Archive([])] ==>
               IsWalk(old(disk)[at(z) := Archive([])], at(s), walked))
          && var r := Archives.ZipDirectory(old(disk), at, z, s, walked); disk == r.disk && console == old(console) + r.log
    {
      var args := Args();
      walked := [];
      match Archives.PlanZip(args)
      case ZipUsage =>
        console := console + [Said(Usage("zip"))];
      case ZipFault =>
        console := console + [Said(Failed("zip"))];
      case ZipFlat(z, files) =>
        ZipFiles(files, z);
      case ZipTree(z, s) =>
        walked := ZipDirectory(s, z);
    }

    /**
      `unzip archive [destination]`: "Arguments:" is printed first; the
      destination is created when missing, then every entry is extracted
      under it in archive order.
    */
    method Unzip()
      requires Valid() && parser.line.Some?
      modifies this
      ensures Valid() && dir == old(dir)
      ensures var r := Archives.Unzip(old(disk), at, dir, Arguments()); disk == r.disk && console == old(console) + r.log
    {
      var args := Args();
      var r := Commands.UnzipArchive(disk, at, dir, args);
      disk := r.disk;
      console := console + r.log;
    }

    // -------------------------------------------------------------------
    // dispatch
    // -------------------------------------------------------------------

    /**
      Runs the command of the line parsed last: its name selects one of the
      thirteen commands, and any other name is reported as unknown. The
      order a walk or a listing takes is returned, as it is not fixed.
    */
    method ChooseCommandAction() returns (ghost order: seq<Path>)
      requires Valid() && parser.line.Some?
      modifies this
      ensures Valid()
      ensures |console| >= |old(console)| && console[..|old(console)|] == old(console)
      ensures Performs(home, launch, at, old(dir), old(disk), parser.commandName, Arguments(), order,
        Outcome(dir, disk, console[|old(console)|..]))
    {
      var name := parser.GetCommandName();
      order := [];
      match CommandOf(name)
      case None =>
        console := console + [Said(UnknownCommand)];
        assert console[|old(console)|..] == [Said(UnknownCommand)];
      case Some(c) =>
        if c.EchoCommand? || c.PwdCommand? || c.CatCommand? || c.WcCommand? || c.LsCommand? {
          order := RunPrintingCommand(c);
        } else if c.TouchCommand? || c.CpCommand? || c.RmCommand? {
          order := RunFileCommand(c);
        } else if c.CdCommand? || c.MkdirCommand? || c.RmdirCommand? {
          order := RunDirectoryCommand(c);
        } else {
          order := RunArchiveCommand(c);
        }
    }

    /** The commands echo, pwd, cat, wc and ls, the commands that print what they produce. */
    method RunPrintingCommand(c: Command) returns (ghost order: seq<Path>)
      requires Valid() && parser.line.Some?
      requires c.EchoCommand? || c.PwdCommand? || c.CatCommand? || c.WcCommand? || c.LsCommand?
      modifies this
      ensures Valid()
      ensures |console| >= |old(console)| && console[..|old(console)|] == old(console)
      ensures Does(home, launch, at, old(dir), old(disk), c, Arguments(), order, Outcome(dir, disk, console[|old(console)|..]))
    {
      order := [];
      match c
        case EchoCommand =>
          Echo();
        case PwdCommand =>
          var d := Pwd();
          console := console + [Printed(d + Newline)];
        case CatCommand =>
          Cat();
        case WcCommand =>
          Wc();
        case LsCommand =>
          order := Ls();
      assert console == old(console) + console[|old(console)|..];
    }

    /** The commands touch, cp and rm. */
    method RunFileCommand(c: Command) returns (ghost order: seq<Path>)
      requires Valid() && parser.line.Some?
      requires c.TouchCommand? || c.CpCommand? || c.RmCommand?
      modifies this
      ensures Valid()
      ensures |console| >= |old(console)| && console[..|old(console)|] == old(console)
      ensures Does(home, launch, at, old(dir), old(disk), c, Arguments(), order, Outcome(dir, disk, console[|old(console)|..]))
    {
      order := [];
      match c
        case TouchCommand =>
          Touch();
        case CpCommand =>
          order := Copy();
        case RmCommand =>
          Rm();
      assert console == old(console) + console[|old(console)|..];
    }

    /** The commands cd, mkdir and rmdir. */
    method RunDirectoryCommand(c: Command) returns (ghost order: seq<Path>)
      requires Valid() && parser.line.Some?
      requires c.CdCommand? || c.MkdirCommand? || c.RmdirCommand?
      modifies this
      ensures Valid()
      ensures |console| >= |old(console)| && console[..|old(console)|] == old(console)
      ensures Does(home, launch, at, old(dir), old(disk), c, Arguments(), order, Outcome(dir, disk, console[|old(console)|..]))
    {
      order := [];
      match c
        case CdCommand =>
          var args := Args();
          Cd(args);
        case MkdirCommand =>
          Mkdir();
        case RmdirCommand =>
          order := Rmdir();
      assert console == old(console) + console[|old(console)|..];
    }

    /** The commands zip and unzip. */
    method RunArchiveCommand(c: Command) returns (ghost order: seq<Path>)
      requires Valid() && parser.line.Some?
      requires c.ZipCommand? || c.UnzipCommand?
      modifies this
      ensures Valid()
      ensures |console| >= |old(console)| && console[..|old(console)|] == old(console)
      ensures Does(home, launch, at, old(dir), old(disk), c, Arguments(), order, Outcome(dir, disk, console[|old(console)|..]))
    {
      order := [];
      match c
        case ZipCommand =>
          order := Zip();
        case UnzipCommand =>
          Unzip();
      assert console == old(console) + console[|old(console)|..];
    }
  }
}
