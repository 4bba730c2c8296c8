/**
  Output redirection (`> file`, `>> file`) and the `echo` command
  (src/Terminal.java, writeToFileOverwrite, writeToFileAppend,
  redirectOutput and echo).
*/
module Redirection {
  import opened Wrappers
  import opened Text
  import opened Paths
  import opened Disk
  import opened Reports
  import CommandLine

  /** A trailing `> target` or `>> target`. */
  datatype Redirect = Redirect(mode: Mode, target: string)

  /**
    The redirection an argument list ends with: the next-to-last argument is
    exactly ">" or ">>" and the last one names the file.
  */
  function RedirectionOf(args: seq<string>): (r: Option<Redirect>)
    ensures r.Some? <==> |args| >= 2 && (args[|args| - 2] == ">" || args[|args| - 2] == ">>")
    ensures r.Some? ==> r.value.target == args[|args| - 1]
    ensures r.Some? ==> (r.value.mode == Overwrite <==> args[|args| - 2] == ">")
  {
    if |args| >= 2 && args[|args| - 2] == ">" then Some(Redirect(Overwrite, args[|args| - 1]))
    else if |args| >= 2 && args[|args| - 2] == ">>" then Some(Redirect(Append, args[|args| - 1]))
    else None
  }

  /**
    Writing `output` to the file `filename` names (a relative name is taken
    from the directory the program was launched in): `>` creates or truncates
    it, `>>` creates it or appends to it. A failure is reported and leaves the disk unchanged.
  */
  function WriteTo(fs: FileSystem, at: Resolver, mode: Mode, filename: string, output: string): (r: Run)
    ensures r.log == [] || r.log == [Said(WriteFailed(mode))]
    ensures r.log != [] ==> r.disk == fs
    ensures WellFormed(fs) && Normal(at(filename)) ==> WellFormed(r.disk)
  {
    var p := at(filename);
    var written := if mode == Overwrite then Create(fs, p, File(output)) else Disk.Append(fs, p, output);
    match written
    case Some(f) => Run(f, [])
    case None => Run(fs, [Said(WriteFailed(mode))])
  }

  /** Nothing but the target changes when a file is written. */
  predicate OnlyChanged(before: FileSystem, after: FileSystem, p: Path)
  {
    && p in after
    && (forall q :: q in before && q != p ==> q in after && after[q] == before[q])
    && (forall q :: q in after && q != p ==> q in before)
  }

  /**
    `>` succeeds exactly when the target sits in a directory and is not one
    itself; the file then holds exactly the output and nothing else changes.
  */
  lemma OverwriteWrites(fs: FileSystem, at: Resolver, filename: string, output: string)
    ensures var p := at(filename);
      var r := WriteTo(fs, at, Overwrite, filename, output);
      && (r.log == [] <==> ParentIsDir(fs, p) && !IsDir(fs, p))
      && (r.log == [] ==> r.disk[p] == File(output) && OnlyChanged(fs, r.disk, p))
  {
  }

  /** Redirecting the same output with `>` a second time changes nothing. */
  lemma OverwriteIdempotent(fs: FileSystem, at: Resolver, filename: string, output: string)
    ensures var once := WriteTo(fs, at, Overwrite, filename, output);
      var twice := WriteTo(once.disk, at, Overwrite, filename, output);
      twice.disk == once.disk && twice.log == once.log
  {
    var p := at(filename);
    var once := WriteTo(fs, at, Overwrite, filename, output);
    if once.log == [] {
      assert once.disk == fs[p := File(output)];
      assert once.disk[p := File(output)] == once.disk;
    }
  }

  /**
    `>>` fails exactly when the target does not sit in a directory or is a
    directory or an archive; otherwise the file holds its previous text (none
    when it was missing) followed by the output, and nothing else changes.
  */
  lemma AppendWrites(fs: FileSystem, at: Resolver, filename: string, output: string)
    ensures var p := at(filename);
      var r := WriteTo(fs, at, Append, filename, output);
      && (r.log == [] <==> ParentIsDir(fs, p) && (p !in fs || fs[p].File?))
      && (r.log == [] ==> r.disk[p] == File((if p in fs then fs[p].content else "") + output))
      && (r.log == [] ==> OnlyChanged(fs, r.disk, p))
  {
  }

  /** Appending twice is appending the two outputs in order at once. */
  lemma AppendTwice(fs: FileSystem, at: Resolver, filename: string, first: string, second: string)
    requires WriteTo(fs, at, Append, filename, first).log == []
    ensures var once := WriteTo(fs, at, Append, filename, first);
      WriteTo(once.disk, at, Append, filename, second) == WriteTo(fs, at, Append, filename, first + second)
  {
    var p := at(filename);
    var once := WriteTo(fs, at, Append, filename, first);
    var old_ := if p in fs then fs[p].content else "";
    assert once.disk == fs[p := File(old_ + first)];
    assert old_ + first + second == old_ + (first + second);
  }

  /** `>` and then `>>` on the same file leave the two outputs one after the other. */
  lemma OverwriteThenAppend(fs: FileSystem, at: Resolver, filename: string, first: string, second: string)
    requires WriteTo(fs, at, Overwrite, filename, first).log == []
    ensures var once := WriteTo(fs, at, Overwrite, filename, first);
      WriteTo(once.disk, at, Append, filename, second) == WriteTo(fs, at, Overwrite, filename, first + second)
  {
  }

  /**
    `echo`: no argument prints nothing; before a trailing redirection, the
    arguments ahead of it are joined by single spaces and written without a
    line break; otherwise all of them are joined and printed as one line.
  */
  function Echo(fs: FileSystem, at: Resolver, args: seq<string>): (r: Run)
    ensures args == [] ==> r == Run(fs, [])
    ensures args != [] && RedirectionOf(args).None? ==> r == Run(fs, [Printed(Join(" ", args) + Newline)])
    ensures RedirectionOf(args).Some? ==>
      r == WriteTo(fs, at, RedirectionOf(args).value.mode, args[|args| - 1], Join(" ", args[..|args| - 2]))
    ensures WellFormed(fs) && Locates(at) ==> WellFormed(r.disk)
  {
    if args == [] then Run(fs, [])
    else match RedirectionOf(args)
      case Some(rd) => WriteTo(fs, at, rd.mode, rd.target, Join(" ", args[..|args| - 2]))
      case None => Run(fs, [Printed(Join(" ", args) + Newline)])
  }

  /**
    Typing `echo ` followed by a text that does not end in a space and has no
    redirection prints that text back exactly, single or repeated inner
    spaces included, followed by a line break.
  */
  lemma EchoRepeatsText(fs: FileSystem, at: Resolver, text: string)
    requires text != "" && text[|text| - 1] != ' '
    requires RedirectionOf(CommandLine.Tokens(text)).None?
    ensures CommandLine.Tokens("echo " + text) == ["echo"] + CommandLine.Tokens(text)
    ensures Echo(fs, at, CommandLine.Tokens(text)) == Run(fs, [Printed(text + Newline)])
  {
    assert "echo " + text == "echo" + " " + text;
    TokensAfterWord("echo", text);
    CommandLine.TokensJoin(text);
  }

  /** A first word without spaces becomes its own token. */
  lemma TokensAfterWord(word: string, text: string)
    requires word != "" && ' ' !in word
    requires text != "" && text[|text| - 1] != ' '
    ensures CommandLine.Tokens(word + " " + text) == [word] + CommandLine.Tokens(text)
  {
    var s := word + " " + text;
    assert s == word + (" " + text);
    SplitOnPrefix(word, " " + text, ' ');
    assert (" " + text)[1..] == text;
    var rest := SplitOn(text, ' ');
    var tail := SplitOn(" " + text, ' ');
    assert tail == [""] + rest;
    assert tail[0] == "" && tail[1..] == rest;
    assert word + tail[0] == word;
    assert SplitOn(word + (" " + text), ' ') == [word] + rest;
    LastPieceEndsString(text, ' ');
    assert DropTrailingEmpty(rest) == rest;
    assert ([word] + rest)[|[word] + rest| - 1] == rest[|rest| - 1];
    assert DropTrailingEmpty([word] + rest) == [word] + rest;
  }

  /**
    `echo words > file` followed by `cat file`: after a successful `>`, what
    the file holds reads back as the echoed text followed by one line break,
    provided the text has no carriage return and does not end in a line break.
  */
  lemma EchoedFileReadsBack(fs: FileSystem, at: Resolver, words: seq<string>, filename: string)
    requires var text := Join(" ", words); '\r' !in text && (text == [] || text[|text| - 1] != '\n')
    requires Echo(fs, at, words + [">", filename]).log == []
    ensures var r := Echo(fs, at, words + [">", filename]);
      var p := at(filename);
      p in r.disk && r.disk[p].File? &&
      var text := Join(" ", words);
      Terminated(Lines(r.disk[p].content)) == (if text == "" then "" else text + Newline)
  {
    var args := words + [">", filename];
    assert args[..|args| - 2] == words;
    assert args[|args| - 2] == ">" && args[|args| - 1] == filename;
    TerminatedLines(Join(" ", words));
  }
}
