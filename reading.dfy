/**
  The commands that read files as text: `cat` and `wc`
  (src/Terminal.java, cat and wc).
*/
module Reading {
  import opened Wrappers
  import opened Text
  import opened Paths
  import opened Disk
  import opened Reports
  import opened Redirection

  /** What `cat` has gathered when it reaches the end or a redirection operator, or why it stopped. */
  datatype Gathered = Gathered(text: string) | NotFound(name: string) | Unreadable

  predicate IsOperator(arg: string)
  {
    arg == ">" || arg == ">>"
  }

  /**
    The arguments up to the first redirection operator, read one after the
    other: each file contributes its lines, each followed by a line break. The
    first missing file stops `cat`; so does a directory or an archive, whose
    lines cannot be read.
  */
  function Gather(fs: FileSystem, at: Resolver, args: seq<string>): (r: Gathered)
    ensures r.NotFound? ==> r.name in args && at(r.name) !in fs
    ensures r.Unreadable? ==> exists i :: 0 <= i < |args| && at(args[i]) in fs && !fs[at(args[i])].File?
  {
    if args == [] || IsOperator(args[0]) then Gathered("")
    else
      var p := at(args[0]);
      if p !in fs then NotFound(args[0])
      else if !fs[p].File? then Unreadable
      else match Gather(fs, at, args[1..])
        case Gathered(rest) => Gathered(Terminated(Lines(fs[p].content)) + rest)
        case stopped => stopped
  }

  /** The text `cat` shows for one file. */
  function CatText(content: string): string
  {
    Terminated(Lines(content))
  }

  /** Whether `name` is located at a file `cat` and `wc` can read. */
  predicate Readable(fs: FileSystem, at: Resolver, name: string)
  {
    at(name) in fs && fs[at(name)].File?
  }

  function Content(fs: FileSystem, at: Resolver, name: string): string
    requires Readable(fs, at, name)
  {
    fs[at(name)].content
  }

  /** The texts of readable files, one after the other. */
  function Concatenation(fs: FileSystem, at: Resolver, names: seq<string>): string
    requires forall i :: 0 <= i < |names| ==> Readable(fs, at, names[i])
  {
    if names == [] then "" else CatText(Content(fs, at, names[0])) + Concatenation(fs, at, names[1..])
  }

  /**
    When every argument before the first operator (or every argument, if
    there is none) is a readable file, `cat` gathers their texts in order,
    and what follows the operator plays no part.
  */
  lemma {:induction false} GatherReadsInOrder(fs: FileSystem, at: Resolver, names: seq<string>, tail: seq<string>)
    requires forall i :: 0 <= i < |names| ==> Readable(fs, at, names[i]) && !IsOperator(names[i])
    requires tail == [] || IsOperator(tail[0])
    ensures Gather(fs, at, names + tail) == Gathered(Concatenation(fs, at, names))
    decreases |names|
  {
    if names != [] {
      assert (names + tail)[1..] == names[1..] + tail;
      GatherReadsInOrder(fs, at, names[1..], tail);
    } else {
      assert names + tail == tail;
    }
  }

  /**
    A missing file stops `cat` even after readable ones: nothing gathered so
    far is shown, only that the file is missing.
  */
  lemma {:induction false} GatherStopsAtMissing(fs: FileSystem, at: Resolver, names: seq<string>, missing: string, tail: seq<string>)
    requires forall i :: 0 <= i < |names| ==> Readable(fs, at, names[i]) && !IsOperator(names[i])
    requires !IsOperator(missing) && at(missing) !in fs
    ensures Gather(fs, at, names + [missing] + tail) == NotFound(missing)
    decreases |names|
  {
    if names != [] {
      assert (names + [missing] + tail)[1..] == names[1..] + [missing] + tail;
      GatherStopsAtMissing(fs, at, names[1..], missing, tail);
    } else {
      assert names + [missing] + tail == [missing] + tail;
      assert ([missing] + tail)[0] == missing;
    }
  }

  /**
    A file without carriage returns reads back as itself, with a line break
    added at the end when its last line had none.
  */
  lemma CatShowsContent(content: string)
    requires '\r' !in content
    ensures CatText(content) == if content == [] || content[|content| - 1] == '\n' then content else content + Newline
  {
    TerminatedLines(content);
  }

  /**
    `cat`: a usage report without arguments; a missing or unreadable file
    reports and shows nothing; otherwise the gathered text goes to the
    trailing redirection if there is one, and is printed if not.
  */
  function Cat(fs: FileSystem, at: Resolver, args: seq<string>): (r: Run)
    ensures args == [] ==> r == Run(fs, [Said(Usage("cat"))])
    ensures args != [] && !Gather(fs, at, args).Gathered? ==> r.disk == fs && |r.log| == 1
    ensures args != [] && Gather(fs, at, args).Gathered? && RedirectionOf(args).None? ==>
      r == Run(fs, [Printed(Gather(fs, at, args).text)])
    ensures args != [] && Gather(fs, at, args).Gathered? && RedirectionOf(args).Some? ==>
      r == WriteTo(fs, at, RedirectionOf(args).value.mode, RedirectionOf(args).value.target, Gather(fs, at, args).text)
    ensures WellFormed(fs) && Locates(at) ==> WellFormed(r.disk)
  {
    if args == [] then Run(fs, [Said(Usage("cat"))])
    else match Gather(fs, at, args)
      case NotFound(name) => Run(fs, [Said(FileNotFound(name))])
      case Unreadable => Run(fs, [Said(Failed("cat"))])
      case Gathered(text) =>
        match RedirectionOf(args)
        case Some(rd) => WriteTo(fs, at, rd.mode, rd.target, text)
        case None => Run(fs, [Printed(text)])
  }

  /** `cat a > b` with a readable `a` and a writable `b`: `b` then holds what `cat a` shows. */
  lemma CatCopiesIntoFile(fs: FileSystem, at: Resolver, source: string, target: string)
    requires Readable(fs, at, source) && !IsOperator(source)
    requires var t := at(target); ParentIsDir(fs, t) && !IsDir(fs, t)
    ensures var r := Cat(fs, at, [source, ">", target]);
      r.log == [] && r.disk == fs[at(target) := File(CatText(Content(fs, at, source)))]
  {
    var args := [source, ">", target];
    var text := CatText(Content(fs, at, source));
    GatherReadsInOrder(fs, at, [source], [">", target]);
    assert [source] + [">", target] == args;
    assert Concatenation(fs, at, [source]) == text + "";
    assert Gather(fs, at, args) == Gathered(text);
    assert RedirectionOf(args) == Some(Redirect(Overwrite, target));
    assert Cat(fs, at, args) == WriteTo(fs, at, Overwrite, target, text);
    assert Create(fs, at(target), File(text)) == Some(fs[at(target) := File(text)]);
  }

  // ---------------------------------------------------------------------
  // wc
  // ---------------------------------------------------------------------

  /** Lines, words and bytes, as `wc` counts them. */
  datatype Tally = Tally(lines: nat, words: nat, bytes: nat)

  function Plus(a: Tally, b: Tally): Tally
  {
    Tally(a.lines + b.lines, a.words + b.words, a.bytes + b.bytes)
  }

  lemma PlusAssociates(a: Tally, b: Tally, c: Tally)
    ensures Plus(Plus(a, b), c) == Plus(a, Plus(b, c))
  {
  }

  /** `line.split("\\s+").length` added up over the lines. */
  function WordCount(lines: seq<string>): nat
  {
    if lines == [] then 0 else WordCount(lines[..|lines| - 1]) + |SplitWhitespace(lines[|lines| - 1])|
  }

  /** `line.getBytes().length + 1` added up over the lines (one byte per character). */
  function ByteCount(lines: seq<string>): nat
  {
    if lines == [] then 0 else ByteCount(lines[..|lines| - 1]) + |lines[|lines| - 1]| + 1
  }

  /** What `wc` counts in one file. */
  function TallyOf(content: string): Tally
  {
    var lines := Lines(content);
    Tally(|lines|, WordCount(lines), ByteCount(lines))
  }

  /** `wc` counts a file's lines, and as many bytes as `cat` shows of it. */
  lemma TallyCountsLinesAndBytes(content: string)
    ensures TallyOf(content).lines == |Lines(content)|
    ensures TallyOf(content).bytes == |CatText(content)|
  {
    ByteCountIsTerminatedLength(Lines(content));
  }

  /** The byte count is the length of the lines, each with one line break. */
  lemma {:induction false} ByteCountIsTerminatedLength(lines: seq<string>)
    ensures ByteCount(lines) == |Terminated(lines)|
    decreases |lines|
  {
    if lines != [] {
      var init := lines[..|lines| - 1];
      ByteCountIsTerminatedLength(init);
      TerminatedSnoc(init, lines[|lines| - 1]);
      assert init + [lines[|lines| - 1]] == lines;
    }
  }

  /**
    For a file without carriage returns the byte count is its size, one more
    when its last line has no line break.
  */
  lemma BytesOfFile(content: string)
    requires '\r' !in content
    ensures TallyOf(content).bytes == |content| + (if content == [] || content[|content| - 1] == '\n' then 0 else 1)
  {
    ByteCountIsTerminatedLength(Lines(content));
    TerminatedLines(content);
  }

  /** A line of words separated by single spaces counts as that many words. */
  lemma WordsOfLine(words: seq<string>)
    requires words != []
    requires forall i :: 0 <= i < |words| ==> IsWord(words[i])
    ensures WordCount([Join(" ", words)]) == |words|
  {
    SplitWhitespaceJoin(words);
    assert [Join(" ", words)][..0] == [];
  }

  /** An empty line counts as one word, as `"".split("\\s+")` has one element. */
  lemma EmptyLineIsOneWord()
    ensures WordCount([""]) == 1
  {
    assert [""][..0] == [];
  }

  /**
    The report `wc` prints for `names`, given the totals so far: one counts
    line per file, then the totals; the first name that is missing or a
    directory ends the report with "file not found" and no totals.
  */
  function WcReport(fs: FileSystem, at: Resolver, names: seq<string>, total: Tally): (log: seq<Out>)
    ensures |log| >= 1
  {
    if names == [] then [Said(Totals(total.lines, total.words, total.bytes))]
    else
      var p := at(names[0]);
      if p !in fs || fs[p] == Dir then [Said(NoSuchFile)]
      else if fs[p].Archive? then [Said(Failed("wc"))]
      else
        var t := TallyOf(fs[p].content);
        [Said(Counts(names[0], t.lines, t.words, t.bytes))] + WcReport(fs, at, names[1..], Plus(total, t))
  }

  function Wc(fs: FileSystem, at: Resolver, names: seq<string>): (log: seq<Out>)
    ensures names == [] <==> log == [Said(Usage("wc"))]
  {
    if names == [] then [Said(Usage("wc"))] else WcReport(fs, at, names, Tally(0, 0, 0))
  }

  /** The counts line of one readable file. */
  function CountsLine(fs: FileSystem, at: Resolver, name: string): Out
    requires Readable(fs, at, name)
  {
    var t := TallyOf(Content(fs, at, name));
    Said(Counts(name, t.lines, t.words, t.bytes))
  }

  /** The counts lines of readable files, in order. */
  function CountsLines(fs: FileSystem, at: Resolver, names: seq<string>): seq<Out>
    requires forall i :: 0 <= i < |names| ==> Readable(fs, at, names[i])
  {
    if names == [] then [] else [CountsLine(fs, at, names[0])] + CountsLines(fs, at, names[1..])
  }

  /** The counts of readable files added up. */
  function Sum(fs: FileSystem, at: Resolver, names: seq<string>): Tally
    requires forall i :: 0 <= i < |names| ==> Readable(fs, at, names[i])
  {
    if names == [] then Tally(0, 0, 0) else Plus(TallyOf(Content(fs, at, names[0])), Sum(fs, at, names[1..]))
  }

  /**
    When every name is a readable file, `wc` prints one counts line per file,
    in order, and then totals that are the sums of those counts.
  */
  lemma {:induction false} WcTotalsAreSums(fs: FileSystem, at: Resolver, names: seq<string>, total: Tally)
    requires forall i :: 0 <= i < |names| ==> Readable(fs, at, names[i])
    ensures var s := Plus(total, Sum(fs, at, names));
      WcReport(fs, at, names, total) ==
        CountsLines(fs, at, names) + [Said(Totals(s.lines, s.words, s.bytes))]
    decreases |names|
  {
    if names == [] {
      assert Plus(total, Tally(0, 0, 0)) == total;
    } else {
      var t := TallyOf(Content(fs, at, names[0]));
      WcTotalsAreSums(fs, at, names[1..], Plus(total, t));
      assert names == [names[0]] + names[1..];
      WcTotalsStep(fs, at, names[0], names[1..], total);
    }
  }

  /** One file of `wc`, its counts line printed before the rest; the totals are the sums from the start. */
  lemma WcTotalsStep(fs: FileSystem, at: Resolver, name: string, names: seq<string>, total: Tally)
    requires Readable(fs, at, name) && forall i :: 0 <= i < |names| ==> Readable(fs, at, names[i])
    requires var s := Plus(Plus(total, TallyOf(Content(fs, at, name))), Sum(fs, at, names));
      WcReport(fs, at, names, Plus(total, TallyOf(Content(fs, at, name)))) ==
        CountsLines(fs, at, names) + [Said(Totals(s.lines, s.words, s.bytes))]
    ensures var all := [name] + names; var s := Plus(total, Sum(fs, at, all));
      WcReport(fs, at, all, total) == CountsLines(fs, at, all) + [Said(Totals(s.lines, s.words, s.bytes))]
  {
    var t := TallyOf(Content(fs, at, name));
    var first, rest := CountsLine(fs, at, name), CountsLines(fs, at, names);
    ConsFacts(fs, at, name, names, total);
    PlusAssociates(total, t, Sum(fs, at, names));
    var s := Plus(total, Sum(fs, at, [name] + names));
    var last := [Said(Totals(s.lines, s.words, s.bytes))];
    assert [first] + (rest + last) == ([first] + rest) + last;
  }

  /** What `wc` prints and sums for a readable file followed by other names. */
  lemma ConsFacts(fs: FileSystem, at: Resolver, name: string, names: seq<string>, total: Tally)
    requires Readable(fs, at, name) && forall i :: 0 <= i < |names| ==> Readable(fs, at, names[i])
    ensures var t := TallyOf(Content(fs, at, name));
      && WcReport(fs, at, [name] + names, total) == [CountsLine(fs, at, name)] + WcReport(fs, at, names, Plus(total, t))
      && CountsLines(fs, at, [name] + names) == [CountsLine(fs, at, name)] + CountsLines(fs, at, names)
      && Sum(fs, at, [name] + names) == Plus(t, Sum(fs, at, names))
  {
    var all := [name] + names;
    assert all[0] == name && all[1..] == names;
  }

  /**
    A name that is missing or a directory, after readable files, ends the
    report right there: the earlier files' counts are printed, the totals
    are not.
  */
  lemma {:induction false} WcStopsAtMissing(fs: FileSystem, at: Resolver, names: seq<string>, missing: string, tail: seq<string>, total: Tally)
    requires forall i :: 0 <= i < |names| ==> Readable(fs, at, names[i])
    requires at(missing) !in fs || fs[at(missing)] == Dir
    ensures WcReport(fs, at, names + [missing] + tail, total) ==
      CountsLines(fs, at, names) + [Said(NoSuchFile)]
    decreases |names|
  {
    if names == [] {
      assert names + [missing] + tail == [missing] + tail;
      assert ([missing] + tail)[0] == missing;
    } else {
      var t := TallyOf(Content(fs, at, names[0]));
      assert (names + [missing] + tail)[1..] == names[1..] + [missing] + tail;
      WcStopsAtMissing(fs, at, names[1..], missing, tail, Plus(total, t));
    }
  }
}
