/**
  `ls`: the nodes of the working directory, one per line, directories
  marked (src/Terminal.java, ls).
*/
module Listing {
  import opened Text
  import opened Paths
  import opened Disk
  import opened Reports
  import opened Redirection
  import opened Walks

  /** How `ls` shows one node: a directory marker or seven spaces, then the name. */
  function LsEntry(fs: FileSystem, p: Path): (line: string)
    requires p != []
    ensures IsDir(fs, p) ==> line == "[DIR]  " + p[|p| - 1]
    ensures !IsDir(fs, p) ==> line == "       " + p[|p| - 1]
  {
    (if IsDir(fs, p) then "[DIR]  " else "       ") + p[|p| - 1]
  }

  predicate NoRoot(order: seq<Path>)
  {
    forall i :: 0 <= i < |order| ==> order[i] != []
  }

  /** The shown nodes in listing order. */
  function LsEntries(fs: FileSystem, order: seq<Path>): (lines: seq<string>)
    requires NoRoot(order)
    ensures |lines| == |order|
    ensures forall i :: 0 <= i < |order| ==> lines[i] == LsEntry(fs, order[i])
  {
    if order == [] then [] else LsEntries(fs, order[..|order| - 1]) + [LsEntry(fs, order[|order| - 1])]
  }

  /** The text `ls` builds, a line per node in listing order, each ended by "\n". */
  function LsText(fs: FileSystem, order: seq<Path>): string
    requires NoRoot(order)
  {
    if order == [] then "" else LsText(fs, order[..|order| - 1]) + LsEntry(fs, order[|order| - 1]) + "\n"
  }

  /**
    `ls`: a missing working directory (or one that is not a directory) is
    reported; otherwise the listing goes to the trailing redirection if
    there is one, and is printed if not. Other arguments are ignored.
  */
  function Ls(fs: FileSystem, at: Resolver, dir: Path, order: seq<Path>, args: seq<string>): (r: Run)
    requires NoRoot(order)
    ensures !IsDir(fs, dir) ==> r == Run(fs, [Said(ReadDirectoryFailed)])
    ensures IsDir(fs, dir) && RedirectionOf(args).None? ==> r == Run(fs, [Printed(LsText(fs, order))])
    ensures IsDir(fs, dir) && RedirectionOf(args).Some? ==>
      r == WriteTo(fs, at, RedirectionOf(args).value.mode, RedirectionOf(args).value.target, LsText(fs, order))
  {
    if !IsDir(fs, dir) then Run(fs, [Said(ReadDirectoryFailed)])
    else match RedirectionOf(args)
      case Some(rd) => WriteTo(fs, at, rd.mode, rd.target, LsText(fs, order))
      case None => Run(fs, [Printed(LsText(fs, order))])
  }

  /** The listing text is the shown entries, each terminated by a line break. */
  lemma {:induction false} LsTextTerminated(fs: FileSystem, order: seq<Path>)
    requires NoRoot(order)
    ensures LsText(fs, order) == Terminated(LsEntries(fs, order))
    decreases |order|
  {
    if order != [] {
      var init := order[..|order| - 1];
      LsTextTerminated(fs, init);
      TerminatedSnoc(LsEntries(fs, init), LsEntry(fs, order[|order| - 1]));
    }
  }

  /** No shown entry has a line break when no name has one. */
  lemma EntriesHaveNoLineBreak(fs: FileSystem, order: seq<Path>)
    requires forall i :: 0 <= i < |order| ==> order[i] != [] && NoLineBreak(order[i][|order[i]| - 1])
    ensures var entries := LsEntries(fs, order);
      forall k, j :: 0 <= k < |entries| && 0 <= j < |entries[k]| ==> !IsLineBreak(entries[k][j])
  {
    var entries := LsEntries(fs, order);
    forall k, j | 0 <= k < |entries| && 0 <= j < |entries[k]| ensures !IsLineBreak(entries[k][j]) {
      var p := order[k];
      var name := p[|p| - 1];
      var mark := if IsDir(fs, p) then "[DIR]  " else "       ";
      assert entries[k] == mark + name;
      if j >= 7 {
        assert entries[k][j] == name[j - 7];
      }
    }
  }

  /**
    Read back line by line, a listing of names without line breaks has one
    line per node of the directory, each node exactly once, marked as a
    directory exactly when it is one.
  */
  lemma LsShowsEachNodeOnce(fs: FileSystem, d: Path, order: seq<Path>)
    requires IsListing(fs, d, order)
    requires forall i :: 0 <= i < |order| ==> order[i] != [] && NoLineBreak(order[i][|order[i]| - 1])
    ensures var lines := Lines(LsText(fs, order));
      && |lines| == |order|
      && (forall i :: 0 <= i < |order| ==> order[i] in Children(fs, d) && lines[i] == LsEntry(fs, order[i]))
      && (forall c :: c in Children(fs, d) ==> exists i :: 0 <= i < |order| && order[i] == c)
  {
    LsTextTerminated(fs, order);
    EntriesHaveNoLineBreak(fs, order);
    LinesOfTerminated(LsEntries(fs, order));
    forall c | c in Children(fs, d) ensures exists i :: 0 <= i < |order| && order[i] == c {
      assert c in order;
    }
  }
}
