/**
  The tokenizer: a command line is split on single spaces into a command
  name and its arguments (src/Parser.java).
*/
module CommandLine {
  import opened Wrappers
  import opened Text

  /** `input.split(" ")`. */
  function Tokens(input: string): (r: seq<string>)
    ensures forall i :: 0 <= i < |r| ==> ' ' !in r[i]
    ensures input != "" ==> r == [] || r[|r| - 1] != ""
  {
    SplitJava(input, ' ')
  }

  /** A line made of spaces only has no token at all; any other line has at least one. */
  lemma TokensEmpty(input: string)
    ensures Tokens(input) == [] <==> input != "" && forall i :: 0 <= i < |input| ==> input[i] == ' '
  {
    SplitJavaEmpty(input, ' ');
  }

  /**
    Tokens carry no space, and a line that does not end with a space is
    exactly its tokens joined by single spaces.
  */
  lemma TokensJoin(input: string)
    requires input != "" && input[|input| - 1] != ' '
    ensures Join(" ", Tokens(input)) == input
    ensures forall i :: 0 <= i < |Tokens(input)| ==> ' ' !in Tokens(input)[i]
  {
    SplitJavaJoin(input, ' ');
  }

  class Parser {
    var commandName: string
    var args: array?<string>
    /** The line given to the most recent `Parse`, if any. */
    ghost var line: Option<string>

    ghost predicate Valid()
      reads this, args
    {
      match line
      case None => commandName == "" && args == null
      case Some(input) =>
        var tokens := Tokens(input);
        && args != null
        && |tokens| >= 1
        && commandName == tokens[0]
        && args[..] == tokens[1..]
    }

    constructor ()
      ensures Valid() && line == None
      ensures commandName == "" && args == null
    {
      commandName := "";
      args := null;
      line := None;
    }

    /**
      Splits `input` into the command name (the first token) and a fresh
      array of the remaining tokens; tells whether there is any argument.
      A line of spaces only has no token, and the Java code then fails
      allocating an array of size -1: callers must not pass one.
    */
    method Parse(input: string) returns (isParsed: bool)
      requires Tokens(input) != []
      modifies this
      ensures Valid() && line == Some(input) && fresh(args)
      ensures commandName == Tokens(input)[0]
      ensures args[..] == Tokens(input)[1..]
      ensures isParsed <==> |Tokens(input)| >= 2
    {
      isParsed := false;
      var tokens := Tokens(input);
      var a := new string[|tokens| - 1];
      commandName := tokens[0];
      for i := 1 to |tokens|
        invariant a[..i - 1] == tokens[1..i]
        modifies a
        invariant isParsed <==> i > 1
      {
        a[i - 1] := tokens[i];
        isParsed := true;
      }
      assert a[..] == a[..|tokens| - 1] && tokens[1..] == tokens[1..|tokens|];
      args := a;
      line := Some(input);
    }

    /** The command name of the most recent parse; "" before any. */
    method GetCommandName() returns (name: string)
      requires Valid()
      ensures line.None? ==> name == ""
      ensures line.Some? ==> name == Tokens(line.value)[0]
    {
      name := commandName;
    }

    /** The arguments of the most recent parse, in order; null before any. */
    method GetArgs() returns (a: array?<string>)
      requires Valid()
      ensures a == args
      ensures line.None? ==> a == null
      ensures line.Some? ==> a != null && a[..] == Tokens(line.value)[1..]
    {
      a := args;
    }
  }
}
