/**
  String operations of the Java library that the shell relies on:
  `String.join`, `String.split` on a single character and on the
  whitespace pattern `\s+`, and the line splitting of `BufferedReader.readLine`
  (which `Files.lines` shares).
*/
module Text {

  /** `String.join(sep, parts)`. */
  function Join(sep: string, parts: seq<string>): string
  {
    if parts == [] then ""
    else if |parts| == 1 then parts[0]
    else parts[0] + sep + Join(sep, parts[1..])
  }

  lemma JoinCons(sep: string, x: string, xs: seq<string>)
    ensures Join(sep, [x] + xs) == if xs == [] then x else x + sep + Join(sep, xs)
  {
    assert ([x] + xs)[1..] == xs;
  }

  /** All the pieces of `s` between occurrences of `c`, empty pieces included. */
  function SplitOn(s: string, c: char): (pieces: seq<string>)
    ensures |pieces| >= 1
    ensures forall i :: 0 <= i < |pieces| ==> c !in pieces[i]
    decreases |s|
  {
    if s == [] then [""]
    else
      var rest := SplitOn(s[1..], c);
      if s[0] == c then [""] + rest else [[s[0]] + rest[0]] + rest[1..]
  }

  /** Splitting and joining again on the same character gives back the string. */
  lemma JoinExtendHead(sep: string, x: string, parts: seq<string>)
    requires parts != []
    ensures Join(sep, [x + parts[0]] + parts[1..]) == x + Join(sep, parts)
  {
    JoinCons(sep, x + parts[0], parts[1..]);
    JoinCons(sep, parts[0], parts[1..]);
    assert [parts[0]] + parts[1..] == parts;
    if parts[1..] != [] {
      assert x + parts[0] + sep + Join(sep, parts[1..]) == x + (parts[0] + sep + Join(sep, parts[1..]));
    }
  }

  /** A join ends as its last part does. */
  lemma {:induction false} JoinEndsWithLast(sep: string, parts: seq<string>)
    requires parts != [] && parts[|parts| - 1] != ""
    ensures var j := Join(sep, parts); var last := parts[|parts| - 1];
      |j| > 0 && j[|j| - 1] == last[|last| - 1]
    decreases |parts|
  {
    if |parts| > 1 {
      JoinEndsWithLast(sep, parts[1..]);
    }
  }

  lemma {:induction false} JoinSplitOn(s: string, c: char)
    ensures Join([c], SplitOn(s, c)) == s
    decreases |s|
  {
    if s != [] {
      var rest := SplitOn(s[1..], c);
      JoinSplitOn(s[1..], c);
      assert s == [s[0]] + s[1..];
      if s[0] == c {
        JoinCons([c], "", rest);
      } else {
        JoinExtendHead([c], [s[0]], rest);
      }
    }
  }

  lemma {:induction false} SplitOnPrefix(a: string, b: string, c: char)
    requires c !in a
    ensures SplitOn(a + b, c) == [a + SplitOn(b, c)[0]] + SplitOn(b, c)[1..]
    decreases |a|
  {
    if a != [] {
      var pieces := SplitOn(b, c);
      assert (a + b)[1..] == a[1..] + b;
      assert (a + b)[0] == a[0];
      assert a[0] != c;
      SplitOnPrefix(a[1..], b, c);
      var rest := SplitOn(a[1..] + b, c);
      assert rest == [a[1..] + pieces[0]] + pieces[1..];
      assert rest[0] == a[1..] + pieces[0];
      assert rest[1..] == pieces[1..];
      assert SplitOn(a + b, c) == [[a[0]] + rest[0]] + rest[1..];
      assert [a[0]] + (a[1..] + pieces[0]) == a + pieces[0];
    } else {
      var pieces := SplitOn(b, c);
      assert a + b == b && a + pieces[0] == pieces[0];
      assert [pieces[0]] + pieces[1..] == pieces;
    }
  }

  /** Joining pieces that do not contain `c` and splitting again gives back the pieces. */
  lemma {:induction false} SplitOnJoin(parts: seq<string>, c: char)
    requires parts != []
    requires forall i :: 0 <= i < |parts| ==> c !in parts[i]
    ensures SplitOn(Join([c], parts), c) == parts
    decreases |parts|
  {
    if |parts| == 1 {
      SplitOnPrefix(parts[0], "", c);
      assert parts[0] + "" == parts[0];
    } else {
      var j := Join([c], parts[1..]);
      SplitOnJoin(parts[1..], c);
      assert Join([c], parts) == parts[0] + ([c] + j);
      SplitOnPrefix(parts[0], [c] + j, c);
      assert ([c] + j)[1..] == j;
      assert SplitOn([c] + j, c) == [""] + parts[1..];
      assert parts[0] + "" == parts[0];
      assert [parts[0]] + parts[1..] == parts;
    }
  }

  /** The list without its trailing empty strings. */
  function DropTrailingEmpty(xs: seq<string>): (r: seq<string>)
    ensures |r| <= |xs| && r == xs[..|r|]
    ensures r == [] || r[|r| - 1] != ""
    ensures forall i :: |r| <= i < |xs| ==> xs[i] == ""
  {
    if xs != [] && xs[|xs| - 1] == "" then DropTrailingEmpty(xs[..|xs| - 1]) else xs
  }

  /**
    `s.split(String.valueOf(c))` with Java's limit 0: the pieces between the
    occurrences of `c`, trailing empty pieces removed; the empty string splits
    into one empty piece, since the separator never occurs in it.
  */
  function SplitJava(s: string, c: char): (r: seq<string>)
    ensures forall i :: 0 <= i < |r| ==> c !in r[i]
    ensures s != "" ==> r == [] || r[|r| - 1] != ""
  {
    if s == "" then [""] else DropTrailingEmpty(SplitOn(s, c))
  }

  lemma {:induction false} AllSeparatorPieces(s: string, c: char)
    requires forall i :: 0 <= i < |s| ==> s[i] == c
    ensures forall i :: 0 <= i < |SplitOn(s, c)| ==> SplitOn(s, c)[i] == ""
    decreases |s|
  {
    if s != [] {
      AllSeparatorPieces(s[1..], c);
    }
  }

  lemma {:induction false} JoinOfEmpties(parts: seq<string>, c: char)
    requires forall i :: 0 <= i < |parts| ==> parts[i] == ""
    ensures forall i :: 0 <= i < |Join([c], parts)| ==> Join([c], parts)[i] == c
    decreases |parts|
  {
    if |parts| > 1 {
      JoinOfEmpties(parts[1..], c);
    }
  }

  /** Splitting yields no piece at all exactly when the string is non-empty and made of separators only. */
  lemma SplitJavaEmpty(s: string, c: char)
    ensures SplitJava(s, c) == [] <==> s != "" && forall i :: 0 <= i < |s| ==> s[i] == c
  {
    if s != "" {
      var pieces := SplitOn(s, c);
      if forall i :: 0 <= i < |s| ==> s[i] == c {
        AllSeparatorPieces(s, c);
        assert DropTrailingEmpty(pieces) == [];
      }
      if DropTrailingEmpty(pieces) == [] {
        JoinSplitOn(s, c);
        JoinOfEmpties(pieces, c);
      }
    }
  }

  /**
    When `s` does not end with the separator, its Java split loses nothing:
    joining the pieces again gives back `s`.
  */
  lemma SplitJavaJoin(s: string, c: char)
    requires s != "" && s[|s| - 1] != c
    ensures Join([c], SplitJava(s, c)) == s
    ensures forall i :: 0 <= i < |SplitJava(s, c)| ==> c !in SplitJava(s, c)[i]
  {
    var pieces := SplitOn(s, c);
    JoinSplitOn(s, c);
    LastPieceEndsString(s, c);
    assert DropTrailingEmpty(pieces) == pieces;
  }

  lemma {:induction false} LastPieceEndsString(s: string, c: char)
    requires s != "" && s[|s| - 1] != c
    ensures SplitOn(s, c)[|SplitOn(s, c)| - 1] != ""
    decreases |s|
  {
    if |s| > 1 {
      assert s[1..][|s[1..]| - 1] == s[|s| - 1];
      LastPieceEndsString(s[1..], c);
    }
  }

  /** Java's `\s`: space, tab, line feed, vertical tab, form feed, carriage return. */
  predicate IsSpace(ch: char)
  {
    ch == ' ' || ch == '\t' || ch == '\n' || ch == '\r' || ch == 11 as char || ch == 12 as char
  }

  function SkipSpace(s: string): (r: string)
    ensures |r| <= |s| && r == s[|s| - |r|..]
    ensures r == [] || !IsSpace(r[0])
  {
    if s != [] && IsSpace(s[0]) then SkipSpace(s[1..]) else s
  }

  /** The pieces of `s` between maximal runs of whitespace. */
  function SplitRuns(s: string): (pieces: seq<string>)
    ensures |pieces| >= 1
    ensures forall i, j :: 0 <= i < |pieces| && 0 <= j < |pieces[i]| ==> !IsSpace(pieces[i][j])
    decreases |s|
  {
    if s == [] then [""]
    else if IsSpace(s[0]) then [""] + SplitRuns(SkipSpace(s))
    else
      var rest := SplitRuns(s[1..]);
      [[s[0]] + rest[0]] + rest[1..]
  }

  /** `s.split("\\s+")`: as for a single character, with runs of whitespace as separators. */
  function SplitWhitespace(s: string): (r: seq<string>)
    ensures forall i, j :: 0 <= i < |r| && 0 <= j < |r[i]| ==> !IsSpace(r[i][j])
    ensures s != "" ==> r == [] || r[|r| - 1] != ""
  {
    if s == "" then [""] else DropTrailingEmpty(SplitRuns(s))
  }

  /** A word: a non-empty string without whitespace. */
  predicate IsWord(w: string)
  {
    w != "" && forall i :: 0 <= i < |w| ==> !IsSpace(w[i])
  }

  lemma {:induction false} SplitRunsWord(w: string, rest: string)
    requires forall i :: 0 <= i < |w| ==> !IsSpace(w[i])
    ensures SplitRuns(w + rest) == [w + SplitRuns(rest)[0]] + SplitRuns(rest)[1..]
    decreases |w|
  {
    if w != [] {
      var pieces := SplitRuns(rest);
      assert (w + rest)[1..] == w[1..] + rest;
      assert (w + rest)[0] == w[0];
      SplitRunsWord(w[1..], rest);
      var after := SplitRuns(w[1..] + rest);
      assert after == [w[1..] + pieces[0]] + pieces[1..];
      assert after[0] == w[1..] + pieces[0];
      assert after[1..] == pieces[1..];
      assert SplitRuns(w + rest) == [[w[0]] + after[0]] + after[1..];
      assert [w[0]] + (w[1..] + pieces[0]) == w + pieces[0];
    } else {
      var pieces := SplitRuns(rest);
      assert w + rest == rest && w + pieces[0] == pieces[0];
      assert [pieces[0]] + pieces[1..] == pieces;
    }
  }

  /** Words separated by single spaces split back into those words. */
  lemma {:induction false} SplitWhitespaceJoin(words: seq<string>)
    requires words != []
    requires forall i :: 0 <= i < |words| ==> IsWord(words[i])
    ensures SplitWhitespace(Join(" ", words)) == words
  {
    SplitRunsJoin(words);
    var s := Join(" ", words);
    JoinStartsWithWord(words);
    assert s != "";
  }

  lemma {:induction false} JoinStartsWithWord(words: seq<string>)
    requires words != []
    requires forall i :: 0 <= i < |words| ==> IsWord(words[i])
    ensures |Join(" ", words)| >= |words[0]| && Join(" ", words)[..|words[0]|] == words[0]
  {
    if |words| > 1 {
      assert Join(" ", words) == words[0] + (" " + Join(" ", words[1..]));
    }
  }

  lemma {:induction false} SplitRunsJoin(words: seq<string>)
    requires words != []
    requires forall i :: 0 <= i < |words| ==> IsWord(words[i])
    ensures SplitRuns(Join(" ", words)) == words
    decreases |words|
  {
    var w := words[0];
    if |words| == 1 {
      SplitRunsWord(w, "");
      assert w + "" == w;
    } else {
      var j := Join(" ", words[1..]);
      SplitRunsJoin(words[1..]);
      JoinStartsWithWord(words[1..]);
      assert j[0] == words[1][0];
      assert Join(" ", words) == w + (" " + j);
      SplitRunsWord(w, " " + j);
      assert SkipSpace(" " + j) == j by {
        assert (" " + j)[1..] == j;
      }
      assert SplitRuns(" " + j) == [""] + words[1..];
      assert w + "" == w;
      assert [w] + words[1..] == words;
    }
  }

  /** A character that ends a line for `BufferedReader.readLine`. */
  predicate IsLineBreak(ch: char)
  {
    ch == '\n' || ch == '\r'
  }

  predicate NoLineBreak(s: string)
  {
    forall j :: 0 <= j < |s| ==> !IsLineBreak(s[j])
  }

  /** Index of the first line break of `s`, or `|s|` when there is none. */
  function LineEnd(s: string): (i: nat)
    ensures i <= |s|
    ensures forall k :: 0 <= k < i ==> !IsLineBreak(s[k])
    ensures i < |s| ==> IsLineBreak(s[i])
  {
    if s == [] || IsLineBreak(s[0]) then 0 else 1 + LineEnd(s[1..])
  }

  /**
    The lines `BufferedReader.readLine` returns, in order: a line ends at
    "\n", "\r" or "\r\n", and a last line without a break is still returned.
  */
  function Lines(s: string): (lines: seq<string>)
    ensures forall k, j :: 0 <= k < |lines| && 0 <= j < |lines[k]| ==> !IsLineBreak(lines[k][j])
    decreases |s|
  {
    if s == [] then []
    else
      var i := LineEnd(s);
      if i == |s| then [s]
      else
        var next := if s[i] == '\r' && i + 1 < |s| && s[i + 1] == '\n' then i + 2 else i + 1;
        [s[..i]] + Lines(s[next..])
  }

  /** The line separator the model uses for `System.lineSeparator()`. */
  const Newline: string := "\n"

  /** Every line followed by a line separator, as `cat` builds its output. */
  function Terminated(lines: seq<string>): string
  {
    if lines == [] then "" else lines[0] + Newline + Terminated(lines[1..])
  }

  /** Adding a line at the end adds it, with its line separator, at the end of the text. */
  lemma {:induction false} TerminatedSnoc(lines: seq<string>, last: string)
    ensures Terminated(lines + [last]) == Terminated(lines) + last + Newline
    decreases |lines|
  {
    if lines == [] {
      assert lines + [last] == [last];
    } else {
      assert (lines + [last])[1..] == lines[1..] + [last];
      TerminatedSnoc(lines[1..], last);
    }
  }

  /** Lines without line breaks, each terminated, read back as the same lines. */
  lemma {:induction false} LinesOfTerminated(lines: seq<string>)
    requires forall k, j :: 0 <= k < |lines| && 0 <= j < |lines[k]| ==> !IsLineBreak(lines[k][j])
    ensures Lines(Terminated(lines)) == lines
    decreases |lines|
  {
    if lines != [] {
      LinesOfTerminated(lines[1..]);
      LinesAfterBreak(lines[0], Terminated(lines[1..]));
      assert [lines[0]] + lines[1..] == lines;
    }
  }

  lemma {:induction false} LinesAfterBreak(a: string, b: string)
    requires forall k :: 0 <= k < |a| ==> !IsLineBreak(a[k])
    ensures Lines(a + Newline + b) == [a] + Lines(b)
  {
    var s := a + Newline + b;
    assert s == a + (Newline + b);
    LineEndOf(a, Newline + b);
    assert s[|a|] == '\n';
    assert s[..|a|] == a;
    assert s[|a| + 1..] == b;
  }

  lemma {:induction false} LineEndOf(a: string, rest: string)
    requires forall k :: 0 <= k < |a| ==> !IsLineBreak(a[k])
    requires rest != [] && IsLineBreak(rest[0])
    ensures LineEnd(a + rest) == |a|
    decreases |a|
  {
    if a != [] {
      assert (a + rest)[1..] == a[1..] + rest;
      LineEndOf(a[1..], rest);
    }
  }

  /**
    Reading a text without carriage returns line by line and terminating every
    line gives back the text, plus a final line break when it had none.
  */
  lemma {:induction false} TerminatedLines(s: string)
    requires '\r' !in s
    ensures Terminated(Lines(s)) == if s == [] || s[|s| - 1] == '\n' then s else s + Newline
    decreases |s|
  {
    if s != [] {
      var i := LineEnd(s);
      if i == |s| {
        assert Lines(s) == [s];
        assert Terminated([s]) == s + Newline;
      } else {
        var a, rest := s[..i], s[i + 1..];
        SplitAtBreak(s, i);
        TerminatedLines(rest);
        TerminatedAfterBreak(a, rest);
        if rest != [] && rest[|rest| - 1] != '\n' {
          assert a + Newline + (rest + Newline) == s + Newline;
        }
      }
    }
  }

  /** Where a text without carriage returns breaks a line: before, the break, and after. */
  lemma SplitAtBreak(s: string, i: nat)
    requires '\r' !in s
    requires i == LineEnd(s) < |s|
    ensures s == s[..i] + Newline + s[i + 1..]
    ensures '\r' !in s[i + 1..]
    ensures s[i + 1..] != [] ==> s[i + 1..][|s[i + 1..]| - 1] == s[|s| - 1]
    ensures forall k :: 0 <= k < |s[..i]| ==> !IsLineBreak(s[..i][k])
  {
    var rest := s[i + 1..];
    assert s[i] == '\n';
    assert '\r' !in rest by {
      forall k | 0 <= k < |rest| ensures rest[k] != '\r' { assert rest[k] == s[i + 1 + k]; }
    }
  }

  /** Terminating the lines of a text that starts with a whole line restores that line and its break. */
  lemma TerminatedAfterBreak(a: string, rest: string)
    requires forall k :: 0 <= k < |a| ==> !IsLineBreak(a[k])
    ensures Terminated(Lines(a + Newline + rest)) == a + Newline + Terminated(Lines(rest))
  {
    LinesAfterBreak(a, rest);
    var ls := Lines(rest);
    assert ([a] + ls)[1..] == ls;
  }

  /** `s.replace("\"", "")`: the string without its double quotes. */
  function WithoutQuotes(s: string): (r: string)
    ensures '"' !in r
    ensures |r| <= |s|
    ensures '"' !in s ==> r == s
  {
    if s == [] then "" else (if s[0] == '"' then "" else [s[0]]) + WithoutQuotes(s[1..])
  }
}
