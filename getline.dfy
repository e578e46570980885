/**
 * The line discipline of the C++ variant: `std::getline` on a string stream
 * splits the OCR text into lines, and writing each line followed by `endl`
 * serialises a list of lines into a file.
 */
module Getline {
  import opened Text

  /** What one successful `getline` call yields: the line read and the characters still unread. */
  datatype Extracted = Extracted(line: string, rest: string)

  /**
   * One `std::getline(stream, line)` call on a stream whose unread characters
   * are `s`: it fails (`None`), which ends a `while (getline(...))` loop,
   * exactly when no character is left, and otherwise consumes at least one.
   */
  function GetLine(s: string): (r: Option<Extracted>)
    ensures r.None? <==> s == []
    ensures r.Some? ==> |r.value.rest| < |s|
  {
    if s == [] then None
    else
      var i := IndexOf(s, '\n');
      if i < |s| then Some(Extracted(s[..i], s[i + 1..])) else Some(Extracted(s, []))
  }

  /**
   * What `getline` extracts: characters up to and including the first '\n',
   * which is not stored in the line; reaching the end of the stream after at
   * least one character also ends the line.
   */
  lemma GetLineReadsOneLine(s: string)
    requires s != []
    ensures '\n' !in GetLine(s).value.line
    ensures var e := GetLine(s).value;
      s == e.line + "\n" + e.rest || (s == e.line && e.rest == [])
  {
    var i := IndexOf(s, '\n');
    if i < |s| {
      assert s == s[..i] + "\n" + s[i + 1..];
    } else {
      assert s[..i] == s;
    }
  }

  /**
   * The lines that `while (getline(ss, line))` yields from the text `text`,
   * in order. Every line is free of '\n', and only the empty text yields no line.
   */
  function Split(text: string): (lines: seq<string>)
    ensures lines == [] <==> text == []
    ensures forall k :: 0 <= k < |lines| ==> '\n' !in lines[k]
    decreases |text|
  {
    match GetLine(text)
    case None => []
    case Some(e) =>
      GetLineReadsOneLine(text);
      [e.line] + Split(e.rest)
  }

  /** A successful `getline` call contributes the first line of the split. */
  lemma SplitStep(done: seq<string>, s: string)
    requires s != []
    ensures Split(s) == [GetLine(s).value.line] + Split(GetLine(s).value.rest)
    ensures (done + [GetLine(s).value.line]) + Split(GetLine(s).value.rest) == done + Split(s)
  {
  }

  /**
   * The text written by `out << line << endl` for each line in order:
   * every line is followed by '\n', so the text is empty exactly when there
   * is no line, and otherwise ends with '\n'.
   */
  function Join(lines: seq<string>): (text: string)
    ensures text == [] <==> lines == []
    ensures lines != [] ==> text[|text| - 1] == '\n'
  {
    if lines == [] then [] else lines[0] + "\n" + Join(lines[1..])
  }

  /** Writing one more line appends that line and its terminator to the text. */
  lemma {:induction false} JoinAppend(lines: seq<string>, line: string)
    ensures Join(lines + [line]) == Join(lines) + line + "\n"
  {
    if lines == [] {
      assert [] + [line] == [line];
    } else {
      assert (lines + [line])[1..] == lines[1..] + [line];
      JoinAppend(lines[1..], line);
    }
  }

  /**
   * Reading back written lines: when no line contains '\n', `getline`
   * recovers exactly the lines that were written, in order.
   */
  lemma {:induction false} SplitJoin(lines: seq<string>)
    requires forall k :: 0 <= k < |lines| ==> '\n' !in lines[k]
    ensures Split(Join(lines)) == lines
  {
    if lines != [] {
      var text := Join(lines);
      var rest := Join(lines[1..]);
      assert text == lines[0] + "\n" + rest;
      IndexOfUnique(text, '\n', |lines[0]|);
      assert text[..|lines[0]|] == lines[0];
      assert text[|lines[0]| + 1..] == rest;
      assert GetLine(text) == Some(Extracted(lines[0], rest));
      SplitJoin(lines[1..]);
    }
  }

  /** Writing back the split lines of a non-empty text starts with its first line. */
  lemma JoinSplitStep(text: string)
    requires text != []
    ensures Join(Split(text)) ==
      GetLine(text).value.line + "\n" + Join(Split(GetLine(text).value.rest))
  {
    var e := GetLine(text).value;
    assert Split(text) == [e.line] + Split(e.rest);
    assert ([e.line] + Split(e.rest))[1..] == Split(e.rest);
  }

  /** The text with one '\n' added, unless it is empty or already ends with '\n'. */
  function Terminated(text: string): string {
    if text == [] || text[|text| - 1] == '\n' then text else text + "\n"
  }

  /** Terminating a text that starts with a line and its '\n' terminates what follows that line. */
  lemma TerminatedAfterLine(line: string, rest: string)
    ensures line + "\n" + Terminated(rest) == Terminated(line + "\n" + rest)
  {
    var text := line + "\n" + rest;
    if rest != [] {
      assert text[|text| - 1] == rest[|rest| - 1];
      if rest[|rest| - 1] != '\n' {
        assert line + "\n" + (rest + "\n") == text + "\n";
      }
    }
  }

  /**
   * Splitting loses nothing but a missing final terminator: writing the
   * lines back reproduces the text exactly when it is empty or ends with
   * '\n', and otherwise the text with one '\n' added.
   */
  lemma {:induction false} JoinSplit(text: string)
    ensures Join(Split(text)) == Terminated(text)
    decreases |text|
  {
    if text != [] {
      var e := GetLine(text).value;
      GetLineReadsOneLine(text);
      JoinSplitStep(text);
      JoinSplit(e.rest);
      if text == e.line + "\n" + e.rest {
        TerminatedAfterLine(e.line, e.rest);
      } else {
        assert text[|text| - 1] in e.line;
      }
    }
  }

  /** A block of two newline-terminated words splits into those two words, and writing them back restores the block. */
  lemma HelloWorld()
    ensures Split("HELLO\nWORLD\n") == ["HELLO", "WORLD"]
    ensures Join(["HELLO", "WORLD"]) == "HELLO\nWORLD\n"
  {
    var lines := ["HELLO", "WORLD"];
    assert lines[1..] == ["WORLD"] && lines[1..][1..] == [];
    assert Join(lines) == "HELLO\nWORLD\n";
    SplitJoin(lines);
  }

  /** An interior empty line is kept as an empty entry. */
  lemma InteriorEmptyLine()
    ensures Split("a\n\nb\n") == ["a", "", "b"]
  {
    var lines := ["a", "", "b"];
    assert lines[1..] == ["", "b"] && lines[1..][1..] == ["b"] && lines[1..][1..][1..] == [];
    assert Join(lines) == "a\n\nb\n";
    SplitJoin(lines);
  }
}
