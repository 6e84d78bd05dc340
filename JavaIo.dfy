// The parts of java.io.BufferedReader, java.util.Scanner and java.util.regex
// that AppFileHandler relies on, as functions on the text of a file.

module JavaIo {
  import opened JavaLang

  /**
   * The line terminators of the regex engine (the characters `.` does not
   * match) and of Scanner.nextLine: \n, \r, U+0085, U+2028 and U+2029.
   */
  predicate IsLineTerminator(c: char) {
    IsLineBreak(c) || c as int == 0x85 || c as int == 0x2028 || c as int == 0x2029
  }

  predicate NoLineTerminator(s: string) {
    forall i :: 0 <= i < |s| ==> !IsLineTerminator(s[i])
  }

  predicate NoJavaWhitespace(s: string) {
    forall i :: 0 <= i < |s| ==> !IsJavaWhitespace(s[i])
  }

  // ---------------------------------------------------------------------
  // BufferedReader.readLine
  // ---------------------------------------------------------------------

  /** The index of the first \n or \r of s, or |s| when there is none. */
  function LineBreakIndex(s: string): (k: nat)
    ensures k <= |s| && NoLineBreak(s[..k])
    ensures k < |s| ==> IsLineBreak(s[k])
  {
    if s == [] || IsLineBreak(s[0]) then 0
    else
      var k := 1 + LineBreakIndex(s[1..]);
      assert s[..k] == [s[0]] + s[1..][..k - 1];
      k
  }

  /**
   * The lines that successive readLine calls return on text before the null
   * that ends the input: a line ends at \n, at \r or at \r\n, and the last
   * line needs no terminator.
   */
  function ReadLines(text: string): (r: seq<string>)
    ensures forall i :: 0 <= i < |r| ==> NoLineBreak(r[i])
    decreases |text|
  {
    if text == [] then []
    else
      var k := LineBreakIndex(text);
      if k == |text| then [text]
      else
        var next := if text[k] == '\r' && k + 1 < |text| && text[k + 1] == '\n' then k + 2 else k + 1;
        [text[..k]] + ReadLines(text[next..])
  }

  /** The text PrintWriter.println writes for each of lines, with \n as the line separator. */
  function Unlines(lines: seq<string>): string {
    if lines == [] then [] else lines[0] + "\n" + Unlines(lines[1..])
  }

  lemma {:induction false} UnlinesConcat(a: seq<string>, b: seq<string>)
    ensures Unlines(a + b) == Unlines(a) + Unlines(b)
  {
    if a != [] {
      assert (a + b)[1..] == a[1..] + b;
      UnlinesConcat(a[1..], b);
    } else {
      assert a + b == b;
    }
  }

  lemma {:induction false} LineBreakIndexOfLine(line: string, rest: string)
    requires NoLineBreak(line)
    ensures LineBreakIndex(line + "\n" + rest) == |line|
  {
    if line != [] {
      assert (line + "\n" + rest)[1..] == line[1..] + "\n" + rest;
      LineBreakIndexOfLine(line[1..], rest);
    }
  }

  /** A line println wrote is what readLine returns first. */
  lemma ReadLinesCons(line: string, rest: string)
    requires NoLineBreak(line)
    ensures ReadLines(line + "\n" + rest) == [line] + ReadLines(rest)
  {
    var text := line + "\n" + rest;
    LineBreakIndexOfLine(line, rest);
    assert text[..|line|] == line;
    assert text[|line| + 1..] == rest;
  }

  /** Reading back what println wrote gives the lines that were written. */
  lemma {:induction false} ReadLinesOfUnlines(lines: seq<string>)
    requires forall i :: 0 <= i < |lines| ==> NoLineBreak(lines[i])
    ensures ReadLines(Unlines(lines)) == lines
  {
    if lines != [] {
      var line, rest := lines[0], Unlines(lines[1..]);
      var text := line + "\n" + rest;
      LineBreakIndexOfLine(line, rest);
      assert text[..|line|] == line;
      assert text[|line| + 1..] == rest;
      ReadLinesOfUnlines(lines[1..]);
    }
  }

  // ---------------------------------------------------------------------
  // Runs of characters: what the Scanner and the regex engine step over
  // ---------------------------------------------------------------------

  /** A character of a Scanner token. */
  predicate IsTokenChar(c: char) {
    !IsJavaWhitespace(c)
  }

  /** A character `.` matches. */
  predicate IsLineChar(c: char) {
    !IsLineTerminator(c)
  }

  predicate AllIn(s: string, i: nat, j: nat, p: char -> bool)
    requires i <= j <= |s|
  {
    forall k :: i <= k < j ==> p(s[k])
  }

  /** The end of the run of characters satisfying p that starts at index i of s. */
  function RunEnd(s: string, i: nat, p: char -> bool): (j: nat)
    requires i <= |s|
    ensures i <= j <= |s| && AllIn(s, i, j, p)
    ensures j < |s| ==> !p(s[j])
    decreases |s| - i
  {
    if i < |s| && p(s[i]) then RunEnd(s, i + 1, p) else i
  }

  /** A run is determined by where it stops. */
  lemma {:induction false} RunEndIs(s: string, i: nat, j: nat, p: char -> bool)
    requires i <= j <= |s| && AllIn(s, i, j, p)
    requires j < |s| ==> !p(s[j])
    ensures RunEnd(s, i, p) == j
    decreases j - i
  {
    if i < j {
      RunEndIs(s, i + 1, j, p);
    }
  }

  /** A run stops at the first character that does not satisfy p. */
  lemma RunEndStops(s: string, i: nat, j: nat, p: char -> bool)
    requires i <= j < |s| && !p(s[j])
    ensures RunEnd(s, i, p) <= j
  {
    var c, e := s[j], RunEnd(s, i, p);
    assert j < e ==> p(c);
  }

  // ---------------------------------------------------------------------
  // java.util.Scanner with its default delimiter
  // ---------------------------------------------------------------------

  /**
   * Where nextLine leaves a Scanner that stands at index i < |s|: past the
   * end of the current line and its terminator (\r\n counts as one), or at
   * the end of the input. At the end of the input nextLine throws instead.
   */
  function NextLineEnd(s: string, i: nat): (j: nat)
    requires i < |s|
    ensures i < j <= |s|
  {
    var k := RunEnd(s, i, IsLineChar);
    if k == |s| then |s|
    else if s[k] == '\r' && k + 1 < |s| && s[k + 1] == '\n' then k + 2
    else k + 1
  }

  /** nextLine stops after the first line terminator at or after index i, or at the end of the input. */
  lemma NextLineEndAt(s: string, i: nat, j: nat)
    requires i < |s| && i <= j <= |s| && AllIn(s, i, j, IsLineChar)
    requires j < |s| ==> IsLineTerminator(s[j])
    ensures j == |s| ==> NextLineEnd(s, i) == |s|
    ensures j < |s| ==> NextLineEnd(s, i) == if s[j] == '\r' && j + 1 < |s| && s[j + 1] == '\n' then j + 2 else j + 1
  {
    RunEndIs(s, i, j, IsLineChar);
  }
}
