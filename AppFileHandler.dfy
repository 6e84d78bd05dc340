// AppFileHandler: reads the list of wanted net service names from the sync
// file, reads the entries of the current tnsnames.ora, writes a new one to
// tnsnames.tmpbuild.ora and moves it over tnsnames.ora. The files of the
// TNS_ADMIN directory are fields of the handler; the clock and the outcome of
// creating and moving files are parameters.

module AppFiles {
  import opened Wrappers
  import opened JavaLang
  import opened JavaIo
  import opened TnsEntries

  /** A file as the handler finds it when it opens it. */
  datatype FileState =
    | NotOpenable          // missing or not permitted: opening throws FileNotFoundException
    | Readable(text: string)
    | ReadFails            // opens, but reading it throws an IOException

  datatype AppError =
    | TnsSyncFileMissing   // TnsSyncFileMissingException
    | NoLineFound          // NoSuchElementException from Scanner.nextLine
    | CannotReadTnsNames   // AppException: can not read tnsnames.ora file
    | CannotWriteBuildFile // AppException: can not write build file
    | CannotMoveBuildFile  // AppException: can not move build file to final tnsnames.ora

  // ---------------------------------------------------------------------
  // The sync file: getTnsSyncList
  // ---------------------------------------------------------------------

  /** replaceAll("\\s", ""): drops every \s character. */
  function RemoveRegexSpace(s: string): (r: string)
    ensures |r| <= |s|
  {
    if s == [] then []
    else (if IsRegexSpace(s[0]) then [] else [s[0]]) + RemoveRegexSpace(s[1..])
  }

  /** The word getTnsSyncList makes of a token: s.next().toUpperCase().replaceAll("\\s", ""). */
  function Word(token: string): string {
    RemoveRegexSpace(ToUpper(token))
  }

  predicate StartsWithHash(s: string) {
    s != [] && s[0] == '#'
  }

  function AddWords(hs: set<string>, r: Result<set<string>, AppError>): Result<set<string>, AppError> {
    match r
    case Ok(ws) => Ok(hs + ws)
    case Err(e) => Err(e)
  }

  /**
   * The words getTnsSyncList collects from index i of the sync file on: a
   * token starting with '#' skips the rest of its line, any other token is
   * a word. A '#' token with nothing after it makes nextLine throw.
   */
  function SyncWords(text: string, i: nat): Result<set<string>, AppError>
    requires i <= |text|
    decreases |text| - i
  {
    var p := RunEnd(text, i, IsJavaWhitespace);
    if p == |text| then Ok({})
    else
      var e := RunEnd(text, p, IsTokenChar);
      var word := Word(text[p..e]);
      if StartsWithHash(word) then
        if e == |text| then Err(NoLineFound) else SyncWords(text, NextLineEnd(text, e))
      else
        AddWords({word}, SyncWords(text, e))
  }

  lemma AddWordsUnion(a: set<string>, b: set<string>, r: Result<set<string>, AppError>)
    ensures AddWords(a, AddWords(b, r)) == AddWords(a + b, r)
    ensures AddWords({}, r) == r
  {
    match r
    case Ok(ws) =>
      assert a + (b + ws) == (a + b) + ws;
      assert {} + ws == ws;
    case Err(_) =>
  }

  /** The outcome of getTnsSyncList on the sync file, as a set. */
  function SyncList(f: FileState): Result<set<string>, AppError> {
    match f
    case NotOpenable => Err(TnsSyncFileMissing)
    case ReadFails => Ok({})        // Scanner takes a failing read for the end of the input
    case Readable(text) => SyncWords(text, 0)
  }

  lemma {:induction false} RemoveRegexSpaceOfToken(s: string)
    requires NoJavaWhitespace(s)
    ensures RemoveRegexSpace(s) == s
  {
    if s != [] {
      assert !IsJavaWhitespace(s[0]);
      assert NoJavaWhitespace(s[1..]) by {
        forall i | 0 <= i < |s| - 1 ensures !IsJavaWhitespace(s[1..][i]) {
          assert s[1..][i] == s[i + 1];
        }
      }
      RemoveRegexSpaceOfToken(s[1..]);
    }
  }

  /** replaceAll("\\s", "") changes no token: \s is part of the delimiter. */
  lemma WordOfToken(text: string, p: nat, e: nat)
    requires p <= e <= |text| && AllIn(text, p, e, IsTokenChar)
    ensures Word(text[p..e]) == ToUpper(text[p..e])
  {
    var u := ToUpper(text[p..e]);
    forall k | 0 <= k < |u| ensures !IsJavaWhitespace(u[k]) {
      assert u[k] == UpperChar(text[p + k]);
    }
    RemoveRegexSpaceOfToken(u);
  }

  /** The word made of a token is non-empty, upper case and free of whitespace. */
  lemma WordIsName(text: string, p: nat, e: nat)
    requires p < e <= |text| && AllIn(text, p, e, IsTokenChar)
    ensures Word(text[p..e]) != [] && IsUpper(Word(text[p..e])) && NoJavaWhitespace(Word(text[p..e]))
  {
    WordOfToken(text, p, e);
    ToUpperIsUpper(text[p..e]);
    var w := ToUpper(text[p..e]);
    forall k | 0 <= k < |w| ensures !IsJavaWhitespace(w[k]) {
      assert w[k] == UpperChar(text[p + k]);
    }
  }

  /** Every word collected is non-empty, upper case, free of whitespace and not a comment. */
  lemma {:induction false} SyncWordsAreNames(text: string, i: nat)
    requires i <= |text| && SyncWords(text, i).Ok?
    ensures forall w :: w in SyncWords(text, i).value ==>
      w != [] && IsUpper(w) && NoJavaWhitespace(w) && !StartsWithHash(w)
    decreases |text| - i
  {
    var p := RunEnd(text, i, IsJavaWhitespace);
    if p < |text| {
      var e := RunEnd(text, p, IsTokenChar);
      assert p < e by {
        assert IsTokenChar(text[p]);
      }
      WordIsName(text, p, e);
      if StartsWithHash(Word(text[p..e])) {
        SyncWordsAreNames(text, NextLineEnd(text, e));
      } else {
        SyncWordsAreNames(text, e);
      }
    }
  }

  /** Whitespace between tokens is skipped. */
  lemma SyncWordsSkipsWhitespace(text: string, i: nat, j: nat)
    requires i <= j <= |text| && AllIn(text, i, j, IsJavaWhitespace)
    ensures SyncWords(text, i) == SyncWords(text, RunEnd(text, j, IsJavaWhitespace))
  {
    var p := RunEnd(text, j, IsJavaWhitespace);
    RunEndIs(text, i, p, IsJavaWhitespace);
    RunEndIs(text, p, p, IsJavaWhitespace);
  }

  /** A token that does not start with '#' is a word, upper-cased. */
  lemma SyncWordsOfWord(text: string, i: nat, j: nat)
    requires i < j <= |text| && text[i] != '#' && AllIn(text, i, j, IsTokenChar)
    requires j < |text| ==> IsJavaWhitespace(text[j])
    ensures SyncWords(text, i) == AddWords({ToUpper(text[i..j])}, SyncWords(text, j))
  {
    RunEndIs(text, i, i, IsJavaWhitespace);
    RunEndIs(text, i, j, IsTokenChar);
    WordOfToken(text, i, j);
    assert ToUpper(text[i..j])[0] == UpperChar(text[i]);
  }

  /**
   * A token that starts with '#' drops the rest of its line, words included:
   * reading goes on after the first line terminator that follows the token
   * (\r\n counts as one), or stops at the end of the input when no
   * terminator follows.
   */
  lemma SyncWordsOfComment(text: string, i: nat, j: nat)
    requires i < |text| && text[i] == '#'
    requires RunEnd(text, i, IsTokenChar) < |text|
    requires RunEnd(text, i, IsTokenChar) <= j <= |text| && AllIn(text, RunEnd(text, i, IsTokenChar), j, IsLineChar)
    requires j < |text| ==> IsLineTerminator(text[j])
    ensures j == |text| ==> SyncWords(text, i) == Ok({})
    ensures j < |text| ==>
      SyncWords(text, i) == SyncWords(text, if text[j] == '\r' && j + 1 < |text| && text[j + 1] == '\n' then j + 2 else j + 1)
  {
    var e := RunEnd(text, i, IsTokenChar);
    CommentToken(text, i);
    NextLineEndAt(text, e, j);
  }

  /** A '#' token followed by more input makes the reading resume where nextLine stops. */
  lemma CommentToken(text: string, i: nat)
    requires i < |text| && text[i] == '#' && RunEnd(text, i, IsTokenChar) < |text|
    ensures SyncWords(text, i) == SyncWords(text, NextLineEnd(text, RunEnd(text, i, IsTokenChar)))
  {
    RunEndIs(text, i, i, IsJavaWhitespace);
    var e := RunEnd(text, i, IsTokenChar);
    WordOfToken(text, i, e);
    assert ToUpper(text[i..e])[0] == UpperChar(text[i]);
  }

  /** A '#' token that ends the file makes getTnsSyncList throw. */
  lemma SyncWordsOfTrailingComment(text: string, i: nat)
    requires i < |text| && text[i] == '#' && AllIn(text, i, |text|, IsTokenChar)
    ensures SyncWords(text, i) == Err(NoLineFound)
  {
    RunEndIs(text, i, i, IsJavaWhitespace);
    RunEndIs(text, i, |text|, IsTokenChar);
    WordOfToken(text, i, |text|);
    assert ToUpper(text[i..])[0] == UpperChar(text[i]);
  }

  // ---------------------------------------------------------------------
  // The current tnsnames.ora: getCurrentTnsEntryList
  // ---------------------------------------------------------------------

  /** line.trim().startsWith("#") || line.trim().isEmpty() */
  predicate IsSkipped(line: string) {
    var t := Trim(line);
    t == [] || t[0] == '#'
  }

  /**
   * The two groups of ^\s*(\w+?)\s*=\s*(.*) when matcher.find() succeeds on
   * line. The lazy group still ends where the run of \w does, for only a \s
   * or an '=' may follow it.
   */
  function MatchEntryLine(line: string): (r: Option<(string, string)>)
    ensures r.Some? ==> r.value.0 != [] && AllWordChars(r.value.0) && NoLineTerminator(r.value.1)
  {
    var p := RunEnd(line, 0, IsRegexSpace);
    var q := RunEnd(line, p, IsWordChar);
    if q == p then None
    else
      var e := RunEnd(line, q, IsRegexSpace);
      if e == |line| || line[e] != '=' then None
      else
        var d := RunEnd(line, e + 1, IsRegexSpace);
        var t := RunEnd(line, d, IsLineChar);
        assert AllWordChars(line[p..q]) by {
          forall k | 0 <= k < q - p ensures IsWordChar(line[p..q][k]) {
            assert line[p..q][k] == line[p + k];
          }
        }
        assert NoLineTerminator(line[d..t]) by {
          forall k | 0 <= k < t - d ensures !IsLineTerminator(line[d..t][k]) {
            assert line[d..t][k] == line[d + k];
          }
        }
        Some((line[p..q], line[d..t]))
  }

  /**
   * The regex matches line with group 1 at [p, q) and group 2 at [d, t):
   * \s on [0, p), \w on [p, q), \s on [q, e), '=' at e, the whole run of \s
   * on [e + 1, d), and then the longest run `.` matches on [d, t).
   */
  predicate EntryMatchAt(line: string, p: nat, q: nat, e: nat, d: nat, t: nat) {
    p < q <= e < d <= t <= |line|
    && AllIn(line, 0, p, IsRegexSpace) && AllIn(line, p, q, IsWordChar)
    && AllIn(line, q, e, IsRegexSpace) && line[e] == '='
    && AllIn(line, e + 1, d, IsRegexSpace) && (d < |line| ==> !IsRegexSpace(line[d]))
    && AllIn(line, d, t, IsLineChar) && (t < |line| ==> !IsLineChar(line[t]))
  }

  /** A line laid out as the regex describes matches it, with those groups. */
  lemma MatchEntryLineComplete(line: string, p: nat, q: nat, e: nat, d: nat, t: nat)
    requires EntryMatchAt(line, p, q, e, d, t)
    ensures MatchEntryLine(line) == Some((line[p..q], line[d..t]))
  {
    RunEndIs(line, 0, p, IsRegexSpace);
    RunEndIs(line, p, q, IsWordChar);
    RunEndIs(line, q, e, IsRegexSpace);
    RunEndIs(line, e + 1, d, IsRegexSpace);
    RunEndIs(line, d, t, IsLineChar);
  }

  /** Every match comes from a line laid out as the regex describes. */
  lemma MatchEntryLineSound(line: string) returns (p: nat, q: nat, e: nat, d: nat, t: nat)
    requires MatchEntryLine(line).Some?
    ensures EntryMatchAt(line, p, q, e, d, t)
    ensures MatchEntryLine(line) == Some((line[p..q], line[d..t]))
  {
    p := RunEnd(line, 0, IsRegexSpace);
    q := RunEnd(line, p, IsWordChar);
    e := RunEnd(line, q, IsRegexSpace);
    d := RunEnd(line, e + 1, IsRegexSpace);
    t := RunEnd(line, d, IsLineChar);
  }

  /** A line that is neither skipped nor an entry: it makes the file corrupt. */
  predicate IsBadLine(line: string) {
    !IsSkipped(line) && MatchEntryLine(line).None?
  }

  /** What getCurrentTnsEntryList leaves behind: the list it returns and the corrupt flag. */
  datatype TnsNamesContent = TnsNamesContent(entries: seq<TnsEntry>, corrupt: bool)

  function Prepend(es: seq<TnsEntry>, c: TnsNamesContent): TnsNamesContent {
    TnsNamesContent(es + c.entries, c.corrupt)
  }

  lemma PrependTwice(a: seq<TnsEntry>, b: seq<TnsEntry>, c: TnsNamesContent)
    ensures Prepend(a + b, c) == Prepend(a, Prepend(b, c))
    ensures Prepend([], c) == c
  {
    assert a + b + c.entries == a + (b + c.entries);
    assert [] + c.entries == c.entries;
  }

  /** How getCurrentTnsEntryList treats one line. */
  datatype LineKind = Skipped | EntryLine(entry: TnsEntry) | BadLine

  function Classify(line: string): LineKind {
    if IsSkipped(line) then Skipped
    else
      match MatchEntryLine(line)
      case Some(g) => EntryLine(NewTnsEntry(g.0, g.1))
      case None => BadLine
  }

  function Kinds(lines: seq<string>): (r: seq<LineKind>)
    ensures |r| == |lines|
    ensures forall i :: 0 <= i < |lines| ==> r[i] == Classify(lines[i])
  {
    seq(|lines|, i requires 0 <= i < |lines| => Classify(lines[i]))
  }

  /**
   * The entries read from the lines up to the first bad one; a bad line
   * stops the reading and marks the file corrupt.
   */
  function ParseKinds(kinds: seq<LineKind>): TnsNamesContent {
    if kinds == [] then TnsNamesContent([], false)
    else
      match kinds[0]
      case Skipped => ParseKinds(kinds[1..])
      case EntryLine(e) => Prepend([e], ParseKinds(kinds[1..]))
      case BadLine => TnsNamesContent([], true)
  }

  function ParseTnsNames(lines: seq<string>): TnsNamesContent {
    ParseKinds(Kinds(lines))
  }

  /** The outcome of getCurrentTnsEntryList on the tnsnames.ora file. */
  function ReadTnsNames(f: FileState): Result<TnsNamesContent, AppError> {
    match f
    case NotOpenable => Ok(TnsNamesContent([], false))
    case ReadFails => Err(CannotReadTnsNames)
    case Readable(text) => Ok(ParseTnsNames(ReadLines(text)))
  }

  lemma {:induction false} ParseKindsConcat(a: seq<LineKind>, b: seq<LineKind>)
    ensures ParseKinds(a + b) ==
      if ParseKinds(a).corrupt then ParseKinds(a)
      else Prepend(ParseKinds(a).entries, ParseKinds(b))
  {
    if a == [] {
      assert a + b == b;
    } else {
      assert (a + b)[0] == a[0] && (a + b)[1..] == a[1..] + b;
      ParseKindsConcat(a[1..], b);
      if a[0].EntryLine? {
        var e := a[0].entry;
        assert [e] + ParseKinds(a[1..]).entries + ParseKinds(b).entries
          == [e] + (ParseKinds(a[1..]).entries + ParseKinds(b).entries);
      }
    }
  }

  lemma KindsConcat(a: seq<string>, b: seq<string>)
    ensures Kinds(a + b) == Kinds(a) + Kinds(b)
  {
    forall i | 0 <= i < |a + b| ensures Kinds(a + b)[i] == (Kinds(a) + Kinds(b))[i] {
      if i < |a| {
        assert (a + b)[i] == a[i];
      } else {
        assert (a + b)[i] == b[i - |a|];
      }
    }
  }

  /** Reading stops at the first bad line: what follows a corrupt part is never read. */
  lemma ParseTnsNamesConcat(a: seq<string>, b: seq<string>)
    ensures ParseTnsNames(a + b) ==
      if ParseTnsNames(a).corrupt then ParseTnsNames(a)
      else Prepend(ParseTnsNames(a).entries, ParseTnsNames(b))
  {
    KindsConcat(a, b);
    ParseKindsConcat(Kinds(a), Kinds(b));
  }

  /** How reading treats the first of the lines. */
  lemma ParseTnsNamesCons(lines: seq<string>)
    requires lines != []
    ensures ParseTnsNames(lines) ==
      match Classify(lines[0])
      case Skipped => ParseTnsNames(lines[1..])
      case EntryLine(e) => Prepend([e], ParseTnsNames(lines[1..]))
      case BadLine => TnsNamesContent([], true)
  {
    assert Kinds(lines)[1..] == Kinds(lines[1..]);
  }

  lemma {:induction false} ParseKindsCorruptIff(kinds: seq<LineKind>)
    ensures ParseKinds(kinds).corrupt <==> BadLine in kinds
  {
    if kinds != [] {
      ParseKindsCorruptIff(kinds[1..]);
      assert kinds == [kinds[0]] + kinds[1..];
    }
  }

  /** The file is found corrupt exactly when one of its lines is bad. */
  lemma ParseTnsNamesCorruptIff(lines: seq<string>)
    ensures ParseTnsNames(lines).corrupt <==> exists i :: 0 <= i < |lines| && IsBadLine(lines[i])
  {
    var kinds := Kinds(lines);
    ParseKindsCorruptIff(kinds);
    if BadLine in kinds {
      var i :| 0 <= i < |kinds| && kinds[i] == BadLine;
      assert IsBadLine(lines[i]);
    }
    if exists i :: 0 <= i < |lines| && IsBadLine(lines[i]) {
      var i :| 0 <= i < |lines| && IsBadLine(lines[i]);
      assert kinds[i] == BadLine;
    }
  }

  // ---------------------------------------------------------------------
  // The build file: writeNetServiceDataToBuildFile
  // ---------------------------------------------------------------------

  /**
   * TNSNAMES_FILE_HEAD_MESSAGE (two lines), the "#Modified:" line and the
   * blank line that open every generated tnsnames.ora.
   */
  function Header(syncFileName: string, timestamp: string): seq<string> {
    [ "#This is an automatically generated file, " + "please do not modify it!",
      "#Edit " + syncFileName + " file instead of this!",
      "#Modified: " + timestamp,
      "" ]
  }

  function EntryLines(es: seq<TnsEntry>): (r: seq<string>)
    ensures |r| == |es|
    ensures forall i :: 0 <= i < |es| ==> r[i] == TnsNamesEntryFormat(es[i])
  {
    seq(|es|, i requires 0 <= i < |es| => TnsNamesEntryFormat(es[i]))
  }

  /** The text of the build file: the header, then one line per entry. */
  function BuildFileText(syncFileName: string, timestamp: string, es: seq<TnsEntry>): string {
    Unlines(Header(syncFileName, timestamp) + EntryLines(es))
  }

  /**
   * An entry the regex reads back as written: its name is a run of \w and
   * its description holds no line terminator.
   */
  predicate ReadableEntry(e: TnsEntry) {
    e.netServiceName != [] && AllWordChars(e.netServiceName)
    && NoLineTerminator(e.netDescriptionString)
  }

  /** A line that starts with a character other than a space or '#' is not skipped. */
  lemma NotSkipped(line: string)
    requires line != [] && !IsTrimSpace(line[0]) && line[0] != '#'
    ensures !IsSkipped(line)
  {
    assert TrimStart(line) == line;
    var r := TrimEnd(line);
    assert |line[|r|..]| > 0 ==> IsTrimSpace(line[|r|..][0]);
  }

  /** A line that starts with '#' is skipped. */
  lemma CommentSkipped(line: string)
    requires line != [] && line[0] == '#'
    ensures IsSkipped(line)
  {
    assert TrimStart(line) == line;
    var r := TrimEnd(line);
    assert |line[|r|..]| > 0 ==> IsTrimSpace(line[|r|..][0]);
  }

  /** The line written for an entry is read back as that entry. */
  lemma EntryLineReadsBack(e: TnsEntry)
    requires ReadableEntry(e)
    ensures Classify(TnsNamesEntryFormat(e)) == EntryLine(e)
  {
    EntryTextMatches(e.netServiceName, e.netDescriptionString);
    NewTnsEntryOfGetters(e);
  }

  /** name + " = " + desc is not skipped and the regex splits it into name and desc. */
  lemma EntryTextMatches(name: string, desc: string)
    requires name != [] && AllWordChars(name)
    requires NoLineTerminator(desc) && IsTrimmed(desc)
    ensures !IsSkipped(name + " = " + desc)
    ensures MatchEntryLine(name + " = " + desc) == Some((name, desc))
  {
    var line, n := name + " = " + desc, |name|;
    assert IsWordChar(name[0]) && line[0] == name[0];
    NotSkipped(line);
    EntryLineLayout(name, desc);
    MatchEntryLineComplete(line, 0, n, n + 1, n + 3, |line|);
    assert line[0..n] == name && line[n + 3..|line|] == desc;
  }

  /** Where the regex finds the parts of an entry line name + " = " + desc. */
  lemma EntryLineLayout(name: string, desc: string)
    requires name != [] && AllWordChars(name)
    requires NoLineTerminator(desc) && (desc == [] || !IsTrimSpace(desc[0]))
    ensures EntryMatchAt(name + " = " + desc, 0, |name|, |name| + 1, |name| + 3, |name + " = " + desc|)
  {
    var line, n := name + " = " + desc, |name|;
    assert AllIn(line, 0, 0, IsRegexSpace);
    assert AllIn(line, 0, n, IsWordChar) by {
      forall k | 0 <= k < n ensures IsWordChar(line[k]) {
        assert line[k] == name[k];
      }
    }
    assert AllIn(line, n, n + 1, IsRegexSpace) by {
      assert line[n] == ' ';
    }
    assert line[n + 1] == '=';
    assert AllIn(line, n + 2, n + 3, IsRegexSpace) by {
      assert line[n + 2] == ' ';
    }
    assert n + 3 < |line| ==> !IsRegexSpace(line[n + 3]) by {
      assert n + 3 < |line| ==> line[n + 3] == desc[0];
    }
    assert AllIn(line, n + 3, |line|, IsLineChar) by {
      forall k | n + 3 <= k < |line| ensures IsLineChar(line[k]) {
        assert line[k] == desc[k - n - 3];
      }
    }
  }

  lemma {:induction false} EntryKindsReadBack(es: seq<TnsEntry>, kinds: seq<LineKind>)
    requires |kinds| == |es| && forall i :: 0 <= i < |es| ==> kinds[i] == EntryLine(es[i])
    ensures ParseKinds(kinds) == TnsNamesContent(es, false)
  {
    if es != [] {
      EntryKindsReadBack(es[1..], kinds[1..]);
      assert [es[0]] + es[1..] == es;
    }
  }

  lemma {:induction false} NoLineBreakConcat(a: string, b: string)
    requires NoLineBreak(a) && NoLineBreak(b)
    ensures NoLineBreak(a + b)
  {
    forall k | 0 <= k < |a + b| ensures !IsLineBreak((a + b)[k]) {
      if k >= |a| {
        assert (a + b)[k] == b[k - |a|];
      }
    }
  }

  /** No header line holds a line break of its own. */
  lemma HeaderHasNoBreak(syncFileName: string, timestamp: string)
    requires NoLineBreak(syncFileName) && NoLineBreak(timestamp)
    ensures forall i :: 0 <= i < 4 ==> NoLineBreak(Header(syncFileName, timestamp)[i])
  {
    assert NoLineBreak("#This is an automatically generated file, ");
    assert NoLineBreak("please do not modify it!");
    NoLineBreakConcat("#This is an automatically generated file, ", "please do not modify it!");
    assert NoLineBreak("#Edit ") && NoLineBreak(" file instead of this!");
    NoLineBreakConcat("#Edit ", syncFileName);
    NoLineBreakConcat("#Edit " + syncFileName, " file instead of this!");
    assert NoLineBreak("#Modified: ");
    NoLineBreakConcat("#Modified: ", timestamp);
  }

  /** Every header line is a comment or blank, so reading skips it. */
  lemma HeaderSkipped(syncFileName: string, timestamp: string)
    ensures forall i :: 0 <= i < 4 ==> IsSkipped(Header(syncFileName, timestamp)[i])
  {
    var h := Header(syncFileName, timestamp);
    assert h[0][0] == '#' && h[1][0] == '#' && h[2][0] == '#';
    CommentSkipped(h[0]);
    CommentSkipped(h[1]);
    CommentSkipped(h[2]);
    assert Trim(h[3]) == [];
  }

  /** Lines that are all comments or blank read as no entries, not corrupt. */
  lemma {:induction false} SkippedLinesParse(lines: seq<string>)
    requires forall i :: 0 <= i < |lines| ==> IsSkipped(lines[i])
    ensures ParseTnsNames(lines) == TnsNamesContent([], false)
  {
    if lines != [] {
      ParseTnsNamesCons(lines);
      SkippedLinesParse(lines[1..]);
    }
  }

  /**
   * A generated tnsnames.ora reads back as the entries written to it, not
   * corrupt, when every entry is a ReadableEntry and the sync file name and
   * the timestamp hold no line break.
   */
  lemma BuildFileReadsBack(syncFileName: string, timestamp: string, es: seq<TnsEntry>)
    requires NoLineBreak(syncFileName) && NoLineBreak(timestamp)
    requires forall i :: 0 <= i < |es| ==> ReadableEntry(es[i])
    ensures ReadTnsNames(Readable(BuildFileText(syncFileName, timestamp, es))) == Ok(TnsNamesContent(es, false))
  {
    HeaderHasNoBreak(syncFileName, timestamp);
    HeaderSkipped(syncFileName, timestamp);
    LinesReadBack(Header(syncFileName, timestamp), es);
  }

  /** Skipped lines followed by the lines of readable entries read back as those entries. */
  lemma LinesReadBack(header: seq<string>, es: seq<TnsEntry>)
    requires forall i :: 0 <= i < |header| ==> NoLineBreak(header[i]) && IsSkipped(header[i])
    requires forall i :: 0 <= i < |es| ==> ReadableEntry(es[i])
    ensures ReadTnsNames(Readable(Unlines(header + EntryLines(es)))) == Ok(TnsNamesContent(es, false))
  {
    var lines := header + EntryLines(es);
    forall i | 0 <= i < |lines| ensures NoLineBreak(lines[i]) {
      if i >= |header| {
        EntryLineHasNoBreak(es[i - |header|]);
      }
    }
    ReadLinesOfUnlines(lines);
    LinesParse(header, es);
  }

  /** Skipped lines followed by the lines of readable entries parse as those entries. */
  lemma LinesParse(header: seq<string>, es: seq<TnsEntry>)
    requires forall i :: 0 <= i < |header| ==> IsSkipped(header[i])
    requires forall i :: 0 <= i < |es| ==> ReadableEntry(es[i])
    ensures ParseTnsNames(header + EntryLines(es)) == TnsNamesContent(es, false)
  {
    var body := EntryLines(es);
    SkippedLinesParse(header);
    forall i | 0 <= i < |es| ensures Kinds(body)[i] == EntryLine(es[i]) {
      EntryLineReadsBack(es[i]);
    }
    EntryKindsReadBack(es, Kinds(body));
    ParseTnsNamesConcat(header, body);
    PrependTwice([], [], ParseTnsNames(body));
  }

  lemma EntryLineHasNoBreak(e: TnsEntry)
    requires ReadableEntry(e)
    ensures NoLineBreak(TnsNamesEntryFormat(e))
  {
    var name, desc := e.netServiceName, e.netDescriptionString;
    var line := TnsNamesEntryFormat(e);
    forall j | 0 <= j < |line| ensures !IsLineBreak(line[j]) {
      if j < |name| {
        assert line[j] == name[j] && IsWordChar(name[j]);
      } else if j >= |name| + 3 {
        assert line[j] == desc[j - |name| - 3];
      }
    }
  }

  /**
   * A name whose leading run of \w stops at m, at a character that is
   * neither \w, \s nor '=' (the dot of DB.WORLD, say).
   */
  predicate StrayNameCharAt(name: string, m: nat) {
    && 0 < m < |name| && AllWordChars(name[..m])
    && !IsWordChar(name[m]) && !IsRegexSpace(name[m]) && name[m] != '='
  }

  /**
   * The line written for such a name is neither skipped nor matched by the
   * regex: reading it marks the file corrupt.
   */
  lemma StrayNameCharLineIsBad(name: string, desc: string, m: nat)
    requires StrayNameCharAt(name, m)
    ensures Classify(name + " = " + desc) == BadLine
  {
    var line := name + " = " + desc;
    assert IsWordChar(name[..m][0]) && line[0] == name[0];
    NotSkipped(line);
    assert AllIn(line, 0, m, IsWordChar) by {
      forall k | 0 <= k < m ensures IsWordChar(line[k]) {
        assert line[k] == name[..m][k];
      }
    }
    assert line[m] == name[m];
    RunEndIs(line, 0, 0, IsRegexSpace);
    RunEndIs(line, 0, m, IsWordChar);
    RunEndIs(line, m, m, IsRegexSpace);
  }

  /**
   * DB.WORLD has a stray character after DB, so its tnsnames.ora line is a
   * bad line.
   */
  lemma DottedNameLineIsBad(desc: string)
    ensures StrayNameCharAt("DB.WORLD", 2)
    ensures Classify("DB.WORLD" + " = " + desc) == BadLine
  {
    assert "DB.WORLD"[..2] == "DB";
    assert AllWordChars("DB");
    StrayNameCharLineIsBad("DB.WORLD", desc, 2);
  }

  /** Reading text that starts with lines println wrote reads those lines first. */
  lemma {:induction false} ReadLinesOfUnlinesThen(lines: seq<string>, rest: string)
    requires forall i :: 0 <= i < |lines| ==> NoLineBreak(lines[i])
    ensures ReadLines(Unlines(lines) + rest) == lines + ReadLines(rest)
  {
    if lines == [] {
      assert Unlines(lines) + rest == rest;
    } else {
      var line, tail := lines[0], Unlines(lines[1..]) + rest;
      calc {
        ReadLines(Unlines(lines) + rest);
        { assert Unlines(lines) + rest == line + "\n" + tail; }
        ReadLines(line + "\n" + tail);
        { ReadLinesCons(line, tail); }
        [line] + ReadLines(tail);
        { ReadLinesOfUnlinesThen(lines[1..], rest); }
        [line] + (lines[1..] + ReadLines(rest));
        { assert lines == [line] + lines[1..]; }
        lines + ReadLines(rest);
      }
    }
  }

  /** Readable entries followed by a bad line parse as those entries, marked corrupt. */
  lemma LinesThenBadParse(header: seq<string>, es: seq<TnsEntry>, bad: string)
    requires forall i :: 0 <= i < |header| ==> IsSkipped(header[i])
    requires forall i :: 0 <= i < |es| ==> ReadableEntry(es[i])
    requires Classify(bad) == BadLine
    ensures ParseTnsNames(header + EntryLines(es) + [bad]) == TnsNamesContent(es, true)
  {
    ParseTnsNamesConcat(header + EntryLines(es), [bad]);
    LinesParse(header, es);
    ParseTnsNamesCons([bad]);
    assert es + [] == es;
  }

  lemma EntryLinesAround(es: seq<TnsEntry>, k: nat)
    requires k < |es|
    ensures EntryLines(es) == EntryLines(es[..k]) + [TnsNamesEntryFormat(es[k])] + EntryLines(es[k + 1..])
  {
  }

  /** The lines read back from a generated file, up to and including its k-th entry. */
  lemma BuildFileLinesUpTo(syncFileName: string, timestamp: string, es: seq<TnsEntry>, k: nat)
    requires NoLineBreak(syncFileName) && NoLineBreak(timestamp)
    requires k < |es| && forall i :: 0 <= i < k ==> ReadableEntry(es[i])
    requires NoLineBreak(TnsNamesEntryFormat(es[k]))
    ensures ReadLines(BuildFileText(syncFileName, timestamp, es)) ==
      Header(syncFileName, timestamp) + EntryLines(es[..k]) + [TnsNamesEntryFormat(es[k])]
        + ReadLines(Unlines(EntryLines(es[k + 1..])))
  {
    var header := Header(syncFileName, timestamp);
    var front := header + EntryLines(es[..k]) + [TnsNamesEntryFormat(es[k])];
    var back := EntryLines(es[k + 1..]);
    EntryLinesAround(es, k);
    assert header + EntryLines(es) == front + back;
    FrontHasNoBreak(syncFileName, timestamp, es, k);
    UnlinesConcat(front, back);
    ReadLinesOfUnlinesThen(front, Unlines(back));
  }

  lemma FrontHasNoBreak(syncFileName: string, timestamp: string, es: seq<TnsEntry>, k: nat)
    requires NoLineBreak(syncFileName) && NoLineBreak(timestamp)
    requires k < |es| && forall i :: 0 <= i < k ==> ReadableEntry(es[i])
    requires NoLineBreak(TnsNamesEntryFormat(es[k]))
    ensures var front := Header(syncFileName, timestamp) + EntryLines(es[..k]) + [TnsNamesEntryFormat(es[k])];
      forall i :: 0 <= i < |front| ==> NoLineBreak(front[i])
  {
    var header := Header(syncFileName, timestamp);
    var front := header + EntryLines(es[..k]) + [TnsNamesEntryFormat(es[k])];
    HeaderHasNoBreak(syncFileName, timestamp);
    forall i | 0 <= i < |front| ensures NoLineBreak(front[i]) {
      if |header| <= i < |front| - 1 {
        EntryLineHasNoBreak(es[..k][i - |header|]);
      }
    }
  }

  /**
   * A generated tnsnames.ora whose k-th entry has a stray character in its
   * name reads back corrupt, with only the entries before it.
   */
  lemma StrayNameCharFileIsCorrupt(syncFileName: string, timestamp: string, es: seq<TnsEntry>, k: nat, m: nat)
    requires NoLineBreak(syncFileName) && NoLineBreak(timestamp)
    requires k < |es| && forall i :: 0 <= i < k ==> ReadableEntry(es[i])
    requires StrayNameCharAt(es[k].netServiceName, m) && NoLineBreak(TnsNamesEntryFormat(es[k]))
    ensures ReadTnsNames(Readable(BuildFileText(syncFileName, timestamp, es))) == Ok(TnsNamesContent(es[..k], true))
  {
    var front := Header(syncFileName, timestamp) + EntryLines(es[..k]) + [TnsNamesEntryFormat(es[k])];
    var rest := ReadLines(Unlines(EntryLines(es[k + 1..])));
    BuildFileLinesUpTo(syncFileName, timestamp, es, k);
    HeaderSkipped(syncFileName, timestamp);
    StrayNameCharLineIsBad(es[k].netServiceName, es[k].netDescriptionString, m);
    LinesThenBadParse(Header(syncFileName, timestamp), es[..k], TnsNamesEntryFormat(es[k]));
    ParseTnsNamesConcat(front, rest);
  }

  // ---------------------------------------------------------------------
  // The handler
  // ---------------------------------------------------------------------

  class AppFileHandler {
    /** APP_TNSSYNC_FILENAME, the name of the sync file. */
    const syncFileName: string
    /** The sync file, tnsnames.ora and tnsnames.tmpbuild.ora of the TNS_ADMIN directory. */
    var tnsSyncFile: FileState
    var tnsNamesFile: FileState
    var buildFile: FileState
    var currentTnsNamesCorrupt: bool

    constructor (syncFileName: string, tnsSyncFile: FileState, tnsNamesFile: FileState, buildFile: FileState)
      ensures this.syncFileName == syncFileName
      ensures this.tnsSyncFile == tnsSyncFile && this.tnsNamesFile == tnsNamesFile && this.buildFile == buildFile
      ensures !currentTnsNamesCorrupt
    {
      this.syncFileName := syncFileName;
      this.tnsSyncFile := tnsSyncFile;
      this.tnsNamesFile := tnsNamesFile;
      this.buildFile := buildFile;
      currentTnsNamesCorrupt := false;
    }

    /** The distinct words of the sync file, in no particular order. */
    method GetTnsSyncList() returns (r: Result<seq<string>, AppError>)
      ensures SyncList(tnsSyncFile).Err? ==> r == Err(SyncList(tnsSyncFile).error)
      ensures SyncList(tnsSyncFile).Ok? ==> r.Ok? && ListsSet(r.value, SyncList(tnsSyncFile).value)
    {
      var text: string;
      match tnsSyncFile {
        case NotOpenable => return Err(TnsSyncFileMissing);
        case ReadFails => text := [];
        case Readable(t) => text := t;
      }
      var hs: set<string> := {};
      var i := 0;
      assert SyncList(tnsSyncFile) == SyncWords(text, 0);
      AddWordsUnion({}, {}, SyncWords(text, 0));
      while RunEnd(text, i, IsJavaWhitespace) < |text|
        invariant i <= |text|
        invariant SyncList(tnsSyncFile) == AddWords(hs, SyncWords(text, i))
        decreases |text| - i
      {
        var p := RunEnd(text, i, IsJavaWhitespace);
        var e := RunEnd(text, p, IsTokenChar);
        var word := Word(text[p..e]);
        AddWordsUnion(hs, {word}, SyncWords(text, e));
        if StartsWithHash(word) {
          if e == |text| {
            return Err(NoLineFound);
          }
          i := NextLineEnd(text, e);
        } else {
          hs := hs + {word};
          i := e;
        }
      }
      var list := SetToList(hs);
      return Ok(list);
    }

    /** The entries of the current tnsnames.ora; sets the corrupt flag. */
    method GetCurrentTnsEntryList() returns (r: Result<seq<TnsEntry>, AppError>)
      modifies this`currentTnsNamesCorrupt
      ensures ReadTnsNames(tnsNamesFile).Ok? ==>
        r == Ok(ReadTnsNames(tnsNamesFile).value.entries)
        && currentTnsNamesCorrupt == ReadTnsNames(tnsNamesFile).value.corrupt
      ensures ReadTnsNames(tnsNamesFile).Err? ==>
        r == Err(ReadTnsNames(tnsNamesFile).error) && !currentTnsNamesCorrupt
    {
      currentTnsNamesCorrupt := false;
      var result: seq<TnsEntry> := [];
      var lines: seq<string>;
      match tnsNamesFile {
        case NotOpenable => return Ok(result);
        case ReadFails => return Err(CannotReadTnsNames);
        case Readable(text) => lines := ReadLines(text);
      }
      var i := 0;
      while i < |lines|
        invariant 0 <= i <= |lines| && !currentTnsNamesCorrupt
        invariant ParseTnsNames(lines) == Prepend(result, ParseTnsNames(lines[i..]))
      {
        var line := lines[i];
        ParseTnsNamesCons(lines[i..]);
        assert lines[i..][1..] == lines[i + 1..];
        ghost var after := ParseTnsNames(lines[i + 1..]);
        i := i + 1;
        if IsSkipped(line) {
          continue;
        }
        match MatchEntryLine(line) {
          case Some(g) =>
            var entry := NewTnsEntry(g.0, g.1);
            PrependTwice(result, [entry], after);
            result := result + [entry];
            continue;
          case None =>
        }
        currentTnsNamesCorrupt := true;
        PrependTwice(result, [], TnsNamesContent([], true));
        assert ParseTnsNames(lines) == TnsNamesContent(result, true);
        break;
      }
      if !currentTnsNamesCorrupt {
        assert lines[i..] == [] && Kinds([]) == [];
        PrependTwice(result, [], TnsNamesContent([], false));
      }
      assert ParseTnsNames(lines) == TnsNamesContent(result, currentTnsNamesCorrupt);
      return Ok(result);
    }

    method IsCurrentTnsNamesCorrupt() returns (b: bool)
      ensures b == currentTnsNamesCorrupt
    {
      return currentTnsNamesCorrupt;
    }

    /** Writes the header and one line per entry to the build file, when it can be created. */
    method WriteNetServiceDataToBuildFile(tnsNames: seq<TnsEntry>, timestamp: string, canCreate: bool)
      returns (r: Result<(), AppError>)
      modifies this`buildFile
      ensures canCreate ==> r == Ok(()) && buildFile == Readable(BuildFileText(syncFileName, timestamp, tnsNames))
      ensures !canCreate ==> r == Err(CannotWriteBuildFile) && buildFile == old(buildFile)
    {
      if !canCreate {
        return Err(CannotWriteBuildFile);
      }
      ghost var written := Header(syncFileName, timestamp);
      var text := Unlines(Header(syncFileName, timestamp));
      for i := 0 to |tnsNames|
        invariant written == Header(syncFileName, timestamp) + EntryLines(tnsNames[..i])
        invariant text == Unlines(written)
      {
        var line := TnsNamesEntryFormat(tnsNames[i]);
        UnlinesConcat(written, [line]);
        assert Unlines([line]) == line + "\n";
        assert EntryLines(tnsNames[..i + 1]) == EntryLines(tnsNames[..i]) + [line];
        written := written + [line];
        text := text + line + "\n";
      }
      assert tnsNames[..|tnsNames|] == tnsNames;
      buildFile := Readable(text);
      return Ok(());
    }

    /** Files.move(build file, tnsnames.ora, REPLACE_EXISTING). */
    method MoveBuildFileToFinal(canMove: bool) returns (r: Result<(), AppError>)
      modifies this`buildFile, this`tnsNamesFile
      ensures canMove && old(buildFile) != NotOpenable ==>
        r == Ok(()) && tnsNamesFile == old(buildFile) && buildFile == NotOpenable
      ensures !(canMove && old(buildFile) != NotOpenable) ==>
        r == Err(CannotMoveBuildFile) && tnsNamesFile == old(tnsNamesFile) && buildFile == old(buildFile)
    {
      if !canMove || buildFile == NotOpenable {
        return Err(CannotMoveBuildFile);
      }
      tnsNamesFile := buildFile;
      buildFile := NotOpenable;
      return Ok(());
    }
  }
}
