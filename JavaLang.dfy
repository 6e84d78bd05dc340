// The parts of java.lang.String (and of java.util.regex's \s and \w classes)
// that tnssync relies on: trim, toUpperCase (on ASCII letters), compareTo,
// hashCode and split on a single-character separator.

module Wrappers {

  datatype Option<+T> = None | Some(value: T)

  datatype Result<+R, +E> = Ok(value: R) | Err(error: E)
}

module JavaLang {

  // ---------------------------------------------------------------------
  // Character classes
  // ---------------------------------------------------------------------

  /** The characters String.trim() removes: every code point up to U+0020. */
  predicate IsTrimSpace(c: char) {
    c <= ' '
  }

  /** The regex class \s: [ \t\n\x0B\f\r]. */
  predicate IsRegexSpace(c: char) {
    c == ' ' || '\t' <= c <= '\r'
  }

  /**
   * Character.isWhitespace, whose runs are the default delimiter of
   * java.util.Scanner: the space, line and paragraph separators other than
   * the no-break spaces, and the controls U+0009..U+000D and U+001C..U+001F.
   */
  predicate IsJavaWhitespace(c: char) {
    c == ' ' || '\t' <= c <= '\r' || 0x1C <= c as int <= 0x1F
    || c as int == 0x1680 || 0x2000 <= c as int <= 0x2006 || 0x2008 <= c as int <= 0x200A
    || c as int == 0x2028 || c as int == 0x2029 || c as int == 0x205F || c as int == 0x3000
  }

  /** The regex class \w: [a-zA-Z_0-9]. */
  predicate IsWordChar(c: char) {
    'a' <= c <= 'z' || 'A' <= c <= 'Z' || '0' <= c <= '9' || c == '_'
  }

  /** The characters that end a line for BufferedReader.readLine. */
  predicate IsLineBreak(c: char) {
    c == '\n' || c == '\r'
  }

  predicate AllTrimSpace(s: string) {
    forall i :: 0 <= i < |s| ==> IsTrimSpace(s[i])
  }

  predicate AllRegexSpace(s: string) {
    forall i :: 0 <= i < |s| ==> IsRegexSpace(s[i])
  }

  predicate AllWordChars(s: string) {
    forall i :: 0 <= i < |s| ==> IsWordChar(s[i])
  }

  predicate NoLineBreak(s: string) {
    forall i :: 0 <= i < |s| ==> !IsLineBreak(s[i])
  }

  // ---------------------------------------------------------------------
  // toUpperCase
  // ---------------------------------------------------------------------

  function UpperChar(c: char): char {
    if 'a' <= c <= 'z' then (c as int - 32) as char else c
  }

  /** String.toUpperCase, on ASCII letters only. */
  function ToUpper(s: string): (r: string)
    ensures |r| == |s|
    ensures forall i :: 0 <= i < |s| ==> r[i] == UpperChar(s[i])
  {
    seq(|s|, i requires 0 <= i < |s| => UpperChar(s[i]))
  }

  /** No lower-case ASCII letter. */
  predicate IsUpper(s: string) {
    forall i :: 0 <= i < |s| ==> !('a' <= s[i] <= 'z')
  }

  lemma {:induction false} ToUpperIsUpper(s: string)
    ensures IsUpper(ToUpper(s))
    ensures IsUpper(s) <==> ToUpper(s) == s
  {
    if IsUpper(s) {
      assert ToUpper(s) == s;
    }
  }

  lemma {:induction false} ToUpperIdempotent(s: string)
    ensures ToUpper(ToUpper(s)) == ToUpper(s)
  {
  }

  lemma {:induction false} ToUpperConcat(a: string, b: string)
    ensures ToUpper(a + b) == ToUpper(a) + ToUpper(b)
  {
  }

  // ---------------------------------------------------------------------
  // trim
  // ---------------------------------------------------------------------

  function TrimStart(s: string): (r: string)
    ensures |r| <= |s| && r == s[|s| - |r|..]
    ensures AllTrimSpace(s[..|s| - |r|])
    ensures r == [] || !IsTrimSpace(r[0])
  {
    if s != [] && IsTrimSpace(s[0]) then TrimStart(s[1..]) else s
  }

  function TrimEnd(s: string): (r: string)
    ensures |r| <= |s| && r == s[..|r|]
    ensures AllTrimSpace(s[|r|..])
    ensures r == [] || !IsTrimSpace(r[|r| - 1])
  {
    if s != [] && IsTrimSpace(s[|s| - 1]) then TrimEnd(s[..|s| - 1]) else s
  }

  /** String.trim: drops every leading and trailing character up to U+0020. */
  function Trim(s: string): (r: string)
    ensures r == [] || (!IsTrimSpace(r[0]) && !IsTrimSpace(r[|r| - 1]))
  {
    TrimEnd(TrimStart(s))
  }

  predicate IsTrimmed(s: string) {
    s == [] || (!IsTrimSpace(s[0]) && !IsTrimSpace(s[|s| - 1]))
  }

  lemma {:induction false} TrimStartOfPadded(p: string, s: string)
    requires AllTrimSpace(p)
    requires s == [] || !IsTrimSpace(s[0])
    ensures TrimStart(p + s) == s
  {
    if p != [] {
      assert (p + s)[1..] == p[1..] + s;
      TrimStartOfPadded(p[1..], s);
    }
  }

  lemma {:induction false} TrimEndOfPadded(s: string, q: string)
    requires AllTrimSpace(q)
    requires s == [] || !IsTrimSpace(s[|s| - 1])
    ensures TrimEnd(s + q) == s
  {
    if q != [] {
      assert (s + q)[..|s + q| - 1] == s + q[..|q| - 1];
      TrimEndOfPadded(s, q[..|q| - 1]);
    }
  }

  /** A trimmed string surrounded by trimmable characters trims back to itself. */
  lemma {:induction false} TrimOfPadded(p: string, s: string, q: string)
    requires AllTrimSpace(p) && AllTrimSpace(q)
    requires IsTrimmed(s)
    ensures Trim(p + s + q) == s
  {
    if s == [] {
      assert p + s + q == p + q;
      TrimStartOfPadded(p + q, []);
      assert p + q + [] == p + q;
    } else {
      assert p + s + q == p + (s + q);
      TrimStartOfPadded(p, s + q);
      TrimEndOfPadded(s, q);
    }
  }

  lemma {:induction false} TrimOfSpaceSuffix(s: string)
    requires IsTrimmed(s)
    ensures Trim(s + " ") == s
  {
    TrimOfPadded([], s, " ");
    assert [] + s + " " == s + " ";
  }

  lemma {:induction false} TrimOfSpacePrefix(s: string)
    requires IsTrimmed(s)
    ensures Trim(" " + s) == s
  {
    TrimOfPadded(" ", s, []);
    assert " " + s + [] == " " + s;
  }

  lemma {:induction false} TrimOfTrimmed(s: string)
    requires IsTrimmed(s)
    ensures Trim(s) == s
  {
    TrimOfPadded([], s, []);
    assert [] + s + [] == s;
  }

  /** Trim(s) is the slice s[i..j] left when a trimmable prefix and a trimmable suffix are cut off. */
  lemma {:induction false} TrimSplit(s: string) returns (i: nat, j: nat)
    ensures i <= j <= |s| && Trim(s) == s[i..j]
    ensures AllTrimSpace(s[..i]) && AllTrimSpace(s[j..])
  {
    var t := TrimStart(s);
    var r := TrimEnd(t);
    i := |s| - |t|;
    j := i + |r|;
    assert t[|r|..] == s[j..];
  }

  lemma {:induction false} TrimIdempotent(s: string)
    ensures Trim(Trim(s)) == Trim(s)
  {
    TrimOfTrimmed(Trim(s));
  }

  lemma {:induction false} UpperKeepsTrimSpace(c: char)
    ensures IsTrimSpace(UpperChar(c)) <==> IsTrimSpace(c)
  {
  }

  lemma {:induction false} UpperOfTrimSpace(p: string)
    requires AllTrimSpace(p)
    ensures AllTrimSpace(ToUpper(p))
  {
    forall k | 0 <= k < |p| ensures IsTrimSpace(ToUpper(p)[k]) {
      UpperKeepsTrimSpace(p[k]);
    }
  }

  lemma {:induction false} UpperOfTrimmed(t: string)
    requires IsTrimmed(t)
    ensures IsTrimmed(ToUpper(t))
  {
    if t != [] {
      UpperKeepsTrimSpace(t[0]);
      UpperKeepsTrimSpace(t[|t| - 1]);
    }
  }

  /** Upper-casing a string cut in three upper-cases each piece. */
  lemma {:induction false} ToUpperOfSlices(s: string, i: nat, j: nat)
    requires i <= j <= |s|
    ensures ToUpper(s) == ToUpper(s[..i]) + ToUpper(s[i..j]) + ToUpper(s[j..])
  {
    var r := ToUpper(s[..i]) + ToUpper(s[i..j]) + ToUpper(s[j..]);
    assert |r| == |s|;
    forall k | 0 <= k < |s| ensures r[k] == ToUpper(s)[k] {
      if k < i {
        assert r[k] == ToUpper(s[..i])[k];
      } else if k < j {
        assert r[k] == ToUpper(s[i..j])[k - i];
      } else {
        assert r[k] == ToUpper(s[j..])[k - j];
      }
    }
  }

  /** Upper-casing never creates or removes a trimmable character, so it commutes with trim. */
  lemma {:induction false} TrimToUpperCommute(s: string)
    ensures ToUpper(Trim(s)) == Trim(ToUpper(s))
  {
    var i, j := TrimSplit(s);
    ToUpperOfSlices(s, i, j);
    UpperOfTrimSpace(s[..i]);
    UpperOfTrimSpace(s[j..]);
    UpperOfTrimmed(s[i..j]);
    TrimOfPadded(ToUpper(s[..i]), ToUpper(s[i..j]), ToUpper(s[j..]));
  }

  /** The normal form of a name: trimmed, then upper-cased. */
  function Normalise(s: string): string {
    ToUpper(Trim(s))
  }

  predicate IsNormalised(s: string) {
    IsTrimmed(s) && IsUpper(s)
  }

  lemma {:induction false} NormaliseIdempotent(s: string)
    ensures IsNormalised(Normalise(s))
  {
    UpperOfTrimmed(Trim(s));
    ToUpperIsUpper(Trim(s));
  }

  /** The normalised strings are exactly the fixed points of Normalise. */
  lemma {:induction false} NormaliseFixesNormalised(s: string)
    ensures IsNormalised(s) <==> Normalise(s) == s
  {
    if IsNormalised(s) {
      TrimOfTrimmed(s);
      ToUpperIsUpper(s);
    }
    if Normalise(s) == s {
      NormaliseIdempotent(s);
    }
  }

  predicate EqualsIgnoreCase(a: string, b: string) {
    ToUpper(a) == ToUpper(b)
  }

  /** Surrounding whitespace and letter case make no difference to the normal form. */
  lemma {:induction false} NormaliseIgnoresCaseAndPadding(p: string, x: string, q: string, y: string)
    requires AllTrimSpace(p) && AllTrimSpace(q)
    requires EqualsIgnoreCase(x, y)
    ensures Normalise(p + x + q) == Normalise(y)
  {
    calc {
      Trim(p + x + q);
      { TrimOfPaddedSlice(p, x, q); }
      Trim(x);
    }
    calc {
      Normalise(y);
      ToUpper(Trim(y));
      { TrimToUpperCommute(y); }
      Trim(ToUpper(y));
      Trim(ToUpper(x));
      { TrimToUpperCommute(x); }
      ToUpper(Trim(x));
    }
  }

  /** Padding a string with more trimmable characters does not change its trimmed form. */
  lemma {:induction false} TrimOfPaddedSlice(p: string, x: string, q: string)
    requires AllTrimSpace(p) && AllTrimSpace(q)
    ensures Trim(p + x + q) == Trim(x)
  {
    var i, j := TrimSplit(x);
    Regroup(p, x, q, i, j);
    AllTrimSpaceConcat(p, x[..i]);
    AllTrimSpaceConcat(x[j..], q);
    TrimOfPadded(p + x[..i], x[i..j], x[j..] + q);
  }

  lemma {:induction false} Regroup<T>(p: seq<T>, x: seq<T>, q: seq<T>, i: nat, j: nat)
    requires i <= j <= |x|
    ensures p + x + q == (p + x[..i]) + x[i..j] + (x[j..] + q)
  {
    assert x == x[..i] + x[i..j] + x[j..];
  }

  lemma {:induction false} AllTrimSpaceConcat(a: string, b: string)
    requires AllTrimSpace(a) && AllTrimSpace(b)
    ensures AllTrimSpace(a + b)
  {
  }

  // ---------------------------------------------------------------------
  // compareTo
  // ---------------------------------------------------------------------

  /**
   * String.compareTo: the difference of the first pair of characters that
   * differ, or the difference of the lengths when one string is a prefix of
   * the other.
   */
  function CompareStrings(a: string, b: string): int {
    if a == [] || b == [] then |a| - |b|
    else if a[0] != b[0] then a[0] as int - b[0] as int
    else CompareStrings(a[1..], b[1..])
  }

  predicate Less(a: string, b: string) {
    CompareStrings(a, b) < 0
  }

  predicate LessOrEqual(a: string, b: string) {
    CompareStrings(a, b) <= 0
  }

  lemma {:induction false} CompareZeroIff(a: string, b: string)
    ensures CompareStrings(a, b) == 0 <==> a == b
  {
    if a != [] && b != [] && a[0] == b[0] {
      CompareZeroIff(a[1..], b[1..]);
      assert a == [a[0]] + a[1..] && b == [b[0]] + b[1..];
    }
  }

  lemma {:induction false} CompareAntisymmetric(a: string, b: string)
    ensures CompareStrings(b, a) == -CompareStrings(a, b)
  {
    if a != [] && b != [] && a[0] == b[0] {
      CompareAntisymmetric(a[1..], b[1..]);
    }
  }

  lemma {:induction false} LessTransitive(a: string, b: string, c: string)
    requires Less(a, b) && Less(b, c)
    ensures Less(a, c)
  {
    if a != [] && b != [] && c != [] && a[0] == b[0] == c[0] {
      LessTransitive(a[1..], b[1..], c[1..]);
    }
  }

  /** compareTo is a total order: exactly one of a < b, a == b, b < a holds. */
  lemma {:induction false} LessTrichotomy(a: string, b: string)
    ensures Less(a, b) || a == b || Less(b, a)
    ensures !(Less(a, b) && Less(b, a))
    ensures !(Less(a, b) && a == b)
  {
    CompareZeroIff(a, b);
    CompareAntisymmetric(a, b);
  }

  lemma {:induction false} LessOrEqualTransitive(a: string, b: string, c: string)
    requires LessOrEqual(a, b) && LessOrEqual(b, c)
    ensures LessOrEqual(a, c)
    ensures Less(a, b) || Less(b, c) ==> Less(a, c)
  {
    CompareZeroIff(a, b);
    CompareZeroIff(b, c);
    if a != b && b != c {
      LessTransitive(a, b, c);
    }
  }

  // ---------------------------------------------------------------------
  // hashCode
  // ---------------------------------------------------------------------

  /** Two's-complement wrap-around of Java's 32-bit int arithmetic. */
  function Wrap32(x: int): (r: int)
    ensures -0x8000_0000 <= r < 0x8000_0000
    ensures (r - x) % 0x1_0000_0000 == 0
  {
    var m := x % 0x1_0000_0000;
    if m >= 0x8000_0000 then m - 0x1_0000_0000 else m
  }

  predicate IsInt32(x: int) {
    -0x8000_0000 <= x < 0x8000_0000
  }

  /** String.hashCode: h = 31 * h + c over the characters, in 32-bit arithmetic. */
  function StringHash(s: string): (r: int)
    ensures IsInt32(r)
  {
    if s == [] then 0 else Wrap32(31 * StringHash(s[..|s| - 1]) + s[|s| - 1] as int)
  }

  // ---------------------------------------------------------------------
  // split
  // ---------------------------------------------------------------------

  /** The pieces of s between the occurrences of d, empty pieces included. */
  function SplitAll(s: string, d: char): (r: seq<string>)
    ensures |r| >= 1
    ensures forall k :: 0 <= k < |r| ==> d !in r[k]
  {
    if d !in s then [s]
    else
      var k := IndexOf(s, d);
      [s[..k]] + SplitAll(s[k + 1..], d)
  }

  function IndexOf(s: string, d: char): (k: nat)
    requires d in s
    ensures k < |s| && s[k] == d && d !in s[..k]
  {
    if s[0] == d then 0 else 1 + IndexOf(s[1..], d)
  }

  lemma {:induction false} IndexOfIsFirst(s: string, d: char, k: nat)
    requires k < |s| && s[k] == d && d !in s[..k]
    ensures d in s && IndexOf(s, d) == k
  {
    assert s[k] in s;
    if k > 0 {
      assert s[0] in s[..k];
      assert s[1..][..k - 1] == s[..k][1..];
      IndexOfIsFirst(s[1..], d, k - 1);
    }
  }

  function DropTrailingEmpty(r: seq<string>): (t: seq<string>)
    ensures |t| <= |r| && t == r[..|t|]
    ensures t == [] || t[|t| - 1] != []
    ensures forall k :: |t| <= k < |r| ==> r[k] == []
  {
    if r != [] && r[|r| - 1] == [] then DropTrailingEmpty(r[..|r| - 1]) else r
  }

  /** String.split on a one-character regex with limit 0. */
  function Split(s: string, d: char): seq<string> {
    if d !in s then [s] else DropTrailingEmpty(SplitAll(s, d))
  }

  function Join(r: seq<string>, d: char): string {
    if r == [] then []
    else if |r| == 1 then r[0]
    else r[0] + [d] + Join(r[1..], d)
  }

  function DropTrailing(s: string, d: char): (t: string)
    ensures |t| <= |s| && t == s[..|t|]
  {
    if s != [] && s[|s| - 1] == d then DropTrailing(s[..|s| - 1], d) else s
  }

  // ---------------------------------------------------------------------
  // new ArrayList<>().addAll(hashSet)
  // ---------------------------------------------------------------------

  /** l holds every element of s, each exactly once. */
  predicate ListsSet(l: seq<string>, s: set<string>) {
    (forall i, j :: 0 <= i < j < |l| ==> l[i] != l[j]) && (forall x :: x in l ==> x in s) && (forall x :: x in s ==> x in l)
  }

  /** Copies a HashSet into a list, in the set's own, unspecified, iteration order. */
  method SetToList(s: set<string>) returns (l: seq<string>)
    ensures ListsSet(l, s)
  {
    l := [];
    var rest := s;
    while rest != {}
      invariant rest <= s
      invariant forall i, j :: 0 <= i < j < |l| ==> l[i] != l[j]
      invariant forall x :: x in l <==> x in s && x !in rest
      decreases |rest|
    {
      var x :| x in rest;
      l := l + [x];
      rest := rest - {x};
    }
  }
}
