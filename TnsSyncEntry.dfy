// TnsSyncEntry: one line of the sync list, an alias and the net service it names.

module TnsSyncEntries {
  import opened JavaLang

  datatype TnsSyncEntryFields = TnsSyncEntryFields(entryName: string, netServiceName: string)

  /**
   * The values a TnsSyncEntry object can hold: the constructor is the only
   * writer of its private fields and stores both trimmed and upper-case.
   */
  type TnsSyncEntry = e: TnsSyncEntryFields | IsNormalised(e.entryName) && IsNormalised(e.netServiceName)
    witness TnsSyncEntryFields("", "")

  /** The constructor TnsSyncEntry(entryName, netServiceName). */
  function NewTnsSyncEntry(entryName: string, netServiceName: string): TnsSyncEntry {
    NormaliseIdempotent(entryName);
    NormaliseIdempotent(netServiceName);
    TnsSyncEntryFields(Normalise(entryName), Normalise(netServiceName))
  }

  /** Both fields are trimmed and upper-case, and equal their arguments up to padding and case. */
  lemma {:induction false} NewTnsSyncEntryNormalises(entryName: string, netServiceName: string)
    ensures var e := NewTnsSyncEntry(entryName, netServiceName);
      && IsUpper(e.entryName) && IsTrimmed(e.entryName)
      && IsUpper(e.netServiceName) && IsTrimmed(e.netServiceName)
      && EqualsIgnoreCase(e.entryName, Trim(entryName))
      && EqualsIgnoreCase(e.netServiceName, Trim(netServiceName))
  {
    var e := NewTnsSyncEntry(entryName, netServiceName);
    ToUpperIdempotent(Trim(entryName));
    ToUpperIdempotent(Trim(netServiceName));
  }

  /**
   * Arguments that differ only in letter case and in surrounding whitespace
   * build equal entries.
   */
  lemma {:induction false} NewTnsSyncEntryIgnoresCaseAndPadding(
    p1: string, entryName: string, q1: string, otherEntryName: string,
    p2: string, netServiceName: string, q2: string, otherNetServiceName: string)
    requires AllTrimSpace(p1) && AllTrimSpace(q1) && AllTrimSpace(p2) && AllTrimSpace(q2)
    requires EqualsIgnoreCase(entryName, otherEntryName)
    requires EqualsIgnoreCase(netServiceName, otherNetServiceName)
    ensures Equals(NewTnsSyncEntry(p1 + entryName + q1, p2 + netServiceName + q2),
                   NewTnsSyncEntry(otherEntryName, otherNetServiceName))
  {
    NormaliseIgnoresCaseAndPadding(p1, entryName, q1, otherEntryName);
    NormaliseIgnoresCaseAndPadding(p2, netServiceName, q2, otherNetServiceName);
  }

  /** getTnsSyncEntryFormat: the alias, " = ", then the net service name. */
  function TnsSyncEntryFormat(e: TnsSyncEntry): string {
    e.entryName + " = " + e.netServiceName
  }

  /**
   * The format can be read back: cutting it at its first '=' and giving the
   * two halves to the constructor rebuilds the entry, as long as the alias
   * holds no '='.
   */
  lemma {:induction false} TnsSyncEntryFormatReadsBack(e: TnsSyncEntry)
    requires '=' !in e.entryName
    ensures var line := TnsSyncEntryFormat(e);
      '=' in line && NewTnsSyncEntry(line[..IndexOf(line, '=')], line[IndexOf(line, '=') + 1..]) == e
  {
    var line := TnsSyncEntryFormat(e);
    var n := |e.entryName|;
    assert line[..n + 1] == e.entryName + " ";
    assert line[n + 1] == '=';
    IndexOfIsFirst(line, '=', n + 1);
    assert line[n + 2..] == " " + e.netServiceName;
    PaddedNormalisedName(e.entryName);
    PaddedNormalisedName(e.netServiceName);
  }

  lemma {:induction false} PaddedNormalisedName(s: string)
    requires IsNormalised(s)
    ensures Normalise(s + " ") == s && Normalise(" " + s) == s
  {
    ToUpperIsUpper(s);
    TrimOfSpaceSuffix(s);
    TrimOfSpacePrefix(s);
  }

  /** equals: both fields equal. */
  function Equals(a: TnsSyncEntry, b: TnsSyncEntry): (r: bool)
    ensures r <==> a == b
  {
    a.entryName == b.entryName && a.netServiceName == b.netServiceName
  }

  /** hashCode: 1, then 37 * h + field hash for each field, in 32-bit arithmetic. */
  function HashCode(e: TnsSyncEntry): (r: int)
    ensures IsInt32(r)
  {
    var h := Wrap32(1 * 37 + StringHash(e.entryName));
    Wrap32(h * 37 + StringHash(e.netServiceName))
  }

  lemma {:induction false} HashCodeConsistentWithEquals(a: TnsSyncEntry, b: TnsSyncEntry)
    requires Equals(a, b)
    ensures HashCode(a) == HashCode(b)
  {
  }

  /** compareTo: the alias names only. */
  function CompareTo(a: TnsSyncEntry, b: TnsSyncEntry): int {
    CompareStrings(a.entryName, b.entryName)
  }

  lemma {:induction false} CompareToIsEntryNameOrder(a: TnsSyncEntry, b: TnsSyncEntry)
    ensures CompareTo(a, b) == 0 <==> a.entryName == b.entryName
    ensures CompareTo(b, a) == -CompareTo(a, b)
  {
    CompareZeroIff(a.entryName, b.entryName);
    CompareAntisymmetric(a.entryName, b.entryName);
  }
}
