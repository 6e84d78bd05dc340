// TnsEntry: one net service of tnsnames.ora, a name and its description.

module TnsEntries {
  import opened JavaLang

  datatype TnsEntryFields = TnsEntryFields(netServiceName: string, netDescriptionString: string)

  /**
   * The values a TnsEntry object can hold. Its fields are private and are
   * only assigned by the constructor, so the name is always trimmed and
   * upper-case and the description always trimmed.
   */
  type TnsEntry = e: TnsEntryFields | IsNormalised(e.netServiceName) && IsTrimmed(e.netDescriptionString)
    witness TnsEntryFields("", "")

  /** The constructor TnsEntry(netServiceName, netDescriptionString). */
  function NewTnsEntry(netServiceName: string, netDescriptionString: string): TnsEntry {
    NormaliseIdempotent(netServiceName);
    TnsEntryFields(Normalise(netServiceName), Trim(netDescriptionString))
  }

  /**
   * The constructor keeps the name up to surrounding whitespace and letter
   * case, and keeps the description as a slice of its argument, case and
   * all, without surrounding whitespace.
   */
  lemma {:induction false} NewTnsEntryNormalises(netServiceName: string, netDescriptionString: string)
    ensures var e := NewTnsEntry(netServiceName, netDescriptionString);
      && IsUpper(e.netServiceName) && IsTrimmed(e.netServiceName)
      && EqualsIgnoreCase(e.netServiceName, Trim(netServiceName))
      && IsTrimmed(e.netDescriptionString)
      && exists i, j :: 0 <= i <= j <= |netDescriptionString|
           && e.netDescriptionString == netDescriptionString[i..j]
           && AllTrimSpace(netDescriptionString[..i]) && AllTrimSpace(netDescriptionString[j..])
  {
    var e := NewTnsEntry(netServiceName, netDescriptionString);
    ToUpperIdempotent(Trim(netServiceName));
    var i, j := TrimSplit(netDescriptionString);
  }

  /** Rebuilding an entry from its two getters gives the same entry. */
  lemma {:induction false} NewTnsEntryOfGetters(e: TnsEntry)
    ensures NewTnsEntry(e.netServiceName, e.netDescriptionString) == e
  {
    TrimOfTrimmed(e.netDescriptionString);
  }

  /** getTnsNamesEntryFormat: the tnsnames.ora line of the entry. */
  function TnsNamesEntryFormat(e: TnsEntry): string {
    e.netServiceName + " = " + e.netDescriptionString
  }

  /**
   * The line can be read back: cutting it at its first '=' and giving the
   * two halves to the constructor rebuilds the entry, as long as the name
   * holds no '='. The description may hold any character, '=' included.
   */
  lemma {:induction false} TnsNamesEntryFormatReadsBack(e: TnsEntry)
    requires '=' !in e.netServiceName
    ensures var line := TnsNamesEntryFormat(e);
      '=' in line && NewTnsEntry(line[..IndexOf(line, '=')], line[IndexOf(line, '=') + 1..]) == e
  {
    var line := TnsNamesEntryFormat(e);
    var n := |e.netServiceName|;
    assert line[..n + 1] == e.netServiceName + " ";
    assert line[n + 1] == '=';
    IndexOfIsFirst(line, '=', n + 1);
    assert line[n + 2..] == " " + e.netDescriptionString;
    ToUpperIsUpper(e.netServiceName);
    TrimOfSpaceSuffix(e.netServiceName);
    TrimOfSpacePrefix(e.netDescriptionString);
  }

  /** equals: both fields equal. */
  function Equals(a: TnsEntry, b: TnsEntry): (r: bool)
    ensures r <==> a == b
  {
    a.netServiceName == b.netServiceName && a.netDescriptionString == b.netDescriptionString
  }

  /** hashCode: 1, then 37 * h + field hash for each field, in 32-bit arithmetic. */
  function HashCode(e: TnsEntry): (r: int)
    ensures IsInt32(r)
  {
    var h := Wrap32(1 * 37 + StringHash(e.netServiceName));
    Wrap32(h * 37 + StringHash(e.netDescriptionString))
  }

  lemma {:induction false} HashCodeConsistentWithEquals(a: TnsEntry, b: TnsEntry)
    requires Equals(a, b)
    ensures HashCode(a) == HashCode(b)
  {
  }

  /** compareTo: the names only. */
  function CompareTo(a: TnsEntry, b: TnsEntry): int {
    CompareStrings(a.netServiceName, b.netServiceName)
  }

  lemma {:induction false} CompareToIsNameOrder(a: TnsEntry, b: TnsEntry)
    ensures CompareTo(a, b) == 0 <==> a.netServiceName == b.netServiceName
    ensures CompareTo(b, a) == -CompareTo(a, b)
  {
    CompareZeroIff(a.netServiceName, b.netServiceName);
    CompareAntisymmetric(a.netServiceName, b.netServiceName);
  }

  /** Two entries with one name and two descriptions compare as 0 yet are not equal. */
  lemma {:induction false} CompareToInconsistentWithEquals(a: TnsEntry, b: TnsEntry)
    requires a.netServiceName == b.netServiceName
    requires a.netDescriptionString != b.netDescriptionString
    ensures CompareTo(a, b) == 0 && !Equals(a, b)
  {
    CompareZeroIff(a.netServiceName, b.netServiceName);
  }
}
