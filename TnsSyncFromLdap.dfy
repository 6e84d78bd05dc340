// TnsSyncFromLdap: the reconciliation steps of the main program. The alias
// list of the sync file is turned into the net service names to look up and,
// with the entries the directory returned, into the entries tnsnames.ora
// should hold; the file is rewritten only when it is corrupt or differs.

module TnsSync {
  import opened Wrappers
  import opened JavaLang
  import opened TnsEntries
  import opened TnsSyncEntries
  import opened EntrySort
  import opened AppFiles

  // ---------------------------------------------------------------------
  // equalLists
  // ---------------------------------------------------------------------

  /** The NullPointerException Collections.sort throws on a null list. */
  datatype JavaError = NullPointer

  /**
   * equalLists: true for two null lists; otherwise sorts both lists in place
   * by name and compares them element by element with TnsEntry.equals.
   */
  method EqualLists(one: array?<TnsEntry>, two: array?<TnsEntry>) returns (r: Result<bool, JavaError>)
    modifies one, two
    ensures one == null && two == null ==> r == Ok(true)
    ensures one == null && two != null ==> r == Err(NullPointer) && two[..] == old(two[..])
    ensures one != null ==> one[..] == SortBy(old(one[..]), NameOf)
    ensures one != null && two == null ==> r == Err(NullPointer)
    ensures one != null && two != null ==>
      && two[..] == SortBy(old(two[..]), NameOf)
      && r == Ok(SortBy(old(one[..]), NameOf) == SortBy(old(two[..]), NameOf))
  {
    if one == null && two == null {
      return Ok(true);
    }
    if one == null {
      return Err(NullPointer);
    }
    ghost var oldTwo := if two == null then [] else two[..];
    SortInPlace(one, NameOf);
    if two == null {
      return Err(NullPointer);
    }
    if one == two {
      SortByIdempotent(oldTwo, NameOf);
    }
    SortInPlace(two, NameOf);
    return Ok(one[..] == two[..]);
  }

  /** Sorting keeps each list's entries: equalLists only reorders its arguments. */
  lemma EqualListsKeepsEntries(s: seq<TnsEntry>)
    ensures multiset(SortBy(s, NameOf)) == multiset(s) && SortedBy(SortBy(s, NameOf), NameOf)
  {
    SortBySorted(s, NameOf);
  }

  // ---------------------------------------------------------------------
  // getUniqueNetServiceNameList
  // ---------------------------------------------------------------------

  /** The net service names the sync entries refer to. */
  function NetServiceNames(entries: seq<TnsSyncEntry>): set<string> {
    set i | 0 <= i < |entries| :: entries[i].netServiceName
  }

  /** getUniqueNetServiceNameList: each net service name of the entries, once. */
  method GetUniqueNetServiceNameList(entries: seq<TnsSyncEntry>) returns (r: seq<string>)
    ensures forall i, j :: 0 <= i < j < |r| ==> r[i] != r[j]
    ensures forall n :: n in r <==> exists i :: 0 <= i < |entries| && entries[i].netServiceName == n
  {
    var hs: set<string> := {};
    for i := 0 to |entries|
      invariant hs == NetServiceNames(entries[..i])
    {
      assert NetServiceNames(entries[..i + 1]) == NetServiceNames(entries[..i]) + {entries[i].netServiceName} by {
        assert forall j :: 0 <= j < i ==> entries[..i + 1][j] == entries[..i][j];
      }
      hs := hs + {entries[i].netServiceName};
    }
    assert entries[..|entries|] == entries;
    r := SetToList(hs);
  }

  // ---------------------------------------------------------------------
  // createTnsEntryListForTnsSyncEntries
  // ---------------------------------------------------------------------

  /** The TreeMap the first loop builds: each entry name mapped to its last entry. */
  function LastByName(entries: seq<TnsSyncEntry>): (om: map<string, TnsSyncEntry>)
    ensures forall k :: k in om ==> om[k].entryName == k
  {
    if entries == [] then map[]
    else
      var last := entries[|entries| - 1];
      LastByName(entries[..|entries| - 1])[last.entryName := last]
  }

  /** Entry j of the list is the last one with its entry name. */
  predicate IsLastOfName(entries: seq<TnsSyncEntry>, j: nat)
    requires j < |entries|
  {
    forall i :: j < i < |entries| ==> entries[i].entryName != entries[j].entryName
  }

  /** The map holds a key for every entry name of the list, and no other. */
  lemma {:induction false} LastByNameKeys(entries: seq<TnsSyncEntry>, k: string)
    ensures k in LastByName(entries) <==> exists j :: 0 <= j < |entries| && entries[j].entryName == k
  {
    if entries != [] {
      var n := |entries| - 1;
      var u := entries[..n];
      LastByNameKeys(u, k);
      if exists j :: 0 <= j < n && u[j].entryName == k {
        var j :| 0 <= j < n && u[j].entryName == k;
        assert entries[j] == u[j];
      }
      if exists j :: 0 <= j < n && entries[j].entryName == k {
        var j :| 0 <= j < n && entries[j].entryName == k;
        assert entries[j] == u[j];
      }
    }
  }

  /**
   * Under each key the map holds the last entry of the list with that name:
   * a repeated alias is overridden by the later one.
   */
  lemma {:induction false} LastByNameWins(entries: seq<TnsSyncEntry>, k: string) returns (j: nat)
    requires k in LastByName(entries)
    ensures j < |entries| && entries[j] == LastByName(entries)[k] && IsLastOfName(entries, j)
  {
    var n := |entries| - 1;
    var u := entries[..n];
    if entries[n].entryName == k {
      j := n;
    } else {
      assert LastByName(entries)[k] == LastByName(u)[k];
      j := LastByNameWins(u, k);
      assert entries[j] == u[j];
      forall i | j < i < |entries| ensures entries[i].entryName != entries[j].entryName {
        if i < n {
          assert entries[i] == u[i];
        }
      }
    }
  }

  /** The alias under key k has its net service among the directory's entries. */
  predicate Resolves(om: map<string, TnsSyncEntry>, tnsEntries: map<string, TnsEntry>, k: string) {
    k in om && om[k].netServiceName in tnsEntries
  }

  /** new TnsEntry(alias name, description of the net service it refers to). */
  function Resolved(om: map<string, TnsSyncEntry>, tnsEntries: map<string, TnsEntry>, k: string): TnsEntry
    requires Resolves(om, tnsEntries, k)
  {
    NewTnsEntry(om[k].entryName, tnsEntries[om[k].netServiceName].netDescriptionString)
  }

  /** The entry the second loop produces under each key whose net service is known. */
  function ResolvedMap(om: map<string, TnsSyncEntry>, tnsEntries: map<string, TnsEntry>): map<string, TnsEntry> {
    map k | k in om && Resolves(om, tnsEntries, k) :: Resolved(om, tnsEntries, k)
  }

  /** The entry produced under key k, when there is one, is named k. */
  lemma ResolvedMapAt(om: map<string, TnsSyncEntry>, tnsEntries: map<string, TnsEntry>, k: string)
    requires k in om && om[k].entryName == k
    ensures k in ResolvedMap(om, tnsEntries) <==> om[k].netServiceName in tnsEntries
    ensures k in ResolvedMap(om, tnsEntries) ==>
      && ResolvedMap(om, tnsEntries)[k] == NewTnsEntry(k, tnsEntries[om[k].netServiceName].netDescriptionString)
      && ResolvedMap(om, tnsEntries)[k].netServiceName == k
  {
    NormaliseFixesNormalised(k);
  }

  /** The values of m under the keys in keys. */
  function ValuesOf<K, V>(m: map<K, V>, keys: set<K>): set<V> {
    set k | k in keys && k in m :: m[k]
  }

  lemma ValuesOfAdd<K, V>(m: map<K, V>, keys: set<K>, k: K)
    ensures ValuesOf(m, keys + {k}) == ValuesOf(m, keys) + (if k in m then {m[k]} else {})
  {
    var left, right := ValuesOf(m, keys + {k}), ValuesOf(m, keys) + (if k in m then {m[k]} else {});
    forall x | x in left ensures x in right {
      var k' :| k' in keys + {k} && k' in m && x == m[k'];
      if k' != k {
        assert k' in keys;
      }
    }
    forall x | x in right ensures x in left {
      if x in ValuesOf(m, keys) {
        var k' :| k' in keys && k' in m && x == m[k'];
        assert k' in keys + {k};
      } else {
        assert k in keys + {k};
      }
    }
  }

  /** r holds exactly the values of m under the keys of keys not in rest. */
  ghost predicate CollectedExcept<K, V(!new)>(m: map<K, V>, keys: set<K>, rest: set<K>, r: seq<V>) {
    && rest <= keys
    && (forall x :: x in r <==> x in ValuesOf(m, keys - rest))
  }

  /** One round of the TreeMap iteration: the values collected grow by the one under k. */
  lemma TakeKey<K, V(!new)>(m: map<K, V>, keys: set<K>, rest: set<K>, k: K, r: seq<V>, taken: seq<V>)
    requires k in rest && CollectedExcept(m, keys, rest, r)
    requires taken == if k in m then [m[k]] else []
    ensures CollectedExcept(m, keys, rest - {k}, r + taken)
  {
    assert keys - (rest - {k}) == (keys - rest) + {k};
    ValuesOfAdd(m, keys - rest, k);
  }

  /** The entries the second loop produces for the keys in keys. */
  function Projection(om: map<string, TnsSyncEntry>, tnsEntries: map<string, TnsEntry>, keys: set<string>): set<TnsEntry> {
    ValuesOf(ResolvedMap(om, tnsEntries), keys)
  }


  /** A TreeMap holds a smallest key: where its iteration starts. */
  lemma {:induction false} SmallestKey(keys: set<string>) returns (m: string)
    requires keys != {}
    ensures m in keys && forall k :: k in keys ==> LessOrEqual(m, k)
    decreases |keys|
  {
    var y :| y in keys;
    CompareZeroIff(y, y);
    if keys == {y} {
      m := y;
    } else {
      var m' := SmallestKey(keys - {y});
      LessTrichotomy(y, m');
      if Less(y, m') {
        m := y;
        forall k | k in keys && k != y ensures LessOrEqual(y, k) {
          LessOrEqualTransitive(y, m', k);
        }
      } else {
        m := m';
      }
    }
  }

  /** The key a TreeMap's ascending iteration visits first. */
  method FirstKey(keys: set<string>) returns (k: string)
    requires keys != {}
    ensures k in keys && forall k' :: k' in keys ==> LessOrEqual(k, k')
  {
    ghost var m := SmallestKey(keys);
    k :| k in keys && forall k' :: k' in keys ==> LessOrEqual(k, k');
  }

  /** Taking the smallest key next keeps the output ascending. */
  lemma AppendSmallest(r: seq<TnsEntry>, x: TnsEntry, rest: set<string>)
    requires StrictlyAscending(r, NameOf) && x.netServiceName in rest
    requires forall i, k :: 0 <= i < |r| && k in rest ==> Less(r[i].netServiceName, k)
    requires forall k :: k in rest ==> LessOrEqual(x.netServiceName, k)
    ensures StrictlyAscending(r + [x], NameOf)
    ensures forall i, k :: 0 <= i < |r + [x]| && k in rest - {x.netServiceName} ==> Less((r + [x])[i].netServiceName, k)
  {
    forall k | k in rest - {x.netServiceName} ensures Less(x.netServiceName, k) {
      CompareZeroIff(x.netServiceName, k);
    }
  }

  /** What the second loop appends for key k: the resolved entry, if any. */
  function Emit(om: map<string, TnsSyncEntry>, tnsEntries: map<string, TnsEntry>, k: string): seq<TnsEntry>
    requires k in om
  {
    if Resolves(om, tnsEntries, k) then [Resolved(om, tnsEntries, k)] else []
  }

  /**
   * The order half of the second loop's invariant: the output is strictly
   * ascending and every name in it is below every key still to visit.
   */
  predicate AscendingBelow(r: seq<TnsEntry>, rest: set<string>) {
    && StrictlyAscending(r, NameOf)
    && (forall i, k :: 0 <= i < |r| && k in rest ==> Less(r[i].netServiceName, k))
  }

  /** The entry resolved under key k is named k. */
  lemma ResolvedName(om: map<string, TnsSyncEntry>, tnsEntries: map<string, TnsEntry>, k: string)
    requires Resolves(om, tnsEntries, k) && om[k].entryName == k
    ensures Resolved(om, tnsEntries, k).netServiceName == k
  {
    NormaliseFixesNormalised(k);
  }

  /** Visiting a key adds exactly the entry resolved for it, if any. */
  lemma EmitIsResolved(om: map<string, TnsSyncEntry>, tnsEntries: map<string, TnsEntry>, k: string)
    requires k in om && om[k].entryName == k
    ensures var rm := ResolvedMap(om, tnsEntries);
      Emit(om, tnsEntries, k) == if k in rm then [rm[k]] else []
  {
    ResolvedMapAt(om, tnsEntries, k);
  }

  /** The first loop: om.put(entry name, entry) for each entry in turn. */
  method PutAll(entries: seq<TnsSyncEntry>) returns (om: map<string, TnsSyncEntry>)
    ensures om == LastByName(entries)
  {
    om := map[];
    for i := 0 to |entries|
      invariant om == LastByName(entries[..i])
    {
      assert entries[..i + 1][..i] == entries[..i];
      om := om[entries[i].entryName := entries[i]];
    }
    assert entries[..|entries|] == entries;
  }

  /**
   * createTnsEntryListForTnsSyncEntries: one entry per alias name, in
   * ascending order of the names, for the aliases whose net service the
   * directory returned; a later alias of the same name overrides an earlier.
   */
  method CreateTnsEntryListForTnsSyncEntries(entries: seq<TnsSyncEntry>, tnsEntries: map<string, TnsEntry>)
    returns (r: seq<TnsEntry>)
    ensures StrictlyAscending(r, NameOf)
    ensures forall x :: x in r <==> x in Projection(LastByName(entries), tnsEntries, LastByName(entries).Keys)
  {
    var om := PutAll(entries);
    r := [];
    var rest := om.Keys;
    ghost var rm := ResolvedMap(om, tnsEntries);
    assert om.Keys - rest == {};
    while rest != {}
      invariant AscendingBelow(r, rest)
      invariant CollectedExcept(rm, om.Keys, rest, r)
      decreases |rest|
    {
      var k := FirstKey(rest);
      var e := om[k];
      EmitIsResolved(om, tnsEntries, k);
      TakeKey(rm, om.Keys, rest, k, r, Emit(om, tnsEntries, k));
      if e.netServiceName in tnsEntries {
        var x := NewTnsEntry(e.entryName, tnsEntries[e.netServiceName].netDescriptionString);
        ResolvedName(om, tnsEntries, k);
        AppendSmallest(r, x, rest);
        r := r + [x];
      } else {
        assert r + [] == r;
      }
      rest := rest - {k};
    }
    assert om.Keys - rest == om.Keys;
  }

  /**
   * The output in terms of the alias list: an entry is produced exactly for
   * an alias that is the last of its name and whose net service the
   * directory returned, with the alias name and that service's description.
   */
  lemma ProjectionOfAliases(entries: seq<TnsSyncEntry>, tnsEntries: map<string, TnsEntry>, x: TnsEntry)
    ensures var om := LastByName(entries);
      x in Projection(om, tnsEntries, om.Keys) <==>
        exists j :: 0 <= j < |entries| && IsLastOfName(entries, j)
          && entries[j].netServiceName in tnsEntries
          && x == NewTnsEntry(entries[j].entryName, tnsEntries[entries[j].netServiceName].netDescriptionString)
  {
    var om := LastByName(entries);
    var rm := ResolvedMap(om, tnsEntries);
    if x in Projection(om, tnsEntries, om.Keys) {
      var k :| k in om.Keys && k in rm && x == rm[k];
      var j := LastByNameWins(entries, k);
    }
    if exists j :: 0 <= j < |entries| && IsLastOfName(entries, j)
          && entries[j].netServiceName in tnsEntries
          && x == NewTnsEntry(entries[j].entryName, tnsEntries[entries[j].netServiceName].netDescriptionString) {
      var j :| 0 <= j < |entries| && IsLastOfName(entries, j)
          && entries[j].netServiceName in tnsEntries
          && x == NewTnsEntry(entries[j].entryName, tnsEntries[entries[j].netServiceName].netDescriptionString);
      var k := entries[j].entryName;
      LastByNameKeys(entries, k);
      var j' := LastByNameWins(entries, k);
      assert entries[j'].entryName == k == entries[j].entryName;
      assert j' == j;
      assert k in rm && x == rm[k];
      assert k in om.Keys;
    }
  }

  // ---------------------------------------------------------------------
  // The decision in main
  // ---------------------------------------------------------------------

  /** The condition of main: the current file is corrupt or equalLists finds the lists different. */
  predicate NeedsRewrite(current: TnsNamesContent, fromLdap: seq<TnsEntry>) {
    current.corrupt || SortBy(fromLdap, NameOf) != SortBy(current.entries, NameOf)
  }

  /**
   * The result and the new tnsnames.ora and build file when main rewrites:
   * writing fails unless the build file can be created, moving fails unless
   * it can be moved, and otherwise the build file becomes tnsnames.ora.
   */
  function Rewritten(canCreate: bool, canMove: bool, text: string, tnsNamesFile: FileState, buildFile: FileState)
    : (Result<bool, AppError>, FileState, FileState)
  {
    if !canCreate then (Err(CannotWriteBuildFile), tnsNamesFile, buildFile)
    else if !canMove then (Err(CannotMoveBuildFile), tnsNamesFile, Readable(text))
    else (Ok(true), Readable(text), NotOpenable)
  }

  /** writeNetServiceDataToBuildFile followed by moveBuidFileToFinal. */
  method WriteAndMove(fh: AppFileHandler, entries: seq<TnsEntry>, timestamp: string, canCreate: bool, canMove: bool)
    returns (r: Result<bool, AppError>)
    modifies fh`buildFile, fh`tnsNamesFile
    ensures (r, fh.tnsNamesFile, fh.buildFile) ==
      Rewritten(canCreate, canMove, BuildFileText(fh.syncFileName, timestamp, entries), old(fh.tnsNamesFile), old(fh.buildFile))
  {
    var written := fh.WriteNetServiceDataToBuildFile(entries, timestamp, canCreate);
    if written.Err? {
      return Err(written.error);
    }
    var moved := fh.MoveBuildFileToFinal(canMove);
    if moved.Err? {
      return Err(moved.error);
    }
    return Ok(true);
  }

  /**
   * The steps of main after the directory lookup: read the current
   * tnsnames.ora, and when it is corrupt or holds other entries than the
   * directory's, write the build file and move it over tnsnames.ora.
   * The result tells whether a new file was put in place; equalLists has
   * sorted the directory's list by then unless the file was corrupt.
   */
  method UpdateTnsNames(fh: AppFileHandler, fromLdap: array<TnsEntry>, timestamp: string, canCreate: bool, canMove: bool)
    returns (r: Result<bool, AppError>)
    modifies fh, fromLdap
    ensures fh.tnsSyncFile == old(fh.tnsSyncFile)
    ensures ReadTnsNames(old(fh.tnsNamesFile)).Err? ==>
      && (r, fh.tnsNamesFile, fh.buildFile) == (Err(CannotReadTnsNames), old(fh.tnsNamesFile), old(fh.buildFile))
      && !fh.currentTnsNamesCorrupt && fromLdap[..] == old(fromLdap[..])
    ensures ReadTnsNames(old(fh.tnsNamesFile)).Ok? ==>
      var current := ReadTnsNames(old(fh.tnsNamesFile)).value;
      var written := if current.corrupt then old(fromLdap[..]) else SortBy(old(fromLdap[..]), NameOf);
      && fromLdap[..] == written
      && fh.currentTnsNamesCorrupt == current.corrupt
      && (r, fh.tnsNamesFile, fh.buildFile) ==
        if NeedsRewrite(current, old(fromLdap[..])) then
          Rewritten(canCreate, canMove, BuildFileText(fh.syncFileName, timestamp, written), old(fh.tnsNamesFile), old(fh.buildFile))
        else (Ok(false), old(fh.tnsNamesFile), old(fh.buildFile))
  {
    var got := fh.GetCurrentTnsEntryList();
    if got.Err? {
      return Err(got.error);
    }
    var corrupt := fh.IsCurrentTnsNamesCorrupt();
    if !corrupt {
      var same := EqualsCurrentList(fromLdap, got.value);
      if same {
        return Ok(false);
      }
    }
    r := WriteAndMove(fh, fromLdap[..], timestamp, canCreate, canMove);
  }

  /** equalLists(list from the directory, a fresh array holding the current file's list). */
  method EqualsCurrentList(fromLdap: array<TnsEntry>, list: seq<TnsEntry>) returns (same: bool)
    modifies fromLdap
    ensures fromLdap[..] == SortBy(old(fromLdap[..]), NameOf)
    ensures same <==> SortBy(old(fromLdap[..]), NameOf) == SortBy(list, NameOf)
  {
    var current := new TnsEntry[|list|](i requires 0 <= i < |list| => list[i]);
    assert current[..] == list;
    var r := EqualLists(fromLdap, current);
    same := r.Ok? && r.value;
  }

  /**
   * A file put in place by UpdateTnsNames is left alone by the next run that
   * gets the same entries from the directory, in whatever order: it reads
   * back as those entries, not corrupt. Names must be runs of word
   * characters and descriptions single lines, as the parser requires.
   */
  lemma SecondRunLeavesFileAlone(syncFileName: string, timestamp: string, written: seq<TnsEntry>, next: seq<TnsEntry>)
    requires NoLineBreak(syncFileName) && NoLineBreak(timestamp)
    requires forall i :: 0 <= i < |written| ==> ReadableEntry(written[i])
    requires DistinctKeys(written, NameOf) && DistinctKeys(next, NameOf) && multiset(next) == multiset(written)
    ensures ReadTnsNames(Readable(BuildFileText(syncFileName, timestamp, written))).Ok?
    ensures !NeedsRewrite(ReadTnsNames(Readable(BuildFileText(syncFileName, timestamp, written))).value, next)
  {
    BuildFileReadsBack(syncFileName, timestamp, written);
    SortByEqualIffSameElements(next, written, NameOf);
  }

  /**
   * A file whose k-th entry has a name with a character that is neither a
   * word character, a space nor '=' (a dot, as in DB.WORLD) reads back
   * corrupt, so every later run rewrites it, whatever the directory returns.
   */
  lemma StrayNameCharRewritesEveryRun(syncFileName: string, timestamp: string, written: seq<TnsEntry>, k: nat, m: nat, next: seq<TnsEntry>)
    requires NoLineBreak(syncFileName) && NoLineBreak(timestamp)
    requires k < |written| && forall i :: 0 <= i < k ==> ReadableEntry(written[i])
    requires StrayNameCharAt(written[k].netServiceName, m) && NoLineBreak(TnsNamesEntryFormat(written[k]))
    ensures ReadTnsNames(Readable(BuildFileText(syncFileName, timestamp, written))).Ok?
    ensures NeedsRewrite(ReadTnsNames(Readable(BuildFileText(syncFileName, timestamp, written))).value, next)
  {
    StrayNameCharFileIsCorrupt(syncFileName, timestamp, written, k, m);
  }
}
