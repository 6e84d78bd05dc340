// Collections.sort on a List<TnsEntry>: a stable sort by TnsEntry.compareTo,
// that is, by net service name alone. The sort is stated for any element
// type ordered by a string key; for a TnsEntry the key is NameOf. SortBy is
// the specification (an insertion sort), SortInPlace the in-place algorithm
// on an array.

module EntrySort {
  import opened JavaLang
  import opened TnsEntries

  /** The key TnsEntry.compareTo orders by: the net service name. */
  function NameOf(e: TnsEntry): string {
    e.netServiceName
  }

  predicate SortedBy<T>(s: seq<T>, key: T -> string) {
    forall i, j :: 0 <= i < j < |s| ==> LessOrEqual(key(s[i]), key(s[j]))
  }

  predicate StrictlyAscending<T>(s: seq<T>, key: T -> string) {
    forall i, j :: 0 <= i < j < |s| ==> Less(key(s[i]), key(s[j]))
  }

  predicate DistinctKeys<T>(s: seq<T>, key: T -> string) {
    forall i, j :: 0 <= i < j < |s| ==> key(s[i]) != key(s[j])
  }

  /** Puts x into t after every element whose key is not greater than x's. */
  function Insert<T>(t: seq<T>, x: T, key: T -> string): (r: seq<T>)
    ensures |r| == |t| + 1
    ensures multiset(r) == multiset(t) + multiset{x}
  {
    if t == [] || !Less(key(x), key(t[|t| - 1])) then t + [x]
    else
      var u := t[..|t| - 1];
      assert t == u + [t[|t| - 1]];
      Insert(u, x, key) + [t[|t| - 1]]
  }

  /** The list Collections.sort leaves behind. */
  function SortBy<T>(s: seq<T>, key: T -> string): (r: seq<T>)
    ensures |r| == |s|
    ensures multiset(r) == multiset(s)
  {
    if s == [] then []
    else
      var u := s[..|s| - 1];
      assert s == u + [s[|s| - 1]];
      Insert(SortBy(u, key), s[|s| - 1], key)
  }

  /** Appending an element not below the last keeps a list ordered. */
  lemma AppendSorted<T>(t: seq<T>, x: T, key: T -> string)
    requires SortedBy(t, key)
    requires t != [] ==> LessOrEqual(key(t[|t| - 1]), key(x))
    ensures SortedBy(t + [x], key)
  {
    forall i | 0 <= i < |t| ensures LessOrEqual(key(t[i]), key(x)) {
      if i < |t| - 1 {
        LessOrEqualTransitive(key(t[i]), key(t[|t| - 1]), key(x));
      }
    }
  }

  lemma {:induction false} InsertKeepsSorted<T>(t: seq<T>, x: T, key: T -> string)
    requires SortedBy(t, key)
    ensures SortedBy(Insert(t, x, key), key)
  {
    if t == [] || !Less(key(x), key(t[|t| - 1])) {
      if t != [] {
        LessTrichotomy(key(x), key(t[|t| - 1]));
        CompareZeroIff(key(t[|t| - 1]), key(x));
      }
      AppendSorted(t, x, key);
    } else {
      var u, last := t[..|t| - 1], t[|t| - 1];
      InsertKeepsSorted(u, x, key);
      var r' := Insert(u, x, key);
      assert Insert(t, x, key) == r' + [last];
      var y := r'[|r'| - 1];
      assert y in multiset(u) + multiset{x};
      if y != x {
        var k :| 0 <= k < |u| && u[k] == y;
        assert LessOrEqual(key(t[k]), key(last));
      } else {
        CompareZeroIff(key(x), key(last));
      }
      AppendSorted(r', last, key);
    }
  }

  /** The result of the sort is ordered by key. */
  lemma {:induction false} SortBySorted<T>(s: seq<T>, key: T -> string)
    ensures SortedBy(SortBy(s, key), key)
  {
    if s != [] {
      SortBySorted(s[..|s| - 1], key);
      InsertKeepsSorted(SortBy(s[..|s| - 1], key), s[|s| - 1], key);
    }
  }

  /** The elements of s that carry the key n, in their order in s. */
  function WithKey<T>(s: seq<T>, key: T -> string, n: string): seq<T> {
    if s == [] then []
    else WithKey(s[..|s| - 1], key, n) + (if key(s[|s| - 1]) == n then [s[|s| - 1]] else [])
  }

  lemma {:induction false} WithKeyConcat<T>(a: seq<T>, b: seq<T>, key: T -> string, n: string)
    ensures WithKey(a + b, key, n) == WithKey(a, key, n) + WithKey(b, key, n)
  {
    if b != [] {
      assert (a + b)[..|a + b| - 1] == a + b[..|b| - 1];
      WithKeyConcat(a, b[..|b| - 1], key, n);
    } else {
      assert a + b == a;
    }
  }

  lemma {:induction false} InsertStable<T>(t: seq<T>, x: T, key: T -> string, n: string)
    ensures WithKey(Insert(t, x, key), key, n) == WithKey(t + [x], key, n)
  {
    if t != [] && Less(key(x), key(t[|t| - 1])) {
      var u, last := t[..|t| - 1], t[|t| - 1];
      assert t == u + [last];
      LessTrichotomy(key(x), key(last));
      InsertStable(u, x, key, n);
      WithKeyConcat(Insert(u, x, key), [last], key, n);
      WithKeyConcat(u, [x], key, n);
      WithKeyConcat(u, [last], key, n);
      WithKeyConcat(t, [x], key, n);
    }
  }

  /** The sort is stable: elements sharing a key keep their relative order. */
  lemma {:induction false} SortByStable<T>(s: seq<T>, key: T -> string, n: string)
    ensures WithKey(SortBy(s, key), key, n) == WithKey(s, key, n)
  {
    if s != [] {
      var u, last := s[..|s| - 1], s[|s| - 1];
      SortByStable(u, key, n);
      InsertStable(SortBy(u, key), last, key, n);
      WithKeyConcat(SortBy(u, key), [last], key, n);
      WithKeyConcat(u, [last], key, n);
      assert s == u + [last];
    }
  }

  lemma {:induction false} InsertIntoSortedAppends<T>(t: seq<T>, x: T, key: T -> string)
    requires SortedBy(t + [x], key)
    ensures Insert(t, x, key) == t + [x]
  {
    if t != [] {
      var last := t[|t| - 1];
      assert (t + [x])[|t| - 1] == last && (t + [x])[|t|] == x;
      assert LessOrEqual(key(last), key(x));
      CompareAntisymmetric(key(last), key(x));
      assert !Less(key(x), key(last));
    }
  }

  /** Sorting an ordered list leaves it as it is. */
  lemma {:induction false} SortByOfSorted<T>(s: seq<T>, key: T -> string)
    requires SortedBy(s, key)
    ensures SortBy(s, key) == s
  {
    if s != [] {
      var u, last := s[..|s| - 1], s[|s| - 1];
      assert s == u + [last];
      assert SortedBy(u, key);
      SortByOfSorted(u, key);
      InsertIntoSortedAppends(u, last, key);
    }
  }

  lemma SortByIdempotent<T>(s: seq<T>, key: T -> string)
    ensures SortBy(SortBy(s, key), key) == SortBy(s, key)
  {
    SortBySorted(s, key);
    SortByOfSorted(SortBy(s, key), key);
  }

  /** Appending an element above the last keeps a list strictly ascending. */
  lemma AppendStrict<T>(t: seq<T>, x: T, key: T -> string)
    requires StrictlyAscending(t, key)
    requires t != [] ==> Less(key(t[|t| - 1]), key(x))
    ensures StrictlyAscending(t + [x], key)
  {
    forall i | 0 <= i < |t| ensures Less(key(t[i]), key(x)) {
      if i < |t| - 1 {
        LessTransitive(key(t[i]), key(t[|t| - 1]), key(x));
      }
    }
  }

  lemma {:induction false} InsertKeepsStrict<T>(t: seq<T>, x: T, key: T -> string)
    requires StrictlyAscending(t, key)
    requires forall y :: y in t ==> key(y) != key(x)
    ensures StrictlyAscending(Insert(t, x, key), key)
  {
    if t == [] || !Less(key(x), key(t[|t| - 1])) {
      if t != [] {
        LessTrichotomy(key(x), key(t[|t| - 1]));
      }
      AppendStrict(t, x, key);
    } else {
      var u, last := t[..|t| - 1], t[|t| - 1];
      assert forall y :: y in u ==> y in t;
      InsertKeepsStrict(u, x, key);
      var r' := Insert(u, x, key);
      assert Insert(t, x, key) == r' + [last];
      var y := r'[|r'| - 1];
      assert y in multiset(u) + multiset{x};
      if y != x {
        var k :| 0 <= k < |u| && u[k] == y;
        assert Less(key(t[k]), key(last));
      }
      AppendStrict(r', last, key);
    }
  }

  /** With no key repeated, the sorted list is strictly ascending. */
  lemma {:induction false} SortByStrict<T>(s: seq<T>, key: T -> string)
    requires DistinctKeys(s, key)
    ensures StrictlyAscending(SortBy(s, key), key)
  {
    if s != [] {
      var u, last := s[..|s| - 1], s[|s| - 1];
      assert DistinctKeys(u, key);
      SortByStrict(u, key);
      forall y | y in SortBy(u, key) ensures key(y) != key(last) {
        assert y in multiset(SortBy(u, key));
      }
      InsertKeepsStrict(SortBy(u, key), last, key);
    }
  }

  /** Two strictly ascending lists holding the same elements are the same list. */
  lemma {:induction false} StrictlyAscendingUnique<T>(a: seq<T>, b: seq<T>, key: T -> string)
    requires StrictlyAscending(a, key) && StrictlyAscending(b, key)
    requires multiset(a) == multiset(b)
    ensures a == b
  {
    if a != [] {
      SameHead(a, b, key);
      SameTail(a, b);
      assert StrictlyAscending(a[1..], key) && StrictlyAscending(b[1..], key);
      StrictlyAscendingUnique(a[1..], b[1..], key);
      assert a == [a[0]] + a[1..] && b == [b[0]] + b[1..];
    }
  }

  lemma SameTail<T>(a: seq<T>, b: seq<T>)
    requires a != [] && b != [] && a[0] == b[0]
    requires multiset(a) == multiset(b)
    ensures multiset(a[1..]) == multiset(b[1..])
  {
    assert a == [a[0]] + a[1..] && b == [b[0]] + b[1..];
    assert multiset(a[1..]) == multiset(a) - multiset{a[0]};
    assert multiset(b[1..]) == multiset(b) - multiset{b[0]};
  }

  lemma {:induction false} SameHead<T>(a: seq<T>, b: seq<T>, key: T -> string)
    requires StrictlyAscending(a, key) && StrictlyAscending(b, key)
    requires multiset(a) == multiset(b) && a != []
    ensures b != [] && a[0] == b[0]
  {
    assert a[0] in multiset(b);
    var k :| 0 <= k < |b| && b[k] == a[0];
    assert b[0] in multiset(a);
    var m :| 0 <= m < |a| && a[m] == b[0];
    var x, y := key(a[0]), key(b[0]);
    assert k > 0 ==> Less(y, x);
    assert m > 0 ==> Less(x, y);
    LessTrichotomy(x, y);
    LessTrichotomy(x, x);
  }

  /**
   * When each list repeats no key, sorting makes two lists equal exactly
   * when they hold the same elements, whatever their order.
   */
  lemma SortByEqualIffSameElements<T>(s: seq<T>, t: seq<T>, key: T -> string)
    requires DistinctKeys(s, key) && DistinctKeys(t, key)
    ensures SortBy(s, key) == SortBy(t, key) <==> multiset(s) == multiset(t)
  {
    if multiset(s) == multiset(t) {
      SortByStrict(s, key);
      SortByStrict(t, key);
      StrictlyAscendingUnique(SortBy(s, key), SortBy(t, key), key);
    }
  }

  /** Collections.sort(list): an insertion sort in place, stable by key. */
  method SortInPlace<T>(a: array<T>, key: T -> string)
    modifies a
    ensures a[..] == SortBy(old(a[..]), key)
  {
    ghost var s := a[..];
    var i := 0;
    while i < a.Length
      invariant 0 <= i <= a.Length
      invariant a[..i] == SortBy(s[..i], key)
      invariant a[i..] == s[i..]
    {
      InsertNext(a, i, key, s);
      i := i + 1;
    }
    assert a[..] == a[..a.Length];
    assert s == s[..a.Length];
  }

  /** One round of the sort: the first i + 1 elements of s are sorted in a. */
  method InsertNext<T>(a: array<T>, i: nat, key: T -> string, ghost s: seq<T>)
    requires i < a.Length == |s|
    requires a[..i] == SortBy(s[..i], key) && a[i..] == s[i..]
    modifies a
    ensures a[..i + 1] == SortBy(s[..i + 1], key) && a[i + 1..] == s[i + 1..]
  {
    assert a[i] == s[i] by {
      assert a[i..][0] == s[i..][0];
    }
    assert a[i + 1..] == s[i + 1..] by {
      assert a[i + 1..] == a[i..][1..];
    }
    InsertLast(a, i, key);
    SortByOfPrefix(s, i, key);
  }

  lemma SortByOfPrefix<T>(s: seq<T>, i: nat, key: T -> string)
    requires i < |s|
    ensures SortBy(s[..i + 1], key) == Insert(SortBy(s[..i], key), s[i], key)
  {
    assert s[..i + 1][..i] == s[..i];
  }

  /** Moves a[i] left past every greater key, so that a[..i + 1] is a[..i] with a[i] inserted. */
  method InsertLast<T>(a: array<T>, i: nat, key: T -> string)
    requires i < a.Length
    modifies a
    ensures a[..i + 1] == Insert(old(a[..i]), old(a[i]), key)
    ensures a[i + 1..] == old(a[i + 1..])
  {
    var x := a[i];
    ghost var before := a[..];
    var j := ShiftGreater(a, i, key);
    a[j] := x;
    assert a[..] == Shifted(before, i, j)[j := before[i]];
    PlaceInHole(before, i, j);
  }

  /**
   * s with the elements s[j..i] moved one place to the right; s[j] is left
   * where it was, so it appears twice, at j and at j + 1, when j < i.
   */
  function Shifted<T>(s: seq<T>, i: nat, j: nat): seq<T>
    requires j <= i < |s|
  {
    s[..j + 1] + s[j..i] + s[i + 1..]
  }

  /** Writing a[i] into the hole ShiftGreater left at j. */
  lemma PlaceInHole<T>(s: seq<T>, i: nat, j: nat)
    requires j <= i < |s|
    ensures Shifted(s, i, j)[j := s[i]][..i + 1] == s[..i][..j] + [s[i]] + s[..i][j..]
    ensures Shifted(s, i, j)[j := s[i]][i + 1..] == s[i + 1..]
  {
    var r := Shifted(s, i, j)[j := s[i]];
    assert r == s[..j] + [s[i]] + s[j..i] + s[i + 1..];
    assert s[..i][..j] == s[..j] && s[..i][j..] == s[j..i];
  }

  /** Nothing is shifted yet. */
  lemma ShiftedNone<T>(s: seq<T>, i: nat)
    requires i < |s|
    ensures Shifted(s, i, i) == s
  {
    assert s == s[..i + 1] + s[i + 1..];
  }

  /** Copying the element before the hole into it moves the hole one place left. */
  lemma ShiftedStep<T>(s: seq<T>, i: nat, j: nat)
    requires 0 < j <= i < |s|
    ensures Shifted(s, i, j)[j - 1] == s[j - 1]
    ensures Shifted(s, i, j)[j := s[j - 1]] == Shifted(s, i, j - 1)
  {
    assert Shifted(s, i, j)[j := s[j - 1]] == s[..j] + [s[j - 1]] + s[j..i] + s[i + 1..];
    assert s[j - 1..i] == [s[j - 1]] + s[j..i];
  }

  /**
   * The inner loop of the insertion: shifts one place to the right the
   * elements before a[i] whose key is greater than a[i]'s, leaving at j the
   * hole where a[i] belongs.
   */
  method ShiftGreater<T>(a: array<T>, i: nat, key: T -> string) returns (j: nat)
    requires i < a.Length
    modifies a
    ensures j <= i && a[..] == Shifted(old(a[..]), i, j)
    ensures Insert(old(a[..i]), old(a[i]), key) == old(a[..i])[..j] + [old(a[i])] + old(a[..i])[j..]
  {
    var x := a[i];
    ghost var s := a[..];
    ghost var t := a[..i];
    j := i;
    ShiftedNone(s, i);
    assert t[..j] == t && t[j..] == [];
    while j > 0 && Less(key(x), key(a[j - 1]))
      invariant 0 <= j <= i
      invariant a[..] == Shifted(s, i, j)
      invariant j > 0 ==> a[j - 1] == t[j - 1]
      invariant Insert(t, x, key) == Insert(t[..j], x, key) + t[j..]
    {
      ShiftedStep(s, i, j);
      InsertStep(t, j, x, key);
      a[j] := a[j - 1];
      j := j - 1;
      if j > 0 {
        ShiftedStep(s, i, j);
      }
    }
    InsertStop(t, j, x, key);
  }

  lemma InsertStop<T>(t: seq<T>, j: nat, x: T, key: T -> string)
    requires j <= |t| && (j == 0 || !Less(key(x), key(t[j - 1])))
    ensures Insert(t[..j], x, key) == t[..j] + [x]
  {
  }

  lemma InsertStep<T>(t: seq<T>, j: nat, x: T, key: T -> string)
    requires 0 < j <= |t| && Less(key(x), key(t[j - 1]))
    ensures Insert(t[..j], x, key) + t[j..] == Insert(t[..j - 1], x, key) + t[j - 1..]
  {
    assert t[..j][..j - 1] == t[..j - 1];
    assert t[j - 1..] == [t[j - 1]] + t[j..];
  }
}
