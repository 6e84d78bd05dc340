// LdapHandler: finds the directory server to talk to among the configured
// provider URLs and queries it for the net services named in a filter. The
// JNDI calls are oracles: `connect` says whether an InitialLdapContext can be
// built for a PROVIDER_URL, `search` gives the orclNetService objects below
// the admin context, or None when the search throws a NamingException.

module Ldap {
  import opened Wrappers
  import opened JavaLang
  import opened TnsEntries
  import opened EntrySort

  // ---------------------------------------------------------------------
  // getProviderUrlList
  // ---------------------------------------------------------------------

  /** A character of the class [()\s]. */
  predicate IsUrlNoise(c: char) {
    c == '(' || c == ')' || IsRegexSpace(c)
  }

  /** replaceAll("[()\\s]", ""). */
  function RemoveUrlNoise(s: string): (r: string)
    ensures forall k :: 0 <= k < |r| ==> !IsUrlNoise(r[k])
  {
    if s == [] then []
    else (if IsUrlNoise(s[0]) then [] else [s[0]]) + RemoveUrlNoise(s[1..])
  }

  /** replaceAll works piece by piece: what it keeps of a + b is what it keeps of a, then of b. */
  lemma {:induction false} RemoveUrlNoiseConcat(a: string, b: string)
    ensures RemoveUrlNoise(a + b) == RemoveUrlNoise(a) + RemoveUrlNoise(b)
  {
    if a != [] {
      assert (a + b)[0] == a[0] && (a + b)[1..] == a[1..] + b;
      RemoveUrlNoiseConcat(a[1..], b);
    } else {
      assert a + b == b;
    }
  }

  /** A string without parentheses and \s characters is kept as it is. */
  lemma {:induction false} RemoveUrlNoiseKeepsClean(s: string)
    requires forall k :: 0 <= k < |s| ==> !IsUrlNoise(s[k])
    ensures RemoveUrlNoise(s) == s
  {
    if s != [] {
      RemoveUrlNoiseKeepsClean(s[1..]);
      assert s == [s[0]] + s[1..];
    }
  }

  /** A parenthesis or a \s character is dropped. */
  lemma RemoveUrlNoiseDropsNoise(c: char)
    requires IsUrlNoise(c)
    ensures RemoveUrlNoise([c]) == []
  {
  }

  /** getProviderUrlList: the host[:port] pieces of the directory servers setting. */
  function ProviderUrlList(providerUrls: string): seq<string> {
    Split(RemoveUrlNoise(providerUrls), ',')
  }

  /** No piece holds a parenthesis, a \s character or a comma. */
  lemma ProviderUrlPiecesClean(providerUrls: string)
    ensures forall i :: 0 <= i < |ProviderUrlList(providerUrls)| ==>
      var piece := ProviderUrlList(providerUrls)[i];
      ',' !in piece && forall k :: 0 <= k < |piece| ==> !IsUrlNoise(piece[k])
  {
    var s := RemoveUrlNoise(providerUrls);
    var all := SplitAll(s, ',');
    SplitAllInside(s, ',');
    var r := ProviderUrlList(providerUrls);
    if ',' in s {
      assert r == all[..|r|];
      forall i | 0 <= i < |r| ensures forall k :: 0 <= k < |r[i]| ==> !IsUrlNoise(r[i][k]) {
        assert r[i] == all[i];
      }
    }
  }

  /** Every piece of SplitAll(s, d) is a slice of s. */
  lemma {:induction false} SplitAllInside(s: string, d: char)
    ensures forall i :: 0 <= i < |SplitAll(s, d)| ==>
      forall k :: 0 <= k < |SplitAll(s, d)[i]| ==> SplitAll(s, d)[i][k] in s
  {
    if d in s {
      var k := IndexOf(s, d);
      SplitAllInside(s[k + 1..], d);
      var r := SplitAll(s, d);
      forall i | 0 <= i < |r| ensures forall j :: 0 <= j < |r[i]| ==> r[i][j] in s {
        if i == 0 {
          forall j | 0 <= j < |r[0]| ensures r[0][j] in s {
            assert r[0][j] == s[j];
          }
        } else {
          forall j | 0 <= j < |r[i]| ensures r[i][j] in s {
            assert r[i] == SplitAll(s[k + 1..], d)[i - 1];
            var c := r[i][j];
            assert c in s[k + 1..];
            var m :| 0 <= m < |s[k + 1..]| && s[k + 1..][m] == c;
            assert s[k + 1 + m] == c;
          }
        }
      }
    }
  }

  /** Joining the pieces of SplitAll with the separator gives back the string. */
  lemma {:induction false} JoinSplitAll(s: string, d: char)
    ensures Join(SplitAll(s, d), d) == s
    decreases |s|
  {
    if d in s {
      var k := IndexOf(s, d);
      var rest := SplitAll(s[k + 1..], d);
      JoinSplitAll(s[k + 1..], d);
      assert SplitAll(s, d)[1..] == rest;
      assert s == s[..k] + [d] + s[k + 1..];
    }
  }

  lemma {:induction false} JoinSnoc(r: seq<string>, x: string, d: char)
    requires r != []
    ensures Join(r + [x], d) == Join(r, d) + [d] + x
  {
    if |r| > 1 {
      assert (r + [x])[1..] == r[1..] + [x];
      JoinSnoc(r[1..], x, d);
    } else {
      assert (r + [x])[1..] == [x];
    }
  }

  /** The last character of a join is that of its last non-empty piece. */
  lemma {:induction false} JoinEndsWithLast(r: seq<string>, d: char)
    requires r != [] && r[|r| - 1] != []
    ensures Join(r, d) != [] && Join(r, d)[|Join(r, d)| - 1] == r[|r| - 1][|r[|r| - 1]| - 1]
  {
    if |r| > 1 {
      var u := r[..|r| - 1];
      assert r == u + [r[|r| - 1]];
      JoinSnoc(u, r[|r| - 1], d);
    }
  }

  /** Dropping the trailing empty pieces drops the trailing separators of the join. */
  lemma {:induction false} JoinDropTrailingEmpty(r: seq<string>, d: char)
    requires r != [] && forall i :: 0 <= i < |r| ==> d !in r[i]
    ensures Join(DropTrailingEmpty(r), d) == DropTrailing(Join(r, d), d)
    decreases |r|
  {
    var last := r[|r| - 1];
    if last != [] {
      JoinEndsWithLast(r, d);
      assert last[|last| - 1] in last;
    } else if |r| == 1 {
      assert r == [[]];
    } else {
      var u := r[..|r| - 1];
      assert r == u + [[]];
      JoinEmptyLast(u, d);
      JoinDropTrailingEmpty(u, d);
    }
  }

  /** A trailing empty piece adds one separator, which DropTrailing removes again. */
  lemma JoinEmptyLast(u: seq<string>, d: char)
    requires u != []
    ensures DropTrailing(Join(u + [[]], d), d) == DropTrailing(Join(u, d), d)
  {
    var ju := Join(u, d);
    JoinSnoc(u, [], d);
    assert ju + [d] + [] == ju + [d];
    assert (ju + [d])[..|ju|] == ju;
  }

  /**
   * getProviderUrlList keeps the servers in the order they are written: the
   * pieces joined with commas give the cleaned setting without trailing commas.
   */
  lemma ProviderUrlListKeepsOrder(providerUrls: string)
    ensures Join(ProviderUrlList(providerUrls), ',') == DropTrailing(RemoveUrlNoise(providerUrls), ',')
  {
    var s := RemoveUrlNoise(providerUrls);
    if ',' in s {
      JoinSplitAll(s, ',');
      JoinDropTrailingEmpty(SplitAll(s, ','), ',');
    } else {
      assert s == [] || s[|s| - 1] in s;
    }
  }

  // ---------------------------------------------------------------------
  // getCtx
  // ---------------------------------------------------------------------

  /** A connected InitialLdapContext, known by the PROVIDER_URL it was built with. */
  datatype LdapContext = LdapContext(providerUrl: string)

  /** An object found by the search: its cn and orclNetDescString attributes. */
  datatype LdapRecord = LdapRecord(cn: string, orclNetDescString: string)

  datatype LdapError =
    | ConnectFailed // AppException: failed to connect any LDAP Server
    | QueryFailed   // AppException: failed to query TnsEntryList from LDAP Server

  /** The PROVIDER_URL values getCtx tries, in order. */
  function Endpoints(providerUrls: string): (r: seq<string>)
    ensures |r| == |ProviderUrlList(providerUrls)|
    ensures forall i :: 0 <= i < |r| ==> r[i] == "ldap://" + ProviderUrlList(providerUrls)[i]
  {
    var urls := ProviderUrlList(providerUrls);
    seq(|urls|, i requires 0 <= i < |urls| => "ldap://" + urls[i])
  }

  /** The index of the first endpoint that accepts a connection. */
  function FirstConnectable(endpoints: seq<string>, connect: string -> bool): (r: Option<nat>)
    ensures r.Some? ==>
      && r.value < |endpoints| && connect(endpoints[r.value])
      && (forall j :: 0 <= j < r.value ==> !connect(endpoints[j]))
    ensures r.None? ==> forall j :: 0 <= j < |endpoints| ==> !connect(endpoints[j])
  {
    if endpoints == [] then None
    else if connect(endpoints[0]) then Some(0)
    else
      match FirstConnectable(endpoints[1..], connect)
      case None => None
      case Some(k) => Some(k + 1)
  }

  /** The context getCtx leaves in mCtx. */
  function Connect(ctx: Option<LdapContext>, providerUrls: string, connect: string -> bool): Option<LdapContext> {
    if ctx.Some? then ctx
    else
      var endpoints := Endpoints(providerUrls);
      match FirstConnectable(endpoints, connect)
      case Some(k) => Some(LdapContext(endpoints[k]))
      case None => None
  }

  /** The endpoints getCtx tries a connection to. */
  function Attempts(ctx: Option<LdapContext>, providerUrls: string, connect: string -> bool): seq<string> {
    if ctx.Some? then []
    else
      var endpoints := Endpoints(providerUrls);
      match FirstConnectable(endpoints, connect)
      case Some(k) => endpoints[..k + 1]
      case None => endpoints
  }

  /** getCtx connects to the k-th endpoint when it is the first that accepts. */
  lemma ConnectAt(providerUrls: string, connect: string -> bool, k: nat)
    requires k < |Endpoints(providerUrls)| && connect(Endpoints(providerUrls)[k])
    requires forall j :: 0 <= j < k ==> !connect(Endpoints(providerUrls)[j])
    ensures Connect(None, providerUrls, connect) == Some(LdapContext(Endpoints(providerUrls)[k]))
    ensures Attempts(None, providerUrls, connect) == Endpoints(providerUrls)[..k + 1]
  {
    var r := FirstConnectable(Endpoints(providerUrls), connect);
    assert r == Some(k);
  }

  /** getCtx keeps nothing when no endpoint accepts. */
  lemma ConnectNone(providerUrls: string, connect: string -> bool)
    requires forall j :: 0 <= j < |Endpoints(providerUrls)| ==> !connect(Endpoints(providerUrls)[j])
    ensures Connect(None, providerUrls, connect) == None
    ensures Attempts(None, providerUrls, connect) == Endpoints(providerUrls)
  {
    var r := FirstConnectable(Endpoints(providerUrls), connect);
    assert r.None?;
  }

  /**
   * Failover: getCtx tries the endpoints in order and stops at the first one
   * that connects, which is the one it keeps; when none connects it has
   * tried them all and keeps nothing.
   */
  lemma ConnectFailover(providerUrls: string, connect: string -> bool)
    ensures var endpoints, tried := Endpoints(providerUrls), Attempts(None, providerUrls, connect);
      && tried == endpoints[..|tried|]
      && (forall j :: 0 <= j < |tried| - 1 ==> !connect(tried[j]))
      && (Connect(None, providerUrls, connect).Some? <==> exists j :: 0 <= j < |endpoints| && connect(endpoints[j]))
      && (Connect(None, providerUrls, connect).Some? ==>
            tried != [] && connect(tried[|tried| - 1])
            && Connect(None, providerUrls, connect) == Some(LdapContext(tried[|tried| - 1])))
      && (Connect(None, providerUrls, connect).None? ==> tried == endpoints)
  {
    var endpoints := Endpoints(providerUrls);
    match FirstConnectable(endpoints, connect)
    case Some(k) =>
      assert endpoints[..k + 1][k] == endpoints[k];
    case None =>
      assert endpoints[..|endpoints|] == endpoints;
  }

  // ---------------------------------------------------------------------
  // queryTnsEntryList
  // ---------------------------------------------------------------------

  /** filterCnList.contains(cn.toUpperCase()) */
  predicate IsWanted(rec: LdapRecord, filterCnList: seq<string>) {
    ToUpper(rec.cn) in filterCnList
  }

  function EntryOf(rec: LdapRecord): TnsEntry {
    NewTnsEntry(rec.cn, rec.orclNetDescString)
  }

  /** The images under f of the elements of s that keep accepts, in order. */
  function FilterMap<T, U>(s: seq<T>, keep: T -> bool, f: T -> U): seq<U> {
    if s == [] then []
    else
      var last := s[|s| - 1];
      FilterMap(s[..|s| - 1], keep, f) + (if keep(last) then [f(last)] else [])
  }

  lemma {:induction false} FilterMapIff<T, U>(s: seq<T>, keep: T -> bool, f: T -> U, x: U)
    ensures x in FilterMap(s, keep, f) <==> exists i :: 0 <= i < |s| && keep(s[i]) && x == f(s[i])
  {
    if s != [] {
      var n := |s| - 1;
      var u := s[..n];
      FilterMapIff(u, keep, f, x);
      if exists i :: 0 <= i < n && keep(s[i]) && x == f(s[i]) {
        var i :| 0 <= i < n && keep(s[i]) && x == f(s[i]);
        assert s[i] == u[i];
      }
      if exists i :: 0 <= i < n && keep(u[i]) && x == f(u[i]) {
        var i :| 0 <= i < n && keep(u[i]) && x == f(u[i]);
        assert s[i] == u[i];
      }
    }
  }

  /** The entries the search loop collects from records, in the order found. */
  function Matches(records: seq<LdapRecord>, filterCnList: seq<string>): seq<TnsEntry> {
    FilterMap(records, rec => IsWanted(rec, filterCnList), EntryOf)
  }

  /** A record gives an entry exactly when its upper-cased cn is in the filter. */
  lemma MatchesIff(records: seq<LdapRecord>, filterCnList: seq<string>, x: TnsEntry)
    ensures x in Matches(records, filterCnList) <==>
      exists i :: 0 <= i < |records| && IsWanted(records[i], filterCnList) && x == EntryOf(records[i])
  {
    FilterMapIff(records, rec => IsWanted(rec, filterCnList), EntryOf, x);
  }

  /** A filter that makes queryTnsEntryList search: present and non-empty. */
  predicate Searches(filterCnList: Option<seq<string>>) {
    filterCnList.Some? && |filterCnList.value| > 0
  }

  /** What queryTnsEntryList returns once getCtx has left ctx in mCtx. */
  function QueryResult(ctx: Option<LdapContext>, adminContext: string, filterCnList: seq<string>,
                       search: (LdapContext, string) -> Option<seq<LdapRecord>>): Result<seq<TnsEntry>, LdapError> {
    if ctx.None? then Err(ConnectFailed)
    else
      match search(ctx.value, adminContext)
      case None => Err(QueryFailed)
      case Some(records) => Ok(SortBy(Matches(records, filterCnList), NameOf))
  }

  class LdapHandler {
    const adminContext: string
    const providerUrls: string
    /** mCtx: the context of the first connection that succeeded. */
    var ctx: Option<LdapContext>
    /** The PROVIDER_URL values this handler has tried a connection to, in order. */
    ghost var attempted: seq<string>
    /** The contexts this handler has run a search on, in order. */
    ghost var searched: seq<LdapContext>

    constructor (providerUrls: string, adminContext: string)
      ensures this.providerUrls == providerUrls && this.adminContext == adminContext
      ensures ctx.None? && attempted == [] && searched == []
    {
      this.providerUrls := providerUrls;
      this.adminContext := adminContext;
      ctx := None;
      attempted := [];
      searched := [];
    }

    /** getCtx: the cached context, or a connection to the first endpoint that accepts one. */
    method GetCtx(connect: string -> bool) returns (r: Result<LdapContext, LdapError>)
      modifies this`ctx, this`attempted
      ensures ctx == Connect(old(ctx), providerUrls, connect)
      ensures attempted == old(attempted) + Attempts(old(ctx), providerUrls, connect)
      ensures ctx.Some? ==> r == Ok(ctx.value)
      ensures ctx.None? ==> r == Err(ConnectFailed)
    {
      if ctx.None? {
        var urls := ProviderUrlList(providerUrls);
        ghost var endpoints := Endpoints(providerUrls);
        ghost var tried: seq<string> := [];
        var i := 0;
        while i < |urls|
          invariant 0 <= i <= |urls|
          invariant forall j :: 0 <= j < i ==> !connect(endpoints[j])
          invariant tried == endpoints[..i]
        {
          var url := "ldap://" + urls[i];
          assert endpoints[..i + 1] == tried + [url];
          tried := tried + [url];
          if connect(url) {
            ConnectAt(providerUrls, connect, i);
            attempted := attempted + tried;
            ctx := Some(LdapContext(url));
            return Ok(ctx.value);
          }
          i := i + 1;
        }
        assert tried == endpoints;
        ConnectNone(providerUrls, connect);
        attempted := attempted + tried;
        return Err(ConnectFailed);
      }
      return Ok(ctx.value);
    }

    /**
     * queryTnsEntryList: the entries of the wanted net services, sorted by
     * name. Without a filter it neither connects nor searches.
     */
    method QueryTnsEntryList(filterCnList: Option<seq<string>>, connect: string -> bool,
                             search: (LdapContext, string) -> Option<seq<LdapRecord>>)
      returns (r: Result<seq<TnsEntry>, LdapError>)
      modifies this`ctx, this`attempted, this`searched
      ensures !Searches(filterCnList) ==>
        r == Ok([]) && ctx == old(ctx) && attempted == old(attempted) && searched == old(searched)
      ensures Searches(filterCnList) ==>
        && ctx == Connect(old(ctx), providerUrls, connect)
        && attempted == old(attempted) + Attempts(old(ctx), providerUrls, connect)
        && searched == old(searched) + (if ctx.Some? then [ctx.value] else [])
        && r == QueryResult(ctx, adminContext, filterCnList.value, search)
      ensures r.Ok? ==> SortedBy(r.value, NameOf)
    {
      var result: seq<TnsEntry> := [];
      if Searches(filterCnList) {
        var c := GetCtx(connect);
        if c.Err? {
          return Err(c.error);
        }
        var found := search(c.value, adminContext);
        searched := searched + [c.value];
        if found.None? {
          return Err(QueryFailed);
        }
        var records := found.value;
        for i := 0 to |records|
          invariant result == Matches(records[..i], filterCnList.value)
        {
          var rec := records[i];
          assert records[..i + 1][..i] == records[..i];
          if ToUpper(rec.cn) in filterCnList.value {
            result := result + [NewTnsEntry(rec.cn, rec.orclNetDescString)];
          }
        }
        assert records[..|records|] == records;
      }
      if |result| > 0 {
        var a := new TnsEntry[|result|](i requires 0 <= i < |result| => result[i]);
        assert a[..] == result;
        SortBySorted(result, NameOf);
        SortInPlace(a, NameOf);
        result := a[..];
      }
      return Ok(result);
    }
  }
}
