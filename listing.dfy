/**
 * The listing side of the read tools: the sorted `"<full name> (<TYPE>)"` lines
 * of `list_accounts` and `search_accounts`, and the `splits[-limit:]` window of
 * `get_transactions`.
 */
module Listing {
  import opened Wrappers
  import opened Text
  import opened Order
  import opened Accounts

  /** One output line: `f"{full_name} ({type_name})"`. */
  function Entry(a: Account): string {
    a.fullName + " (" + TypeName(a.typeCode) + ")"
  }

  /** The line of every descendant, in enumeration order. */
  function Entries(accounts: seq<Account>): seq<string> {
    seq(|accounts|, i requires 0 <= i < |accounts| => Entry(accounts[i]))
  }

  /** The lines of `list_accounts`: one per descendant, sorted. */
  method AccountLines(accounts: seq<Account>) returns (lines: seq<string>)
    ensures lines == Sort(Entries(accounts))
    ensures Sorted(lines) && multiset(lines) == multiset(Entries(accounts)) && |lines| == |accounts|
  {
    var entries: seq<string> := [];
    for i := 0 to |accounts|
      invariant |entries| == i
      invariant forall k :: 0 <= k < i ==> entries[k] == Entry(accounts[k])
    {
      entries := entries + [Entry(accounts[i])];
    }
    assert entries == Entries(accounts);
    lines := Sort(entries);
    assert |lines| == |multiset(lines)| == |multiset(entries)| == |entries|;
  }

  lemma EntriesAppend(a: seq<Account>, b: seq<Account>)
    ensures Entries(a + b) == Entries(a) + Entries(b)
  {
  }

  /** Accounts that are a permutation of each other give the same entries up to order. */
  lemma {:induction false} EntriesPermute(a: seq<Account>, b: seq<Account>)
    requires multiset(a) == multiset(b)
    ensures multiset(Entries(a)) == multiset(Entries(b))
    decreases |a|
  {
    assert |a| == |multiset(a)| == |multiset(b)| == |b|;
    if |a| > 0 {
      assert a[0] in multiset(b);
      var i :| 0 <= i < |b| && b[i] == a[0];
      var rest := b[..i] + b[i + 1..];
      assert b == b[..i] + [b[i]] + b[i + 1..];
      assert a == [a[0]] + a[1..];
      assert multiset(b) == multiset(b[..i]) + multiset{b[i]} + multiset(b[i + 1..]);
      assert multiset(rest) == multiset(b[..i]) + multiset(b[i + 1..]);
      assert multiset(rest) == multiset(b) - multiset{b[i]};
      assert multiset(a[1..]) == multiset(a) - multiset{a[0]};
      EntriesPermute(a[1..], rest);
      EntriesAppend([a[0]], a[1..]);
      EntriesAppend(b[..i] + [b[i]], b[i + 1..]);
      EntriesAppend(b[..i], [b[i]]);
      EntriesAppend(b[..i], b[i + 1..]);
    }
  }

  /**
   * The listing does not depend on the order in which the descendants are
   * enumerated: any permutation of the accounts lists the same lines.
   */
  lemma ListingIgnoresOrder(a: seq<Account>, b: seq<Account>)
    requires multiset(a) == multiset(b)
    ensures Sort(Entries(a)) == Sort(Entries(b))
  {
    EntriesPermute(a, b);
    SortedUnique(Sort(Entries(a)), Sort(Entries(b)));
  }

  // ---------------------------------------------------------------------------
  // search_accounts
  // ---------------------------------------------------------------------------

  /**
   * The lines `line(a)` of the accounts `a` whose full name contains the query,
   * ignoring case, in enumeration order.
   */
  function Collect(accounts: seq<Account>, query: string, line: Account -> string): seq<string>
    decreases |accounts|
  {
    if |accounts| == 0 then []
    else
      var last := accounts[|accounts| - 1];
      Collect(accounts[..|accounts| - 1], query, line)
        + (if Matches(Substring, last.fullName, query) then [line(last)] else [])
  }

  lemma {:induction false} CollectMember(accounts: seq<Account>, query: string, line: Account -> string, e: string)
    ensures e in Collect(accounts, query, line) <==>
      exists j :: 0 <= j < |accounts| && Matches(Substring, accounts[j].fullName, query) && line(accounts[j]) == e
    decreases |accounts|
  {
    if |accounts| > 0 {
      var init := accounts[..|accounts| - 1];
      CollectMember(init, query, line, e);
      assert forall j :: 0 <= j < |init| ==> init[j] == accounts[j];
    }
  }

  /** The lines `search_accounts` collects: the entries of the matching accounts, in enumeration order. */
  function MatchEntries(accounts: seq<Account>, query: string): seq<string> {
    Collect(accounts, query, Entry)
  }

  /** A line is collected exactly when it is the entry of some matching account. */
  lemma MatchEntriesMember(accounts: seq<Account>, query: string, e: string)
    ensures e in MatchEntries(accounts, query) <==>
      exists j :: 0 <= j < |accounts| && Matches(Substring, accounts[j].fullName, query) && Entry(accounts[j]) == e
  {
    CollectMember(accounts, query, Entry, e);
  }

  /** Nothing is collected exactly when no account matches. */
  lemma MatchEntriesEmpty(accounts: seq<Account>, query: string)
    ensures |MatchEntries(accounts, query)| == 0 <==> NoneBefore(accounts, query, Substring, |accounts|)
  {
    var m := MatchEntries(accounts, query);
    if |m| > 0 {
      MatchEntriesMember(accounts, query, m[0]);
    }
    if !NoneBefore(accounts, query, Substring, |accounts|) {
      var j :| 0 <= j < |accounts| && Matches(Substring, accounts[j].fullName, query);
      MatchEntriesMember(accounts, query, Entry(accounts[j]));
    }
  }

  datatype SearchResult = NoMatches | Found(count: nat, lines: seq<string>)

  /**
   * `search_accounts`: the no-match answer when no full name contains the query;
   * otherwise the count and the sorted lines of exactly the matching accounts.
   */
  method SearchLines(accounts: seq<Account>, query: string) returns (r: SearchResult)
    ensures r.NoMatches? <==> NoneBefore(accounts, query, Substring, |accounts|)
    ensures r.Found? ==> r.count == |r.lines| && Sorted(r.lines)
    ensures r.Found? ==> r.lines == Sort(MatchEntries(accounts, query))
    ensures forall e :: r.Found? ==> (e in r.lines <==>
      exists j :: 0 <= j < |accounts| && Matches(Substring, accounts[j].fullName, query) && Entry(accounts[j]) == e)
  {
    var matches: seq<string> := [];
    for i := 0 to |accounts|
      invariant matches == MatchEntries(accounts[..i], query)
    {
      assert accounts[..i + 1][..i] == accounts[..i];
      if Matches(Substring, accounts[i].fullName, query) {
        matches := matches + [Entry(accounts[i])];
      }
    }
    assert accounts[..|accounts|] == accounts;
    MatchEntriesEmpty(accounts, query);
    if |matches| == 0 {
      return NoMatches;
    }
    var lines := Sort(matches);
    assert |lines| == |multiset(lines)| == |multiset(matches)| == |matches|;
    r := Found(|lines|, lines);
    forall e ensures e in lines <==> e in matches {
      assert e in lines <==> e in multiset(lines);
      assert e in matches <==> e in multiset(matches);
    }
    forall e ensures e in matches <==>
      exists j :: 0 <= j < |accounts| && Matches(Substring, accounts[j].fullName, query) && Entry(accounts[j]) == e
    {
      MatchEntriesMember(accounts, query, e);
    }
  }

  /** An empty query is contained in every name: searching for it lists every account. */
  lemma {:induction false} EmptySearchListsAll(accounts: seq<Account>)
    ensures MatchEntries(accounts, "") == Entries(accounts)
    decreases |accounts|
  {
    if |accounts| > 0 {
      var init := accounts[..|accounts| - 1];
      EmptySearchListsAll(init);
      assert Lower("") == "";
      assert Matches(Substring, accounts[|accounts| - 1].fullName, "");
      assert accounts == init + [accounts[|accounts| - 1]];
      EntriesAppend(init, [accounts[|accounts| - 1]]);
    }
  }

  /** Whatever a resolver finds for a query, searching for that query lists it. */
  lemma ResolvedIsListed(accounts: seq<Account>, query: string, first: Pass)
    requires Resolve(accounts, query, first).Some?
    ensures Resolve(accounts, query, first).value < |accounts|
    ensures Entry(accounts[Resolve(accounts, query, first).value]) in MatchEntries(accounts, query)
  {
    ResolveSpec(accounts, query, first);
    var k := Resolve(accounts, query, first).value;
    if Matches(first, accounts[k].fullName, query) {
      FirstPassImpliesSubstring(first, accounts[k].fullName, query);
    }
    MatchEntriesMember(accounts, query, Entry(accounts[k]));
  }

  // ---------------------------------------------------------------------------
  // get_transactions: splits[-limit:]
  // ---------------------------------------------------------------------------

  function Min(a: int, b: int): int { if a < b then a else b }

  function Max(a: int, b: int): int { if a < b then b else a }

  /** `s[start:]` under Python's slice rules: a negative start counts from the end; both clamp. */
  function SliceFrom<T>(s: seq<T>, start: int): seq<T> {
    if start < 0 then s[Max(0, |s| + start)..] else s[Min(start, |s|)..]
  }

  /**
   * `splits[-limit:]`: a suffix of the splits, in their order; for a positive limit
   * the last `limit` of them (all if fewer), for `limit == 0` all of them (since
   * `-0 == 0`), and for a negative limit all but the first `-limit`.
   */
  function LastN<T>(s: seq<T>, limit: int): (r: seq<T>)
    ensures |r| <= |s| && r == s[|s| - |r|..]
    ensures limit > 0 ==> |r| == Min(limit, |s|)
    ensures limit == 0 ==> r == s
    ensures limit < 0 ==> |r| == |s| - Min(-limit, |s|)
  {
    SliceFrom(s, -limit)
  }
}
