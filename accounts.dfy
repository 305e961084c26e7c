/**
 * Accounts as the server sees them through `root.get_descendants()`, the
 * account-type names of `get_account_type_name`, and account resolution: the
 * two-pass first-hit scan of `find_account` and the variant that the read tools
 * (`get_account_balance`, `get_transactions`, `get_account_info`) repeat inline.
 *
 * An account list is the pre-order descendant list of the root account; an
 * account is identified by its index in that list.
 */
module Accounts {
  import opened Wrappers
  import opened Text

  /** A currency or other commodity: its mnemonic and its smallest fraction (100 for cents). */
  datatype Commodity = Commodity(mnemonic: string, fraction: int)

  /**
   * One descendant of the root account. `parent` is the index of the parent
   * account in the same list, `None` for a top-level account (child of the root).
   */
  datatype Account = Account(
    fullName: string,
    name: string,
    typeCode: int,
    commodity: Option<Commodity>,
    description: string,
    code: string,
    parent: Option<nat>)

  // ---------------------------------------------------------------------------
  // Account type names
  // ---------------------------------------------------------------------------

  /** The names of the type codes 0 to 14, in code order. */
  const TYPE_NAMES: seq<string> := [
    "BANK", "CASH", "ASSET", "CREDIT", "LIABILITY", "STOCK", "MUTUAL", "CURRENCY",
    "INCOME", "EXPENSE", "EQUITY", "RECEIVABLE", "PAYABLE", "ROOT", "TRADING"]

  /** `get_account_type_name`: the table entry, or `UNKNOWN(<code>)` for any other code. */
  function TypeName(code: int): string {
    if 0 <= code < |TYPE_NAMES| then TYPE_NAMES[code] else "UNKNOWN(" + IntToString(code) + ")"
  }

  lemma TypeNamesDistinct()
    ensures |TYPE_NAMES| == 15
    ensures forall i, j :: 0 <= i < j < |TYPE_NAMES| ==> TYPE_NAMES[i] != TYPE_NAMES[j]
    ensures forall i :: 0 <= i < |TYPE_NAMES| ==> |TYPE_NAMES[i]| > 0 && TYPE_NAMES[i][0] != 'U'
  {
  }

  /**
   * The lookup is total, names exactly the codes 0..14 from the table, and no two
   * codes, known or not, get the same name.
   */
  lemma TypeNameInjective(a: int, b: int)
    ensures TypeName(a) == TypeName(b) ==> a == b
  {
    TypeNamesDistinct();
    if a != b {
      if 0 <= a < 15 && 0 <= b < 15 {
        if a < b { assert TYPE_NAMES[a] != TYPE_NAMES[b]; } else { assert TYPE_NAMES[b] != TYPE_NAMES[a]; }
      } else if 0 <= a < 15 {
        assert TypeName(b)[0] == 'U' != TypeName(a)[0];
      } else if 0 <= b < 15 {
        assert TypeName(a)[0] == 'U' != TypeName(b)[0];
      } else {
        IntToStringRoundTrip(a);
        IntToStringRoundTrip(b);
        assert TypeName(a)[8..|TypeName(a)| - 1] == IntToString(a);
        assert TypeName(b)[8..|TypeName(b)| - 1] == IntToString(b);
      }
    }
  }

  /** A name starts with `UNKNOWN(` exactly when the code is outside 0..14. */
  lemma TypeNameUnknown(code: int)
    ensures "UNKNOWN(" <= TypeName(code) <==> !(0 <= code < 15)
    ensures !(0 <= code < 15) ==> ParseInt(TypeName(code)[8..|TypeName(code)| - 1]) == code
  {
    TypeNamesDistinct();
    if !(0 <= code < 15) {
      assert TypeName(code)[8..|TypeName(code)| - 1] == IntToString(code);
      IntToStringRoundTrip(code);
    } else {
      assert TypeName(code)[0] != 'U';
    }
  }

  // ---------------------------------------------------------------------------
  // Match passes
  // ---------------------------------------------------------------------------

  /**
   * The three tests the resolvers apply to a full name:
   * `find_account`'s first pass (exact, or ends with "." + query), the inline
   * first pass of the read tools (exact, or ends with query), and the
   * case-insensitive substring pass both fall back to.
   */
  datatype Pass = ExactOrDottedSuffix | ExactOrSuffix | Substring

  predicate Matches(pass: Pass, fullName: string, query: string) {
    match pass
    case ExactOrDottedSuffix => fullName == query || EndsWith(fullName, "." + query)
    case ExactOrSuffix => fullName == query || EndsWith(fullName, query)
    case Substring => Contains(Lower(fullName), Lower(query))
  }

  /** No account before index `k` passes. */
  predicate NoneBefore(accounts: seq<Account>, query: string, pass: Pass, k: int)
    requires k <= |accounts|
  {
    forall j :: 0 <= j < k ==> !Matches(pass, accounts[j].fullName, query)
  }

  /** The first index from `i` on whose account passes. */
  function FirstFrom(accounts: seq<Account>, query: string, pass: Pass, i: nat): Option<nat>
    decreases |accounts| - i
  {
    if i >= |accounts| then None
    else if Matches(pass, accounts[i].fullName, query) then Some(i)
    else FirstFrom(accounts, query, pass, i + 1)
  }

  /** The first index whose account passes: one `for acc in root.get_descendants()` pass. */
  function FirstWhere(accounts: seq<Account>, query: string, pass: Pass): Option<nat> {
    FirstFrom(accounts, query, pass, 0)
  }

  lemma {:induction false} FirstFromSpec(accounts: seq<Account>, query: string, pass: Pass, i: nat)
    requires i <= |accounts| && NoneBefore(accounts, query, pass, i)
    ensures var r := FirstFrom(accounts, query, pass, i);
      && (r.Some? ==> r.value < |accounts| && Matches(pass, accounts[r.value].fullName, query)
                      && NoneBefore(accounts, query, pass, r.value))
      && (r.None? <==> NoneBefore(accounts, query, pass, |accounts|))
    decreases |accounts| - i
  {
    if i < |accounts| && !Matches(pass, accounts[i].fullName, query) {
      FirstFromSpec(accounts, query, pass, i + 1);
    }
  }

  /** A pass yields the first passing account in enumeration order, or None if none passes. */
  lemma FirstWhereSpec(accounts: seq<Account>, query: string, pass: Pass)
    ensures var r := FirstWhere(accounts, query, pass);
      && (r.Some? ==> r.value < |accounts| && Matches(pass, accounts[r.value].fullName, query)
                      && NoneBefore(accounts, query, pass, r.value))
      && (r.None? <==> NoneBefore(accounts, query, pass, |accounts|))
  {
    FirstFromSpec(accounts, query, pass, 0);
  }

  /** The result of a resolver whose first pass is `first`: that pass, else the substring pass. */
  function Resolve(accounts: seq<Account>, query: string, first: Pass): (r: Option<nat>)
    ensures r.Some? ==> r.value < |accounts|
  {
    FirstWhereSpec(accounts, query, first);
    FirstWhereSpec(accounts, query, Substring);
    match FirstWhere(accounts, query, first)
    case Some(k) => Some(k)
    case None => FirstWhere(accounts, query, Substring)
  }

  // ---------------------------------------------------------------------------
  // The scans
  // ---------------------------------------------------------------------------

  /** One pass over the descendants, stopping at the first hit. */
  method Scan(accounts: seq<Account>, query: string, pass: Pass) returns (r: Option<nat>)
    ensures r == FirstWhere(accounts, query, pass)
  {
    var i := 0;
    while i < |accounts|
      invariant 0 <= i <= |accounts|
      invariant FirstFrom(accounts, query, pass, i) == FirstWhere(accounts, query, pass)
    {
      if Matches(pass, accounts[i].fullName, query) {
        return Some(i);
      }
      i := i + 1;
    }
    return None;
  }

  /** `find_account(root, account_name)`. */
  method FindAccount(accounts: seq<Account>, query: string) returns (r: Option<nat>)
    ensures r == Resolve(accounts, query, ExactOrDottedSuffix)
  {
    r := Scan(accounts, query, ExactOrDottedSuffix);
    if r.None? {
      r := Scan(accounts, query, Substring);
    }
  }

  /** The resolver written out inline in the three read tools. */
  method FindAccountInline(accounts: seq<Account>, query: string) returns (r: Option<nat>)
    ensures r == Resolve(accounts, query, ExactOrSuffix)
  {
    r := Scan(accounts, query, ExactOrSuffix);
    if r.None? {
      r := Scan(accounts, query, Substring);
    }
  }

  // ---------------------------------------------------------------------------
  // Properties of resolution
  // ---------------------------------------------------------------------------

  /**
   * What a resolver returns: the first account passing its first pass; only when
   * no account passes it, the first case-insensitive substring match; else None.
   */
  lemma ResolveSpec(accounts: seq<Account>, query: string, first: Pass)
    ensures var r := Resolve(accounts, query, first);
      && (r.Some? ==>
            && r.value < |accounts|
            && ((Matches(first, accounts[r.value].fullName, query) && NoneBefore(accounts, query, first, r.value))
                || (NoneBefore(accounts, query, first, |accounts|)
                    && Matches(Substring, accounts[r.value].fullName, query)
                    && NoneBefore(accounts, query, Substring, r.value))))
      && (r.None? <==> NoneBefore(accounts, query, first, |accounts|) && NoneBefore(accounts, query, Substring, |accounts|))
  {
    FirstWhereSpec(accounts, query, first);
    FirstWhereSpec(accounts, query, Substring);
  }

  /** Both first passes accept only names that also contain the query case-insensitively. */
  lemma FirstPassImpliesSubstring(pass: Pass, fullName: string, query: string)
    requires Matches(pass, fullName, query)
    ensures Matches(Substring, fullName, query)
  {
    match pass
    case Substring =>
    case ExactOrSuffix =>
      if fullName != query { EndsWithContains(fullName, query); } else { assert query <= fullName; }
      ContainsLower(fullName, query);
    case ExactOrDottedSuffix =>
      if fullName != query {
        EndsWithTail(fullName, ".", query);
        EndsWithContains(fullName, query);
      } else {
        assert query <= fullName;
      }
      ContainsLower(fullName, query);
  }

  /** Resolution fails exactly when no full name contains the query, ignoring case. */
  lemma ResolveNoneIffNoSubstring(accounts: seq<Account>, query: string, first: Pass)
    ensures Resolve(accounts, query, first).None? <==> NoneBefore(accounts, query, Substring, |accounts|)
  {
    ResolveSpec(accounts, query, first);
    if NoneBefore(accounts, query, Substring, |accounts|) {
      forall j | 0 <= j < |accounts| ensures !Matches(first, accounts[j].fullName, query) {
        if Matches(first, accounts[j].fullName, query) {
          FirstPassImpliesSubstring(first, accounts[j].fullName, query);
        }
      }
    }
  }

  /** The inline first pass accepts every name that `find_account`'s first pass accepts. */
  lemma InlinePassAcceptsMore(fullName: string, query: string)
    requires Matches(ExactOrDottedSuffix, fullName, query)
    ensures Matches(ExactOrSuffix, fullName, query)
  {
    if fullName != query { EndsWithTail(fullName, ".", query); }
  }

  /** ... but not conversely: a bare suffix without the dot. */
  lemma InlinePassAcceptsBareSuffix()
    ensures Matches(ExactOrSuffix, "Assets.MyChecking", "Checking")
    ensures !Matches(ExactOrDottedSuffix, "Assets.MyChecking", "Checking")
  {
    assert "Assets.MyChecking"[9..] == "Checking";
    assert "Assets.MyChecking"[8..] == "yChecking";
    assert "Assets.MyChecking"[8] == 'y';
  }

  /**
   * Whenever `find_account`'s first pass hits, the inline first pass hits too, at the
   * same account or an earlier one; so the inline resolver falls back to the
   * substring pass no more often than `find_account` does.
   */
  lemma InlineHitsNoLater(accounts: seq<Account>, query: string)
    requires FirstWhere(accounts, query, ExactOrDottedSuffix).Some?
    ensures FirstWhere(accounts, query, ExactOrSuffix).Some?
    ensures FirstWhere(accounts, query, ExactOrSuffix).value <= FirstWhere(accounts, query, ExactOrDottedSuffix).value
  {
    var k := FirstWhere(accounts, query, ExactOrDottedSuffix).value;
    FirstWhereSpec(accounts, query, ExactOrDottedSuffix);
    FirstWhereSpec(accounts, query, ExactOrSuffix);
    InlinePassAcceptsMore(accounts[k].fullName, query);
  }

  lemma {:induction false} FirstFromAgree(accounts: seq<Account>, query: string, p: Pass, q: Pass, i: nat)
    requires forall j :: 0 <= j < |accounts| ==>
      (Matches(p, accounts[j].fullName, query) <==> Matches(q, accounts[j].fullName, query))
    ensures FirstFrom(accounts, query, p, i) == FirstFrom(accounts, query, q, i)
    decreases |accounts| - i
  {
    if i < |accounts| { FirstFromAgree(accounts, query, p, q, i + 1); }
  }

  /**
   * The two resolvers disagree only through a name that ends with the query
   * without a dot before it: when no account has such a bare suffix they agree.
   */
  lemma ResolversAgree(accounts: seq<Account>, query: string)
    requires forall j :: 0 <= j < |accounts| && Matches(ExactOrSuffix, accounts[j].fullName, query) ==>
      Matches(ExactOrDottedSuffix, accounts[j].fullName, query)
    ensures Resolve(accounts, query, ExactOrDottedSuffix) == Resolve(accounts, query, ExactOrSuffix)
  {
    forall j | 0 <= j < |accounts| && Matches(ExactOrDottedSuffix, accounts[j].fullName, query)
      ensures Matches(ExactOrSuffix, accounts[j].fullName, query)
    {
      InlinePassAcceptsMore(accounts[j].fullName, query);
    }
    FirstFromAgree(accounts, query, ExactOrDottedSuffix, ExactOrSuffix, 0);
  }

  /** With an empty query the inline first pass accepts every account: the first one wins. */
  lemma InlineEmptyQuery(accounts: seq<Account>)
    requires |accounts| > 0
    ensures Resolve(accounts, "", ExactOrSuffix) == Some(0)
  {
    assert EndsWith(accounts[0].fullName, "");
  }

  // ---------------------------------------------------------------------------
  // Worked examples
  // ---------------------------------------------------------------------------

  function Leaf(fullName: string, name: string): Account {
    Account(fullName, name, 0, None, "", "", None)
  }

  /**
   * A suffix hit earlier in the enumeration beats an exact hit later on, since
   * both are tested in the same pass.
   */
  lemma EarlierSuffixBeatsLaterExact()
    ensures Resolve([Leaf("Assets.Checking", "Checking"), Leaf("Checking", "Checking")], "Checking",
                    ExactOrDottedSuffix) == Some(0)
  {
    assert "Assets.Checking"[6..] == "." + "Checking";
  }

  /** The two accounts of the tiering example. */
  function BankAccounts(): seq<Account> {
    [Leaf("Assets.Bank.Checking", "Checking"), Leaf("Assets.Bank.Savings", "Savings")]
  }

  /** Over `Assets.Bank.Checking` and `Assets.Bank.Savings`, `Checking` resolves to the first by suffix. */
  lemma TieringChecking()
    ensures Resolve(BankAccounts(), "Checking", ExactOrDottedSuffix) == Some(0)
  {
    assert "Assets.Bank.Checking"[11..] == "." + "Checking";
  }

  /** `Savings` passes over `Assets.Bank.Checking` and resolves to the second account by suffix. */
  lemma TieringSavings()
    ensures Resolve(BankAccounts(), "Savings", ExactOrDottedSuffix) == Some(1)
  {
    assert "Assets.Bank.Savings"[11..] == "." + "Savings";
    assert "Assets.Bank.Checking"[15] == 'c';
    assert "Assets.Bank.Savings"[14] == 'v';
    assert !EndsWith("Assets.Bank.Checking", "." + "Savings");
  }

  /** `bank` is no full name and no suffix, and falls through to the substring pass, which hits the first account. */
  lemma TieringBank()
    ensures Resolve(BankAccounts(), "bank", ExactOrDottedSuffix) == Some(0)
  {
    assert Lower("bank") == "bank";
    assert Lower("Assets.Bank.Checking")[7..11] == "bank";
    ContainsAt(Lower("Assets.Bank.Checking"), "bank");
    assert OccursAt(Lower("Assets.Bank.Checking"), "bank", 7);
  }

  /** `nonexistent` holds an `x`, which neither full name does in either case, so nothing resolves. */
  lemma TieringNonexistent()
    ensures Resolve(BankAccounts(), "nonexistent", ExactOrDottedSuffix) == None
  {
    assert "nonexistent"[4] == 'x' && UpperChar('x') == 'X';
    assert forall c :: c in "Assets.Bank.Checking" ==> c != 'x' && c != 'X';
    assert forall c :: c in "Assets.Bank.Savings" ==> c != 'x' && c != 'X';
    MissingLetterResolvesNone(BankAccounts(), "nonexistent", 4, ExactOrDottedSuffix);
  }

  /** A letter of the query that no full name holds, in either case, rules out every match. */
  lemma MissingLetterResolvesNone(accounts: seq<Account>, query: string, k: nat, first: Pass)
    requires k < |query| && 'a' <= query[k] <= 'z'
    requires forall j :: 0 <= j < |accounts| ==>
      query[k] !in accounts[j].fullName && UpperChar(query[k]) !in accounts[j].fullName
    ensures Resolve(accounts, query, first) == None
  {
    forall j | 0 <= j < |accounts| ensures !Matches(Substring, accounts[j].fullName, query) {
      NoSharedChar(accounts[j].fullName, query, k);
    }
    ResolveNoneIffNoSubstring(accounts, query, first);
  }

  lemma NoSharedChar(fullName: string, query: string, k: nat)
    requires k < |query| && 'a' <= query[k] <= 'z'
    requires query[k] !in fullName && UpperChar(query[k]) !in fullName
    ensures !Matches(Substring, fullName, query)
  {
    var low := Lower(fullName);
    if Contains(low, Lower(query)) {
      ContainsChars(low, Lower(query), Lower(query)[k]);
    }
  }
}
