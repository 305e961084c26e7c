/**
 * The ledger records the server builds and the decision logic of
 * `add_transaction`: the fixed-order validation pipeline and the two-split
 * transfer it constructs once every check has passed.
 */
module Ledger {
  import opened Wrappers
  import opened Accounts

  /** A GnuCash numeric: numerator over denominator, never a binary float. */
  datatype Numeric = Numeric(num: int, denom: int)

  /** A point in time as the store records it. */
  datatype Stamp = Stamp(seconds: int)

  /** One leg of a transaction, against the account with index `account`. */
  datatype Split = Split(account: nat, value: Numeric, amount: Numeric, memo: Option<string>)

  datatype Transaction = Transaction(
    currency: Commodity,
    description: string,
    entered: Stamp,
    posted: Stamp,
    splits: seq<Split>)

  /** The open book: the root's descendants and the transactions recorded so far. */
  datatype Book = Book(accounts: seq<Account>, transactions: seq<Transaction>)

  /** The rejections of `add_transaction`, in the order it checks for them. */
  datatype TxError =
    | NoSession
    | InvalidAmount
    | SourceNotFound(name: string)
    | DestinationNotFound(name: string)
    | MissingCommodity
    | CurrencyMismatch(source: string, destination: string)
    | InvalidDate

  function SumNumerators(splits: seq<Split>): int
    decreases |splits|
  {
    if |splits| == 0 then 0 else SumNumerators(splits[..|splits| - 1]) + splits[|splits| - 1].value.num
  }

  /**
   * The double-entry balance law: at least two splits, every value over the
   * fraction of the transaction's currency, and the numerators summing to zero.
   */
  predicate Balanced(tx: Transaction) {
    && |tx.splits| >= 2
    && (forall i :: 0 <= i < |tx.splits| ==> tx.splits[i].value.denom == tx.currency.fraction)
    && SumNumerators(tx.splits) == 0
  }

  // ---------------------------------------------------------------------------
  // Amount scaling: round(amount * fraction)
  // ---------------------------------------------------------------------------

  /** Python's `round()` to an integer: the nearest integer, ties to the even one. */
  function RoundHalfEven(x: real): (n: int)
    ensures -0.5 <= n as real - x <= 0.5
    ensures (n as real - x == 0.5 || x - n as real == 0.5) ==> n % 2 == 0
  {
    var f := x.Floor;
    var d := x - f as real;
    if d < 0.5 then f
    else if d > 0.5 then f + 1
    else if f % 2 == 0 then f
    else f + 1
  }

  /** The integer numerator of `amount` in units of `1 / fraction`. */
  function Scale(amount: real, fraction: int): int {
    RoundHalfEven(amount * fraction as real)
  }

  /** An amount that is a whole number of `1 / fraction` units scales exactly and converts back. */
  lemma ScaleExact(amount: real, fraction: int, n: int)
    requires fraction > 0 && amount * fraction as real == n as real
    ensures Scale(amount, fraction) == n
    ensures Scale(amount, fraction) as real / fraction as real == amount
  {
    assert (n as real).Floor == n;
  }

  /** 12.34 in a currency of fraction 100 gives the numerators -1234 and 1234 over 100. */
  lemma ScaleExample()
    ensures Scale(12.34, 100) == 1234
    ensures 1234.0 / 100.0 == 12.34
  {
    ScaleExact(12.34, 100, 1234);
  }

  /**
   * The amount check only asks for `amount > 0`: an amount below half a unit
   * passes it and still scales to a zero numerator.
   */
  lemma PositiveAmountMayScaleToZero()
    ensures 0.004 > 0.0 && Scale(0.004, 100) == 0
  {
    assert (0.004 * 100 as real).Floor == 0;
  }

  // ---------------------------------------------------------------------------
  // Building the transfer
  // ---------------------------------------------------------------------------

  /** `tx_date`: the parsed date when one is given and non-empty (`if date:`), else now. */
  function PostedDate(date: Option<string>, parse: string -> Option<Stamp>, now: Stamp): Option<Stamp> {
    if date.Some? && date.value != "" then parse(date.value) else Some(now)
  }

  /** `if memo: split.SetMemo(memo)`: a memo is set only when one is given and non-empty. */
  function SplitMemo(memo: Option<string>): Option<string> {
    if memo.Some? && memo.value != "" then memo else None
  }

  /** The transaction of a transfer of `n` units of `currency` from `source` to `dest`. */
  function Transfer(source: nat, dest: nat, currency: Commodity, n: int, description: string,
                    posted: Stamp, entered: Stamp, memo: Option<string>): Transaction
  {
    var out := Numeric(-n, currency.fraction);
    var into := Numeric(n, currency.fraction);
    Transaction(currency, description, entered, posted,
      [Split(source, out, out, SplitMemo(memo)), Split(dest, into, into, SplitMemo(memo))])
  }

  /** A transfer's two legs cancel: the transaction is balanced by construction. */
  lemma TransferBalanced(source: nat, dest: nat, currency: Commodity, n: int, description: string,
                         posted: Stamp, entered: Stamp, memo: Option<string>)
    ensures Balanced(Transfer(source, dest, currency, n, description, posted, entered, memo))
  {
    var splits := Transfer(source, dest, currency, n, description, posted, entered, memo).splits;
    assert splits[..1] == [splits[0]] && splits[..1][..0] == [];
    assert SumNumerators(splits[..1]) == SumNumerators(splits[..1][..0]) + splits[0].value.num == -n;
    assert SumNumerators(splits) == SumNumerators(splits[..1]) + splits[1].value.num;
  }

  /**
   * `add_transaction`'s decision, over the open book (`None` when no file is
   * open): the first failing check, or the transaction it builds.
   */
  function Plan(book: Option<Book>, from: string, to: string, amount: real, description: string,
                date: Option<string>, memo: Option<string>, parse: string -> Option<Stamp>,
                now: Stamp): Result<Transaction, TxError>
  {
    if book.None? then Err(NoSession)
    else if amount <= 0.0 then Err(InvalidAmount)
    else
      var accounts := book.value.accounts;
      match Resolve(accounts, from, ExactOrDottedSuffix)
      case None => Err(SourceNotFound(from))
      case Some(s) =>
        match Resolve(accounts, to, ExactOrDottedSuffix)
        case None => Err(DestinationNotFound(to))
        case Some(d) =>
          var src, dst := accounts[s], accounts[d];
          if src.commodity.None? then Err(MissingCommodity)
          else if dst.commodity.Some? && dst.commodity.value.mnemonic != src.commodity.value.mnemonic then
            Err(CurrencyMismatch(src.commodity.value.mnemonic, dst.commodity.value.mnemonic))
          else
            match PostedDate(date, parse, now)
            case None => Err(InvalidDate)
            case Some(posted) =>
              var c := src.commodity.value;
              Ok(Transfer(s, d, c, Scale(amount, c.fraction), description, posted, now, memo))
  }

  // ---------------------------------------------------------------------------
  // Properties of the pipeline
  // ---------------------------------------------------------------------------

  /**
   * The checks run in a fixed order and the result names the first that fails:
   * each rejection holds exactly when every earlier check passed and its own failed.
   */
  lemma PlanRejectionOrder(book: Option<Book>, from: string, to: string, amount: real, description: string,
                           date: Option<string>, memo: Option<string>, parse: string -> Option<Stamp>,
                           now: Stamp)
    ensures var r := Plan(book, from, to, amount, description, date, memo, parse, now);
      && (r == Err(NoSession) <==> book.None?)
      && (r == Err(InvalidAmount) <==> book.Some? && amount <= 0.0)
      && (r == Err(SourceNotFound(from)) <==>
            book.Some? && amount > 0.0 && Resolve(book.value.accounts, from, ExactOrDottedSuffix).None?)
      && (r == Err(DestinationNotFound(to)) <==>
            book.Some? && amount > 0.0 && Resolve(book.value.accounts, from, ExactOrDottedSuffix).Some? && Resolve(book.value.accounts, to, ExactOrDottedSuffix).None?)
      && (r == Err(MissingCommodity) <==>
            book.Some? && amount > 0.0 && Resolve(book.value.accounts, from, ExactOrDottedSuffix).Some? && Resolve(book.value.accounts, to, ExactOrDottedSuffix).Some?
            && book.value.accounts[Resolve(book.value.accounts, from, ExactOrDottedSuffix).value].commodity.None?)
  {
  }

  /**
   * A currency mismatch is reported exactly when both accounts resolve, the source
   * has a commodity, and the destination has one with a different mnemonic; the
   * error carries the two mnemonics. A destination without a commodity is accepted.
   * Once the currencies agree, the last check is the date: an unparsable one is
   * reported exactly then.
   */
  lemma PlanCurrencyMismatch(book: Book, from: string, to: string, amount: real, description: string,
                             date: Option<string>, memo: Option<string>, parse: string -> Option<Stamp>,
                             now: Stamp)
    requires amount > 0.0 && Resolve(book.accounts, from, ExactOrDottedSuffix).Some? && Resolve(book.accounts, to, ExactOrDottedSuffix).Some?
    ensures var r := Plan(Some(book), from, to, amount, description, date, memo, parse, now);
      var src, dst := book.accounts[Resolve(book.accounts, from, ExactOrDottedSuffix).value], book.accounts[Resolve(book.accounts, to, ExactOrDottedSuffix).value];
      && ((r.Err? && r.error.CurrencyMismatch?) <==>
            src.commodity.Some? && dst.commodity.Some? && dst.commodity.value.mnemonic != src.commodity.value.mnemonic)
      && (r.Err? && r.error.CurrencyMismatch? ==>
            r.error == CurrencyMismatch(src.commodity.value.mnemonic, dst.commodity.value.mnemonic))
      && (src.commodity.Some? && dst.commodity.None? ==>
            (r.Ok? <==> PostedDate(date, parse, now).Some?))
      && (r == Err(InvalidDate) <==>
            && src.commodity.Some?
            && (dst.commodity.None? || dst.commodity.value.mnemonic == src.commodity.value.mnemonic)
            && PostedDate(date, parse, now).None?)
  {
  }

  /**
   * Acceptance: the plan succeeds exactly when every check passes, and then it
   * builds one balanced transaction of two splits in the source's currency: the
   * source leg `-n / fraction` and the destination leg `+n / fraction`, value equal
   * to amount, `n` the rounded scaled amount, both legs carrying the memo only when
   * one is given.
   */
  lemma PlanSuccess(book: Option<Book>, from: string, to: string, amount: real, description: string,
                    date: Option<string>, memo: Option<string>, parse: string -> Option<Stamp>,
                    now: Stamp)
    ensures var r := Plan(book, from, to, amount, description, date, memo, parse, now);
      r.Ok? <==>
        && book.Some? && amount > 0.0
        && Resolve(book.value.accounts, from, ExactOrDottedSuffix).Some? && Resolve(book.value.accounts, to, ExactOrDottedSuffix).Some?
        && var src, dst := book.value.accounts[Resolve(book.value.accounts, from, ExactOrDottedSuffix).value],
                           book.value.accounts[Resolve(book.value.accounts, to, ExactOrDottedSuffix).value];
           && src.commodity.Some?
           && (dst.commodity.None? || dst.commodity.value.mnemonic == src.commodity.value.mnemonic)
           && PostedDate(date, parse, now).Some?
    ensures var r := Plan(book, from, to, amount, description, date, memo, parse, now);
      r.Ok? ==>
        && var tx := r.value;
           var s, d := Resolve(book.value.accounts, from, ExactOrDottedSuffix).value, Resolve(book.value.accounts, to, ExactOrDottedSuffix).value;
           var c := book.value.accounts[s].commodity.value;
           var n := Scale(amount, c.fraction);
           && Balanced(tx)
           && |tx.splits| == 2
           && tx.currency == c && tx.description == description
           && tx.posted == PostedDate(date, parse, now).value && tx.entered == now
           && tx.splits[0].account == s && tx.splits[1].account == d
           && tx.splits[0].value == tx.splits[0].amount == Numeric(-n, c.fraction)
           && tx.splits[1].value == tx.splits[1].amount == Numeric(n, c.fraction)
           && (forall i :: 0 <= i < 2 ==>
                 tx.splits[i].memo == (if memo.Some? && memo.value != "" then memo else None))
  {
    if book.Some? {
      ResolveSpec(book.value.accounts, from, ExactOrDottedSuffix);
      ResolveSpec(book.value.accounts, to, ExactOrDottedSuffix);
      var r := Plan(book, from, to, amount, description, date, memo, parse, now);
      if r.Ok? {
        var s, d := Resolve(book.value.accounts, from, ExactOrDottedSuffix).value, Resolve(book.value.accounts, to, ExactOrDottedSuffix).value;
        var c := book.value.accounts[s].commodity.value;
        TransferBalanced(s, d, c, Scale(amount, c.fraction), description, r.value.posted, now, memo);
      }
    }
  }

  /** Transferring between a USD and a EUR account is rejected as a currency mismatch. */
  lemma UsdToEurRejected(book: Book, amount: real, parse: string -> Option<Stamp>, now: Stamp)
    requires |book.accounts| == 2 && amount > 0.0
    requires book.accounts[0].fullName == "Assets" && book.accounts[1].fullName == "Expenses"
    requires book.accounts[0].commodity == Some(Commodity("USD", 100))
    requires book.accounts[1].commodity == Some(Commodity("EUR", 100))
    ensures Plan(Some(book), "Assets", "Expenses", amount, "", None, None, parse, now)
            == Err(CurrencyMismatch("USD", "EUR"))
  {
    assert Matches(ExactOrDottedSuffix, book.accounts[0].fullName, "Assets");
    assert FirstWhere(book.accounts, "Assets", ExactOrDottedSuffix) == Some(0);
    assert |"." + "Expenses"| > |"Assets"|;
    assert !Matches(ExactOrDottedSuffix, book.accounts[0].fullName, "Expenses");
    assert Matches(ExactOrDottedSuffix, book.accounts[1].fullName, "Expenses");
    assert FirstFrom(book.accounts, "Expenses", ExactOrDottedSuffix, 1) == Some(1);
    assert FirstWhere(book.accounts, "Expenses", ExactOrDottedSuffix) == Some(1);
  }

  // ---------------------------------------------------------------------------
  // Split lists
  // ---------------------------------------------------------------------------

  /** What a split of an account shows in `get_transactions`: its transaction's date and description, and its value. */
  datatype Posting = Posting(posted: Stamp, description: string, value: Numeric)

  /** The postings of `tx`'s splits against account `k`, in split order. */
  function PostingsIn(tx: Transaction, splits: seq<Split>, k: nat): seq<Posting>
    decreases |splits|
  {
    if |splits| == 0 then []
    else
      var last := splits[|splits| - 1];
      PostingsIn(tx, splits[..|splits| - 1], k)
        + (if last.account == k then [Posting(tx.posted, tx.description, last.value)] else [])
  }

  /** `account.GetSplitList()` read off the book: every split against `k`, in book order. */
  function PostingsOf(transactions: seq<Transaction>, k: nat): seq<Posting>
    decreases |transactions|
  {
    if |transactions| == 0 then []
    else
      var last := transactions[|transactions| - 1];
      PostingsOf(transactions[..|transactions| - 1], k) + PostingsIn(last, last.splits, k)
  }

  /**
   * Recording a transfer appends exactly its legs to the two accounts' split lists
   * (both legs when the source and destination are one account) and leaves every
   * other account's split list as it was.
   */
  lemma TransferPostings(transactions: seq<Transaction>, source: nat, dest: nat, currency: Commodity, n: int,
                         description: string, posted: Stamp, entered: Stamp, memo: Option<string>, k: nat)
    ensures var tx := Transfer(source, dest, currency, n, description, posted, entered, memo);
      var out := Posting(posted, description, Numeric(-n, currency.fraction));
      var into := Posting(posted, description, Numeric(n, currency.fraction));
      PostingsOf(transactions + [tx], k) == PostingsOf(transactions, k)
        + (if k == source then [out] else []) + (if k == dest then [into] else [])
  {
    var tx := Transfer(source, dest, currency, n, description, posted, entered, memo);
    var out := Posting(posted, description, Numeric(-n, currency.fraction));
    var into := Posting(posted, description, Numeric(n, currency.fraction));
    assert (transactions + [tx])[..|transactions|] == transactions;
    assert tx.splits[..1] == [tx.splits[0]] && tx.splits[..1][..0] == [];
    assert PostingsIn(tx, tx.splits[..1], k) == (if k == source then [out] else []);
    assert PostingsIn(tx, tx.splits, k) == (if k == source then [out] else []) + (if k == dest then [into] else []);
  }
}
