/**
 * The server's module-level state (`current_session` and `write_mode`) and the
 * lock file beside each ledger, with the operations that change them
 * (`remove_stale_lock`, `open_file`, `close_file`, `cleanup_session`, `commit`,
 * `add_transaction`) and the read tools that consult them.
 *
 * Calls into the GnuCash bindings and the operating system are not modelled;
 * what the server does with their outcome is. Each such call is an input:
 * the probe for a running GnuCash (`is_gnucash_running()`), `os.path.exists` of
 * the ledger file, `os.remove` of the lock, `Session(...)`, `session.end()` and
 * `session.save()`.
 */
module GnucashServer {
  import opened Wrappers
  import opened Text
  import opened Order
  import opened Accounts
  import opened Listing
  import opened Ledger

  /** The outcome of a call that returns nothing: it returned, or it raised with a message. */
  datatype Call = Returned | Raised(message: string)

  /** The outcome of `Session(path, mode)`: the book it loaded, or the message it raised. */
  datatype StoreOpen = Loaded(book: Book) | OpenRaised(message: string)

  /** An open file: its path, whether it was opened read-write, and its book. */
  datatype Session = Session(path: string, readWrite: bool, book: Book)

  /**
   * What `open_file` reports; `OpenFailed(true)` is the error that suggests
   * retrying with `break_lock=True`.
   */
  datatype OpenResult = Opened(readWrite: bool) | FileNotFound | LockBlocked | OpenFailed(suggestBreakLock: bool)

  /** What `close_file` reports. `CloseRaised` is an exception from `end()` leaving the tool. */
  datatype CloseResult = Closed | NothingOpen | CloseRaised(message: string)

  datatype CommitResult = Committed | CommitNoFile | CommitFailed(message: string)

  /** A read tool's answer: the no-file-open error, or what it found. */
  datatype Answer<T> = NoFileOpen | Answer(value: T)

  /** `get_account_balance` before formatting: the account and its currency label; the balance is the library's. */
  datatype BalanceView = BalanceView(account: nat, fullName: string, currency: string)

  /** `get_account_info` before formatting; the three balances are the library's. */
  datatype Info = Info(
    account: nat,
    fullName: string,
    typeName: string,
    description: string,
    code: string,
    currency: string,
    splitCount: nat,
    children: seq<string>)

  /** `get_transactions` before formatting: the account, its currency label shown on every row, and the rows. */
  datatype TransactionsView = AccountMissing | NoTransactions(account: nat) | Recent(account: nat, currency: string, rows: seq<Posting>)

  /** `file_path + ".LCK"` */
  function LockPath(path: string): string {
    path + ".LCK"
  }

  /** `"LOCKED" in error_msg.upper()` */
  predicate MentionsLocked(message: string) {
    Contains(Upper(message), "LOCKED")
  }

  /** `commodity.get_mnemonic() if commodity else "?"` */
  function CurrencyLabel(c: Option<Commodity>): string {
    if c.Some? then c.value.mnemonic else "?"
  }

  /** `x or "(none)"` for a string attribute. */
  function OrNone(s: string): string {
    if s == "" then "(none)" else s
  }

  /** The names of the children of account `k`, in enumeration order. */
  function Children(accounts: seq<Account>, k: nat): seq<string>
    decreases |accounts|
  {
    if |accounts| == 0 then []
    else
      var last := accounts[|accounts| - 1];
      Children(accounts[..|accounts| - 1], k) + (if last.parent == Some(k) then [last.name] else [])
  }

  function BookOf(session: Option<Session>): Option<Book> {
    if session.Some? then Some(session.value.book) else None
  }

  class Server {
    /** `write_mode`, fixed when the process starts. */
    const writeMode: bool
    /** `current_session` */
    var session: Option<Session>
    /** The lock files present on disk, by path. */
    var lockFiles: set<string>
    /** The book each path holds on disk after the last successful `save()`. */
    var saved: map<string, Book>

    constructor (writeMode: bool, lockFiles: set<string>)
      ensures this.writeMode == writeMode && this.lockFiles == lockFiles
      ensures session == None && saved == map[]
    {
      this.writeMode := writeMode;
      this.lockFiles := lockFiles;
      session := None;
      saved := map[];
    }

    // -------------------------------------------------------------------------
    // Lock and session state machine
    // -------------------------------------------------------------------------

    /**
     * `remove_stale_lock`: no lock, true and nothing changes; GnuCash running, false
     * and the lock stays; otherwise the lock is removed and the result is true, or,
     * if the removal raised, false and the lock stays.
     */
    method RemoveStaleLock(path: string, running: bool, removal: Call) returns (ok: bool)
      modifies this
      ensures session == old(session) && saved == old(saved)
      ensures LockPath(path) !in old(lockFiles) ==> ok && lockFiles == old(lockFiles)
      ensures LockPath(path) in old(lockFiles) && running ==> !ok && lockFiles == old(lockFiles)
      ensures LockPath(path) in old(lockFiles) && !running ==>
        && ok == removal.Returned?
        && lockFiles == if ok then old(lockFiles) - {LockPath(path)} else old(lockFiles)
    {
      var lock := LockPath(path);
      if lock !in lockFiles {
        return true;
      }
      if running {
        return false;
      }
      if removal.Raised? {
        return false;
      }
      lockFiles := lockFiles - {lock};
      return true;
    }

    /**
     * `open_file`. A session already open is ended first; if that raises, the
     * error is reported and the session stays. Then: a missing file is reported
     * with no session open; with `break_lock`, a lock beside the file while GnuCash
     * runs is reported without touching the lock, and otherwise the stale lock is
     * removed as `remove_stale_lock` does (probing again); finally the store is
     * opened in the mode `write_mode` selects. A store error is reported, and
     * suggests `break_lock` when its message mentions a lock.
     */
    method OpenFile(path: string, breakLock: bool, fileExists: bool, running: bool, runningAgain: bool,
                    removal: Call, end: Call, store: StoreOpen) returns (r: OpenResult)
      modifies this
      ensures saved == old(saved)
      ensures old(session).Some? && end.Raised? ==>
        r == OpenFailed(MentionsLocked(end.message)) && session == old(session) && lockFiles == old(lockFiles)
      ensures (old(session).None? || end.Returned?) && !fileExists ==>
        r == FileNotFound && session == None && lockFiles == old(lockFiles)
      ensures (old(session).None? || end.Returned?) && fileExists && breakLock
              && LockPath(path) in old(lockFiles) && running ==>
        r == LockBlocked && session == None && lockFiles == old(lockFiles)
      ensures (old(session).None? || end.Returned?) && fileExists
              && !(breakLock && LockPath(path) in old(lockFiles) && running) ==>
        && lockFiles == (if breakLock && LockPath(path) in old(lockFiles) && !runningAgain && removal.Returned?
                         then old(lockFiles) - {LockPath(path)} else old(lockFiles))
        && (store.Loaded? ==> r == Opened(writeMode) && session == Some(Session(path, writeMode, store.book)))
        && (store.OpenRaised? ==> r == OpenFailed(MentionsLocked(store.message)) && session == None)
    {
      if session.Some? {
        if end.Raised? {
          return OpenFailed(MentionsLocked(end.message));
        }
        session := None;
      }
      if !fileExists {
        return FileNotFound;
      }
      if breakLock && LockPath(path) in lockFiles {
        if running {
          return LockBlocked;
        }
        var _ := RemoveStaleLock(path, runningAgain, removal);
      }
      match store
      case Loaded(book) =>
        session := Some(Session(path, writeMode, book));
        r := Opened(writeMode);
      case OpenRaised(message) =>
        r := OpenFailed(MentionsLocked(message));
    }

    /**
     * `close_file`: with no session, the nothing-open answer and no change;
     * otherwise the session is ended and cleared. Unsaved changes are not saved.
     */
    method CloseFile(end: Call) returns (r: CloseResult)
      modifies this
      ensures lockFiles == old(lockFiles) && saved == old(saved)
      ensures old(session).None? ==> r == NothingOpen && session == None
      ensures old(session).Some? && end.Returned? ==> r == Closed && session == None
      ensures old(session).Some? && end.Raised? ==> r == CloseRaised(end.message) && session == old(session)
    {
      if session.None? {
        return NothingOpen;
      }
      if end.Raised? {
        return CloseRaised(end.message);
      }
      session := None;
      return Closed;
    }

    /**
     * `cleanup_session`, run at exit: saves only in write mode, ends the session
     * unless the save raised, and always leaves no session, whatever raised.
     */
    method CleanupSession(save: Call, end: Call) returns (didSave: bool, ended: bool)
      modifies this
      ensures session == None && lockFiles == old(lockFiles)
      ensures didSave == (old(session).Some? && writeMode && save.Returned?)
      ensures ended == (old(session).Some? && (!writeMode || save.Returned?) && end.Returned?)
      ensures saved == if didSave then old(saved)[old(session).value.path := old(session).value.book] else old(saved)
    {
      didSave, ended := false, false;
      if session.Some? {
        var s := session.value;
        var raised := false;
        if writeMode {
          if save.Returned? {
            saved := saved[s.path := s.book];
            didSave := true;
          } else {
            raised := true;
          }
        }
        if !raised {
          ended := end.Returned?;
        }
        session := None;
      }
    }

    /** `commit`: saves the open book, in either mode; the session stays open. */
    method Commit(save: Call) returns (r: CommitResult)
      modifies this
      ensures session == old(session) && lockFiles == old(lockFiles)
      ensures old(session).None? ==> r == CommitNoFile && saved == old(saved)
      ensures old(session).Some? && save.Returned? ==>
        r == Committed && saved == old(saved)[old(session).value.path := old(session).value.book]
      ensures old(session).Some? && save.Raised? ==> r == CommitFailed(save.message) && saved == old(saved)
    {
      if session.None? {
        return CommitNoFile;
      }
      if save.Raised? {
        return CommitFailed(save.message);
      }
      saved := saved[session.value.path := session.value.book];
      return Committed;
    }

    // -------------------------------------------------------------------------
    // add_transaction
    // -------------------------------------------------------------------------

    /**
     * `add_transaction`: the decision `Plan` describes; on a rejection nothing is
     * constructed and nothing changes, on success the transfer is recorded in the
     * open book (not saved). The session's mode is not consulted.
     */
    method AddTransaction(from: string, to: string, amount: real, description: string,
                          date: Option<string>, memo: Option<string>,
                          parse: string -> Option<Stamp>, now: Stamp)
      returns (r: Result<Transaction, TxError>)
      modifies this
      ensures r == Plan(BookOf(old(session)), from, to, amount, description, date, memo, parse, now)
      ensures lockFiles == old(lockFiles) && saved == old(saved)
      ensures r.Err? ==> session == old(session)
      ensures r.Ok? ==> (old(session).Some? &&
        session == Some(old(session).value.(book := old(session).value.book.(
          transactions := old(session).value.book.transactions + [r.value]))))
    {
      if session.None? {
        return Err(NoSession);
      }
      if amount <= 0.0 {
        return Err(InvalidAmount);
      }
      var book := session.value.book;
      var source := FindAccount(book.accounts, from);
      if source.None? {
        return Err(SourceNotFound(from));
      }
      var dest := FindAccount(book.accounts, to);
      if dest.None? {
        return Err(DestinationNotFound(to));
      }
      var commodity := book.accounts[source.value].commodity;
      if commodity.None? {
        return Err(MissingCommodity);
      }
      var destCommodity := book.accounts[dest.value].commodity;
      if destCommodity.Some? && commodity.value.mnemonic != destCommodity.value.mnemonic {
        return Err(CurrencyMismatch(commodity.value.mnemonic, destCommodity.value.mnemonic));
      }
      var posted := PostedDate(date, parse, now);
      if posted.None? {
        return Err(InvalidDate);
      }
      var fraction := commodity.value.fraction;
      var n := Scale(amount, fraction);
      var tx := Transfer(source.value, dest.value, commodity.value, n, description, posted.value, now, memo);
      session := Some(session.value.(book := book.(transactions := book.transactions + [tx])));
      r := Ok(tx);
    }

    // -------------------------------------------------------------------------
    // Read tools
    // -------------------------------------------------------------------------

    /** `list_accounts`: every descendant's line, sorted. */
    method ListAccounts() returns (r: Answer<seq<string>>)
      ensures session.None? ==> r == NoFileOpen
      ensures session.Some? ==> (r.Answer? && Sorted(r.value)
        && multiset(r.value) == multiset(Entries(session.value.book.accounts)))
    {
      if session.None? {
        return NoFileOpen;
      }
      var lines := AccountLines(session.value.book.accounts);
      return Answer(lines);
    }

    /** `search_accounts`: the case-insensitive substring matches, sorted and counted. */
    method SearchAccounts(query: string) returns (r: Answer<SearchResult>)
      ensures session.None? ==> r == NoFileOpen
      ensures session.Some? ==> (r.Answer?
        && var accounts := session.value.book.accounts;
           && (r.value.NoMatches? <==> NoneBefore(accounts, query, Substring, |accounts|))
           && (r.value.Found? ==> r.value.count == |r.value.lines|
                                  && r.value.lines == Sort(MatchEntries(accounts, query))))
    {
      if session.None? {
        return NoFileOpen;
      }
      var found := SearchLines(session.value.book.accounts, query);
      return Answer(found);
    }

    /** `get_account_balance`: the account the inline resolver finds, and its currency label. */
    method GetAccountBalance(name: string) returns (r: Answer<Option<BalanceView>>)
      ensures session.None? ==> r == NoFileOpen
      ensures session.Some? ==> (r.Answer?
        && var accounts := session.value.book.accounts;
           var k := Resolve(accounts, name, ExactOrSuffix);
           && (k.None? ==> r.value == None)
           && (k.Some? ==> k.value < |accounts| && r.value == Some(BalanceView(
                 k.value, accounts[k.value].fullName, CurrencyLabel(accounts[k.value].commodity)))))
    {
      if session.None? {
        return NoFileOpen;
      }
      var accounts := session.value.book.accounts;
      var k := FindAccountInline(accounts, name);
      if k.None? {
        return Answer(None);
      }
      var a := accounts[k.value];
      return Answer(Some(BalanceView(k.value, a.fullName, CurrencyLabel(a.commodity))));
    }

    /**
     * `get_transactions`: for the account the inline resolver finds, the
     * no-transactions answer when its split list is empty, else `splits[-limit:]`.
     */
    method GetTransactions(name: string, limit: int) returns (r: Answer<TransactionsView>)
      ensures session.None? ==> r == NoFileOpen
      ensures session.Some? ==> (r.Answer?
        && var book := session.value.book;
           var k := Resolve(book.accounts, name, ExactOrSuffix);
           && (r.value.AccountMissing? <==> k.None?)
           && (r.value.NoTransactions? ==>
                 k == Some(r.value.account) && PostingsOf(book.transactions, r.value.account) == [])
           && (r.value.Recent? ==>
                 && k == Some(r.value.account)
                 && PostingsOf(book.transactions, r.value.account) != []
                 && r.value.currency == CurrencyLabel(book.accounts[r.value.account].commodity)
                 && r.value.rows == LastN(PostingsOf(book.transactions, r.value.account), limit)))
    {
      if session.None? {
        return NoFileOpen;
      }
      var book := session.value.book;
      var k := FindAccountInline(book.accounts, name);
      if k.None? {
        return Answer(AccountMissing);
      }
      var splits := PostingsOf(book.transactions, k.value);
      if |splits| == 0 {
        return Answer(NoTransactions(k.value));
      }
      return Answer(Recent(k.value, CurrencyLabel(book.accounts[k.value].commodity), LastN(splits, limit)));
    }

    /** `get_account_info`: the details of the account the inline resolver finds. */
    method GetAccountInfo(name: string) returns (r: Answer<Option<Info>>)
      ensures session.None? ==> r == NoFileOpen
      ensures session.Some? ==> (r.Answer?
        && var book := session.value.book;
           var k := Resolve(book.accounts, name, ExactOrSuffix);
           && (k.None? <==> r.value.None?)
           && (k.Some? ==> (k.value < |book.accounts| && r.value.Some?
                 && var a, info := book.accounts[k.value], r.value.value;
                    && info.account == k.value && info.fullName == a.fullName
                    && info.typeName == TypeName(a.typeCode)
                    && info.description == (if a.description == "" then "(none)" else a.description)
                    && info.code == (if a.code == "" then "(none)" else a.code)
                    && info.currency == CurrencyLabel(a.commodity)
                    && info.splitCount == |PostingsOf(book.transactions, k.value)|
                    && info.children == Children(book.accounts, k.value))))
    {
      if session.None? {
        return NoFileOpen;
      }
      var book := session.value.book;
      var k := FindAccountInline(book.accounts, name);
      if k.None? {
        return Answer(None);
      }
      var a := book.accounts[k.value];
      var info := Info(k.value, a.fullName, TypeName(a.typeCode), OrNone(a.description), OrNone(a.code),
                       CurrencyLabel(a.commodity), |PostingsOf(book.transactions, k.value)|,
                       Children(book.accounts, k.value));
      return Answer(Some(info));
    }
  }
}
