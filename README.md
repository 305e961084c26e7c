# gnucash-mcp server core, modelled in Dafny

`server.py` is an MCP server that exposes a GnuCash ledger to a client. The
server holds one open session (`current_session`), opened read-only or
read-write depending on a process-wide flag (`write_mode`). Its tools do four
things:

- They open, close, commit and, at exit, clean up that session. A stale
  `<file>.LCK` lock is removed when GnuCash itself is not running.
- They resolve account names in two passes. The first pass accepts an exact
  full name or a suffix. The second accepts a case-insensitive substring.
- They list accounts, search them, and show the most recent splits of an
  account.
- They record a two-split balanced transfer between two accounts, after a
  fixed sequence of checks.

This project models that decision logic over plain records and proves what the
code promises about it.

Files and modules:

- `wrappers.dfy` (`Wrappers`): `Option` and `Result`.
- `text.dfy` (`Text`): the parts of Python's `str` the server uses. These are
  `lower()`/`upper()`, `endswith`, substring `in`, and the decimal rendering
  of an `int` in `f"UNKNOWN({type_code})"`.
- `order.dfy` (`Order`): Python's string order and `sorted`. Sorting is
  specified by "sorted, and a permutation of the input", and a lemma shows
  that those two facts determine the result.
- `accounts.dfy` (`Accounts`): the account record, `get_account_type_name`,
  and the three match predicates. It also holds `find_account` and the inline
  resolver of the read tools, written as loops proved against a first-match
  specification function `Resolve`.
- `listing.dfy` (`Listing`): the loops of `list_accounts` and
  `search_accounts`, and the slice `splits[-limit:]`.
- `ledger.dfy` (`Ledger`): splits, transactions and the book. It holds the
  validation pipeline of `add_transaction` as the function `Plan`, the
  construction of the two splits, and the per-account split list.
- `server.dfy` (`GnucashServer`): the class `Server`. Its fields are
  `writeMode`, `session`, the lock files on disk and the saved books. Its
  methods are the session tools and the read tools.

The calls the server makes into GnuCash and the operating system are inputs
of the methods, not modelled. What the code does with each outcome is
modelled, including the exceptions it catches. The inputs are:

- A boolean for `is_gnucash_running()`, which is itself false when `pgrep`
  cannot be run.
- A boolean for `os.path.exists(file_path)`.
- A `Call` (returned or raised) for `os.remove`, `session.end()` and
  `session.save()`.
- A `StoreOpen` for `Session(path, mode)`.
- A function for `strptime(date, "%Y-%m-%d")`, and a `Stamp` for `now()`.

Three behaviours of the code that a reader might not expect, all modelled as
written:

- Exact match and suffix match are tested in the same pass over the accounts,
  not one after the other. So an earlier suffix hit beats a later exact hit
  (`Accounts.EarlierSuffixBeatsLaterExact`).
- `add_transaction` and `commit` do not look at `write_mode`. Only the tool
  registration in `main` does that, and it is not modelled. So
  `Server.AddTransaction` and `Server.Commit` work in either mode.
- `is_gnucash_running` answers false when `pgrep` cannot be run or times out
  (server.py:40-41). The lock check therefore fails open: a lock can be
  removed while GnuCash may still be running. In the model the probe is an
  input, and `Server.RemoveStaleLock` and `Server.OpenFile` act on whatever it
  says.

## Model

| member | source | states |
|---|---|---|
| Text.ContainsAt | server.py:97-100 | Python's `sub in s` holds exactly when `sub` occurs at some index of `s` |
| Text.ContainsLower | server.py:321-325 | a substring stays a substring after both sides are lower-cased |
| Text.EndsWithContains | server.py:93 | a string contains each of its suffixes |
| Text.NatDigits | server.py:124 | the rendering of a natural number is a non-empty string of decimal digits with no leading zero; it begins with `0` exactly for 0 |
| Text.IntToStringRoundTrip | server.py:124 | the decimal text of an integer, sign included, parses back to that integer |
| Text.IntToStringInjective | server.py:124 | distinct codes render to distinct decimal texts |
| Order.LexLeTotal | server.py:196 | any two strings are ordered one way or the other under Python's `<=` |
| Order.LexLeTrans | server.py:196 | Python's string `<=` is transitive |
| Order.LexLeAntisym | server.py:196 | two strings each `<=` the other are equal |
| Order.Sort | server.py:196 | `sorted`: the result is in ascending order and is a permutation of its input |
| Order.SortedUnique | server.py:196 | two sorted permutations of the same strings are equal, so `sorted` has exactly one possible result |
| Order.SortSorted | server.py:196 | sorting an already sorted list leaves it unchanged |
| Accounts.TypeNamesDistinct | server.py:107-123 | the fixed table has 15 names, pairwise distinct, none beginning with `U` |
| Accounts.TypeNameInjective | server.py:105-124 | different type codes never get the same name, known or `UNKNOWN(<code>)` |
| Accounts.TypeNameUnknown | server.py:124 | a name starts with `UNKNOWN(` exactly when the code is outside 0..14, and then the code can be read back from the name |
| Accounts.FirstWhereSpec | server.py:91-95 | a scan returns the first index, in enumeration order, whose full name passes the test, or nothing when none does |
| Accounts.Scan | server.py:91-100 | the `for`-loop with early return yields exactly the first-match result |
| Accounts.FindAccount | server.py:85-102 | `find_account`: first pass "exact or ends with `.`+query", then the first case-insensitive substring match, else none |
| Accounts.FindAccountInline | server.py:217-231 | the inline resolver: first pass "exact or ends with query", then the first case-insensitive substring match, else none |
| Accounts.Resolve | server.py:85-102 | whatever account a resolver returns is one of the descendants: its index lies within the account list |
| Accounts.ResolveSpec | server.py:85-102 | the resolved account is the first one passing the first pass; only if none passes is it the first substring match; and it is none only when neither pass matches |
| Accounts.FirstPassImpliesSubstring | server.py:91-100 | every account the first pass accepts, of either resolver, is also a substring match |
| Accounts.ResolveNoneIffNoSubstring | server.py:85-102 | resolution finds nothing exactly when no full name contains the query case-insensitively |
| Accounts.InlinePassAcceptsMore | server.py:91-94 | every full name that `find_account`'s first pass accepts is accepted by the inline first pass |
| Accounts.InlinePassAcceptsBareSuffix | server.py:219-223 | the converse fails: `Assets.MyChecking` matches `Checking` inline but not in `find_account` |
| Accounts.InlineHitsNoLater | server.py:266-270 | when `find_account`'s first pass hits, the inline first pass hits too, at the same or an earlier account |
| Accounts.ResolversAgree | server.py:354-358 | when no name ends with the query without a dot in front, the two resolvers return the same account |
| Accounts.InlineEmptyQuery | server.py:221 | the inline resolver maps the empty query to the first account, because every name ends with `""` |
| Accounts.EarlierSuffixBeatsLaterExact | server.py:91-94 | `Assets.Checking` listed before `Checking` wins for query `Checking` |
| Accounts.TieringChecking | server.py:91-95 | over `Assets.Bank.Checking` and `Assets.Bank.Savings`, `Checking` resolves to the first account by suffix |
| Accounts.TieringSavings | server.py:91-95 | over the same accounts, `Savings` passes over the first and resolves to the second by suffix |
| Accounts.TieringBank | server.py:97-100 | `bank` is neither a full name nor a suffix and resolves through the case-insensitive substring pass to the first account |
| Accounts.TieringNonexistent | server.py:85-102 | `nonexistent` resolves to no account |
| Accounts.MissingLetterResolvesNone | server.py:97-102 | a query letter that occurs in no full name, in either case, makes resolution return none |
| Listing.AccountLines | server.py:191-196 | `list_accounts`: one `full (TYPE)` line per descendant, sorted, a permutation of the entries |
| Listing.EntriesPermute | server.py:191-194 | reordering the accounts only permutes the lines |
| Listing.ListingIgnoresOrder | server.py:196 | the listing depends only on which accounts exist, not on their enumeration order |
| Listing.CollectMember | server.py:322-326 | the collecting loop keeps a line exactly when it belongs to an account whose full name contains the query case-insensitively, for any way of rendering the line |
| Listing.MatchEntriesMember | server.py:321-326 | a line is collected exactly when it is the entry of an account whose full name contains the query case-insensitively |
| Listing.MatchEntriesEmpty | server.py:321-329 | nothing is collected exactly when no account matches, which is when the no-match answer is given |
| Listing.SearchLines | server.py:321-332 | `search_accounts`: the no-match answer exactly when nothing matches; otherwise the sorted matching lines and their count, with exactly the matching entries present |
| Listing.EmptySearchListsAll | server.py:321-326 | the empty query matches every account |
| Listing.ResolvedIsListed | server.py:97-100 | the account a resolver returns is among the search matches for the same query |
| Listing.LastN | server.py:287 | `splits[-limit:]` is a suffix of the list: its last `limit` items for positive `limit`, the whole list for 0, and the list without its first `-limit` items for negative `limit` |
| Ledger.RoundHalfEven | server.py:473 | Python's `round`: within one half of the input, and an exact tie goes to the even integer |
| Ledger.ScaleExact | server.py:472-473 | an amount with an exact representation at the commodity's fraction scales to that numerator, and numerator over fraction is the amount again |
| Ledger.ScaleExample | server.py:472-473 | 12.34 at fraction 100 is 1234/100 |
| Ledger.PositiveAmountMayScaleToZero | server.py:435-473 | a positive amount can round to the numerator 0, so the amount check does not prevent a zero transfer |
| Ledger.TransferBalanced | server.py:476-500 | the two constructed splits share the currency's fraction and their numerators sum to zero |
| Ledger.PlanRejectionOrder | server.py:432-451 | no session, non-positive amount, source not found, destination not found and missing commodity are each reported exactly when every earlier check passed and that one failed |
| Ledger.PlanCurrencyMismatch | server.py:452-459 | a mismatch is reported exactly when the destination has a commodity whose mnemonic differs from the source's, with both mnemonics; without a commodity the destination is accepted; once the currencies agree, the invalid-date error is reported exactly when a non-empty date does not parse |
| Ledger.PlanSuccess | server.py:432-500 | a transaction is built exactly when every check passes; it is balanced and has two splits: source `-n/fraction`, destination `+n/fraction`, value equal to amount, the source's currency and fraction, the given description, the posted date from the date argument or now, and the memo on both splits only when one is given |
| Ledger.UsdToEurRejected | server.py:452-459 | a USD source and an EUR destination are rejected with the mismatch `USD` vs `EUR` |
| Ledger.TransferPostings | server.py:476-503 | recording a transfer adds one posting to the source's split list and one to the destination's, and leaves every other account's list as it was |
| GnucashServer.Server.constructor | server.py:12-15 | the process starts with no session and with the write mode it was given |
| GnucashServer.Server.RemoveStaleLock | server.py:44-62 | no lock: true, no change; GnuCash running: false, lock kept; otherwise the lock is removed and true, or false and kept if the removal raised |
| GnucashServer.Server.OpenFile | server.py:127-164 | ends any prior session first and keeps it if that raises; a missing file leaves no session; with `break_lock`, a lock while GnuCash runs is reported and kept, otherwise the stale-lock removal runs; a successful open sets the session with the mode `write_mode` selects; store errors leave no session and suggest `break_lock` when they mention a lock; saved data never changes |
| GnucashServer.Server.CloseFile | server.py:167-176 | with no session, the nothing-open answer and no change; otherwise the session ends and is cleared, or stays when `end()` raises; nothing is saved |
| GnucashServer.Server.CleanupSession | server.py:65-78 | saves only in write mode; ends the session unless the save raised; always leaves no session |
| GnucashServer.Server.Commit | server.py:512-527 | with no session, the no-file error; otherwise the open book is saved to its path, or the save's error is reported; the session stays |
| GnucashServer.Server.AddTransaction | server.py:410-509 | returns the `Plan` decision for the open book; a rejection changes nothing; on success exactly that transaction is appended to the open book, which is not saved |
| GnucashServer.Server.ListAccounts | server.py:179-196 | the no-file error without a session; otherwise the sorted permutation of the account entries |
| GnucashServer.Server.SearchAccounts | server.py:306-332 | the no-file error without a session; otherwise the no-match answer exactly when nothing matches, else the sorted matches with their count |
| GnucashServer.Server.GetAccountBalance | server.py:201-245 | the no-file error without a session; otherwise not found exactly when the inline resolver finds nothing, else that account with its mnemonic or `?` |
| GnucashServer.Server.GetTransactions | server.py:248-303 | the no-file error without a session; not found exactly when the inline resolver finds nothing; the empty-list answer when the account has no splits; otherwise `splits[-limit:]` of its split list, with the account's mnemonic or `?` as the currency of every row |
| GnucashServer.Server.GetAccountInfo | server.py:337-407 | the no-file error without a session; otherwise not found exactly when the inline resolver finds nothing, else its full name, type name, description and code or `(none)`, mnemonic or `?`, split count and its children's names |

## Left out

- Ledger.Numeric: numerators are unbounded integers. `GncNumeric` holds 64-bit integers, so a scaled amount outside the signed 64-bit range makes the bindings raise at server.py:488-498. By then `Transaction(book)` and `BeginEdit()` have run. The code then answers with its generic creation error and leaves a half-built, uncommitted transaction, where the model returns `Ok` with the full numerator.
- The GnuCash bindings are not modelled: `Session`, `Transaction`, `Split`, `GncNumeric`, `BeginEdit`/`CommitEdit`, `get_root_account`/`get_descendants`, the session's own lock. The book is a list of accounts in pre-order plus the recorded transactions, and calls into the bindings are inputs.
- The three balances (`GetBalance`, `GetClearedBalance`, `GetReconciledBalance`) are computed by the library, so they are not modelled, nor are their float conversions for display.
- `GetSplitList` returns a list ordered by the library. The model takes the split list in recording order.
- Ledger.Scale: `amount` is an exact real, not a binary float. The model does not capture the rounding error of `amount * fraction` in floating point. `Ledger.PositiveAmountMayScaleToZero` shows that even exact reals can give a zero numerator for a positive amount.
- `strptime` and `now()` are inputs. The model uses one clock reading for both the posted default and the entered date, where the code reads the clock twice.
- `pgrep`, `os.path.exists` and `os.remove` are inputs. When `pgrep` cannot run, the code sets the probe to false; the model covers that case only through the probe's value.
- Exceptions raised inside the read tools' `try` blocks, and in `add_transaction` after the checks (from `Transaction`, `Split` or `CommitEdit`), come from the bindings. They are not modelled.
- `main`, argparse, the `GNUCASH_FILE` variable, the auto-open at start-up, `FastMCP` registration, the write-mode gating of tools and the `atexit` registration are process glue, not modelled.
- Output strings and stderr messages are not modelled. The model returns the kind of each answer and the data it carries. `get_no_file_error`'s two wordings are one `NoFileOpen` answer.
- `str.lower()`/`str.upper()` are modelled on ASCII letters only. Other characters map to themselves.
- GnucashServer.Server.GetAccountInfo: `GetDescription()`/`GetCode()` returning `None` is modelled as the empty string. Both print `(none)`.
