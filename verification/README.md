# Bankist ledger and session, in Dafny

A model of the business rules behind the Bankist banking demo (`app.js`),
with proofs of what they guarantee. Bankist is a single-page app with two
hard-coded accounts. Each account has a movement history: signed amounts,
each with a timestamp. A user can:

- log in with a username and pin;
- transfer money to another account;
- ask for a loan, which is paid out 2.5 seconds later;
- close the account they are logged in with;
- toggle the history view between insertion order and ascending order.

An inactivity countdown logs the user out after five minutes.

The model is made of pure functions over immutable values:

| module | file | models |
|---|---|---|
| `Ledger` | `ledger.dfy` | movements; balance, income, expense and thresholded interest as left folds, the shape of `reduce` |
| `MovementsView` | `movements_view.dfy` | the history as listed, unsorted or as a sorted copy |
| `MovementDates` | `movement_dates.dfy` | the day count and the Today / Yesterday / "N days ago" / absolute-date label |
| `Usernames` | `usernames.dfy` | `toLowerCase().split(' ').map(w => w[0]).join('')` |
| `LogoutTimer` | `logout_timer.dfy` | the countdown's `tick`, including `Math.trunc(time / 60)` and JavaScript's sign-of-dividend `%` |
| `Accounts` | `accounts.dfy` | the account record, `find`, `findIndex`, `splice(i, 1)`, `push`, the cached balance, and the two seed accounts |
| `App` | `app.dfy` | the application state, one step function per click handler or timer callback, and the invariant every reachable state keeps |
| `Wrappers` | `wrappers.dfy` | `Option` |

The application state follows JavaScript's reference semantics:

- Every account object ever created lives in `objects`.
- The `accounts` array is `directory`, a sequence of positions in `objects`.
- `currentAccount` is a position in `objects`. So after a close it can still point at an object that is no longer in the array, as in the program.

Other conventions in the model:

- A handler that dereferences an undefined `currentAccount` throws a `TypeError` in the program. The model leaves the state unchanged for such a step, except that a loan timeout's loan is used up.
- A balance cached by `calcDisplayBalance` is `Some(value)`. An account whose balance was never computed has `None`, and the transfer guard compares that as false.
- Timer callbacks are explicit events. Loan timeouts fire oldest first, because every loan waits the same 2500 ms.

The program has these quirks, and the model keeps them:

- A loan's timeout credits whichever account is current when it fires (`app.js:263`), not necessarily the account that asked for it. After a failed login to another account, it pays that account. After a failed login with an unknown username, the loan is lost.
- Closing an account hides the panel. It does not clear `currentAccount` or stop the countdown (`app.js:283-285`).
- Closing twice with the same credentials removes a second, unrelated account. `findIndex` yields -1 and `splice(-1, 1)` removes the last entry.
- The transfer guard reads the cached balance (`app.js:234`). The balance is not recomputed before the check. `updateUI(currentAccount)` refreshes the cache of whichever account is current (`app.js:220`, `245`, `266`). After a wrong-pin login that account is not the one logged in, and a later loan timeout refreshes its cache. A transfer from it is accepted, and so refreshes it, only once it already has a cached balance: an account whose balance was never computed fails the guard. A receiver's cache is never refreshed by the transfer that credits it. So a cache can lag behind the movements, but it never exceeds the true sum.
- The countdown shows 05:00 at once and decrements to 299. The 300th one-second firing after that sees 0 and logs out.
- Failed operations are silent and return no error value. A transfer, loan request or close whose guard fails leaves the state unchanged. Two exceptions:
  - A failed login still rebinds `currentAccount` to the search result (`app.js:188-191`).
  - A loan timeout with no current account throws, but its loan is still used up.

## Model

| member | source | states |
|---|---|---|
| Ledger.Balance | app.js:111-112 | the `reduce` sum of all amounts that `calcDisplayBalance` stores; characterised by BalanceAfterAppend, TotalSplits and BalanceIsIncomeMinusExpense |
| Ledger.Income | app.js:117-119 | the deposit filter of `calcDisplaySummary` summed by `reduce`; characterised by FiltersSelectBySign, SignsOfTotals and BalanceIsIncomeMinusExpense |
| Ledger.Expense | app.js:121-124 | `Math.abs` of the withdrawal filter's `reduce` sum; characterised by FiltersSelectBySign, SignsOfTotals and BalanceIsIncomeMinusExpense |
| Ledger.TotalAppend | app.js:112 | the `reduce` sum of a concatenation is the sum of the two parts |
| Ledger.BalanceAfterAppend | app.js:111-112 | pushing a movement changes the balance by exactly its amount |
| Ledger.Deposits | app.js:117-118 | every kept movement has a positive amount, and no more are kept than the history holds |
| Ledger.Withdrawals | app.js:121-122 | every kept movement has a negative amount, and no more are kept than the history holds |
| Ledger.FiltersAfterAppend | app.js:117-123 | a pushed movement joins the deposits iff its amount is > 0 and the withdrawals iff it is < 0; otherwise each filter is unchanged |
| Ledger.FiltersSelectBySign | app.js:117-123 | a movement is among the deposits iff it is in the history with a positive amount, and among the withdrawals iff its amount is negative |
| Ledger.SignsOfTotals | app.js:117-123 | the deposit total is never negative and the withdrawal total never positive |
| Ledger.TotalSplits | app.js:111-123 | the balance is the deposit total plus the withdrawal total; zero amounts are in neither and add nothing |
| Ledger.BalanceIsIncomeMinusExpense | app.js:111-124 | the summary agrees with the balance: balance = income - expense, with income and expense non-negative |
| Ledger.ZeroAmountCountsInNeither | app.js:117-124 | a movement of 0 changes neither income nor expense |
| Ledger.InterestTerms | app.js:128 | the `map(deposit => deposit[0] * rate / 100)` of the interest: one term per deposit, in order; characterised by TermsAfterAppend and InterestIsAccrued |
| Ledger.Interest | app.js:126-130 | the filter/map/filter/reduce of `calcDisplaySummary`'s interest; characterised by InterestIsAccrued, InterestAfterAppend and InterestBounds |
| Ledger.InterestOf | app.js:127-129 | one movement contributes either nothing or, for a deposit only, a term of at least 1 |
| Ledger.AtLeastOne | app.js:129 | a term survives the `int >= 1` filter iff it is at least 1, and every term of at least 1 is kept as many times as it occurs |
| Ledger.TermsAfterAppend | app.js:128 | the mapped interest terms of a longer deposit list are the old terms followed by the new deposit's term |
| Ledger.AtLeastOneAfterAppend | app.js:129 | the threshold filter keeps a new term iff it is at least 1 and otherwise leaves the kept terms as they were |
| Ledger.KeptSumAfterAppend | app.js:129-130 | the sum of the kept terms grows by a new term exactly when that term reaches 1 |
| Ledger.InterestAfterAppend | app.js:126-130 | pushing a movement raises the interest by exactly that movement's contribution |
| Ledger.InterestIsAccrued | app.js:126-130 | the filter/map/filter/reduce pipeline equals the per-movement sum of contributions |
| Ledger.InterestBounds | app.js:126-130 | interest is never negative and, for a non-negative rate, never exceeds rate percent of the income |
| Ledger.InterestThresholdExamples | app.js:126-130 | at 1.2 %, a deposit of 79.97 earns nothing, one of 1300 earns 15.6, and the two together earn 15.6 |
| MovementsView.SortByAmount | app.js:91-92 | the sorted copy is ascending by amount, a permutation of the history, and stable: the movements of each amount keep their stored order |
| MovementsView.InsertStable | app.js:92 | inserting a movement into an ascending list puts it ahead of the movements of the same amount and keeps their order |
| MovementsView.View | app.js:91-93 | the `movs` sequence `displayMovements` iterates over is a permutation of the history: unsorted, the history itself; sorted, ascending by amount with equal amounts in stored order |
| MovementsView.SortKeepsSorted | app.js:92 | sorting an ascending history returns it unchanged |
| MovementsView.SortIdempotent | app.js:92 | sorting the sorted copy again changes nothing |
| MovementDates.DaysPassed | app.js:69-70 | `calcDaysPassed`: `Math.round` of the absolute difference in days; characterised by DaysPassedInWholeMs |
| MovementDates.Label | app.js:68-78 | `formatMovementDate`: Today, Yesterday, "N days ago" up to 7, else the absolute date; characterised by LabelBands |
| MovementDates.DaysPassedInWholeMs | app.js:69-70 | `Math.round` of the day fraction is whole days of the difference plus half a day, never negative |
| MovementDates.LabelBands | app.js:68-78 | the label is symmetric in its two instants; Today iff under half a day apart, Yesterday iff 0.5 to 1.5 days, "N days ago" only for N in 2..7 within half a day of N days, absolute iff at least 7.5 days |
| Usernames.Lower | app.js:136 | `toLowerCase`: same length, each character lower-cased by LowerChar |
| Usernames.LowerChar | app.js:136 | the result is never an upper-case letter; upper-case letters map to the letter 32 code points up, everything else is kept |
| Usernames.Split | app.js:137 | `split` always yields at least one piece, and no piece contains the separator |
| Usernames.JoinSplit | app.js:137 | joining the pieces with the separator gives back the original string |
| Usernames.SplitCount | app.js:137 | there is one piece more than there are separators |
| Usernames.Initials | app.js:138-139 | at most one character per piece; when no piece is empty, exactly the pieces' first characters, in order |
| Usernames.Username | app.js:133-141 | the `toLowerCase().split(' ').map(word => word[0]).join('')` that `createUsernames` assigns; characterised by UsernameIsWordInitials and TwoWordUsername |
| Usernames.InitialsAreWordStarts | app.js:137-139 | the first characters of the split pieces are exactly the characters that begin a word |
| Usernames.UsernameIsWordInitials | app.js:133-141 | a username is the word-start characters of the lower-cased owner: no upper-case letter, no space, at most one per space-separated piece |
| Usernames.TwoWordUsername | app.js:135-139 | an owner whose lower-cased name is two words gets the first letter of each |
| Usernames.SeedUsernameFirst | app.js:133-142 | "Mustafa Abdullazada" gets the username "ma" |
| Usernames.SeedUsernameSecond | app.js:133-142 | "Jessica Davis" gets the username "jd" |
| LogoutTimer.TruncDiv | app.js:159 | `Math.trunc(a / d)`, the quotient rounded toward zero; characterised by TruncDivRem |
| LogoutTimer.TruncRem | app.js:160 | JavaScript's `a % d`, whose remainder takes the dividend's sign; characterised by TruncDivRem |
| LogoutTimer.TruncDivRem | app.js:159-160 | `Math.trunc(time / 60)` and `time % 60` recombine to `time`, the remainder is within one divisor and keeps the dividend's sign |
| LogoutTimer.Tick | app.js:158-174 | a tick shows minutes and seconds that recombine to the time (seconds 0..59 for a non-negative time), logs out iff the time is exactly 0, stays live iff it did not, and decrements |
| LogoutTimer.Start | app.js:155-177 | starting shows 05:00 without logging out and leaves a live countdown at 299 |
| LogoutTimer.RunCountsDown | app.js:158-177 | from t seconds, n <= t firings leave t - n live; any more leave -1 and a cleared interval |
| LogoutTimer.LogoutOnTick301 | app.js:155-177 | counting the immediate call, ticks 1 to 300 do not log out, tick 301 does, and nothing fires after it |
| Accounts.FindIndex | app.js:280-282 | the first position with that username, or -1 iff there is none |
| Accounts.Find | app.js:188-190 | an account is found iff one in the array has that username; the one found has that username and sits at a position with no earlier match |
| Accounts.SpliceOne | app.js:283 | `splice(start, 1)` removes exactly the entry at `start` (counted from the end when negative) and shifts the rest down |
| Accounts.Record | app.js:238 | `push` appends the movement to that account and changes no other account or field |
| Accounts.Refresh | app.js:111-112 | the cached balance becomes the true sum, and nothing else changes |
| Accounts.SeedAccount | app.js:133-142 | a seed account keeps the owner, movements, interest rate and pin it was written with, its username is derived from its owner, and no balance is cached yet |
| Accounts.SeedKeys | app.js:4-40 | the two seed accounts have the usernames "ma" and "jd" |
| Accounts.FirstSeedBalance | app.js:4-15 | the first seed account's eight movements sum to 25952.59 |
| Accounts.FirstSeedInterest | app.js:4-16 | the first seed account earns 323.46276 interest at 1.2 %, the 79.97 deposit being dropped |
| App.Init | app.js:4-40 | the state after the script's top level: the two seed accounts with derived usernames (`createUsernames`, app.js:142), no current account or timer (app.js:182), nothing sorted or scheduled; characterised by InitValid |
| App.InitValid | app.js:4-40 | the starting state satisfies the invariant: distinct objects, unique derived usernames, no cached balance |
| App.Login | app.js:184-222 | `currentAccount` becomes the search result even when the pin is wrong, and nothing else changes then; on success the panel shows, the countdown restarts at 299, and only the account's cached balance changes: every other account and every other field stay the same |
| App.LoginPreservesValid | app.js:184-222 | a login click keeps the invariant |
| App.Credit | app.js:240 | "ma" is credited 1.7 times the amount and any other receiver the amount divided by 1.7; positive amounts credit positive sums |
| App.Transfer | app.js:224-251 | when the guard fails nothing changes; otherwise the sender gets `-amount` and the receiver (a different account) gets the credit. The sender's cache is refreshed and the countdown restarts. The sender's owner, username, pin and rate stay the same, as does every field of the receiver except its movements, and no other account changes |
| App.TransferPreservesValid | app.js:224-251 | a transfer click keeps the invariant, in particular that no cached balance exceeds the true sum |
| App.TransferNeverOverdraws | app.js:231-242 | an accepted transfer is covered by the true balance, lowers it by exactly the amount (never below 0), and raises the receiver's by the credit |
| App.RequestLoan | app.js:253-272 | a loan of `floor(amount)` is scheduled iff there is a current account, the amount is positive and some movement is at least a tenth of it; otherwise nothing changes |
| App.FireLoan | app.js:261-269 | the oldest scheduled loan is paid into whichever account is current and that account's cache is refreshed. Its other fields and every other account stay the same, and the countdown restarts. With no current account only the timeout is used up |
| App.FireLoanPreservesValid | app.js:261-269 | a loan timeout keeps the invariant |
| App.LoanFollowsCurrentAccount | app.js:261-269 | a loan asked for by one account and followed by a failed login to another is paid into the other account, not the asker |
| App.LoanLostAfterUnknownLogin | app.js:261-264 | after a failed login with an unknown username a scheduled loan fires into nothing: no account changes and the loan is gone |
| App.LoanEligibilityExamples | app.js:256-260 | with one movement of 50, a loan of 400 is granted and one of 600 is not |
| App.Close | app.js:274-288 | without matching credentials nothing changes; otherwise the `findIndex` position (the last entry when it is -1) is spliced out, the panel hides, and nothing else changes |
| App.ClosePreservesValid | app.js:274-288 | a close click keeps the array free of duplicates and its usernames unique |
| App.CloseRemovesCurrentAccount | app.js:276-283 | closing the current account removes exactly that object, keeps every other, and leaves its username in no remaining account |
| App.ClosedCredentialsFail | app.js:184-191 | after the close, logging in with the closed account's credentials fails and leaves no current account |
| App.CloseDetachedRemovesLast | app.js:280-283 | when the current account is no longer in the array, a close click removes the array's last entry |
| App.CloseTwice | app.js:274-288 | two close clicks with the same credentials remove two accounts: the current one, then the last remaining entry |
| App.ToggleSort | app.js:290-295 | the flag flips iff there is a current account; nothing else changes |
| App.SortClickRows | app.js:291-294 | the `movs` sequence of the sort click's `displayMovements` call is a permutation of the current account's movements: in stored order when the flag was set, ascending by amount with equal amounts in stored order when it was not; none without a current account |
| App.Tick | app.js:158-174 | a live countdown fires once and the panel hides iff it saw 0; a cleared or absent countdown changes nothing |
| App.TickPreservesValid | app.js:155-177 | a timer tick keeps the invariant |
| App.Next | app.js:182-295 | one click handler or timer callback applied to the state, dispatched by event; characterised by NextPreservesValid, Replay and ReachableValid |
| App.NextPreservesValid | app.js:184-295 | every click, loan timeout and timer tick keeps the invariant |
| App.Replay | app.js:182-295 | any sequence of events from a valid state ends in a valid state |
| App.ReachableValid | app.js:182-295 | every state reachable from the start satisfies the invariant |
| App.TicksCountDown | app.js:173-177 | with no other event, t firings count a live countdown of t down to 0, changing nothing else |
| App.TicksExpire | app.js:165-173 | the firing after that logs out and clears the interval, and the current account stays the same |
| App.SessionExpiresAfterLogin | app.js:216-217 | after a successful login the panel is still shown after 299 firings and hidden after the 300th, with the same account current |

## Left out

- DOM rendering: the welcome text, `containerApp.style.opacity` (modelled as `loggedIn`), the clearing of input fields, the per-row `deposit`/`withdrawal` class and the row numbering.
- `Intl.NumberFormat` and `Intl.DateTimeFormat`: they are locale formatting, so the absolute date label is the single value `Absolute`. The `currency` and `locale` fields of an account are not modelled.
- The text of the timer label: `padStart` turns the minutes and seconds into strings. `LogoutTimer.Tick` returns them as numbers.
- `setInterval` and `setTimeout`: these are real time, modelled as `TimerTick` and `LoanTimeout` events in any order. Loan timeouts fire oldest first. The instants of new movements are parameters (`now`), because they come from `new Date()`.
- Parsing of input: `+input.value` and `Math.floor` on strings are replaced by `int` and `real` parameters. A `NaN` pin, which never equals a stored pin, is left out.
- Ledger: amounts are exact rationals, not IEEE-754 doubles. A float sum near the `>= 1` interest threshold, or a value like `amount / 1.7`, may round differently in the program.
- The income, expense and interest values that `calcDisplaySummary` shows are computed from the movements. The model does not store them, since the program only writes them to labels.
- The on-page order of the history: `displayMovements` inserts each row `afterbegin` (`app.js:107`), so the page lists `movs` last-first and a sorted history reads largest amount first. `MovementsView.View` and `App.SortClickRows` model the `movs` sequence itself.
- `updateUI` redraws the history unsorted whatever the sort flag says. `App.SortClickRows` models only the rows the sort click itself shows.
- Usernames.Initials: takes the first character of each piece. `word[0]` in the program is the first UTF-16 code unit, so for a word starting outside the Basic Multilingual Plane the program yields a lone surrogate where the model yields the whole character.
- App.Transfer: stamps both new movements with one instant `now`. The program calls `new Date()` separately for the debit and the credit (`app.js:238`, `241`), so the two instants can differ by a millisecond.
- Usernames.LowerChar: lower-cases ASCII `A`-`Z` only. `toLowerCase` also maps other Unicode letters, which the seed owners do not contain.
