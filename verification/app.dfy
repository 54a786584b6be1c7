/**
 The application state behind the click handlers and the logout timer, as one
 immutable record, and each handler or timer callback as a step function on it.

 Handlers that dereference `currentAccount` while it is undefined throw a
 TypeError in the program; such a step leaves the state as it was, except
 that a loan timeout's loan is used up.
 */
module App {
  import opened Wrappers
  import opened Ledger
  import opened Accounts
  import opened LogoutTimer
  import Usernames
  import MovementsView

  datatype AppState = AppState(
    objects: seq<Account>,     // every account object, including closed ones
    directory: seq<nat>,       // the `accounts` array, as positions in `objects`
    current: Option<nat>,      // `currentAccount`
    timer: Option<Countdown>,  // the logout countdown; None before the first login
    loggedIn: bool,            // whether the app panel is shown
    sorted: bool,              // the sort button's flag
    pendingLoans: seq<int>)    // floored amounts of loans whose timeout has not fired, oldest first

  /** Positions stored in the state point at existing objects. */
  predicate WellFormed(st: AppState)
  {
    && InRange(st.objects, st.directory)
    && (st.current.Some? ==> st.current.value < |st.objects|)
  }

  /** An object is in the array at most once. */
  predicate DirectoryDistinct(directory: seq<nat>)
  {
    forall i, j :: 0 <= i < j < |directory| ==> directory[i] != directory[j]
  }

  /** No two accounts in the array share a username. */
  predicate UsernamesUnique(objects: seq<Account>, directory: seq<nat>)
    requires InRange(objects, directory)
  {
    forall i, j :: 0 <= i < j < |directory| ==>
      objects[directory[i]].username != objects[directory[j]].username
  }

  /** Every username is the one derived from its owner. */
  predicate UsernamesDerived(objects: seq<Account>)
  {
    forall i :: 0 <= i < |objects| ==> objects[i].username == Usernames.Username(objects[i].owner)
  }

  /** A cached balance never exceeds the true sum of the movements. */
  predicate CachesUnderReport(objects: seq<Account>)
  {
    forall i :: 0 <= i < |objects| && objects[i].balance.Some? ==>
      objects[i].balance.value <= Balance(objects[i].movements)
  }

  /** A live countdown is between 0 and 299. */
  predicate TimerInRange(timer: Option<Countdown>)
  {
    timer.Some? && timer.value.running ==> 0 <= timer.value.time < LogoutSeconds
  }

  /** Only positive loans are ever scheduled. */
  predicate LoansPositive(loans: seq<int>)
  {
    forall k :: 0 <= k < |loans| ==> loans[k] > 0
  }

  /** The invariant every reachable state keeps. */
  predicate Valid(st: AppState)
  {
    && WellFormed(st)
    && DirectoryDistinct(st.directory)
    && UsernamesUnique(st.objects, st.directory)
    && UsernamesDerived(st.objects)
    && CachesUnderReport(st.objects)
    && TimerInRange(st.timer)
    && LoansPositive(st.pendingLoans)
  }

  /** The state after the script's top level has run. */
  function Init(): AppState
  {
    AppState([FirstSeed(), SecondSeed()], [0, 1], None, None, false, false, [])
  }

  /** Any two fresh accounts with derived, different usernames make a valid
      starting state. */
  lemma TwoAccountsValid(a: Account, b: Account)
    requires a.username == Usernames.Username(a.owner) && b.username == Usernames.Username(b.owner)
    requires a.username != b.username
    requires a.balance.None? && b.balance.None?
    ensures Valid(AppState([a, b], [0, 1], None, None, false, false, []))
  {
  }

  /** The initial state satisfies the invariant: two different objects with
      different derived usernames, and no balance cached yet. */
  lemma InitValid()
    ensures Valid(Init())
  {
    SeedKeys();
    TwoAccountsValid(FirstSeed(), SecondSeed());
  }

  // ---------------------------------------------------------------------------
  // Login

  /** Both credentials match an account in the array. */
  predicate LoginAccepted(st: AppState, username: string, pin: int)
    requires WellFormed(st)
  {
    var found := Find(st.objects, st.directory, username);
    found.Some? && st.objects[found.value].pin == pin
  }

  /** The login click. `currentAccount` is rebound to the search result before
      the pin is compared, so a failed login still changes it. On success the
      panel is shown, any countdown is replaced by a fresh one (after its
      immediate tick) and the account's balance is cached. */
  function Login(st: AppState, username: string, pin: int): (r: AppState)
    requires WellFormed(st)
    ensures WellFormed(r)
    ensures r.current == Find(st.objects, st.directory, username)
    ensures !LoginAccepted(st, username, pin) ==> r == st.(current := r.current)
    ensures LoginAccepted(st, username, pin) ==>
              && r.loggedIn
              && r.timer == Some(Countdown(LogoutSeconds - 1, true))
              && r.objects[r.current.value].balance == Some(Balance(st.objects[r.current.value].movements))
              && r == st.(current := r.current, loggedIn := true, timer := r.timer, objects := r.objects)
              && r.objects == Refresh(st.objects, r.current.value)
              && |r.objects| == |st.objects|
              && (forall i :: 0 <= i < |st.objects| ==> r.objects[i].movements == st.objects[i].movements)
  {
    var found := Find(st.objects, st.directory, username);
    if found.Some? && st.objects[found.value].pin == pin then
      st.(current := found, loggedIn := true, timer := Some(Start().next),
          objects := Refresh(st.objects, found.value))
    else
      st.(current := found)
  }

  // ---------------------------------------------------------------------------
  // Transfer

  /** The credited amount: the "ma" account gets 1.7 times the amount, any
      other account the amount divided by 1.7. */
  function Credit(receiver: string, amount: real): (c: real)
    ensures amount > 0.0 ==> c > 0.0
    ensures receiver == "ma" ==> c == amount * 1.7
    ensures receiver != "ma" ==> c * 1.7 == amount
  {
    if receiver == "ma" then amount * 1.7 else amount / 1.7
  }

  /** The guard of the transfer click: a positive amount, an existing receiver,
      a cached sender balance of at least the amount (an undefined cache
      compares false), and a receiver username other than the sender's. */
  predicate TransferAccepted(st: AppState, to: string, amount: real)
    requires WellFormed(st)
  {
    var receiver := Find(st.objects, st.directory, to);
    && amount > 0.0
    && receiver.Some?
    && st.current.Some?
    && st.objects[st.current.value].balance.Some?
    && st.objects[st.current.value].balance.value >= amount
    && st.objects[receiver.value].username != st.objects[st.current.value].username
  }

  /** The transfer click, at instant `now`. */
  function Transfer(st: AppState, to: string, amount: real, now: int): (r: AppState)
    requires WellFormed(st)
    ensures WellFormed(r)
    ensures !TransferAccepted(st, to, amount) ==> r == st
    ensures TransferAccepted(st, to, amount) ==>
              var sender := st.current.value;
              var receiver := Find(st.objects, st.directory, to).value;
              && sender != receiver
              && |r.objects| == |st.objects|
              && r.objects[sender].movements == st.objects[sender].movements + [Movement(-amount, now)]
              && r.objects[receiver].movements ==
                   st.objects[receiver].movements + [Movement(Credit(to, amount), now)]
              && (forall i :: 0 <= i < |st.objects| && i != sender && i != receiver ==>
                    r.objects[i] == st.objects[i])
              && r.objects[receiver] == st.objects[receiver].(movements := r.objects[receiver].movements)
              && r.objects[sender].balance == Some(Balance(r.objects[sender].movements))
              && r.objects[sender] == st.objects[sender].(movements := r.objects[sender].movements,
                                                          balance := r.objects[sender].balance)
              && r.timer == Some(Countdown(LogoutSeconds - 1, true))
              && r == st.(objects := r.objects, timer := r.timer)
  {
    if TransferAccepted(st, to, amount) then
      var sender := st.current.value;
      var receiver := Find(st.objects, st.directory, to).value;
      var debited := Record(st.objects, sender, Movement(-amount, now));
      var credited := Record(debited, receiver,
                             Movement(Credit(debited[receiver].username, amount), now));
      st.(objects := Refresh(credited, sender), timer := Some(Start().next))
    else
      st
  }

  // ---------------------------------------------------------------------------
  // Loans

  /** A floored loan amount is granted when it is positive and some existing
      movement is at least a tenth of it. */
  predicate LoanEligible(movements: seq<Movement>, amount: int)
  {
    amount > 0 && exists i :: 0 <= i < |movements| && movements[i].amount >= amount as real * 0.1
  }

  /** The loan click: `Math.floor` of the requested value; an eligible loan is
      scheduled, nothing else changes, and an ineligible one schedules nothing. */
  function RequestLoan(st: AppState, requested: real): (r: AppState)
    requires WellFormed(st)
    ensures WellFormed(r)
    ensures r == st || r == st.(pendingLoans := st.pendingLoans + [requested.Floor])
    ensures r != st <==>
              st.current.Some? && LoanEligible(st.objects[st.current.value].movements, requested.Floor)
  {
    var amount := requested.Floor;
    if st.current.Some? && LoanEligible(st.objects[st.current.value].movements, amount) then
      st.(pendingLoans := st.pendingLoans + [amount])
    else
      st
  }

  /** The oldest scheduled loan's timeout fires at instant `now`. It credits
      whatever account is current at that moment, refreshes its cached
      balance and restarts the countdown; with no current account the
      callback throws and only the timeout is used up. */
  function FireLoan(st: AppState, now: int): (r: AppState)
    requires WellFormed(st) && |st.pendingLoans| > 0
    ensures WellFormed(r)
    ensures r.pendingLoans == st.pendingLoans[1..]
    ensures st.current.None? ==> r == st.(pendingLoans := r.pendingLoans)
    ensures st.current.Some? ==>
              var target := st.current.value;
              && |r.objects| == |st.objects|
              && r.objects[target].movements ==
                   st.objects[target].movements + [Movement(st.pendingLoans[0] as real, now)]
              && r.objects[target].balance == Some(Balance(r.objects[target].movements))
              && r.objects[target] == st.objects[target].(movements := r.objects[target].movements,
                                                          balance := r.objects[target].balance)
              && (forall i :: 0 <= i < |st.objects| && i != target ==> r.objects[i] == st.objects[i])
              && r.timer == Some(Countdown(LogoutSeconds - 1, true))
              && r == st.(objects := r.objects, timer := r.timer, pendingLoans := r.pendingLoans)
  {
    var amount := st.pendingLoans[0];
    var rest := st.(pendingLoans := st.pendingLoans[1..]);
    if st.current.None? then
      rest
    else
      var target := st.current.value;
      rest.(objects := Refresh(Record(st.objects, target, Movement(amount as real, now)), target),
            timer := Some(Start().next))
  }

  // ---------------------------------------------------------------------------
  // Close

  /** The typed username and pin are the current account's. */
  predicate CloseConfirmed(st: AppState, username: string, pin: int)
    requires WellFormed(st)
  {
    && st.current.Some?
    && st.objects[st.current.value].username == username
    && st.objects[st.current.value].pin == pin
  }

  /** The close click: looks the current account's username up again in the
      array and splices out that position, which is the last entry when the
      lookup yields -1. The panel is hidden; the current account and the
      countdown are left as they are. */
  function Close(st: AppState, username: string, pin: int): (r: AppState)
    requires WellFormed(st)
    ensures WellFormed(r)
    ensures !CloseConfirmed(st, username, pin) ==> r == st
    ensures CloseConfirmed(st, username, pin) ==>
              var k := FindIndex(st.objects, st.directory, username);
              var p := if k == -1 then |st.directory| - 1 else k;
              && r == st.(directory := r.directory, loggedIn := false)
              && (|st.directory| == 0 ==> r.directory == [])
              && (|st.directory| > 0 ==>
                    && |r.directory| == |st.directory| - 1
                    && multiset(r.directory) + multiset{st.directory[p]} == multiset(st.directory)
                    && (forall i :: 0 <= i < p ==> r.directory[i] == st.directory[i])
                    && (forall i :: p <= i < |r.directory| ==> r.directory[i] == st.directory[i + 1]))
  {
    if CloseConfirmed(st, username, pin) then
      var k := FindIndex(st.objects, st.directory, st.objects[st.current.value].username);
      st.(directory := SpliceOne(st.directory, k), loggedIn := false)
    else
      st
  }

  // ---------------------------------------------------------------------------
  // Sort and tick

  /** The sort click: shows the current account's movements with the opposite
      of the flag, then flips the flag. Only the flag changes; with no
      current account the click throws before the flip. */
  function ToggleSort(st: AppState): (r: AppState)
    ensures r.objects == st.objects
    ensures r == st.(sorted := r.sorted)
    ensures r.sorted != st.sorted <==> st.current.Some?
  {
    if st.current.Some? then st.(sorted := !st.sorted) else st
  }

  /** The rows the sort click shows. */
  function SortClickRows(st: AppState): (rows: Option<seq<Movement>>)
    requires WellFormed(st)
    ensures rows.Some? <==> st.current.Some?
    ensures rows.Some? ==>
              var stored := st.objects[st.current.value].movements;
              && multiset(rows.value) == multiset(stored)
              && (st.sorted ==> rows.value == stored)
              && (!st.sorted ==> MovementsView.SortedByAmount(rows.value))
              && (forall a :: MovementsView.WithAmount(rows.value, a) == MovementsView.WithAmount(stored, a))
  {
    if st.current.Some? then
      Some(MovementsView.View(st.objects[st.current.value].movements, !st.sorted))
    else None
  }

  /** One firing of the countdown's interval. When the tick sees 0 the panel
      is hidden; `currentAccount` is not cleared, so later clicks still act on
      that account. */
  function Tick(st: AppState): (r: AppState)
    ensures r == st.(timer := r.timer, loggedIn := r.loggedIn)
    ensures st.timer.None? || !st.timer.value.running ==> r == st
    ensures st.timer.Some? && st.timer.value.running ==>
              && r.timer == Some(Fire(st.timer.value))
              && (r.loggedIn <==> st.loggedIn && st.timer.value.time != 0)
  {
    match st.timer
    case None => st
    case Some(c) =>
      if !c.running then st
      else
        var outcome := LogoutTimer.Tick(c);
        st.(timer := Some(outcome.next), loggedIn := if outcome.expired then false else st.loggedIn)
  }

  /** `n` firings of the countdown's interval with no other event in between. */
  function Ticks(st: AppState, n: nat): AppState
  {
    if n == 0 then st else Tick(Ticks(st, n - 1))
  }

  // ---------------------------------------------------------------------------
  // Events and the invariant

  /** Everything that can happen to the state: a click, a loan timeout or an
      interval firing of the countdown. */
  datatype Event =
    | LoginClick(username: string, pin: int)
    | TransferClick(to: string, amount: real, now: int)
    | LoanClick(requested: real)
    | LoanTimeout(now: int)
    | CloseClick(username: string, pin: int)
    | SortClick
    | TimerTick

  /** The state after one event. A loan timeout with no loan scheduled does
      not exist, so it changes nothing. */
  function Next(st: AppState, e: Event): AppState
    requires WellFormed(st)
  {
    match e
    case LoginClick(username, pin) => Login(st, username, pin)
    case TransferClick(to, amount, now) => Transfer(st, to, amount, now)
    case LoanClick(requested) => RequestLoan(st, requested)
    case LoanTimeout(now) => if |st.pendingLoans| > 0 then FireLoan(st, now) else st
    case CloseClick(username, pin) => Close(st, username, pin)
    case SortClick => ToggleSort(st)
    case TimerTick => Tick(st)
  }

  /** Appending to an account's history with a positive amount keeps its
      cache below the sum. */
  lemma CacheBelowAfterCredit(a: Account, m: Movement)
    requires a.balance.Some? ==> a.balance.value <= Balance(a.movements)
    requires m.amount > 0.0
    ensures a.balance.Some? ==> a.balance.value <= Balance(a.movements + [m])
  {
    BalanceAfterAppend(a.movements, m);
  }

  lemma LoginPreservesValid(st: AppState, username: string, pin: int)
    requires Valid(st)
    ensures Valid(Login(st, username, pin))
  {
  }

  lemma TransferPreservesValid(st: AppState, to: string, amount: real, now: int)
    requires Valid(st)
    ensures Valid(Transfer(st, to, amount, now))
  {
    if TransferAccepted(st, to, amount) {
      var r := Transfer(st, to, amount, now);
      var receiver := Find(st.objects, st.directory, to).value;
      CacheBelowAfterCredit(st.objects[receiver], Movement(Credit(to, amount), now));
      assert r.objects[receiver].balance == st.objects[receiver].balance;
      assert forall i :: 0 <= i < |r.objects| ==>
        r.objects[i].owner == st.objects[i].owner && r.objects[i].username == st.objects[i].username;
    }
  }

  lemma FireLoanPreservesValid(st: AppState, now: int)
    requires Valid(st) && |st.pendingLoans| > 0
    ensures Valid(FireLoan(st, now))
  {
    var r := FireLoan(st, now);
    assert forall i :: 0 <= i < |r.objects| ==>
      r.objects[i].owner == st.objects[i].owner && r.objects[i].username == st.objects[i].username;
  }

  /** Removing one position keeps the remaining entries distinct and their
      usernames unique. */
  lemma ClosePreservesValid(st: AppState, username: string, pin: int)
    requires Valid(st)
    ensures Valid(Close(st, username, pin))
  {
    if CloseConfirmed(st, username, pin) && |st.directory| > 0 {
      var r := Close(st, username, pin);
      var k := FindIndex(st.objects, st.directory, username);
      var p := if k == -1 then |st.directory| - 1 else k;
      var d, e := st.directory, r.directory;
      // position i of the result comes from position i of the array before p, i + 1 from p on
      assert forall i :: 0 <= i < |e| ==> e[i] == d[if i < p then i else i + 1];
      forall i, j | 0 <= i < j < |e|
        ensures e[i] != e[j]
        ensures st.objects[e[i]].username != st.objects[e[j]].username
      {
        var i', j' := if i < p then i else i + 1, if j < p then j else j + 1;
        assert e[i] == d[i'] && e[j] == d[j'] && i' < j';
      }
    }
  }

  lemma TickPreservesValid(st: AppState)
    requires Valid(st)
    ensures Valid(Tick(st))
  {
  }

  /** Every event keeps the invariant. */
  lemma NextPreservesValid(st: AppState, e: Event)
    requires Valid(st)
    ensures Valid(Next(st, e))
  {
    match e
    case LoginClick(username, pin) => LoginPreservesValid(st, username, pin);
    case TransferClick(to, amount, now) => TransferPreservesValid(st, to, amount, now);
    case LoanClick(requested) =>
    case LoanTimeout(now) =>
      if |st.pendingLoans| > 0 {
        FireLoanPreservesValid(st, now);
      }
    case CloseClick(username, pin) => ClosePreservesValid(st, username, pin);
    case SortClick =>
    case TimerTick => TickPreservesValid(st);
  }

  /** The state after a sequence of events, applied in order. */
  function Replay(st: AppState, events: seq<Event>): (r: AppState)
    requires Valid(st)
    ensures Valid(r)
    decreases |events|
  {
    if |events| == 0 then st
    else
      NextPreservesValid(st, events[0]);
      Replay(Next(st, events[0]), events[1..])
  }

  /** Every state reachable from the start satisfies the invariant. */
  lemma ReachableValid(events: seq<Event>)
    ensures Valid(Init()) && Valid(Replay(Init(), events))
  {
    InitValid();
  }

  // ---------------------------------------------------------------------------
  // Properties of the steps

  /** The stale cache can only under-report, so a transfer the guard lets
      through never overdraws: the sender's true balance covers the amount,
      drops by exactly the amount, and the receiver's rises by the credit. */
  lemma TransferNeverOverdraws(st: AppState, to: string, amount: real, now: int)
    requires Valid(st) && TransferAccepted(st, to, amount)
    ensures var sender := st.current.value;
            var receiver := Find(st.objects, st.directory, to).value;
            var r := Transfer(st, to, amount, now);
            && Balance(st.objects[sender].movements) >= amount
            && Balance(r.objects[sender].movements) == Balance(st.objects[sender].movements) - amount
            && Balance(r.objects[sender].movements) >= 0.0
            && Balance(r.objects[receiver].movements) ==
                 Balance(st.objects[receiver].movements) + Credit(to, amount)
  {
    var sender := st.current.value;
    var receiver := Find(st.objects, st.directory, to).value;
    BalanceAfterAppend(st.objects[sender].movements, Movement(-amount, now));
    BalanceAfterAppend(st.objects[receiver].movements, Movement(Credit(to, amount), now));
  }

  /** Closing the current account, while it is in the array, removes exactly
      that object and keeps every other one; afterwards its username is found
      nowhere in the array. */
  lemma CloseRemovesCurrentAccount(st: AppState, username: string, pin: int)
    requires Valid(st) && CloseConfirmed(st, username, pin)
    requires st.current.value in st.directory
    ensures var r := Close(st, username, pin);
            && st.current.value !in r.directory
            && (forall x :: x in st.directory && x != st.current.value ==> x in r.directory)
            && Find(r.objects, r.directory, username).None?
  {
    var r := Close(st, username, pin);
    var q :| 0 <= q < |st.directory| && st.directory[q] == st.current.value;
    assert FindIndex(st.objects, st.directory, username) == q;
    DropUnique(st.objects, st.directory, r.directory, q, username);
  }

  /** Dropping position `q` from an array whose usernames are unique removes
      the one object named `username` there and keeps every other object. */
  lemma DropUnique(objects: seq<Account>, d: seq<nat>, e: seq<nat>, q: nat, username: string)
    requires InRange(objects, d) && UsernamesUnique(objects, d)
    requires q < |d| && objects[d[q]].username == username
    requires |e| == |d| - 1
    requires forall i :: 0 <= i < q ==> e[i] == d[i]
    requires forall i :: q <= i < |e| ==> e[i] == d[i + 1]
    ensures forall i :: 0 <= i < |e| ==> e[i] < |objects| && objects[e[i]].username != username
    ensures forall x :: x in d && x != d[q] ==> x in e
  {
    forall i | 0 <= i < |e|
      ensures e[i] < |objects| && objects[e[i]].username != username
    {
      var j := if i < q then i else i + 1;
      assert e[i] == d[j] && j != q;
    }
    forall x | x in d && x != d[q]
      ensures x in e
    {
      var j :| 0 <= j < |d| && d[j] == x;
      assert e[if j < q then j else j - 1] == x;
    }
  }

  /** After the current account is closed, logging in again with its former
      credentials fails, and the failed attempt leaves no current account. */
  lemma ClosedCredentialsFail(st: AppState, username: string, pin: int)
    requires Valid(st) && CloseConfirmed(st, username, pin)
    requires st.current.value in st.directory
    ensures var r := Close(st, username, pin);
            && !Login(r, username, pin).loggedIn
            && Login(r, username, pin).current.None?
  {
    CloseRemovesCurrentAccount(st, username, pin);
  }

  /** If the current account is no longer in the array (it was closed
      before), `findIndex` yields -1 and the close click removes the last
      entry of the array instead, an account the user does not own. */
  lemma CloseDetachedRemovesLast(st: AppState, username: string, pin: int)
    requires WellFormed(st) && CloseConfirmed(st, username, pin) && |st.directory| > 0
    requires forall i :: 0 <= i < |st.directory| ==> st.objects[st.directory[i]].username != username
    ensures Close(st, username, pin).directory == st.directory[..|st.directory| - 1]
  {
  }

  /** Closing twice with the same credentials: the first click removes the
      current account, the second removes the last remaining entry. */
  lemma CloseTwice(st: AppState, username: string, pin: int)
    requires Valid(st) && CloseConfirmed(st, username, pin)
    requires st.current.value in st.directory && |st.directory| >= 2
    ensures var once := Close(st, username, pin);
            var twice := Close(once, username, pin);
            && |twice.directory| == |st.directory| - 2
            && twice.directory == once.directory[..|once.directory| - 1]
  {
    CloseRemovesCurrentAccount(st, username, pin);
    var once := Close(st, username, pin);
    assert CloseConfirmed(once, username, pin);
    CloseDetachedRemovesLast(once, username, pin);
  }

  /** The loan timeout credits whoever is current when it fires: a loan asked
      for by one account, followed by a failed login (wrong pin) that rebinds
      the current account to another one, is paid into that other account. */
  lemma LoanFollowsCurrentAccount(st: AppState, requested: real, other: string, wrongPin: int, now: int)
    requires WellFormed(st) && st.current.Some? && |st.pendingLoans| == 0
    requires LoanEligible(st.objects[st.current.value].movements, requested.Floor)
    requires Find(st.objects, st.directory, other).Some?
    requires Find(st.objects, st.directory, other).value != st.current.value
    requires st.objects[Find(st.objects, st.directory, other).value].pin != wrongPin
    ensures var asker := st.current.value;
            var payee := Find(st.objects, st.directory, other).value;
            var r := FireLoan(Login(RequestLoan(st, requested), other, wrongPin), now);
            && r.objects[payee].movements == st.objects[payee].movements + [Movement(requested.Floor as real, now)]
            && r.objects[asker].movements == st.objects[asker].movements
  {
    var s1 := RequestLoan(st, requested);
    assert s1.pendingLoans == [requested.Floor];
    var s2 := Login(s1, other, wrongPin);
    assert !LoginAccepted(s1, other, wrongPin);
  }

  /** A failed login with an unknown username clears the current account, so
      a scheduled loan then fires into nothing and is lost. */
  lemma LoanLostAfterUnknownLogin(st: AppState, stranger: string, pin: int, now: int)
    requires WellFormed(st) && |st.pendingLoans| > 0
    requires Find(st.objects, st.directory, stranger).None?
    ensures var r := FireLoan(Login(st, stranger, pin), now);
            && r.objects == st.objects
            && |r.pendingLoans| == |st.pendingLoans| - 1
  {
  }

  /** The eligibility examples: with a single movement of 50, a loan of 400
      (needs a movement of 40) is granted, one of 600 (needs 60) is not. */
  lemma LoanEligibilityExamples(at: int)
    ensures LoanEligible([Movement(50.0, at)], 400)
    ensures !LoanEligible([Movement(50.0, at)], 600)
  {
    assert [Movement(50.0, at)][0].amount >= 400 as real * 0.1;
  }

  /** With no other event, the interval counts a live countdown of `t`
      seconds down for `t` firings, leaving everything else alone. */
  lemma {:induction false} TicksCountDown(st: AppState, t: int, n: nat)
    requires st.timer == Some(Countdown(t, true)) && 0 <= n <= t
    ensures Ticks(st, n) == st.(timer := Some(Countdown(t - n, true)))
  {
    if n > 0 {
      TicksCountDown(st, t, n - 1);
    }
  }

  /** The next firing sees 0: the panel is hidden and the interval cleared,
      but the current account stays what it was. */
  lemma TicksExpire(st: AppState, t: int)
    requires st.timer == Some(Countdown(t, true)) && 0 <= t
    ensures Ticks(st, t + 1) == st.(timer := Some(Countdown(-1, false)), loggedIn := false)
    ensures Ticks(st, t + 1).current == st.current
  {
    TicksCountDown(st, t, t);
  }

  /** After a successful login, 299 further firings keep the panel shown and
      the 300th (the countdown's 301st tick, counting the immediate one at
      login) hides it, with the logged-in account still current. */
  lemma SessionExpiresAfterLogin(st: AppState, username: string, pin: int)
    requires WellFormed(st) && LoginAccepted(st, username, pin)
    ensures var s := Login(st, username, pin);
            && Ticks(s, LogoutSeconds - 1).loggedIn
            && !Ticks(s, LogoutSeconds).loggedIn
            && Ticks(s, LogoutSeconds).current == s.current
            && s.current.Some?
  {
    var s := Login(st, username, pin);
    TicksCountDown(s, LogoutSeconds - 1, LogoutSeconds - 1);
    TicksExpire(s, LogoutSeconds - 1);
  }
}
