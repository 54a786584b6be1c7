/**
 Account records and the directory operations on the `accounts` array.
 JavaScript keeps references to account objects, and a closed account stays
 reachable through `currentAccount` after it leaves the array. The model
 therefore keeps every account object in `objects` and represents the array
 as `directory`, a sequence of positions in `objects`.
 */
module Accounts {
  import opened Wrappers
  import opened Ledger
  import Usernames

  /** An account object. `balance` is the value `calcDisplayBalance` last
      cached on it: None until that first runs for this object. */
  datatype Account = Account(
    owner: string,
    username: string,
    movements: seq<Movement>,
    interestRate: real,
    pin: int,
    balance: Option<real>)

  /** Every directory entry names an existing object. */
  predicate InRange(objects: seq<Account>, directory: seq<nat>)
  {
    forall i :: 0 <= i < |directory| ==> directory[i] < |objects|
  }

  /** `accounts.findIndex(acc => acc.username === name)`: the first position
      whose account has that username, or -1. */
  function FindIndex(objects: seq<Account>, directory: seq<nat>, name: string): (k: int)
    requires InRange(objects, directory)
    ensures -1 <= k < |directory|
    ensures k == -1 <==> forall i :: 0 <= i < |directory| ==> objects[directory[i]].username != name
    ensures k >= 0 ==> objects[directory[k]].username == name
    ensures k >= 0 ==> forall i :: 0 <= i < k ==> objects[directory[i]].username != name
  {
    if |directory| == 0 then -1
    else if objects[directory[0]].username == name then 0
    else
      var k := FindIndex(objects, directory[1..], name);
      if k == -1 then -1 else k + 1
  }

  /** `accounts.find(acc => acc.username === name)`: the object found, if any. */
  function Find(objects: seq<Account>, directory: seq<nat>, name: string): (r: Option<nat>)
    requires InRange(objects, directory)
    ensures r.Some? <==> exists i :: 0 <= i < |directory| && objects[directory[i]].username == name
    ensures r.Some? ==> r.value in directory && r.value < |objects| && objects[r.value].username == name
    ensures r.Some? ==> exists k :: 0 <= k < |directory| && r.value == directory[k]
                         && forall i :: 0 <= i < k ==> objects[directory[i]].username != name
  {
    var k := FindIndex(objects, directory, name);
    if k == -1 then None else Some(directory[k])
  }

  /** `xs.splice(start, 1)`: a negative start counts from the end, and a
      start past the end removes nothing. */
  function SpliceOne<T>(xs: seq<T>, start: int): (r: seq<T>)
    ensures |xs| == 0 ==> r == xs
    ensures |xs| > 0 && -|xs| <= start < |xs| ==>
              var p := if start < 0 then |xs| + start else start;
              && |r| == |xs| - 1
              && (forall i :: 0 <= i < p ==> r[i] == xs[i])
              && (forall i :: p <= i < |r| ==> r[i] == xs[i + 1])
              && multiset(r) + multiset{xs[p]} == multiset(xs)
  {
    var p := if start < 0 then (if |xs| + start > 0 then |xs| + start else 0)
             else (if start < |xs| then start else |xs|);
    if p < |xs| then
      assert xs == xs[..p] + [xs[p]] + xs[p + 1..];
      xs[..p] + xs[p + 1..]
    else xs
  }

  /** Appends one movement to an object's history (`movements.push`). */
  function Record(objects: seq<Account>, i: nat, m: Movement): (r: seq<Account>)
    requires i < |objects|
    ensures |r| == |objects|
    ensures r[i].movements == objects[i].movements + [m]
    ensures r[i] == objects[i].(movements := r[i].movements)
    ensures forall j :: 0 <= j < |objects| && j != i ==> r[j] == objects[j]
  {
    objects[i := objects[i].(movements := objects[i].movements + [m])]
  }

  /** `calcDisplayBalance(acc)`: caches the current sum on the object. */
  function Refresh(objects: seq<Account>, i: nat): (r: seq<Account>)
    requires i < |objects|
    ensures |r| == |objects|
    ensures r[i].balance == Some(Balance(objects[i].movements))
    ensures r[i] == objects[i].(balance := r[i].balance)
    ensures forall j :: 0 <= j < |objects| && j != i ==> r[j] == objects[j]
  {
    objects[i := objects[i].(balance := Some(Balance(objects[i].movements)))]
  }

  /** A seed account as `createUsernames` leaves it: username derived, no balance cached yet. */
  function SeedAccount(owner: string, movements: seq<Movement>, rate: real, pin: int): (a: Account)
    ensures a.owner == owner && a.movements == movements && a.interestRate == rate && a.pin == pin
    ensures a.username == Usernames.Username(owner)
    ensures a.balance.None?
  {
    Account(owner, Usernames.Username(owner), movements, rate, pin, None)
  }

  function FirstSeed(): Account
  {
    SeedAccount("Mustafa Abdullazada", FirstSeedMovements(), 1.2, 1111)
  }

  function SecondSeed(): Account
  {
    SeedAccount("Jessica Davis", SecondSeedMovements(), 1.5, 2222)
  }

  function FirstSeedMovements(): seq<Movement>
  {
    [
      Movement(200.0, 1605735077178),
      Movement(455.23, 1608709322383),
      Movement(-306.5, 1611825304904),
      Movement(25000.0, 1617272244185),
      Movement(-642.21, 1620483119604),
      Movement(-133.9, 1650819677194),
      Movement(79.97, 1651188977929),
      Movement(1300.0, 1651229496790)
    ]
  }

  function SecondSeedMovements(): seq<Movement>
  {
    [
      Movement(5000.0, 1604236533035),
      Movement(3400.0, 1606729696867),
      Movement(-150.0, 1608876263907),
      Movement(-790.0, 1611584326235),
      Movement(-3210.0, 1612542786386),
      Movement(-1000.0, 1618065806374),
      Movement(8500.0, 1624646999371),
      Movement(-30.0, 1627300880894)
    ]
  }

  /** The two hard-coded accounts have usernames "ma" and "jd". */
  lemma SeedKeys()
    ensures FirstSeed().username == "ma" && SecondSeed().username == "jd"
  {
    Usernames.SeedUsernameFirst();
    Usernames.SeedUsernameSecond();
  }

  /** The first seeded account's balance is the sum of its eight movements. */
  lemma FirstSeedBalance()
    ensures Balance(FirstSeedMovements()) == 25952.59
  {
    var s := FirstSeedMovements();
    assert Total(s[..1]) == 200.0;
    assert s[..2][..1] == s[..1];
    assert Total(s[..2]) == 655.23;
    assert s[..3][..2] == s[..2];
    assert Total(s[..3]) == 348.73;
    assert s[..4][..3] == s[..3];
    assert Total(s[..4]) == 25348.73;
    assert s[..5][..4] == s[..4];
    assert Total(s[..5]) == 24706.52;
    assert s[..6][..5] == s[..5];
    assert Total(s[..6]) == 24572.62;
    assert s[..7][..6] == s[..6];
    assert Total(s[..7]) == 24652.59;
    assert s[..8] == s;
    assert s[..8][..7] == s[..7];
  }

  /** The first seeded account's interest at 1.2 %: 2.4 + 5.46276 + 300 + 15.6,
      the 79.97 deposit earning less than 1 and being dropped. */
  lemma FirstSeedInterest()
    ensures Interest(FirstSeedMovements(), 1.2) == 323.46276
  {
    var s := FirstSeedMovements();
    InterestIsAccrued(s, 1.2);
    assert Accrued(s[..1], 1.2) == 2.4;
    assert s[..2][..1] == s[..1];
    assert Accrued(s[..2], 1.2) == 7.86276;
    assert s[..3][..2] == s[..2];
    assert Accrued(s[..3], 1.2) == 7.86276;
    assert s[..4][..3] == s[..3];
    assert Accrued(s[..4], 1.2) == 307.86276;
    assert s[..5][..4] == s[..4];
    assert Accrued(s[..5], 1.2) == 307.86276;
    assert s[..6][..5] == s[..5];
    assert Accrued(s[..6], 1.2) == 307.86276;
    assert s[..7][..6] == s[..6];
    assert Accrued(s[..7], 1.2) == 307.86276;
    assert s[..8] == s;
    assert s[..8][..7] == s[..7];
  }
}
