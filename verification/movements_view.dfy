/**
 The movement list as the history panel shows it: in insertion order, or a
 copy ascending by amount (`movements.slice().sort((a, b) => a[0] - b[0])`).
 The stored sequence is a value, so producing a view never changes it.
 */
module MovementsView {
  import opened Ledger

  /** Non-decreasing by amount. */
  predicate SortedByAmount(s: seq<Movement>)
  {
    forall i, j :: 0 <= i < j < |s| ==> s[i].amount <= s[j].amount
  }

  /** The movements of amount `a`, in their order in `s`. */
  function WithAmount(s: seq<Movement>, a: real): seq<Movement>
  {
    if |s| == 0 then []
    else (if s[0].amount == a then [s[0]] else []) + WithAmount(s[1..], a)
  }

  /** Places `m` in front of the first element whose amount is not smaller,
      so that `m` stays ahead of the equal amounts that came after it. */
  function Insert(m: Movement, s: seq<Movement>): (r: seq<Movement>)
    requires SortedByAmount(s)
    ensures SortedByAmount(r)
    ensures multiset(r) == multiset(s) + multiset{m}
    ensures r[0] == m || (|s| > 0 && r[0] == s[0])
  {
    if |s| == 0 then [m]
    else if m.amount <= s[0].amount then [m] + s
    else
      assert SortedByAmount(s[1..]);
      var t := Insert(m, s[1..]);
      assert s == [s[0]] + s[1..];
      assert s[0].amount <= t[0].amount;
      [s[0]] + t
  }

  /** Inserting `m` puts it ahead of every movement of the same amount. */
  lemma {:induction false} InsertStable(m: Movement, t: seq<Movement>, a: real)
    requires SortedByAmount(t)
    ensures WithAmount(Insert(m, t), a) == (if m.amount == a then [m] else []) + WithAmount(t, a)
  {
    if |t| > 0 && m.amount > t[0].amount {
      assert SortedByAmount(t[1..]);
      InsertStable(m, t[1..], a);
      var r := Insert(m, t);
      assert r == [t[0]] + Insert(m, t[1..]);
      assert r[1..] == Insert(m, t[1..]);
    } else if |t| > 0 {
      assert ([m] + t)[1..] == t;
    }
  }

  /** Stable insertion sort by amount: ascending, a permutation, and the
      movements of each amount keep their stored order. */
  function SortByAmount(s: seq<Movement>): (r: seq<Movement>)
    ensures SortedByAmount(r)
    ensures multiset(r) == multiset(s)
    ensures forall a :: WithAmount(r, a) == WithAmount(s, a)
  {
    if |s| == 0 then []
    else
      assert s == [s[0]] + s[1..];
      var t := SortByAmount(s[1..]);
      assert forall a :: WithAmount(Insert(s[0], t), a) == WithAmount(s, a) by {
        forall a {
          InsertStable(s[0], t, a);
        }
      }
      Insert(s[0], t)
  }

  /** The rows `displayMovements(acc, sort)` lists, in list order. */
  function View(s: seq<Movement>, sort: bool): (r: seq<Movement>)
    ensures multiset(r) == multiset(s)
    ensures !sort ==> r == s
    ensures sort ==> SortedByAmount(r)
    ensures forall a :: WithAmount(r, a) == WithAmount(s, a)
  {
    if sort then SortByAmount(s) else s
  }

  /** Sorting an already ascending history leaves it as it is. */
  lemma {:induction false} SortKeepsSorted(s: seq<Movement>)
    requires SortedByAmount(s)
    ensures SortByAmount(s) == s
  {
    if |s| > 0 {
      assert SortedByAmount(s[1..]);
      SortKeepsSorted(s[1..]);
      assert s == [s[0]] + s[1..];
    }
  }

  /** Sorting is idempotent: sorting the sorted view changes nothing. */
  lemma SortIdempotent(s: seq<Movement>)
    ensures SortByAmount(SortByAmount(s)) == SortByAmount(s)
  {
    SortKeepsSorted(SortByAmount(s));
  }
}
