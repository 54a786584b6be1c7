/**
 The ledger of one account: its movements in insertion order and the totals
 derived from them (balance, income, expense and thresholded interest).
 Every sum is a left fold, the shape of `reduce((acc, mov) => acc + mov[0], 0)`.
 */
module Ledger {

  /** One entry of the history: a signed amount (deposit > 0, withdrawal < 0)
      and the instant it was recorded, in milliseconds since the epoch. */
  datatype Movement = Movement(amount: real, at: int)

  /** Sum of the amounts, folded from the first movement to the last: the
      `reduce((acc, mov) => acc + mov[0], 0)` of the balance and the summary.
      It folds the movements themselves, as the program does, rather than a
      mapped sequence of amounts; SumReals below is the separate fold over the
      plain numbers of the interest pipeline. */
  function Total(s: seq<Movement>): real
  {
    if |s| == 0 then 0.0 else Total(s[..|s| - 1]) + s[|s| - 1].amount
  }

  /** Sum of a sequence of reals, folded left: the final `reduce` of the
      interest, which runs over numbers rather than movements. */
  function SumReals(xs: seq<real>): real
  {
    if |xs| == 0 then 0.0 else SumReals(xs[..|xs| - 1]) + xs[|xs| - 1]
  }

  /** The movements with a strictly positive amount, in order (`filter(mov => mov[0] > 0)`). */
  function Deposits(s: seq<Movement>): (r: seq<Movement>)
    ensures |r| <= |s|
    ensures forall i :: 0 <= i < |r| ==> r[i].amount > 0.0
  {
    if |s| == 0 then []
    else if s[|s| - 1].amount > 0.0 then Deposits(s[..|s| - 1]) + [s[|s| - 1]]
    else Deposits(s[..|s| - 1])
  }

  /** The movements with a strictly negative amount, in order (`filter(mov => mov[0] < 0)`). */
  function Withdrawals(s: seq<Movement>): (r: seq<Movement>)
    ensures |r| <= |s|
    ensures forall i :: 0 <= i < |r| ==> r[i].amount < 0.0
  {
    if |s| == 0 then []
    else if s[|s| - 1].amount < 0.0 then Withdrawals(s[..|s| - 1]) + [s[|s| - 1]]
    else Withdrawals(s[..|s| - 1])
  }

  function Abs(x: real): real { if x < 0.0 then -x else x }

  /** The value `calcDisplayBalance` stores as the account's balance. */
  function Balance(s: seq<Movement>): real
  {
    Total(s)
  }

  /** Total of the deposits. */
  function Income(s: seq<Movement>): real
  {
    Total(Deposits(s))
  }

  /** Absolute value of the total of the withdrawals. */
  function Expense(s: seq<Movement>): real
  {
    Abs(Total(Withdrawals(s)))
  }

  /** Interest that one deposit would earn at `rate` percent, before the threshold. */
  function InterestTerms(deposits: seq<Movement>, rate: real): (r: seq<real>)
    ensures |r| == |deposits|
  {
    seq(|deposits|, i requires 0 <= i < |deposits| => Percent(deposits[i].amount, rate))
  }

  /** The terms that reach one unit of currency (`filter(int => int >= 1)`). */
  function AtLeastOne(xs: seq<real>): (r: seq<real>)
    ensures |r| <= |xs|
    ensures forall x :: x in r <==> x in xs && x >= 1.0
    ensures forall x :: multiset(r)[x] == if x >= 1.0 then multiset(xs)[x] else 0
  {
    if |xs| == 0 then []
    else
      assert xs == xs[..|xs| - 1] + [xs[|xs| - 1]];
      if xs[|xs| - 1] >= 1.0 then AtLeastOne(xs[..|xs| - 1]) + [xs[|xs| - 1]]
      else AtLeastOne(xs[..|xs| - 1])
  }

  /** Interest as the summary computes it: deposits, times rate over 100,
      each term below 1 dropped, the rest summed. */
  function Interest(s: seq<Movement>, rate: real): real
  {
    SumReals(AtLeastOne(InterestTerms(Deposits(s), rate)))
  }

  /** What one movement adds to the interest: its term when it is a deposit
      whose term reaches 1, else nothing. */
  function InterestOf(m: Movement, rate: real): (r: real)
    ensures r == 0.0 || (m.amount > 0.0 && r >= 1.0)
  {
    if m.amount > 0.0 && Percent(m.amount, rate) >= 1.0 then Percent(m.amount, rate) else 0.0
  }

  /** Independent per-movement definition of the interest, summed left to right. */
  function Accrued(s: seq<Movement>, rate: real): real
  {
    if |s| == 0 then 0.0 else Accrued(s[..|s| - 1], rate) + InterestOf(s[|s| - 1], rate)
  }

  // ---------------------------------------------------------------------------
  // Lemmas

  /** Totals distribute over concatenation. */
  lemma {:induction false} TotalAppend(a: seq<Movement>, b: seq<Movement>)
    ensures Total(a + b) == Total(a) + Total(b)
    decreases |b|
  {
    if |b| == 0 {
      assert a + b == a;
    } else {
      assert (a + b)[..|a + b| - 1] == a + b[..|b| - 1];
      TotalAppend(a, b[..|b| - 1]);
    }
  }

  /** Appending a movement changes the balance by exactly its amount. */
  lemma BalanceAfterAppend(s: seq<Movement>, m: Movement)
    ensures Balance(s + [m]) == Balance(s) + m.amount
  {
    assert (s + [m])[..|s|] == s;
  }

  /** How the two filters grow when one movement is appended. */
  lemma FiltersAfterAppend(s: seq<Movement>, m: Movement)
    ensures Deposits(s + [m]) == if m.amount > 0.0 then Deposits(s) + [m] else Deposits(s)
    ensures Withdrawals(s + [m]) == if m.amount < 0.0 then Withdrawals(s) + [m] else Withdrawals(s)
  {
    assert (s + [m])[..|s|] == s;
  }

  /** The filters keep exactly the movements of the right sign, and nothing else. */
  lemma {:induction false} FiltersSelectBySign(s: seq<Movement>)
    ensures forall m :: m in Deposits(s) <==> m in s && m.amount > 0.0
    ensures forall m :: m in Withdrawals(s) <==> m in s && m.amount < 0.0
  {
    if |s| > 0 {
      var p := s[..|s| - 1];
      var m := s[|s| - 1];
      assert s == p + [m];
      FiltersSelectBySign(p);
      FiltersAfterAppend(p, m);
    }
  }

  /** Income is never negative, and a withdrawal total is never positive. */
  lemma {:induction false} SignsOfTotals(s: seq<Movement>)
    ensures Total(Deposits(s)) >= 0.0
    ensures Total(Withdrawals(s)) <= 0.0
  {
    if |s| > 0 {
      var p := s[..|s| - 1];
      var m := s[|s| - 1];
      assert s == p + [m];
      SignsOfTotals(p);
      FiltersAfterAppend(p, m);
      BalanceAfterAppend(Deposits(p), m);
      BalanceAfterAppend(Withdrawals(p), m);
    }
  }

  /** Every movement is counted once, as a deposit or a withdrawal; a zero
      amount is counted in neither, which does not change the sum. */
  lemma {:induction false} TotalSplits(s: seq<Movement>)
    ensures Total(s) == Total(Deposits(s)) + Total(Withdrawals(s))
  {
    if |s| > 0 {
      var p := s[..|s| - 1];
      var m := s[|s| - 1];
      assert s == p + [m];
      TotalSplits(p);
      FiltersAfterAppend(p, m);
      BalanceAfterAppend(p, m);
      BalanceAfterAppend(Deposits(p), m);
      BalanceAfterAppend(Withdrawals(p), m);
    }
  }

  /** The summary is consistent with the balance: balance = income - expense,
      with both income and expense non-negative. */
  lemma BalanceIsIncomeMinusExpense(s: seq<Movement>)
    ensures Income(s) >= 0.0 && Expense(s) >= 0.0
    ensures Balance(s) == Income(s) - Expense(s)
  {
    SignsOfTotals(s);
    TotalSplits(s);
  }

  /** A movement of amount zero is counted neither as income nor as expense. */
  lemma ZeroAmountCountsInNeither(s: seq<Movement>, at: int)
    ensures Income(s + [Movement(0.0, at)]) == Income(s)
    ensures Expense(s + [Movement(0.0, at)]) == Expense(s)
  {
    FiltersAfterAppend(s, Movement(0.0, at));
  }

  lemma TermsAfterAppend(d: seq<Movement>, m: Movement, rate: real)
    ensures InterestTerms(d + [m], rate) == InterestTerms(d, rate) + [Percent(m.amount, rate)]
  {
    var u, t := InterestTerms(d + [m], rate), InterestTerms(d, rate);
    forall i | 0 <= i < |u| ensures u[i] == (t + [Percent(m.amount, rate)])[i] {
      if i < |d| {
        assert (d + [m])[i] == d[i];
      }
    }
  }

  lemma AtLeastOneAfterAppend(t: seq<real>, x: real)
    ensures AtLeastOne(t + [x]) == if x >= 1.0 then AtLeastOne(t) + [x] else AtLeastOne(t)
  {
    assert (t + [x])[..|t|] == t;
  }

  /** The kept terms' sum grows by a new term exactly when it reaches 1. */
  lemma KeptSumAfterAppend(t: seq<real>, x: real)
    ensures SumReals(AtLeastOne(t + [x])) == SumReals(AtLeastOne(t)) + (if x >= 1.0 then x else 0.0)
  {
    AtLeastOneAfterAppend(t, x);
    var a := AtLeastOne(t);
    assert (a + [x])[..|a|] == a;
  }

  /** How the interest pipeline grows when one movement is appended. */
  lemma InterestAfterAppend(s: seq<Movement>, m: Movement, rate: real)
    ensures Interest(s + [m], rate) == Interest(s, rate) + InterestOf(m, rate)
  {
    FiltersAfterAppend(s, m);
    if m.amount > 0.0 {
      TermsAfterAppend(Deposits(s), m, rate);
      KeptSumAfterAppend(InterestTerms(Deposits(s), rate), Percent(m.amount, rate));
    }
  }

  /** The filter/map/filter/reduce pipeline equals the per-movement definition. */
  lemma {:induction false} InterestIsAccrued(s: seq<Movement>, rate: real)
    ensures Interest(s, rate) == Accrued(s, rate)
  {
    if |s| == 0 {
    } else {
      var p := s[..|s| - 1];
      var m := s[|s| - 1];
      assert s == p + [m];
      InterestIsAccrued(p, rate);
      InterestAfterAppend(p, m, rate);
    }
  }

  /** `rate` percent of an amount. */
  function Percent(x: real, rate: real): real
  {
    x * rate / 100.0
  }

  /** `rate` percent of every deposit, without the threshold, summed left to right. */
  function DepositShare(s: seq<Movement>, rate: real): real
  {
    if |s| == 0 then 0.0
    else DepositShare(s[..|s| - 1], rate)
         + (if s[|s| - 1].amount > 0.0 then Percent(s[|s| - 1].amount, rate) else 0.0)
  }

  /** Taking a percentage distributes over one added amount. */
  lemma ScaleAdd(x: real, y: real, rate: real)
    ensures Percent(x + y, rate) == Percent(x, rate) + Percent(y, rate)
  {
    assert (x + y) * rate == x * rate + y * rate;
  }

  /** The untruncated share of the deposits is the share of the income. */
  lemma {:induction false} DepositShareOfIncome(s: seq<Movement>, rate: real)
    ensures DepositShare(s, rate) == Percent(Income(s), rate)
  {
    if |s| > 0 {
      var p := s[..|s| - 1];
      var m := s[|s| - 1];
      assert s == p + [m];
      DepositShareOfIncome(p, rate);
      FiltersAfterAppend(p, m);
      if m.amount > 0.0 {
        BalanceAfterAppend(Deposits(p), m);
        ScaleAdd(Income(p), m.amount, rate);
      }
    }
  }

  /** Dropping terms below 1 only lowers the sum when no term is negative. */
  lemma {:induction false} AccruedAtMostShare(s: seq<Movement>, rate: real)
    requires rate >= 0.0
    ensures Accrued(s, rate) <= DepositShare(s, rate)
  {
    if |s| > 0 {
      var m := s[|s| - 1];
      AccruedAtMostShare(s[..|s| - 1], rate);
      if m.amount > 0.0 {
        assert m.amount * rate >= 0.0;
      }
    }
  }

  /** Interest is non-negative. */
  lemma {:induction false} AccruedNonNegative(s: seq<Movement>, rate: real)
    ensures Accrued(s, rate) >= 0.0
  {
    if |s| > 0 {
      AccruedNonNegative(s[..|s| - 1], rate);
    }
  }

  /** For a non-negative rate, interest never exceeds the untruncated
      `income * rate / 100`. */
  lemma AccruedAtMostIncomeShare(s: seq<Movement>, rate: real)
    requires rate >= 0.0
    ensures Accrued(s, rate) <= Income(s) * rate / 100.0
  {
    AccruedAtMostShare(s, rate);
    DepositShareOfIncome(s, rate);
    assert Percent(Income(s), rate) == Income(s) * rate / 100.0;
  }

  /** The interest bounds of the summary, stated on the summary's own pipeline. */
  lemma InterestBounds(s: seq<Movement>, rate: real)
    ensures Interest(s, rate) >= 0.0
    ensures rate >= 0.0 ==> Interest(s, rate) <= Income(s) * rate / 100.0
  {
    InterestIsAccrued(s, rate);
    AccruedNonNegative(s, rate);
    if rate >= 0.0 {
      AccruedAtMostIncomeShare(s, rate);
    }
  }

  /** The threshold at work at 1.2 %: 79.97 earns 0.95964 and is dropped,
      1300 earns 15.6 and is kept. */
  lemma InterestThresholdExamples(at: int)
    ensures InterestOf(Movement(79.97, at), 1.2) == 0.0
    ensures InterestOf(Movement(1300.0, at), 1.2) == 15.6
    ensures Interest([Movement(79.97, at), Movement(1300.0, at)], 1.2) == 15.6
  {
    var s := [Movement(79.97, at), Movement(1300.0, at)];
    InterestIsAccrued(s, 1.2);
    assert s[..1] == [Movement(79.97, at)];
    assert s[..1][..0] == [];
    assert Accrued(s[..1], 1.2) == 0.0;
  }
}
