/** The naive recursive counters rlcs and red. They exist to count how often
    the plain recursion is entered: every call of a helper adds one to the
    global total and one to the visit counter of its cell in a zero-filled
    table. The character test x[i] == y[j] of the helpers is a parameter eq
    here (the index it uses is off by one, which is outside this model), and
    the values the helpers return are modelled only because the MAX and MIN
    macros pick which recursive call to evaluate a second time by them. */
module Naive {
  import opened Recurrences
  import Memo

  /** The global total and the visit-count table the helpers update. */
  datatype Tally = Tally(total: int, visits: seq<seq<int>>)

  function RowSum(r: seq<int>): int {
    if |r| == 0 then 0 else RowSum(r[..|r|-1]) + r[|r|-1]
  }

  /** The sum of all counters of a table. */
  function Sum(t: seq<seq<int>>): int {
    if |t| == 0 then 0 else Sum(t[..|t|-1]) + RowSum(t[|t|-1])
  }

  /** The table initZeroTable leaves: every counter 0. */
  function ZeroTable(m: nat, n: nat): (t: seq<seq<int>>)
    ensures Shaped(t, m, n)
    ensures forall a, b :: 0 <= a <= m && 0 <= b <= n ==> t[a][b] == 0
  {
    seq(m + 1, _ => seq(n + 1, _ => 0))
  }

  /** total++ and table[i][j]++ at the head of every helper call. */
  function Visit(s: Tally, m: nat, n: nat, i: nat, j: nat): (r: Tally)
    requires Shaped(s.visits, m, n) && i <= m && j <= n
    ensures Shaped(r.visits, m, n)
  {
    Tally(s.total + 1, s.visits[i := s.visits[i][j := s.visits[i][j] + 1]])
  }

  // ---------------------------------------------------------------------------
  // The values the helpers compute (as written, with eq for the character test)

  /** The value rlcshelper returns: the LCS recurrence on eq. */
  function RlcsValue(eq: (nat, nat) -> bool, i: nat, j: nat): int
    decreases i + j
  {
    if i == 0 || j == 0 then 0
    else if eq(i, j) then 1 + RlcsValue(eq, i-1, j-1)
    else Max(RlcsValue(eq, i-1, j), RlcsValue(eq, i, j-1))
  }

  /** The value redhelper returns: the edit-distance recurrence on eq, except
      that both base cases return 0 as the code does. */
  function RedValue(eq: (nat, nat) -> bool, i: nat, j: nat): int
    decreases i + j
  {
    if i == 0 || j == 0 then 0
    else if eq(i, j) then RedValue(eq, i-1, j-1)
    else Min(RedValue(eq, i-1, j), Min(RedValue(eq, i, j-1), RedValue(eq, i-1, j-1))) + 1
  }

  // ---------------------------------------------------------------------------
  // Reference call counts

  /** How many helper calls rlcshelper(i, j) makes, itself included. As
      written, MAX(a, b) evaluates a and b and then the larger one (b on a
      tie) once more; corrected, each is evaluated once. */
  function RlcsCalls(eq: (nat, nat) -> bool, i: nat, j: nat, v: Variant): nat
    decreases i + j
  {
    if i == 0 || j == 0 then 1
    else if eq(i, j) then 1 + RlcsCalls(eq, i-1, j-1, v)
    else
      var up, left := RlcsCalls(eq, i-1, j, v), RlcsCalls(eq, i, j-1, v);
      var again := if v == Corrected then 0
                   else if RlcsValue(eq, i-1, j) > RlcsValue(eq, i, j-1) then up else left;
      1 + up + left + again
  }

  /** How many calls the inner MIN(redhelper(i, j-1), redhelper(i-1, j-1))
      makes: both, and as written the smaller one (the second on a tie) again. */
  function RedInnerCalls(eq: (nat, nat) -> bool, i: nat, j: nat, v: Variant): nat
    requires i > 0 && j > 0
    decreases i + j, 0
  {
    var left, diag := RedCalls(eq, i, j-1, v), RedCalls(eq, i-1, j-1, v);
    var again := if v == Corrected then 0
                 else if RedValue(eq, i, j-1) < RedValue(eq, i-1, j-1) then left else diag;
    left + diag + again
  }

  /** How many helper calls redhelper(i, j) makes, itself included. As
      written, the outer MIN evaluates redhelper(i-1, j) and the inner MIN,
      then the smaller of the two once more. */
  function RedCalls(eq: (nat, nat) -> bool, i: nat, j: nat, v: Variant): nat
    decreases i + j, 1
  {
    if i == 0 || j == 0 then 1
    else if eq(i, j) then 1 + RedCalls(eq, i-1, j-1, v)
    else
      var up, inner := RedCalls(eq, i-1, j, v), RedInnerCalls(eq, i, j, v);
      var again := if v == Corrected then 0
                   else if RedValue(eq, i-1, j) < Min(RedValue(eq, i, j-1), RedValue(eq, i-1, j-1)) then up else inner;
      1 + up + inner + again
  }

  // ---------------------------------------------------------------------------
  // The helpers, threading the tally through the calls left to right

  /** Every counter of s1 is at least the one in s0, and the counters of
      cells outside the rectangle (0, 0) .. (i, j) are untouched. */
  ghost predicate Grows(s0: Tally, s1: Tally, m: nat, n: nat, i: int, j: int)
    requires Shaped(s0.visits, m, n) && Shaped(s1.visits, m, n)
  {
    forall a, b :: 0 <= a <= m && 0 <= b <= n ==>
      s1.visits[a][b] >= s0.visits[a][b] && (a > i || b > j ==> s1.visits[a][b] == s0.visits[a][b])
  }

  /** rlcshelper. */
  function RlcsHelper(eq: (nat, nat) -> bool, m: nat, n: nat, i: nat, j: nat, s: Tally, v: Variant): (r: (int, Tally))
    requires Shaped(s.visits, m, n) && i <= m && j <= n
    ensures Shaped(r.1.visits, m, n)
    ensures r.0 == RlcsValue(eq, i, j)
    ensures r.1.total == s.total + RlcsCalls(eq, i, j, v)
    ensures Sum(r.1.visits) - Sum(s.visits) == r.1.total - s.total
    ensures Grows(s, r.1, m, n, i, j) && r.1.visits[i][j] > s.visits[i][j]
    decreases i + j
  {
    var s1 := Visit(s, m, n, i, j);
    VisitSum(s, m, n, i, j);
    if i == 0 || j == 0 then (0, s1)
    else if eq(i, j) then
      var (a, s2) := RlcsHelper(eq, m, n, i-1, j-1, s1, v);
      (1 + a, s2)
    else
      var (a, s2) := RlcsHelper(eq, m, n, i-1, j, s1, v);
      var (b, s3) := RlcsHelper(eq, m, n, i, j-1, s2, v);
      if v == Corrected then (Max(a, b), s3)
      else if a > b then RlcsHelper(eq, m, n, i-1, j, s3, v)
      else RlcsHelper(eq, m, n, i, j-1, s3, v)
  }

  /** The inner MIN(redhelper(i, j-1), redhelper(i-1, j-1)) of redhelper. */
  function RedInner(eq: (nat, nat) -> bool, m: nat, n: nat, i: nat, j: nat, s: Tally, v: Variant): (r: (int, Tally))
    requires Shaped(s.visits, m, n) && 0 < i <= m && 0 < j <= n
    ensures Shaped(r.1.visits, m, n)
    ensures r.0 == Min(RedValue(eq, i, j-1), RedValue(eq, i-1, j-1))
    ensures r.1.total == s.total + RedInnerCalls(eq, i, j, v)
    ensures Sum(r.1.visits) - Sum(s.visits) == r.1.total - s.total
    ensures Grows(s, r.1, m, n, i, j - 1)
    decreases i + j, 0
  {
    var (c, s1) := RedHelper(eq, m, n, i, j-1, s, v);
    var (d, s2) := RedHelper(eq, m, n, i-1, j-1, s1, v);
    if v == Corrected then (Min(c, d), s2)
    else if c < d then RedHelper(eq, m, n, i, j-1, s2, v)
    else RedHelper(eq, m, n, i-1, j-1, s2, v)
  }

  /** redhelper. */
  function RedHelper(eq: (nat, nat) -> bool, m: nat, n: nat, i: nat, j: nat, s: Tally, v: Variant): (r: (int, Tally))
    requires Shaped(s.visits, m, n) && i <= m && j <= n
    ensures Shaped(r.1.visits, m, n)
    ensures r.0 == RedValue(eq, i, j)
    ensures r.1.total == s.total + RedCalls(eq, i, j, v)
    ensures Sum(r.1.visits) - Sum(s.visits) == r.1.total - s.total
    ensures Grows(s, r.1, m, n, i, j) && r.1.visits[i][j] > s.visits[i][j]
    decreases i + j, 2
  {
    var s1 := Visit(s, m, n, i, j);
    VisitSum(s, m, n, i, j);
    if i == 0 || j == 0 then (0, s1)
    else if eq(i, j) then RedHelper(eq, m, n, i-1, j-1, s1, v)
    else RedMismatch(eq, m, n, i, j, s1, v)
  }

  /** The mismatch branch of redhelper, after its own visit has been counted:
      1 + MIN(redhelper(i-1, j), MIN(...)), with the smaller operand
      evaluated a second time as written. */
  function RedMismatch(eq: (nat, nat) -> bool, m: nat, n: nat, i: nat, j: nat, s: Tally, v: Variant): (r: (int, Tally))
    requires Shaped(s.visits, m, n) && 0 < i <= m && 0 < j <= n && !eq(i, j)
    ensures Shaped(r.1.visits, m, n)
    ensures r.0 == RedValue(eq, i, j)
    ensures r.1.total == s.total + RedCalls(eq, i, j, v) - 1
    ensures Sum(r.1.visits) - Sum(s.visits) == r.1.total - s.total
    ensures Grows(s, r.1, m, n, i, j)
    decreases i + j, 1
  {
    var (a, s2) := RedHelper(eq, m, n, i-1, j, s, v);
    var (b, s3) := RedInner(eq, m, n, i, j, s2, v);
    if v == Corrected then (Min(a, b) + 1, s3)
    else if a < b then
      var (a', s4) := RedHelper(eq, m, n, i-1, j, s3, v);
      (a' + 1, s4)
    else
      var (b', s4) := RedInner(eq, m, n, i, j, s3, v);
      (b' + 1, s4)
  }

  /** rlcs: reset total, zero the table, run the helper on (m, n) and return
      total. It equals the sum of all visit counters and is at least 1. */
  function Rlcs(eq: (nat, nat) -> bool, m: nat, n: nat, v: Variant): (r: (int, seq<seq<int>>))
    ensures Shaped(r.1, m, n)
    ensures r.0 == Sum(r.1) == RlcsCalls(eq, m, n, v)
    ensures r.0 >= 1 && r.1[m][n] >= 1
  {
    ZeroSum(m, n);
    var (_, s) := RlcsHelper(eq, m, n, m, n, Tally(0, ZeroTable(m, n)), v);
    (s.total, s.visits)
  }

  /** red: as Rlcs, for the edit-distance helper. */
  function Red(eq: (nat, nat) -> bool, m: nat, n: nat, v: Variant): (r: (int, seq<seq<int>>))
    ensures Shaped(r.1, m, n)
    ensures r.0 == Sum(r.1) == RedCalls(eq, m, n, v)
    ensures r.0 >= 1 && r.1[m][n] >= 1
  {
    ZeroSum(m, n);
    var (_, s) := RedHelper(eq, m, n, m, n, Tally(0, ZeroTable(m, n)), v);
    (s.total, s.visits)
  }

  // ---------------------------------------------------------------------------
  // Sums

  lemma {:induction false} RowSumUpdate(r: seq<int>, j: nat, d: int)
    requires j < |r|
    ensures RowSum(r[j := r[j] + d]) == RowSum(r) + d
  {
    var r' := r[j := r[j] + d];
    if j < |r| - 1 {
      assert r'[..|r'|-1] == r[..|r|-1][j := r[j] + d];
      RowSumUpdate(r[..|r|-1], j, d);
    } else {
      assert r'[..|r'|-1] == r[..|r|-1];
    }
  }

  lemma {:induction false} SumUpdate(t: seq<seq<int>>, i: nat, j: nat, d: int)
    requires i < |t| && j < |t[i]|
    ensures Sum(t[i := t[i][j := t[i][j] + d]]) == Sum(t) + d
  {
    var t' := t[i := t[i][j := t[i][j] + d]];
    if i < |t| - 1 {
      assert t'[..|t'|-1] == t[..|t|-1][i := t[i][j := t[i][j] + d]];
      SumUpdate(t[..|t|-1], i, j, d);
    } else {
      assert t'[..|t'|-1] == t[..|t|-1];
      RowSumUpdate(t[i], j, d);
    }
  }

  /** A visit adds one to the total and one to the sum of the counters. */
  lemma VisitSum(s: Tally, m: nat, n: nat, i: nat, j: nat)
    requires Shaped(s.visits, m, n) && i <= m && j <= n
    ensures Sum(Visit(s, m, n, i, j).visits) == Sum(s.visits) + 1
    ensures Visit(s, m, n, i, j).total == s.total + 1
    ensures Visit(s, m, n, i, j).visits[i][j] == s.visits[i][j] + 1
    ensures forall a, b :: 0 <= a <= m && 0 <= b <= n && (a != i || b != j) ==>
      Visit(s, m, n, i, j).visits[a][b] == s.visits[a][b]
  {
    SumUpdate(s.visits, i, j, 1);
  }

  lemma {:induction false} ZeroRowSum(k: nat)
    ensures RowSum(seq(k, _ => 0)) == 0
  {
    if k > 0 {
      assert seq(k, _ => 0)[..k-1] == seq(k - 1, _ => 0);
      ZeroRowSum(k - 1);
    }
  }

  lemma {:induction false} ZeroSumRows(k: nat, n: nat)
    ensures Sum(seq(k, _ => seq(n + 1, _ => 0))) == 0
  {
    if k > 0 {
      assert seq(k, _ => seq(n + 1, _ => 0))[..k-1] == seq(k - 1, _ => seq(n + 1, _ => 0));
      ZeroSumRows(k - 1, n);
      ZeroRowSum(n + 1);
    }
  }

  /** The zero-filled table sums to 0. */
  lemma ZeroSum(m: nat, n: nat)
    ensures Sum(ZeroTable(m, n)) == 0
  {
    ZeroSumRows(m + 1, n);
  }

  // ---------------------------------------------------------------------------
  // The macro slip

  /** eq is the character test the recurrences make: position a of x against
      position b of y, counted from 1. */
  ghost predicate Aligned(x: string, y: string, eq: (nat, nat) -> bool) {
    forall a, b :: 1 <= a <= |x| && 1 <= b <= |y| ==> eq(a, b) == (x[a-1] == y[b-1])
  }

  /** With eq as the test x[a-1] == y[b-1] that lcs and mlcshelper make,
      rlcshelper's value is the LCS length. */
  lemma {:induction false} RlcsValueIsLcs(x: string, y: string, eq: (nat, nat) -> bool, i: nat, j: nat)
    requires i <= |x| && j <= |y|
    requires Aligned(x, y, eq)
    ensures RlcsValue(eq, i, j) == LcsCell(x, y, i, j)
    decreases i + j
  {
    if i > 0 && j > 0 {
      RlcsValueIsLcs(x, y, eq, i-1, j-1);
      RlcsValueIsLcs(x, y, eq, i-1, j);
      RlcsValueIsLcs(x, y, eq, i, j-1);
    }
  }

  /** Re-evaluating the chosen call never makes fewer calls. */
  lemma {:induction false} RlcsMacroCostsMore(eq: (nat, nat) -> bool, i: nat, j: nat)
    ensures RlcsCalls(eq, i, j, AsWritten) >= RlcsCalls(eq, i, j, Corrected) >= 1
    decreases i + j
  {
    if i > 0 && j > 0 {
      RlcsMacroCostsMore(eq, i-1, j-1);
      RlcsMacroCostsMore(eq, i-1, j);
      RlcsMacroCostsMore(eq, i, j-1);
    }
  }

  lemma {:induction false} RedMacroCostsMore(eq: (nat, nat) -> bool, i: nat, j: nat)
    ensures RedCalls(eq, i, j, AsWritten) >= RedCalls(eq, i, j, Corrected) >= 1
    decreases i + j
  {
    if i > 0 && j > 0 {
      RedMacroCostsMore(eq, i-1, j-1);
      RedMacroCostsMore(eq, i-1, j);
      RedMacroCostsMore(eq, i, j-1);
    }
  }

  // ---------------------------------------------------------------------------
  // Naive against memoised

  /** With the aligned character test, the corrected rlcshelper makes
      exactly the calls of the plain LCS recursion. */
  lemma {:induction false} RlcsCallsAreTree(x: string, y: string, eq: (nat, nat) -> bool, i: nat, j: nat)
    requires i <= |x| && j <= |y| && Aligned(x, y, eq)
    ensures RlcsCalls(eq, i, j, Corrected) == Memo.TreeSize(Memo.LcsMetric, x, y, i, j)
    decreases i + j
  {
    if i > 0 && j > 0 {
      assert eq(i, j) == (x[i-1] == y[j-1]);
      RlcsCallsAreTree(x, y, eq, i-1, j-1);
      RlcsCallsAreTree(x, y, eq, i-1, j);
      RlcsCallsAreTree(x, y, eq, i, j-1);
    }
  }

  /** The same for the corrected redhelper and the edit-distance recursion. */
  lemma {:induction false} RedCallsAreTree(x: string, y: string, eq: (nat, nat) -> bool, i: nat, j: nat)
    requires i <= |x| && j <= |y| && Aligned(x, y, eq)
    ensures RedCalls(eq, i, j, Corrected) == Memo.TreeSize(Memo.EdMetric, x, y, i, j)
    decreases i + j
  {
    if i > 0 && j > 0 {
      assert eq(i, j) == (x[i-1] == y[j-1]);
      RedCallsAreTree(x, y, eq, i-1, j-1);
      RedCallsAreTree(x, y, eq, i-1, j);
      RedCallsAreTree(x, y, eq, i, j-1);
    }
  }

  /** rlcs, as written or corrected, counts at least as many helper calls as
      mlcs evaluates cells, whatever the memo tables held. */
  lemma RlcsCountsAtLeastMemo(x: string, y: string, eq: (nat, nat) -> bool, v: Variant,
                              pairs0: seq<seq<Memo.Pair>>, helper0: seq<Memo.Pair>)
    requires Aligned(x, y, eq)
    requires |pairs0| == |x| + 1 && forall a :: 0 <= a <= |x| ==> |pairs0[a]| == |y| + 1
    requires |helper0| == Memo.MlcsSlots(|x|, |y|)
    ensures Rlcs(eq, |x|, |y|, v).0 >= Memo.Mlcs(x, y, pairs0, helper0).1.count
  {
    RlcsCallsAreTree(x, y, eq, |x|, |y|);
    RlcsMacroCostsMore(eq, |x|, |y|);
  }

  /** red against med, likewise. */
  lemma RedCountsAtLeastMemo(x: string, y: string, eq: (nat, nat) -> bool, v: Variant,
                             pairs0: seq<seq<Memo.Pair>>, helper0: seq<Memo.Pair>)
    requires Aligned(x, y, eq)
    requires |pairs0| == |x| + 1 && forall a :: 0 <= a <= |x| ==> |pairs0[a]| == |y| + 1
    requires |helper0| == Memo.HelperSlots(|x|, |y|)
    ensures Red(eq, |x|, |y|, v).0 >= Memo.Med(x, y, pairs0, helper0).1.count
  {
    RedCallsAreTree(x, y, eq, |x|, |y|);
    RedMacroCostsMore(eq, |x|, |y|);
  }

  /** A 1 x 1 problem whose character test at (1, 1) fails: the corrected
      recursions make three (rlcs) and four (red) calls, the macros make four
      (rlcs) and eight (red), since they evaluate the winning call again. */
  lemma MacroCountsExtraCalls(eq: (nat, nat) -> bool)
    requires !eq(1, 1)
    ensures Rlcs(eq, 1, 1, AsWritten).0 == 4
    ensures Rlcs(eq, 1, 1, Corrected).0 == 3
    ensures Red(eq, 1, 1, AsWritten).0 == 8
    ensures Red(eq, 1, 1, Corrected).0 == 4
  {
    assert RlcsValue(eq, 0, 1) == 0 && RlcsValue(eq, 1, 0) == 0;
    assert RlcsCalls(eq, 1, 1, AsWritten) == 4;
    assert RedValue(eq, 1, 0) == 0 && RedValue(eq, 0, 0) == 0;
    assert RedInnerCalls(eq, 1, 1, AsWritten) == 3;
    assert RedCalls(eq, 1, 1, AsWritten) == 8;
  }

  /** The binomial coefficient C(n, k), by Pascal's rule. */
  function Binomial(n: nat, k: nat): nat
    requires k <= n
  {
    if k == 0 || k == n then 1 else Binomial(n - 1, k - 1) + Binomial(n - 1, k)
  }

  /** What rlcs is meant to report when no characters match: the plain
      recursion tree has 2 * Binomial(i + j, i) - 1 nodes, one call each. */
  lemma {:induction false} RlcsAllMismatchCalls(i: nat, j: nat)
    ensures RlcsCalls((a, b) => false, i, j, Corrected) == 2 * Binomial(i + j, i) - 1
    decreases i + j
  {
    if i > 0 && j > 0 {
      RlcsAllMismatchCalls(i-1, j);
      RlcsAllMismatchCalls(i, j-1);
      assert Binomial(i + j, i) == Binomial(i + j - 1, i - 1) + Binomial(i + j - 1, i);
    }
  }

  /** As written, with no matches every tie re-evaluates the left call, so
      the count exceeds the recursion tree by the calls of that second
      evaluation. */
  lemma {:induction false} RlcsAllMismatchAsWritten(i: nat, j: nat)
    requires i > 0 && j > 0
    ensures RlcsCalls((a, b) => false, i, j, AsWritten) ==
      1 + RlcsCalls((a, b) => false, i-1, j, AsWritten) + 2 * RlcsCalls((a, b) => false, i, j-1, AsWritten)
    ensures RlcsCalls((a, b) => false, i, j, AsWritten) > RlcsCalls((a, b) => false, i, j, Corrected)
  {
    var eq: (nat, nat) -> bool := (a, b) => false;
    ZeroValues(eq, i-1, j);
    ZeroValues(eq, i, j-1);
    RlcsMacroCostsMore(eq, i-1, j);
    RlcsMacroCostsMore(eq, i, j-1);
  }

  lemma {:induction false} ZeroValues(eq: (nat, nat) -> bool, i: nat, j: nat)
    requires forall a, b :: !eq(a, b)
    ensures RlcsValue(eq, i, j) == 0
    decreases i + j
  {
    if i > 0 && j > 0 {
      ZeroValues(eq, i-1, j);
      ZeroValues(eq, i, j-1);
    }
  }
}
