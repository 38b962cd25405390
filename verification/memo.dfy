/** Top-down memoised LCS and edit distance (mlcs/mlcshelper, med/medhelper)
    over the source's uninitialised "sparse set" memo.

    pairsTable and helperArray are allocated and never cleared, so their
    initial contents are arbitrary: Mlcs and Med take them as parameters of
    any value. A cell (i, j) counts as evaluated only when its pairsTable
    entry points (through its j field) at a position q in 1..count of
    helperArray and helperArray[q] names (i, j) back. helperArray[1..count]
    is the log of cells evaluated so far, in evaluation order. */
module Memo {
  import opened Recurrences

  /** struct pair. In pairsTable, i is the cell's value and j its position in
      the log; in helperArray, i and j are the coordinates of a logged cell. */
  datatype Pair = Pair(i: int, j: int)

  /** pairsTable, helperArray and count, threaded through the recursion. */
  datatype MemoState = MemoState(pairs: seq<seq<Pair>>, helper: seq<Pair>, count: int)

  /** Which recurrence a memo is filled with. */
  datatype Metric = LcsMetric | EdMetric

  ghost function Cell(metric: Metric, x: string, y: string, i: nat, j: nat): int
    requires i <= |x| && j <= |y|
  {
    match metric
    case LcsMetric => LcsCell(x, y, i, j)
    case EdMetric => EdCell(x, y, i, j)
  }

  /** createHelperArray as written: (m+1)(n+1) slots, indices 0 .. (m+1)(n+1)-1. */
  function SourceHelperSlots(m: nat, n: nat): nat {
    (m + 1) * (n + 1)
  }

  /** The allocation a 1-based log of every cell needs, as med's can be: one
      slot more than the source's, so that index (m+1)(n+1) exists. */
  function HelperSlots(m: nat, n: nat): nat {
    (m + 1) * (n + 1) + 1
  }

  /** The allocation mlcs needs: createHelperArray's (m+1)(n+1) slots, except
      for two empty strings, whose one cell is logged at index 1. */
  function MlcsSlots(m: nat, n: nat): nat {
    if m == 0 && n == 0 then HelperSlots(0, 0) else SourceHelperSlots(m, n)
  }

  predicate InGrid(c: Pair, m: nat, n: nat) {
    0 <= c.i <= m && 0 <= c.j <= n
  }

  /** The sparse-set invariant: every logged cell lies in the table and its
      pairsTable entry points back at its log position. Nothing is assumed
      about the entries of cells that are not logged. */
  ghost predicate WellFormed(memo: MemoState, m: nat, n: nat) {
    && Shaped(memo.pairs, m, n)
    && 0 <= memo.count < |memo.helper|
    && forall q :: 1 <= q <= memo.count ==>
         InGrid(memo.helper[q], m, n) && memo.pairs[memo.helper[q].i][memo.helper[q].j].j == q
  }

  /** evaluated: the entry's log position is in 1..count and the log names this cell. */
  function Evaluated(memo: MemoState, i: nat, j: nat): bool
    requires i < |memo.pairs| && j < |memo.pairs[i]|
    requires memo.count < |memo.helper|
  {
    var q := memo.pairs[i][j].j;
    if q < 1 || q > memo.count then false
    else memo.helper[q].i == i && memo.helper[q].j == j
  }

  /** Evaluated, as a total predicate on any coordinates. */
  ghost predicate Cached(memo: MemoState, a: int, b: int) {
    && 0 <= a < |memo.pairs| && 0 <= b < |memo.pairs[a]| && memo.count < |memo.helper|
    && Evaluated(memo, a, b)
  }

  /** The cell (i, j) is in the log helperArray[1..count]. */
  ghost predicate Logged(memo: MemoState, i: int, j: int)
    requires memo.count < |memo.helper|
  {
    exists q :: 1 <= q <= memo.count && memo.helper[q] == Pair(i, j)
  }

  /** The sparse-set lemma: whatever the unlogged entries hold, evaluated
      reports exactly the logged cells. */
  lemma EvaluatedIffLogged(memo: MemoState, m: nat, n: nat, i: nat, j: nat)
    requires WellFormed(memo, m, n) && i <= m && j <= n
    ensures Evaluated(memo, i, j) <==> Logged(memo, i, j)
  {
    if Logged(memo, i, j) {
      var q :| 1 <= q <= memo.count && memo.helper[q] == Pair(i, j);
      assert memo.pairs[i][j].j == q;
    }
  }

  /** No cell appears twice in the log. */
  lemma LogDistinct(memo: MemoState, m: nat, n: nat)
    requires WellFormed(memo, m, n)
    ensures forall q1, q2 :: 1 <= q1 < q2 <= memo.count ==> memo.helper[q1] != memo.helper[q2]
  {
  }

  /** First half of the bookkeeping in mlcshelper/medhelper: count++, point
      the entry at the new log position and log the cell. The value field
      keeps whatever it held. */
  function Log(memo: MemoState, i: nat, j: nat): (r: MemoState)
    requires i < |memo.pairs| && j < |memo.pairs[i]|
    requires 0 <= memo.count && memo.count + 1 < |memo.helper|
  {
    var q := memo.count + 1;
    var p := memo.pairs[i][j];
    MemoState(memo.pairs[i := memo.pairs[i][j := Pair(p.i, q)]], memo.helper[q := Pair(i, j)], q)
  }

  /** Second half: store the computed value in the entry's i field. */
  function Store(memo: MemoState, i: nat, j: nat, v: int): (r: MemoState)
    requires i < |memo.pairs| && j < |memo.pairs[i]|
  {
    var p := memo.pairs[i][j];
    memo.(pairs := memo.pairs[i := memo.pairs[i][j := Pair(v, p.j)]])
  }

  // ---------------------------------------------------------------------------
  // What a finished cell looks like, and how the log grows

  /** The dependencies of cell (a, b) the helper recursed on are evaluated. */
  ghost predicate DepsCached(metric: Metric, x: string, y: string, memo: MemoState, a: nat, b: nat)
    requires 0 < a <= |x| && 0 < b <= |y|
  {
    if x[a-1] == y[b-1] then Cached(memo, a-1, b-1)
    else Cached(memo, a-1, b) && Cached(memo, a, b-1) && (metric == EdMetric ==> Cached(memo, a-1, b-1))
  }

  /** A finished cell: its value is the recurrence's and its dependencies are evaluated. */
  ghost predicate Done(metric: Metric, x: string, y: string, memo: MemoState, c: Pair) {
    && InGrid(c, |x|, |y|) && Shaped(memo.pairs, |x|, |y|)
    && memo.pairs[c.i][c.j].i == Cell(metric, x, y, c.i, c.j)
    && (c.i > 0 && c.j > 0 ==> DepsCached(metric, x, y, memo, c.i, c.j))
  }

  /** helperArray[q], named so that the quantifiers over the log below only
      fire where a proof mentions a log position explicitly. */
  ghost function LogEntry(memo: MemoState, q: int): Pair
    requires 0 <= q < |memo.helper|
  {
    memo.helper[q]
  }

  /** Every logged cell at or below (i, j) in both coordinates is finished. */
  ghost predicate DoneWithin(metric: Metric, x: string, y: string, memo: MemoState, i: int, j: int)
    requires WellFormed(memo, |x|, |y|)
  {
    forall q {:trigger LogEntry(memo, q)} ::
      1 <= q <= memo.count && LogEntry(memo, q).i <= i && LogEntry(memo, q).j <= j ==>
        Done(metric, x, y, memo, LogEntry(memo, q))
  }

  /** m1 keeps the log of m0 as a prefix and leaves the entries of its cells alone. */
  ghost predicate Extends(m0: MemoState, m1: MemoState, m: nat, n: nat)
    requires WellFormed(m0, m, n) && WellFormed(m1, m, n)
  {
    && m0.count <= m1.count && |m1.helper| == |m0.helper|
    && forall q :: 1 <= q <= m0.count ==>
         && m1.helper[q] == m0.helper[q]
         && m1.pairs[m0.helper[q].i][m0.helper[q].j] == m0.pairs[m0.helper[q].i][m0.helper[q].j]
  }

  /** Every cell logged after m0 is finished in m1. */
  ghost predicate NewDone(metric: Metric, x: string, y: string, m0: MemoState, m1: MemoState)
    requires WellFormed(m1, |x|, |y|)
  {
    forall q {:trigger LogEntry(m1, q)} :: m0.count < q <= m1.count && 1 <= q ==> Done(metric, x, y, m1, LogEntry(m1, q))
  }

  /** Every cell logged after m0 lies at or below (i, j). */
  ghost predicate NewWithin(m0: MemoState, m1: MemoState, i: int, j: int)
    requires m1.count < |m1.helper|
  {
    forall q :: m0.count < q <= m1.count && 1 <= q ==> m1.helper[q].i <= i && m1.helper[q].j <= j
  }

  /** The cells a helper call on (i, j) reaches: the cell itself and, away
      from row 0 and column 0, the cells reached from the neighbours the
      recurrence recurses on (the diagonal on a match; the upper and left
      cells on a mismatch, and for edit distance the diagonal as well). */
  ghost function Reach(metric: Metric, x: string, y: string, i: nat, j: nat): set<Pair>
    requires i <= |x| && j <= |y|
    decreases i + j
  {
    if i == 0 || j == 0 then {Pair(i, j)}
    else if x[i-1] == y[j-1] then {Pair(i, j)} + Reach(metric, x, y, i-1, j-1)
    else if metric == LcsMetric then {Pair(i, j)} + Reach(metric, x, y, i-1, j) + Reach(metric, x, y, i, j-1)
    else {Pair(i, j)} + Reach(metric, x, y, i-1, j) + Reach(metric, x, y, i, j-1) + Reach(metric, x, y, i-1, j-1)
  }

  /** How many calls the recursion makes on (i, j) with no memo at all: Reach
      with every repetition counted. */
  ghost function TreeSize(metric: Metric, x: string, y: string, i: nat, j: nat): nat
    requires i <= |x| && j <= |y|
    decreases i + j
  {
    1 + if i == 0 || j == 0 then 0
        else if x[i-1] == y[j-1] then TreeSize(metric, x, y, i-1, j-1)
        else TreeSize(metric, x, y, i-1, j) + TreeSize(metric, x, y, i, j-1)
             + (if metric == EdMetric then TreeSize(metric, x, y, i-1, j-1) else 0)
  }

  /** helperArray[q] once more, under a name of its own, so that LoggedIn
      below fires only in the proofs about the log's cells. */
  ghost function LogCell(memo: MemoState, q: int): Pair
    requires 0 <= q < |memo.helper|
  {
    memo.helper[q]
  }

  /** Every logged cell is in s. */
  ghost predicate LoggedIn(memo: MemoState, s: set<Pair>)
    requires memo.count < |memo.helper|
  {
    forall q {:trigger LogCell(memo, q)} :: 1 <= q <= memo.count ==> LogCell(memo, q) in s
  }

  /** The cells a run of the helper on (m, n) reaches. */
  ghost function Run(metric: Metric, x: string, y: string): set<Pair> {
    Reach(metric, x, y, |x|, |y|)
  }

  /** Room for a helper call on (i, j) within a run on (m, n): (i, j) and
      every logged cell are cells the run reaches, and helperArray has a slot
      beyond as many cells as the run reaches. */
  ghost predicate Room(metric: Metric, x: string, y: string, memo: MemoState, i: nat, j: nat)
    requires memo.count < |memo.helper|
  {
    && Pair(i, j) in Run(metric, x, y)
    && |Run(metric, x, y)| < |memo.helper|
    && LoggedIn(memo, Run(metric, x, y))
  }

  /** The neighbours the helper recurses on from a reached cell are reached. */
  lemma {:induction false} ReachClosed(metric: Metric, x: string, y: string, i: nat, j: nat, a: nat, b: nat)
    requires i <= |x| && j <= |y| && Pair(a, b) in Reach(metric, x, y, i, j) && 0 < a && 0 < b
    ensures a <= |x| && b <= |y|
    ensures x[a-1] == y[b-1] ==> Pair(a-1, b-1) in Reach(metric, x, y, i, j)
    ensures x[a-1] != y[b-1] ==>
      Pair(a-1, b) in Reach(metric, x, y, i, j) && Pair(a, b-1) in Reach(metric, x, y, i, j)
    ensures x[a-1] != y[b-1] && metric == EdMetric ==> Pair(a-1, b-1) in Reach(metric, x, y, i, j)
    decreases i + j
  {
    ReachInGrid(metric, x, y, i, j, Pair(a, b));
    if Pair(a, b) != Pair(i, j) {
      if x[i-1] == y[j-1] {
        ReachClosed(metric, x, y, i-1, j-1, a, b);
      } else if Pair(a, b) in Reach(metric, x, y, i-1, j) {
        ReachClosed(metric, x, y, i-1, j, a, b);
      } else if Pair(a, b) in Reach(metric, x, y, i, j-1) {
        ReachClosed(metric, x, y, i, j-1, a, b);
      } else {
        ReachClosed(metric, x, y, i-1, j-1, a, b);
      }
    }
  }

  lemma ExtendsTrans(m0: MemoState, m1: MemoState, m2: MemoState, m: nat, n: nat)
    requires WellFormed(m0, m, n) && WellFormed(m1, m, n) && WellFormed(m2, m, n)
    requires Extends(m0, m1, m, n) && Extends(m1, m2, m, n)
    ensures Extends(m0, m2, m, n)
  {
    forall q | 1 <= q <= m0.count
      ensures m2.helper[q] == m0.helper[q]
      ensures m2.pairs[m0.helper[q].i][m0.helper[q].j] == m0.pairs[m0.helper[q].i][m0.helper[q].j]
    {
      assert m1.helper[q] == m0.helper[q];
    }
  }

  /** Evaluated cells stay evaluated as the log grows. */
  lemma CachedStable(m0: MemoState, m1: MemoState, m: nat, n: nat, a: int, b: int)
    requires WellFormed(m0, m, n) && WellFormed(m1, m, n) && Extends(m0, m1, m, n)
    requires Cached(m0, a, b)
    ensures Cached(m1, a, b)
  {
    var q := m0.pairs[a][b].j;
    assert m1.helper[q] == m0.helper[q];
  }

  /** Finished cells stay finished as the log grows. */
  lemma DoneStable(metric: Metric, x: string, y: string, m0: MemoState, m1: MemoState, c: Pair)
    requires WellFormed(m0, |x|, |y|) && WellFormed(m1, |x|, |y|) && Extends(m0, m1, |x|, |y|)
    requires Done(metric, x, y, m0, c) && Cached(m0, c.i, c.j)
    ensures Done(metric, x, y, m1, c)
  {
    var q := m0.pairs[c.i][c.j].j;
    assert m1.helper[q] == m0.helper[q];
    if c.i > 0 && c.j > 0 {
      var a, b := c.i, c.j;
      if x[a-1] == y[b-1] {
        CachedStable(m0, m1, |x|, |y|, a-1, b-1);
      } else {
        CachedStable(m0, m1, |x|, |y|, a-1, b);
        CachedStable(m0, m1, |x|, |y|, a, b-1);
        if metric == EdMetric {
          CachedStable(m0, m1, |x|, |y|, a-1, b-1);
        }
      }
    }
  }

  /** Logging an unevaluated cell keeps the invariant, extends the memo and
      makes the cell evaluated. */
  lemma LogLemma(memo: MemoState, m: nat, n: nat, i: nat, j: nat)
    requires WellFormed(memo, m, n) && i <= m && j <= n
    requires !Evaluated(memo, i, j) && memo.count + 1 < |memo.helper|
    ensures WellFormed(Log(memo, i, j), m, n) && Extends(memo, Log(memo, i, j), m, n)
    ensures Cached(Log(memo, i, j), i, j)
    ensures Log(memo, i, j).count == memo.count + 1
    ensures Log(memo, i, j).helper[memo.count + 1] == Pair(i, j)
  {
    var r := Log(memo, i, j);
    forall q | 1 <= q <= memo.count
      ensures memo.helper[q] != Pair(i, j)
    {
    }
  }

  // ---------------------------------------------------------------------------
  // Capacity: the log never holds more than (m+1)(n+1) cells

  /** The cells (a, 0) .. (a, n) of row a. */
  ghost function Row(a: int, n: nat): set<Pair> {
    if n == 0 then {Pair(a, 0)} else Row(a, n - 1) + {Pair(a, n)}
  }

  /** The cells of an (m+1) x (n+1) table. */
  ghost function Grid(m: nat, n: nat): set<Pair> {
    if m == 0 then Row(0, n) else Grid(m - 1, n) + Row(m, n)
  }

  lemma {:induction false} RowFacts(a: int, n: nat)
    ensures |Row(a, n)| == n + 1
    ensures forall c :: c in Row(a, n) <==> c.i == a && 0 <= c.j <= n
  {
    if n > 0 {
      RowFacts(a, n - 1);
    }
  }

  lemma {:induction false} GridMembers(m: nat, n: nat)
    ensures forall c :: c in Grid(m, n) <==> InGrid(c, m, n)
  {
    RowFacts(m, n);
    if m > 0 {
      GridMembers(m - 1, n);
    }
  }

  lemma {:induction false} InRow(a: int, n: nat, c: Pair)
    requires c in Row(a, n)
    ensures c.i == a
  {
    if n > 0 && c != Pair(a, n) {
      InRow(a, n - 1, c);
    }
  }

  lemma {:induction false} InGridBelow(m: nat, n: nat, c: Pair)
    requires c in Grid(m, n)
    ensures c.i <= m
  {
    if m == 0 {
      InRow(0, n, c);
    } else if c in Row(m, n) {
      InRow(m, n, c);
    } else {
      InGridBelow(m - 1, n, c);
    }
  }

  lemma GridRowDisjoint(k: nat, n: nat)
    ensures Grid(k, n) !! Row(k + 1, n)
  {
    forall c | c in Grid(k, n)
      ensures c !in Row(k + 1, n)
    {
      InGridBelow(k, n, c);
      if c in Row(k + 1, n) {
        InRow(k + 1, n, c);
      }
    }
  }

  lemma {:induction false} GridCard(m: nat, n: nat)
    ensures |Grid(m, n)| == (m + 1) * (n + 1)
  {
    RowFacts(m, n);
    if m > 0 {
      GridCard(m - 1, n);
      GridRowDisjoint(m - 1, n);
      assert (m + 1) * (n + 1) == m * (n + 1) + (n + 1);
    }
  }

  lemma GridFacts(m: nat, n: nat)
    ensures |Grid(m, n)| == (m + 1) * (n + 1)
    ensures forall c :: c in Grid(m, n) <==> InGrid(c, m, n)
  {
    GridCard(m, n);
    GridMembers(m, n);
  }

  lemma SubsetCard<T>(a: set<T>, b: set<T>)
    requires a <= b
    ensures |a| <= |b|
    decreases |b|
  {
    if a != {} {
      var e :| e in a;
      SubsetCard(a - {e}, b - {e});
    }
  }

  ghost function LoggedUpTo(memo: MemoState, k: nat): set<Pair>
    requires k < |memo.helper|
  {
    set q | 1 <= q <= k :: memo.helper[q]
  }

  lemma {:induction false} LoggedCard(memo: MemoState, m: nat, n: nat, k: nat)
    requires WellFormed(memo, m, n) && k <= memo.count
    ensures |LoggedUpTo(memo, k)| == k
    ensures LoggedUpTo(memo, k) <= Grid(m, n)
  {
    if k > 0 {
      LoggedCard(memo, m, n, k - 1);
      assert LoggedUpTo(memo, k) == LoggedUpTo(memo, k - 1) + {memo.helper[k]};
      assert memo.helper[k] !in LoggedUpTo(memo, k - 1);
      GridFacts(m, n);
    }
  }

  /** Before a cell is logged there is room for it: the log holds distinct
      cells of the table other than (i, j). */
  lemma Capacity(memo: MemoState, m: nat, n: nat, i: nat, j: nat)
    requires WellFormed(memo, m, n) && i <= m && j <= n
    requires !Evaluated(memo, i, j)
    ensures memo.count < (m + 1) * (n + 1)
  {
    LoggedCard(memo, m, n, memo.count);
    GridFacts(m, n);
    EvaluatedIffLogged(memo, m, n, i, j);
    assert Pair(i, j) in Grid(m, n);
    SubsetCard(LoggedUpTo(memo, memo.count), Grid(m, n) - {Pair(i, j)});
  }

  /** The log never holds more cells than the table has. */
  lemma CountBound(memo: MemoState, m: nat, n: nat)
    requires WellFormed(memo, m, n)
    ensures memo.count <= (m + 1) * (n + 1)
  {
    LoggedCard(memo, m, n, memo.count);
    GridFacts(m, n);
    SubsetCard(LoggedUpTo(memo, memo.count), Grid(m, n));
  }

  /** A log of distinct cells drawn from s holds at most |s| of them. */
  lemma LoggedAtMost(memo: MemoState, m: nat, n: nat, s: set<Pair>)
    requires WellFormed(memo, m, n) && LoggedIn(memo, s)
    ensures memo.count <= |s|
  {
    LoggedCard(memo, m, n, memo.count);
    forall q | 1 <= q <= memo.count
      ensures memo.helper[q] in s
    {
      assert LogCell(memo, q) in s;
    }
    SubsetCard(LoggedUpTo(memo, memo.count), s);
  }

  /** With room for (i, j), an unevaluated (i, j) can be logged, and the log
      then still holds only cells the run reaches. */
  lemma RoomToLog(metric: Metric, x: string, y: string, memo: MemoState, i: nat, j: nat)
    requires i <= |x| && j <= |y| && WellFormed(memo, |x|, |y|)
    requires Room(metric, x, y, memo, i, j) && !Evaluated(memo, i, j)
    ensures memo.count + 1 < |memo.helper|
    ensures LoggedIn(Log(memo, i, j), Run(metric, x, y))
  {
    var s := Run(metric, x, y);
    EvaluatedIffLogged(memo, |x|, |y|, i, j);
    assert LoggedIn(memo, s - {Pair(i, j)}) by {
      forall q | 1 <= q <= memo.count
        ensures LogCell(memo, q) in s - {Pair(i, j)}
      {
        assert LogCell(memo, q) in s;
      }
    }
    LoggedAtMost(memo, |x|, |y|, s - {Pair(i, j)});
    forall q | 1 <= q <= memo.count + 1
      ensures LogCell(Log(memo, i, j), q) in s
    {
      if q <= memo.count {
        assert LogCell(memo, q) in s;
      }
    }
  }

  /** A child call on a neighbour (a, b) the recurrence takes from (i, j) has
      room in any memo grown from one with room for (i, j) whose log stays
      within the run's cells. */
  lemma RoomChild(metric: Metric, x: string, y: string, memo: MemoState, mk: MemoState, i: nat, j: nat, a: nat, b: nat)
    requires 0 < i <= |x| && 0 < j <= |y|
    requires || ((x[i-1] == y[j-1] || metric == EdMetric) && a == i-1 && b == j-1)
             || (x[i-1] != y[j-1] && a == i-1 && b == j)
             || (x[i-1] != y[j-1] && a == i && b == j-1)
    requires WellFormed(memo, |x|, |y|) && WellFormed(mk, |x|, |y|)
    requires Room(metric, x, y, memo, i, j) && |mk.helper| == |memo.helper|
    requires LoggedIn(mk, Run(metric, x, y))
    ensures Room(metric, x, y, mk, a, b)
  {
    ReachClosed(metric, x, y, |x|, |y|, i, j);
  }

  // ---------------------------------------------------------------------------
  // Steps of the helpers

  /** The child call the helper makes on (a, b), strictly below (i, j), finds
      every logged cell below (a, b) finished: (i, j) itself is logged but
      not below (a, b), and everything else was finished before or since. */
  lemma ChildPre(metric: Metric, x: string, y: string, memo: MemoState, mk: MemoState, i: nat, j: nat, a: int, b: int)
    requires i <= |x| && j <= |y|
    requires WellFormed(memo, |x|, |y|) && !Evaluated(memo, i, j) && memo.count + 1 < |memo.helper|
    requires DoneWithin(metric, x, y, memo, i, j)
    requires WellFormed(Log(memo, i, j), |x|, |y|) && WellFormed(mk, |x|, |y|)
    requires Extends(Log(memo, i, j), mk, |x|, |y|) && NewDone(metric, x, y, Log(memo, i, j), mk)
    requires a <= i && b <= j && (a < i || b < j)
    ensures DoneWithin(metric, x, y, mk, a, b)
  {
    var m1 := Log(memo, i, j);
    LogLemma(memo, |x|, |y|, i, j);
    ExtendsTrans(memo, m1, mk, |x|, |y|);
    forall q | 1 <= q <= mk.count && LogEntry(mk, q).i <= a && LogEntry(mk, q).j <= b
      ensures Done(metric, x, y, mk, LogEntry(mk, q))
    {
      if q <= memo.count {
        var c := memo.helper[q];
        assert memo.pairs[c.i][c.j].j == q;
        assert Done(metric, x, y, memo, LogEntry(memo, q));
        DoneStable(metric, x, y, memo, mk, c);
      }
    }
  }

  /** Everything a child call on a neighbour (a, b) of (i, j) needs: the
      cells below it are finished and it has room. */
  lemma ChildReady(metric: Metric, x: string, y: string, memo: MemoState, mk: MemoState, i: nat, j: nat, a: nat, b: nat)
    requires 0 < i <= |x| && 0 < j <= |y|
    requires || ((x[i-1] == y[j-1] || metric == EdMetric) && a == i-1 && b == j-1)
             || (x[i-1] != y[j-1] && a == i-1 && b == j)
             || (x[i-1] != y[j-1] && a == i && b == j-1)
    requires WellFormed(memo, |x|, |y|) && !Evaluated(memo, i, j) && memo.count + 1 < |memo.helper|
    requires DoneWithin(metric, x, y, memo, i, j) && Room(metric, x, y, memo, i, j)
    requires WellFormed(Log(memo, i, j), |x|, |y|) && WellFormed(mk, |x|, |y|)
    requires Extends(Log(memo, i, j), mk, |x|, |y|) && NewDone(metric, x, y, Log(memo, i, j), mk)
    requires LoggedIn(mk, Run(metric, x, y))
    ensures DoneWithin(metric, x, y, mk, a, b) && Room(metric, x, y, mk, a, b)
  {
    ChildPre(metric, x, y, memo, mk, i, j, a, b);
    RoomChild(metric, x, y, memo, mk, i, j, a, b);
  }

  /** Storing a value changes one value field: no log position moves, so
      evaluated answers as before everywhere. */
  lemma StoreLemma(mk: MemoState, m: nat, n: nat, i: nat, j: nat, v: int)
    requires WellFormed(mk, m, n) && i <= m && j <= n
    ensures WellFormed(Store(mk, i, j, v), m, n)
    ensures Store(mk, i, j, v).count == mk.count && Store(mk, i, j, v).helper == mk.helper
    ensures forall a, b :: 0 <= a <= m && 0 <= b <= n ==>
      Cached(Store(mk, i, j, v), a, b) == Cached(mk, a, b)
    ensures forall a, b :: 0 <= a <= m && 0 <= b <= n && (a != i || b != j) ==>
      Store(mk, i, j, v).pairs[a][b] == mk.pairs[a][b]
    ensures Store(mk, i, j, v).pairs[i][j].i == v
  {
    var r := Store(mk, i, j, v);
    forall a, b | 0 <= a <= m && 0 <= b <= n
      ensures r.pairs[a][b].j == mk.pairs[a][b].j
    {
    }
  }

  /** Storing a value moves no log entry, so the log stays within s. */
  lemma StoreLoggedIn(mk: MemoState, i: nat, j: nat, v: int, s: set<Pair>)
    requires i < |mk.pairs| && j < |mk.pairs[i]| && mk.count < |mk.helper|
    requires LoggedIn(mk, s)
    ensures LoggedIn(Store(mk, i, j, v), s)
  {
    forall q | 1 <= q <= mk.count
      ensures LogCell(Store(mk, i, j, v), q) in s
    {
      assert LogCell(mk, q) in s;
    }
  }

  /** Storing the value of (i, j) leaves every other finished cell finished. */
  lemma StoreKeepsDone(metric: Metric, x: string, y: string, mk: MemoState, i: nat, j: nat, v: int, c: Pair)
    requires WellFormed(mk, |x|, |y|) && i <= |x| && j <= |y|
    requires Done(metric, x, y, mk, c) && c != Pair(i, j)
    ensures Done(metric, x, y, Store(mk, i, j, v), c)
  {
    StoreLemma(mk, |x|, |y|, i, j, v);
    if c.i > 0 && c.j > 0 {
      assert DepsCached(metric, x, y, Store(mk, i, j, v), c.i, c.j);
    }
  }

  /** Storing the value v of the just-logged cell (i, j) finishes it and
      leaves every other entry alone. */
  lemma FinishCell(metric: Metric, x: string, y: string, memo: MemoState, mk: MemoState, i: nat, j: nat, v: int)
    requires i <= |x| && j <= |y|
    requires WellFormed(memo, |x|, |y|) && !Evaluated(memo, i, j) && memo.count + 1 < |memo.helper|
    requires WellFormed(Log(memo, i, j), |x|, |y|) && WellFormed(mk, |x|, |y|)
    requires Extends(Log(memo, i, j), mk, |x|, |y|) && NewDone(metric, x, y, Log(memo, i, j), mk)
    requires NewWithin(Log(memo, i, j), mk, i, j)
    requires v == Cell(metric, x, y, i, j)
    requires i > 0 && j > 0 ==> DepsCached(metric, x, y, mk, i, j)
    ensures WellFormed(Store(mk, i, j, v), |x|, |y|) && Extends(memo, Store(mk, i, j, v), |x|, |y|)
    ensures Cached(Store(mk, i, j, v), i, j) && Done(metric, x, y, Store(mk, i, j, v), Pair(i, j))
    ensures NewDone(metric, x, y, memo, Store(mk, i, j, v)) && NewWithin(memo, Store(mk, i, j, v), i, j)
    ensures Store(mk, i, j, v).pairs[i][j].i == v
    ensures Store(mk, i, j, v).count == mk.count && Store(mk, i, j, v).helper == mk.helper
  {
    var m1 := Log(memo, i, j);
    var r := Store(mk, i, j, v);
    LogLemma(memo, |x|, |y|, i, j);
    ExtendsTrans(memo, m1, mk, |x|, |y|);
    StoreLemma(mk, |x|, |y|, i, j, v);
    var p := memo.count + 1;
    assert mk.helper[p] == Pair(i, j);
    assert Cached(mk, i, j);
    forall q | 1 <= q <= memo.count
      ensures r.pairs[memo.helper[q].i][memo.helper[q].j] == memo.pairs[memo.helper[q].i][memo.helper[q].j]
    {
      var c := memo.helper[q];
      assert mk.helper[q] == c;
      assert mk.pairs[c.i][c.j].j == q;
    }
    if i > 0 && j > 0 {
      assert DepsCached(metric, x, y, r, i, j);
    }
    forall q | memo.count < q <= r.count
      ensures Done(metric, x, y, r, LogEntry(r, q))
    {
      if q > p {
        var c := mk.helper[q];
        assert mk.pairs[c.i][c.j].j == q;
        assert Done(metric, x, y, mk, LogEntry(mk, q));
        StoreKeepsDone(metric, x, y, mk, i, j, v, c);
      }
    }
  }

  /** A cache hit returns a finished value. */
  lemma CachedIsDone(metric: Metric, x: string, y: string, memo: MemoState, i: nat, j: nat)
    requires i <= |x| && j <= |y|
    requires WellFormed(memo, |x|, |y|) && Evaluated(memo, i, j)
    requires DoneWithin(metric, x, y, memo, i, j)
    ensures Done(metric, x, y, memo, Pair(i, j))
  {
    var q := memo.pairs[i][j].j;
    assert LogEntry(memo, q) == Pair(i, j);
  }

  lemma NewDoneTrans(metric: Metric, x: string, y: string, m0: MemoState, m1: MemoState, m2: MemoState)
    requires WellFormed(m0, |x|, |y|) && WellFormed(m1, |x|, |y|) && WellFormed(m2, |x|, |y|)
    requires Extends(m0, m1, |x|, |y|) && Extends(m1, m2, |x|, |y|)
    requires NewDone(metric, x, y, m0, m1) && NewDone(metric, x, y, m1, m2)
    ensures NewDone(metric, x, y, m0, m2)
  {
    forall q | m0.count < q <= m2.count
      ensures Done(metric, x, y, m2, LogEntry(m2, q))
    {
      if q <= m1.count {
        var c := m1.helper[q];
        assert m1.pairs[c.i][c.j].j == q;
        assert Done(metric, x, y, m1, LogEntry(m1, q));
        assert m2.helper[q] == c;
        DoneStable(metric, x, y, m1, m2, c);
      }
    }
  }

  // ---------------------------------------------------------------------------
  // The helpers

  /** mlcshelper: return the cached value of (i, j), or log the cell, recurse
      on the cells the LCS recurrence needs and store the result. */
  function MlcsHelper(x: string, y: string, i: nat, j: nat, memo: MemoState): (r: (int, MemoState))
    requires i <= |x| && j <= |y|
    requires WellFormed(memo, |x|, |y|) && Room(LcsMetric, x, y, memo, i, j)
    requires DoneWithin(LcsMetric, x, y, memo, i, j)
    ensures WellFormed(r.1, |x|, |y|) && Extends(memo, r.1, |x|, |y|)
    ensures Cached(r.1, i, j) && Done(LcsMetric, x, y, r.1, Pair(i, j))
    ensures NewDone(LcsMetric, x, y, memo, r.1) && NewWithin(memo, r.1, i, j)
    ensures LoggedIn(r.1, Run(LcsMetric, x, y))
    ensures r.0 == LcsCell(x, y, i, j)
    ensures r.1.count <= memo.count + TreeSize(LcsMetric, x, y, i, j)
    decreases i + j, 2
  {
    if Evaluated(memo, i, j) then
      CachedIsDone(LcsMetric, x, y, memo, i, j);
      (memo.pairs[i][j].i, memo)
    else
      MlcsCompute(x, y, i, j, memo)
  }

  /** The work MlcsHelper does on a cell it has not evaluated yet. */
  function MlcsCompute(x: string, y: string, i: nat, j: nat, memo: MemoState): (r: (int, MemoState))
    requires i <= |x| && j <= |y|
    requires WellFormed(memo, |x|, |y|) && Room(LcsMetric, x, y, memo, i, j)
    requires !Evaluated(memo, i, j)
    requires DoneWithin(LcsMetric, x, y, memo, i, j)
    ensures WellFormed(r.1, |x|, |y|) && Extends(memo, r.1, |x|, |y|)
    ensures Cached(r.1, i, j) && Done(LcsMetric, x, y, r.1, Pair(i, j))
    ensures NewDone(LcsMetric, x, y, memo, r.1) && NewWithin(memo, r.1, i, j)
    ensures LoggedIn(r.1, Run(LcsMetric, x, y))
    ensures r.0 == LcsCell(x, y, i, j)
    ensures r.1.count <= memo.count + TreeSize(LcsMetric, x, y, i, j)
    decreases i + j, 1
  {
    RoomToLog(LcsMetric, x, y, memo, i, j);
    LogLemma(memo, |x|, |y|, i, j);
    var m1 := Log(memo, i, j);
    if i == 0 || j == 0 then
      FinishCell(LcsMetric, x, y, memo, m1, i, j, 0);
      StoreLoggedIn(m1, i, j, 0, Run(LcsMetric, x, y));
      var m2 := Store(m1, i, j, 0);
      (m2.pairs[i][j].i, m2)
    else if x[i-1] == y[j-1] then
      ChildReady(LcsMetric, x, y, memo, m1, i, j, i-1, j-1);
      var (v, m2) := MlcsHelper(x, y, i-1, j-1, m1);
      FinishCell(LcsMetric, x, y, memo, m2, i, j, 1 + v);
      StoreLoggedIn(m2, i, j, 1 + v, Run(LcsMetric, x, y));
      var m3 := Store(m2, i, j, 1 + v);
      (m3.pairs[i][j].i, m3)
    else
      MlcsMismatch(x, y, i, j, memo)
  }

  /** A mismatching cell: the upper, then the left neighbour. */
  function MlcsMismatch(x: string, y: string, i: nat, j: nat, memo: MemoState): (r: (int, MemoState))
    requires 0 < i <= |x| && 0 < j <= |y| && x[i-1] != y[j-1]
    requires WellFormed(memo, |x|, |y|) && Room(LcsMetric, x, y, memo, i, j)
    requires !Evaluated(memo, i, j)
    requires DoneWithin(LcsMetric, x, y, memo, i, j)
    ensures WellFormed(r.1, |x|, |y|) && Extends(memo, r.1, |x|, |y|)
    ensures Cached(r.1, i, j) && Done(LcsMetric, x, y, r.1, Pair(i, j))
    ensures NewDone(LcsMetric, x, y, memo, r.1) && NewWithin(memo, r.1, i, j)
    ensures LoggedIn(r.1, Run(LcsMetric, x, y))
    ensures r.0 == LcsCell(x, y, i, j)
    ensures r.1.count <= memo.count + TreeSize(LcsMetric, x, y, i, j)
    decreases i + j, 0
  {
    RoomToLog(LcsMetric, x, y, memo, i, j);
    LogLemma(memo, |x|, |y|, i, j);
    var m1 := Log(memo, i, j);
    ChildReady(LcsMetric, x, y, memo, m1, i, j, i-1, j);
    var (a, m2) := MlcsHelper(x, y, i-1, j, m1);
    ChildReady(LcsMetric, x, y, memo, m2, i, j, i, j-1);
    var (b, m3) := MlcsHelper(x, y, i, j-1, m2);
    NewDoneTrans(LcsMetric, x, y, m1, m2, m3);
    ExtendsTrans(m1, m2, m3, |x|, |y|);
    CachedStable(m2, m3, |x|, |y|, i-1, j);
    FinishCell(LcsMetric, x, y, memo, m3, i, j, Max(a, b));
    StoreLoggedIn(m3, i, j, Max(a, b), Run(LcsMetric, x, y));
    var m4 := Store(m3, i, j, Max(a, b));
    (m4.pairs[i][j].i, m4)
  }

  /** The three neighbours of a mismatching edit-distance cell, evaluated in
      turn, are all still evaluated after the last call. */
  lemma EdMismatchDeps(x: string, y: string, m2: MemoState, m3: MemoState, m4: MemoState, i: nat, j: nat)
    requires 0 < i <= |x| && 0 < j <= |y| && x[i-1] != y[j-1]
    requires WellFormed(m2, |x|, |y|) && WellFormed(m3, |x|, |y|) && WellFormed(m4, |x|, |y|)
    requires Extends(m2, m3, |x|, |y|) && Extends(m3, m4, |x|, |y|)
    requires Cached(m2, i-1, j-1) && Cached(m3, i-1, j) && Cached(m4, i, j-1)
    ensures DepsCached(EdMetric, x, y, m4, i, j)
  {
    CachedStable(m2, m3, |x|, |y|, i-1, j-1);
    CachedStable(m3, m4, |x|, |y|, i-1, j-1);
    CachedStable(m3, m4, |x|, |y|, i-1, j);
  }

  /** medhelper: as MlcsHelper, with the edit-distance base cases and
      recurrence; a mismatch recurses on the diagonal, upper and left cells
      in that order. */
  function MedHelper(x: string, y: string, i: nat, j: nat, memo: MemoState): (r: (int, MemoState))
    requires i <= |x| && j <= |y|
    requires WellFormed(memo, |x|, |y|) && Room(EdMetric, x, y, memo, i, j)
    requires DoneWithin(EdMetric, x, y, memo, i, j)
    ensures WellFormed(r.1, |x|, |y|) && Extends(memo, r.1, |x|, |y|)
    ensures Cached(r.1, i, j) && Done(EdMetric, x, y, r.1, Pair(i, j))
    ensures NewDone(EdMetric, x, y, memo, r.1) && NewWithin(memo, r.1, i, j)
    ensures LoggedIn(r.1, Run(EdMetric, x, y))
    ensures r.0 == EdCell(x, y, i, j)
    ensures r.1.count <= memo.count + TreeSize(EdMetric, x, y, i, j)
    decreases i + j, 2
  {
    if Evaluated(memo, i, j) then
      CachedIsDone(EdMetric, x, y, memo, i, j);
      (memo.pairs[i][j].i, memo)
    else
      MedCompute(x, y, i, j, memo)
  }

  /** The work MedHelper does on a cell it has not evaluated yet. */
  function MedCompute(x: string, y: string, i: nat, j: nat, memo: MemoState): (r: (int, MemoState))
    requires i <= |x| && j <= |y|
    requires WellFormed(memo, |x|, |y|) && Room(EdMetric, x, y, memo, i, j)
    requires !Evaluated(memo, i, j)
    requires DoneWithin(EdMetric, x, y, memo, i, j)
    ensures WellFormed(r.1, |x|, |y|) && Extends(memo, r.1, |x|, |y|)
    ensures Cached(r.1, i, j) && Done(EdMetric, x, y, r.1, Pair(i, j))
    ensures NewDone(EdMetric, x, y, memo, r.1) && NewWithin(memo, r.1, i, j)
    ensures LoggedIn(r.1, Run(EdMetric, x, y))
    ensures r.0 == EdCell(x, y, i, j)
    ensures r.1.count <= memo.count + TreeSize(EdMetric, x, y, i, j)
    decreases i + j, 1
  {
    RoomToLog(EdMetric, x, y, memo, i, j);
    LogLemma(memo, |x|, |y|, i, j);
    var m1 := Log(memo, i, j);
    if i == 0 then
      FinishCell(EdMetric, x, y, memo, m1, i, j, j);
      StoreLoggedIn(m1, i, j, j, Run(EdMetric, x, y));
      var m2 := Store(m1, i, j, j);
      (m2.pairs[i][j].i, m2)
    else if j == 0 then
      FinishCell(EdMetric, x, y, memo, m1, i, j, i);
      StoreLoggedIn(m1, i, j, i, Run(EdMetric, x, y));
      var m2 := Store(m1, i, j, i);
      (m2.pairs[i][j].i, m2)
    else if x[i-1] == y[j-1] then
      ChildReady(EdMetric, x, y, memo, m1, i, j, i-1, j-1);
      var (v, m2) := MedHelper(x, y, i-1, j-1, m1);
      FinishCell(EdMetric, x, y, memo, m2, i, j, v);
      StoreLoggedIn(m2, i, j, v, Run(EdMetric, x, y));
      var m3 := Store(m2, i, j, v);
      (m3.pairs[i][j].i, m3)
    else
      MedMismatch(x, y, i, j, memo)
  }

  /** A mismatching cell: the diagonal, upper and left neighbours in turn. */
  function MedMismatch(x: string, y: string, i: nat, j: nat, memo: MemoState): (r: (int, MemoState))
    requires 0 < i <= |x| && 0 < j <= |y| && x[i-1] != y[j-1]
    requires WellFormed(memo, |x|, |y|) && Room(EdMetric, x, y, memo, i, j)
    requires !Evaluated(memo, i, j)
    requires DoneWithin(EdMetric, x, y, memo, i, j)
    ensures WellFormed(r.1, |x|, |y|) && Extends(memo, r.1, |x|, |y|)
    ensures Cached(r.1, i, j) && Done(EdMetric, x, y, r.1, Pair(i, j))
    ensures NewDone(EdMetric, x, y, memo, r.1) && NewWithin(memo, r.1, i, j)
    ensures LoggedIn(r.1, Run(EdMetric, x, y))
    ensures r.0 == EdCell(x, y, i, j)
    ensures r.1.count <= memo.count + TreeSize(EdMetric, x, y, i, j)
    decreases i + j, 0
  {
    RoomToLog(EdMetric, x, y, memo, i, j);
    LogLemma(memo, |x|, |y|, i, j);
    var m1 := Log(memo, i, j);
    ChildReady(EdMetric, x, y, memo, m1, i, j, i-1, j-1);
    var (d, m2) := MedHelper(x, y, i-1, j-1, m1);
    ChildReady(EdMetric, x, y, memo, m2, i, j, i-1, j);
    var (u, m3) := MedHelper(x, y, i-1, j, m2);
    NewDoneTrans(EdMetric, x, y, m1, m2, m3);
    ExtendsTrans(m1, m2, m3, |x|, |y|);
    ChildReady(EdMetric, x, y, memo, m3, i, j, i, j-1);
    var (l, m4) := MedHelper(x, y, i, j-1, m3);
    NewDoneTrans(EdMetric, x, y, m1, m3, m4);
    ExtendsTrans(m1, m3, m4, |x|, |y|);
    EdMismatchDeps(x, y, m2, m3, m4, i, j);
    FinishCell(EdMetric, x, y, memo, m4, i, j, 1 + Min(d, Min(u, l)));
    StoreLoggedIn(m4, i, j, 1 + Min(d, Min(u, l)), Run(EdMetric, x, y));
    var m5 := Store(m4, i, j, 1 + Min(d, Min(u, l)));
    (m5.pairs[i][j].i, m5)
  }

  // ---------------------------------------------------------------------------
  // The entry points

  /** A memo left by a complete run: (m, n) is evaluated and every logged
      cell holds its recurrence value, with its dependencies evaluated. */
  ghost predicate Complete(metric: Metric, x: string, y: string, memo: MemoState) {
    && WellFormed(memo, |x|, |y|)
    && Cached(memo, |x|, |y|)
    && DoneWithin(metric, x, y, memo, |x|, |y|)
  }

  /** The memo as mlcs/med find it: count reset to 0, the tables as allocated. */
  function Fresh(x: string, y: string, pairs0: seq<seq<Pair>>, helper0: seq<Pair>): (memo: MemoState)
    requires |pairs0| == |x| + 1 && forall a :: 0 <= a <= |x| ==> |pairs0[a]| == |y| + 1
    requires |helper0| >= SourceHelperSlots(|x|, |y|)
    ensures WellFormed(memo, |x|, |y|) && memo.count == 0
  {
    MemoState(pairs0, helper0, 0)
  }

  /** mlcs: run the helper on (m, n) from count 0 and return the value it
      stored there. pairs0 and helper0 are the arbitrary contents of the
      freshly allocated tables. The run logs exactly the cells it reaches,
      which for nonempty input leave out a cell of row 0, so helperArray
      needs no slot beyond the (m+1)(n+1) createHelperArray allocates. */
  function Mlcs(x: string, y: string, pairs0: seq<seq<Pair>>, helper0: seq<Pair>): (r: (int, MemoState))
    requires |pairs0| == |x| + 1 && forall a :: 0 <= a <= |x| ==> |pairs0[a]| == |y| + 1
    requires |helper0| == MlcsSlots(|x|, |y|)
    ensures r.0 == LcsCell(x, y, |x|, |y|)
    ensures Complete(LcsMetric, x, y, r.1)
    ensures r.1.count == |Reach(LcsMetric, x, y, |x|, |y|)| <= TreeSize(LcsMetric, x, y, |x|, |y|)
    ensures 1 <= r.1.count < |r.1.helper| == MlcsSlots(|x|, |y|)
    ensures |x| + |y| > 0 ==> r.1.count < SourceHelperSlots(|x|, |y|)
    ensures forall q1, q2 :: 1 <= q1 < q2 <= r.1.count ==> r.1.helper[q1] != r.1.helper[q2]
  {
    var memo := Fresh(x, y, pairs0, helper0);
    LcsReachBelowGrid(x, y);
    var (_, m1) := MlcsHelper(x, y, |x|, |y|, memo);
    LoggedAtMost(m1, |x|, |y|, Run(LcsMetric, x, y));
    ReachLogged(LcsMetric, x, y, m1);
    LogDistinct(m1, |x|, |y|);
    (m1.pairs[|x|][|y|].i, m1)
  }

  /** med: as Mlcs, for edit distance, with the one slot more that a run
      reaching every cell needs. */
  function Med(x: string, y: string, pairs0: seq<seq<Pair>>, helper0: seq<Pair>): (r: (int, MemoState))
    requires |pairs0| == |x| + 1 && forall a :: 0 <= a <= |x| ==> |pairs0[a]| == |y| + 1
    requires |helper0| == HelperSlots(|x|, |y|)
    ensures r.0 == EdCell(x, y, |x|, |y|)
    ensures Complete(EdMetric, x, y, r.1)
    ensures r.1.count == |Reach(EdMetric, x, y, |x|, |y|)| <= TreeSize(EdMetric, x, y, |x|, |y|)
    ensures 1 <= r.1.count <= (|x| + 1) * (|y| + 1) < |r.1.helper| == HelperSlots(|x|, |y|)
    ensures forall q1, q2 :: 1 <= q1 < q2 <= r.1.count ==> r.1.helper[q1] != r.1.helper[q2]
  {
    var memo := Fresh(x, y, pairs0, helper0);
    ReachWithinGrid(EdMetric, x, y);
    var (_, m1) := MedHelper(x, y, |x|, |y|, memo);
    LoggedAtMost(m1, |x|, |y|, Run(EdMetric, x, y));
    ReachLogged(EdMetric, x, y, m1);
    LogDistinct(m1, |x|, |y|);
    (m1.pairs[|x|][|y|].i, m1)
  }

  // ---------------------------------------------------------------------------
  // How many cells a run evaluates

  /** In a memo whose logged cells are all finished, every cell reachable
      from an evaluated cell is evaluated too. */
  lemma {:induction false} ReachCached(metric: Metric, x: string, y: string, memo: MemoState, i: nat, j: nat)
    requires i <= |x| && j <= |y|
    requires WellFormed(memo, |x|, |y|) && DoneWithin(metric, x, y, memo, |x|, |y|)
    requires Cached(memo, i, j)
    ensures forall c :: c in Reach(metric, x, y, i, j) ==> Cached(memo, c.i, c.j)
    decreases i + j
  {
    CachedIsDone(metric, x, y, memo, i, j);
    if i > 0 && j > 0 {
      if x[i-1] == y[j-1] {
        ReachCached(metric, x, y, memo, i-1, j-1);
      } else {
        ReachCached(metric, x, y, memo, i-1, j);
        ReachCached(metric, x, y, memo, i, j-1);
        if metric == EdMetric {
          ReachCached(metric, x, y, memo, i-1, j-1);
        }
      }
    }
  }

  /** A complete run logs every cell reachable from (m, n). */
  lemma ReachLogged(metric: Metric, x: string, y: string, memo: MemoState)
    requires Complete(metric, x, y, memo)
    ensures |Reach(metric, x, y, |x|, |y|)| <= memo.count
  {
    var s := Reach(metric, x, y, |x|, |y|);
    LoggedCard(memo, |x|, |y|, memo.count);
    ReachCached(metric, x, y, memo, |x|, |y|);
    forall c | c in s
      ensures c in LoggedUpTo(memo, memo.count)
    {
      ReachInGrid(metric, x, y, |x|, |y|, c);
      EvaluatedIffLogged(memo, |x|, |y|, c.i, c.j);
    }
    SubsetCard(s, LoggedUpTo(memo, memo.count));
  }

  lemma {:induction false} ReachInGrid(metric: Metric, x: string, y: string, i: nat, j: nat, c: Pair)
    requires i <= |x| && j <= |y| && c in Reach(metric, x, y, i, j)
    ensures 0 <= c.i <= i && 0 <= c.j <= j
    decreases i + j
  {
    if c != Pair(i, j) {
      if x[i-1] == y[j-1] {
        ReachInGrid(metric, x, y, i-1, j-1, c);
      } else if c in Reach(metric, x, y, i-1, j) {
        ReachInGrid(metric, x, y, i-1, j, c);
      } else if c in Reach(metric, x, y, i, j-1) {
        ReachInGrid(metric, x, y, i, j-1, c);
      } else {
        ReachInGrid(metric, x, y, i-1, j-1, c);
      }
    }
  }

  // ---------------------------------------------------------------------------
  // The helperArray allocation

  /** When every cell of the table is evaluated, the log is full: count is
      (m+1)(n+1), so the last cell was logged at that index. */
  lemma FullLog(memo: MemoState, m: nat, n: nat)
    requires WellFormed(memo, m, n)
    requires forall a: nat, b: nat :: a <= m && b <= n ==> Cached(memo, a, b)
    ensures memo.count == (m + 1) * (n + 1)
  {
    GridFacts(m, n);
    LoggedCard(memo, m, n, memo.count);
    forall c | c in Grid(m, n)
      ensures c in LoggedUpTo(memo, memo.count)
    {
      assert Cached(memo, c.i, c.j);
      EvaluatedIffLogged(memo, m, n, c.i, c.j);
    }
    SubsetCard(Grid(m, n), LoggedUpTo(memo, memo.count));
    SubsetCard(LoggedUpTo(memo, memo.count), Grid(m, n));
  }

  /** med on x = "A", y = "B" evaluates all four cells, whatever the tables
      held: the fourth is logged at helperArray[4], one past the four slots
      createHelperArray allocates for a 1 x 1 problem. */
  lemma MedOverrunsSourceHelper(pairs0: seq<seq<Pair>>, helper0: seq<Pair>)
    requires |pairs0| == 2 && |pairs0[0]| == 2 && |pairs0[1]| == 2
    requires |helper0| == HelperSlots(1, 1)
    ensures Med("A", "B", pairs0, helper0).1.count == SourceHelperSlots(1, 1)
  {
    ReachOneByOne("A", "B");
  }

  /** Edit distance on one mismatching character each reaches all four cells. */
  lemma ReachOneByOne(x: string, y: string)
    requires |x| == 1 && |y| == 1 && x[0] != y[0]
    ensures |Reach(EdMetric, x, y, 1, 1)| == 4
  {
    assert Reach(EdMetric, x, y, 1, 1) == {Pair(1, 1), Pair(0, 1), Pair(1, 0), Pair(0, 0)};
  }

  /** A run reaches no more cells than the table has. */
  lemma ReachWithinGrid(metric: Metric, x: string, y: string)
    ensures |Reach(metric, x, y, |x|, |y|)| <= (|x| + 1) * (|y| + 1)
  {
    var s := Reach(metric, x, y, |x|, |y|);
    GridFacts(|x|, |y|);
    forall c | c in s
      ensures c in Grid(|x|, |y|)
    {
      ReachInGrid(metric, x, y, |x|, |y|, c);
    }
    SubsetCard(s, Grid(|x|, |y|));
  }

  /** The first position at or after k where y holds something other than
      c, or |y| if there is none. */
  function FirstOther(c: char, y: string, k: nat): (b: nat)
    requires k <= |y|
    ensures k <= b <= |y|
    ensures forall p :: k <= p < b ==> y[p] == c
    ensures b < |y| ==> y[b] != c
    decreases |y| - k
  {
    if k == |y| || y[k] != c then k else FirstOther(c, y, k + 1)
  }

  /** mlcshelper reaches a cell (0, b) of row 0 from a row i >= 1 only out of
      row 1: as the diagonal of a match at (1, b+1), or as the upper
      neighbour of a mismatch at (1, b). */
  lemma {:induction false} RowZeroParent(x: string, y: string, i: nat, j: nat, b: int)
    requires 1 <= i <= |x| && j <= |y|
    ensures Pair(0, b) in Reach(LcsMetric, x, y, i, j) ==>
      (0 <= b < j && x[0] == y[b]) || (1 <= b <= j && x[0] != y[b-1])
    decreases i + j
  {
    if j > 0 {
      if x[i-1] == y[j-1] {
        if i > 1 {
          RowZeroParent(x, y, i-1, j-1, b);
        } else {
          assert Reach(LcsMetric, x, y, 0, j-1) == {Pair(0, j-1)};
        }
      } else {
        if i > 1 {
          RowZeroParent(x, y, i-1, j, b);
        } else {
          assert Reach(LcsMetric, x, y, 0, j) == {Pair(0, j)};
        }
        RowZeroParent(x, y, i, j-1, b);
      }
    }
  }

  /** On nonempty input mlcs never reaches every cell: the cell (0, b) of
      row 0, b being the first position where y differs from x[0] (or n),
      has neither parent RowZeroParent allows. So mlcs logs fewer cells than
      the (m+1)(n+1) slots createHelperArray allocates. */
  lemma LcsReachBelowGrid(x: string, y: string)
    ensures |x| + |y| > 0 ==> |Reach(LcsMetric, x, y, |x|, |y|)| < SourceHelperSlots(|x|, |y|)
    ensures |x| + |y| == 0 ==> |Reach(LcsMetric, x, y, |x|, |y|)| == 1
  {
    var s := Reach(LcsMetric, x, y, |x|, |y|);
    if |x| + |y| == 0 {
      assert s == {Pair(0, 0)};
    } else {
      var miss := Pair(0, 0);
      if |x| == 0 {
        assert s == {Pair(0, |y|)};
      } else {
        miss := Pair(0, FirstOther(x[0], y, 0));
        RowZeroParent(x, y, |x|, |y|, miss.j);
      }
      GridFacts(|x|, |y|);
      forall c | c in s
        ensures c in Grid(|x|, |y|) - {miss}
      {
        ReachInGrid(LcsMetric, x, y, |x|, |y|, c);
      }
      SubsetCard(s, Grid(|x|, |y|) - {miss});
    }
  }

  /** mlcs on two empty strings logs its one cell at helperArray[1], one past
      the single slot createHelperArray allocates for a 0 x 0 problem. The
      defect is latent: getArgs and readStrings reject empty strings before
      main calls mlcs. */
  lemma MlcsOverrunsOnEmpty(pairs0: seq<seq<Pair>>, helper0: seq<Pair>)
    requires |pairs0| == 1 && |pairs0[0]| == 1
    requires |helper0| == MlcsSlots(0, 0)
    ensures Mlcs("", "", pairs0, helper0).1.count == SourceHelperSlots(0, 0)
  {
    LcsReachBelowGrid("", "");
  }
}
