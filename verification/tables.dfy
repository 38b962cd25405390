/** Bottom-up table fills: createTable/initTable and the iterative lcs, ed
    and hsls functions. Each fills an (m+1) x (n+1) array row by row, i outer
    and j inner, after setting row 0 and column 0, and is proved to leave the
    recurrence value of Recurrences in every cell. The filled array is handed
    back as a sequence of rows so the traceback can read it as a value. */
module Tables {
  import opened Recurrences

  /** t is the completely filled LCS table of x and y. */
  ghost predicate IsLcsTable(x: string, y: string, t: seq<seq<int>>) {
    && Shaped(t, |x|, |y|)
    && forall a: nat, b: nat :: a <= |x| && b <= |y| ==> t[a][b] == LcsCell(x, y, a, b)
  }

  /** t is the completely filled edit-distance table of x and y. */
  ghost predicate IsEdTable(x: string, y: string, t: seq<seq<int>>) {
    && Shaped(t, |x|, |y|)
    && forall a: nat, b: nat :: a <= |x| && b <= |y| ==> t[a][b] == EdCell(x, y, a, b)
  }

  /** t is the completely filled local-similarity table of x and y. */
  ghost predicate IsSwTable(x: string, y: string, t: seq<seq<int>>) {
    && Shaped(t, |x|, |y|)
    && forall a: nat, b: nat :: a <= |x| && b <= |y| ==> t[a][b] == SwCell(x, y, a, b)
  }

  /** The contents of a two-dimensional array as a sequence of rows. */
  function Rows(t: array2<int>): (rows: seq<seq<int>>)
    reads t
    ensures |rows| == t.Length0
    ensures forall a :: 0 <= a < t.Length0 ==> |rows[a]| == t.Length1
    ensures forall a, b :: 0 <= a < t.Length0 && 0 <= b < t.Length1 ==> rows[a][b] == t[a, b]
  {
    seq(t.Length0, a requires 0 <= a < t.Length0 reads t =>
      seq(t.Length1, b requires 0 <= b < t.Length1 reads t => t[a, b]))
  }

  /** initTable: zero row 0 and column 0, leaving the interior as it was. */
  method InitTable(t: array2<int>)
    modifies t
    ensures forall a :: 0 <= a < t.Length0 && 0 < t.Length1 ==> t[a, 0] == 0
    ensures forall b :: 0 <= b < t.Length1 && 0 < t.Length0 ==> t[0, b] == 0
    ensures forall a, b :: 0 < a < t.Length0 && 0 < b < t.Length1 ==> t[a, b] == old(t[a, b])
  {
    var i := 0;
    while i < t.Length0
      invariant 0 <= i <= t.Length0
      invariant forall a :: 0 <= a < i && 0 < t.Length1 ==> t[a, 0] == 0
      invariant forall a, b :: 0 <= a < t.Length0 && 0 < b < t.Length1 ==> t[a, b] == old(t[a, b])
    {
      if 0 < t.Length1 {
        t[i, 0] := 0;
      }
      i := i + 1;
    }
    var j := 1;
    while j < t.Length1
      invariant 1 <= j
      invariant forall a :: 0 <= a < t.Length0 && 0 < t.Length1 ==> t[a, 0] == 0
      invariant forall b :: 0 < b < j && b < t.Length1 && 0 < t.Length0 ==> t[0, b] == 0
      invariant forall a, b :: 0 < a < t.Length0 && 0 < b < t.Length1 ==> t[a, b] == old(t[a, b])
    {
      if 0 < t.Length0 {
        t[0, j] := 0;
      }
      j := j + 1;
    }
  }

  /** Iterative LCS (lcs): fills the table and returns its bottom-right cell,
      the length of a longest common subsequence of x and y. */
  method Lcs(x: string, y: string) returns (r: int, table: seq<seq<int>>)
    ensures IsLcsTable(x, y, table)
    ensures forall a :: 0 <= a <= |x| ==> table[a][0] == 0
    ensures forall b :: 0 <= b <= |y| ==> table[0][b] == 0
    ensures forall a, b :: 0 <= a <= |x| && 0 <= b <= |y| ==> 0 <= table[a][b] <= Min(a, b)
    ensures r == table[|x|][|y|] == LcsCell(x, y, |x|, |y|)
  {
    var m, n := |x|, |y|;
    var t := new int[m + 1, n + 1];
    InitTable(t);
    var i := 1;
    while i <= m
      invariant 1 <= i <= m + 1
      invariant forall a, b {:trigger t[a, b]} :: 0 <= a < i && 0 <= b <= n ==> t[a, b] == LcsCell(x, y, a, b)
      invariant forall a :: 0 <= a <= m ==> t[a, 0] == 0
    {
      var j := 1;
      while j <= n
        invariant 1 <= j <= n + 1
        invariant forall a, b {:trigger t[a, b]} :: 0 <= a < i && 0 <= b <= n ==> t[a, b] == LcsCell(x, y, a, b)
        invariant forall a :: 0 <= a <= m ==> t[a, 0] == 0
        invariant forall b {:trigger t[i, b]} :: 0 <= b < j ==> t[i, b] == LcsCell(x, y, i, b)
      {
        if x[i-1] == y[j-1] {
          t[i, j] := t[i-1, j-1] + 1;
        } else {
          t[i, j] := Max(t[i-1, j], t[i, j-1]);
        }
        j := j + 1;
      }
      i := i + 1;
    }
    table := Rows(t);
    r := t[m, n];
    forall a, b | 0 <= a <= m && 0 <= b <= n
      ensures 0 <= table[a][b] <= Min(a, b)
    {
      LcsBounds(x, y, a, b);
    }
  }

  /** Iterative edit distance (ed): row 0 counts up in j, column 0 counts up
      in i, and the bottom-right cell is the Levenshtein distance of x and y. */
  method Ed(x: string, y: string) returns (r: int, table: seq<seq<int>>)
    ensures IsEdTable(x, y, table)
    ensures forall a :: 0 <= a <= |x| ==> table[a][0] == a
    ensures forall b :: 0 <= b <= |y| ==> table[0][b] == b
    ensures r == table[|x|][|y|] == EdCell(x, y, |x|, |y|)
    ensures |x| - |y| <= r && |y| - |x| <= r && r <= Max(|x|, |y|)
    ensures x == y ==> r == 0
  {
    var m, n := |x|, |y|;
    var t := new int[m + 1, n + 1];
    var i := 0;
    while i <= m
      invariant 0 <= i <= m + 1
      invariant forall a :: 0 <= a < i ==> t[a, 0] == a
    {
      t[i, 0] := i;
      i := i + 1;
    }
    var j := 1;
    while j <= n
      invariant 1 <= j <= n + 1
      invariant forall a :: 0 <= a <= m ==> t[a, 0] == a
      invariant forall b :: 0 <= b < j ==> t[0, b] == b
    {
      t[0, j] := j;
      j := j + 1;
    }
    i := 1;
    while i <= m
      invariant 1 <= i <= m + 1
      invariant forall a, b {:trigger t[a, b]} :: 0 <= a < i && 0 <= b <= n ==> t[a, b] == EdCell(x, y, a, b)
      invariant forall a :: 0 <= a <= m ==> t[a, 0] == a
    {
      j := 1;
      while j <= n
        invariant 1 <= j <= n + 1
        invariant forall a, b {:trigger t[a, b]} :: 0 <= a < i && 0 <= b <= n ==> t[a, b] == EdCell(x, y, a, b)
        invariant forall a :: 0 <= a <= m ==> t[a, 0] == a
        invariant forall b {:trigger t[i, b]} :: 0 <= b < j ==> t[i, b] == EdCell(x, y, i, b)
      {
        if x[i-1] == y[j-1] {
          t[i, j] := t[i-1, j-1];
        } else {
          t[i, j] := Min(t[i-1, j], Min(t[i, j-1], t[i-1, j-1])) + 1;
        }
        j := j + 1;
      }
      i := i + 1;
    }
    table := Rows(t);
    r := t[m, n];
    EdBounds(x, y, m, n);
    if x == y {
      EdSelf(x, m);
    }
  }

  /** Iterative Smith-Waterman (hsls): fills the local-similarity table and
      returns the running maximum over all its cells, starting from 0. */
  method Hsls(x: string, y: string) returns (best: int, table: seq<seq<int>>)
    ensures IsSwTable(x, y, table)
    ensures forall a, b :: 0 <= a <= |x| && 0 <= b <= |y| ==> 0 <= table[a][b] <= Min(a, b)
    ensures IsBestScore(x, y, best)
    ensures 0 <= best <= Min(|x|, |y|)
  {
    var m, n := |x|, |y|;
    var t := new int[m + 1, n + 1];
    InitTable(t);
    best := 0;
    ghost var bi: nat, bj: nat := 0, 0;
    var i := 1;
    while i <= m
      invariant 1 <= i <= m + 1
      invariant forall a, b {:trigger t[a, b]} :: 0 <= a < i && 0 <= b <= n ==> t[a, b] == SwCell(x, y, a, b)
      invariant forall a :: i <= a <= m ==> t[a, 0] == 0
      invariant forall a, b {:trigger t[a, b]} :: 0 <= a < i && 0 <= b <= n ==> t[a, b] <= best
      invariant 0 <= best && bi <= m && bj <= n && SwCell(x, y, bi, bj) == best
    {
      best, bi, bj := HslsRow(x, y, t, i, best, bi, bj);
      i := i + 1;
    }
    table := Rows(t);
    BestOfTable(x, y, table, best, bi, bj);
  }

  /** One pass of the inner loop of hsls: fills row i from left to right and
      folds each new cell into the running maximum. */
  method HslsRow(x: string, y: string, t: array2<int>, i: nat, best0: int, ghost bi0: nat, ghost bj0: nat)
      returns (best: int, ghost bi: nat, ghost bj: nat)
    modifies t
    requires t.Length0 == |x| + 1 && t.Length1 == |y| + 1 && 1 <= i <= |x|
    requires forall a, b {:trigger t[a, b]} :: 0 <= a < i && 0 <= b <= |y| ==> t[a, b] == SwCell(x, y, a, b)
    requires forall a :: i <= a <= |x| ==> t[a, 0] == 0
    requires forall a, b {:trigger t[a, b]} :: 0 <= a < i && 0 <= b <= |y| ==> t[a, b] <= best0
    requires 0 <= best0 && bi0 <= |x| && bj0 <= |y| && SwCell(x, y, bi0, bj0) == best0
    ensures forall a, b {:trigger t[a, b]} :: 0 <= a <= i && 0 <= b <= |y| ==> t[a, b] == SwCell(x, y, a, b)
    ensures forall a :: i < a <= |x| ==> t[a, 0] == 0
    ensures forall a, b {:trigger t[a, b]} :: 0 <= a <= i && 0 <= b <= |y| ==> t[a, b] <= best
    ensures 0 <= best && bi <= |x| && bj <= |y| && SwCell(x, y, bi, bj) == best
  {
    var n := |y|;
    best, bi, bj := best0, bi0, bj0;
    var j := 1;
    while j <= n
      invariant 1 <= j <= n + 1
      invariant forall a, b {:trigger t[a, b]} :: 0 <= a < i && 0 <= b <= n ==> t[a, b] == SwCell(x, y, a, b)
      invariant forall a :: i <= a <= |x| ==> t[a, 0] == 0
      invariant forall b {:trigger t[i, b]} :: 0 <= b < j ==> t[i, b] == SwCell(x, y, i, b)
      invariant forall a, b {:trigger t[a, b]} :: 0 <= a < i && 0 <= b <= n ==> t[a, b] <= best
      invariant forall b {:trigger t[i, b]} :: 0 <= b < j ==> t[i, b] <= best
      invariant 0 <= best && bi <= |x| && bj <= n && SwCell(x, y, bi, bj) == best
    {
      var v;
      if x[i-1] == y[j-1] {
        v := t[i-1, j-1] + 1;
      } else {
        v := Max(t[i-1, j] - 1, Max(t[i, j-1] - 1, Max(t[i-1, j-1] - 1, 0)));
      }
      assert v == SwCell(x, y, i, j);
      t[i, j] := v;
      if v > best {
        best := v;
        bi, bj := i, j;
      }
      j := j + 1;
    }
  }

  /** A running maximum over a complete local-similarity table, attained at
      (bi, bj), is the best local score. */
  lemma BestOfTable(x: string, y: string, table: seq<seq<int>>, best: int, bi: nat, bj: nat)
    requires IsSwTable(x, y, table)
    requires forall a, b :: 0 <= a <= |x| && 0 <= b <= |y| ==> table[a][b] <= best
    requires bi <= |x| && bj <= |y| && SwCell(x, y, bi, bj) == best
    ensures forall a, b :: 0 <= a <= |x| && 0 <= b <= |y| ==> 0 <= table[a][b] <= Min(a, b)
    ensures IsBestScore(x, y, best)
    ensures 0 <= best <= Min(|x|, |y|)
  {
    forall a, b | 0 <= a <= |x| && 0 <= b <= |y|
      ensures 0 <= table[a][b] <= Min(a, b)
    {
      SwBounds(x, y, a, b);
    }
    SwBounds(x, y, bi, bj);
  }
}
