/** The three recurrences of the dynamic-programming engine, stated as pure
    functions of the cell coordinate (i, j): the value a correct table holds
    at row i (a prefix of x of length i) and column j (a prefix of y of
    length j). Every fill, memo and traceback in the other modules is proved
    against these definitions. */
module Recurrences {

  /** Where the source slips, a definition can follow the code as written or
      the evident intent; Variant selects which. In the traceback it decides
      where leftover characters of y go, in the naive counters whether the
      MAX/MIN macros evaluate the chosen recursive call a second time. */
  datatype Variant = AsWritten | Corrected

  /** The MAX macro of the source: the first argument wins only when strictly larger. */
  function Max(a: int, b: int): int { if a > b then a else b }

  /** The MIN macro of the source: the first argument wins only when strictly smaller. */
  function Min(a: int, b: int): int { if a < b then a else b }

  /** A table of m+1 rows of n+1 entries each, the shape createTable,
      createPairsTable and initZeroTable give. */
  ghost predicate Shaped<T>(t: seq<seq<T>>, m: nat, n: nat) {
    |t| == m + 1 && forall a :: 0 <= a <= m ==> |t[a]| == n + 1
  }

  /** Longest-common-subsequence recurrence: row 0 and column 0 are 0, a match
      extends the diagonal, a mismatch takes the larger neighbour. */
  function LcsCell(x: string, y: string, i: nat, j: nat): int
    requires i <= |x| && j <= |y|
    decreases i + j
  {
    if i == 0 || j == 0 then 0
    else if x[i-1] == y[j-1] then LcsCell(x, y, i-1, j-1) + 1
    else Max(LcsCell(x, y, i-1, j), LcsCell(x, y, i, j-1))
  }

  /** Levenshtein recurrence: row 0 holds j, column 0 holds i, a match copies
      the diagonal and a mismatch costs one more than the cheapest neighbour. */
  function EdCell(x: string, y: string, i: nat, j: nat): int
    requires i <= |x| && j <= |y|
    decreases i + j
  {
    if i == 0 then j
    else if j == 0 then i
    else if x[i-1] == y[j-1] then EdCell(x, y, i-1, j-1)
    else Min(EdCell(x, y, i-1, j), Min(EdCell(x, y, i, j-1), EdCell(x, y, i-1, j-1))) + 1
  }

  /** Unit-score Smith-Waterman recurrence: a match extends the diagonal, a
      mismatch loses one point against every neighbour but never drops below 0. */
  function SwCell(x: string, y: string, i: nat, j: nat): int
    requires i <= |x| && j <= |y|
    decreases i + j
  {
    if i == 0 || j == 0 then 0
    else if x[i-1] == y[j-1] then SwCell(x, y, i-1, j-1) + 1
    else Max(SwCell(x, y, i-1, j) - 1, Max(SwCell(x, y, i, j-1) - 1, Max(SwCell(x, y, i-1, j-1) - 1, 0)))
  }

  /** The local-similarity score the source reports: the largest cell of the
      whole table, not the bottom-right one. */
  ghost predicate IsBestScore(x: string, y: string, best: int) {
    && (forall a: nat, b: nat :: a <= |x| && b <= |y| ==> SwCell(x, y, a, b) <= best)
    && (exists a: nat, b: nat :: a <= |x| && b <= |y| && SwCell(x, y, a, b) == best)
  }

  // ---------------------------------------------------------------------------
  // Longest common subsequence

  /** Every LCS cell lies between 0 and the shorter prefix length. */
  lemma {:induction false} LcsBounds(x: string, y: string, i: nat, j: nat)
    requires i <= |x| && j <= |y|
    ensures 0 <= LcsCell(x, y, i, j) <= Min(i, j)
    decreases i + j
  {
    if i == 0 || j == 0 {
    } else if x[i-1] == y[j-1] {
      LcsBounds(x, y, i-1, j-1);
    } else {
      LcsBounds(x, y, i-1, j);
      LcsBounds(x, y, i, j-1);
    }
  }

  /** Dropping one character from either prefix lowers the LCS by 0 or 1. */
  lemma {:induction false} LcsStep(x: string, y: string, i: nat, j: nat)
    requires i <= |x| && j <= |y|
    ensures i >= 1 ==> LcsCell(x, y, i-1, j) <= LcsCell(x, y, i, j) <= LcsCell(x, y, i-1, j) + 1
    ensures j >= 1 ==> LcsCell(x, y, i, j-1) <= LcsCell(x, y, i, j) <= LcsCell(x, y, i, j-1) + 1
    decreases i + j
  {
    if i >= 1 && j >= 1 {
      LcsStep(x, y, i-1, j);
      LcsStep(x, y, i, j-1);
    }
  }

  /** The LCS of a string with itself is its length. */
  lemma {:induction false} LcsSelf(x: string, i: nat)
    requires i <= |x|
    ensures LcsCell(x, x, i, i) == i
  {
    if i > 0 {
      LcsSelf(x, i-1);
    }
  }

  /** z is a (not necessarily contiguous) subsequence of s. */
  ghost predicate IsSubseq(z: string, s: string)
    decreases |s|
  {
    if |z| == 0 then true
    else if |s| == 0 then false
    else (z[|z|-1] == s[|s|-1] && IsSubseq(z[..|z|-1], s[..|s|-1])) || IsSubseq(z, s[..|s|-1])
  }

  /** Appending the same character to both sides keeps a subsequence. */
  lemma SubseqExtendBoth(z: string, s: string, c: char)
    requires IsSubseq(z, s)
    ensures IsSubseq(z + [c], s + [c])
  {
    assert (z + [c])[..|z|] == z;
    assert (s + [c])[..|s|] == s;
  }

  /** Appending a character to the longer side keeps a subsequence. */
  lemma SubseqExtendRight(z: string, s: string, c: char)
    requires IsSubseq(z, s)
    ensures IsSubseq(z, s + [c])
  {
    assert (s + [c])[..|s|] == s;
  }

  /** No common subsequence of x[..i] and y[..j] is longer than LcsCell(x, y, i, j). */
  lemma {:induction false} LcsIsUpperBound(x: string, y: string, i: nat, j: nat, z: string)
    requires i <= |x| && j <= |y|
    requires IsSubseq(z, x[..i]) && IsSubseq(z, y[..j])
    ensures |z| <= LcsCell(x, y, i, j)
    decreases i + j
  {
    LcsBounds(x, y, i, j);
    if |z| == 0 {
    } else if i == 0 || j == 0 {
      assert false;
    } else {
      var z' := z[..|z|-1];
      assert x[..i][..i-1] == x[..i-1];
      assert y[..j][..j-1] == y[..j-1];
      LcsStep(x, y, i, j);
      if IsSubseq(z, x[..i-1]) {
        LcsIsUpperBound(x, y, i-1, j, z);
      } else if IsSubseq(z, y[..j-1]) {
        LcsIsUpperBound(x, y, i, j-1, z);
      } else {
        assert z[|z|-1] == x[i-1] && IsSubseq(z', x[..i-1]);
        assert z[|z|-1] == y[j-1] && IsSubseq(z', y[..j-1]);
        LcsIsUpperBound(x, y, i-1, j-1, z');
      }
    }
  }

  // ---------------------------------------------------------------------------
  // Edit distance

  /** The edit distance of two prefixes is at least their length difference
      and at most the longer length. */
  lemma {:induction false} EdBounds(x: string, y: string, i: nat, j: nat)
    requires i <= |x| && j <= |y|
    ensures i - j <= EdCell(x, y, i, j) && j - i <= EdCell(x, y, i, j)
    ensures EdCell(x, y, i, j) <= Max(i, j)
    decreases i + j
  {
    if i == 0 || j == 0 {
    } else if x[i-1] == y[j-1] {
      EdBounds(x, y, i-1, j-1);
    } else {
      EdBounds(x, y, i-1, j);
      EdBounds(x, y, i, j-1);
      EdBounds(x, y, i-1, j-1);
    }
  }

  /** A string is at edit distance 0 from itself. */
  lemma {:induction false} EdSelf(x: string, i: nat)
    requires i <= |x|
    ensures EdCell(x, x, i, i) == 0
  {
    if i > 0 {
      EdSelf(x, i-1);
    }
  }

  /** Edit distance does not depend on which string is called x. */
  lemma {:induction false} EdSymmetric(x: string, y: string, i: nat, j: nat)
    requires i <= |x| && j <= |y|
    ensures EdCell(x, y, i, j) == EdCell(y, x, j, i)
    decreases i + j
  {
    if i == 0 || j == 0 {
    } else if x[i-1] == y[j-1] {
      EdSymmetric(x, y, i-1, j-1);
    } else {
      EdSymmetric(x, y, i-1, j);
      EdSymmetric(x, y, i, j-1);
      EdSymmetric(x, y, i-1, j-1);
    }
  }

  // ---------------------------------------------------------------------------
  // Smith-Waterman

  /** Every local-similarity cell lies between 0 and the shorter prefix
      length: it is never negative, and never above the LCS cell, which is
      itself bounded so. */
  lemma SwBounds(x: string, y: string, i: nat, j: nat)
    requires i <= |x| && j <= |y|
    ensures 0 <= SwCell(x, y, i, j) <= Min(i, j)
  {
    SwNonNegative(x, y, i, j);
    SwBelowLcs(x, y, i, j);
    LcsBounds(x, y, i, j);
  }

  lemma {:induction false} SwNonNegative(x: string, y: string, i: nat, j: nat)
    requires i <= |x| && j <= |y|
    ensures 0 <= SwCell(x, y, i, j)
    decreases i + j
  {
    if i > 0 && j > 0 && x[i-1] == y[j-1] {
      SwNonNegative(x, y, i-1, j-1);
    }
  }

  /** A local-similarity cell never exceeds the LCS cell at the same place. */
  lemma {:induction false} SwBelowLcs(x: string, y: string, i: nat, j: nat)
    requires i <= |x| && j <= |y|
    ensures SwCell(x, y, i, j) <= LcsCell(x, y, i, j)
    decreases i + j
  {
    if i == 0 || j == 0 {
    } else if x[i-1] == y[j-1] {
      SwBelowLcs(x, y, i-1, j-1);
    } else {
      SwBelowLcs(x, y, i-1, j);
      SwBelowLcs(x, y, i, j-1);
      SwBelowLcs(x, y, i-1, j-1);
      LcsStep(x, y, i, j);
      LcsStep(x, y, i-1, j);
      LcsBounds(x, y, i, j);
    }
  }

  /** On equal strings the diagonal of the local-similarity table counts up. */
  lemma {:induction false} SwSelfDiagonal(x: string, i: nat)
    requires i <= |x|
    ensures SwCell(x, x, i, i) == i
  {
    if i > 0 {
      SwSelfDiagonal(x, i-1);
    }
  }

  /** The best local score of a string against itself is its length. */
  lemma SwSelf(x: string, best: int)
    requires IsBestScore(x, x, best)
    ensures best == |x|
  {
    SwSelfDiagonal(x, |x|);
    var a: nat, b: nat :| a <= |x| && b <= |x| && SwCell(x, x, a, b) == best;
    SwBounds(x, x, a, b);
  }

  /** The best local score never exceeds the LCS length of the whole strings. */
  lemma SwBestBelowLcs(x: string, y: string, best: int)
    requires IsBestScore(x, y, best)
    ensures 0 <= best <= LcsCell(x, y, |x|, |y|)
  {
    var a: nat, b: nat :| a <= |x| && b <= |y| && SwCell(x, y, a, b) == best;
    SwBounds(x, y, a, b);
    SwBelowLcs(x, y, a, b);
    LcsMonotone(x, y, a, b, |x|, |y|);
  }

  /** LCS cells grow along both axes. */
  lemma {:induction false} LcsMonotone(x: string, y: string, a: nat, b: nat, i: nat, j: nat)
    requires a <= i <= |x| && b <= j <= |y|
    ensures LcsCell(x, y, a, b) <= LcsCell(x, y, i, j)
    decreases i + j
  {
    if i > a {
      LcsStep(x, y, i, j);
      LcsMonotone(x, y, a, b, i-1, j);
    } else if j > b {
      LcsStep(x, y, i, j);
      LcsMonotone(x, y, a, b, i, j-1);
    }
  }
}
