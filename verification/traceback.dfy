/** The LCS traceback of ilcsAlign and mlcsAlign. Both start at (m, n) and
    walk back to row 0 or column 0: a match emits a column with '|', a
    mismatch steps up (i-1) only when the upper neighbour is strictly larger
    than the left one and otherwise steps left (j-1), so ties go left. What
    is left of x or y afterwards is emitted against gaps. Columns are written
    from the right end of three buffers of 2*max(m,n) - L characters
    (L the LCS length), prefilled with '-', ' ' and '-'; the |m-n| slots the
    walk never reaches stay as that padding.

    Walk is the reference definition of the column sequence; the two
    methods are proved to build exactly its rendering. */
module Traceback {
  import opened Recurrences
  import Tables
  import Memo

  /** One column of the alignment. */
  datatype Column =
    | Match(c: char)   // c over '|' over c
    | DelX(c: char)    // c over ' ' over '-'
    | InsY(c: char)    // '-' over ' ' over c
    | Blank            // '-' over ' ' over '-': an unwritten buffer slot

  /** The three printed lines: newX, align and newY. */
  datatype Tracks = Tracks(newX: string, align: string, newY: string)

  function TopChar(col: Column): char {
    match col
    case Match(c) => c
    case DelX(c) => c
    case InsY(_) => '-'
    case Blank => '-'
  }

  function MidChar(col: Column): char {
    if col.Match? then '|' else ' '
  }

  function BottomChar(col: Column): char {
    match col
    case Match(c) => c
    case DelX(_) => '-'
    case InsY(c) => c
    case Blank => '-'
  }

  /** The characters the three buffers hold for a sequence of columns. */
  function Render(cols: seq<Column>): (t: Tracks)
    ensures |t.newX| == |t.align| == |t.newY| == |cols|
  {
    Tracks(seq(|cols|, k requires 0 <= k < |cols| => TopChar(cols[k])),
           seq(|cols|, k requires 0 <= k < |cols| => MidChar(cols[k])),
           seq(|cols|, k requires 0 <= k < |cols| => BottomChar(cols[k])))
  }

  function Padding(k: nat): (cols: seq<Column>)
    ensures |cols| == k && forall a :: 0 <= a < k ==> cols[a] == Blank
  {
    seq(k, _ => Blank)
  }

  function LeftoverY(c: char, v: Variant): Column {
    if v == AsWritten then DelX(c) else InsY(c)
  }

  /** The columns the traceback emits for the prefixes x[..i] and y[..j],
      leftmost first. */
  function Walk(x: string, y: string, i: nat, j: nat, v: Variant): seq<Column>
    requires i <= |x| && j <= |y|
    decreases i + j
  {
    if i > 0 && j > 0 then
      if x[i-1] == y[j-1] then Walk(x, y, i-1, j-1, v) + [Match(x[i-1])]
      else if LcsCell(x, y, i-1, j) > LcsCell(x, y, i, j-1) then Walk(x, y, i-1, j, v) + [DelX(x[i-1])]
      else Walk(x, y, i, j-1, v) + [InsY(y[j-1])]
    else if i > 0 then Walk(x, y, i-1, j, v) + [DelX(x[i-1])]
    else if j > 0 then Walk(x, y, i, j-1, v) + [LeftoverY(y[j-1], v)]
    else []
  }

  /** The buffer slots the walk never reaches: |m - n| of them. */
  function Gap(x: string, y: string): nat {
    if |x| >= |y| then |x| - |y| else |y| - |x|
  }

  /** What the three buffers hold once the traceback is over. */
  function Alignment(x: string, y: string, v: Variant): seq<Column> {
    Padding(Gap(x, y)) + Walk(x, y, |x|, |y|, v)
  }

  /** The characters of x a column sequence shows (its Match and DelX columns). */
  function XOf(cols: seq<Column>): string {
    if |cols| == 0 then []
    else XOf(cols[..|cols|-1]) + XChars(cols[|cols|-1])
  }

  function XChars(col: Column): string {
    match col
    case Match(c) => [c]
    case DelX(c) => [c]
    case _ => []
  }

  function YChars(col: Column): string {
    match col
    case Match(c) => [c]
    case InsY(c) => [c]
    case _ => []
  }

  /** The characters of y a column sequence shows (its Match and InsY columns). */
  function YOf(cols: seq<Column>): string {
    if |cols| == 0 then []
    else YOf(cols[..|cols|-1]) + YChars(cols[|cols|-1])
  }

  /** The characters of the Match columns: the common subsequence. */
  function Common(cols: seq<Column>): string {
    if |cols| == 0 then []
    else Common(cols[..|cols|-1]) + (if cols[|cols|-1].Match? then [cols[|cols|-1].c] else [])
  }

  /** The number of '|' marks in a track. */
  function Bars(s: string): nat {
    if |s| == 0 then 0 else Bars(s[..|s|-1]) + (if s[|s|-1] == '|' then 1 else 0)
  }

  // ---------------------------------------------------------------------------
  // Properties of the walk

  /** One step of the walk from (i, j): the cell it moves to, the column it
      emits there, and how the LCS value changes. */
  lemma Back(x: string, y: string, i: nat, j: nat, v: Variant) returns (a: nat, b: nat, col: Column)
    requires i <= |x| && j <= |y| && i + j > 0
    ensures a <= i && b <= j && a + b < i + j && i - 1 <= a && j - 1 <= b
    ensures Walk(x, y, i, j, v) == Walk(x, y, a, b, v) + [col]
    ensures col.Match? ==> a == i - 1 && b == j - 1 && col.c == x[i-1] == y[j-1]
    ensures col.Match? ==> LcsCell(x, y, i, j) == LcsCell(x, y, a, b) + 1
    ensures !col.Match? ==> LcsCell(x, y, i, j) == LcsCell(x, y, a, b) && a + b == i + j - 1
    ensures col.DelX? && i > 0 ==> a == i - 1 && b == j && col.c == x[i-1]
    ensures col.InsY? ==> a == i && b == j - 1 && col.c == y[j-1]
    ensures i == 0 ==> a == 0 && b == j - 1 && col == LeftoverY(y[j-1], v)
    ensures col != Blank
    ensures i > 0 && j > 0 && x[i-1] == y[j-1] ==> col == Match(x[i-1])
    ensures i > 0 && j > 0 && x[i-1] != y[j-1] ==>
      col == (if LcsCell(x, y, i-1, j) > LcsCell(x, y, i, j-1) then DelX(x[i-1]) else InsY(y[j-1]))
    ensures i > 0 && j == 0 ==> col == DelX(x[i-1])
    ensures v == Corrected ==> XChars(col) == (if a < i then [x[i-1]] else [])
    ensures v == Corrected ==> YChars(col) == (if b < j then [y[j-1]] else [])
  {
    if i > 0 && j > 0 {
      if x[i-1] == y[j-1] {
        a, b, col := i - 1, j - 1, Match(x[i-1]);
      } else if LcsCell(x, y, i-1, j) > LcsCell(x, y, i, j-1) {
        a, b, col := i - 1, j, DelX(x[i-1]);
      } else {
        a, b, col := i, j - 1, InsY(y[j-1]);
      }
    } else if i > 0 {
      a, b, col := i - 1, j, DelX(x[i-1]);
    } else {
      a, b, col := i, j - 1, LeftoverY(y[j-1], v);
    }
  }

  /** The walk takes m + n - L steps. */
  lemma {:induction false} WalkLength(x: string, y: string, i: nat, j: nat, v: Variant)
    requires i <= |x| && j <= |y|
    ensures |Walk(x, y, i, j, v)| == i + j - LcsCell(x, y, i, j)
    decreases i + j
  {
    if i + j > 0 {
      var a, b, col := Back(x, y, i, j, v);
      WalkLength(x, y, a, b, v);
    }
  }

  lemma CommonAppend(cols: seq<Column>, col: Column)
    ensures Common(cols + [col]) == Common(cols) + (if col.Match? then [col.c] else [])
  {
    assert (cols + [col])[..|cols|] == cols;
  }

  lemma XOfAppend(cols: seq<Column>, col: Column)
    ensures XOf(cols + [col]) == XOf(cols) + XChars(col)
  {
    assert (cols + [col])[..|cols|] == cols;
  }

  lemma YOfAppend(cols: seq<Column>, col: Column)
    ensures YOf(cols + [col]) == YOf(cols) + YChars(col)
  {
    assert (cols + [col])[..|cols|] == cols;
  }

  /** The walk emits exactly L Match columns. */
  lemma {:induction false} WalkMatches(x: string, y: string, i: nat, j: nat, v: Variant)
    requires i <= |x| && j <= |y|
    ensures |Common(Walk(x, y, i, j, v))| == LcsCell(x, y, i, j)
    decreases i + j
  {
    if i == 0 && j == 0 {
      return;
    }
    var a, b, col := Back(x, y, i, j, v);
    WalkMatches(x, y, a, b, v);
    CommonAppend(Walk(x, y, a, b, v), col);
  }

  /** The Match columns spell a common subsequence of x[..i] and y[..j]. */
  lemma {:induction false} WalkCommon(x: string, y: string, i: nat, j: nat, v: Variant)
    requires i <= |x| && j <= |y|
    ensures IsSubseq(Common(Walk(x, y, i, j, v)), x[..i])
    ensures IsSubseq(Common(Walk(x, y, i, j, v)), y[..j])
    decreases i + j
  {
    if i == 0 && j == 0 {
      return;
    }
    var a, b, col := Back(x, y, i, j, v);
    WalkCommon(x, y, a, b, v);
    var dx: string := if a < i then [x[i-1]] else [];
    var dy: string := if b < j then [y[j-1]] else [];
    PrefixStep(x, i, a, dx);
    PrefixStep(y, j, b, dy);
    CommonStep(Walk(x, y, a, b, v), col, x[..a], y[..b], dx, dy);
  }

  lemma CommonStep(w: seq<Column>, col: Column, xs: string, ys: string, dx: string, dy: string)
    requires IsSubseq(Common(w), xs) && IsSubseq(Common(w), ys)
    requires |dx| <= 1 && |dy| <= 1
    requires col.Match? ==> dx == [col.c] && dy == [col.c]
    ensures IsSubseq(Common(w + [col]), xs + dx) && IsSubseq(Common(w + [col]), ys + dy)
  {
    CommonAppend(w, col);
    if !col.Match? {
      assert Common(w + [col]) == Common(w);
    }
    if col.Match? {
      SubseqExtendBoth(Common(w), xs, col.c);
      SubseqExtendBoth(Common(w), ys, col.c);
    } else {
      if |dx| == 1 {
        SubseqExtendRight(Common(w), xs, dx[0]);
        assert xs + dx == xs + [dx[0]];
      } else {
        assert xs + dx == xs;
      }
      if |dy| == 1 {
        SubseqExtendRight(Common(w), ys, dy[0]);
        assert ys + dy == ys + [dy[0]];
      } else {
        assert ys + dy == ys;
      }
    }
  }

  /** The Match columns of the whole walk form a longest common subsequence
      of x and y: no common subsequence is longer. */
  lemma WalkIsLongest(x: string, y: string, v: Variant, z: string)
    requires IsSubseq(z, x) && IsSubseq(z, y)
    ensures IsSubseq(Common(Walk(x, y, |x|, |y|, v)), x) && IsSubseq(Common(Walk(x, y, |x|, |y|, v)), y)
    ensures |z| <= |Common(Walk(x, y, |x|, |y|, v))|
  {
    assert x[..|x|] == x && y[..|y|] == y;
    WalkCommon(x, y, |x|, |y|, v);
    WalkMatches(x, y, |x|, |y|, v);
    LcsIsUpperBound(x, y, |x|, |y|, z);
  }

  /** With leftover y characters put in the y track, the walk shows all of
      x[..i] in the x track and all of y[..j] in the y track, in order. */
  lemma {:induction false} WalkShowsInputs(x: string, y: string, i: nat, j: nat)
    requires i <= |x| && j <= |y|
    ensures XOf(Walk(x, y, i, j, Corrected)) == x[..i]
    ensures YOf(Walk(x, y, i, j, Corrected)) == y[..j]
  {
    WalkShowsX(x, y, i, j);
    WalkShowsY(x, y, i, j);
  }

  lemma {:induction false} WalkShowsX(x: string, y: string, i: nat, j: nat)
    requires i <= |x| && j <= |y|
    ensures XOf(Walk(x, y, i, j, Corrected)) == x[..i]
    decreases i + j
  {
    if i + j > 0 {
      var a, b, col := Back(x, y, i, j, Corrected);
      WalkShowsX(x, y, a, b);
      XOfAppend(Walk(x, y, a, b, Corrected), col);
      PrefixStep(x, i, a, XChars(col));
    }
  }

  lemma {:induction false} WalkShowsY(x: string, y: string, i: nat, j: nat)
    requires i <= |x| && j <= |y|
    ensures YOf(Walk(x, y, i, j, Corrected)) == y[..j]
    decreases i + j
  {
    if i + j > 0 {
      var a, b, col := Back(x, y, i, j, Corrected);
      WalkShowsY(x, y, a, b);
      YOfAppend(Walk(x, y, a, b, Corrected), col);
      PrefixStep(y, j, b, YChars(col));
    }
  }

  /** A prefix one character longer is the shorter prefix plus that character. */
  lemma PrefixStep(s: string, i: nat, a: nat, chars: string)
    requires i - 1 <= a <= i <= |s|
    requires chars == (if a < i then [s[i-1]] else [])
    ensures s[..i] == s[..a] + chars
  {
    if a < i {
      assert s[..i] == s[..i-1] + [s[i-1]];
    }
  }

  lemma {:induction false} BarsOfMid(cols: seq<Column>)
    ensures Bars(Render(cols).align) == |Common(cols)|
  {
    if |cols| > 0 {
      var init := cols[..|cols|-1];
      BarsOfMid(init);
      assert Render(cols).align[..|cols|-1] == Render(init).align;
    }
  }

  /** The finished buffers: 2*max(m,n) - L characters each, with exactly L
      '|' marks, and the corrected variant shows x and y in full. */
  lemma AlignmentFacts(x: string, y: string, v: Variant)
    ensures |Alignment(x, y, v)| == 2 * Max(|x|, |y|) - LcsCell(x, y, |x|, |y|)
    ensures Bars(Render(Alignment(x, y, v)).align) == LcsCell(x, y, |x|, |y|)
    ensures v == Corrected ==> XOf(Alignment(x, y, v)) == x && YOf(Alignment(x, y, v)) == y
  {
    WalkLength(x, y, |x|, |y|, v);
    WalkMatches(x, y, |x|, |y|, v);
    PaddingShowsNothing(Gap(x, y), Walk(x, y, |x|, |y|, v));
    BarsOfMid(Alignment(x, y, v));
    if v == Corrected {
      WalkShowsInputs(x, y, |x|, |y|);
      assert x[..|x|] == x && y[..|y|] == y;
    }
  }

  /** Blank columns in front add nothing to any of the read-back strings. */
  lemma {:induction false} PaddingShowsNothing(k: nat, cols: seq<Column>)
    ensures XOf(Padding(k) + cols) == XOf(cols)
    ensures YOf(Padding(k) + cols) == YOf(cols)
    ensures Common(Padding(k) + cols) == Common(cols)
    decreases |cols|
  {
    if |cols| == 0 {
      assert Padding(k) + cols == Padding(k);
      PaddingEmpty(k);
    } else {
      var init := cols[..|cols|-1];
      PaddingShowsNothing(k, init);
      assert (Padding(k) + cols)[..|Padding(k) + cols|-1] == Padding(k) + init;
    }
  }

  lemma {:induction false} PaddingEmpty(k: nat)
    ensures XOf(Padding(k)) == [] && YOf(Padding(k)) == [] && Common(Padding(k)) == []
  {
    if k > 0 {
      PaddingEmpty(k - 1);
      assert Padding(k)[..k-1] == Padding(k - 1);
    }
  }

  /** The leftover-y slip on x = "A", y = "BA": the 'B' of y is printed in
      the x line, so the x line reads "-BA" although x is "A". Putting it in
      the y line gives the intended picture. */
  lemma LeftoverYInXTrack()
    ensures Render(Alignment("A", "BA", AsWritten)) == Tracks("-BA", "  |", "--A")
    ensures XOf(Alignment("A", "BA", AsWritten)) == "BA"
    ensures Render(Alignment("A", "BA", Corrected)) == Tracks("--A", "  |", "-BA")
  {
    RenderedABA(AsWritten);
    RenderedABA(Corrected);
    XOfABA();
  }

  lemma RenderedABA(v: Variant)
    ensures Render(Alignment("A", "BA", v)) ==
      if v == AsWritten then Tracks("-BA", "  |", "--A") else Tracks("--A", "  |", "-BA")
  {
    AlignmentABA(v);
    RenderABA(LeftoverY('B', v));
  }

  lemma XOfABA()
    ensures XOf(Alignment("A", "BA", AsWritten)) == "BA"
  {
    AlignmentABA(AsWritten);
    assert Alignment("A", "BA", AsWritten) == Padding(1) + [DelX('B'), Match('A')];
    PaddingShowsNothing(1, [DelX('B'), Match('A')]);
    XOfAppend([], DelX('B'));
    XOfAppend([DelX('B')], Match('A'));
    assert [DelX('B')] + [Match('A')] == [DelX('B'), Match('A')];
  }

  lemma AlignmentABA(v: Variant)
    ensures Alignment("A", "BA", v) == [Blank, LeftoverY('B', v), Match('A')]
  {
    var x, y := "A", "BA";
    assert x[0] == y[1] && y[0] == 'B';
    assert Walk(x, y, 0, 0, v) == [];
    assert Walk(x, y, 0, 1, v) == [LeftoverY('B', v)];
    assert Walk(x, y, 1, 2, v) == [LeftoverY('B', v), Match('A')];
    assert Gap(x, y) == 1;
  }

  lemma RenderABA(col: Column)
    requires col == DelX('B') || col == InsY('B')
    ensures Render([Blank, col, Match('A')]) ==
      Tracks(['-', TopChar(col), 'A'], "  |", ['-', BottomChar(col), 'A'])
  {
    var t := Render([Blank, col, Match('A')]);
    assert t.newX == ['-', TopChar(col), 'A'];
    assert t.align == "  |";
    assert t.newY == ['-', BottomChar(col), 'A'];
  }

  // ---------------------------------------------------------------------------
  // Writing the buffers

  /** Writing a column into a Blank slot changes exactly that slot of each track. */
  lemma Place(cols: seq<Column>, k: nat, col: Column)
    requires k < |cols| && cols[k] == Blank
    ensures Render(cols).newX[k] == '-' && Render(cols).align[k] == ' ' && Render(cols).newY[k] == '-'
    ensures Render(cols[k := col]) ==
      Tracks(Render(cols).newX[k := TopChar(col)], Render(cols).align[k := MidChar(col)], Render(cols).newY[k := BottomChar(col)])
  {
  }

  /** The buffers part-way through the traceback: the walk from (i, j) is
      still to come, done has been written at slots l .. end, and slots
      below l still hold the prefill. */
  ghost predicate Progress(x: string, y: string, v: Variant, i: int, j: int, l: int, done: seq<Column>, t: Tracks) {
    && 0 <= i <= |x| && 0 <= j <= |y|
    && Walk(x, y, |x|, |y|, v) == Walk(x, y, i, j, v) + done
    && l == Gap(x, y) + i + j - LcsCell(x, y, i, j)
    && 0 <= l
    && t == Render(Padding(l) + done)
  }

  /** The buffers as allocated and prefilled: 2*max(m,n) - L slots each. */
  lemma Start(x: string, y: string, v: Variant, l: int)
    requires l == Max(|x|, |y|) + (Max(|x|, |y|) - LcsCell(x, y, |x|, |y|))
    ensures 0 <= l
    ensures Progress(x, y, v, |x|, |y|, l, [], Render(Padding(l)))
  {
    LcsBounds(x, y, |x|, |y|);
    assert Gap(x, y) + |x| + |y| == 2 * Max(|x|, |y|);
    assert Padding(l) + [] == Padding(l);
    var w := Walk(x, y, |x|, |y|, v);
    assert w + [] == w;
  }

  lemma Prefilled(l: nat)
    ensures Render(Padding(l)) == Tracks(seq(l, _ => '-'), seq(l, _ => ' '), seq(l, _ => '-'))
  {
    var t := Render(Padding(l));
    assert t.newX == seq(l, _ => '-');
    assert t.align == seq(l, _ => ' ');
    assert t.newY == seq(l, _ => '-');
  }

  /** One step of the walk, written at slot l-1. The slot still holds the
      prefill, so writing only the characters that differ from it is the
      same as writing the whole column. */
  lemma Advance(x: string, y: string, v: Variant, i: nat, j: nat, l: int, done: seq<Column>, t: Tracks,
                a: nat, b: nat, col: Column)
    requires Progress(x, y, v, i, j, l, done, t)
    requires a <= i && b <= j && Walk(x, y, i, j, v) == Walk(x, y, a, b, v) + [col]
    ensures 1 <= l <= |t.newX| && t.newX[l-1] == '-' && t.align[l-1] == ' ' && t.newY[l-1] == '-'
    ensures Progress(x, y, v, a, b, l - 1, [col] + done, Written(t, l - 1, col))
  {
    WalkLength(x, y, i, j, v);
    WalkLength(x, y, a, b, v);
    LcsBounds(x, y, a, b);
    var cols := Padding(l) + done;
    Place(cols, l - 1, col);
    WrittenSlot(t, l - 1, col);
    assert cols[l-1 := col] == Padding(l - 1) + ([col] + done);
    assert Walk(x, y, |x|, |y|, v) == Walk(x, y, a, b, v) + ([col] + done);
  }

  /** The source's writes for a column into a prefilled slot k: only the
      characters that differ from the prefill. */
  function Written(t: Tracks, k: nat, col: Column): Tracks
    requires k < |t.newX| && k < |t.align| && k < |t.newY|
  {
    match col
    case Match(c) => Tracks(t.newX[k := c], t.align[k := '|'], t.newY[k := c])
    case DelX(c) => t.(newX := t.newX[k := c])
    case InsY(c) => t.(newY := t.newY[k := c])
    case Blank => t
  }

  lemma WrittenSlot(t: Tracks, k: nat, col: Column)
    requires k < |t.newX| && k < |t.align| && k < |t.newY|
    requires t.newX[k] == '-' && t.align[k] == ' ' && t.newY[k] == '-'
    ensures Written(t, k, col) == Tracks(t.newX[k := TopChar(col)], t.align[k := MidChar(col)], t.newY[k := BottomChar(col)])
  {
    assert t.newX[k := '-'] == t.newX;
    assert t.align[k := ' '] == t.align;
    assert t.newY[k := '-'] == t.newY;
  }

  /** A matching pair: x[i-1] over '|' over y[j-1] at slot l-1, moving diagonally. */
  lemma StepMatch(x: string, y: string, v: Variant, i: nat, j: nat, l: int, done: seq<Column>, t: Tracks)
    returns (col: Column)
    requires Progress(x, y, v, i, j, l, done, t) && i > 0 && j > 0 && x[i-1] == y[j-1]
    ensures 1 <= l <= |t.newX| && |t.newX| == |t.align| == |t.newY|
    ensures Progress(x, y, v, i - 1, j - 1, l - 1, [col] + done,
      Tracks(t.newX[l-1 := x[i-1]], t.align[l-1 := '|'], t.newY[l-1 := y[j-1]]))
  {
    var a, b;
    a, b, col := Back(x, y, i, j, v);
    Advance(x, y, v, i, j, l, done, t, a, b, col);
  }

  /** A mismatch whose upper neighbour is strictly larger: x[i-1] against a gap, moving up. */
  lemma StepUp(x: string, y: string, v: Variant, i: nat, j: nat, l: int, done: seq<Column>, t: Tracks)
    returns (col: Column)
    requires Progress(x, y, v, i, j, l, done, t) && i > 0 && j > 0 && x[i-1] != y[j-1]
    requires LcsCell(x, y, i-1, j) > LcsCell(x, y, i, j-1)
    ensures 1 <= l <= |t.newX|
    ensures Progress(x, y, v, i - 1, j, l - 1, [col] + done, t.(newX := t.newX[l-1 := x[i-1]]))
  {
    var a, b;
    a, b, col := Back(x, y, i, j, v);
    Advance(x, y, v, i, j, l, done, t, a, b, col);
  }

  /** Any other mismatch, ties included: a gap against y[j-1], moving left. */
  lemma StepLeft(x: string, y: string, v: Variant, i: nat, j: nat, l: int, done: seq<Column>, t: Tracks)
    returns (col: Column)
    requires Progress(x, y, v, i, j, l, done, t) && i > 0 && j > 0 && x[i-1] != y[j-1]
    requires !(LcsCell(x, y, i-1, j) > LcsCell(x, y, i, j-1))
    ensures 1 <= l <= |t.newY|
    ensures Progress(x, y, v, i, j - 1, l - 1, [col] + done, t.(newY := t.newY[l-1 := y[j-1]]))
  {
    var a, b;
    a, b, col := Back(x, y, i, j, v);
    Advance(x, y, v, i, j, l, done, t, a, b, col);
  }

  /** A leftover character of x, once j is 0. */
  lemma StepRestX(x: string, y: string, v: Variant, i: nat, l: int, done: seq<Column>, t: Tracks)
    returns (col: Column)
    requires Progress(x, y, v, i, 0, l, done, t) && i > 0
    ensures 1 <= l <= |t.newX|
    ensures Progress(x, y, v, i - 1, 0, l - 1, [col] + done, t.(newX := t.newX[l-1 := x[i-1]]))
  {
    var a, b;
    a, b, col := Back(x, y, i, 0, v);
    Advance(x, y, v, i, 0, l, done, t, a, b, col);
  }

  /** A leftover character of y, once i is 0: into the x line as written,
      into the y line when corrected. */
  lemma StepRestY(x: string, y: string, v: Variant, j: nat, l: int, done: seq<Column>, t: Tracks)
    returns (col: Column)
    requires Progress(x, y, v, 0, j, l, done, t) && j > 0
    ensures 1 <= l <= |t.newX| && |t.newX| == |t.newY|
    ensures v == AsWritten ==> Progress(x, y, v, 0, j - 1, l - 1, [col] + done, t.(newX := t.newX[l-1 := y[j-1]]))
    ensures v == Corrected ==> Progress(x, y, v, 0, j - 1, l - 1, [col] + done, t.(newY := t.newY[l-1 := y[j-1]]))
  {
    var a, b;
    a, b, col := Back(x, y, 0, j, v);
    Advance(x, y, v, 0, j, l, done, t, a, b, col);
  }

  /** When neither prefix is empty at least one slot is left to write. */
  lemma RoomLeft(x: string, y: string, v: Variant, i: nat, j: nat, l: int, done: seq<Column>, t: Tracks)
    requires Progress(x, y, v, i, j, l, done, t) && i > 0 && j > 0
    ensures l > 0
  {
    LcsBounds(x, y, i, j);
  }

  /** The two loops after the main one of ilcsAlign and mlcsAlign: what is
      left of x goes into the x line; what is left of y goes into the x line
      as written, into the y line when corrected. */
  method Leftovers(x: string, y: string, v: Variant, i: nat, j: nat, l: int, t0: Tracks, ghost done: seq<Column>)
    returns (t: Tracks)
    requires Progress(x, y, v, i, j, l, done, t0) && (i == 0 || j == 0)
    ensures t == Render(Alignment(x, y, v))
  {
    t := t0;
    if i > 0 && j == 0 {
      t := LeftoverX(x, y, v, i, l, t, done);
    }
    if j > 0 && i == 0 {
      t := LeftoverYLoop(x, y, v, j, l, t, done);
    }
    if i == 0 && j == 0 {
      Finished(x, y, v, l, done, t);
    }
  }

  lemma Finished(x: string, y: string, v: Variant, l: int, done: seq<Column>, t: Tracks)
    requires Progress(x, y, v, 0, 0, l, done, t)
    ensures t == Render(Alignment(x, y, v))
  {
  }

  /** The first trailing loop of ilcsAlign and mlcsAlign: the rest of x. */
  method LeftoverX(x: string, y: string, v: Variant, i0: nat, l0: int, t0: Tracks, ghost done0: seq<Column>)
    returns (t: Tracks)
    requires Progress(x, y, v, i0, 0, l0, done0, t0)
    ensures t == Render(Alignment(x, y, v))
  {
    var i, l := i0, l0;
    ghost var done := done0;
    t := t0;
    while i > 0
      invariant Progress(x, y, v, i, 0, l, done, t)
      decreases i
    {
      ghost var col := StepRestX(x, y, v, i, l, done, t);
      t := t.(newX := t.newX[l-1 := x[i-1]]);
      i := i - 1;
      l := l - 1;
      done := [col] + done;
    }
    Finished(x, y, v, l, done, t);
  }

  /** The second trailing loop of ilcsAlign and mlcsAlign: the rest of y. */
  method LeftoverYLoop(x: string, y: string, v: Variant, j0: nat, l0: int, t0: Tracks, ghost done0: seq<Column>)
    returns (t: Tracks)
    requires Progress(x, y, v, 0, j0, l0, done0, t0)
    ensures t == Render(Alignment(x, y, v))
  {
    var j, l := j0, l0;
    ghost var done := done0;
    t := t0;
    while j > 0
      invariant Progress(x, y, v, 0, j, l, done, t)
      decreases j
    {
      ghost var col := StepRestY(x, y, v, j, l, done, t);
      if v == AsWritten {
        t := t.(newX := t.newX[l-1 := y[j-1]]);
      } else {
        t := t.(newY := t.newY[l-1 := y[j-1]]);
      }
      j := j - 1;
      l := l - 1;
      done := [col] + done;
    }
    Finished(x, y, v, l, done, t);
  }

  /** One pass of the main traceback loop of ilcsAlign and mlcsAlign:
      write the column for (i, j) into slot l-1 and move to the next cell.
      up is the caller's reading of "the upper cell is strictly larger". */
  method TraceStep(x: string, y: string, v: Variant, i: nat, j: nat, l: int, t: Tracks,
                   ghost done: seq<Column>, up: bool)
    returns (i': nat, j': nat, l': int, t': Tracks, ghost done': seq<Column>)
    requires Progress(x, y, v, i, j, l, done, t) && i > 0 && j > 0
    requires x[i-1] != y[j-1] ==> (up <==> LcsCell(x, y, i-1, j) > LcsCell(x, y, i, j-1))
    ensures Progress(x, y, v, i', j', l', done', t')
    ensures l' == l - 1 && i' + j' < i + j
    ensures x[i-1] == y[j-1] ==> i' == i - 1 && j' == j - 1
    ensures x[i-1] != y[j-1] && up ==> i' == i - 1 && j' == j
    ensures x[i-1] != y[j-1] && !up ==> i' == i && j' == j - 1
    ensures LcsCell(x, y, i', j') == LcsCell(x, y, i, j) - (if x[i-1] == y[j-1] then 1 else 0)
  {
    ghost var col: Column;
    if x[i-1] == y[j-1] {
      col := StepMatch(x, y, v, i, j, l, done, t);
      t' := Tracks(t.newX[l-1 := x[i-1]], t.align[l-1 := '|'], t.newY[l-1 := y[j-1]]);
      i', j' := i - 1, j - 1;
    } else if up {
      col := StepUp(x, y, v, i, j, l, done, t);
      t' := t.(newX := t.newX[l-1 := x[i-1]]);
      i', j' := i - 1, j;
    } else {
      col := StepLeft(x, y, v, i, j, l, done, t);
      t' := t.(newY := t.newY[l-1 := y[j-1]]);
      i', j' := i, j - 1;
    }
    l' := l - 1;
    done' := [col] + done;
  }

  /** ilcsAlign: the traceback over the iterative table. The three lines
      are the rendering of Alignment, so (AlignmentFacts) they are
      2*max(m,n) - L characters long and carry exactly L '|' marks. */
  method ILcsAlign(x: string, y: string, table: seq<seq<int>>, v: Variant) returns (t: Tracks)
    requires Tables.IsLcsTable(x, y, table)
    ensures t == Render(Alignment(x, y, v))
    ensures |t.newX| == |t.align| == |t.newY| == 2 * Max(|x|, |y|) - LcsCell(x, y, |x|, |y|)
  {
    var xLen, yLen := |x|, |y|;
    var index := table[xLen][yLen];
    var l := Max(xLen, yLen) + (Max(xLen, yLen) - index);
    Start(x, y, v, l);
    Prefilled(l);
    t := Tracks(seq(l, _ => '-'), seq(l, _ => ' '), seq(l, _ => '-'));
    var i, j := xLen, yLen;
    ghost var done: seq<Column> := [];
    while i > 0 && j > 0
      invariant Progress(x, y, v, i, j, l, done, t)
      invariant index == LcsCell(x, y, i, j)
      decreases i + j
    {
      var up := false;
      if x[i-1] == y[j-1] {
        LcsBounds(x, y, i-1, j-1);
        LcsMonotone(x, y, i, j, xLen, yLen);
        assert 1 <= index <= table[xLen][yLen];
        index := index - 1;
      } else {
        up := table[i-1][j] > table[i][j-1];
      }
      i, j, l, t, done := TraceStep(x, y, v, i, j, l, t, done, up);
    }
    t := Leftovers(x, y, v, i, j, l, t, done);
    AlignmentFacts(x, y, v);
  }

  /** A cell of the memo that evaluated reports as computed. */
  function ReadCell(memo: Memo.MemoState, i: nat, j: nat): int
    requires i < |memo.pairs| && j < |memo.pairs[i]| && memo.count < |memo.helper|
    requires Memo.Evaluated(memo, i, j)
  {
    memo.pairs[i][j].i
  }

  /** After mlcs, an evaluated cell holds its LCS value and the cells its
      traceback step reads were evaluated too. */
  lemma MemoCell(x: string, y: string, memo: Memo.MemoState, i: nat, j: nat)
    requires Memo.Complete(Memo.LcsMetric, x, y, memo) && i <= |x| && j <= |y|
    requires Memo.Cached(memo, i, j)
    ensures memo.pairs[i][j].i == LcsCell(x, y, i, j)
    ensures i > 0 && j > 0 && x[i-1] == y[j-1] ==> Memo.Cached(memo, i-1, j-1)
    ensures i > 0 && j > 0 && x[i-1] != y[j-1] ==> Memo.Cached(memo, i-1, j) && Memo.Cached(memo, i, j-1)
  {
    Memo.CachedIsDone(Memo.LcsMetric, x, y, memo, i, j);
  }

  /** The comparison of mlcsAlign's main loop, read from the memo: whether the upper
      cell is strictly larger than the left one. The cells the next step
      can move to were evaluated. */
  method MemoUp(x: string, y: string, memo: Memo.MemoState, i: nat, j: nat) returns (up: bool)
    requires Memo.Complete(Memo.LcsMetric, x, y, memo) && 0 < i <= |x| && 0 < j <= |y|
    requires Memo.Cached(memo, i, j)
    ensures x[i-1] == y[j-1] ==> Memo.Cached(memo, i-1, j-1)
    ensures x[i-1] != y[j-1] ==> Memo.Cached(memo, i-1, j) && Memo.Cached(memo, i, j-1)
    ensures x[i-1] != y[j-1] ==> (up <==> LcsCell(x, y, i-1, j) > LcsCell(x, y, i, j-1))
  {
    MemoCell(x, y, memo, i, j);
    up := false;
    if x[i-1] != y[j-1] {
      MemoCell(x, y, memo, i-1, j);
      MemoCell(x, y, memo, i, j-1);
      up := ReadCell(memo, i-1, j) > ReadCell(memo, i, j-1);
    }
  }

  /** mlcsAlign: the same traceback over the memo left by mlcs. It reads
      only cells evaluated reports as computed (ReadCell's precondition),
      its extra l > 0 guard never stops the walk early, and it prints the
      same three lines as ILcsAlign. */
  method MLcsAlign(x: string, y: string, memo: Memo.MemoState, v: Variant) returns (t: Tracks)
    requires Memo.Complete(Memo.LcsMetric, x, y, memo)
    ensures t == Render(Alignment(x, y, v))
    ensures |t.newX| == |t.align| == |t.newY| == 2 * Max(|x|, |y|) - LcsCell(x, y, |x|, |y|)
  {
    var xLen, yLen := |x|, |y|;
    MemoCell(x, y, memo, xLen, yLen);
    var index := ReadCell(memo, xLen, yLen);
    var l := Max(xLen, yLen) + (Max(xLen, yLen) - index);
    Start(x, y, v, l);
    Prefilled(l);
    t := Tracks(seq(l, _ => '-'), seq(l, _ => ' '), seq(l, _ => '-'));
    var i, j := xLen, yLen;
    ghost var done: seq<Column> := [];
    while i > 0 && j > 0 && l > 0
      invariant Progress(x, y, v, i, j, l, done, t)
      invariant index == LcsCell(x, y, i, j)
      invariant i > 0 && j > 0 ==> Memo.Cached(memo, i, j)
      decreases i + j
    {
      var up := MemoUp(x, y, memo, i, j);
      if x[i-1] == y[j-1] {
        LcsBounds(x, y, i-1, j-1);
        LcsMonotone(x, y, i, j, xLen, yLen);
        assert 1 <= index <= ReadCell(memo, xLen, yLen);
        index := index - 1;
      }
      i, j, l, t, done := TraceStep(x, y, v, i, j, l, t, done, up);
    }
    if i > 0 && j > 0 {
      RoomLeft(x, y, v, i, j, l, done, t);
    }
    t := Leftovers(x, y, v, i, j, l, t, done);
    AlignmentFacts(x, y, v);
  }
}
