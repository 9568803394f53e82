/** The cell-selection automaton of the click handler: each click maps the
    current selection to the next one. A selection is a straight run of
    distinct cells along one row or one column; the second cell fixes the
    direction, a click on a selected cell backtracks to it, and any click that
    does not extend the run restarts it. */
module Selection {
  import opened Board

  type Path = seq<Coord>

  function Abs(x: int): nat
  {
    if x < 0 then -x else x
  }

  /** The clicked cell is the horizontal neighbour of `last`. */
  predicate IsHorizontalStep(last: Coord, p: Coord)
  {
    p.r == last.r && Abs(p.c - last.c) == 1
  }

  /** The clicked cell is the vertical neighbour of `last`. */
  predicate IsVerticalStep(last: Coord, p: Coord)
  {
    p.c == last.c && Abs(p.r - last.r) == 1
  }

  /** `findIndex`: the first position of `p` in the selection, or -1. */
  function IndexOf(sel: Path, p: Coord): (i: int)
    ensures -1 <= i < |sel|
    ensures i == -1 <==> p !in sel
    ensures i >= 0 ==> sel[i] == p && p !in sel[..i]
  {
    if |sel| == 0 then -1
    else if sel[0] == p then 0
    else
      var j := IndexOf(sel[1..], p);
      assert sel[1..][..if j < 0 then 0 else j] == sel[1..if j < 0 then 1 else j + 1];
      if j < 0 then -1 else j + 1
  }

  /** Every cell of the selection lies on the first cell's row. */
  predicate AllOnRow(sel: Path)
    requires |sel| > 0
  {
    forall i :: 0 <= i < |sel| ==> sel[i].r == sel[0].r
  }

  /** Every cell of the selection lies on the first cell's column. */
  predicate AllOnColumn(sel: Path)
    requires |sel| > 0
  {
    forall i :: 0 <= i < |sel| ==> sel[i].c == sel[0].c
  }

  /** `handleCellClick`, selection logic only. */
  function Click(sel: Path, p: Coord): (sel': Path)
    ensures |sel'| > 0 && sel'[|sel'| - 1] == p
    ensures |sel| == 0 ==> sel' == [p]
    ensures p in sel ==> sel' == sel[..IndexOf(sel, p) + 1]
    ensures (&& p !in sel && |sel| > 0
             && !IsHorizontalStep(sel[|sel| - 1], p)
             && !IsVerticalStep(sel[|sel| - 1], p)) ==> sel' == [p]
    ensures sel' == [p] || sel' == sel + [p] || (|sel'| <= |sel| && sel' == sel[..|sel'|])
  {
    if |sel| == 0 then [p]
    else
      var last := sel[|sel| - 1];
      var isHorizontal := IsHorizontalStep(last, p);
      var isVertical := IsVerticalStep(last, p);
      var index := IndexOf(sel, p);
      if index > -1 then
        sel[..index + 1]
      else if isHorizontal || isVertical then
        var shouldAdd :=
          if |sel| == 1 then true
          else
            var first := sel[0];
            if AllOnRow(sel) then p.r == first.r && isHorizontal
            else if AllOnColumn(sel) then p.c == first.c && isVertical
            else false;
        if shouldAdd then sel + [p] else [p]
      else
        [p]
  }

  /** A well-shaped selection: distinct cells, all on the first cell's row with
      consecutive cells one column apart, or all on its column with
      consecutive cells one row apart. */
  predicate Distinct(sel: Path)
  {
    forall i, j :: 0 <= i < j < |sel| ==> sel[i] != sel[j]
  }

  predicate RowRun(sel: Path)
  {
    |sel| > 0 && AllOnRow(sel)
    && forall i :: 0 < i < |sel| ==> IsHorizontalStep(sel[i - 1], sel[i])
  }

  predicate ColumnRun(sel: Path)
  {
    |sel| > 0 && AllOnColumn(sel)
    && forall i :: 0 < i < |sel| ==> IsVerticalStep(sel[i - 1], sel[i])
  }

  predicate IsLine(sel: Path)
  {
    Distinct(sel) && (|sel| == 0 || RowRun(sel) || ColumnRun(sel))
  }

  lemma PrefixIsLine(sel: Path, n: int)
    requires IsLine(sel) && 0 < n <= |sel|
    ensures IsLine(sel[..n])
  {
    var s := sel[..n];
    if RowRun(sel) {
      assert RowRun(s);
    } else {
      assert ColumnRun(s);
    }
  }

  /** A run of two or more cells along a column is not also along a row. */
  lemma ColumnRunIsNotOnRow(sel: Path)
    requires ColumnRun(sel) && |sel| >= 2
    ensures !AllOnRow(sel)
  {
    assert IsVerticalStep(sel[0], sel[1]);
  }

  /** Every click keeps a well-shaped selection well-shaped. */
  lemma {:induction false} ClickKeepsLine(sel: Path, p: Coord)
    requires IsLine(sel)
    ensures IsLine(Click(sel, p))
  {
    var sel' := Click(sel, p);
    if |sel| == 0 || sel' == [p] {
    } else if p in sel {
      PrefixIsLine(sel, IndexOf(sel, p) + 1);
    } else {
      assert sel' == sel + [p];
      var last := sel[|sel| - 1];
      if |sel| == 1 {
        if IsHorizontalStep(last, p) {
          assert RowRun(sel');
        } else {
          assert IsVerticalStep(last, p);
          assert ColumnRun(sel');
        }
      } else if RowRun(sel) {
        assert AllOnRow(sel);
        assert p.r == sel[0].r && IsHorizontalStep(last, p);
        assert RowRun(sel');
      } else {
        ColumnRunIsNotOnRow(sel);
        assert p.c == sel[0].c && IsVerticalStep(last, p);
        assert ColumnRun(sel');
      }
    }
  }

  /** The selection after a whole sequence of clicks. */
  function ClickAll(sel: Path, clicks: seq<Coord>): Path
    decreases |clicks|
  {
    if |clicks| == 0 then sel else ClickAll(Click(sel, clicks[0]), clicks[1..])
  }

  /** Starting from the empty selection, any sequence of clicks leaves a
      straight run of distinct cells. */
  lemma {:induction false} ClickAllKeepsLine(sel: Path, clicks: seq<Coord>)
    requires IsLine(sel)
    ensures IsLine(ClickAll(sel, clicks))
    decreases |clicks|
  {
    if |clicks| > 0 {
      ClickKeepsLine(sel, clicks[0]);
      ClickAllKeepsLine(Click(sel, clicks[0]), clicks[1..]);
    }
  }

  /** An adjacent, unselected cell that leaves the direction fixed by a
      selection of two or more cells restarts the selection. */
  lemma PatternBreakRestarts(sel: Path, p: Coord)
    requires IsLine(sel) && |sel| >= 2 && p !in sel
    requires RowRun(sel) ==> !IsHorizontalStep(sel[|sel| - 1], p)
    requires ColumnRun(sel) ==> !IsVerticalStep(sel[|sel| - 1], p)
    ensures Click(sel, p) == [p]
  {
    if ColumnRun(sel) {
      ColumnRunIsNotOnRow(sel);
    }
  }

  /** A click that continues the run in its direction extends it by that cell. */
  lemma RunContinues(sel: Path, p: Coord)
    requires IsLine(sel) && |sel| >= 1 && p !in sel
    requires || ((|sel| == 1 || RowRun(sel)) && IsHorizontalStep(sel[|sel| - 1], p))
             || ((|sel| == 1 || ColumnRun(sel)) && IsVerticalStep(sel[|sel| - 1], p))
    ensures Click(sel, p) == sel + [p]
  {
    if |sel| >= 2 && !RowRun(sel) {
      ColumnRunIsNotOnRow(sel);
    }
  }

  /** The erase control is enabled exactly when two or more cells are selected. */
  predicate EraseEnabled(sel: Path)
  {
    |sel| >= 2
  }
}
