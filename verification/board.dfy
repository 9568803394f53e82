/** The play board: a fixed 8 x 5 grid of cell strings, where `""` is an empty
    cell. Gravity settles every column's remaining values to the bottom;
    clearing blanks the cells of a committed selection; a board is complete
    once no cell holds anything. */
module Board {

  const Rows: int := 8
  const Cols: int := 5
  /** `renderBoard(5)` shows, and wires clicks for, only the bottom five rows. */
  const VisibleRows: int := 5
  const FirstVisibleRow: int := Rows - VisibleRows

  const Blank: string := ""

  type Grid = seq<seq<string>>

  /** A cell position: row `r` counted from the top, column `c` from the left. */
  datatype Coord = Coord(r: int, c: int)

  predicate WellFormed(b: Grid)
  {
    |b| == Rows && forall r :: 0 <= r < |b| ==> |b[r]| == Cols
  }

  predicate InBoard(p: Coord)
  {
    0 <= p.r < Rows && 0 <= p.c < Cols
  }

  /** The values of column `c`, top to bottom. */
  function Column(b: Grid, c: int): (col: seq<string>)
    requires WellFormed(b) && 0 <= c < Cols
    ensures |col| == Rows
    ensures forall r :: 0 <= r < Rows ==> col[r] == b[r][c]
  {
    seq(Rows, r requires 0 <= r < Rows => b[r][c])
  }

  /** Two boards agreeing on every column are the same board. */
  lemma ColumnsDetermineGrid(a: Grid, b: Grid)
    requires WellFormed(a) && WellFormed(b)
    requires forall c :: 0 <= c < Cols ==> Column(a, c) == Column(b, c)
    ensures a == b
  {
    forall r | 0 <= r < Rows
      ensures a[r] == b[r]
    {
      forall c | 0 <= c < Cols
        ensures a[r][c] == b[r][c]
      {
        assert Column(a, c)[r] == Column(b, c)[r];
      }
    }
  }

  /** The non-empty values of a column, top to bottom, in their original order. */
  function Kept(col: seq<string>): (k: seq<string>)
    ensures |k| <= |col|
    ensures forall i :: 0 <= i < |k| ==> k[i] != Blank
    ensures forall i :: 0 <= i < |k| ==> k[i] in col
    ensures |k| == |col| <==> forall i :: 0 <= i < |col| ==> col[i] != Blank
  {
    if |col| == 0 then []
    else if col[0] != Blank then [col[0]] + Kept(col[1..])
    else Kept(col[1..])
  }

  /** `n` empty cells. */
  function Blanks(n: nat): (s: seq<string>)
    ensures |s| == n && forall i :: 0 <= i < n ==> s[i] == Blank
  {
    seq(n, _ => Blank)
  }

  lemma KeptAppend(a: seq<string>, b: seq<string>)
    ensures Kept(a + b) == Kept(a) + Kept(b)
  {
    if |a| > 0 {
      assert (a + b)[1..] == a[1..] + b;
      KeptAppend(a[1..], b);
    } else {
      assert a + b == b;
    }
  }

  lemma KeptBlanks(n: nat)
    ensures Kept(Blanks(n)) == []
  {
    if n > 0 {
      assert Blanks(n)[1..] == Blanks(n - 1);
      KeptBlanks(n - 1);
    }
  }

  /** A sequence with no empty value keeps all of it. */
  lemma KeptAllFull(s: seq<string>)
    requires forall i :: 0 <= i < |s| ==> s[i] != Blank
    ensures Kept(s) == s
  {
    if |s| > 0 {
      KeptAllFull(s[1..]);
    }
  }

  /** A settled column: no empty cell lies below a non-empty one. */
  predicate Settled(col: seq<string>)
  {
    forall i, j :: 0 <= i < j < |col| && col[i] != Blank ==> col[j] != Blank
  }

  /** The column `applyGravity` writes back: `8 - k` blanks, then the column's
      `k` non-empty values in their original order. */
  function SettleColumn(col: seq<string>): (s: seq<string>)
    requires |col| == Rows
    ensures |s| == Rows
  {
    Blanks(Rows - |Kept(col)|) + Kept(col)
  }

  /** Settling keeps exactly the column's non-empty values, in order. */
  lemma SettleKeepsValues(col: seq<string>)
    requires |col| == Rows
    ensures Kept(SettleColumn(col)) == Kept(col)
  {
    var k := Kept(col);
    KeptAppend(Blanks(Rows - |k|), k);
    KeptBlanks(Rows - |k|);
    KeptAllFull(k);
  }

  /** A settled column is `8 - k` blanks followed by its `k` values. */
  lemma SettleIsSettled(col: seq<string>)
    requires |col| == Rows
    ensures Settled(SettleColumn(col))
    ensures forall i :: 0 <= i < Rows ==> (SettleColumn(col)[i] == Blank <==> i < Rows - |Kept(col)|)
  {
  }

  /** A column that is already settled is left as it is. */
  lemma SettledIsFixed(col: seq<string>)
    requires |col| == Rows && Settled(col)
    ensures SettleColumn(col) == col
  {
    var n := 0;
    while n < |col| && col[n] == Blank
      invariant 0 <= n <= |col|
      invariant forall i :: 0 <= i < n ==> col[i] == Blank
    {
      n := n + 1;
    }
    var top, bottom := col[..n], col[n..];
    assert col == top + bottom;
    assert top == Blanks(n);
    forall i | 0 <= i < |bottom|
      ensures bottom[i] != Blank
    {
      assert col[n] != Blank;
      assert bottom[i] == col[n + i];
    }
    KeptAppend(top, bottom);
    KeptBlanks(n);
    KeptAllFull(bottom);
    assert Kept(col) == bottom;
  }

  /** `applyGravity`, as a value: every column settled independently. */
  function Gravity(b: Grid): (g: Grid)
    requires WellFormed(b)
    ensures WellFormed(g)
  {
    seq(Rows, r requires 0 <= r < Rows =>
      seq(Cols, c requires 0 <= c < Cols => SettleColumn(Column(b, c))[r]))
  }

  /** Column `c` after gravity depends on column `c` before it and nothing else. */
  lemma GravityColumn(b: Grid, c: int)
    requires WellFormed(b) && 0 <= c < Cols
    ensures Column(Gravity(b), c) == SettleColumn(Column(b, c))
  {
  }

  /** Gravity moves no value into another column and keeps each column's
      non-empty values in their top-to-bottom order; afterwards each column is
      blanks above its values. */
  lemma GravityKeepsColumns(b: Grid)
    requires WellFormed(b)
    ensures forall c :: 0 <= c < Cols ==> Kept(Column(Gravity(b), c)) == Kept(Column(b, c))
    ensures forall c :: 0 <= c < Cols ==> Settled(Column(Gravity(b), c))
  {
    forall c | 0 <= c < Cols
      ensures Kept(Column(Gravity(b), c)) == Kept(Column(b, c))
      ensures Settled(Column(Gravity(b), c))
    {
      GravityColumn(b, c);
      SettleKeepsValues(Column(b, c));
      SettleIsSettled(Column(b, c));
    }
  }

  /** A second application of gravity changes nothing. */
  lemma GravityIdempotent(b: Grid)
    requires WellFormed(b)
    ensures Gravity(Gravity(b)) == Gravity(b)
  {
    var g := Gravity(b);
    forall c | 0 <= c < Cols
      ensures Column(Gravity(g), c) == Column(g, c)
    {
      GravityColumn(g, c);
      GravityColumn(b, c);
      SettleIsSettled(Column(b, c));
      SettledIsFixed(Column(g, c));
    }
    ColumnsDetermineGrid(Gravity(g), g);
  }

  /** `applyGravity` as the source writes it: column by column, collect the
      non-empty values scanning upwards from the bottom row, then write back
      `8 - k` blanks followed by those values. */
  method ApplyGravity(b: Grid) returns (g: Grid)
    requires WellFormed(b)
    ensures g == Gravity(b)
  {
    g := b;
    for c := 0 to Cols
      invariant WellFormed(g)
      invariant forall c' :: 0 <= c' < c ==> Column(g, c') == SettleColumn(Column(b, c'))
      invariant forall c' :: c <= c' < Cols ==> Column(g, c') == Column(b, c')
    {
      var chars: seq<string> := [];
      var r := |g| - 1;
      while r >= 0
        invariant -1 <= r < Rows
        invariant chars == Kept(Column(g, c)[r + 1..])
      {
        assert Column(g, c)[r..][1..] == Column(g, c)[r + 1..];
        if g[r][c] != Blank {
          chars := [g[r][c]] + chars;
        }
        r := r - 1;
      }
      assert Column(g, c)[0..] == Column(g, c);
      var newColumn := Blanks(Rows - |chars|) + chars;
      ghost var before := g;
      for r := 0 to Rows
        invariant WellFormed(g)
        invariant forall r' :: 0 <= r' < r ==> g[r'][c] == newColumn[r']
        invariant forall r', c' :: 0 <= r' < Rows && 0 <= c' < Cols && (c' != c || r' >= r) ==> g[r'][c'] == before[r'][c']
      {
        g := g[r := g[r][c := newColumn[r]]];
      }
      assert Column(g, c) == newColumn;
      assert forall c' :: 0 <= c' < Cols && c' != c ==> Column(g, c') == Column(before, c');
    }
    forall c | 0 <= c < Cols
      ensures Column(g, c) == Column(Gravity(b), c)
    {
      GravityColumn(b, c);
    }
    ColumnsDetermineGrid(g, Gravity(b));
  }

  /** The board with cell `p` emptied. */
  function ClearCell(b: Grid, p: Coord): (b': Grid)
    requires WellFormed(b) && InBoard(p)
    ensures WellFormed(b')
  {
    b[p.r := b[p.r][p.c := Blank]]
  }

  /** The erase handler's `forEach` over the selection, emptying each cell in
      turn. Exactly the listed cells become empty; every other cell is kept. */
  function ClearCells(b: Grid, sel: seq<Coord>): (b': Grid)
    requires WellFormed(b) && forall i :: 0 <= i < |sel| ==> InBoard(sel[i])
    decreases |sel|
    ensures WellFormed(b')
    ensures forall r, c :: 0 <= r < Rows && 0 <= c < Cols ==>
      b'[r][c] == (if Coord(r, c) in sel then Blank else b[r][c])
  {
    if |sel| == 0 then b
    else
      var rest := ClearCells(ClearCell(b, sel[0]), sel[1..]);
      assert forall p :: p in sel <==> p == sel[0] || p in sel[1..];
      rest
  }

  /** All cells of the board in reading order (`boardData.flat()`). */
  function Flat(b: Grid): seq<string>
  {
    if |b| == 0 then [] else Flat(b[..|b| - 1]) + b[|b| - 1]
  }

  lemma FlatContains(b: Grid, r: int, c: int)
    requires 0 <= r < |b| && 0 <= c < |b[r]|
    ensures b[r][c] in Flat(b)
  {
    if r < |b| - 1 {
      assert b[..|b| - 1][r] == b[r];
      FlatContains(b[..|b| - 1], r, c);
    }
  }

  lemma FlatMembers(b: Grid, x: string)
    ensures x in Flat(b) ==> exists r, c :: 0 <= r < |b| && 0 <= c < |b[r]| && b[r][c] == x
  {
    if x !in Flat(b) {
      return;
    }
    var last := b[|b| - 1];
    if x in last {
      var c :| 0 <= c < |last| && last[c] == x;
      assert b[|b| - 1][c] == x;
    } else {
      FlatMembers(b[..|b| - 1], x);
      var r, c :| 0 <= r < |b| - 1 && 0 <= c < |b[..|b| - 1][r]| && b[..|b| - 1][r][c] == x;
      assert b[r][c] == x;
    }
  }

  /** Every cell of the board is empty. */
  predicate AllBlank(b: Grid)
    requires WellFormed(b)
  {
    forall r, c :: 0 <= r < Rows && 0 <= c < Cols ==> b[r][c] == Blank
  }

  /** `checkGameStatus`'s test: no non-empty value is left on the board. */
  predicate IsComplete(b: Grid)
  {
    |Kept(Flat(b))| == 0
  }

  /** The board is complete exactly when every cell is empty. */
  lemma CompleteIffAllBlank(b: Grid)
    requires WellFormed(b)
    ensures IsComplete(b) <==> AllBlank(b)
  {
    var f := Flat(b);
    if IsComplete(b) {
      forall r, c | 0 <= r < Rows && 0 <= c < Cols
        ensures b[r][c] == Blank
      {
        FlatContains(b, r, c);
        var i :| 0 <= i < |f| && f[i] == b[r][c];
        KeptAllBlankExcept(f, i);
      }
    } else {
      assert |Kept(f)| > 0;
      var x := Kept(f)[0];
      FlatMembers(b, x);
    }
  }

  lemma KeptAllBlankExcept(s: seq<string>, i: int)
    requires 0 <= i < |s| && |Kept(s)| == 0
    ensures s[i] == Blank
  {
    if i > 0 {
      KeptAllBlankExcept(s[1..], i - 1);
    }
  }

  /** Gravity neither creates nor destroys a completed board. */
  lemma GravityKeepsCompletion(b: Grid)
    requires WellFormed(b)
    ensures IsComplete(Gravity(b)) <==> IsComplete(b)
  {
    var g := Gravity(b);
    CompleteIffAllBlank(b);
    CompleteIffAllBlank(g);
    AllBlankIffColumnsEmpty(b);
    AllBlankIffColumnsEmpty(g);
    GravityKeepsColumns(b);
  }

  lemma AllBlankIffColumnsEmpty(b: Grid)
    requires WellFormed(b)
    ensures AllBlank(b) <==> forall c :: 0 <= c < Cols ==> Kept(Column(b, c)) == []
  {
    forall c | 0 <= c < Cols
      ensures Kept(Column(b, c)) == [] <==> forall r :: 0 <= r < Rows ==> Column(b, c)[r] == Blank
    {
      ColumnBlankIffKeptEmpty(Column(b, c));
    }
    if forall c :: 0 <= c < Cols ==> Kept(Column(b, c)) == [] {
      forall r, c | 0 <= r < Rows && 0 <= c < Cols
        ensures b[r][c] == Blank
      {
        assert Column(b, c)[r] == Blank;
      }
    }
  }

  lemma ColumnBlankIffKeptEmpty(col: seq<string>)
    ensures Kept(col) == [] <==> forall i :: 0 <= i < |col| ==> col[i] == Blank
  {
    if Kept(col) == [] {
      forall i | 0 <= i < |col|
        ensures col[i] == Blank
      {
        KeptAllBlankExcept(col, i);
      }
    } else if forall i :: 0 <= i < |col| ==> col[i] == Blank {
      KeptAllBlankIsEmpty(col);
    }
  }

  lemma KeptAllBlankIsEmpty(col: seq<string>)
    requires forall i :: 0 <= i < |col| ==> col[i] == Blank
    ensures Kept(col) == []
  {
    if |col| > 0 {
      KeptAllBlankIsEmpty(col[1..]);
    }
  }
}
