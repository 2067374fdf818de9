/**
 * The playing field (GameGrid.cs): a Rows x Columns matrix of piece ids,
 * where 0 marks an empty cell.  The first half of the module states the
 * field as a value (a sequence of rows) and defines row compaction on it;
 * the class GameGrid keeps the cells in a two-dimensional array, updated in
 * place, and each of its operations is proved against that value view.
 */
module Grid {

  // ---------------------------------------------------------------------
  // The field as a value: a sequence of rows, row 0 at the top.
  // ---------------------------------------------------------------------

  /** Every row of `g` has `columns` cells and there are `rows` rows. */
  predicate Rectangular(g: seq<seq<int>>, rows: nat, columns: nat) {
    |g| == rows && forall r :: 0 <= r < |g| ==> |g[r]| == columns
  }

  /** No cell of the row is empty. */
  predicate RowFull(row: seq<int>) {
    forall c :: 0 <= c < |row| ==> row[c] != 0
  }

  /** Every cell of the row is empty. */
  predicate RowEmpty(row: seq<int>) {
    forall c :: 0 <= c < |row| ==> row[c] == 0
  }

  /** The cell (r, c) exists in `g` and is empty; a cell outside is never empty. */
  predicate CellEmpty(g: seq<seq<int>>, r: int, c: int) {
    0 <= r < |g| && 0 <= c < |g[r]| && g[r][c] == 0
  }

  function ZeroRow(columns: nat): (z: seq<int>)
    ensures |z| == columns && RowEmpty(z)
  {
    seq(columns, _ => 0)
  }

  function ZeroRows(n: nat, columns: nat): (zs: seq<seq<int>>)
    ensures Rectangular(zs, n, columns)
    ensures forall r :: 0 <= r < n ==> zs[r] == ZeroRow(columns)
  {
    seq(n, _ => ZeroRow(columns))
  }

  /** The number of full rows of `g`. */
  function CountFull(g: seq<seq<int>>): (k: nat)
    ensures k <= |g|
  {
    if g == [] then 0 else (if RowFull(g[0]) then 1 else 0) + CountFull(g[1..])
  }

  /** The rows of `g` that are not full, in their original order. */
  function KeepNonFull(g: seq<seq<int>>): (kept: seq<seq<int>>)
    ensures |kept| + CountFull(g) == |g|
    ensures forall i :: 0 <= i < |kept| ==> !RowFull(kept[i]) && kept[i] in g
  {
    if g == [] then []
    else (if RowFull(g[0]) then [] else [g[0]]) + KeepNonFull(g[1..])
  }

  /**
   * The field after every full row is removed and the rows above it fall:
   * as many zero rows as there were full rows, on top of the rows that were
   * not full, in their original order.
   */
  function Compacted(g: seq<seq<int>>, columns: nat): (c: seq<seq<int>>)
    ensures |c| == |g|
    ensures forall r :: 0 <= r < CountFull(g) ==> c[r] == ZeroRow(columns)
    ensures forall r :: CountFull(g) <= r < |c| ==> !RowFull(c[r]) && c[r] in g
  {
    ZeroRows(CountFull(g), columns) + KeepNonFull(g)
  }

  // ---------------------------------------------------------------------
  // Properties of compaction
  // ---------------------------------------------------------------------

  lemma {:induction false} CountFullAppend(a: seq<seq<int>>, b: seq<seq<int>>)
    ensures CountFull(a + b) == CountFull(a) + CountFull(b)
    ensures KeepNonFull(a + b) == KeepNonFull(a) + KeepNonFull(b)
  {
    if a == [] {
      assert a + b == b;
    } else {
      assert (a + b)[1..] == a[1..] + b;
      CountFullAppend(a[1..], b);
    }
  }

  /** Compaction keeps the shape of the field. */
  lemma CompactedRectangular(g: seq<seq<int>>, rows: nat, columns: nat)
    requires Rectangular(g, rows, columns)
    ensures Rectangular(Compacted(g, columns), rows, columns)
  {
    var kept := KeepNonFull(g);
    forall i | 0 <= i < |kept| ensures |kept[i]| == columns {
      assert kept[i] in g;
    }
  }

  /** A field without full rows is left as it is. */
  lemma {:induction false} NoFullRowsUnchanged(g: seq<seq<int>>, columns: nat)
    requires forall r :: 0 <= r < |g| ==> !RowFull(g[r])
    ensures CountFull(g) == 0 && KeepNonFull(g) == g && Compacted(g, columns) == g
  {
    if g != [] {
      NoFullRowsUnchanged(g[1..], columns);
    }
  }

  /** When rows have at least one cell, no full row is left after compaction. */
  lemma NoFullRowAfterCompaction(g: seq<seq<int>>, columns: nat)
    requires columns >= 1
    ensures forall r :: 0 <= r < |Compacted(g, columns)| ==> !RowFull(Compacted(g, columns)[r])
  {
    var zs := ZeroRows(CountFull(g), columns);
    forall r | 0 <= r < |zs| ensures !RowFull(zs[r]) {
      assert zs[r][0] == 0;
    }
  }

  /** Compacting twice is compacting once (for rows with at least one cell). */
  lemma CompactedIdempotent(g: seq<seq<int>>, rows: nat, columns: nat)
    requires columns >= 1 && Rectangular(g, rows, columns)
    ensures Compacted(Compacted(g, columns), columns) == Compacted(g, columns)
  {
    NoFullRowAfterCompaction(g, columns);
    NoFullRowsUnchanged(Compacted(g, columns), columns);
  }

  /**
   * Where a row that is not full lands: it falls by the number of full rows
   * that were below it, and the top CountFull(g) rows are empty.
   */
  lemma {:induction false} KeptRowLands(g: seq<seq<int>>, columns: nat, i: nat)
    requires i < |g| && !RowFull(g[i])
    ensures i + CountFull(g[i + 1..]) < |Compacted(g, columns)|
    ensures Compacted(g, columns)[i + CountFull(g[i + 1..])] == g[i]
  {
    assert g == g[..i] + [g[i]] + g[i + 1..];
    CountFullAppend(g[..i] + [g[i]], g[i + 1..]);
    CountFullAppend(g[..i], [g[i]]);
    assert KeepNonFull([g[i]]) == [g[i]];
    CountFullAppend(g[..i], [g[i]] + g[i + 1..]);
    assert g == g[..i] + ([g[i]] + g[i + 1..]);
    assert |KeepNonFull(g[..i])| == i - CountFull(g[..i]);
  }

  // ---------------------------------------------------------------------
  // The source's compaction pass as written (GameGrid.cs:87-98, with the
  // call on line 96 taken literally): a functional rendering of the
  // bottom-up loop that reports whether the pass indexes out of range.
  // ---------------------------------------------------------------------

  /**
   * The pass over rows[..row] (bottom-up) with `cleared` rows cleared so far,
   * as written in the source: a row that is not full while cleared > 0 calls
   * MoveRowDown(Rows, cleared), which reads row Rows (and writes row
   * Rows + cleared) of a grid of Rows rows; with at least one column this is
   * out of range.
   */
  function AsWrittenPassFaults(g: seq<seq<int>>, columns: nat, row: nat, cleared: nat): (faults: bool)
    requires row <= |g|
    ensures faults ==> columns >= 1
    decreases row
  {
    if row == 0 then false
    else if RowFull(g[row - 1]) then AsWrittenPassFaults(g, columns, row - 1, cleared + 1)
    else if cleared > 0 then columns >= 1
    else AsWrittenPassFaults(g, columns, row - 1, cleared)
  }

  /** Whether ClearFullRows as written throws on the field `g`. */
  function AsWrittenFaults(g: seq<seq<int>>, columns: nat): (faults: bool)
    ensures faults ==> columns >= 1
  {
    AsWrittenPassFaults(g, columns, |g|, 0)
  }

  /** A tiny witness: a full bottom row under a row with an empty cell. */
  lemma AsWrittenFaultWitness()
    ensures AsWrittenFaults([[0], [1]], 1)
    ensures Compacted([[0], [1]], 1) == [[0], [0]]
  {
    assert [0][0] == 0;
    assert [[0], [1]][1..] == [[1]];
    assert CountFull([[1]]) == 1;
    assert KeepNonFull([[1]]) == [];
    assert CountFull([[0], [1]]) == 1;
    assert KeepNonFull([[0], [1]]) == [[0]];
    assert ZeroRow(1) == [0];
    assert ZeroRows(1, 1) == [[0]];
  }

  /** Some row of g[lo..hi] is full. */
  predicate FullBetween(g: seq<seq<int>>, lo: int, hi: int)
    requires 0 <= lo && hi <= |g|
  {
    exists j :: lo <= j < hi && RowFull(g[j])
  }

  /**
   * The as-written pass over rows[..row] throws exactly when some row that is
   * not full meets a cleared row below it.
   */
  lemma {:induction false} AsWrittenPassFaultsIff(g: seq<seq<int>>, columns: nat, row: nat, cleared: nat)
    requires row <= |g|
    ensures AsWrittenPassFaults(g, columns, row, cleared) <==>
      columns >= 1 &&
      exists i :: 0 <= i < row && !RowFull(g[i]) && (cleared > 0 || FullBetween(g, i + 1, row))
    decreases row
  {
    if row == 0 {
    } else if RowFull(g[row - 1]) {
      AsWrittenPassFaultsIff(g, columns, row - 1, cleared + 1);
      forall j | 1 <= j < row ensures FullBetween(g, j, row) {
        assert RowFull(g[row - 1]);
      }
    } else if cleared > 0 {
      if columns >= 1 {
        assert !RowFull(g[row - 1]);
      }
    } else {
      AsWrittenPassFaultsIff(g, columns, row - 1, cleared);
      forall j | 1 <= j <= row
        ensures FullBetween(g, j, row) <==> j < row && FullBetween(g, j, row - 1)
      {
        if FullBetween(g, j, row) {
          var k :| j <= k < row && RowFull(g[k]);
          assert k < row - 1;
        }
      }
    }
  }

  /** A field with a full row has a full row at some index. */
  lemma {:induction false} CountFullWitness(g: seq<seq<int>>)
    requires CountFull(g) > 0
    ensures FullBetween(g, 0, |g|)
  {
    if !RowFull(g[0]) {
      CountFullWitness(g[1..]);
      var j :| 0 <= j < |g[1..]| && RowFull(g[1..][j]);
      assert RowFull(g[j + 1]);
    }
  }

  /** ClearFullRows as written throws exactly when a row that is not full lies above a full row. */
  lemma AsWrittenFaultsIff(g: seq<seq<int>>, columns: nat)
    ensures AsWrittenFaults(g, columns) <==>
      columns >= 1 && exists i :: 0 <= i < |g| && !RowFull(g[i]) && FullBetween(g, i + 1, |g|)
  {
    AsWrittenPassFaultsIff(g, columns, |g|, 0);
  }

  // ---------------------------------------------------------------------
  // The grid object
  // ---------------------------------------------------------------------

  class GameGrid {
    const Rows: nat
    const Columns: nat
    const grid: array2<int>

    ghost predicate Valid() {
      grid.Length0 == Rows && grid.Length1 == Columns
    }

    /** The cells as a sequence of rows. */
    ghost function Cells(): (g: seq<seq<int>>)
      reads grid
      requires Valid()
      ensures Rectangular(g, Rows, Columns)
      ensures forall r, c :: 0 <= r < Rows && 0 <= c < Columns ==> g[r][c] == grid[r, c]
    {
      seq(Rows, r requires 0 <= r < Rows reads grid =>
        seq(Columns, c requires 0 <= c < Columns reads grid => grid[r, c]))
    }

    /** A fresh field with every cell empty. */
    constructor (rows: nat, columns: nat)
      ensures Valid() && Rows == rows && Columns == columns && fresh(grid)
      ensures Cells() == ZeroRows(rows, columns)
    {
      Rows := rows;
      Columns := columns;
      grid := new int[rows, columns]((_, _) => 0);
      new;
      assert forall r :: 0 <= r < rows ==> Cells()[r] == ZeroRow(columns);
    }

    /** The indexer's getter; out-of-range indices are the caller's fault. */
    function Get(row: int, column: int): (v: int)
      reads grid
      requires Valid() && 0 <= row < Rows && 0 <= column < Columns
      ensures v == Cells()[row][column]
    {
      grid[row, column]
    }

    /** The indexer's setter: one cell changes, all others keep their value. */
    method Set(row: int, column: int, value: int)
      requires Valid() && 0 <= row < Rows && 0 <= column < Columns
      modifies grid
      ensures Cells() == old(Cells())[row := old(Cells())[row][column := value]]
    {
      grid[row, column] := value;
      ghost var g := old(Cells())[row := old(Cells())[row][column := value]];
      assert forall r :: 0 <= r < Rows ==> Cells()[r] == g[r];
    }

    function IsCellInsideGrid(row: int, column: int): (inside: bool)
      ensures inside <==> 0 <= row < Rows && 0 <= column < Columns
    {
      row >= 0 && row < Rows && column >= 0 && column < Columns
    }

    /** Inside the grid and empty: a cell outside the grid is reported as occupied. */
    function IsCellEmpty(row: int, column: int): (empty: bool)
      reads grid
      requires Valid()
      ensures empty ==> IsCellInsideGrid(row, column)
      ensures empty <==> CellEmpty(Cells(), row, column)
    {
      IsCellInsideGrid(row, column) && grid[row, column] == 0
    }

    method IsRowFull(row: int) returns (full: bool)
      requires Valid() && 0 <= row < Rows
      ensures full <==> RowFull(Cells()[row])
    {
      for column := 0 to Columns
        invariant forall c :: 0 <= c < column ==> grid[row, c] != 0
      {
        if grid[row, column] == 0 {
          return false;
        }
      }
      return true;
    }

    method IsRowEmpty(row: int) returns (empty: bool)
      requires Valid() && 0 <= row < Rows
      ensures empty <==> RowEmpty(Cells()[row])
    {
      for column := 0 to Columns
        invariant forall c :: 0 <= c < column ==> grid[row, c] == 0
      {
        if grid[row, column] != 0 {
          return false;
        }
      }
      return true;
    }

    /** Row `row` becomes empty; every other row keeps its cells. */
    method ClearRow(row: int)
      requires Valid() && 0 <= row < Rows
      modifies grid
      ensures Cells() == old(Cells())[row := ZeroRow(Columns)]
    {
      for column := 0 to Columns
        invariant forall r, c :: 0 <= r < Rows && 0 <= c < Columns ==>
          grid[r, c] == if r == row && c < column then 0 else old(grid[r, c])
      {
        grid[row, column] := 0;
      }
      ghost var g := old(Cells())[row := ZeroRow(Columns)];
      assert forall r :: 0 <= r < Rows ==> Cells()[r] == g[r];
    }

    /**
     * Row `row + numRowsDown` receives the old row `row`, then row `row`
     * becomes empty (so with numRowsDown == 0 the row is simply emptied).
     */
    method MoveRowDown(row: int, numRowsDown: nat)
      requires Valid() && 0 <= row && row + numRowsDown < Rows
      modifies grid
      ensures Cells() == old(Cells())[row + numRowsDown := old(Cells())[row]][row := ZeroRow(Columns)]
    {
      for column := 0 to Columns
        invariant forall r, c :: 0 <= r < Rows && 0 <= c < Columns ==>
          grid[r, c] ==
            if c >= column then old(grid[r, c])
            else if r == row then 0
            else if r == row + numRowsDown then old(grid[row, c])
            else old(grid[r, c])
      {
        grid[row + numRowsDown, column] := grid[row, column];
        grid[row, column] := 0;
      }
      ghost var g := old(Cells())[row + numRowsDown := old(Cells())[row]][row := ZeroRow(Columns)];
      assert forall r :: 0 <= r < Rows ==> Cells()[r] == g[r];
    }

    /**
     * Clears every full row and lets the rows above fall, in one bottom-up
     * pass; returns the number of rows cleared.
     *
     * GameGrid.cs:96 calls MoveRowDown(Rows, clearedRows), passing the row
     * count where the scanned row belongs; that call reads past the last row
     * (see AsWrittenFaults).  The comment on GameGrid.cs:84-85 and the
     * signature of MoveRowDown show that MoveRowDown(row, clearedRows) is
     * meant, and that is what is modelled here.
     */
    method ClearFullRows() returns (clearedRows: nat)
      requires Valid()
      modifies grid
      ensures clearedRows == CountFull(old(Cells())) && clearedRows <= Rows
      ensures Cells() == Compacted(old(Cells()), Columns)
    {
      ghost var g := Cells();
      clearedRows := 0;
      for row := Rows downto 0
        invariant clearedRows == CountFull(g[row..])
        invariant Cells() == g[..row] + ZeroRows(clearedRows, Columns) + KeepNonFull(g[row..])
      {
        ghost var before := Cells();
        CompactRowAt(g, row, clearedRows, Columns, before);
        var full := IsRowFull(row);
        if full {
          ClearRow(row);
          clearedRows := clearedRows + 1;
          CompactStepFull(g, row, clearedRows - 1, Columns, before);
        } else if clearedRows > 0 {
          MoveRowDown(row, clearedRows);
          CompactStepMove(g, row, clearedRows, Columns, before);
        } else {
          CompactStepKeep(g, row, Columns, before);
        }
      }
      CompactDone(g, clearedRows, Columns, Cells());
    }
  }

  // Helper steps of the compaction loop.

  lemma CompactRowAt(g: seq<seq<int>>, row: nat, k: nat, columns: nat, before: seq<seq<int>>)
    requires row < |g|
    requires before == g[..row + 1] + ZeroRows(k, columns) + KeepNonFull(g[row + 1..])
    ensures before[row] == g[row]
  {
  }

  lemma CompactDone(g: seq<seq<int>>, k: nat, columns: nat, after: seq<seq<int>>)
    requires k == CountFull(g[0..])
    requires after == g[..0] + ZeroRows(k, columns) + KeepNonFull(g[0..])
    ensures k == CountFull(g) && after == Compacted(g, columns)
  {
    assert g[0..] == g;
  }

  lemma CompactStepFull(g: seq<seq<int>>, row: nat, k: nat, columns: nat, before: seq<seq<int>>)
    requires row < |g| && RowFull(g[row])
    requires before == g[..row + 1] + ZeroRows(k, columns) + KeepNonFull(g[row + 1..])
    ensures before[row := ZeroRow(columns)] == g[..row] + ZeroRows(k + 1, columns) + KeepNonFull(g[row..])
  {
    assert g[row + 1..] == g[row..][1..];
    assert KeepNonFull(g[row..]) == KeepNonFull(g[row + 1..]);
    assert g[..row + 1] == g[..row] + [g[row]];
    assert ZeroRows(k + 1, columns) == [ZeroRow(columns)] + ZeroRows(k, columns);
  }

  lemma CompactStepMove(g: seq<seq<int>>, row: nat, k: nat, columns: nat, before: seq<seq<int>>)
    requires row < |g| && !RowFull(g[row]) && k > 0
    requires before == g[..row + 1] + ZeroRows(k, columns) + KeepNonFull(g[row + 1..])
    ensures row + k < |before|
    ensures before[row + k := before[row]][row := ZeroRow(columns)] ==
      g[..row] + ZeroRows(k, columns) + KeepNonFull(g[row..])
  {
    assert g[row + 1..] == g[row..][1..];
    assert KeepNonFull(g[row..]) == [g[row]] + KeepNonFull(g[row + 1..]);
    assert g[..row + 1] == g[..row] + [g[row]];
    assert ZeroRows(k, columns) == [ZeroRow(columns)] + ZeroRows(k - 1, columns);
    assert ZeroRows(k - 1, columns) + [ZeroRow(columns)] == ZeroRows(k, columns);
  }

  lemma CompactStepKeep(g: seq<seq<int>>, row: nat, columns: nat, before: seq<seq<int>>)
    requires row < |g| && !RowFull(g[row])
    requires before == g[..row + 1] + ZeroRows(0, columns) + KeepNonFull(g[row + 1..])
    ensures before == g[..row] + ZeroRows(0, columns) + KeepNonFull(g[row..])
  {
    assert g[row + 1..] == g[row..][1..];
    assert KeepNonFull(g[row..]) == [g[row]] + KeepNonFull(g[row + 1..]);
    assert g[..row + 1] == g[..row] + [g[row]];
  }
}
