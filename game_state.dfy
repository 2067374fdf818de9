/**
 * The rule engine (GameState.cs): the current piece, the held piece, the
 * field, the piece supply, the score and the game-over flag.  Every move or
 * rotation is tried and undone when the piece no longer fits; a piece that
 * cannot fall further is locked into the field, full rows are cleared and
 * scored, and the next piece spawns unless a locked cell is left in the two
 * hidden top rows.
 */
module Game {
  import opened Grid
  import opened Blocks
  import opened Queue

  const DefaultRows: nat := 22
  const DefaultColumns: nat := 10

  // ---------------------------------------------------------------------
  // The rules on values
  // ---------------------------------------------------------------------

  /** Every tile lies on an empty cell inside the field (BlockFits). */
  predicate Fits(g: seq<seq<int>>, ps: seq<Position>): (fits: bool)
    ensures fits ==> Inside(g, ps)
  {
    forall i :: 0 <= i < |ps| ==> CellEmpty(g, ps[i].row, ps[i].column)
  }

  /** Every tile lies inside the field, empty or not. */
  predicate Inside(g: seq<seq<int>>, ps: seq<Position>) {
    forall i :: 0 <= i < |ps| ==> 0 <= ps[i].row < |g| && 0 <= ps[i].column < |g[ps[i].row]|
  }

  /** The two hidden top rows hold no locked cell. */
  predicate SpawnRowsEmpty(g: seq<seq<int>>) {
    |g| >= 2 && RowEmpty(g[0]) && RowEmpty(g[1])
  }

  /** A shape's tiles in its spawn pose: rotation 0 at the start offset. */
  function SpawnTiles(s: Shape): seq<Position>
    requires WellFormed(s)
  {
    Shifted(s.tiles[0], s.startOffset)
  }

  /** The field after `id` is written into the cells of `ps`, one after the other. */
  function Stamp(g: seq<seq<int>>, ps: seq<Position>, id: int): (s: seq<seq<int>>)
    requires Inside(g, ps)
    ensures |s| == |g| && forall r :: 0 <= r < |g| ==> |s[r]| == |g[r]|
    decreases |ps|
  {
    if ps == [] then g
    else
      var s0 := Stamp(g, ps[..|ps| - 1], id);
      var p := ps[|ps| - 1];
      s0[p.row := s0[p.row][p.column := id]]
  }

  /**
   * The offset reached by the spawn loop of the CurrentBlock setter: `steps`
   * times, try one row down and keep the step only if the piece fits there.
   */
  function Settled(g: seq<seq<int>>, layout: seq<Position>, offset: Position, steps: nat): (settled: Position)
    ensures settled.column == offset.column
    ensures offset.row <= settled.row <= offset.row + steps
    decreases steps
  {
    if steps == 0 then offset
    else
      var down := Translate(offset, 1, 0);
      Settled(g, layout, if Fits(g, Shifted(layout, down)) then down else offset, steps - 1)
  }

  /** How far a tile at `p` can fall: the number of empty cells right below it. */
  function TileDrop(g: seq<seq<int>>, p: Position): (d: nat)
    ensures p.row < |g| ==> d <= |g| - 1 - p.row
    ensures d <= |g|
    decreases |g| - p.row
  {
    if CellEmpty(g, p.row + 1, p.column) then 1 + TileDrop(g, Translate(p, 1, 0)) else 0
  }

  function Min(a: int, b: int): int {
    if a <= b then a else b
  }

  /** How far a set of tiles can fall together, starting from `bound` (BlockDropDistance). */
  function BlockDrop(g: seq<seq<int>>, ps: seq<Position>, bound: nat): (d: nat)
    ensures d <= bound
    decreases |ps|
  {
    if ps == [] then bound
    else Min(BlockDrop(g, ps[..|ps| - 1], bound), TileDrop(g, ps[|ps| - 1]))
  }

  // ---------------------------------------------------------------------
  // Properties of the rules
  // ---------------------------------------------------------------------

  /**
   * Locking writes `id` into exactly the tiles' cells: a cell of a tile now
   * holds `id`, every other cell keeps its value.
   */
  lemma {:induction false} StampAt(g: seq<seq<int>>, ps: seq<Position>, id: int, r: int, c: int)
    requires Inside(g, ps) && 0 <= r < |g| && 0 <= c < |g[r]|
    ensures Stamp(g, ps, id)[r][c] == if Position(r, c) in ps then id else g[r][c]
    decreases |ps|
  {
    if ps != [] {
      var init := ps[..|ps| - 1];
      assert ps == init + [ps[|ps| - 1]];
      StampAt(g, init, id, r, c);
    }
  }

  /** Stamping keeps the shape of the field. */
  lemma StampRectangular(g: seq<seq<int>>, ps: seq<Position>, id: int, rows: nat, columns: nat)
    requires Inside(g, ps) && Rectangular(g, rows, columns)
    ensures Rectangular(Stamp(g, ps, id), rows, columns)
  {
  }

  /**
   * A piece that fit where the spawn loop started still fits where it ends.
   */
  lemma {:induction false} SettledProperties(g: seq<seq<int>>, layout: seq<Position>, offset: Position, steps: nat)
    ensures Fits(g, Shifted(layout, offset)) ==> Fits(g, Shifted(layout, Settled(g, layout, offset, steps)))
    decreases steps
  {
    if steps > 0 {
      var down := Translate(offset, 1, 0);
      SettledProperties(g, layout, if Fits(g, Shifted(layout, down)) then down else offset, steps - 1);
    }
  }

  /** The empty field has empty spawn rows. */
  lemma EmptyFieldSpawnRows(rows: nat, columns: nat)
    requires rows >= 2
    ensures SpawnRowsEmpty(ZeroRows(rows, columns))
  {
  }

  /** On a field whose two top rows are empty, every spawnable shape fits in its spawn pose. */
  lemma SpawnFits(g: seq<seq<int>>, s: Shape)
    requires Rectangular(g, DefaultRows, DefaultColumns) && SpawnRowsEmpty(g)
    requires Spawnable(s, DefaultColumns)
    ensures Fits(g, SpawnTiles(s))
  {
    var ps := SpawnTiles(s);
    forall i | 0 <= i < |ps| ensures CellEmpty(g, ps[i].row, ps[i].column) {
      assert 0 <= ps[i].row <= 1 && 0 <= ps[i].column < DefaultColumns;
      assert RowEmpty(g[ps[i].row]);
    }
  }

  /**
   * TileDrop(g, p) is the largest distance d such that every cell from one
   * row below p down to d rows below p is empty: the next cell down is not.
   */
  lemma {:induction false} TileDropSpec(g: seq<seq<int>>, p: Position)
    ensures forall r :: p.row < r <= p.row + TileDrop(g, p) ==> CellEmpty(g, r, p.column)
    ensures !CellEmpty(g, p.row + TileDrop(g, p) + 1, p.column)
    decreases |g| - p.row
  {
    if CellEmpty(g, p.row + 1, p.column) {
      TileDropSpec(g, Translate(p, 1, 0));
    }
  }

  /**
   * The block's drop distance is at most every tile's drop distance, and
   * (with a bound of at least the number of rows) equal to one of them.
   */
  lemma {:induction false} BlockDropIsMin(g: seq<seq<int>>, ps: seq<Position>, bound: nat)
    ensures forall i :: 0 <= i < |ps| ==> BlockDrop(g, ps, bound) <= TileDrop(g, ps[i])
    ensures |ps| > 0 && bound >= |g| ==> exists i :: 0 <= i < |ps| && BlockDrop(g, ps, bound) == TileDrop(g, ps[i])
    decreases |ps|
  {
    if ps != [] {
      var init := ps[..|ps| - 1];
      BlockDropIsMin(g, init, bound);
      TileDropSpec(g, ps[|ps| - 1]);
      if |ps| > 0 && bound >= |g| {
        if BlockDrop(g, ps, bound) == TileDrop(g, ps[|ps| - 1]) {
        } else {
          assert init != [];
          var i :| 0 <= i < |init| && BlockDrop(g, init, bound) == TileDrop(g, init[i]);
          assert ps[i] == init[i];
        }
      }
    }
  }

  /**
   * The ghost piece: for every tile, all cells from one row below down to the
   * drop distance are empty; some tile has a non-empty cell one row further.
   */
  lemma BlockDropSpec(g: seq<seq<int>>, ps: seq<Position>, bound: nat)
    ensures BlockDrop(g, ps, bound) <= bound
    ensures forall i, r :: 0 <= i < |ps| && ps[i].row < r <= ps[i].row + BlockDrop(g, ps, bound) ==>
      CellEmpty(g, r, ps[i].column)
    ensures |ps| > 0 && bound >= |g| ==>
      exists i :: 0 <= i < |ps| && !CellEmpty(g, ps[i].row + BlockDrop(g, ps, bound) + 1, ps[i].column)
  {
    BlockDropIsMin(g, ps, bound);
    forall i | 0 <= i < |ps| {
      TileDropSpec(g, ps[i]);
    }
  }

  /** Dropping a fitting piece by its drop distance leaves it fitting. */
  lemma DroppedFits(g: seq<seq<int>>, ps: seq<Position>, bound: nat)
    requires Fits(g, ps)
    ensures Fits(g, Shifted(ps, Position(BlockDrop(g, ps, bound), 0)))
  {
    var d := BlockDrop(g, ps, bound);
    var qs := Shifted(ps, Position(d, 0));
    BlockDropSpec(g, ps, bound);
    forall i | 0 <= i < |qs| ensures CellEmpty(g, qs[i].row, qs[i].column) {
      ShiftedAt(ps, Position(d, 0), i);
      if d > 0 {
        assert ps[i].row < ps[i].row + d <= ps[i].row + d;
      }
    }
  }

  /** A fresh piece supply with its invariant established. */
  method NewQueue(iBlock: Shape, jBlock: Shape, sBlock: Shape) returns (q: BlockQueue)
    requires AssumedShape(iBlock, 1) && AssumedShape(jBlock, 2) && AssumedShape(sBlock, 5)
    ensures fresh(q) && q.Valid()
  {
    q := new BlockQueue(iBlock, jBlock, sBlock);
  }

  /** Four tiles cannot cover all of the first five cells of row 0. */
  lemma FreeTopColumn(ps: seq<Position>) returns (c: int)
    requires |ps| == 4
    ensures 0 <= c < 5 && Position(0, c) !in ps
  {
    assert ps == [ps[0], ps[1], ps[2], ps[3]];
    if Position(0, 0) !in ps {
      c := 0;
    } else if Position(0, 1) !in ps {
      c := 1;
    } else if Position(0, 2) !in ps {
      c := 2;
    } else if Position(0, 3) !in ps {
      c := 3;
    } else {
      c := 4;
    }
  }

  /**
   * In a running game every line clear meets the defect of GameGrid.cs:96:
   * after four tiles are locked into a 22 x 10 field whose two top rows were
   * empty, row 0 is not full, so a full row always has a non-full row above
   * it, and ClearFullRows as written reads out of range.
   */
  lemma AsWrittenClearFaultsInGame(g: seq<seq<int>>, ps: seq<Position>, id: int)
    requires Rectangular(g, DefaultRows, DefaultColumns) && SpawnRowsEmpty(g)
    requires |ps| == 4 && Inside(g, ps)
    requires CountFull(Stamp(g, ps, id)) > 0
    ensures AsWrittenFaults(Stamp(g, ps, id), DefaultColumns)
  {
    var s := Stamp(g, ps, id);
    var c := FreeTopColumn(ps);
    StampAt(g, ps, id, 0, c);
    assert s[0][c] == 0;
    CountFullWitness(s);
    var j :| 0 <= j < |s| && RowFull(s[j]);
    assert j != 0;
    assert FullBetween(s, 1, |s|);
    AsWrittenFaultsIff(s, DefaultColumns);
  }

  // ---------------------------------------------------------------------
  // The game state object
  // ---------------------------------------------------------------------

  class GameState {
    const grid: GameGrid
    const queue: BlockQueue
    var current: Block
    var held: Block?
    var gameOver: bool
    var score: int
    var canHold: bool

    /**
     * The object invariant: the field is 22 x 10, every shape can spawn, and
     * while the game is on the two top rows are empty and the current piece
     * fits.
     */
    ghost predicate Valid()
      reads this, grid, grid.grid, queue, current, held
    {
      grid.Valid() && grid.Rows == DefaultRows && grid.Columns == DefaultColumns &&
      queue.Valid() &&
      current.Valid() && Spawnable(current.shape, DefaultColumns) &&
      (held != null ==> held != current && held.Valid() && Spawnable(held.shape, DefaultColumns)) &&
      score >= 0 &&
      (!gameOver ==> SpawnRowsEmpty(grid.Cells()) && Fits(grid.Cells(), current.TilePositions()))
    }

    /** The current piece would fit with rotation state `rotation` at `offset`. */
    ghost predicate FitsAt(rotation: nat, offset: Position)
      reads this, grid, grid.grid, current
      requires grid.Valid() && current.Valid() && rotation < |current.shape.tiles|
    {
      Fits(grid.Cells(), Shifted(current.shape.tiles[rotation], offset))
    }

    /** `b` is in the pose the CurrentBlock setter leaves a piece in. */
    ghost predicate Spawned(b: Block)
      reads grid, grid.grid, b
      requires grid.Valid() && b.Valid()
    {
      b.rotationState == 0 &&
      b.offset == Settled(grid.Cells(), b.shape.tiles[0], b.shape.startOffset, 2)
    }

    /**
     * What locking the tiles `ps` of a piece with id `id` leads to, from the
     * field `cells0`, the score `score0`, the pending shape `next0`, the hold
     * flag `canHold0` and the piece `current0`: the id is written into the
     * tiles' cells, full rows are cleared and counted into the score, and the
     * game is over exactly when a top row is left non-empty; otherwise the
     * pending shape spawns and hold is enabled again.
     */
    ghost predicate LockedFrom(cells0: seq<seq<int>>, ps: seq<Position>, id: int, score0: int,
                               next0: Shape, canHold0: bool, current0: Block)
      reads this, grid, grid.grid, queue, current
      requires grid.Valid() && grid.Rows >= 2 && Inside(cells0, ps)
    {
      var stamped := Stamp(cells0, ps, id);
      grid.Cells() == Compacted(stamped, grid.Columns) &&
      score == score0 + CountFull(stamped) &&
      gameOver == !(RowEmpty(grid.Cells()[0]) && RowEmpty(grid.Cells()[1])) &&
      (gameOver ==> current == current0 && canHold == canHold0 && queue.nextBlock == next0) &&
      (!gameOver ==>
         current.shape == next0 && canHold && queue.nextBlock.id != next0.id &&
         current.Valid() && Spawned(current))
    }

    /**
     * A new game: an empty 22 x 10 field, score 0, nothing held, the first
     * piece spawned.  The tables of I, J and S are parameters.
     */
    constructor (iBlock: Shape, jBlock: Shape, sBlock: Shape)
      requires AssumedShape(iBlock, 1) && AssumedShape(jBlock, 2) && AssumedShape(sBlock, 5)
      ensures Valid() && !gameOver
      ensures grid.Cells() == ZeroRows(DefaultRows, DefaultColumns)
      ensures score == 0 && held == null && canHold
      ensures current.shape in queue.blocks && Spawned(current)
      ensures queue.nextBlock.id != current.shape.id
    {
      var g := new GameGrid(DefaultRows, DefaultColumns);
      var q := NewQueue(iBlock, jBlock, sBlock);
      var first := q.GetAndUpdate();
      var b := new Block(first);
      grid, queue, current := g, q, b;
      held := null;
      gameOver := false;
      score := 0;
      new;
      EmptyFieldSpawnRows(DefaultRows, DefaultColumns);
      SpawnFits(grid.Cells(), b.shape);
      SetCurrentBlock(b);
      canHold := true;
    }

    /**
     * The CurrentBlock setter: the piece becomes current, is reset to its
     * spawn pose, and then tries twice to move one row down, keeping each
     * step only if it fits.
     */
    method SetCurrentBlock(b: Block)
      requires grid.Valid() && b.Valid()
      modifies this`current, b
      ensures current == b && b.Valid() && Spawned(b)
      ensures Fits(grid.Cells(), SpawnTiles(b.shape)) ==> Fits(grid.Cells(), b.TilePositions())
    {
      current := b;
      current.Reset();
      ghost var cells := grid.Cells();
      ghost var layout := b.shape.tiles[0];
      for i := 0 to 2
        invariant current == b && b.Valid() && b.rotationState == 0
        invariant Settled(cells, layout, b.offset, 2 - i) == Settled(cells, layout, b.shape.startOffset, 2)
      {
        current.Move(1, 0);
        var fits := BlockFits();
        if !fits {
          current.Move(-1, 0);
        }
      }
      SettledProperties(cells, layout, b.shape.startOffset, 2);
    }

    /** Whether every tile of the current piece is on an empty cell inside the field. */
    method BlockFits() returns (fits: bool)
      requires grid.Valid() && current.Valid()
      ensures fits == Fits(grid.Cells(), current.TilePositions())
    {
      var ps := current.TilePositions();
      for i := 0 to |ps|
        invariant forall j :: 0 <= j < i ==> CellEmpty(grid.Cells(), ps[j].row, ps[j].column)
      {
        if !grid.IsCellEmpty(ps[i].row, ps[i].column) {
          return false;
        }
      }
      return true;
    }

    /**
     * Hold, once per spawn: the first hold stores the current piece and
     * spawns the pending one; a later hold swaps the current and the held
     * piece, the recalled one back in its spawn pose.
     */
    method HoldBlock()
      requires Valid() && !gameOver
      modifies this, current, held, queue
      ensures Valid() && !gameOver
      ensures score == old(score) && grid.Cells() == old(grid.Cells())
      ensures !old(canHold) ==>
        current == old(current) && held == old(held) && !canHold &&
        unchanged(current) && (held != null ==> unchanged(held)) && unchanged(queue)
      ensures old(canHold) && old(held) == null ==>
        held == old(current) && unchanged(held) && fresh(current) && !canHold &&
        current.shape == old(queue.nextBlock) && Spawned(current) &&
        queue.nextBlock.id != current.shape.id
      ensures old(canHold) && old(held) != null ==>
        current == old(held) && held == old(current) && !canHold &&
        Spawned(current) && unchanged(queue)
    {
      if !canHold {
        return;
      }
      if held == null {
        held := current;
        var next := queue.GetAndUpdate();
        var b := new Block(next);
        SetCurrentBlock(b);
      } else {
        var tmp := current;
        SetCurrentBlock(held);
        held := tmp;
      }
      canHold := false;
      SpawnFits(grid.Cells(), current.shape);
    }

    method RotateBlockClockwise()
      requires Valid() && !gameOver
      modifies current
      ensures Valid() && !gameOver
      ensures grid.Cells() == old(grid.Cells()) && Fits(grid.Cells(), current.TilePositions())
      ensures current.offset == old(current.offset)
      ensures var turned := ClockwiseState(old(current.rotationState), |current.shape.tiles|);
        current.rotationState == if FitsAt(turned, current.offset) then turned else old(current.rotationState)
    {
      current.RotateClockwise();
      var fits := BlockFits();
      if !fits {
        current.RotateCounterClockwise();
        RotationsInverse(old(current.rotationState), |current.shape.tiles|);
      }
    }

    method RotateBlockCounterClockwise()
      requires Valid() && !gameOver
      modifies current
      ensures Valid() && !gameOver
      ensures grid.Cells() == old(grid.Cells()) && Fits(grid.Cells(), current.TilePositions())
      ensures current.offset == old(current.offset)
      ensures var turned := CounterClockwiseState(old(current.rotationState), |current.shape.tiles|);
        current.rotationState == if FitsAt(turned, current.offset) then turned else old(current.rotationState)
    {
      current.RotateCounterClockwise();
      var fits := BlockFits();
      if !fits {
        current.RotateClockwise();
        RotationsInverse(old(current.rotationState), |current.shape.tiles|);
      }
    }

    method MoveBlockLeft()
      requires Valid() && !gameOver
      modifies current
      ensures Valid() && !gameOver
      ensures grid.Cells() == old(grid.Cells()) && Fits(grid.Cells(), current.TilePositions())
      ensures current.rotationState == old(current.rotationState)
      ensures var moved := Translate(old(current.offset), 0, -1);
        current.offset == if FitsAt(current.rotationState, moved) then moved else old(current.offset)
    {
      current.Move(0, -1);
      var fits := BlockFits();
      if !fits {
        current.Move(0, 1);
      }
    }

    method MoveBlockRight()
      requires Valid() && !gameOver
      modifies current
      ensures Valid() && !gameOver
      ensures grid.Cells() == old(grid.Cells()) && Fits(grid.Cells(), current.TilePositions())
      ensures current.rotationState == old(current.rotationState)
      ensures var moved := Translate(old(current.offset), 0, 1);
        current.offset == if FitsAt(current.rotationState, moved) then moved else old(current.offset)
    {
      current.Move(0, 1);
      var fits := BlockFits();
      if !fits {
        current.Move(0, -1);
      }
    }

    /** The game is over when either hidden top row holds a locked cell. */
    method IsGameOver() returns (over: bool)
      requires grid.Valid() && grid.Rows >= 2
      ensures over == !(RowEmpty(grid.Cells()[0]) && RowEmpty(grid.Cells()[1]))
    {
      var top := grid.IsRowEmpty(0);
      var second := grid.IsRowEmpty(1);
      over := !(top && second);
    }

    /**
     * Locks the current piece: writes its id into its cells, scores the
     * cleared rows, and either ends the game or spawns the pending piece.
     */
    method PlaceBlock()
      requires Valid() && !gameOver
      modifies this, grid.grid, queue
      ensures Valid() && held == old(held) && score >= old(score)
      ensures Inside(old(grid.Cells()), old(current.TilePositions()))
      ensures LockedFrom(old(grid.Cells()), old(current.TilePositions()), old(current.Id()), old(score),
                         old(queue.nextBlock), old(canHold), old(current))
      ensures !gameOver ==> fresh(current)
    {
      var ps := current.TilePositions();
      var cleared := LockAndClear(ps, current.Id());
      score := score + cleared;
      var over := IsGameOver();
      if over {
        gameOver := true;
      } else {
        SpawnNext();
      }
    }

    /** Writes `id` into the cells of `ps`, then clears the full rows and counts them. */
    method LockAndClear(ps: seq<Position>, id: int) returns (cleared: nat)
      requires grid.Valid() && Inside(grid.Cells(), ps)
      modifies grid.grid
      ensures grid.Valid()
      ensures cleared == CountFull(Stamp(old(grid.Cells()), ps, id))
      ensures grid.Cells() == Compacted(Stamp(old(grid.Cells()), ps, id), grid.Columns)
    {
      WriteTiles(ps, id);
      cleared := grid.ClearFullRows();
    }

    /** Writes `id` into the cells of `ps`, one tile after the other. */
    method WriteTiles(ps: seq<Position>, id: int)
      requires grid.Valid() && Inside(grid.Cells(), ps)
      modifies grid.grid
      ensures grid.Valid() && grid.Cells() == Stamp(old(grid.Cells()), ps, id)
    {
      ghost var cells0 := grid.Cells();
      for i := 0 to |ps|
        invariant grid.Valid() && grid.Cells() == Stamp(cells0, ps[..i], id)
      {
        assert ps[..i + 1][..i] == ps[..i];
        assert Inside(Stamp(cells0, ps[..i], id), [ps[i]]);
        grid.Set(ps[i].row, ps[i].column, id);
      }
      assert ps[..|ps|] == ps;
    }

    /** Deals the pending shape and makes it the current piece, with hold enabled again. */
    method SpawnNext()
      requires grid.Valid() && grid.Rows == DefaultRows && grid.Columns == DefaultColumns
      requires SpawnRowsEmpty(grid.Cells()) && queue.Valid()
      modifies this`current, this`canHold, queue
      ensures fresh(current) && current.Valid() && Spawnable(current.shape, DefaultColumns)
      ensures current.shape == old(queue.nextBlock) && Spawned(current)
      ensures Fits(grid.Cells(), current.TilePositions())
      ensures canHold && queue.Valid() && queue.nextBlock.id != current.shape.id
    {
      var next := queue.GetAndUpdate();
      var b := new Block(next);
      SetCurrentBlock(b);
      canHold := true;
      SpawnFits(grid.Cells(), b.shape);
    }

    /**
     * Soft drop: one row down if the piece fits there; otherwise the piece
     * stays where it was and is locked.
     */
    method MoveBlockDown()
      requires Valid() && !gameOver
      modifies this, current, grid.grid, queue
      ensures Valid() && held == old(held) && score >= old(score)
      ensures var down := Translate(old(current.offset), 1, 0);
        old(FitsAt(current.rotationState, down)) ==>
          current == old(current) && current.offset == down &&
          current.rotationState == old(current.rotationState) &&
          grid.Cells() == old(grid.Cells()) && !gameOver && score == old(score) &&
          canHold == old(canHold) && unchanged(queue)
      ensures var down := Translate(old(current.offset), 1, 0);
        !old(FitsAt(current.rotationState, down)) ==>
          Inside(old(grid.Cells()), old(current.TilePositions())) &&
          LockedFrom(old(grid.Cells()), old(current.TilePositions()), old(current.Id()), old(score),
                     old(queue.nextBlock), old(canHold), old(current)) &&
          (!gameOver ==> fresh(current)) &&
          (gameOver ==> current.offset == old(current.offset) &&
                        current.rotationState == old(current.rotationState))
    {
      current.Move(1, 0);
      var fits := BlockFits();
      if !fits {
        current.Move(-1, 0);
        PlaceBlock();
      }
    }

    /** How far the tile at `p` can fall (the while loop counts empty cells below it). */
    method TileDropDistance(p: Position) returns (drop: nat)
      requires grid.Valid()
      ensures drop == TileDrop(grid.Cells(), p)
      ensures forall r :: p.row < r <= p.row + drop ==> grid.IsCellEmpty(r, p.column)
      ensures !grid.IsCellEmpty(p.row + drop + 1, p.column)
    {
      ghost var cells := grid.Cells();
      drop := 0;
      while grid.IsCellEmpty(p.row + drop + 1, p.column)
        invariant TileDrop(cells, p) == drop + TileDrop(cells, Translate(p, drop, 0))
        decreases grid.Rows - p.row - drop
      {
        drop := drop + 1;
      }
      TileDropSpec(cells, p);
    }

    /** The drop distance of the current piece: the least tile drop distance, at most Rows. */
    method BlockDropDistance() returns (drop: nat)
      requires grid.Valid() && current.Valid()
      ensures drop == BlockDrop(grid.Cells(), current.TilePositions(), grid.Rows)
      ensures drop <= grid.Rows
      ensures var ps := current.TilePositions();
        forall i, r :: 0 <= i < |ps| && ps[i].row < r <= ps[i].row + drop ==> grid.IsCellEmpty(r, ps[i].column)
      ensures var ps := current.TilePositions();
        exists i :: 0 <= i < |ps| && !grid.IsCellEmpty(ps[i].row + drop + 1, ps[i].column)
    {
      var ps := current.TilePositions();
      drop := grid.Rows;
      for i := 0 to |ps|
        invariant drop == BlockDrop(grid.Cells(), ps[..i], grid.Rows)
      {
        assert ps[..i + 1][..i] == ps[..i];
        var tileDrop := TileDropDistance(ps[i]);
        drop := Min(drop, tileDrop);
      }
      assert ps[..|ps|] == ps;
      BlockDropSpec(grid.Cells(), ps, grid.Rows);
    }

    /** Hard drop: move the piece down by its drop distance and lock it there. */
    method HardDropBlock()
      requires Valid() && !gameOver
      modifies this, current, grid.grid, queue
      ensures Valid() && held == old(held) && score >= old(score)
      ensures var d := old(BlockDrop(grid.Cells(), current.TilePositions(), grid.Rows));
        var landed := Shifted(old(current.TilePositions()), Position(d, 0));
        Inside(old(grid.Cells()), landed) &&
        LockedFrom(old(grid.Cells()), landed, old(current.Id()), old(score),
                   old(queue.nextBlock), old(canHold), old(current)) &&
        (!gameOver ==> fresh(current)) &&
        (gameOver ==> current.rotationState == old(current.rotationState) &&
                      current.offset == Translate(old(current.offset), d, 0))
    {
      ghost var ps := current.TilePositions();
      var drop := BlockDropDistance();
      current.Move(drop, 0);
      ShiftedTranslate(current.shape.tiles[current.rotationState], old(current.offset), drop, 0);
      DroppedFits(grid.Cells(), ps, grid.Rows);
      PlaceBlock();
    }
  }
}
