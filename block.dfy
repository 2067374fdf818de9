/**
 * A piece (Blocks/Block.cs): a rotation index into its shape's table of tile
 * layouts and an offset on the field.  The shape data that each concrete
 * block class supplies (Id, Tiles, StartOffset) is the value `Shape`; the
 * rotation index and the offset are fields of the class `Block`, updated in
 * place, and each update is specified by the pure functions below.
 */
module Blocks {

  /** A cell address, row first; row 0 is the top of the field. */
  datatype Position = Position(row: int, column: int)

  /**
   * What a concrete block class supplies: its Id, one tile layout per
   * rotation state (Tiles) and the offset at which it spawns (StartOffset).
   */
  datatype Shape = Shape(id: int, tiles: seq<seq<Position>>, startOffset: Position)

  /** At least one rotation layout, each made of four tiles. */
  predicate WellFormed(s: Shape) {
    |s.tiles| >= 1 && forall k :: 0 <= k < |s.tiles| ==> |s.tiles[k]| == 4
  }

  /** No tile of the layout is listed twice. */
  predicate DistinctTiles(layout: seq<Position>) {
    forall i, j :: 0 <= i < j < |layout| ==> layout[i] != layout[j]
  }

  function Translate(p: Position, rows: int, columns: int): Position {
    Position(p.row + rows, p.column + columns)
  }

  /** The layout's tiles, in order, each moved by `offset`. */
  function Shifted(layout: seq<Position>, offset: Position): (ps: seq<Position>)
    ensures |ps| == |layout|
  {
    if layout == [] then []
    else [Translate(layout[0], offset.row, offset.column)] + Shifted(layout[1..], offset)
  }

  lemma {:induction false} ShiftedAt(layout: seq<Position>, offset: Position, i: nat)
    requires i < |layout|
    ensures Shifted(layout, offset)[i] == Translate(layout[i], offset.row, offset.column)
  {
    if i > 0 {
      ShiftedAt(layout[1..], offset, i - 1);
    }
  }

  /** Moving the offset by (rows, columns) moves every tile by (rows, columns). */
  lemma {:induction false} ShiftedTranslate(layout: seq<Position>, offset: Position, rows: int, columns: int)
    ensures Shifted(layout, Translate(offset, rows, columns)) ==
            Shifted(Shifted(layout, offset), Position(rows, columns))
  {
    if layout != [] {
      ShiftedTranslate(layout[1..], offset, rows, columns);
      assert Shifted(layout, offset)[1..] == Shifted(layout[1..], offset);
    }
  }

  /** Every tile on the field of `ps` lies in rows 0..1 and in columns 0..columns-1. */
  predicate InSpawnRows(ps: seq<Position>, columns: int) {
    forall i :: 0 <= i < |ps| ==> 0 <= ps[i].row <= 1 && 0 <= ps[i].column < columns
  }

  /**
   * A shape that can always spawn on a field that is `columns` wide: its
   * rotation-0 pose at the start offset lies in the two top rows, in bounds.
   */
  predicate Spawnable(s: Shape, columns: int) {
    WellFormed(s) && InSpawnRows(Shifted(s.tiles[0], s.startOffset), columns)
  }

  /** The rotation state after a clockwise turn. */
  function ClockwiseState(state: nat, count: nat): (next: nat)
    requires state < count
    ensures next < count
    ensures state + 1 < count ==> next == state + 1
    ensures state + 1 == count ==> next == 0
  {
    (state + 1) % count
  }

  /** The rotation state after a counter-clockwise turn. */
  function CounterClockwiseState(state: nat, count: nat): (previous: nat)
    requires state < count
    ensures previous < count
  {
    if state == 0 then count - 1 else state - 1
  }

  /** Counter-clockwise undoes clockwise, and clockwise undoes counter-clockwise. */
  lemma RotationsInverse(state: nat, count: nat)
    requires state < count
    ensures CounterClockwiseState(ClockwiseState(state, count), count) == state
    ensures ClockwiseState(CounterClockwiseState(state, count), count) == state
  {
    if state == 0 {
      assert ClockwiseState(count - 1, count) == 0;
    }
  }

  /** A one-layout table (the O block) never leaves rotation state 0. */
  lemma SingleLayoutRotations(state: nat)
    requires state < 1
    ensures ClockwiseState(state, 1) == 0 && CounterClockwiseState(state, 1) == 0
  {
  }

  class Block {
    const shape: Shape
    var rotationState: nat
    var offset: Position

    ghost predicate Valid()
      reads this
    {
      WellFormed(shape) && rotationState < |shape.tiles|
    }

    function Id(): int {
      shape.id
    }

    /** A fresh block in its spawn pose. */
    constructor (shape: Shape)
      requires WellFormed(shape)
      ensures Valid() && this.shape == shape
      ensures rotationState == 0 && offset == shape.startOffset
    {
      this.shape := shape;
      rotationState := 0;
      offset := shape.startOffset;
    }

    /** The absolute cells of the active layout; always four of them. */
    function TilePositions(): (ps: seq<Position>)
      reads this
      requires Valid()
      ensures |ps| == 4
    {
      Shifted(shape.tiles[rotationState], offset)
    }

    method RotateClockwise()
      requires Valid()
      modifies this
      ensures Valid()
      ensures rotationState == ClockwiseState(old(rotationState), |shape.tiles|)
      ensures offset == old(offset)
    {
      rotationState := (rotationState + 1) % |shape.tiles|;
    }

    method RotateCounterClockwise()
      requires Valid()
      modifies this
      ensures Valid()
      ensures rotationState == CounterClockwiseState(old(rotationState), |shape.tiles|)
      ensures offset == old(offset)
    {
      if rotationState == 0 {
        rotationState := |shape.tiles| - 1;
      } else {
        rotationState := rotationState - 1;
      }
    }

    /** Moves the block; whether the new pose is legal is the caller's concern. */
    method Move(rows: int, columns: int)
      requires Valid()
      modifies this
      ensures Valid()
      ensures rotationState == old(rotationState)
      ensures offset == Translate(old(offset), rows, columns)
    {
      offset := Translate(offset, rows, columns);
    }

    /** Back to the spawn pose: rotation 0 at the start offset. */
    method Reset()
      requires WellFormed(shape)
      modifies this
      ensures Valid()
      ensures rotationState == 0 && offset == shape.startOffset
    {
      rotationState := 0;
      offset := shape.startOffset;
    }
  }

  /** Move(r, c) followed by Move(-r, -c) gives back the offset it started from. */
  lemma MoveRoundTrip(offset: Position, rows: int, columns: int)
    ensures Translate(Translate(offset, rows, columns), -rows, -columns) == offset
  {
  }

  /** After moving by (rows, columns), the tile positions are the old ones moved by (rows, columns). */
  lemma MovedTiles(layout: seq<Position>, offset: Position, rows: int, columns: int, i: nat)
    requires i < |layout|
    ensures Shifted(layout, Translate(offset, rows, columns))[i] ==
            Translate(Shifted(layout, offset)[i], rows, columns)
  {
    ShiftedAt(layout, offset, i);
    ShiftedAt(layout, Translate(offset, rows, columns), i);
  }
}
