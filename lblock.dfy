/**
 * The L piece (Blocks/LBlock.cs): four rotation layouts inside a 3 x 3 box,
 * Id 3, spawning at offset (0, 3).
 */
module LBlock {
  import opened Blocks

  const Id: int := 3
  const StartOffset: Position := Position(0, 3)

  /** One layout per rotation state: 0, 90, 180 and 270 degrees clockwise. */
  const Tiles: seq<seq<Position>> := [
      [Position(0, 2), Position(1, 0), Position(1, 1), Position(1, 2)],
      [Position(0, 1), Position(1, 1), Position(2, 1), Position(2, 2)],
      [Position(1, 0), Position(1, 1), Position(1, 2), Position(2, 0)],
      [Position(0, 0), Position(0, 1), Position(1, 1), Position(2, 1)]
    ]

  const ShapeData: Shape := Shape(Id, Tiles, StartOffset)

  /** Four rotation layouts, each of exactly four distinct tiles. */
  lemma Layouts()
    ensures |Tiles| == 4 && WellFormed(ShapeData)
    ensures forall k :: 0 <= k < |Tiles| ==> DistinctTiles(Tiles[k])
  {
  }

  /** Every tile of every layout lies in the box of rows 0..2 and columns 0..2. */
  lemma InBox()
    ensures forall k, i :: 0 <= k < |Tiles| && 0 <= i < |Tiles[k]| ==>
      0 <= Tiles[k][i].row <= 2 && 0 <= Tiles[k][i].column <= 2
  {
  }

  /**
   * The spawn pose: rotation 0 at the start offset occupies exactly these
   * cells, all in rows 0..1 and columns 3..5, so it fits any field of
   * ten columns whose two top rows are empty.
   */
  lemma SpawnPose()
    ensures Shifted(Tiles[0], StartOffset) == [Position(0, 5), Position(1, 3), Position(1, 4), Position(1, 5)]
    ensures Spawnable(ShapeData, 10)
    ensures ShapeData.id == 3 && ShapeData.startOffset == Position(0, 3)
  {
  }
}
