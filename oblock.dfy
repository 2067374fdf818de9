/**
 * The O piece (Blocks/OBlock.cs): a single layout, the 2 x 2 square, Id 4,
 * spawning at offset (0, 4).  With one layout, rotating is a no-op.
 */
module OBlock {
  import opened Blocks

  const Id: int := 4
  const StartOffset: Position := Position(0, 4)

  /** The only layout: the square never rotates. */
  const Tiles: seq<seq<Position>> := [
      [Position(0, 0), Position(0, 1), Position(1, 0), Position(1, 1)]
    ]

  const ShapeData: Shape := Shape(Id, Tiles, StartOffset)

  /** One layout of four distinct tiles, exactly the square (0..1) x (0..1). */
  lemma Layouts()
    ensures |Tiles| == 1 && WellFormed(ShapeData) && DistinctTiles(Tiles[0])
    ensures forall p :: p in Tiles[0] <==> 0 <= p.row <= 1 && 0 <= p.column <= 1
  {
  }

  /** Both rotations leave the O piece in rotation state 0. */
  lemma NeverRotates(state: nat)
    requires state < |Tiles|
    ensures ClockwiseState(state, |Tiles|) == 0 && CounterClockwiseState(state, |Tiles|) == 0
  {
    SingleLayoutRotations(state);
  }

  /** The spawn pose occupies rows 0..1 and columns 4..5. */
  lemma SpawnPose()
    ensures Shifted(Tiles[0], StartOffset) ==
      [Position(0, 4), Position(0, 5), Position(1, 4), Position(1, 5)]
    ensures Spawnable(ShapeData, 10)
    ensures ShapeData.id == 4 && ShapeData.startOffset == Position(0, 4)
  {
  }
}
