/**
 * The piece supply (BlockQueue.cs): the seven shapes in id order and the
 * shape that will be dealt next.  Each deal picks a new pending shape whose
 * id differs from the one just dealt.  The random source is not modelled:
 * every draw is a nondeterministic choice.
 */
module Queue {
  import opened Blocks
  import LBlock
  import OBlock
  import TBlock
  import ZBlock

  /**
   * The assumption made of a shape whose table is not part of this model
   * (I, J and S): a well-formed table whose spawn pose lies in rows 0..1 of
   * a ten-column field, and the id that the renderer's image order gives it.
   */
  predicate AssumedShape(s: Shape, id: int) {
    Spawnable(s, 10) && s.id == id
  }

  class BlockQueue {
    /** I, J, L, O, S, T, Z, in that order (ids 1 to 7). */
    const blocks: seq<Shape>
    var nextBlock: Shape

    ghost predicate Valid()
      reads this
    {
      |blocks| == 7 &&
      (forall i :: 0 <= i < |blocks| ==> blocks[i].id == i + 1 && Spawnable(blocks[i], 10)) &&
      nextBlock in blocks
    }

    constructor (iBlock: Shape, jBlock: Shape, sBlock: Shape)
      requires AssumedShape(iBlock, 1) && AssumedShape(jBlock, 2) && AssumedShape(sBlock, 5)
      ensures Valid()
      ensures blocks == [iBlock, jBlock, LBlock.ShapeData, OBlock.ShapeData, sBlock,
                         TBlock.ShapeData, ZBlock.ShapeData]
    {
      blocks := [iBlock, jBlock, LBlock.ShapeData, OBlock.ShapeData, sBlock,
                 TBlock.ShapeData, ZBlock.ShapeData];
      nextBlock := iBlock;
      new;
      LBlock.SpawnPose();
      OBlock.SpawnPose();
      TBlock.SpawnPose();
      ZBlock.SpawnPose();
      nextBlock := RandomBlock();
    }

    /** The pending shape; reading it changes nothing. */
    function NextBlock(): (b: Shape)
      reads this
      requires Valid()
      ensures b in blocks && Spawnable(b, 10)
    {
      nextBlock
    }

    /** Any of the seven shapes. */
    method RandomBlock() returns (b: Shape)
      requires |blocks| == 7
      ensures b in blocks
    {
      var i :| 0 <= i < |blocks|;
      b := blocks[i];
    }

    /**
     * Deals the pending shape and picks a new pending one with a different id.
     * The source repeats RandomBlock until the ids differ; the model makes the
     * choice among the differing shapes in one step.
     */
    method GetAndUpdate() returns (block: Shape)
      requires Valid()
      modifies this
      ensures Valid()
      ensures block == old(nextBlock) && Spawnable(block, 10)
      ensures nextBlock.id != block.id
    {
      block := nextBlock;
      assert blocks[0].id == 1 && blocks[1].id == 2;
      var i :| 0 <= i < |blocks| && blocks[i].id != block.id;
      nextBlock := blocks[i];
    }
  }
}
