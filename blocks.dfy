/**
 * Finding the block that encloses a cursor: walk outward from block to
 * enclosing block until one of the six kinds that can carry requirements is
 * found. Positions in the buffer are integers; the editor's block queries
 * are given as functions of a position.
 */
module Blocks {
  import opened Wrappers

  /** The block categories the walk stops at. */
  const RequirementBearing: set<string> :=
    {"CAT_PROCEDURE", "CAT_FUNCTION", "CAT_ENTRY", "CAT_PROTECTED", "CAT_TASK", "CAT_PACKAGE"}

  /** The start and end positions of a block. */
  datatype Block = Block(start: int, end: int)

  /**
   * The editor's block structure as the walk sees it: every position above
   * the buffer's beginning lies in a block that starts at or before it, so
   * stepping to just before the block's start moves strictly outward.
   */
  ghost predicate BlocksStartBefore(bufferStart: int, blockStart: int -> int) {
    forall p :: bufferStart < p ==> blockStart(p) <= p
  }

  /**
   * Where the outward walk from `cursor` stops: at the first position whose
   * block is requirement-bearing, or once the position is at or before the
   * buffer's beginning.
   */
  function Walk(cursor: int, bufferStart: int, blockType: int -> string, blockStart: int -> int): (w: int)
    requires BlocksStartBefore(bufferStart, blockStart)
    ensures w <= cursor
    ensures w > bufferStart ==> blockType(w) in RequirementBearing
    decreases if cursor > bufferStart then cursor - bufferStart else 0
  {
    if blockType(cursor) in RequirementBearing || cursor <= bufferStart then cursor
    else Walk(blockStart(cursor) - 1, bufferStart, blockType, blockStart)
  }

  /**
   * The enclosing block as a value: none when the cursor is in no block at
   * all or when the walk ends at the buffer's beginning, else the extent of
   * the block the walk stopped in.
   */
  function EnclosingBlockOf(cursor: int, bufferStart: int, blockType: int -> string,
                            blockStart: int -> int, blockEnd: int -> int): Option<Block>
    requires BlocksStartBefore(bufferStart, blockStart)
  {
    if blockType(cursor) == "CAT_UNKNOWN" then None
    else
      var w := Walk(cursor, bufferStart, blockType, blockStart);
      if w <= bufferStart then None else Some(Block(blockStart(w), blockEnd(w)))
  }

  /**
   * `_get_enclosing_block`: step from the cursor to just before the start of
   * its block until the block there is requirement-bearing or the buffer's
   * beginning is reached.
   */
  method GetEnclosingBlock(cursor0: int, bufferStart: int, blockType: int -> string,
                           blockStart: int -> int, blockEnd: int -> int) returns (block: Option<Block>)
    requires BlocksStartBefore(bufferStart, blockStart)
    ensures block == EnclosingBlockOf(cursor0, bufferStart, blockType, blockStart, blockEnd)
  {
    if blockType(cursor0) == "CAT_UNKNOWN" {
      return None;
    }
    var cursor := cursor0;
    while !(blockType(cursor) in RequirementBearing) && cursor > bufferStart
      invariant Walk(cursor, bufferStart, blockType, blockStart) == Walk(cursor0, bufferStart, blockType, blockStart)
      decreases cursor - bufferStart
    {
      cursor := blockStart(cursor) - 1;
    }
    if cursor <= bufferStart {
      return None;
    }
    block := Some(Block(blockStart(cursor), blockEnd(cursor)));
  }

  /**
   * A found block is the block of a requirement-bearing position between the
   * buffer's beginning and the cursor; and there is one exactly when the
   * cursor is in a known block and the walk ends inside the buffer.
   */
  lemma EnclosingBlockIsBearing(cursor: int, bufferStart: int, blockType: int -> string,
                                blockStart: int -> int, blockEnd: int -> int)
    requires BlocksStartBefore(bufferStart, blockStart)
    ensures var r := EnclosingBlockOf(cursor, bufferStart, blockType, blockStart, blockEnd);
            var w := Walk(cursor, bufferStart, blockType, blockStart);
            && (r.Some? <==> blockType(cursor) != "CAT_UNKNOWN" && w > bufferStart)
            && (r.Some? ==> bufferStart < w <= cursor && blockType(w) in RequirementBearing
                            && r.value == Block(blockStart(w), blockEnd(w)))
  {
  }

  /**
   * The walk passes over every block that cannot carry requirements: every
   * position it leaves behind is above the buffer's beginning and not
   * requirement-bearing.
   */
  lemma {:induction false} WalkSkipsOnlyOtherBlocks(cursor: int, bufferStart: int, blockType: int -> string, blockStart: int -> int)
    requires BlocksStartBefore(bufferStart, blockStart)
    requires Walk(cursor, bufferStart, blockType, blockStart) != cursor
    ensures cursor > bufferStart && blockType(cursor) !in RequirementBearing
    ensures Walk(cursor, bufferStart, blockType, blockStart)
            == Walk(blockStart(cursor) - 1, bufferStart, blockType, blockStart)
    ensures Walk(cursor, bufferStart, blockType, blockStart) < blockStart(cursor)
  {
    var next := blockStart(cursor) - 1;
    var w := Walk(next, bufferStart, blockType, blockStart);
    assert w <= next;
  }

  /** A cursor in no known block has no enclosing block. */
  lemma UnknownHasNoBlock(cursor: int, bufferStart: int, blockType: int -> string,
                          blockStart: int -> int, blockEnd: int -> int)
    requires BlocksStartBefore(bufferStart, blockStart)
    requires blockType(cursor) == "CAT_UNKNOWN"
    ensures EnclosingBlockOf(cursor, bufferStart, blockType, blockStart, blockEnd) == None
  {
  }

  /**
   * A cursor at or before the buffer's beginning has no enclosing block,
   * even when its own block is requirement-bearing: the final test is on
   * the position alone.
   */
  lemma AtBufferStartNoBlock(cursor: int, bufferStart: int, blockType: int -> string,
                             blockStart: int -> int, blockEnd: int -> int)
    requires BlocksStartBefore(bufferStart, blockStart)
    requires cursor <= bufferStart
    ensures EnclosingBlockOf(cursor, bufferStart, blockType, blockStart, blockEnd) == None
  {
  }

  /** A cursor inside the buffer whose own block is requirement-bearing gets that block. */
  lemma BearingCursorIsOwnBlock(cursor: int, bufferStart: int, blockType: int -> string,
                                blockStart: int -> int, blockEnd: int -> int)
    requires BlocksStartBefore(bufferStart, blockStart)
    requires cursor > bufferStart && blockType(cursor) in RequirementBearing
    ensures EnclosingBlockOf(cursor, bufferStart, blockType, blockStart, blockEnd)
            == Some(Block(blockStart(cursor), blockEnd(cursor)))
  {
  }
}
