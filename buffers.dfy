/**
 * Block identities and buffer frames.
 *
 * A frame is a value: the block it holds (if any), its pin count, its GClock
 * reference value, the transaction that dirtied it (if any) and its page image.
 * The buffer manager keeps frames in an array and updates them slot by slot.
 */
module Buffers {
  import opened Wrappers

  /** An in-memory page image; its size and layout are not modelled. */
  type Page = seq<bv8>

  /** A (file name, block number) pair, compared by value. */
  datatype Block = Block(filename: string, number: int)

  /** One write of a page image to a disk block, recorded in the order it happens. */
  datatype DiskWrite = DiskWrite(block: Block, page: Page)

  datatype Buffer = Buffer(
    block: Option<Block>,
    pins: nat,
    referenceValue: nat,
    modifiedBy: Option<int>,
    contents: Page)
  {
    predicate IsPinned() { pins > 0 }

    /** A frame with reference credit left is skipped (and decayed) by the clock scan. */
    predicate IsReferenced() { referenceValue > 0 }

    predicate IsModifiedBy(txnum: int) { modifiedBy == Some(txnum) }

    /** A dirty frame always holds a block to write back to. */
    predicate DirtyHasBlock() { modifiedBy.Some? ==> block.Some? }
  }

  /** A frame as `new Buffer()` leaves it: no block, unpinned, clean, no reference credit. */
  const FRESH_BUFFER: Buffer := Buffer(None, 0, 0, None, [])

  /** The disk writes `flush` performs on a frame: its image, when it is dirty. */
  function FlushWrites(f: Buffer): (w: seq<DiskWrite>)
    ensures |w| <= 1
    ensures w != [] <==> f.modifiedBy.Some? && f.block.Some?
    ensures w != [] ==> w[0] == DiskWrite(f.block.value, f.contents)
  {
    if f.modifiedBy.Some? && f.block.Some? then [DiskWrite(f.block.value, f.contents)] else []
  }

  /** The frame after `flush`: clean, everything else as before. */
  function Flushed(f: Buffer): Buffer {
    f.(modifiedBy := None)
  }

  /** The frame after `k` visits of the clock hand: an unpinned frame loses `k` reference credits (never below 0); a pinned frame is untouched. */
  function Decayed(f: Buffer, k: nat): (g: Buffer)
    ensures g.block == f.block && g.pins == f.pins && g.modifiedBy == f.modifiedBy && g.contents == f.contents
    ensures f.IsPinned() ==> g == f
    ensures !f.IsPinned() && f.referenceValue >= k ==> g.referenceValue == f.referenceValue - k
    ensures !f.IsPinned() && f.referenceValue < k ==> g.referenceValue == 0
  {
    if f.IsPinned() then f
    else f.(referenceValue := if f.referenceValue >= k then f.referenceValue - k else 0)
  }

  /** Flushing is idempotent: a flushed frame is clean, so flushing it again writes nothing and changes nothing. */
  lemma FlushTwice(f: Buffer)
    ensures FlushWrites(Flushed(f)) == [] && Flushed(Flushed(f)) == Flushed(f)
    ensures forall t :: !Flushed(f).IsModifiedBy(t)
  {
  }

  /** `a` visits of the clock hand followed by `b` more are `a + b` visits. */
  lemma DecayedCompose(f: Buffer, a: nat, b: nat)
    ensures Decayed(Decayed(f, a), b) == Decayed(f, a + b)
  {
  }
}
