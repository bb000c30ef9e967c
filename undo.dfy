/**
 * Undoing an update record: pin the saved block the record's offset names,
 * put the saved image into its frame, unpin it.
 *
 * The block pinned is ("SavedBlocks.txt", offset), not the record's own
 * (filename, blockNum). A pin that finds no frame returns null in the buffer
 * manager and the undo then fails before restoring anything; here that is
 * the outcome None.
 */
module Recovery {
  import opened Wrappers
  import opened Buffers
  import opened GClock
  import opened PoolSpec
  import opened LogRecords
  import opened BufferPool

  const SAVED_BLOCKS: string := "SavedBlocks.txt"

  /** The block whose frame undo restores. */
  function SavedBlock(r: UpdateRecord): Block {
    Block(SAVED_BLOCKS, r.offset)
  }

  /**
   * undo on the pool state `s`: `onDisk` is the disk image of the saved
   * block (read if it is not cached) and `saved` the image restoreBlock
   * puts in the frame.
   */
  function Undo(s: PoolState, r: UpdateRecord, onDisk: Page, saved: Page, defaultRefCount: nat): (u: PinResult)
    requires Inv(s)
    ensures u.buff.Some? ==>
      u.buff.value < |u.state.frames| && u.state.frames[u.buff.value].block == Some(SavedBlock(r)) &&
      u.state.frames[u.buff.value].contents == saved
  {
    var p := Pin(s, SavedBlock(r), onDisk, defaultRefCount);
    if p.buff.None? then p
    else
      PinSuccess(s, SavedBlock(r), onDisk, defaultRefCount);
      var i := p.buff.value;
      PinResult(Unpin(Restore(p.state, i, saved), i, defaultRefCount), Some(i))
  }

  /**
   * undo fails exactly when its pin does. When it succeeds the frame holds
   * the saved block with the saved image, its pin count and the free count
   * are where they were before, and its reference credits are the default
   * ones when it is left unpinned and untouched otherwise. Either way the
   * pool invariant is kept.
   */
  lemma UndoSpec(s: PoolState, r: UpdateRecord, onDisk: Page, saved: Page, rc: nat)
    requires Inv(s)
    ensures var u := Undo(s, r, onDisk, saved, rc); var blk := SavedBlock(r);
      Inv(u.state) && (Coherent(s) ==> Coherent(u.state)) &&
      (u.buff.None? <==> blk !in s.index && ReferenceProtected(s.frames, PASSES)) &&
      (u.buff.Some? ==>
        var i := u.buff.value;
        i < |s.frames| && i < |u.state.frames| &&
        u.state.frames[i].block == Some(blk) && blk in u.state.index && u.state.index[blk] == i &&
        u.state.frames[i].contents == saved &&
        u.state.frames[i].pins == (if blk in s.index then s.frames[i].pins else 0) &&
        u.state.numAvailable == s.numAvailable &&
        u.state.frames[i].referenceValue ==
          (if u.state.frames[i].IsPinned() then s.frames[i].referenceValue else rc))
  {
    UndoKeepsInv(s, r, onDisk, saved, rc);
    PinFailure(s, SavedBlock(r), onDisk, rc);
    UndoRestores(s, r, onDisk, saved, rc);
  }

  /** undo keeps the pool invariant, and the index complete when it was. */
  lemma UndoKeepsInv(s: PoolState, r: UpdateRecord, onDisk: Page, saved: Page, rc: nat)
    requires Inv(s)
    ensures var u := Undo(s, r, onDisk, saved, rc);
      Inv(u.state) && (Coherent(s) ==> Coherent(u.state))
  {
    var blk := SavedBlock(r);
    PinKeepsInv(s, blk, onDisk, rc);
    PinSuccess(s, blk, onDisk, rc);
    var p := Pin(s, blk, onDisk, rc);
    if p.buff.Some? {
      var i := p.buff.value;
      RestoreSpec(p.state, i, saved);
      UnpinSpec(Restore(p.state, i, saved), i, rc);
    }
  }

  /** What a successful undo leaves in the frame it used. */
  lemma UndoRestores(s: PoolState, r: UpdateRecord, onDisk: Page, saved: Page, rc: nat)
    requires Inv(s)
    ensures var u := Undo(s, r, onDisk, saved, rc); var blk := SavedBlock(r);
      u.buff.Some? ==>
        var i := u.buff.value;
        i < |s.frames| && i < |u.state.frames| &&
        u.state.frames[i].block == Some(blk) && blk in u.state.index && u.state.index[blk] == i &&
        u.state.frames[i].contents == saved &&
        u.state.frames[i].pins == (if blk in s.index then s.frames[i].pins else 0) &&
        u.state.numAvailable == s.numAvailable &&
        u.state.frames[i].referenceValue ==
          (if u.state.frames[i].IsPinned() then s.frames[i].referenceValue else rc)
  {
    var blk := SavedBlock(r);
    PinKeepsInv(s, blk, onDisk, rc);
    PinSuccess(s, blk, onDisk, rc);
    var p := Pin(s, blk, onDisk, rc);
    if p.buff.Some? {
      var i := p.buff.value;
      RestoreSpec(p.state, i, saved);
      UnpinSpec(Restore(p.state, i, saved), i, rc);
      if blk in s.index {
        PinHit(s, blk, onDisk, rc);
      }
    }
  }

  /**
   * undo(txnum) against the buffer manager; the transaction number is not
   * used. True when the saved block was pinned, restored and unpinned; false
   * when the pin found no frame.
   */
  method UndoRecord(r: UpdateRecord, txnum: int, mgr: BasicBufferMgr, onDisk: Page, saved: Page)
    returns (ok: bool)
    requires mgr.Valid()
    modifies mgr, mgr.bufferpool
    ensures mgr.Valid()
    ensures var u := Undo(old(mgr.State()), r, onDisk, saved, mgr.defaultRefCount);
      mgr.State() == u.state && (ok <==> u.buff.Some?)
  {
    ghost var s0 := mgr.State();
    var blk := Block(SAVED_BLOCKS, r.offset);
    var buff := mgr.Pin(blk, onDisk);
    if buff.None? {
      return false;
    }
    PinSuccess(s0, blk, onDisk, mgr.defaultRefCount);
    mgr.RestoreBlock(buff.value, saved);
    mgr.Unpin(buff.value);
    ok := true;
  }
}
