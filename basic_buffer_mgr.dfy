/**
 * The basic buffer manager: a fixed array of frames, an index from block to
 * frame, the count of frames with no pins and the clock hand of the GClock
 * replacement policy. Each method is one atomic step of the manager and is
 * proved to take the pool from State() to the matching PoolSpec function of
 * it; the properties are proved about those functions in PoolSpec and GClock.
 *
 * Java's Buffer references are frame slots here: `pin` returns the slot of
 * the frame it pinned and `unpin` takes one.
 */
module BufferPool {
  import opened Wrappers
  import opened Buffers
  import opened GClock
  import opened PoolSpec

  class BasicBufferMgr {
    const bufferpool: array<Buffer>
    /** The reference credits a frame gets when it is loaded or becomes free (5 by default at startup). */
    const defaultRefCount: nat
    var numAvailable: int
    var clockPosition: nat
    var bufferPoolMap: map<Block, nat>
    /** The disk writes made so far by flushing frames and appending new blocks. */
    var diskWrites: seq<DiskWrite>

    ghost function State(): PoolState
      reads this, bufferpool
    {
      PoolState(bufferpool[..], numAvailable, clockPosition, bufferPoolMap, diskWrites)
    }

    ghost predicate Valid()
      reads this, bufferpool
    {
      Inv(State())
    }

    /** A manager with `numbuffs` fresh frames, all of them free. */
    constructor (numbuffs: nat, defaultRefCount: nat)
      ensures Valid() && State() == Init(numbuffs) && this.defaultRefCount == defaultRefCount
      ensures Coherent(State())
      ensures fresh(bufferpool)
    {
      this.defaultRefCount := defaultRefCount;
      bufferpool := new Buffer[numbuffs];
      numAvailable := numbuffs;
      bufferPoolMap := map[];
      clockPosition := 0;
      diskWrites := [];
      new;
      for i := 0 to numbuffs
        invariant forall j :: 0 <= j < i ==> bufferpool[j] == FRESH_BUFFER
        modifies bufferpool
      {
        bufferpool[i] := FRESH_BUFFER;
      }
      assert bufferpool[..] == Init(numbuffs).frames;
      InitValid(numbuffs);
    }

    /** Writes back every frame dirtied by `txnum` and marks it clean. */
    method FlushAll(txnum: int)
      requires Valid()
      modifies this`diskWrites, bufferpool
      ensures Valid()
      ensures State() == PoolSpec.FlushAll(old(State()), txnum)
    {
      ghost var s0 := State();
      ghost var flushed := FlushFrames(s0.frames, txnum);
      for i := 0 to bufferpool.Length
        invariant forall j :: 0 <= j < i ==> bufferpool[j] == flushed[j]
        invariant forall j :: i <= j < bufferpool.Length ==> bufferpool[j] == s0.frames[j]
        invariant diskWrites == s0.writes + DirtyWrites(s0.frames[..i], txnum)
      {
        DirtyWritesSnoc(s0.writes, s0.frames, i, txnum);
        if bufferpool[i].IsModifiedBy(txnum) {
          diskWrites := diskWrites + FlushWrites(bufferpool[i]);
          bufferpool[i] := Flushed(bufferpool[i]);
        }
        assert bufferpool[i] == flushed[i];
      }
      assert s0.frames[..bufferpool.Length] == s0.frames;
      assert bufferpool[..] == flushed;
      FlushAllKeepsInv(s0, txnum);
    }

    /**
     * Pins a frame to `blk`: the frame already holding it, or a victim of the
     * clock search loaded with `onDisk` (the block's disk image). None when
     * the search finds no victim.
     */
    method Pin(blk: Block, onDisk: Page) returns (buff: Option<nat>)
      requires Valid()
      modifies this, bufferpool
      ensures Valid()
      ensures PinResult(State(), buff) == PoolSpec.Pin(old(State()), blk, onDisk, defaultRefCount)
    {
      ghost var s0 := State();
      var i: nat;
      buff := FindExistingBuffer(blk);
      if buff.None? {
        buff := ChooseUnpinnedBuffer();
        if buff.None? {
          ChooseUnpinnedKeepsInv(s0);
          return;
        }
        i := buff.value;
        ghost var c := State();
        // initRefCount, then assignToBlock: flush the old contents, read the new block
        diskWrites := diskWrites + FlushWrites(bufferpool[i]);
        bufferpool[i] := Buffer(Some(blk), 0, defaultRefCount, None, onDisk);
        assert State() == AssignToBlock(c, i, blk, onDisk, defaultRefCount);
      } else {
        i := buff.value;
      }
      ghost var t := State();
      if !bufferpool[i].IsPinned() {
        numAvailable := numAvailable - 1;
      }
      bufferpool[i] := bufferpool[i].(pins := bufferpool[i].pins + 1);
      bufferPoolMap := bufferPoolMap[blk := i];
      assert PinResult(State(), buff) == PinFrame(t, i, blk);
      PinKeepsInv(s0, blk, onDisk, defaultRefCount);
    }

    /**
     * Pins a frame to a new block of `filename`: a victim of the clock search
     * is formatted (`formatted` is the formatter's page) and appended to the
     * file, which calls it block `newBlockNum`. None, with nothing allocated,
     * when the search finds no victim.
     */
    method PinNew(filename: string, newBlockNum: int, formatted: Page) returns (buff: Option<nat>)
      requires Valid()
      modifies this, bufferpool
      ensures Valid()
      ensures PinResult(State(), buff) == PoolSpec.PinNew(old(State()), filename, newBlockNum, formatted)
    {
      ghost var s0 := State();
      buff := ChooseUnpinnedBuffer();
      if buff.None? {
        ChooseUnpinnedKeepsInv(s0);
        return;
      }
      var i := buff.value;
      ChooseUnpinnedOutcome(s0);
      ghost var c := State();
      // assignToNew: flush the old contents, format the page, append it as a new block
      var blk := Block(filename, newBlockNum);
      diskWrites := diskWrites + FlushWrites(bufferpool[i]);
      bufferpool[i] := Buffer(Some(blk), 0, bufferpool[i].referenceValue, None, formatted);
      assert State() == AssignToBlock(c, i, blk, formatted, c.frames[i].referenceValue);
      diskWrites := diskWrites + [DiskWrite(blk, formatted)];
      ghost var t := State();
      numAvailable := numAvailable - 1;
      bufferpool[i] := bufferpool[i].(pins := bufferpool[i].pins + 1);
      bufferPoolMap := bufferPoolMap[blk := i];
      assert PinResult(State(), buff) == PinFrame(t, i, blk);
      PinNewKeepsInv(s0, filename, newBlockNum, formatted);
    }

    /** Drops one pin of frame `buff`; a frame left with none gets its credits back and is free again. */
    method Unpin(buff: nat)
      requires Valid() && buff < bufferpool.Length && bufferpool[buff].IsPinned()
      modifies this`numAvailable, bufferpool
      ensures Valid()
      ensures State() == PoolSpec.Unpin(old(State()), buff, defaultRefCount)
    {
      ghost var s0 := State();
      bufferpool[buff] := bufferpool[buff].(pins := bufferpool[buff].pins - 1);
      if !bufferpool[buff].IsPinned() {
        bufferpool[buff] := bufferpool[buff].(referenceValue := defaultRefCount);
        numAvailable := numAvailable + 1;
      }
      assert State() == PoolSpec.Unpin(s0, buff, defaultRefCount);
      UnpinSpec(s0, buff, defaultRefCount);
    }

    /** The number of frames with no pins. */
    method Available() returns (n: int)
      requires Valid()
      ensures n == CountUnpinned(bufferpool[..])
      ensures 0 <= n <= bufferpool.Length
    {
      n := numAvailable;
    }

    /** The frame indexed under `blk`, if any; it holds `blk`. */
    method FindExistingBuffer(blk: Block) returns (buff: Option<nat>)
      requires Valid()
      ensures buff.Some? <==> blk in bufferPoolMap
      ensures buff.Some? ==> buff.value < bufferpool.Length && bufferpool[buff.value].block == Some(blk)
      ensures buff.Some? ==> buff.value == bufferPoolMap[blk]
    {
      buff := if blk in bufferPoolMap then Some(bufferPoolMap[blk]) else None;
    }

    /**
     * The GClock victim search: at most PASSES sweeps over the frames from
     * the clock hand; an unpinned frame with credits loses one, an unpinned
     * frame with none is the victim and its block leaves the index.
     */
    method ChooseUnpinnedBuffer() returns (buff: Option<nat>)
      requires ClockInRange(State())
      modifies this`clockPosition, this`bufferPoolMap, bufferpool
      ensures PinResult(State(), buff) == ChooseUnpinned(old(State()))
    {
      ghost var s0 := State();
      ghost var n := bufferpool.Length;
      ghost var goal := Scan(s0.frames, s0.clockPosition, PASSES * n);
      ghost var rem: nat := PASSES * n;
      var count := 0;
      while count < PASSES
        invariant count <= PASSES && rem == (PASSES - count) * n
        invariant if n == 0 then clockPosition == 0 else clockPosition < n
        invariant bufferPoolMap == s0.index
        invariant goal == Scan(bufferpool[..], clockPosition, rem)
      {
        MulSucc(PASSES - count - 1, n);
        ghost var later: nat := (PASSES - count - 1) * n;
        var count1 := 0;
        while count1 < bufferpool.Length
          invariant count1 <= n && rem == later + (n - count1)
          invariant if n == 0 then clockPosition == 0 else clockPosition < n
          invariant bufferPoolMap == s0.index
          invariant goal == Scan(bufferpool[..], clockPosition, rem)
        {
          ghost var fs := bufferpool[..];
          ghost var pos := clockPosition;
          ScanVisit(fs, pos, rem);
          var f := bufferpool[clockPosition];
          if !f.IsPinned() {
            if !f.IsReferenced() {
              if f.block.Some? {
                bufferPoolMap := bufferPoolMap - {f.block.value};
              }
              assert goal == Chosen(bufferpool[..], clockPosition);
              return Some(clockPosition);
            }
            bufferpool[clockPosition] := f.(referenceValue := f.referenceValue - 1);
            assert bufferpool[..] == fs[pos := Decayed(f, 1)];
          } else {
            assert fs[pos := Decayed(f, 1)] == fs;
          }
          clockPosition := Next(clockPosition, bufferpool.Length);
          count1 := count1 + 1;
          rem := rem - 1;
        }
        count := count + 1;
      }
      assert goal == Exhausted(bufferpool[..], clockPosition);
      return None;
    }

    /** Whether the index has an entry for `blk`. */
    method ContainsMapping(blk: Block) returns (b: bool)
      requires Valid()
      ensures b <==> blk in bufferPoolMap
      ensures b ==> Cached(State(), blk)
      ensures Coherent(State()) ==> (b <==> Cached(State(), blk))
    {
      b := blk in bufferPoolMap;
      if b {
        assert bufferpool[..][bufferPoolMap[blk]].block == Some(blk);
      } else if Coherent(State()) {
        IndexedIffCached(State(), blk);
      }
    }

    /** The frame the index sends `blk` to, if any; present exactly when ContainsMapping holds. */
    method GetMapping(blk: Block) returns (buff: Option<nat>)
      requires Valid()
      ensures buff.Some? <==> blk in bufferPoolMap
      ensures buff.Some? ==> buff.value == bufferPoolMap[blk] && buff.value < bufferpool.Length &&
                             bufferpool[buff.value].block == Some(blk)
      ensures Coherent(State()) ==> (buff.Some? <==> Cached(State(), blk))
    {
      buff := if blk in bufferPoolMap then Some(bufferPoolMap[blk]) else None;
      if Coherent(State()) {
        IndexedIffCached(State(), blk);
      }
    }

    /** restoreBlock on frame `buff`: its page image becomes `saved`. */
    method RestoreBlock(buff: nat, saved: Page)
      requires Valid() && buff < bufferpool.Length
      modifies bufferpool
      ensures Valid()
      ensures State() == Restore(old(State()), buff, saved)
    {
      ghost var s0 := State();
      bufferpool[buff] := bufferpool[buff].(contents := saved);
      RestoreSpec(s0, buff, saved);
    }
  }
}
