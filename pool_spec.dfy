/**
 * The buffer pool as a value, and each operation of the buffer manager as a
 * function from the pool before to the pool after (and the frame handed out).
 * The class BufferPool.BasicBufferMgr is proved to follow these functions;
 * the lemmas here state what the operations promise.
 *
 * A frame is named by its slot in the pool; the index maps a block to the slot
 * of the frame holding it.
 */
module PoolSpec {
  import opened Wrappers
  import opened Buffers
  import opened GClock

  datatype PoolState = PoolState(
    frames: seq<Buffer>,
    numAvailable: int,
    clockPosition: nat,
    index: map<Block, nat>,
    writes: seq<DiskWrite>)

  /** What pin and pinNew return: the new pool and the frame handed out, or None for Java's null. */
  datatype PinResult = PinResult(state: PoolState, buff: Option<nat>)

  /** The number of frames with no pins. */
  function CountUnpinned(fs: seq<Buffer>): (c: nat)
    ensures c <= |fs|
  {
    if fs == [] then 0 else (if fs[0].IsPinned() then 0 else 1) + CountUnpinned(fs[1..])
  }

  ghost predicate ClockInRange(s: PoolState) {
    if |s.frames| == 0 then s.clockPosition == 0 else s.clockPosition < |s.frames|
  }

  /** Every index entry names a frame that holds that block. */
  ghost predicate IndexSound(index: map<Block, nat>, fs: seq<Buffer>) {
    forall b :: b in index ==> index[b] < |fs| && fs[index[b]].block == Some(b)
  }

  /** The buffer manager's invariant. */
  ghost predicate Inv(s: PoolState) {
    ClockInRange(s) &&
    s.numAvailable == CountUnpinned(s.frames) &&
    IndexSound(s.index, s.frames) &&
    forall j :: 0 <= j < |s.frames| ==> s.frames[j].DirtyHasBlock()
  }

  /** The converse of IndexSound: every frame holding a block is indexed under it. */
  ghost predicate Coherent(s: PoolState) {
    forall j :: 0 <= j < |s.frames| && s.frames[j].block.Some? ==>
      s.frames[j].block.value in s.index && s.index[s.frames[j].block.value] == j
  }

  /** Some frame of the pool holds `blk`. */
  ghost predicate Cached(s: PoolState, blk: Block) {
    exists j :: 0 <= j < |s.frames| && s.frames[j].block == Some(blk)
  }

  // ---------------------------------------------------------------------------
  // Operations
  // ---------------------------------------------------------------------------

  /** A new manager with `numbuffs` fresh frames. */
  function Init(numbuffs: nat): (s: PoolState)
    ensures |s.frames| == numbuffs && Inv(s)
  {
    var fs := seq(numbuffs, _ => FRESH_BUFFER);
    CountZero(fs);
    PoolState(fs, numbuffs, 0, map[], [])
  }

  /** The index with the entry for `evicted` removed; `remove(null)` leaves it as it is. */
  function Unmapped(index: map<Block, nat>, evicted: Option<Block>): map<Block, nat> {
    if evicted.Some? then index - {evicted.value} else index
  }

  /** chooseUnpinnedBuffer: run the GClock search; a victim's old block leaves the index. */
  function ChooseUnpinned(s: PoolState): (r: PinResult)
    requires ClockInRange(s)
    ensures |r.state.frames| == |s.frames| && r.state.numAvailable == s.numAvailable && r.state.writes == s.writes
    ensures r.buff.Some? ==>
      r.buff.value < |s.frames| && r.state.clockPosition == r.buff.value && Evictable(r.state.frames[r.buff.value])
    ensures r.buff.None? ==> r.state.index == s.index
  {
    match Scan(s.frames, s.clockPosition, PASSES * |s.frames|)
    case Chosen(fs, p) =>
      PinResult(s.(frames := fs, clockPosition := p, index := Unmapped(s.index, fs[p].block)), Some(p))
    case Exhausted(fs, p) =>
      PinResult(s.(frames := fs, clockPosition := p), None)
  }

  /** initRefCount then assignToBlock on slot `i`: flush it, load `blk` from `onDisk`, reset its credits. */
  function AssignToBlock(s: PoolState, i: nat, blk: Block, onDisk: Page, defaultRefCount: nat): PoolState
    requires i < |s.frames|
  {
    s.(frames := s.frames[i := Buffer(Some(blk), 0, defaultRefCount, None, onDisk)],
       writes := s.writes + FlushWrites(s.frames[i]))
  }

  /** The shared tail of pin: count the frame as taken if it was free, pin it, index `blk` to it. */
  function PinFrame(s: PoolState, i: nat, blk: Block): PinResult
    requires i < |s.frames|
  {
    var f := s.frames[i];
    PinResult(
      s.(frames := s.frames[i := f.(pins := f.pins + 1)],
         numAvailable := if f.IsPinned() then s.numAvailable else s.numAvailable - 1,
         index := s.index[blk := i]),
      Some(i))
  }

  /** pin(blk): reuse the indexed frame, or evict one and load `blk` (whose disk image is `onDisk`). */
  function Pin(s: PoolState, blk: Block, onDisk: Page, defaultRefCount: nat): (r: PinResult)
    requires Inv(s)
    ensures |r.state.frames| == |s.frames|
    ensures blk in s.index ==> r.buff == Some(s.index[blk])
    ensures r.buff.Some? ==>
      var i := r.buff.value;
      i < |r.state.frames| && r.state.frames[i].block == Some(blk) && r.state.frames[i].IsPinned() &&
      blk in r.state.index && r.state.index[blk] == i
  {
    if blk in s.index then PinFrame(s, s.index[blk], blk)
    else
      var c := ChooseUnpinned(s);
      if c.buff.None? then c
      else PinFrame(AssignToBlock(c.state, c.buff.value, blk, onDisk, defaultRefCount), c.buff.value, blk)
  }

  /**
   * pinNew(filename, fmtr): evict a frame, format it (`formatted` is the
   * formatter's page), append it to the file as block `newBlockNum`, pin it.
   */
  function PinNew(s: PoolState, filename: string, newBlockNum: int, formatted: Page): (r: PinResult)
    requires Inv(s)
    ensures |r.state.frames| == |s.frames|
    ensures r.buff.Some? ==>
      var i := r.buff.value; var blk := Block(filename, newBlockNum);
      i < |r.state.frames| && r.state.frames[i].block == Some(blk) && r.state.frames[i].pins == 1 &&
      r.state.frames[i].contents == formatted && blk in r.state.index && r.state.index[blk] == i
  {
    var c := ChooseUnpinned(s);
    if c.buff.None? then c
    else
      var i := c.buff.value;
      var blk := Block(filename, newBlockNum);
      // assignToNew: flush the victim, format its page, append it to the file; its credits stay
      var t := AssignToBlock(c.state, i, blk, formatted, c.state.frames[i].referenceValue);
      PinFrame(t.(writes := t.writes + [DiskWrite(blk, formatted)]), i, blk)
  }

  /** unpin(buff): drop one pin; a frame left with none gets its credits back and is free again. */
  function Unpin(s: PoolState, i: nat, defaultRefCount: nat): (r: PoolState)
    requires i < |s.frames| && s.frames[i].IsPinned()
    ensures |r.frames| == |s.frames| && r.index == s.index && r.writes == s.writes
    ensures r.frames[i].pins + 1 == s.frames[i].pins && r.frames[i].block == s.frames[i].block
    ensures forall j :: 0 <= j < |s.frames| && j != i ==> r.frames[j] == s.frames[j]
  {
    var f := s.frames[i].(pins := s.frames[i].pins - 1);
    if f.IsPinned() then s.(frames := s.frames[i := f])
    else s.(frames := s.frames[i := f.(referenceValue := defaultRefCount)], numAvailable := s.numAvailable + 1)
  }

  /** The frames after flushAll(txnum): those dirtied by `txnum` are clean. */
  function FlushFrames(fs: seq<Buffer>, txnum: int): (gs: seq<Buffer>)
    ensures |gs| == |fs|
  {
    seq(|fs|, j requires 0 <= j < |fs| => if fs[j].IsModifiedBy(txnum) then Flushed(fs[j]) else fs[j])
  }

  /** The disk writes of flushAll(txnum), in frame order. */
  function DirtyWrites(fs: seq<Buffer>, txnum: int): seq<DiskWrite> {
    if fs == [] then []
    else
      var f := fs[|fs| - 1];
      DirtyWrites(fs[..|fs| - 1], txnum) + (if f.IsModifiedBy(txnum) then FlushWrites(f) else [])
  }

  /** flushAll(txnum). */
  function FlushAll(s: PoolState, txnum: int): (r: PoolState)
    ensures |r.frames| == |s.frames| && r.index == s.index && r.numAvailable == s.numAvailable
    ensures forall j :: 0 <= j < |r.frames| ==> !r.frames[j].IsModifiedBy(txnum)
  {
    s.(frames := FlushFrames(s.frames, txnum), writes := s.writes + DirtyWrites(s.frames, txnum))
  }

  /** restoreBlock on slot `i`: its page image becomes `saved`. */
  function Restore(s: PoolState, i: nat, saved: Page): PoolState
    requires i < |s.frames|
  {
    s.(frames := s.frames[i := s.frames[i].(contents := saved)])
  }

  // ---------------------------------------------------------------------------
  // Counting free frames
  // ---------------------------------------------------------------------------

  function Free(f: Buffer): nat {
    if f.IsPinned() then 0 else 1
  }

  /** Replacing one frame changes the free count by the change in that frame's freedom. */
  lemma {:induction false} CountUpdate(fs: seq<Buffer>, i: nat, f: Buffer)
    requires i < |fs|
    ensures CountUnpinned(fs[i := f]) == CountUnpinned(fs) - Free(fs[i]) + Free(f)
    decreases |fs|
  {
    if i > 0 {
      assert fs[i := f][1..] == fs[1..][i - 1 := f];
      CountUpdate(fs[1..], i - 1, f);
    } else {
      assert fs[i := f][1..] == fs[1..];
    }
  }

  /** Frames that agree on being pinned give the same free count. */
  lemma {:induction false} CountSamePins(fs: seq<Buffer>, gs: seq<Buffer>)
    requires |fs| == |gs|
    requires forall j :: 0 <= j < |fs| ==> fs[j].pins == gs[j].pins
    ensures CountUnpinned(fs) == CountUnpinned(gs)
    decreases |fs|
  {
    if fs != [] {
      CountSamePins(fs[1..], gs[1..]);
    }
  }

  /** No frame is free exactly when every frame is pinned. */
  lemma {:induction false} CountZero(fs: seq<Buffer>)
    ensures CountUnpinned(fs) == 0 <==> forall j :: 0 <= j < |fs| ==> fs[j].IsPinned()
    ensures CountUnpinned(fs) == |fs| <==> forall j :: 0 <= j < |fs| ==> !fs[j].IsPinned()
    decreases |fs|
  {
    if fs != [] {
      CountZero(fs[1..]);
      assert forall j :: 1 <= j < |fs| ==> fs[j] == fs[1..][j - 1];
    }
  }

  // ---------------------------------------------------------------------------
  // Construction
  // ---------------------------------------------------------------------------

  /** A new manager: `numbuffs` fresh frames, all free, an empty index, the clock at 0. */
  lemma InitValid(numbuffs: nat)
    ensures var s := Init(numbuffs);
      Inv(s) && Coherent(s) && |s.frames| == numbuffs && s.numAvailable == numbuffs &&
      s.index == map[] && s.clockPosition == 0 &&
      forall j :: 0 <= j < numbuffs ==> s.frames[j] == FRESH_BUFFER
  {
    CountZero(Init(numbuffs).frames);
  }

  // ---------------------------------------------------------------------------
  // The victim search
  // ---------------------------------------------------------------------------

  /**
   * chooseUnpinnedBuffer keeps the invariant and every pin count; it fails
   * exactly when every unpinned frame has at least PASSES credits, and then
   * leaves the index, the clock and the free count as they were. A victim is
   * unpinned, has no credits, and its old block is no longer indexed.
   */
  lemma ChooseUnpinnedSpec(s: PoolState)
    requires Inv(s)
    ensures var c := ChooseUnpinned(s);
      Inv(c.state) && (Coherent(s) && c.buff.None? ==> Coherent(c.state)) &&
      SameButReferences(s.frames, c.state.frames) &&
      c.state.numAvailable == s.numAvailable && c.state.writes == s.writes &&
      (c.buff.None? <==> ReferenceProtected(s.frames, PASSES)) &&
      (c.buff.None? ==> c.state.index == s.index && c.state.clockPosition == s.clockPosition &&
                        c.state.frames == DecayAll(s.frames, PASSES)) &&
      (c.buff.Some? ==> c.buff.value < |s.frames| && c.state.clockPosition == c.buff.value &&
                        !c.state.frames[c.buff.value].IsPinned() &&
                        c.state.frames[c.buff.value].referenceValue == 0 &&
                        c.state.index == Unmapped(s.index, s.frames[c.buff.value].block))
  {
    ChooseUnpinnedKeepsInv(s);
    ChooseUnpinnedOutcome(s);
  }

  /**
   * The search keeps the invariant: it touches only reference values and
   * drops at most the victim's index entry (so the index stays complete only
   * when there is no victim; the victim's old block is indexed no more).
   */
  lemma ChooseUnpinnedKeepsInv(s: PoolState)
    requires Inv(s)
    ensures var c := ChooseUnpinned(s);
      Inv(c.state) && (Coherent(s) && c.buff.None? ==> Coherent(c.state)) &&
      SameButReferences(s.frames, c.state.frames) &&
      c.state.numAvailable == s.numAvailable && c.state.writes == s.writes
  {
    var n := |s.frames|;
    var r := Scan(s.frames, s.clockPosition, PASSES * n);
    ScanOnlyDecays(s.frames, s.clockPosition, PASSES * n);
    CountSamePins(s.frames, r.frames);
  }

  /** When the search fails and what a victim looks like. */
  lemma ChooseUnpinnedOutcome(s: PoolState)
    requires Inv(s)
    ensures var c := ChooseUnpinned(s);
      (c.buff.None? <==> ReferenceProtected(s.frames, PASSES)) &&
      (c.buff.None? ==> c.state.index == s.index && c.state.clockPosition == s.clockPosition &&
                        c.state.frames == DecayAll(s.frames, PASSES)) &&
      (c.buff.Some? ==> c.buff.value < |s.frames| && c.state.clockPosition == c.buff.value &&
                        !c.state.frames[c.buff.value].IsPinned() &&
                        c.state.frames[c.buff.value].referenceValue == 0 &&
                        c.state.index == Unmapped(s.index, s.frames[c.buff.value].block))
  {
    var n := |s.frames|;
    var r := Scan(s.frames, s.clockPosition, PASSES * n);
    ScanOnlyDecays(s.frames, s.clockPosition, PASSES * n);
    if n > 0 {
      GClockExhaustion(s.frames, s.clockPosition, PASSES);
    } else {
      assert r.frames == s.frames == DecayAll(s.frames, PASSES);
    }
  }

  /**
   * Which frame chooseUnpinnedBuffer picks: whenever some unpinned frame has
   * no credits, the victim is the first such frame the hand reaches from
   * where it stands, in the first sweep. The frames the hand passed lost one
   * credit each if unpinned, every other frame is as it was, the hand rests
   * on the victim and only its old block leaves the index.
   */
  lemma ChooseUnpinnedFirst(s: PoolState, q: nat)
    requires ClockInRange(s) && q < |s.frames| && Evictable(s.frames[q])
    ensures exists p: nat :: FirstEvictable(s.frames, s.clockPosition, p)
    ensures forall p: nat :: FirstEvictable(s.frames, s.clockPosition, p) ==>
      ChooseUnpinned(s) == PinResult(
        s.(frames := DecayPassed(s.frames, s.clockPosition, p), clockPosition := p,
           index := Unmapped(s.index, s.frames[p].block)),
        Some(p))
  {
    var n := |s.frames|;
    FirstEvictableExists(s.frames, s.clockPosition, q);
    forall p: nat | FirstEvictable(s.frames, s.clockPosition, p)
      ensures ChooseUnpinned(s) == PinResult(
        s.(frames := DecayPassed(s.frames, s.clockPosition, p), clockPosition := p,
           index := Unmapped(s.index, s.frames[p].block)),
        Some(p))
    {
      MulSucc(PASSES - 1, n);
      ScanFindsFirst(s.frames, s.clockPosition, p, PASSES * n);
    }
  }

  /** Removing the victim's own block keeps every other frame indexed. */
  lemma UnmapKeepsCoherent(s: PoolState, t: PoolState, p: nat)
    requires Coherent(s) && p < |s.frames|
    requires SameButReferences(s.frames, t.frames)
    requires t.index == Unmapped(s.index, s.frames[p].block)
    ensures forall j :: 0 <= j < |t.frames| && j != p && t.frames[j].block.Some? ==>
      t.frames[j].block.value in t.index && t.index[t.frames[j].block.value] == j
  {
  }

  // ---------------------------------------------------------------------------
  // pin
  // ---------------------------------------------------------------------------

  /** Loading a block into an unindexed, unpinned victim keeps the invariant. */
  lemma AssignKeepsInv(s: PoolState, i: nat, blk: Block, onDisk: Page, rc: nat)
    requires Inv(s) && i < |s.frames| && !s.frames[i].IsPinned()
    requires forall b :: b in s.index ==> s.index[b] != i
    ensures var t := AssignToBlock(s, i, blk, onDisk, rc);
      Inv(t) && (forall b :: b in t.index ==> t.index[b] != i)
  {
    var t := AssignToBlock(s, i, blk, onDisk, rc);
    CountUpdate(s.frames, i, t.frames[i]);
  }

  /** Pinning a frame that holds `blk` keeps the invariant. */
  lemma PinFrameKeepsInv(s: PoolState, i: nat, blk: Block)
    requires Inv(s) && i < |s.frames| && s.frames[i].block == Some(blk)
    ensures Inv(PinFrame(s, i, blk).state)
  {
    var f := s.frames[i];
    CountUpdate(s.frames, i, f.(pins := f.pins + 1));
  }

  /** pin keeps the invariant, and keeps the index complete when it was. */
  lemma PinKeepsInv(s: PoolState, blk: Block, onDisk: Page, rc: nat)
    requires Inv(s)
    ensures var r := Pin(s, blk, onDisk, rc);
      Inv(r.state) && (Coherent(s) ==> Coherent(r.state))
  {
    if blk in s.index {
      PinFrameKeepsInv(s, s.index[blk], blk);
    } else {
      ChooseUnpinnedSpec(s);
      var c := ChooseUnpinned(s);
      if c.buff.Some? {
        var i := c.buff.value;
        AssignKeepsInv(c.state, i, blk, onDisk, rc);
        PinFrameKeepsInv(AssignToBlock(c.state, i, blk, onDisk, rc), i, blk);
        if Coherent(s) {
          PinMissKeepsCoherent(s, blk, onDisk, rc);
        }
      }
    }
  }

  /** Loading a block that was not indexed leaves every cached block indexed to its frame. */
  lemma PinMissKeepsCoherent(s: PoolState, blk: Block, onDisk: Page, rc: nat)
    requires Inv(s) && Coherent(s) && blk !in s.index
    ensures Coherent(Pin(s, blk, onDisk, rc).state)
  {
    ChooseUnpinnedKeepsInv(s);
    ChooseUnpinnedOutcome(s);
    var c := ChooseUnpinned(s);
    if c.buff.Some? {
      var i := c.buff.value;
      var r := Pin(s, blk, onDisk, rc);
      UnmapKeepsCoherent(s, c.state, i);
      forall j | 0 <= j < |r.state.frames| && r.state.frames[j].block.Some?
        ensures r.state.frames[j].block.value in r.state.index
        ensures r.state.index[r.state.frames[j].block.value] == j
      {
        if j != i {
          assert r.state.frames[j].block == s.frames[j].block;
          assert r.state.frames[j].block != Some(blk);
        }
      }
    }
  }

  /**
   * A block already indexed is served from its frame: no search, no disk
   * traffic, the same frame with one more pin, the free count lowered only
   * when the frame had no pins.
   */
  lemma PinHit(s: PoolState, blk: Block, onDisk: Page, rc: nat)
    requires Inv(s) && blk in s.index
    ensures var r := Pin(s, blk, onDisk, rc); var i := s.index[blk];
      r.buff == Some(i) &&
      r.state.frames == s.frames[i := s.frames[i].(pins := s.frames[i].pins + 1)] &&
      r.state.numAvailable == s.numAvailable - (if s.frames[i].IsPinned() then 0 else 1) &&
      r.state.index == s.index && r.state.clockPosition == s.clockPosition && r.state.writes == s.writes
  {
  }

  /**
   * After a successful pin the returned frame holds `blk`, has one more pin
   * than before (a victim had none) and the index sends `blk` to it.
   */
  lemma PinSuccess(s: PoolState, blk: Block, onDisk: Page, rc: nat)
    requires Inv(s)
    ensures var r := Pin(s, blk, onDisk, rc);
      r.buff.Some? ==>
        var i := r.buff.value;
        i < |s.frames| && i < |r.state.frames| &&
        r.state.frames[i].block == Some(blk) && blk in r.state.index && r.state.index[blk] == i &&
        r.state.frames[i].pins == (if blk in s.index then s.frames[i].pins else 0) + 1 &&
        r.state.numAvailable == s.numAvailable - (if blk in s.index && s.frames[i].IsPinned() then 0 else 1)
  {
    if blk !in s.index {
      ChooseUnpinnedSpec(s);
    }
  }

  /**
   * pin fails exactly when `blk` is not indexed and every unpinned frame has
   * at least PASSES credits; a failed pin assigns no block, writes nothing and
   * leaves the index, the clock, every pin count and the free count as they were.
   */
  lemma PinFailure(s: PoolState, blk: Block, onDisk: Page, rc: nat)
    requires Inv(s)
    ensures var r := Pin(s, blk, onDisk, rc);
      (r.buff.None? <==> blk !in s.index && ReferenceProtected(s.frames, PASSES)) &&
      (r.buff.None? ==>
        r.state.index == s.index && r.state.clockPosition == s.clockPosition &&
        r.state.writes == s.writes && r.state.numAvailable == s.numAvailable &&
        SameButReferences(s.frames, r.state.frames))
  {
    if blk !in s.index {
      ChooseUnpinnedSpec(s);
    }
  }

  /** With every frame pinned, pinning an unindexed block fails (after a bounded search). */
  lemma PinAllPinnedFails(s: PoolState, blk: Block, onDisk: Page, rc: nat)
    requires Inv(s) && blk !in s.index && s.numAvailable == 0
    ensures Pin(s, blk, onDisk, rc).buff.None?
  {
    CountZero(s.frames);
    PinFailure(s, blk, onDisk, rc);
  }

  // ---------------------------------------------------------------------------
  // pinNew
  // ---------------------------------------------------------------------------

  /**
   * pinNew keeps the invariant; it keeps the index complete when the new block
   * was not already cached. It fails exactly when the search does, and then
   * allocates nothing: no disk write, no index change, no pin change.
   * On success the new block is indexed to a frame with exactly one pin, the
   * free count drops by one and the formatted page is the last disk write.
   */
  lemma PinNewSpec(s: PoolState, filename: string, newBlockNum: int, formatted: Page)
    requires Inv(s)
    ensures var r := PinNew(s, filename, newBlockNum, formatted); var blk := Block(filename, newBlockNum);
      Inv(r.state) &&
      (Coherent(s) && !Cached(s, blk) ==> Coherent(r.state)) &&
      (r.buff.None? <==> ReferenceProtected(s.frames, PASSES)) &&
      (r.buff.None? ==>
        r.state.index == s.index && r.state.writes == s.writes && r.state.numAvailable == s.numAvailable &&
        r.state.clockPosition == s.clockPosition && SameButReferences(s.frames, r.state.frames)) &&
      (r.buff.Some? ==>
        var i := r.buff.value;
        i < |r.state.frames| && r.state.frames[i].block == Some(blk) && r.state.frames[i].pins == 1 &&
        blk in r.state.index && r.state.index[blk] == i && r.state.numAvailable == s.numAvailable - 1 &&
        |r.state.writes| > 0 && r.state.writes[|r.state.writes| - 1] == DiskWrite(blk, formatted))
  {
    PinNewKeepsInv(s, filename, newBlockNum, formatted);
    PinNewOutcome(s, filename, newBlockNum, formatted);
    if Coherent(s) && !Cached(s, Block(filename, newBlockNum)) {
      PinNewKeepsCoherent(s, filename, newBlockNum, formatted);
    }
  }

  /** pinNew keeps the invariant. */
  lemma PinNewKeepsInv(s: PoolState, filename: string, newBlockNum: int, formatted: Page)
    requires Inv(s)
    ensures Inv(PinNew(s, filename, newBlockNum, formatted).state)
  {
    ChooseUnpinnedSpec(s);
    var c := ChooseUnpinned(s);
    if c.buff.Some? {
      var i := c.buff.value;
      var blk := Block(filename, newBlockNum);
      var t := AssignToBlock(c.state, i, blk, formatted, c.state.frames[i].referenceValue);
      AssignKeepsInv(c.state, i, blk, formatted, c.state.frames[i].referenceValue);
      PinFrameKeepsInv(t.(writes := t.writes + [DiskWrite(blk, formatted)]), i, blk);
    }
  }

  /** When pinNew fails, and what it changes when it does not. */
  lemma PinNewOutcome(s: PoolState, filename: string, newBlockNum: int, formatted: Page)
    requires Inv(s)
    ensures var r := PinNew(s, filename, newBlockNum, formatted); var blk := Block(filename, newBlockNum);
      (r.buff.None? <==> ReferenceProtected(s.frames, PASSES)) &&
      (r.buff.None? ==>
        r.state.index == s.index && r.state.writes == s.writes && r.state.numAvailable == s.numAvailable &&
        r.state.clockPosition == s.clockPosition && SameButReferences(s.frames, r.state.frames)) &&
      (r.buff.Some? ==>
        var i := r.buff.value;
        i < |r.state.frames| && r.state.frames[i].block == Some(blk) && r.state.frames[i].pins == 1 &&
        blk in r.state.index && r.state.index[blk] == i && r.state.numAvailable == s.numAvailable - 1 &&
        |r.state.writes| > 0 && r.state.writes[|r.state.writes| - 1] == DiskWrite(blk, formatted))
  {
    ChooseUnpinnedKeepsInv(s);
    ChooseUnpinnedOutcome(s);
  }

  /** A block new to the pool, indexed to the victim, leaves every cached block indexed to its frame. */
  lemma PinNewKeepsCoherent(s: PoolState, filename: string, newBlockNum: int, formatted: Page)
    requires Inv(s) && Coherent(s) && !Cached(s, Block(filename, newBlockNum))
    ensures Coherent(PinNew(s, filename, newBlockNum, formatted).state)
  {
    ChooseUnpinnedKeepsInv(s);
    ChooseUnpinnedOutcome(s);
    var c := ChooseUnpinned(s);
    if c.buff.Some? {
      var i := c.buff.value;
      var r := PinNew(s, filename, newBlockNum, formatted);
      var blk := Block(filename, newBlockNum);
      UnmapKeepsCoherent(s, c.state, i);
      forall j | 0 <= j < |r.state.frames| && r.state.frames[j].block.Some?
        ensures r.state.frames[j].block.value in r.state.index
        ensures r.state.index[r.state.frames[j].block.value] == j
      {
        if j != i {
          assert r.state.frames[j].block == s.frames[j].block;
          assert r.state.frames[j].block != Some(blk);
        }
      }
    }
  }

  // ---------------------------------------------------------------------------
  // unpin
  // ---------------------------------------------------------------------------

  /**
   * unpin keeps the invariant and the index; the free count rises exactly when
   * the frame's last pin goes, and only then are its credits reset.
   */
  lemma UnpinSpec(s: PoolState, i: nat, rc: nat)
    requires Inv(s) && i < |s.frames| && s.frames[i].IsPinned()
    ensures var t := Unpin(s, i, rc);
      Inv(t) && (Coherent(s) ==> Coherent(t)) &&
      t.index == s.index && t.clockPosition == s.clockPosition && t.writes == s.writes &&
      t.frames[i].pins == s.frames[i].pins - 1 &&
      t.numAvailable == s.numAvailable + (if s.frames[i].pins == 1 then 1 else 0) &&
      t.frames[i].referenceValue == (if s.frames[i].pins == 1 then rc else s.frames[i].referenceValue)
  {
    CountUpdate(s.frames, i, Unpin(s, i, rc).frames[i]);
  }

  /**
   * Pinning a block twice gives the same frame twice; one unpin leaves it
   * pinned, the second returns its pin count and the free count to where
   * they were before the first pin.
   */
  lemma PinTwiceUnpinTwice(s: PoolState, blk: Block, onDisk: Page, rc: nat, i: nat)
    requires Inv(s) && Pin(s, blk, onDisk, rc).buff == Some(i)
    ensures var r1 := Pin(s, blk, onDisk, rc).state;
      Inv(r1) && i < |s.frames| &&
      var r2 := Pin(r1, blk, onDisk, rc);
      r2.buff == Some(i) && i < |r2.state.frames| && r2.state.frames[i].pins >= 2 &&
      var u1 := Unpin(r2.state, i, rc);
      u1.frames[i].IsPinned() &&
      var u2 := Unpin(u1, i, rc);
      u2.numAvailable == s.numAvailable &&
      u2.frames[i].pins == (if blk in s.index then s.frames[i].pins else 0)
  {
    PinKeepsInv(s, blk, onDisk, rc);
    PinSuccess(s, blk, onDisk, rc);
    var r1 := Pin(s, blk, onDisk, rc).state;
    PinHit(r1, blk, onDisk, rc);
    PinKeepsInv(r1, blk, onDisk, rc);
    var r2 := Pin(r1, blk, onDisk, rc);
    UnpinSpec(r2.state, i, rc);
    UnpinSpec(Unpin(r2.state, i, rc), i, rc);
  }

  // ---------------------------------------------------------------------------
  // flushAll
  // ---------------------------------------------------------------------------

  /** flushAll writes one image per frame dirtied by `txnum` (such a frame always holds a block). */
  lemma {:induction false} DirtyWritesCount(fs: seq<Buffer>, txnum: int)
    requires forall j :: 0 <= j < |fs| ==> fs[j].DirtyHasBlock()
    ensures |DirtyWrites(fs, txnum)| == |set j | 0 <= j < |fs| && fs[j].IsModifiedBy(txnum)|
    decreases |fs|
  {
    if fs != [] {
      var m := |fs| - 1;
      var init := fs[..m];
      DirtyWritesCount(init, txnum);
      var small := set j | 0 <= j < m && init[j].IsModifiedBy(txnum);
      var big := set j | 0 <= j < |fs| && fs[j].IsModifiedBy(txnum);
      if fs[m].IsModifiedBy(txnum) {
        assert big == small + {m};
      } else {
        assert big == small;
      }
    }
  }

  /** Every write of flushAll(txnum) is the page of a frame dirtied by `txnum`, to the block that frame holds. */
  lemma {:induction false} DirtyWritesFromDirty(fs: seq<Buffer>, txnum: int)
    ensures forall w :: w in DirtyWrites(fs, txnum) ==>
      exists j :: 0 <= j < |fs| && fs[j].IsModifiedBy(txnum) && fs[j].block == Some(w.block) && w.page == fs[j].contents
    decreases |fs|
  {
    if fs != [] {
      var m := |fs| - 1;
      var init := fs[..m];
      DirtyWritesFromDirty(init, txnum);
      forall w | w in DirtyWrites(fs, txnum)
        ensures exists j :: 0 <= j < |fs| && fs[j].IsModifiedBy(txnum) && fs[j].block == Some(w.block) && w.page == fs[j].contents
      {
        if w in DirtyWrites(init, txnum) {
          var j :| 0 <= j < m && init[j].IsModifiedBy(txnum) && init[j].block == Some(w.block) && w.page == init[j].contents;
          assert fs[j] == init[j];
        } else {
          assert fs[m].IsModifiedBy(txnum) && w == DiskWrite(fs[m].block.value, fs[m].contents);
        }
      }
    }
  }

  /** The writes of the first i + 1 frames are those of the first i, then frame i's. */
  lemma DirtyWritesSnoc(before: seq<DiskWrite>, fs: seq<Buffer>, i: nat, txnum: int)
    requires i < |fs|
    ensures before + DirtyWrites(fs[..i + 1], txnum) ==
      before + DirtyWrites(fs[..i], txnum) + (if fs[i].IsModifiedBy(txnum) then FlushWrites(fs[i]) else [])
  {
    assert fs[..i + 1][..i] == fs[..i];
  }

  /** After flushAll(txnum) no frame is dirtied by `txnum`, so a second flushAll writes nothing. */
  lemma {:induction false} FlushAllIdempotent(fs: seq<Buffer>, txnum: int)
    ensures DirtyWrites(FlushFrames(fs, txnum), txnum) == []
    ensures FlushFrames(FlushFrames(fs, txnum), txnum) == FlushFrames(fs, txnum)
    decreases |fs|
  {
    if fs != [] {
      var m := |fs| - 1;
      FlushAllIdempotent(fs[..m], txnum);
      assert FlushFrames(fs, txnum)[..m] == FlushFrames(fs[..m], txnum);
    }
  }

  /**
   * flushAll(txnum) cleans exactly the frames dirtied by `txnum` and leaves
   * every other frame, the index, the clock and the free count untouched.
   */
  lemma FlushAllSpec(s: PoolState, txnum: int)
    requires Inv(s)
    ensures var t := FlushAll(s, txnum);
      Inv(t) && (Coherent(s) ==> Coherent(t)) &&
      t.index == s.index && t.clockPosition == s.clockPosition && t.numAvailable == s.numAvailable &&
      |t.frames| == |s.frames| &&
      (forall j :: 0 <= j < |s.frames| ==>
        if s.frames[j].IsModifiedBy(txnum) then t.frames[j] == s.frames[j].(modifiedBy := None)
        else t.frames[j] == s.frames[j]) &&
      t.writes == s.writes + DirtyWrites(s.frames, txnum)
  {
    FlushAllKeepsInv(s, txnum);
  }

  /** flushAll keeps the pool invariant: it changes no pin count and only cleans frames. */
  lemma FlushAllKeepsInv(s: PoolState, txnum: int)
    requires Inv(s)
    ensures Inv(FlushAll(s, txnum))
  {
    CountSamePins(s.frames, FlushAll(s, txnum).frames);
  }

  // ---------------------------------------------------------------------------
  // Lookups
  // ---------------------------------------------------------------------------

  /** With a complete index, a block is indexed exactly when some frame holds it. */
  lemma IndexedIffCached(s: PoolState, blk: Block)
    requires Inv(s) && Coherent(s)
    ensures blk in s.index <==> Cached(s, blk)
  {
    if blk in s.index {
      assert s.frames[s.index[blk]].block == Some(blk);
    }
  }

  /** With a complete index, no two frames hold the same block. */
  lemma NoDuplicateBlocks(s: PoolState, i: nat, j: nat)
    requires Coherent(s) && i < |s.frames| && j < |s.frames| && i != j
    ensures s.frames[i].block.Some? ==> s.frames[i].block != s.frames[j].block
  {
  }

  /** restoreBlock changes only the page image of one frame. */
  lemma RestoreSpec(s: PoolState, i: nat, saved: Page)
    requires Inv(s) && i < |s.frames|
    ensures var t := Restore(s, i, saved);
      Inv(t) && (Coherent(s) ==> Coherent(t)) && t.frames[i].contents == saved &&
      t.frames[i].pins == s.frames[i].pins && t.frames[i].block == s.frames[i].block &&
      t.index == s.index && t.numAvailable == s.numAvailable && t.clockPosition == s.clockPosition
  {
    CountSamePins(s.frames, Restore(s, i, saved).frames);
  }
}
