/**
 * The generalized-clock (GClock) victim search of the buffer manager, as a
 * function of the frames, the clock position and the number of steps left.
 *
 * One step looks at the frame under the clock hand: an unpinned frame with no
 * reference credit is the victim; otherwise an unpinned frame loses one credit,
 * a pinned one is left alone, and the hand moves on (wrapping round). The
 * buffer manager runs PASSES sweeps of n steps each over its n frames.
 */
module GClock {
  import opened Buffers

  /** The number of full sweeps the search makes before giving up. */
  const PASSES: nat := 5

  /** How a search ends: with a victim under the hand, or with its steps used up. */
  datatype ScanOutcome =
    | Chosen(frames: seq<Buffer>, pos: nat)
    | Exhausted(frames: seq<Buffer>, pos: nat)

  predicate Evictable(f: Buffer) {
    !f.IsPinned() && !f.IsReferenced()
  }

  /** The clock hand after one step: `(pos + 1) % n`. */
  function Next(pos: nat, n: nat): (p: nat)
    requires pos < n
    ensures p < n
    ensures p == if pos + 1 < n then pos + 1 else 0
  {
    (pos + 1) % n
  }

  /** The search from `pos` with `steps` steps left. */
  function Scan(fs: seq<Buffer>, pos: nat, steps: nat): (r: ScanOutcome)
    requires pos < |fs| || steps == 0
    ensures |r.frames| == |fs|
    ensures pos < |fs| ==> r.pos < |fs|
    ensures r.Chosen? ==> r.pos < |fs| && Evictable(r.frames[r.pos])
    decreases steps
  {
    if steps == 0 then Exhausted(fs, pos)
    else if Evictable(fs[pos]) then Chosen(fs, pos)
    else Scan(fs[pos := Decayed(fs[pos], 1)], Next(pos, |fs|), steps - 1)
  }

  /** One step of the search: a victim under the hand, or a visit and the rest of the search from the next slot. */
  lemma ScanVisit(fs: seq<Buffer>, pos: nat, steps: nat)
    requires pos < |fs| && steps > 0
    ensures Evictable(fs[pos]) ==> Scan(fs, pos, steps) == Chosen(fs, pos)
    ensures !Evictable(fs[pos]) ==>
      Scan(fs, pos, steps) == Scan(fs[pos := Decayed(fs[pos], 1)], Next(pos, |fs|), steps - 1)
  {
  }

  /** `fs` and `gs` agree on every frame except, possibly, in their reference values. */
  ghost predicate SameButReferences(fs: seq<Buffer>, gs: seq<Buffer>) {
    |fs| == |gs| &&
    forall j :: 0 <= j < |fs| ==>
      gs[j].block == fs[j].block && gs[j].pins == fs[j].pins &&
      gs[j].modifiedBy == fs[j].modifiedBy && gs[j].contents == fs[j].contents
  }

  /** `gs` is `fs` after some decay: pinned frames untouched, reference values never raised. */
  ghost predicate DecayedFrom(fs: seq<Buffer>, gs: seq<Buffer>) {
    SameButReferences(fs, gs) &&
    forall j :: 0 <= j < |fs| ==>
      gs[j].referenceValue <= fs[j].referenceValue && (fs[j].IsPinned() ==> gs[j] == fs[j])
  }

  /**
   * The search changes nothing but the reference values of unpinned frames,
   * and those only downwards.
   */
  lemma {:induction false} ScanOnlyDecays(fs: seq<Buffer>, pos: nat, steps: nat)
    requires pos < |fs| || steps == 0
    ensures DecayedFrom(fs, Scan(fs, pos, steps).frames)
    decreases steps
  {
    if steps > 0 && !Evictable(fs[pos]) {
      var gs := fs[pos := Decayed(fs[pos], 1)];
      ScanOnlyDecays(gs, Next(pos, |fs|), steps - 1);
    }
  }

  /** Running `a` steps and then `b` more is running `a + b` steps. */
  lemma {:induction false} ScanSplit(fs: seq<Buffer>, pos: nat, a: nat, b: nat)
    requires pos < |fs|
    ensures var r := Scan(fs, pos, a);
      Scan(fs, pos, a + b) == if r.Chosen? then r else Scan(r.frames, r.pos, b)
    decreases a
  {
    if a > 0 && !Evictable(fs[pos]) {
      ScanSplit(fs[pos := Decayed(fs[pos], 1)], Next(pos, |fs|), a - 1, b);
    }
  }

  /** No frame with index in [lo, hi) is evictable. */
  ghost predicate Protected(fs: seq<Buffer>, lo: nat, hi: nat) {
    forall j :: lo <= j < hi && j < |fs| ==> !Evictable(fs[j])
  }

  /** Every frame with index in [lo, hi) visited once by the clock hand. */
  function DecayRange(fs: seq<Buffer>, lo: nat, hi: nat): (gs: seq<Buffer>)
    ensures |gs| == |fs|
    ensures forall j :: 0 <= j < |fs| ==> gs[j] == if lo <= j < hi then Decayed(fs[j], 1) else fs[j]
  {
    seq(|fs|, j requires 0 <= j < |fs| => if lo <= j < hi then Decayed(fs[j], 1) else fs[j])
  }

  /** Every frame visited `k` times by the clock hand. */
  function DecayAll(fs: seq<Buffer>, k: nat): (gs: seq<Buffer>)
    ensures |gs| == |fs|
    ensures forall j :: 0 <= j < |fs| ==> gs[j] == Decayed(fs[j], k)
  {
    seq(|fs|, j requires 0 <= j < |fs| => Decayed(fs[j], k))
  }

  /** Every unpinned frame has at least `k` reference credits. */
  ghost predicate ReferenceProtected(fs: seq<Buffer>, k: nat) {
    forall j :: 0 <= j < |fs| && !fs[j].IsPinned() ==> fs[j].referenceValue >= k
  }

  /**
   * A search over the indices [lo, hi), without wrapping, fails exactly when
   * none of them is evictable; it then has visited each of them once and left
   * the hand at `hi`, wrapped to 0 when `hi` is the end of the pool.
   */
  lemma {:induction false} SweepRange(fs: seq<Buffer>, lo: nat, hi: nat)
    requires lo < |fs| && lo <= hi <= |fs|
    ensures var r := Scan(fs, lo, hi - lo);
      (r.Exhausted? <==> Protected(fs, lo, hi)) &&
      (r.Exhausted? ==> r.frames == DecayRange(fs, lo, hi) && r.pos == (if hi == |fs| then 0 else hi))
    decreases hi - lo
  {
    if lo == hi {
      assert DecayRange(fs, lo, hi) == fs;
    } else if !Evictable(fs[lo]) {
      var gs := fs[lo := Decayed(fs[lo], 1)];
      assert Scan(fs, lo, hi - lo) == Scan(gs, Next(lo, |fs|), hi - lo - 1);
      if lo + 1 == |fs| {
        assert DecayRange(fs, lo, hi) == gs;
      } else {
        SweepRange(gs, lo + 1, hi);
        SweepStep(fs, lo, hi);
      }
    }
  }

  /** Visiting the first frame of [lo, hi) leaves the rest of the range as it was. */
  lemma SweepStep(fs: seq<Buffer>, lo: nat, hi: nat)
    requires lo < hi <= |fs| && !Evictable(fs[lo])
    ensures var gs := fs[lo := Decayed(fs[lo], 1)];
      (Protected(gs, lo + 1, hi) <==> Protected(fs, lo, hi)) &&
      DecayRange(gs, lo + 1, hi) == DecayRange(fs, lo, hi)
  {
    var gs := fs[lo := Decayed(fs[lo], 1)];
    forall j | lo + 1 <= j < hi ensures gs[j] == fs[j] { }
    assert DecayRange(gs, lo + 1, hi) == DecayRange(fs, lo, hi);
  }

  /**
   * One full sweep of n steps from any start fails exactly when no frame is
   * evictable; it then has visited every frame once and the hand is back at
   * the start.
   */
  lemma {:induction false} OneSweep(fs: seq<Buffer>, start: nat)
    requires start < |fs|
    ensures var r := Scan(fs, start, |fs|);
      (r.Exhausted? <==> ReferenceProtected(fs, 1)) &&
      (r.Exhausted? ==> r.frames == DecayAll(fs, 1) && r.pos == start)
  {
    var n := |fs|;
    ScanSplit(fs, start, n - start, start);
    SweepRange(fs, start, n);
    ProtectedHalves(fs, start);
    if Scan(fs, start, n - start).Exhausted? {
      var gs := DecayRange(fs, start, n);
      SweepRange(gs, 0, start);
      WrapAround(fs, start);
    }
  }

  /** After the sweep from `start` to the end, the frames below `start` are as they were. */
  lemma WrapAround(fs: seq<Buffer>, start: nat)
    requires start <= |fs|
    ensures var gs := DecayRange(fs, start, |fs|);
      (Protected(gs, 0, start) <==> Protected(fs, 0, start)) &&
      DecayRange(gs, 0, start) == DecayAll(fs, 1)
  {
    var gs := DecayRange(fs, start, |fs|);
    forall j | 0 <= j < start ensures gs[j] == fs[j] { }
    assert DecayRange(gs, 0, start) == DecayAll(fs, 1);
  }

  /** "No frame is evictable" is "no frame below `start` and no frame from `start` on is". */
  lemma ProtectedHalves(fs: seq<Buffer>, start: nat)
    requires start <= |fs|
    ensures Protected(fs, 0, start) && Protected(fs, start, |fs|) <==> ReferenceProtected(fs, 1)
  {
  }

  /**
   * The main property of the search: `k` full sweeps fail exactly when every
   * unpinned frame starts with at least `k` reference credits. When they fail,
   * every unpinned frame has lost exactly `k` credits and the hand is back
   * where it started.
   */
  lemma {:induction false} GClockExhaustion(fs: seq<Buffer>, start: nat, k: nat)
    requires start < |fs|
    ensures var r := Scan(fs, start, k * |fs|);
      (r.Exhausted? <==> ReferenceProtected(fs, k)) &&
      (r.Exhausted? ==> r.frames == DecayAll(fs, k) && r.pos == start)
    decreases k
  {
    var n := |fs|;
    if k == 0 {
      assert DecayAll(fs, 0) == fs;
    } else {
      MulSucc(k - 1, n);
      ScanSplit(fs, start, n, (k - 1) * n);
      OneSweep(fs, start);
      var r1 := Scan(fs, start, n);
      assert Scan(fs, start, k * n) == if r1.Chosen? then r1 else Scan(r1.frames, r1.pos, (k - 1) * n);
      if r1.Exhausted? {
        GClockExhaustion(DecayAll(fs, 1), start, k - 1);
        DecayAllAgain(fs, k);
      } else {
        ProtectedMonotone(fs, 1, k);
      }
    }
  }

  /** More credits protect fewer frames. */
  lemma ProtectedMonotone(fs: seq<Buffer>, a: nat, b: nat)
    requires a <= b
    ensures ReferenceProtected(fs, b) ==> ReferenceProtected(fs, a)
  {
  }

  /** One sweep that did not find a victim, followed by k - 1 more, is k sweeps. */
  lemma DecayAllAgain(fs: seq<Buffer>, k: nat)
    requires k > 0 && ReferenceProtected(fs, 1)
    ensures ReferenceProtected(DecayAll(fs, 1), k - 1) <==> ReferenceProtected(fs, k)
    ensures DecayAll(DecayAll(fs, 1), k - 1) == DecayAll(fs, k)
  {
    var gs := DecayAll(fs, 1);
    forall j | 0 <= j < |fs| ensures DecayAll(gs, k - 1)[j] == DecayAll(fs, k)[j] {
    }
  }

  /** How many steps the hand takes from `start` to reach slot `j`, going round the pool of `n` slots. */
  function CyclicDistance(start: nat, j: nat, n: nat): (d: nat)
    requires start < n && j < n
    ensures d < n
  {
    if j >= start then j - start else n - start + j
  }

  /** `p` is evictable and is the first evictable frame the hand reaches from `start`. */
  ghost predicate FirstEvictable(fs: seq<Buffer>, start: nat, p: nat) {
    start < |fs| && p < |fs| && Evictable(fs[p]) &&
    forall j :: 0 <= j < |fs| && CyclicDistance(start, j, |fs|) < CyclicDistance(start, p, |fs|) ==> !Evictable(fs[j])
  }

  /** The frames the hand passes on its way from `start` to `p`, each visited once. */
  function DecayPassed(fs: seq<Buffer>, start: nat, p: nat): (gs: seq<Buffer>)
    requires start < |fs| && p < |fs|
    ensures |gs| == |fs|
    ensures forall j :: 0 <= j < |fs| ==>
      gs[j] == if CyclicDistance(start, j, |fs|) < CyclicDistance(start, p, |fs|) then Decayed(fs[j], 1) else fs[j]
  {
    seq(|fs|, j requires 0 <= j < |fs| =>
      if CyclicDistance(start, j, |fs|) < CyclicDistance(start, p, |fs|) then Decayed(fs[j], 1) else fs[j])
  }

  /**
   * Without wrapping: when nothing in [lo, p) is evictable and fs[p] is, the
   * search from `lo` stops at `p`, having visited each frame of [lo, p) once.
   */
  lemma {:induction false} ScanReaches(fs: seq<Buffer>, lo: nat, p: nat, steps: nat)
    requires lo <= p < |fs| && steps > p - lo
    requires Protected(fs, lo, p) && Evictable(fs[p])
    ensures Scan(fs, lo, steps) == Chosen(DecayRange(fs, lo, p), p)
    decreases p - lo
  {
    if lo == p {
      assert DecayRange(fs, lo, p) == fs;
    } else {
      var gs := fs[lo := Decayed(fs[lo], 1)];
      SweepStep(fs, lo, p);
      ScanReaches(gs, lo + 1, p, steps - 1);
    }
  }

  /**
   * The victim is the first evictable frame the hand reaches, going round the
   * pool from its start, and the only frames changed are the ones it passed
   * over, each of which lost one credit if it was unpinned.
   */
  lemma ScanFindsFirst(fs: seq<Buffer>, start: nat, p: nat, steps: nat)
    requires FirstEvictable(fs, start, p) && steps > CyclicDistance(start, p, |fs|)
    ensures Scan(fs, start, steps) == Chosen(DecayPassed(fs, start, p), p)
  {
    if p >= start {
      ScanFindsAhead(fs, start, p, steps);
    } else {
      ScanFindsWrapped(fs, start, p, steps);
    }
  }

  /** The first victim lies at or after the hand: one sweep up to it. */
  lemma ScanFindsAhead(fs: seq<Buffer>, start: nat, p: nat, steps: nat)
    requires FirstEvictable(fs, start, p) && start <= p && steps > p - start
    ensures Scan(fs, start, steps) == Chosen(DecayPassed(fs, start, p), p)
  {
    forall j | start <= j < p ensures !Evictable(fs[j]) {
      assert CyclicDistance(start, j, |fs|) < CyclicDistance(start, p, |fs|);
    }
    ScanReaches(fs, start, p, steps);
    forall j | 0 <= j < |fs| ensures DecayRange(fs, start, p)[j] == DecayPassed(fs, start, p)[j] {
    }
    assert DecayRange(fs, start, p) == DecayPassed(fs, start, p);
  }

  /** The first victim lies before the hand: a sweep to the end of the pool, then on from slot 0 up to it. */
  lemma ScanFindsWrapped(fs: seq<Buffer>, start: nat, p: nat, steps: nat)
    requires FirstEvictable(fs, start, p) && p < start && steps > |fs| - start + p
    ensures Scan(fs, start, steps) == Chosen(DecayPassed(fs, start, p), p)
  {
    var n := |fs|;
    forall j | start <= j < n ensures !Evictable(fs[j]) {
      assert CyclicDistance(start, j, n) < CyclicDistance(start, p, n);
    }
    var gs := DecayRange(fs, start, n);
    forall j | 0 <= j < p ensures !Evictable(gs[j]) {
      assert CyclicDistance(start, j, n) < CyclicDistance(start, p, n);
    }
    ScanSplit(fs, start, n - start, steps - (n - start));
    SweepRange(fs, start, n);
    ScanReaches(gs, 0, p, steps - (n - start));
    forall j | 0 <= j < n ensures DecayRange(gs, 0, p)[j] == DecayPassed(fs, start, p)[j] {
    }
    assert DecayRange(gs, 0, p) == DecayPassed(fs, start, p);
  }

  /** The first evictable frame from any start exists as soon as some frame is evictable. */
  lemma FirstEvictableExists(fs: seq<Buffer>, start: nat, q: nat)
    requires start < |fs| && q < |fs| && Evictable(fs[q])
    ensures exists p :: FirstEvictable(fs, start, p)
  {
    FirstEvictableWithin(fs, start, CyclicDistance(start, q, |fs|), q);
  }

  /** Induction on the distance of a known evictable frame. */
  lemma {:induction false} FirstEvictableWithin(fs: seq<Buffer>, start: nat, d: nat, q: nat)
    requires start < |fs| && q < |fs| && Evictable(fs[q]) && CyclicDistance(start, q, |fs|) == d
    ensures exists p :: FirstEvictable(fs, start, p)
    decreases d
  {
    if !FirstEvictable(fs, start, q) {
      var j :| 0 <= j < |fs| && CyclicDistance(start, j, |fs|) < d && Evictable(fs[j]);
      FirstEvictableWithin(fs, start, CyclicDistance(start, j, |fs|), j);
    }
  }

  /** Step arithmetic of the sweep counter. */
  lemma MulSucc(c: nat, n: nat)
    ensures (c + 1) * n == c * n + n && c * n >= 0
  {
  }
}
