/**
 * The integer bookkeeping of the preamble tracker in lib/preamble_detector_impl.cc.
 *
 * Every call of `work_2ui` looks at one window of two symbols (2 * sps samples).
 * The float search over the samples (extremes, zero crossings against the
 * running mid level) and the averaging that yields the sample points are not
 * modelled: their integer results arrive as a `Window`. What is modelled is
 * what the tracker does with them: the flip swap, the ring index of the mid
 * levels, the forcing of a crossing seen at the window edge, the preamble
 * confidence counter, the crossing sums, the wrap of the sample points and
 * the predecessor crossings.
 */
module Preamble {

  /** Size of the ring of mid levels. */
  const NUM_MIDS: int := 4

  /** "Not found" for a crossing position. */
  const NONE: int := -1

  /**
   * The integer outcome of the float search over one window: whether every
   * sample was zero (squelch), where the minimum and maximum are, where the
   * upward and downward crossings are (NONE if absent), and the two sample
   * points as `round` would give them should the tracker recompute them.
   */
  datatype Window = Window(
    allZero: bool,
    minAt: int, maxAt: int,
    zcuAt: int, zcdAt: int,
    roundA: int, roundB: int)

  /** The fixed parameters the constructor derives from the samples per symbol. */
  datatype Config = Config(sps: int, spsX2: int, sTol: int)

  /** The integer fields one window may change. */
  datatype Tracker = Tracker(
    preambleCnt: int,
    zcuSum: int, zcuSumCnt: int,
    zcdSum: int, zcdSumCnt: int,
    intSamplePointA: int, intSamplePointB: int,
    prevZcuAt: int, prevZcdAt: int,
    zcuForced: bool, zcdForced: bool,
    midIdx: int)

  /** A window in progress: the tracker and the window's crossings as they stand so far. */
  datatype Pass = Pass(t: Tracker, zcuAt: int, zcdAt: int, flipped: bool)

  function Abs(x: int): int { if x < 0 then -x else x }

  function Max(a: int, b: int): int { if a < b then b else a }

  /** `s_tol`: a quarter symbol (at least one sample), plus one. */
  function STol(sps: int): (t: int)
    requires sps >= 1
    ensures t == Max(sps / 4, 1) + 1 && t >= 2
  {
    var q := sps / 4;
    (if q == 0 then 1 else q) + 1
  }

  /** A deviation passes the test `x < s_tol` exactly when it is at most a quarter symbol (at least one sample). */
  lemma ToleranceAccepts(sps: int, x: int)
    requires sps >= 1
    ensures x < STol(sps) <==> x <= Max(sps / 4, 1)
  {
  }

  function MakeConfig(sps: int): (c: Config)
    requires sps >= 1
    ensures c.sps == sps && c.spsX2 == 2 * sps && c.sTol == Max(sps / 4, 1) + 1
  {
    Config(sps, sps * 2, STol(sps))
  }

  /**
   * What holds between windows: the ring index is inside the ring, the
   * counters are not negative, and neither sample point is 2 * sps.
   */
  predicate Good(c: Config, t: Tracker)
  {
    0 <= t.midIdx < NUM_MIDS && t.preambleCnt >= 0 && t.zcuSumCnt >= 0 && t.zcdSumCnt >= 0 &&
    t.intSamplePointA != c.spsX2 && t.intSamplePointB != c.spsX2
  }

  // ---------------------------------------------------------------------
  // One window, block by block as `work_2ui` runs them
  // ---------------------------------------------------------------------

  /** Up and down exchanged: positions, predecessors, sums and counts (the forced flags stay). */
  function Swap(p: Pass): (q: Pass)
    ensures q.zcuAt == p.zcdAt && q.zcdAt == p.zcuAt
    ensures q.t.prevZcuAt == p.t.prevZcdAt && q.t.prevZcdAt == p.t.prevZcuAt
    ensures q.t.zcuSum == p.t.zcdSum && q.t.zcdSum == p.t.zcuSum
    ensures q.t.zcuSumCnt == p.t.zcdSumCnt && q.t.zcdSumCnt == p.t.zcuSumCnt
    ensures q.t.zcuForced == p.t.zcuForced && q.t.zcdForced == p.t.zcdForced
    ensures q.t.preambleCnt == p.t.preambleCnt && q.t.midIdx == p.t.midIdx
  {
    p.(zcuAt := p.zcdAt, zcdAt := p.zcuAt,
       t := p.t.(prevZcuAt := p.t.prevZcdAt, prevZcdAt := p.t.prevZcuAt,
                 zcuSum := p.t.zcdSum, zcdSum := p.t.zcuSum,
                 zcuSumCnt := p.t.zcdSumCnt, zcdSumCnt := p.t.zcuSumCnt))
  }

  /** Swapping twice gives the window back. */
  lemma SwapInvolution(p: Pass)
    ensures Swap(Swap(p)) == p
  {
  }

  /** Both crossings about one symbol from their predecessors. */
  predicate Flips(c: Config, p: Pass)
  {
    Abs(Abs(p.zcuAt - p.t.prevZcuAt) - c.sps) < c.sTol &&
    Abs(Abs(p.zcdAt - p.t.prevZcdAt) - c.sps) < c.sTol
  }

  /** The flip check: when both crossings sit one symbol from their predecessors, up and down are exchanged. */
  function FlipCheck(c: Config, p: Pass): (q: Pass)
    ensures q.flipped == (p.flipped || Flips(c, p))
    ensures q == (if Flips(c, p) then Swap(p).(flipped := true) else p)
  {
    if Flips(c, p) then Swap(p).(flipped := true) else p
  }

  /** `mids[mid_idx++] = ...; if (mid_idx == NUM_MIDS) mid_idx = 0;` */
  function AdvanceMid(p: Pass): (q: Pass)
    ensures q.t.preambleCnt == p.t.preambleCnt && q.flipped == p.flipped
    ensures 0 <= p.t.midIdx < NUM_MIDS ==> q.t.midIdx == (p.t.midIdx + 1) % NUM_MIDS
  {
    var i := p.t.midIdx + 1;
    p.(t := p.t.(midIdx := if i == NUM_MIDS then 0 else i))
  }

  /** `peaks_tol`: how far the distance between the extremes is from one symbol. */
  function PeaksTol(c: Config, w: Window): (pt: int)
    ensures pt >= 0
  {
    Abs(Abs(w.minAt - w.maxAt) - c.sps)
  }

  /**
   * The downward crossing at the very start of a window, after one at the end
   * of the previous window, is the same crossing: it is moved to 2 * sps and
   * the forced flag is set. Otherwise the flag clears, and if it was set and
   * the crossing is one of the first two samples, the sum restarts at it.
   */
  function ForceZcd(c: Config, p: Pass): (q: Pass)
    ensures q.t.preambleCnt == p.t.preambleCnt && q.t.midIdx == p.t.midIdx && q.flipped == p.flipped
  {
    if p.zcdAt == 0 && p.t.prevZcdAt >= c.spsX2 - 1 then
      p.(zcdAt := c.spsX2, t := p.t.(prevZcdAt := c.spsX2 - 1, zcdForced := true))
    else if p.t.zcdForced && p.zcdAt < 2 && p.zcdAt != NONE then
      p.(t := p.t.(zcdSum := p.zcdAt, zcdSumCnt := 1, zcdForced := false))
    else
      p.(t := p.t.(zcdForced := false))
  }

  /**
   * The same for the upward crossing, as the code has it: the sum restarts at
   * the DOWNWARD crossing position (see ZcuResetTakesDownward).
   */
  function ForceZcu(c: Config, p: Pass): (q: Pass)
    ensures q.t.preambleCnt == p.t.preambleCnt && q.t.midIdx == p.t.midIdx && q.flipped == p.flipped
  {
    if p.zcuAt == 0 && p.t.prevZcuAt >= c.spsX2 - 1 then
      p.(zcuAt := c.spsX2, t := p.t.(prevZcuAt := c.spsX2 - 1, zcuForced := true))
    else if p.t.zcuForced && p.zcuAt < 2 && p.zcuAt != NONE then
      p.(t := p.t.(zcuSum := p.zcdAt, zcuSumCnt := 1, zcuForced := false))
    else
      p.(t := p.t.(zcuForced := false))
  }

  /** The upward edge forcing as evidently intended: the sum restarts at the upward crossing itself. */
  function ForceZcuIntended(c: Config, p: Pass): (q: Pass)
    ensures q.t.preambleCnt == p.t.preambleCnt && q.t.midIdx == p.t.midIdx && q.flipped == p.flipped
  {
    if p.zcuAt == 0 && p.t.prevZcuAt >= c.spsX2 - 1 then
      p.(zcuAt := c.spsX2, t := p.t.(prevZcuAt := c.spsX2 - 1, zcuForced := true))
    else if p.t.zcuForced && p.zcuAt < 2 && p.zcuAt != NONE then
      p.(t := p.t.(zcuSum := p.zcuAt, zcuSumCnt := 1, zcuForced := false))
    else
      p.(t := p.t.(zcuForced := false))
  }

  function Decrement(n: int): int { if n > 0 then n - 1 else n }

  /** Both crossings were found in the window. */
  predicate BothFound(p: Pass) { p.zcuAt != NONE && p.zcdAt != NONE }

  /** `zc_tol`: how far the distance between the crossings is from one symbol (one symbol if one is missing). */
  function ZcTol(c: Config, p: Pass): int
  {
    if BothFound(p) then Abs(Abs(p.zcuAt - p.zcdAt) - c.sps) else c.sps
  }

  /**
   * The preamble confidence counter: down by one (not below 0) when a crossing
   * is missing; then, if the extremes and the crossings are both one symbol
   * apart, up by one (down again if a crossing is missing), and at 3 the sums
   * restart from this window; if neither is, back to 0.
   */
  function Count(c: Config, p: Pass, peaksTol: int): (q: Pass)
    ensures q.t.midIdx == p.t.midIdx && q.flipped == p.flipped && q.zcuAt == p.zcuAt && q.zcdAt == p.zcdAt
    ensures p.t.preambleCnt >= 0 ==> 0 <= q.t.preambleCnt <= p.t.preambleCnt + 1
  {
    var zcTol := ZcTol(c, p);
    var cnt0 := if BothFound(p) then p.t.preambleCnt else Decrement(p.t.preambleCnt);
    if peaksTol < c.sTol && zcTol < c.sTol then
      var cnt := if BothFound(p) then cnt0 + 1 else Decrement(cnt0);
      if cnt == 3 then
        p.(t := p.t.(preambleCnt := cnt,
          zcuSum := if p.zcuAt == NONE then 0 else p.zcuAt, zcuSumCnt := if p.zcuAt == NONE then 0 else 1,
          zcdSum := if p.zcdAt == NONE then 0 else p.zcdAt, zcdSumCnt := if p.zcdAt == NONE then 0 else 1))
      else
        p.(t := p.t.(preambleCnt := cnt))
    else if peaksTol >= c.sTol && zcTol >= c.sTol then
      p.(t := p.t.(preambleCnt := 0))
    else
      p.(t := p.t.(preambleCnt := cnt0))
  }

  /**
   * Past three good windows, with both crossings found, each is added to its
   * sum; a crossing that jumped across the window edge restarts its sum.
   */
  function Accumulate(c: Config, p: Pass): (q: Pass)
    ensures q.t.midIdx == p.t.midIdx && q.t.preambleCnt == p.t.preambleCnt && q.flipped == p.flipped
  {
    if p.t.preambleCnt > 3 && BothFound(p) then
      var t := p.t;
      var (us, uc) := if Abs(t.prevZcuAt - p.zcuAt) >= c.spsX2 - 1 then (p.zcuAt, 1) else (t.zcuSum + p.zcuAt, t.zcuSumCnt + 1);
      var (ds, dc) := if Abs(t.prevZcdAt - p.zcdAt) >= c.spsX2 - 1 then (p.zcdAt, 1) else (t.zcdSum + p.zcdAt, t.zcdSumCnt + 1);
      p.(t := t.(zcuSum := us, zcuSumCnt := uc, zcdSum := ds, zcdSumCnt := dc))
    else
      p
  }

  /**
   * Past six good windows the sample points are recomputed (the rounding is an
   * input here); a point that rounds to 2 * sps puts the pair at (0, sps).
   */
  function SamplePoints(c: Config, p: Pass, w: Window): (q: Pass)
    ensures q.t.midIdx == p.t.midIdx && q.t.preambleCnt == p.t.preambleCnt && q.flipped == p.flipped
  {
    if p.t.preambleCnt > 6 then
      var (a1, b1) := if w.roundA == c.spsX2 then (0, c.sps) else (w.roundA, p.t.intSamplePointB);
      var (a2, b2) := if w.roundB == c.spsX2 then (0, c.sps) else (a1, w.roundB);
      p.(t := p.t.(intSamplePointA := a2, intSamplePointB := b2))
    else
      p
  }

  /** After a window that did not flip, each crossing found becomes the predecessor. */
  function Remember(p: Pass): (t: Tracker)
    ensures t.midIdx == p.t.midIdx && t.preambleCnt == p.t.preambleCnt
  {
    if p.flipped then p.t
    else p.t.(prevZcuAt := if p.zcuAt != NONE then p.zcuAt else p.t.prevZcuAt,
              prevZcdAt := if p.zcdAt != NONE then p.zcdAt else p.t.prevZcdAt)
  }

  /** The blocks of `work_2ui` after the edge forcing. */
  function Finish(c: Config, p: Pass, w: Window): Tracker
  {
    Remember(SamplePoints(c, Accumulate(c, Count(c, p, PeaksTol(c, w))), w))
  }

  /** The window before the edge forcing: the flip check and the mid ring. */
  function Start(c: Config, t: Tracker, w: Window): Pass
  {
    AdvanceMid(FlipCheck(c, Pass(t, w.zcuAt, w.zcdAt, false)))
  }

  /** `work_2ui` on one window, as written; a squelched window changes nothing. */
  function Track(c: Config, t: Tracker, w: Window): Tracker
  {
    if w.allZero then t
    else Finish(c, ForceZcu(c, ForceZcd(c, Start(c, t, w))), w)
  }

  /** `work_2ui` with the upward reset as evidently intended. */
  function TrackIntended(c: Config, t: Tracker, w: Window): Tracker
  {
    if w.allZero then t
    else Finish(c, ForceZcuIntended(c, ForceZcd(c, Start(c, t, w))), w)
  }

  // ---------------------------------------------------------------------
  // Properties of a window
  // ---------------------------------------------------------------------

  /** A window keeps the invariant (for sps of at least one sample). */
  lemma TrackKeepsGood(c: Config, t: Tracker, w: Window)
    requires c.sps >= 1 && c.spsX2 == 2 * c.sps && Good(c, t)
    ensures Good(c, Track(c, t, w)) && Good(c, TrackIntended(c, t, w))
  {
    if !w.allZero {
      var p := Start(c, t, w);
      assert 0 <= p.t.midIdx < NUM_MIDS;
      GoodAfterForcing(c, ForceZcu(c, ForceZcd(c, p)), w);
      GoodAfterForcing(c, ForceZcuIntended(c, ForceZcd(c, p)), w);
    }
  }

  lemma GoodAfterForcing(c: Config, p: Pass, w: Window)
    requires c.sps >= 1 && c.spsX2 == 2 * c.sps && Good(c, p.t)
    ensures Good(c, Finish(c, p, w))
  {
    var q := Count(c, p, PeaksTol(c, w));
    assert Good(c, q.t);
    var r := Accumulate(c, q);
    assert Good(c, r.t);
    var s := SamplePoints(c, r, w);
    assert Good(c, s.t);
  }

  /** The ring index moves one slot forward, modulo NUM_MIDS, on every window that is not squelched. */
  lemma MidIndexAdvances(c: Config, t: Tracker, w: Window)
    requires 0 <= t.midIdx < NUM_MIDS
    ensures Track(c, t, w).midIdx == if w.allZero then t.midIdx else (t.midIdx + 1) % NUM_MIDS
    ensures TrackIntended(c, t, w).midIdx == Track(c, t, w).midIdx
  {
  }

  /** A squelched window returns before any field changes. */
  lemma SquelchedWindowIgnored(c: Config, t: Tracker, w: Window)
    requires w.allZero
    ensures Track(c, t, w) == t && TrackIntended(c, t, w) == t
  {
  }

  /**
   * A downward crossing at sample 0 after one at the last sample (or later) of
   * the previous window is moved to 2 * sps and flagged; when the window did
   * not flip, that is also the new predecessor.
   */
  lemma DownwardEdgeForced(c: Config, p: Pass)
    requires p.zcdAt == 0 && p.t.prevZcdAt >= c.spsX2 - 1
    ensures var q := ForceZcd(c, p);
      q.zcdAt == c.spsX2 && q.t.zcdForced && q.t.prevZcdAt == c.spsX2 - 1 &&
      q.zcuAt == p.zcuAt && q.t.zcdSum == p.t.zcdSum
  {
  }

  /** Otherwise the flag is cleared and the crossing is left where it is. */
  lemma DownwardEdgeNotForced(c: Config, p: Pass)
    requires !(p.zcdAt == 0 && p.t.prevZcdAt >= c.spsX2 - 1)
    ensures var q := ForceZcd(c, p);
      !q.t.zcdForced && q.zcdAt == p.zcdAt && q.t.prevZcdAt == p.t.prevZcdAt
  {
  }

  /**
   * The same for the upward crossing, as written and as intended (the two
   * differ only in the reset): at sample 0 after one at the last sample (or
   * later) it is moved to 2 * sps and flagged, and the sum is left alone.
   */
  lemma UpwardEdgeForced(c: Config, p: Pass)
    requires p.zcuAt == 0 && p.t.prevZcuAt >= c.spsX2 - 1
    ensures var q := ForceZcu(c, p);
      q.zcuAt == c.spsX2 && q.t.zcuForced && q.t.prevZcuAt == c.spsX2 - 1 &&
      q.zcdAt == p.zcdAt && q.t.zcuSum == p.t.zcuSum
    ensures ForceZcuIntended(c, p) == ForceZcu(c, p)
  {
  }

  /**
   * Otherwise the flag is cleared and the crossing is left where it is; the
   * sum restarts (with a count of one) exactly when the flag was set and the
   * crossing is one of the first two samples: at the downward crossing as
   * written, at the upward one as intended.
   */
  lemma UpwardEdgeNotForced(c: Config, p: Pass)
    requires !(p.zcuAt == 0 && p.t.prevZcuAt >= c.spsX2 - 1)
    ensures var q, r := ForceZcu(c, p), ForceZcuIntended(c, p);
      var reset := p.t.zcuForced && p.zcuAt < 2 && p.zcuAt != NONE;
      !q.t.zcuForced && q.zcuAt == p.zcuAt && q.t.prevZcuAt == p.t.prevZcuAt &&
      !r.t.zcuForced && r.zcuAt == p.zcuAt && r.t.prevZcuAt == p.t.prevZcuAt &&
      (reset ==> q.t.zcuSum == p.zcdAt && r.t.zcuSum == p.zcuAt && q.t.zcuSumCnt == 1 && r.t.zcuSumCnt == 1) &&
      (!reset ==> q.t.zcuSum == p.t.zcuSum && r.t.zcuSum == p.t.zcuSum &&
                  q.t.zcuSumCnt == p.t.zcuSumCnt && r.t.zcuSumCnt == p.t.zcuSumCnt)
  {
  }

  /** The counter never goes below zero, and it counts up exactly on a window with both tolerances met and both crossings found. */
  lemma CountRules(c: Config, p: Pass, peaksTol: int)
    requires p.t.preambleCnt >= 0
    ensures var n := Count(c, p, peaksTol).t.preambleCnt;
      n >= 0 &&
      (peaksTol < c.sTol && ZcTol(c, p) < c.sTol && BothFound(p) ==> n == p.t.preambleCnt + 1) &&
      (!BothFound(p) ==> n == if peaksTol < c.sTol && ZcTol(c, p) < c.sTol then Decrement(Decrement(p.t.preambleCnt))
                              else if peaksTol >= c.sTol && ZcTol(c, p) >= c.sTol then 0
                              else Decrement(p.t.preambleCnt)) &&
      (peaksTol >= c.sTol && ZcTol(c, p) >= c.sTol ==> n == 0) &&
      (n > p.t.preambleCnt ==> BothFound(p))
  {
  }

  /** The counter rises by at most one per window. */
  lemma CountRisesByOne(c: Config, t: Tracker, w: Window)
    requires c.sps >= 1 && c.spsX2 == 2 * c.sps && Good(c, t)
    ensures Track(c, t, w).preambleCnt <= t.preambleCnt + 1
    ensures TrackIntended(c, t, w).preambleCnt <= t.preambleCnt + 1
  {
  }

  /**
   * A second point that rounds to 2 * sps wraps the pair to (0, sps); a first
   * one alone wraps only the first point to 0, since the second is then
   * overwritten by its own rounding. The points never rest at 2 * sps.
   */
  lemma SamplePointWrap(c: Config, p: Pass, w: Window)
    requires c.sps >= 1 && c.spsX2 == 2 * c.sps && p.t.preambleCnt > 6
    ensures var q := SamplePoints(c, p, w).t;
      q.intSamplePointA != c.spsX2 && q.intSamplePointB != c.spsX2 &&
      (w.roundB == c.spsX2 ==> q.intSamplePointA == 0 && q.intSamplePointB == c.sps) &&
      (w.roundA == c.spsX2 && w.roundB != c.spsX2 ==> q.intSamplePointA == 0 && q.intSamplePointB == w.roundB) &&
      (w.roundA != c.spsX2 && w.roundB != c.spsX2 ==> q.intSamplePointA == w.roundA && q.intSamplePointB == w.roundB)
  {
  }

  /** The predecessors take only found crossings, and none after a flip. */
  lemma PredecessorsRemembered(p: Pass)
    ensures var t := Remember(p);
      t.prevZcuAt == (if !p.flipped && p.zcuAt != NONE then p.zcuAt else p.t.prevZcuAt) &&
      t.prevZcdAt == (if !p.flipped && p.zcdAt != NONE then p.zcdAt else p.t.prevZcdAt)
  {
  }

  // ---------------------------------------------------------------------
  // The upward reset
  // ---------------------------------------------------------------------

  /**
   * As written, a forced upward crossing that reappears at sample 1 restarts
   * the upward sum at the downward crossing: here at 9 instead of 1, so the
   * average upward position the sample points are computed from is off by
   * half a symbol.
   */
  lemma ZcuResetTakesDownward()
    ensures var c := MakeConfig(16);
      var t := Tracker(0, 40, 4, 50, 5, 16, 16, 32, 20, true, false, 0);
      var r := Track(c, t, Window(false, 3, 19, 1, 9, 0, 0));
      r.zcuSum == 9 && r.zcuSumCnt == 1 && r.zcuSum != 1
  {
    var c := MakeConfig(16);
    var t := Tracker(0, 40, 4, 50, 5, 16, 16, 32, 20, true, false, 0);
    var w := Window(false, 3, 19, 1, 9, 0, 0);
    var p := Start(c, t, w);
    assert !Flips(c, Pass(t, 1, 9, false));
    assert p.zcuAt == 1 && p.zcdAt == 9 && p.t.zcuForced;
    var q := ForceZcu(c, ForceZcd(c, p));
    assert q.t.zcuSum == 9 && q.t.zcuSumCnt == 1;
  }

  /**
   * As intended, the reset restarts the upward sum at the upward crossing, so
   * its average is that crossing; the downward fields are the same either way.
   */
  lemma ZcuResetRestartsAtCrossing(c: Config, p: Pass)
    requires !(p.zcuAt == 0 && p.t.prevZcuAt >= c.spsX2 - 1)
    requires p.t.zcuForced && p.zcuAt < 2 && p.zcuAt != NONE
    ensures var q := ForceZcuIntended(c, p);
      q.t.zcuSum == p.zcuAt && q.t.zcuSumCnt == 1 && !q.t.zcuForced &&
      q.t.zcdSum == p.t.zcdSum && q.t.zcdSumCnt == p.t.zcdSumCnt
  {
  }

  /** The intended and the written window differ only in the upward sum after such a reset. */
  lemma IntendedDiffersOnlyInReset(c: Config, p: Pass)
    ensures var a := ForceZcu(c, p); var b := ForceZcuIntended(c, p);
      a.t.(zcuSum := 0) == b.t.(zcuSum := 0) && a.zcuAt == b.zcuAt && a.zcdAt == b.zcdAt &&
      (a.t.zcuSum != b.t.zcuSum ==> p.t.zcuForced && p.zcuAt < 2 && p.zcuAt != NONE && p.zcuAt != p.zcdAt)
  {
  }

  // ---------------------------------------------------------------------
  // The tracker object
  // ---------------------------------------------------------------------

  class PreambleDetector {
    const sps: int
    const spsX2: int
    const sTol: int
    var preambleCnt: int
    var zcuSum: int
    var zcuSumCnt: int
    var zcdSum: int
    var zcdSumCnt: int
    var intSamplePointA: int
    var intSamplePointB: int
    var prevZcuAt: int
    var prevZcdAt: int
    var zcuForced: bool
    var zcdForced: bool
    var midIdx: int

    function Cfg(): Config
    {
      Config(sps, spsX2, sTol)
    }

    function Fields(): Tracker
      reads this
    {
      Tracker(preambleCnt, zcuSum, zcuSumCnt, zcdSum, zcdSumCnt, intSamplePointA, intSamplePointB,
              prevZcuAt, prevZcdAt, zcuForced, zcdForced, midIdx)
    }

    predicate Valid()
      reads this
    {
      sps >= 1 && spsX2 == 2 * sps && Good(Cfg(), Fields())
    }

    /**
     * The counters start at 0, the sample points at one symbol, the forced
     * flags clear; the predecessors and the sums start with whatever they hold.
     */
    constructor (samplesPerSymbol: int)
      requires samplesPerSymbol >= 1
      ensures Valid() && Cfg() == MakeConfig(samplesPerSymbol)
      ensures preambleCnt == 0 && zcuSumCnt == 0 && zcdSumCnt == 0 && midIdx == 0
      ensures intSamplePointA == samplesPerSymbol && intSamplePointB == samplesPerSymbol
      ensures !zcuForced && !zcdForced
    {
      sps := samplesPerSymbol;
      midIdx := 0;
      var tol := samplesPerSymbol / 4;
      if tol == 0 {
        tol := 1;
      }
      sTol := tol + 1;
      preambleCnt := 0;
      zcuSumCnt := 0;
      zcdSumCnt := 0;
      spsX2 := samplesPerSymbol * 2;
      intSamplePointA := samplesPerSymbol;
      intSamplePointB := samplesPerSymbol;
      zcuForced := false;
      zcdForced := false;
    }

    /** The integer part of `work_2ui` on one window, with the upward reset as intended (see ZcuResetTakesDownward). */
    method Work2ui(w: Window)
      requires Valid()
      modifies this
      ensures Fields() == TrackIntended(Cfg(), old(Fields()), w)
      ensures Valid()
    {
      if w.allZero {
        return;
      }
      ghost var c := Cfg();
      ghost var t0 := Fields();
      var zcuAt, zcdAt, flipped := FlipWindow(w.zcuAt, w.zcdAt);
      midIdx := midIdx + 1;
      if midIdx == NUM_MIDS {
        midIdx := 0;
      }
      assert Pass(Fields(), zcuAt, zcdAt, flipped) == Start(c, t0, w);
      var peaksTol := Abs(Abs(w.minAt - w.maxAt) - sps);
      zcuAt, zcdAt := ForceEdges(zcuAt, zcdAt, flipped);
      ghost var p1 := Pass(Fields(), zcuAt, zcdAt, flipped);
      CountWindow(zcuAt, zcdAt, peaksTol, flipped);
      ghost var q1 := Pass(Fields(), zcuAt, zcdAt, flipped);
      assert q1 == Count(c, p1, PeaksTol(c, w));
      AccumulateWindow(zcuAt, zcdAt, flipped);
      ghost var p2 := Pass(Fields(), zcuAt, zcdAt, flipped);
      assert p2 == Accumulate(c, q1);
      SamplePointsWindow(w, zcuAt, zcdAt, flipped);
      ghost var p3 := Pass(Fields(), zcuAt, zcdAt, flipped);
      assert p3 == SamplePoints(c, p2, w);
      RememberWindow(zcuAt, zcdAt, flipped);
      assert Fields() == Finish(c, p1, w);
      TrackKeepsGood(c, t0, w);
    }

    /** The flip check: exchange up and down when both crossings sit one symbol from their predecessors. */
    method FlipWindow(zcuAt0: int, zcdAt0: int) returns (zcuAt: int, zcdAt: int, flipped: bool)
      modifies this`prevZcuAt, this`prevZcdAt, this`zcuSum, this`zcuSumCnt, this`zcdSum, this`zcdSumCnt
      ensures Pass(Fields(), zcuAt, zcdAt, flipped) == FlipCheck(Cfg(), Pass(old(Fields()), zcuAt0, zcdAt0, false))
    {
      zcuAt, zcdAt := zcuAt0, zcdAt0;
      flipped := false;
      if Abs(Abs(zcuAt - prevZcuAt) - sps) < sTol && Abs(Abs(zcdAt - prevZcdAt) - sps) < sTol {
        flipped := true;
        zcuAt, zcdAt := zcdAt, zcuAt;
        prevZcuAt, prevZcdAt := prevZcdAt, prevZcuAt;
        zcuSum, zcdSum := zcdSum, zcuSum;
        zcuSumCnt, zcdSumCnt := zcdSumCnt, zcuSumCnt;
      }
    }

    /** Past six good windows, take the rounded sample points, wrapping one at 2 * sps to (0, sps). */
    method SamplePointsWindow(w: Window, ghost zcuAt: int, ghost zcdAt: int, ghost flipped: bool)
      modifies this`intSamplePointA, this`intSamplePointB
      ensures Pass(Fields(), zcuAt, zcdAt, flipped) == SamplePoints(Cfg(), Pass(old(Fields()), zcuAt, zcdAt, flipped), w)
    {
      if preambleCnt > 6 {
        intSamplePointA := w.roundA;
        if intSamplePointA == spsX2 {
          intSamplePointA := 0;
          intSamplePointB := sps;
        }
        intSamplePointB := w.roundB;
        if intSamplePointB == spsX2 {
          intSamplePointA := 0;
          intSamplePointB := sps;
        }
      }
    }

    /** After a window that did not flip, each crossing found becomes the predecessor. */
    method RememberWindow(zcuAt: int, zcdAt: int, flipped: bool)
      modifies this`prevZcuAt, this`prevZcdAt
      ensures Fields() == Remember(Pass(old(Fields()), zcuAt, zcdAt, flipped))
    {
      if !flipped {
        if zcuAt != NONE {
          prevZcuAt := zcuAt;
        }
        if zcdAt != NONE {
          prevZcdAt := zcdAt;
        }
      }
    }

    /** The edge forcing of both crossings, downward first (with the upward reset as intended). */
    method ForceEdges(zcuAt0: int, zcdAt0: int, ghost flipped: bool) returns (zcuAt: int, zcdAt: int)
      modifies this`prevZcuAt, this`prevZcdAt, this`zcuForced, this`zcdForced, this`zcuSum, this`zcuSumCnt, this`zcdSum, this`zcdSumCnt
      ensures Pass(Fields(), zcuAt, zcdAt, flipped) == ForceZcuIntended(Cfg(), ForceZcd(Cfg(), Pass(old(Fields()), zcuAt0, zcdAt0, flipped)))
    {
      zcdAt := ForceDownward(zcuAt0, zcdAt0, flipped);
      zcuAt := ForceUpward(zcuAt0, zcdAt, flipped);
    }

    /** The downward edge forcing. */
    method ForceDownward(zcuAt: int, zcdAt0: int, ghost flipped: bool) returns (zcdAt: int)
      modifies this`prevZcdAt, this`zcdForced, this`zcdSum, this`zcdSumCnt
      ensures Pass(Fields(), zcuAt, zcdAt, flipped) == ForceZcd(Cfg(), Pass(old(Fields()), zcuAt, zcdAt0, flipped))
    {
      zcdAt := zcdAt0;
      if zcdAt == 0 && prevZcdAt >= spsX2 - 1 {
        zcdAt := spsX2;
        prevZcdAt := spsX2 - 1;
        zcdForced := true;
      } else {
        if zcdForced && zcdAt < 2 && zcdAt != NONE {
          zcdSum := zcdAt;
          zcdSumCnt := 1;
        }
        zcdForced := false;
      }
    }

    /** The upward edge forcing, the sum restarting at the upward crossing. */
    method ForceUpward(zcuAt0: int, zcdAt: int, ghost flipped: bool) returns (zcuAt: int)
      modifies this`prevZcuAt, this`zcuForced, this`zcuSum, this`zcuSumCnt
      ensures Pass(Fields(), zcuAt, zcdAt, flipped) == ForceZcuIntended(Cfg(), Pass(old(Fields()), zcuAt0, zcdAt, flipped))
    {
      zcuAt := zcuAt0;
      if zcuAt == 0 && prevZcuAt >= spsX2 - 1 {
        zcuAt := spsX2;
        prevZcuAt := spsX2 - 1;
        zcuForced := true;
      } else {
        if zcuForced && zcuAt < 2 && zcuAt != NONE {
          zcuSum := zcuAt;
          zcuSumCnt := 1;
        }
        zcuForced := false;
      }
    }

    /** The preamble confidence counter and the restart of the sums at three. */
    method CountWindow(zcuAt: int, zcdAt: int, peaksTol: int, ghost flipped: bool)
      modifies this`preambleCnt, this`zcuSum, this`zcuSumCnt, this`zcdSum, this`zcdSumCnt
      ensures Fields() == Count(Cfg(), Pass(old(Fields()), zcuAt, zcdAt, flipped), peaksTol).t
    {
      var zcTol := sps;
      if zcuAt != NONE && zcdAt != NONE {
        zcTol := Abs(Abs(zcuAt - zcdAt) - sps);
      } else {
        if preambleCnt > 0 {
          preambleCnt := preambleCnt - 1;
        }
      }
      if peaksTol < sTol && zcTol < sTol {
        if zcuAt == NONE || zcdAt == NONE {
          if preambleCnt > 0 {
            preambleCnt := preambleCnt - 1;
          }
        } else {
          preambleCnt := preambleCnt + 1;
        }
        if preambleCnt == 3 {
          if zcuAt == NONE {
            zcuSum := 0;
            zcuSumCnt := 0;
          } else {
            zcuSum := zcuAt;
            zcuSumCnt := 1;
          }
          if zcdAt == NONE {
            zcdSum := 0;
            zcdSumCnt := 0;
          } else {
            zcdSum := zcdAt;
            zcdSumCnt := 1;
          }
        }
      } else if peaksTol >= sTol && zcTol >= sTol {
        preambleCnt := 0;
      }
    }

    /** Past three good windows, add both crossings to their sums (restarting one that crossed the edge). */
    method AccumulateWindow(zcuAt: int, zcdAt: int, ghost flipped: bool)
      modifies this`zcuSum, this`zcuSumCnt, this`zcdSum, this`zcdSumCnt
      ensures Fields() == Accumulate(Cfg(), Pass(old(Fields()), zcuAt, zcdAt, flipped)).t
    {
      if preambleCnt > 3 && zcuAt != NONE && zcdAt != NONE {
        if Abs(prevZcuAt - zcuAt) >= spsX2 - 1 {
          zcuSumCnt := 1;
          zcuSum := zcuAt;
        } else {
          zcuSumCnt := zcuSumCnt + 1;
          zcuSum := zcuSum + zcuAt;
        }
        if Abs(prevZcdAt - zcdAt) >= spsX2 - 1 {
          zcdSumCnt := 1;
          zcdSum := zcdAt;
        } else {
          zcdSumCnt := zcdSumCnt + 1;
          zcdSum := zcdSum + zcdAt;
        }
      }
    }
  }
}
