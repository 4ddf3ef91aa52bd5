/** The running sums behind double-tap detection (common/gesture.c): one ring of changes
    serves an inner and an outer window at the same time. */
module Gesture {
  import opened SlidingWindow

  function Abs(x: int): int {
    if x < 0 then -x else x
  }

  /** The slot of the oldest change in the inner window (lines 122-124). */
  function InnerSlot(idx: nat, inner: nat, outer: nat): (slot: nat)
    requires idx < outer && inner < outer
    ensures slot < outer
  {
    if idx < inner then idx - inner + outer else idx - inner
  }

  /** The inner window is the recent end of the outer one, and the slot holds its oldest entry. */
  lemma InnerSlotHoldsOldest(ring: seq<int>, idx: nat, inner: nat, log: seq<int>)
    requires idx < |ring| && 0 < inner < |ring|
    requires Unrolled(ring, idx) == Window(log, |ring|)
    ensures ring[InnerSlot(idx, inner, |ring|)] == Window(log, inner)[0]
  {
    var n := |ring|;
    assert Window(log, inner)[0] == Window(log, n)[n - inner];
    assert Unrolled(ring, idx)[n - inner] == ring[InnerSlot(idx, inner, n)];
  }

  /** One ring with its two running sums. */
  class Channel {
    const history: array<int>
    var innerSum: int
    var outerSum: int

    constructor (size: nat)
      ensures fresh(history) && history.Length == size
      ensures history[..] == Zeros(size) && innerSum == 0 && outerSum == 0
    {
      history := new int[size](_ => 0);
      innerSum, outerSum := 0, 0;
    }

    ghost predicate Tracks(inner: nat, idx: nat, log: seq<int>)
      reads this, history
    {
      && 0 < inner < history.Length && idx < history.Length
      && Unrolled(history[..], idx) == Window(log, history.Length)
      && innerSum == Sum(Window(log, inner))
      && outerSum == Sum(Window(log, history.Length))
    }

    /** Lines 122-129 and 135-142 for one channel: the entries that leave either window are
        subtracted before the ring slot is reused. */
    method Slide(change: int, inner: nat, idx: nat, ghost log: seq<int>)
      requires Tracks(inner, idx, log)
      modifies this, history
      ensures Tracks(inner, Next(idx, history.Length), log + [change])
    {
      hide Sum, Window, Unrolled;
      ghost var ring := history[..];
      InnerSlotHoldsOldest(ring, idx, inner, log);
      UnrolledStep(ring, idx, change);
      WindowStep(log, history.Length, change);
      WindowStep(log, inner, change);
      SlideSum(Window(log, history.Length), change);
      SlideSum(Window(log, inner), change);
      var slot := InnerSlot(idx, inner, history.Length);
      innerSum := innerSum - history[slot];
      outerSum := outerSum - history[idx];
      history[idx] := change;
      innerSum := innerSum + history[idx];
      outerSum := outerSum + history[idx];
      assert history[..] == ring[idx := change];
    }
  }

  class TapHistory {
    const inner: nat
    const outer: nat
    const z: Channel
    const xy: Channel
    var idx: nat
    var initIndex: nat
    var initialized: bool
    var xp: int
    var yp: int
    var zp: int

    /** All changes seen so far, and how many of them came after the last suspend. */
    ghost var zLog: seq<int>
    ghost var xyLog: seq<int>
    ghost var sinceSuspend: nat

    /** The flag is set only when every slot was written since the last suspend. */
    ghost predicate Valid()
      reads this, z, xy, z.history, xy.history
    {
      && 0 < inner < outer && idx < outer && initIndex < outer
      && z != xy && z.history != xy.history && z.history.Length == xy.history.Length == outer
      && z.Tracks(inner, idx, zLog) && xy.Tracks(inner, idx, xyLog)
      && |zLog| == |xyLog| >= sinceSuspend
      && (initialized ==> sinceSuspend >= outer)
      && (!initialized ==> sinceSuspend < outer
                           && idx == (if initIndex + sinceSuspend < outer then initIndex + sinceSuspend
                                      else initIndex + sinceSuspend - outer))
    }

    constructor (inner: nat, outer: nat)
      requires 0 < inner < outer
      ensures Valid() && this.inner == inner && this.outer == outer
      ensures zLog == [] && xyLog == [] && !initialized && sinceSuspend == 0
      ensures fresh(z) && fresh(xy) && fresh(z.history) && fresh(xy.history)
    {
      this.inner, this.outer := inner, outer;
      z := new Channel(outer);
      xy := new Channel(outer);
      idx, initIndex, initialized, sinceSuspend := 0, 0, false, 0;
      xp, yp, zp := 0, 0, 0;
      zLog, xyLog := [], [];
      new;
      EmptyWindow(outer);
      EmptyWindow(inner);
    }

    method Slides(dz: int, dxy: int)
      requires Valid()
      modifies z, xy, z.history, xy.history
      ensures z.Tracks(inner, Next(idx, outer), zLog + [dz])
      ensures xy.Tracks(inner, Next(idx, outer), xyLog + [dxy])
    {
      hide Channel.Tracks;
      z.Slide(dz, inner, idx, zLog);
      xy.Slide(dxy, inner, idx, xyLog);
    }

    /** The data part of gesture_tap_for_battery (lines 113-158); true when the sums are used. */
    method AddSample(sx: int, sy: int, sz: int) returns (ready: bool)
      requires Valid()
      modifies this, z, xy, z.history, xy.history
      ensures Valid() && ready == initialized && sinceSuspend == old(sinceSuspend) + 1
      ensures zLog == old(zLog) + [if sz < old(zp) then old(zp) - sz else sz - old(zp)]
      ensures xyLog == old(xyLog) + [(if sx < old(xp) then old(xp) - sx else sx - old(xp))
                                     + (if sy < old(yp) then old(yp) - sy else sy - old(yp))]
      ensures (xp, yp, zp) == (sx, sy, sz) && initIndex == old(initIndex)
      ensures ready <==> old(initialized) || sinceSuspend >= outer
    {
      hide Sum, Window, Unrolled, Channel.Tracks;
      Slides(Abs(sz - zp), Abs(sx - xp) + Abs(sy - yp));
      zLog, xyLog := zLog + [Abs(sz - zp)], xyLog + [Abs(sx - xp) + Abs(sy - yp)];
      sinceSuspend := sinceSuspend + 1;
      idx := if idx == outer - 1 then 0 else idx + 1;
      xp, yp, zp := sx, sy, sz;
      if idx == initIndex {
        initialized := true;
      }
      return initialized;
    }

    /** gesture_chipset_suspend (lines 281-291). */
    method Suspend()
      requires Valid()
      modifies this`initialized, this`initIndex, this`sinceSuspend
      ensures Valid() && !initialized && initIndex == idx && sinceSuspend == 0
    {
      initialized, initIndex, sinceSuspend := false, idx, 0;
    }
  }

  lemma EmptyWindow(n: nat)
    ensures Window([], n) == Zeros(n) == Unrolled(Zeros(n), 0) && Sum(Zeros(n)) == 0
  {
    if n > 0 {
      assert Zeros(n)[1..] == Zeros(n - 1);
      EmptyWindow(n - 1);
    }
  }
}
