/** The segment plan of the `erase` command: how a partition is cut into pieces to be zeroed. */
module Erase {
  import opened CTypes
  import opened Arithmetic

  const BLOCK := 0x1_0000

  /** One `dd` invocation and the percentage reported after it. */
  datatype Segment = Segment(offset: u64, realsize: u64, percent: nat)

  function NumBlocks(devsize: nat): nat {
    (devsize + BLOCK - 1) / BLOCK
  }

  /** The step of the loop: a tenth of the device, in whole blocks. */
  function UpdateSize(devsize: nat): nat {
    NumBlocks(devsize) / 10 * BLOCK
  }

  /** The pieces lie end to end from 0 to `devsize`, and none is empty. */
  ghost predicate Tiles(segs: seq<Segment>, devsize: nat) {
    && (segs == [] ==> devsize == 0)
    && (segs != [] ==> segs[0].offset == 0)
    && (forall i :: 0 <= i < |segs| ==> segs[i].realsize > 0)
    && (forall i :: 0 <= i < |segs| ==> Meets(segs, i, devsize))
  }

  /** Piece `i` ends where the next one starts, or at `end` if it is the last. */
  ghost predicate Meets(segs: seq<Segment>, i: nat, end: nat)
    requires i < |segs|
  {
    segs[i].offset + segs[i].realsize == if i == |segs| - 1 then end else segs[i + 1].offset
  }

  ghost predicate PercentsRise(segs: seq<Segment>) {
    && (forall i :: 0 <= i < |segs| - 1 ==> segs[i].percent < segs[i + 1].percent)
    && (segs != [] ==> segs[|segs| - 1].percent == 100)
  }

  /** The loop makes progress exactly on devices of more than nine blocks. */
  lemma UpdateSizePositive(devsize: nat)
    ensures UpdateSize(devsize) > 0 <==> devsize > 9 * BLOCK
  {
  }

  /** After `k` rounds the 64-bit offset is no longer below `devsize`. */
  ghost predicate Reaches(devsize: u64, k: nat) {
    k * UpdateSize(devsize) % U64_LIMIT >= devsize
  }

  /**
   Where the end of the device is at least a step below the largest 64-bit offset, the loop reaches it
   iff the device is empty or has more than nine blocks.
   */
  lemma EraseEnds(devsize: u64)
    requires devsize + UpdateSize(devsize) <= U64_LIMIT
    ensures (exists k: nat :: Reaches(devsize, k)) <==> devsize == 0 || devsize > 9 * BLOCK
  {
    hide UpdateSize;
    var step := UpdateSize(devsize);
    UpdateSizePositive(devsize);
    if step > 0 {
      var k := RoundsUp(devsize, step);
      SmallRemainder(k * step, U64_LIMIT);
      assert Reaches(devsize, k);
    } else if devsize == 0 {
      assert Reaches(devsize, 0);
    } else {
      forall k: nat ensures !Reaches(devsize, k) {
        assert k * step == 0;
      }
    }
  }

  lemma RoundsUp(x: nat, step: nat) returns (k: nat)
    requires step > 0
    ensures x <= k * step < x + step
  {
    k := (x + step - 1) / step;
    assert x + step - 1 == k * step + (x + step - 1) % step;
  }

  /** How the step relates to the device: ten to nineteen steps are needed. */
  lemma StepBounds(devsize: nat)
    requires devsize > 9 * BLOCK
    ensures 9 * UpdateSize(devsize) < devsize <= 19 * UpdateSize(devsize)
  {
    var n := NumBlocks(devsize);
    var q := n / 10;
    assert (n - 1) * BLOCK < devsize <= n * BLOCK;
    assert 10 * q <= n <= 10 * q + 9 && q >= 1;
  }

  function Quotient(x: nat, d: nat): nat
    requires d > 0
  {
    x / d
  }

  function Percent(end: nat, devsize: nat): nat
    requires devsize > 0
  {
    Quotient(end * 100, devsize)
  }

  /** A full step raises the percentage, and short of the end it stays below 100. */
  lemma PercentSteps(e: nat, next: nat, devsize: nat)
    requires devsize > 9 * BLOCK && e < devsize
    requires next == devsize || next == e + UpdateSize(devsize)
    ensures Percent(e, devsize) < Percent(next, devsize)
    ensures Percent(devsize, devsize) == 100
  {
    hide Quotient;
    StepBounds(devsize);
    QuotientBelow(e * 100, 100, devsize);
    FullPercent(devsize);
    if next != devsize {
      QuotientRises(e * 100, next * 100, devsize);
    }
  }

  lemma QuotientBounds(x: nat, d: nat)
    requires d > 0
    ensures Quotient(x, d) * d <= x < (Quotient(x, d) + 1) * d
  {
    assert x == x / d * d + x % d;
  }

  lemma FullPercent(devsize: nat)
    requires devsize > 0
    ensures Percent(devsize, devsize) == 100
  {
    QuotientIs(devsize * 100, 100, 0, devsize);
  }

  lemma QuotientBelow(x: nat, q: nat, d: nat)
    requires d > 0 && x < q * d
    ensures Quotient(x, d) < q
  {
    hide Quotient;
    QuotientBounds(x, d);
    MultiplyUp(q, Quotient(x, d), d);
  }

  lemma QuotientRises(x: nat, y: nat, d: nat)
    requires d > 0 && y >= x + d
    ensures Quotient(x, d) < Quotient(y, d)
  {
    hide Quotient;
    QuotientBounds(x, d);
    QuotientBounds(y, d);
    assert (Quotient(x, d) + 1) * d <= y;
    MultiplyUp(Quotient(y, d) + 1, Quotient(x, d) + 1, d);
  }

  /**
   The loop of `erase`. On an empty device or one of more than nine blocks, small enough for the
   percentage not to overflow, the segments tile the device, there are ten to nineteen of them, all but
   the last a tenth of the device in whole blocks, and the percentages reported, those of the bytes
   erased so far, rise strictly to 100.
   */
  method ErasePlan(devsize: u64) returns (segs: seq<Segment>)
    requires devsize == 0 || devsize > 9 * BLOCK
    requires 100 * devsize < U64_LIMIT
    ensures Tiles(segs, devsize)
    ensures devsize > 0 ==> 10 <= |segs| <= 19
    ensures forall i :: 0 <= i < |segs| - 1 ==> segs[i].realsize == (devsize + 65535) / 65536 / 10 * 65536
    ensures devsize == 0 ==> segs == []
    ensures devsize > 0 ==> forall i :: 0 <= i < |segs| ==>
              segs[i].percent == (segs[i].offset + segs[i].realsize) * 100 / devsize
    ensures PercentsRise(segs)
  {
    hide UpdateSize, Percent, Tiles, PercentsRise, Planned;
    segs := [];
    if devsize == 0 {
      NoPlan();
      return;
    }
    var updsize: u64 := UpdateSize64(devsize);
    StepBounds(devsize);
    PlanStarts(devsize);
    var offset: u64 := 0;
    while offset < devsize
      invariant updsize == UpdateSize(devsize) && updsize > 0
      invariant offset == |segs| * updsize
      invariant offset < devsize + updsize && |segs| <= 19
      invariant Planned(segs, if offset < devsize then offset else devsize, devsize)
      invariant forall i :: 0 <= i < |segs| && (i < |segs| - 1 || offset < devsize) ==> segs[i].realsize == updsize
      invariant forall i :: 0 <= i < |segs| ==> segs[i].percent == Percent(segs[i].offset + segs[i].realsize, devsize)
      decreases devsize + updsize - offset
    {
      var realsize := if updsize > devsize - offset then devsize - offset else updsize;
      var percent := Percent(offset + realsize, devsize);
      PercentSteps(offset, offset + realsize, devsize);
      StepCount(|segs|, 19, updsize, devsize);
      PlanGrows(segs, Segment(offset, realsize, percent), devsize);
      segs := segs + [Segment(offset, realsize, percent)];
      offset := offset + updsize;
    }
    StepCount(|segs|, 9, updsize, devsize);
    PercentSteps(0, devsize, devsize);
    PlanEnds(segs, devsize);
    StepIs(devsize);
    forall i | 0 <= i < |segs|
      ensures segs[i].percent == (segs[i].offset + segs[i].realsize) * 100 / devsize
    {
      PercentIs(segs[i].offset + segs[i].realsize, devsize);
    }
  }

  lemma StepIs(devsize: nat)
    ensures UpdateSize(devsize) == (devsize + 65535) / 65536 / 10 * 65536
  {
  }

  lemma PercentIs(end: nat, devsize: nat)
    requires devsize > 0
    ensures Percent(end, devsize) == end * 100 / devsize
  {
  }

  /** The segments so far tile `[0, end)` and their percentages rise to that of `end`. */
  ghost predicate Planned(segs: seq<Segment>, end: nat, devsize: nat)
    requires devsize > 0
  {
    && Tiles(segs, end)
    && (forall i :: 0 <= i < |segs| - 1 ==> segs[i].percent < segs[i + 1].percent)
    && (segs != [] ==> segs[|segs| - 1].percent == Percent(end, devsize))
  }

  lemma NoPlan()
    ensures Tiles([], 0) && PercentsRise([])
  {
  }

  lemma PlanStarts(devsize: nat)
    requires devsize > 0
    ensures Planned([], 0, devsize)
  {
  }

  lemma PlanGrows(segs: seq<Segment>, seg: Segment, devsize: nat)
    requires devsize > 0 && Planned(segs, seg.offset, devsize) && seg.realsize > 0
    requires Percent(seg.offset, devsize) < seg.percent == Percent(seg.offset + seg.realsize, devsize)
    ensures Planned(segs + [seg], seg.offset + seg.realsize, devsize)
  {
    hide Percent;
    var all, end := segs + [seg], seg.offset + seg.realsize;
    assert all[|segs|] == seg && forall i :: 0 <= i < |segs| ==> all[i] == segs[i];
    forall i | 0 <= i < |all| ensures Meets(all, i, end) {
      if i < |segs| {
        assert Meets(segs, i, seg.offset);
      }
    }
  }

  lemma PlanEnds(segs: seq<Segment>, devsize: nat)
    requires devsize > 0 && Planned(segs, devsize, devsize) && Percent(devsize, devsize) == 100
    ensures Tiles(segs, devsize) && PercentsRise(segs)
  {
    hide Percent;
  }

  /** `k * step` is below the device size for fewer than `n` steps only. */
  lemma StepCount(k: nat, n: nat, step: nat, devsize: nat)
    requires step > 0
    ensures devsize <= n * step && k * step < devsize ==> k < n
    ensures n * step < devsize && k * step >= devsize ==> k > n
    ensures (k + 1) * step == k * step + step
  {
    MultiplyUp(n, k, step);
    MultiplyUp(k, n, step);
  }

  /** The step as the code computes it; no intermediate value overflows. */
  method UpdateSize64(devsize: u64) returns (updsize: u64)
    requires 100 * devsize < U64_LIMIT
    ensures updsize == UpdateSize(devsize)
  {
    var numblk: u64 := (devsize + BLOCK - 1) / BLOCK;
    updsize := (numblk / 10) * BLOCK;
  }
}
