/**
 Regulatory domains in memory: allocation and release, and the two-pass intersection
 that fills a freshly allocated domain in place.
 */
module RegDomains {
  import opened CTypes
  import opened Arithmetic
  import opened RegRules
  import opened Intersection

  type Alpha2 = s: seq<u8> | |s| == 2 witness [0, 0]

  const WORLD: Alpha2 := [0x30, 0x30]
  const INTERSECTED: Alpha2 := [0x39, 0x39]

  const SIZEOF_REGDOMAIN := 8
  const SIZEOF_REG_RULE := 28

  /** The value a domain in memory stands for. */
  datatype Domain = Domain(alpha2: Alpha2, dfsRegion: u8, rules: seq<RegRule>)

  /** `struct ieee80211_regdomain` with its flexible array member. */
  class RegDomain {
    var nRegRules: nat
    var alpha2: Alpha2
    var dfsRegion: u8
    const regRules: array<RegRule>

    ghost predicate Valid()
      reads this
    {
      nRegRules <= regRules.Length
    }

    ghost function Rules(): seq<RegRule>
      reads this, regRules
      requires Valid()
    {
      regRules[..nRegRules]
    }

    ghost function Value(): Domain
      reads this, regRules
      requires Valid()
    {
      Domain(alpha2, dfsRegion, Rules())
    }

    /** Zeroed memory with room for `slots` rules. */
    constructor (slots: nat)
      ensures fresh(regRules) && regRules.Length == slots
      ensures nRegRules == 0 && alpha2 == [0, 0] && dfsRegion == 0
      ensures forall i :: 0 <= i < slots ==> regRules[i] == ZERO_RULE
    {
      nRegRules, alpha2, dfsRegion := 0, [0, 0], 0;
      regRules := new RegRule[slots](_ => ZERO_RULE);
    }
  }

  /**
   `reglib_array_len`: None is exit(3). It returns exactly when the sum does not wrap,
   and then returns the sum.
   */
  function ArrayLen(sizeMax: nat, baseLen: nat, elemCount: u32, elemLen: nat): (len: Option<nat>)
    requires baseLen <= sizeMax && elemLen > 0
    ensures len == if baseLen + elemCount * elemLen <= sizeMax then Some(baseLen + elemCount * elemLen) else None
  {
    DivisionBound(sizeMax - baseLen, elemCount, elemLen);
    if elemCount > (sizeMax - baseLen) / elemLen then None
    else Some(baseLen + elemCount * elemLen)
  }

  lemma DivisionBound(room: nat, count: nat, len: nat)
    requires len > 0
    ensures count > room / len <==> count * len > room
  {
    var q := room / len;
    assert room == q * len + room % len;
    if count > q {
      MultiplyUp(q + 1, count, len);
      assert (q + 1) * len == q * len + len;
    } else {
      MultiplyUp(count, q, len);
    }
  }

  /** A domain takes eight bytes and 28 more for each rule. */
  predicate RoomFor(sizeMax: nat, slots: nat) {
    8 + 28 * slots <= sizeMax
  }

  /**
   The C heap as far as domains are concerned. `live` holds the domains that were allocated
   and not yet released; releasing requires membership, so nothing is released twice.
   */
  class Heap {
    ghost var live: set<RegDomain>
    /** The largest `size_t`. */
    const sizeMax: nat
    /** Allocation never fails. */
    const reliable: bool

    constructor (sizeMax: nat, reliable: bool)
      ensures live == {} && this.sizeMax == sizeMax && this.reliable == reliable
    {
      this.sizeMax, this.reliable := sizeMax, reliable;
      live := {};
    }

    method Malloc(slots: nat) returns (rd: RegDomain?)
      modifies this`live
      ensures rd == null ==> !reliable && live == old(live)
      ensures rd != null ==> fresh(rd) && fresh(rd.regRules) && live == old(live) + {rd}
      ensures rd != null ==> rd.regRules.Length == slots
      ensures rd != null ==> rd.nRegRules == 0 && rd.alpha2 == [0, 0] && rd.dfsRegion == 0
      ensures rd != null ==> forall i :: 0 <= i < slots ==> rd.regRules[i] == ZERO_RULE
    {
      var fails: bool := *;
      if fails && !reliable {
        return null;
      }
      rd := new RegDomain(slots);
      live := live + {rd};
    }

    method Free(rd: RegDomain?)
      requires rd != null ==> rd in live
      modifies this`live
      ensures live == old(live) - {rd}
    {
      if rd != null {
        live := live - {rd};
      }
    }
  }

  /** `reglib_is_world_regdom`. */
  predicate IsWorld(alpha2: Alpha2) {
    alpha2[0] == WORLD[0] && alpha2[1] == WORLD[1]
  }

  /** The fields `reg_rules_intersect` computes; `cac` is what the target already holds. */
  method IntersectFields(rule1: RegRule, rule2: RegRule, cac: u32) returns (target: RegRule)
    ensures target == RawIntersect(rule1, rule2, cac)
  {
    hide Min, Max, Sub32, OrFlags;
    var start := Max(rule1.start, rule2.start);
    var end := Min(rule1.end, rule2.end);
    var bandwidth := Min(rule1.maxBandwidth, rule2.maxBandwidth);
    var freqDiff := Sub32(end, start);
    if bandwidth > freqDiff {
      bandwidth := freqDiff;
    }
    var eirp := Min(rule1.maxEirp, rule2.maxEirp);
    var gain := Min(rule1.maxAntennaGain, rule2.maxAntennaGain);
    target := RegRule(start, end, bandwidth, gain, eirp, OrFlags(rule1.flags, rule2.flags), cac);
  }

  /** `reg_rules_intersect`, writing through the pointer `&slots[at]`. */
  method RegRulesIntersect(rule1: RegRule, rule2: RegRule, slots: array<RegRule>, at: nat) returns (r: int)
    requires at < slots.Length
    modifies slots
    ensures slots[..] == old(slots[..])[at := RawIntersect(rule1, rule2, old(slots[at].dfsCacMs))]
    ensures r == if IsValidRule(RawIntersect(rule1, rule2, old(slots[at].dfsCacMs))) then 0 else -22
  {
    hide RawIntersect, IsValidRule;
    var target := IntersectFields(rule1, rule2, slots[at].dfsCacMs);
    slots[at] := target;
    r := if IsValidRule(target) then 0 else -22;
  }

  /** One pair seen as a whole: the list of kept rules grows by its result. */
  method IntersectPair(rule1: RegRule, rule2: RegRule, slots: array<RegRule>, ruleIdx: nat) returns (r: int)
    requires ruleIdx < slots.Length
    requires forall i :: ruleIdx <= i < slots.Length ==> slots[i].dfsCacMs == 0
    modifies slots
    ensures r == 0 <==> IntersectRule(rule1, rule2).Some?
    ensures r != 0 ==> slots[..ruleIdx] == old(slots[..ruleIdx])
    ensures r == 0 ==> slots[..ruleIdx + 1] == old(slots[..ruleIdx]) + Listed(IntersectRule(rule1, rule2))
    ensures forall i :: ruleIdx <= i < slots.Length ==> slots[i].dfsCacMs == 0
  {
    hide IsValidRule;
    r := RegRulesIntersect(rule1, rule2, slots, ruleIdx);
  }

  /** The successful pairs, in the rows before `x` and then the columns before `y`. */
  ghost function PairsBefore(xs: seq<RegRule>, ys: seq<RegRule>, x: nat, y: nat): seq<RegRule>
    requires x < |xs| && y <= |ys|
  {
    IntersectRules(xs[..x], ys) + Row(xs[x], ys[..y])
  }

  lemma PairsPrefix(xs: seq<RegRule>, ys: seq<RegRule>, x: nat, y: nat)
    requires x < |xs| && y <= |ys|
    ensures |PairsBefore(xs, ys, x, y)| <= |IntersectRules(xs, ys)|
  {
    hide IntersectRule, IntersectRules, Row;
    RulesSnoc(xs, ys, x);
    assert xs == xs[..x + 1] + xs[x + 1..];
    RulesAppend(xs[..x + 1], xs[x + 1..], ys);
    assert ys == ys[..y] + ys[y..];
    RowAppend(xs[x], ys[..y], ys[y..]);
  }

  lemma PairsNext(xs: seq<RegRule>, ys: seq<RegRule>, x: nat, y: nat)
    requires x < |xs| && y < |ys|
    ensures PairsBefore(xs, ys, x, y + 1) == PairsBefore(xs, ys, x, y) + Listed(IntersectRule(xs[x], ys[y]))
  {
    hide IntersectRule, IntersectRules, Row;
    RowSnoc(xs[x], ys, y);
  }

  lemma PairsRowEnd(xs: seq<RegRule>, ys: seq<RegRule>, x: nat)
    requires x < |xs|
    ensures PairsBefore(xs, ys, x, 0) == IntersectRules(xs[..x], ys)
    ensures PairsBefore(xs, ys, x, |ys|) == IntersectRules(xs[..x + 1], ys)
  {
    hide IntersectRule, IntersectRules;
    RulesSnoc(xs, ys, x);
    assert ys[..|ys|] == ys;
  }

  /** The counting pass. */
  method CountPairs(rd1: RegDomain, rd2: RegDomain) returns (numRules: nat)
    requires rd1.Valid() && rd2.Valid()
    ensures numRules == |IntersectRules(rd1.Rules(), rd2.Rules())|
  {
    hide IntersectRule, IntersectRules, Row;
    RulesOfNone(rd2.Rules());
    var irule := new RegRule[1](_ => ZERO_RULE);
    ghost var xs, ys := rd1.Rules(), rd2.Rules();
    numRules := 0;
    var x := 0;
    while x < rd1.nRegRules
      invariant x <= rd1.nRegRules
      invariant numRules == |IntersectRules(xs[..x], ys)|
      invariant irule[0] == ZERO_RULE
      invariant rd1.Rules() == xs && rd2.Rules() == ys
    {
      var rule1 := rd1.regRules[x];
      var y := 0;
      PairsRowEnd(xs, ys, x);
      while y < rd2.nRegRules
        invariant y <= rd2.nRegRules
        invariant numRules == |PairsBefore(xs, ys, x, y)|
        invariant irule[0] == ZERO_RULE
        invariant rd1.Rules() == xs && rd2.Rules() == ys
      {
        var rule2 := rd2.regRules[y];
        assert rule1 == xs[x] && rule2 == ys[y];
        var r := IntersectPair(rule1, rule2, irule, 0);
        PairsNext(xs, ys, x, y);
        if r == 0 {
          numRules := numRules + 1;
        }
        irule[0] := ZERO_RULE;
        y := y + 1;
      }
      x := x + 1;
    }
    assert xs[..x] == xs;
  }

  /**
   The filling pass: successful pairs land in slots 0, 1, ... in order; a failed pair only
   leaves data in the slot that the next pair overwrites, at worst the spare one at the end.
   */
  method FillPairs(rd1: RegDomain, rd2: RegDomain, slots: array<RegRule>) returns (ruleIdx: nat)
    requires rd1.Valid() && rd2.Valid() && slots != rd1.regRules && slots != rd2.regRules
    requires slots.Length == |IntersectRules(rd1.Rules(), rd2.Rules())| + 1
    requires forall i :: 0 <= i < slots.Length ==> slots[i] == ZERO_RULE
    modifies slots
    ensures ruleIdx == |IntersectRules(rd1.Rules(), rd2.Rules())|
    ensures slots[..ruleIdx] == IntersectRules(rd1.Rules(), rd2.Rules())
  {
    hide IntersectRule, IntersectRules, Row;
    ghost var xs, ys := rd1.Rules(), rd2.Rules();
    RulesOfNone(ys);
    ruleIdx := 0;
    var x := 0;
    while x < rd1.nRegRules
      invariant x <= rd1.nRegRules
      invariant ruleIdx <= |IntersectRules(xs, ys)|
      invariant slots[..ruleIdx] == IntersectRules(xs[..x], ys)
      invariant forall i :: ruleIdx <= i < slots.Length ==> slots[i].dfsCacMs == 0
      invariant rd1.Rules() == xs && rd2.Rules() == ys
    {
      var rule1 := rd1.regRules[x];
      var y := 0;
      PairsRowEnd(xs, ys, x);
      while y < rd2.nRegRules
        invariant y <= rd2.nRegRules
        invariant ruleIdx <= |IntersectRules(xs, ys)|
        invariant slots[..ruleIdx] == PairsBefore(xs, ys, x, y)
        invariant forall i :: ruleIdx <= i < slots.Length ==> slots[i].dfsCacMs == 0
        invariant rd1.Rules() == xs && rd2.Rules() == ys
      {
        var rule2 := rd2.regRules[y];
        assert rule1 == xs[x] && rule2 == ys[y];
        PairsNext(xs, ys, x, y);
        PairsPrefix(xs, ys, x, y + 1);
        var r := IntersectPair(rule1, rule2, slots, ruleIdx);
        y := y + 1;
        if r != 0 {
          continue;
        }
        ruleIdx := ruleIdx + 1;
      }
      x := x + 1;
    }
    assert xs[..x] == xs;
  }

  /**
   `reglib_intersect_rds`. `exited` reports exit(3), which happens only when the result cannot
   be sized. The unsigned rule counter must not wrap.
   */
  method IntersectRds(heap: Heap, rd1: RegDomain?, rd2: RegDomain?) returns (exited: bool, rd: RegDomain?)
    requires rd1 != null ==> rd1 in heap.live && rd1.Valid()
    requires rd2 != null ==> rd2 in heap.live && rd2.Valid()
    requires heap.sizeMax >= SIZEOF_REGDOMAIN
    requires rd1 != null && rd2 != null ==> |IntersectRules(rd1.Rules(), rd2.Rules())| + 1 < U32_LIMIT
    modifies heap`live
    ensures exited ==> rd == null && rd1 != null && rd2 != null
    ensures exited ==> !RoomFor(heap.sizeMax, |IntersectRules(rd1.Rules(), rd2.Rules())| + 1)
    ensures rd == null ==> heap.live == old(heap.live)
    ensures rd != null ==> fresh(rd) && fresh(rd.regRules) && heap.live == old(heap.live) + {rd}
    ensures rd != null ==> rd1 != null && rd2 != null && rd.Valid() && IsValidRd(rd.Rules())
    ensures rd != null ==> rd.Value() == Domain([0x39, 0x39], 0, IntersectRules(rd1.Rules(), rd2.Rules()))
    ensures rd == null && !exited && heap.reliable && rd1 != null && rd2 != null ==>
              IntersectRules(rd1.Rules(), rd2.Rules()) == []
  {
    hide IntersectRule, IntersectRules;
    if rd1 == null || rd2 == null {
      return false, null;
    }
    var numRules := CountPairs(rd1, rd2);
    if numRules == 0 {
      return false, null;
    }
    var size := ArrayLen(heap.sizeMax, SIZEOF_REGDOMAIN, numRules + 1, SIZEOF_REG_RULE);
    if size == None {
      return true, null;
    }
    exited := false;
    rd := heap.Malloc(numRules + 1);
    if rd == null {
      return;
    }
    var ruleIdx := FillPairs(rd1, rd2, rd.regRules);
    if ruleIdx != numRules {
      assert false;
    }
    rd.nRegRules := numRules;
    rd.alpha2 := INTERSECTED;
    RulesValid(rd1.Rules(), rd2.Rules());
  }
}
