/**
 The greedy rule merger of `reglib_optimize_regdom`: what one run computes and what it preserves.
 Keys are a sequence beside the rules, as in the C optimization map.
 */
module Optimize {
  import opened CTypes
  import opened KeyBits
  import opened RegRules

  type Keys = seq<bv32>

  /** The step that merges an accumulated rule with another one, or refuses. */
  type Merger = (RegRule, RegRule) -> Option<RegRule>

  // ------------------------------------------------------------------- keys

  /** `reglib_deduce_band`; the third test is dead code because the first one already returned. */
  function DeduceBand(startFreqKhz: u32): bv32 {
    var freqMhz := startFreqKhz / 1000;
    if freqMhz >= 4000 then 5
    else if freqMhz > 2000 && freqMhz < 4000 then 2
    else if freqMhz > 50000 then 60
    else 1234
  }

  function KeyOf(maxEirp: u32, flags: bv32, startFreqKhz: u32): bv32 {
    Key(WordBits(maxEirp), flags, DeduceBand(startFreqKhz))
  }

  /** `reglib_rule_key`: neither the bandwidth nor the antenna gain takes part. */
  function RuleKey(r: RegRule): bv32 {
    KeyOf(r.maxEirp, r.flags, r.start)
  }

  /** Rules from 60 GHz on count as the 5 GHz band: the value 60 is never produced. */
  lemma DeduceBandMeaning(startFreqKhz: u32)
    ensures DeduceBand(startFreqKhz) == 5 <==> startFreqKhz >= 4_000_000
    ensures DeduceBand(startFreqKhz) == 2 <==> 2_001_000 <= startFreqKhz < 4_000_000
    ensures DeduceBand(startFreqKhz) == 1234 <==> startFreqKhz < 2_001_000
    ensures DeduceBand(startFreqKhz) != 60
  {
  }

  /**
   Two rules share a key exactly when their EIRP values, the difference of their flags shifted by
   eight and the difference of their bands shifted by sixteen cancel bit by bit.
   */
  lemma KeysCollideIff(r: RegRule, s: RegRule)
    ensures RuleKey(r) == RuleKey(s) <==>
            (r.maxEirp as bv32) ^ (s.maxEirp as bv32) ^ ((r.flags ^ s.flags) << 8)
            ^ ((DeduceBand(r.start) ^ DeduceBand(s.start)) << 16) == 0
  {
    hide DeduceBand, Key, WordBits;
    WordKeysEqualIff(r.maxEirp, r.flags, DeduceBand(r.start), s.maxEirp, s.flags, DeduceBand(s.start));
  }

  /** Rules of one band with equal flags share a key iff their EIRP values are equal. */
  lemma KeyTellsEirp(r: RegRule, s: RegRule)
    requires DeduceBand(r.start) == DeduceBand(s.start) && r.flags == s.flags
    ensures RuleKey(r) == RuleKey(s) <==> r.maxEirp == s.maxEirp
  {
    hide DeduceBand, Key, WordBits;
    OnlyEirpDiffers(WordBits(r.maxEirp), WordBits(s.maxEirp), r.flags, DeduceBand(r.start));
    WordBitsInjective(r.maxEirp, s.maxEirp);
  }

  function RuleKeys(rules: seq<RegRule>): (keys: Keys)
    ensures |keys| == |rules|
    ensures forall i :: 0 <= i < |rules| ==> keys[i] == RuleKey(rules[i])
  {
    seq(|rules|, i requires 0 <= i < |rules| => RuleKey(rules[i]))
  }

  // -------------------------------------------------------------- algorithm

  /** The rule accumulated for a pivot and the indices merged into it. */
  datatype Scan = Scan(acc: RegRule, hits: set<nat>)

  /** One pivot's pass over the first `k` rules; rules absorbed earlier take part again. */
  function PivotScan(merge: Merger, rules: seq<RegRule>, keys: Keys, p: nat, k: nat): Scan
    requires |keys| == |rules| && p < |rules| && k <= |rules|
  {
    if k == 0 then Scan(rules[p], {})
    else
      var before := PivotScan(merge, rules, keys, p, k - 1);
      if p == k - 1 || keys[p] != keys[k - 1] then before
      else
        match merge(before.acc, rules[k - 1])
        case None => before
        case Some(u) => Scan(u, before.hits + {k - 1})
  }

  function Pivot(merge: Merger, rules: seq<RegRule>, keys: Keys, p: nat): Scan
    requires |keys| == |rules| && p < |rules|
  {
    PivotScan(merge, rules, keys, p, |rules|)
  }

  /** For each rule, the indices that would be merged into it were it a pivot. */
  function Groups(merge: Merger, rules: seq<RegRule>, keys: Keys): (groups: seq<set<nat>>)
    requires |keys| == |rules|
    ensures |groups| == |rules|
    ensures forall p :: 0 <= p < |rules| ==> groups[p] == Pivot(merge, rules, keys, p).hits
  {
    seq(|rules|, p requires 0 <= p < |rules| => Pivot(merge, rules, keys, p).hits)
  }

  /** The pivots chosen among the first `k` rules and every index merged so far. */
  datatype Sweep = Sweep(pivots: seq<nat>, absorbed: set<nat>)

  /** An index absorbed by an earlier pivot is skipped; any other becomes a pivot. */
  function SweepTo(groups: seq<set<nat>>, k: nat): (s: Sweep)
    requires k <= |groups|
    ensures forall j :: 0 <= j < |s.pivots| ==> s.pivots[j] < k
    ensures |s.pivots| <= k
  {
    if k == 0 then Sweep([], {})
    else
      var before := SweepTo(groups, k - 1);
      if k - 1 in before.absorbed then before
      else
        var hits := groups[k - 1];
        Sweep(before.pivots + [k - 1],
              if hits == {} then before.absorbed else before.absorbed + hits + {k - 1})
  }

  function Pivots(merge: Merger, rules: seq<RegRule>, keys: Keys): (ps: seq<nat>)
    requires |keys| == |rules|
    ensures forall j :: 0 <= j < |ps| ==> ps[j] < |rules|
    ensures |ps| <= |rules|
  {
    SweepTo(Groups(merge, rules, keys), |rules|).pivots
  }

  function Accumulate(merge: Merger, rules: seq<RegRule>, keys: Keys, ps: seq<nat>): (out: seq<RegRule>)
    requires |keys| == |rules| && forall j :: 0 <= j < |ps| ==> ps[j] < |rules|
    ensures |out| == |ps|
    ensures forall j :: 0 <= j < |ps| ==> out[j] == Pivot(merge, rules, keys, ps[j]).acc
  {
    seq(|ps|, j requires 0 <= j < |ps| => Pivot(merge, rules, keys, ps[j]).acc)
  }

  /** The rules of the optimized domain, one per pivot. */
  function OptimizeBy(merge: Merger, rules: seq<RegRule>, keys: Keys): seq<RegRule>
    requires |keys| == |rules|
  {
    Accumulate(merge, rules, keys, Pivots(merge, rules, keys))
  }

  function OptimizeRules(rules: seq<RegRule>): seq<RegRule> {
    OptimizeBy(MergeRule, rules, RuleKeys(rules))
  }

  // -------------------------------------------------------------- one pivot

  /** On valid rules, merging means taking the union of ranges that overlap or touch. */
  ghost predicate Joins(merge: Merger, a: RegRule, b: RegRule) {
    IsValidRule(a) && IsValidRule(b) ==>
      merge(a, b) == if Apart(a, b) then None else Some(RawUnion(a, b, 0))
  }

  ghost predicate MergesByUnion(merge: Merger) {
    forall a, b :: Joins(merge, a, b)
  }

  lemma MergeRuleByUnion()
    ensures MergesByUnion(MergeRule)
  {
    forall a, b ensures Joins(MergeRule, a, b) {
      if IsValidRule(a) && IsValidRule(b) { MergeRuleMeaning(a, b); }
    }
  }

  /** One merge step: it succeeds unless the rules are apart, and stays valid and exact. */
  lemma MergeStep(merge: Merger, a: RegRule, b: RegRule)
    requires MergesByUnion(merge) && IsValidRule(a) && IsValidRule(b)
    ensures merge(a, b).Some? <==> !Apart(a, b)
    ensures merge(a, b).Some? ==> IsValidRule(merge(a, b).value)
    ensures merge(a, b).Some? ==>
              forall f :: InRange(merge(a, b).value, f) <==> InRange(a, f) || InRange(b, f)
  {
    assert Joins(merge, a, b);
    if !Apart(a, b) {
      RawUnionMeaning(a, b);
    }
  }

  lemma MergeStepDominates(merge: Merger, a: RegRule, b: RegRule, s: RegRule)
    requires MergesByUnion(merge) && IsValidRule(a) && IsValidRule(b) && merge(a, b).Some?
    requires Dominates(a, s) || Dominates(b, s)
    ensures Dominates(merge(a, b).value, s)
  {
    assert Joins(merge, a, b);
    UnionDominatesBoth(a, b, s);
  }

  /** Only other rules with the pivot's key are merged into it. */
  lemma {:induction false} ScanSameKey(merge: Merger, rules: seq<RegRule>, keys: Keys, p: nat, k: nat)
    requires |keys| == |rules| && p < |rules| && k <= |rules|
    ensures forall m :: m in PivotScan(merge, rules, keys, p, k).hits ==> m < k && m != p && keys[m] == keys[p]
    ensures PivotScan(merge, rules, keys, p, k).hits == {} ==> PivotScan(merge, rules, keys, p, k).acc == rules[p]
  {
    if k > 0 {
      ScanSameKey(merge, rules, keys, p, k - 1);
    }
  }

  /** On valid rules the accumulated rule stays valid. */
  lemma {:induction false} ScanValid(merge: Merger, rules: seq<RegRule>, keys: Keys, p: nat, k: nat)
    requires MergesByUnion(merge)
    requires |keys| == |rules| && p < |rules| && k <= |rules| && AllValid(rules)
    ensures IsValidRule(PivotScan(merge, rules, keys, p, k).acc)
  {
    if k > 0 {
      ScanValid(merge, rules, keys, p, k - 1);
      MergeStep(merge, PivotScan(merge, rules, keys, p, k - 1).acc, rules[k - 1]);
    }
  }

  /** The accumulated rule dominates the pivot and everything merged into it. */
  lemma {:induction false} ScanDominates(merge: Merger, rules: seq<RegRule>, keys: Keys, p: nat, k: nat, m: nat)
    requires MergesByUnion(merge)
    requires |keys| == |rules| && p < |rules| && k <= |rules| && m < |rules| && AllValid(rules)
    requires m == p || m in PivotScan(merge, rules, keys, p, k).hits
    ensures Dominates(PivotScan(merge, rules, keys, p, k).acc, rules[m])
  {
    DominatesSelf(rules[m]);
    if k > 0 {
      var before := PivotScan(merge, rules, keys, p, k - 1);
      if m == p || m in before.hits {
        ScanDominates(merge, rules, keys, p, k - 1, m);
      }
      if PivotScan(merge, rules, keys, p, k) != before {
        ScanValid(merge, rules, keys, p, k - 1);
        MergeStepDominates(merge, before.acc, rules[k - 1], rules[m]);
      }
    }
  }

  /** The accumulated rule covers exactly what the pivot and the merged rules cover. */
  lemma {:induction false} ScanCovers(merge: Merger, rules: seq<RegRule>, keys: Keys, p: nat, k: nat, f: int)
    requires MergesByUnion(merge)
    requires |keys| == |rules| && p < |rules| && k <= |rules| && AllValid(rules)
    ensures forall m :: m in PivotScan(merge, rules, keys, p, k).hits ==> m < |rules|
    ensures InRange(PivotScan(merge, rules, keys, p, k).acc, f) <==>
            InRange(rules[p], f) || exists m :: m in PivotScan(merge, rules, keys, p, k).hits && InRange(rules[m], f)
  {
    ScanSameKey(merge, rules, keys, p, k);
    if k > 0 {
      ScanSameKey(merge, rules, keys, p, k - 1);
      ScanCovers(merge, rules, keys, p, k - 1, f);
      ScanValid(merge, rules, keys, p, k - 1);
      MergeStep(merge, PivotScan(merge, rules, keys, p, k - 1).acc, rules[k - 1]);
    }
  }

  lemma {:induction false} HitsGrow(merge: Merger, rules: seq<RegRule>, keys: Keys, p: nat, j: nat, k: nat)
    requires |keys| == |rules| && p < |rules| && j <= k <= |rules|
    ensures PivotScan(merge, rules, keys, p, j).hits <= PivotScan(merge, rules, keys, p, k).hits
  {
    if j < k {
      HitsGrow(merge, rules, keys, p, j, k - 1);
    }
  }

  /**
   A same-key rule that overlaps or touches the pivot, or a rule merged before it is visited, is
   always merged.
   */
  lemma ScanHits(merge: Merger, rules: seq<RegRule>, keys: Keys, p: nat, m: nat, k: nat)
    requires MergesByUnion(merge)
    requires |keys| == |rules| && p < |rules| && m < |rules| && k < |rules| && AllValid(rules)
    requires m == p || m in PivotScan(merge, rules, keys, p, k).hits
    requires k != p && keys[k] == keys[p] && !Apart(rules[m], rules[k])
    ensures k in Pivot(merge, rules, keys, p).hits
  {
    var acc := PivotScan(merge, rules, keys, p, k).acc;
    ScanValid(merge, rules, keys, p, k);
    ScanDominates(merge, rules, keys, p, k, m);
    MergeStep(merge, acc, rules[k]);
    assert k in PivotScan(merge, rules, keys, p, k + 1).hits;
    HitsGrow(merge, rules, keys, p, k + 1, |rules|);
  }

  /** A pivot that overlaps and touches no same-key rule is left as it is. */
  lemma {:induction false} ScanLeavesAlone(merge: Merger, rules: seq<RegRule>, keys: Keys, p: nat, k: nat)
    requires MergesByUnion(merge)
    requires |keys| == |rules| && p < |rules| && k <= |rules| && AllValid(rules)
    requires forall m :: 0 <= m < |rules| && m != p && keys[m] == keys[p] ==> Apart(rules[p], rules[m])
    ensures PivotScan(merge, rules, keys, p, k) == Scan(rules[p], {})
  {
    if k > 0 {
      ScanLeavesAlone(merge, rules, keys, p, k - 1);
      MergeStep(merge, rules[p], rules[k - 1]);
    }
  }

  // ------------------------------------------------------------ whole sweep

  /** Every index below `k`, and every absorbed index, belongs to the group of a chosen pivot. */
  lemma {:induction false} SweepOwns(groups: seq<set<nat>>, k: nat, m: nat) returns (j: nat)
    requires k <= |groups|
    requires m < k || m in SweepTo(groups, k).absorbed
    ensures j < |SweepTo(groups, k).pivots|
    ensures var p := SweepTo(groups, k).pivots[j]; m == p || m in groups[p]
  {
    var before := SweepTo(groups, k - 1);
    if m < k - 1 || m in before.absorbed {
      j := SweepOwns(groups, k - 1, m);
    } else {
      j := |before.pivots|;
    }
  }

  /** Skipping an absorbed index makes the pivot list strictly shorter than the rule list. */
  lemma {:induction false} SweepShrinks(groups: seq<set<nat>>, k: nat, m: nat)
    requires m < k <= |groups|
    requires m in SweepTo(groups, m).absorbed
    ensures |SweepTo(groups, k).pivots| < k
  {
    if m < k - 1 {
      SweepShrinks(groups, k - 1, m);
    }
  }

  lemma {:induction false} PivotsGrow(groups: seq<set<nat>>, j: nat, k: nat)
    requires j <= k <= |groups|
    ensures SweepTo(groups, j).pivots <= SweepTo(groups, k).pivots
  {
    if j < k {
      PivotsGrow(groups, j, k - 1);
    }
  }

  lemma {:induction false} AbsorbedStays(groups: seq<set<nat>>, j: nat, k: nat)
    requires j <= k <= |groups|
    ensures SweepTo(groups, j).absorbed <= SweepTo(groups, k).absorbed
  {
    if j < k {
      AbsorbedStays(groups, j, k - 1);
    }
  }

  ghost predicate Mergeable(rules: seq<RegRule>, keys: Keys, a: nat, b: nat)
    requires |keys| == |rules| && a < |rules| && b < |rules|
  {
    a != b && keys[a] == keys[b] && !Apart(rules[a], rules[b])
  }

  /** Rules with the same key are pairwise separated by a gap. */
  ghost predicate Separated(rules: seq<RegRule>, keys: Keys)
    requires |keys| == |rules|
  {
    forall a, b :: 0 <= a < |rules| && 0 <= b < |rules| ==> !Mergeable(rules, keys, a, b)
  }

  /** If `b` would be merged into an earlier `a`, one of the two is not a pivot. */
  lemma GroupedShrinks(groups: seq<set<nat>>, a: nat, b: nat)
    requires a < b < |groups| && b in groups[a]
    ensures |SweepTo(groups, |groups|).pivots| < |groups|
  {
    if a in SweepTo(groups, a).absorbed {
      SweepShrinks(groups, |groups|, a);
    } else {
      AbsorbedStays(groups, a + 1, b);
      SweepShrinks(groups, |groups|, b);
    }
  }

  lemma MergeableShrinks(merge: Merger, rules: seq<RegRule>, keys: Keys, a: nat, b: nat)
    requires MergesByUnion(merge)
    requires |keys| == |rules| && a < b < |rules| && AllValid(rules)
    requires Mergeable(rules, keys, a, b)
    ensures |OptimizeBy(merge, rules, keys)| < |rules|
  {
    ScanHits(merge, rules, keys, a, a, b);
    GroupedShrinks(Groups(merge, rules, keys), a, b);
  }

  lemma {:induction false} EmptyGroupsSweep(groups: seq<set<nat>>, k: nat)
    requires k <= |groups| && forall p :: 0 <= p < |groups| ==> groups[p] == {}
    ensures SweepTo(groups, k) == Sweep(seq(k, i => i), {})
  {
    if k > 0 {
      EmptyGroupsSweep(groups, k - 1);
      assert seq(k, i => i) == seq(k - 1, i => i) + [k - 1];
    }
  }

  lemma SeparatedUnchanged(merge: Merger, rules: seq<RegRule>, keys: Keys)
    requires MergesByUnion(merge)
    requires |keys| == |rules| && AllValid(rules) && Separated(rules, keys)
    ensures OptimizeBy(merge, rules, keys) == rules
  {
    forall p | 0 <= p < |rules| ensures Pivot(merge, rules, keys, p) == Scan(rules[p], {}) {
      forall m | 0 <= m < |rules| && m != p && keys[m] == keys[p] ensures Apart(rules[p], rules[m]) {
        assert !Mergeable(rules, keys, p, m);
      }
      ScanLeavesAlone(merge, rules, keys, p, |rules|);
    }
    EmptyGroupsSweep(Groups(merge, rules, keys), |rules|);
  }

  /**
   A run returns the rules unchanged exactly when no two same-key rules overlap or touch,
   and otherwise returns strictly fewer.
   */
  lemma OptimizeProgress(merge: Merger, rules: seq<RegRule>, keys: Keys)
    requires MergesByUnion(merge)
    requires |keys| == |rules| && AllValid(rules)
    ensures OptimizeBy(merge, rules, keys) == rules <==> Separated(rules, keys)
    ensures !Separated(rules, keys) ==> |OptimizeBy(merge, rules, keys)| < |rules|
  {
    if Separated(rules, keys) {
      SeparatedUnchanged(merge, rules, keys);
    } else {
      var a, b :| 0 <= a < |rules| && 0 <= b < |rules| && Mergeable(rules, keys, a, b);
      if a < b {
        MergeableShrinks(merge, rules, keys, a, b);
      } else {
        assert Mergeable(rules, keys, b, a);
        MergeableShrinks(merge, rules, keys, b, a);
      }
    }
  }

  // ------------------------------------------------------ what is preserved

  /** Every output rule is valid, and each is built from input rules of one key only. */
  lemma OptimizeSound(merge: Merger, rules: seq<RegRule>, keys: Keys, j: nat, f: int)
    requires MergesByUnion(merge)
    requires |keys| == |rules| && AllValid(rules) && j < |OptimizeBy(merge, rules, keys)|
    ensures IsValidRule(OptimizeBy(merge, rules, keys)[j])
    ensures InRange(OptimizeBy(merge, rules, keys)[j], f) ==>
              exists m :: 0 <= m < |rules| && InRange(rules[m], f) && keys[m] == keys[Pivots(merge, rules, keys)[j]]
  {
    var p := Pivots(merge, rules, keys)[j];
    ScanSameKey(merge, rules, keys, p, |rules|);
    ScanValid(merge, rules, keys, p, |rules|);
    ScanCovers(merge, rules, keys, p, |rules|, f);
  }

  /** Every input rule is dominated by some output rule of its own key. */
  lemma OptimizeComplete(merge: Merger, rules: seq<RegRule>, keys: Keys, m: nat) returns (j: nat)
    requires MergesByUnion(merge)
    requires |keys| == |rules| && AllValid(rules) && m < |rules|
    ensures j < |OptimizeBy(merge, rules, keys)| && keys[Pivots(merge, rules, keys)[j]] == keys[m]
    ensures Dominates(OptimizeBy(merge, rules, keys)[j], rules[m])
  {
    j := SweepOwns(Groups(merge, rules, keys), |rules|, m);
    var p := Pivots(merge, rules, keys)[j];
    ScanSameKey(merge, rules, keys, p, |rules|);
    ScanValid(merge, rules, keys, p, |rules|);
    ScanDominates(merge, rules, keys, p, |rules|, m);
  }

  lemma OptimizeValid(merge: Merger, rules: seq<RegRule>, keys: Keys)
    requires MergesByUnion(merge)
    requires |keys| == |rules| && AllValid(rules)
    ensures AllValid(OptimizeBy(merge, rules, keys))
  {
    forall j | 0 <= j < |OptimizeBy(merge, rules, keys)| ensures IsValidRule(OptimizeBy(merge, rules, keys)[j]) {
      OptimizeSound(merge, rules, keys, j, 0);
    }
  }

  /** Exactly the same frequencies are covered. */
  lemma OptimizeCovers(merge: Merger, rules: seq<RegRule>, keys: Keys, f: int)
    requires MergesByUnion(merge)
    requires |keys| == |rules| && AllValid(rules)
    ensures Covers(OptimizeBy(merge, rules, keys), f) <==> Covers(rules, f)
  {
    var out := OptimizeBy(merge, rules, keys);
    if j :| 0 <= j < |out| && InRange(out[j], f) {
      OptimizeSound(merge, rules, keys, j, f);
    }
    if m :| 0 <= m < |rules| && InRange(rules[m], f) {
      var j := OptimizeComplete(merge, rules, keys, m);
      assert InRange(out[j], f);
    }
  }
}
