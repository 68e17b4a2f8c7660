/** `reglib_optimize_regdom` on domains in memory: a counting run and a filling run over the same map. */
module OptimizeDomain {
  import opened CTypes
  import opened RegRules
  import opened RegDomains
  import opened Optimize
  import opened NormalForm

  /** `struct reglib_optimize_map`. */
  datatype MapEntry = MapEntry(optimized: bool, key: bv32)

  /** `reg_rules_union` on the target `&slots[0]`, which it leaves alone when the ranges are apart. */
  method RegRulesUnion(rule1: RegRule, rule2: RegRule, slot: array<RegRule>) returns (r: int)
    requires slot.Length == 1 && slot[0].dfsCacMs == 0
    modifies slot
    ensures slot[0].dfsCacMs == 0
    ensures r == 0 || r == -22
    ensures r == 0 <==> UnionRule(rule1, rule2).Some?
    ensures r == 0 ==> slot[0] == UnionRule(rule1, rule2).value
  {
    hide Min, Max, OrFlags, IsValidRule;
    if rule1.end < rule2.start {
      return -22;
    }
    if rule2.end < rule1.start {
      return -22;
    }
    slot[0] := RegRule(
      Min(rule1.start, rule2.start),
      Max(rule1.end, rule2.end),
      Max(rule1.maxBandwidth, rule2.maxBandwidth),
      Max(rule1.maxAntennaGain, rule2.maxAntennaGain),
      Max(rule1.maxEirp, rule2.maxEirp),
      OrFlags(rule1.flags, rule2.flags),
      slot[0].dfsCacMs);
    if !IsValidRule(slot[0]) {
      return -22;
    }
    return 0;
  }

  /** `reglib_opt_rule_fit`: both rules must intersect the candidate. */
  method OptRuleFit(rule1: RegRule, rule2: RegRule, optRule: RegRule) returns (r: int)
    ensures r == 0 <==> IntersectRule(rule1, optRule).Some? && IntersectRule(rule2, optRule).Some?
  {
    hide RawIntersect, IsValidRule;
    var intRule := new RegRule[1](_ => ZERO_RULE);
    r := RegRulesIntersect(rule1, optRule, intRule, 0);
    assert intRule[0] == intRule[..][0];
    if r != 0 {
      return;
    }
    intRule[0] := ZERO_RULE;
    r := RegRulesIntersect(rule2, optRule, intRule, 0);
  }

  /** `reg_rule_optimize`. */
  method RegRuleOptimize(rule1: RegRule, rule2: RegRule, slot: array<RegRule>) returns (r: int)
    requires slot.Length == 1 && slot[0].dfsCacMs == 0
    modifies slot
    ensures slot[0].dfsCacMs == 0
    ensures r == 0 <==> MergeRule(rule1, rule2).Some?
    ensures r == 0 ==> slot[0] == MergeRule(rule1, rule2).value
  {
    hide UnionRule, IntersectRule;
    r := RegRulesUnion(rule1, rule2, slot);
    if r != 0 {
      return;
    }
    r := OptRuleFit(rule1, rule2, slot[0]);
  }

  ghost predicate MapHolds(optMap: array<MapEntry>, keys: Keys)
    reads optMap
  {
    |keys| <= optMap.Length && forall i :: 0 <= i < |keys| ==> optMap[i].key == keys[i]
  }

  /** The marks are exactly the indices in `marked`. */
  ghost predicate Marks(optMap: array<MapEntry>, n: nat, marked: set<nat>)
    reads optMap
    requires n <= optMap.Length
  {
    forall i :: 0 <= i < n ==> (optMap[i].optimized <==> i in marked)
  }

  /** Marks both indices and counts the marks that are new. */
  method MarkPair(optMap: array<MapEntry>, n: nat, here: nat, p: nat, ghost keys: Keys, ghost marked: set<nat>)
    returns (added: nat)
    requires n <= optMap.Length && here < n && p < n && here != p
    requires MapHolds(optMap, keys) && Marks(optMap, n, marked)
    modifies optMap
    ensures MapHolds(optMap, keys) && Marks(optMap, n, marked + {here, p})
    ensures added == |{here, p} - marked|
  {
    added := 0;
    if !optMap[here].optimized {
      optMap[here] := MapEntry(true, optMap[here].key);
      added := added + 1;
    }
    if !optMap[p].optimized {
      optMap[p] := MapEntry(true, optMap[p].key);
      added := added + 1;
    }
    PairCount(here, p, marked);
  }

  lemma PairCount(a: nat, b: nat, marked: set<nat>)
    requires a != b
    ensures |{a, b} - marked| == (if a in marked then 0 else 1) + (if b in marked then 0 else 1)
  {
    if a in marked && b in marked {
      assert {a, b} - marked == {};
    } else if a in marked {
      assert {a, b} - marked == {b};
    } else if b in marked {
      assert {a, b} - marked == {a};
    } else {
      assert {a, b} - marked == {a, b};
    }
  }

  lemma NewMarks(marked: set<nat>, current: set<nat>, added: set<nat>)
    requires marked <= current
    ensures |(current + added) - marked| == |current - marked| + |added - current|
  {
    assert (current + added) - marked == (current - marked) + (added - current);
  }

  /** What is marked once the pivot `p` has merged `hits`. */
  ghost function MarkedAfter(marked: set<nat>, p: nat, hits: set<nat>): set<nat> {
    if hits == {} then marked else marked + hits + {p}
  }

  lemma PivotTakes(rules: seq<RegRule>, keys: Keys, p: nat, i: nat, marked: set<nat>)
    requires |keys| == |rules| && p < |rules| && i < |rules| && p != i && keys[p] == keys[i]
    requires MergeRule(PivotScan(MergeRule, rules, keys, p, i).acc, rules[i]).Some?
    ensures var s := PivotScan(MergeRule, rules, keys, p, i);
            PivotScan(MergeRule, rules, keys, p, i + 1) ==
            Scan(MergeRule(s.acc, rules[i]).value, s.hits + {i})
    ensures var s := PivotScan(MergeRule, rules, keys, p, i);
            MarkedAfter(marked, p, s.hits + {i}) == MarkedAfter(marked, p, s.hits) + {i, p}
  {
    hide MergeRule;
  }

  lemma PivotSkips(rules: seq<RegRule>, keys: Keys, p: nat, i: nat)
    requires |keys| == |rules| && p < |rules| && i < |rules|
    requires p == i || keys[p] != keys[i] || MergeRule(PivotScan(MergeRule, rules, keys, p, i).acc, rules[i]) == None
    ensures PivotScan(MergeRule, rules, keys, p, i + 1) == PivotScan(MergeRule, rules, keys, p, i)
  {
    hide MergeRule;
  }

  /**
   `reg_rule_optimize_rd` for an unmarked pivot: the accumulated rule goes to `optRule`, the
   merged rules and the pivot are marked, and the result counts the marks that are new.
   */
  method RegRuleOptimizeRd(rd: RegDomain, ruleIdx: nat, optRule: array<RegRule>, optMap: array<MapEntry>,
                           ghost keys: Keys, ghost marked: set<nat>) returns (optimized: nat)
    requires rd.Valid() && ruleIdx < rd.nRegRules && |keys| == rd.nRegRules
    requires optRule.Length == 1 && optRule != rd.regRules && rd.nRegRules <= optMap.Length
    requires MapHolds(optMap, keys) && Marks(optMap, rd.nRegRules, marked) && ruleIdx !in marked
    modifies optRule, optMap
    ensures MapHolds(optMap, keys)
    ensures var s := Pivot(MergeRule, rd.Rules(), keys, ruleIdx);
            && Marks(optMap, rd.nRegRules, MarkedAfter(marked, ruleIdx, s.hits))
            && optimized == |MarkedAfter(marked, ruleIdx, s.hits) - marked|
            && (optimized == 0 <==> s.hits == {})
            && (optimized > 0 ==> optRule[0] == s.acc)
            && (optimized == 0 ==> s.acc == rd.Rules()[ruleIdx])
  {
    hide MergeRule, PivotScan, Marks, MapHolds, MarkedAfter;
    if ruleIdx > rd.nRegRules {
      assert false;
    }
    ghost var rules := rd.Rules();
    var rule1 := rd.regRules[ruleIdx];
    var tmpOptRule := new RegRule[1](_ => ZERO_RULE);
    optRule[0] := ZERO_RULE;
    optimized := 0;
    PivotStarts(rules, keys, ruleIdx, marked);
    var i := 0;
    while i < rd.nRegRules
      invariant i <= rd.nRegRules && rd.Rules() == rules
      invariant tmpOptRule[0].dfsCacMs == 0
      invariant MapHolds(optMap, keys)
      invariant var s := PivotScan(MergeRule, rules, keys, ruleIdx, i);
                && Marks(optMap, rd.nRegRules, MarkedAfter(marked, ruleIdx, s.hits))
                && optimized == |MarkedAfter(marked, ruleIdx, s.hits) - marked|
                && s.acc == if optimized > 0 then optRule[0] else rule1
    {
      ghost var s := PivotScan(MergeRule, rules, keys, ruleIdx, i);
      var rule2 := rd.regRules[i];
      MapReads(optMap, keys, ruleIdx);
      MapReads(optMap, keys, i);
      if ruleIdx == i || optMap[ruleIdx].key != optMap[i].key {
        PivotSkips(rules, keys, ruleIdx, i);
      } else {
        var targetRule := if optimized > 0 then optRule[0] else rule1;
        var r := RegRuleOptimize(targetRule, rule2, tmpOptRule);
        if r != 0 {
          PivotSkips(rules, keys, ruleIdx, i);
        } else {
          optRule[0] := tmpOptRule[0];
          PivotTakes(rules, keys, ruleIdx, i, marked);
          ghost var current := MarkedAfter(marked, ruleIdx, s.hits);
          MarkedGrows(marked, ruleIdx, s.hits);
          NewMarks(marked, current, {i, ruleIdx});
          var added := MarkPair(optMap, rd.nRegRules, i, ruleIdx, keys, current);
          optimized := optimized + added;
          assert ruleIdx in (current + {i, ruleIdx}) - marked;
        }
      }
      i := i + 1;
    }
    PivotEnds(rules, keys, ruleIdx, marked);
  }

  lemma MapReads(optMap: array<MapEntry>, keys: Keys, i: nat)
    requires MapHolds(optMap, keys) && i < |keys|
    ensures i < optMap.Length && optMap[i].key == keys[i]
  {
  }

  lemma MarkedGrows(marked: set<nat>, p: nat, hits: set<nat>)
    ensures marked <= MarkedAfter(marked, p, hits)
  {
  }

  lemma PivotStarts(rules: seq<RegRule>, keys: Keys, p: nat, marked: set<nat>)
    requires |keys| == |rules| && p < |rules|
    ensures PivotScan(MergeRule, rules, keys, p, 0) == Scan(rules[p], {})
    ensures MarkedAfter(marked, p, {}) == marked && marked - marked == {}
  {
  }

  lemma PivotEnds(rules: seq<RegRule>, keys: Keys, p: nat, marked: set<nat>)
    requires |keys| == |rules| && p < |rules| && p !in marked
    ensures var s := Pivot(MergeRule, rules, keys, p);
            && (|MarkedAfter(marked, p, s.hits) - marked| == 0 <==> s.hits == {})
            && (s.hits == {} ==> s.acc == rules[p])
  {
    hide MergeRule;
    ScanSameKey(MergeRule, rules, keys, p, |rules|);
    var s := Pivot(MergeRule, rules, keys, p);
    if s.hits == {} {
      assert marked - marked == {};
    } else {
      assert p in MarkedAfter(marked, p, s.hits) - marked;
    }
  }

  /** A zeroed map whose keys have been filled in. */
  method FillKeys(rd: RegDomain, optMap: array<MapEntry>)
    requires rd.Valid() && rd.nRegRules <= optMap.Length
    modifies optMap
    ensures MapHolds(optMap, RuleKeys(rd.Rules())) && Marks(optMap, rd.nRegRules, {})
  {
    hide RuleKey;
    for i := 0 to optMap.Length
      invariant forall j :: 0 <= j < i ==> optMap[j] == MapEntry(false, 0)
    {
      optMap[i] := MapEntry(false, 0);
    }
    for i := 0 to rd.nRegRules
      invariant forall j :: 0 <= j < optMap.Length ==> !optMap[j].optimized
      invariant forall j :: 0 <= j < i ==> optMap[j].key == RuleKey(rd.regRules[j])
    {
      optMap[i] := MapEntry(false, RuleKey(rd.regRules[i]));
    }
  }

  /** What both passes know after visiting the first `i` rules. */
  ghost predicate Visited(rd: RegDomain, optMap: array<MapEntry>, i: nat, found: nat)
    reads rd, rd.regRules, optMap
  {
    && rd.Valid() && i <= rd.nRegRules <= optMap.Length
    && var keys := RuleKeys(rd.Rules());
    && MapHolds(optMap, keys)
    && var sweep := SweepTo(Groups(MergeRule, rd.Rules(), keys), i);
    && Marks(optMap, rd.nRegRules, sweep.absorbed)
    && found == |sweep.pivots|
  }

  /** One visit: an unmarked rule becomes a pivot, and its accumulated rule is what gets written. */
  method Visit(rd: RegDomain, i: nat, optRule: array<RegRule>, optMap: array<MapEntry>, ghost found: nat)
    returns (isPivot: bool, numOpts: nat)
    requires Visited(rd, optMap, i, found) && i < rd.nRegRules
    requires optRule.Length == 1 && optRule != rd.regRules
    modifies optRule, optMap
    ensures Visited(rd, optMap, i + 1, if isPivot then found + 1 else found)
    ensures var keys := RuleKeys(rd.Rules());
            && var groups := Groups(MergeRule, rd.Rules(), keys);
            && (SweepTo(groups, i + 1).pivots == SweepTo(groups, i).pivots + if isPivot then [i] else [])
            && (isPivot ==> Pivot(MergeRule, rd.Rules(), keys, i).acc
                            == if numOpts == 0 then rd.Rules()[i] else optRule[0])
  {
    hide MergeRule, RuleKey, PivotScan, Marks, MapHolds;
    ghost var keys := RuleKeys(rd.Rules());
    ghost var groups := Groups(MergeRule, rd.Rules(), keys);
    ghost var absorbed := SweepTo(groups, i).absorbed;
    assert optMap[i].optimized <==> i in absorbed by {
      MarkReads(optMap, rd.nRegRules, absorbed, i);
    }
    if optMap[i].optimized {
      return false, 0;
    }
    isPivot := true;
    numOpts := RegRuleOptimizeRd(rd, i, optRule, optMap, keys, absorbed);
  }

  lemma MarkReads(optMap: array<MapEntry>, n: nat, marked: set<nat>, i: nat)
    requires n <= optMap.Length && Marks(optMap, n, marked) && i < n
    ensures optMap[i].optimized <==> i in marked
  {
  }

  lemma NothingVisited(rd: RegDomain, optMap: array<MapEntry>)
    requires rd.Valid() && rd.nRegRules <= optMap.Length
    requires MapHolds(optMap, RuleKeys(rd.Rules())) && Marks(optMap, rd.nRegRules, {})
    ensures Visited(rd, optMap, 0, 0)
  {
    hide RuleKeys, Groups, Marks, MapHolds;
  }

  lemma AllVisited(rd: RegDomain, optMap: array<MapEntry>, found: nat)
    requires Visited(rd, optMap, rd.nRegRules, found)
    ensures found == |OptimizeRules(rd.Rules())| <= rd.nRegRules
  {
    hide RuleKeys, Groups, Marks, MapHolds;
  }

  /** The counting run. */
  method CountOptimized(rd: RegDomain, optMap: array<MapEntry>) returns (numRules: nat)
    requires rd.Valid() && rd.nRegRules <= optMap.Length
    modifies optMap
    ensures numRules == |OptimizeRules(rd.Rules())| <= rd.nRegRules
  {
    hide Visited, OptimizeRules, RuleKeys, Marks, MapHolds, SweepTo, Pivot, MergeRule;
    var optRule := new RegRule[1](_ => ZERO_RULE);
    var nonOpt, opt := 0, 0;
    FillKeys(rd, optMap);
    NothingVisited(rd, optMap);
    for i := 0 to rd.nRegRules
      invariant Visited(rd, optMap, i, nonOpt + opt)
    {
      var isPivot, numOpts := Visit(rd, i, optRule, optMap, nonOpt + opt);
      if !isPivot {
        continue;
      }
      if numOpts == 0 {
        nonOpt := nonOpt + 1;
      } else {
        opt := opt + 1;
      }
    }
    AllVisited(rd, optMap, nonOpt + opt);
    numRules := nonOpt + opt;
  }

  /** The rules written for the pivots found so far. */
  ghost function Written(rules: seq<RegRule>, i: nat): seq<RegRule>
    requires i <= |rules|
  {
    var keys := RuleKeys(rules);
    Accumulate(MergeRule, rules, keys, SweepTo(Groups(MergeRule, rules, keys), i).pivots)
  }

  lemma WrittenGrows(rules: seq<RegRule>, i: nat, k: nat)
    requires i <= k <= |rules|
    ensures Written(rules, i) <= Written(rules, k)
    ensures |Written(rules, i)| == |SweepTo(Groups(MergeRule, rules, RuleKeys(rules)), i).pivots|
  {
    hide MergeRule, RuleKey, Pivot, SweepTo;
    PivotsGrow(Groups(MergeRule, rules, RuleKeys(rules)), i, k);
  }

  lemma WrittenStep(rules: seq<RegRule>, i: nat, isPivot: bool, rule: RegRule)
    requires i < |rules|
    requires var groups := Groups(MergeRule, rules, RuleKeys(rules));
             SweepTo(groups, i + 1).pivots == SweepTo(groups, i).pivots + if isPivot then [i] else []
    requires isPivot ==> rule == Pivot(MergeRule, rules, RuleKeys(rules), i).acc
    ensures Written(rules, i + 1) == Written(rules, i) + if isPivot then [rule] else []
  {
    hide MergeRule, RuleKey, Pivot, SweepTo;
  }

  lemma WrittenEnds(rules: seq<RegRule>)
    ensures Written(rules, 0) == []
    ensures Written(rules, |rules|) == OptimizeRules(rules)
  {
    hide MergeRule, RuleKey, Pivot;
  }

  /** The filling run: from a reset map it finds the same pivots and writes one rule for each. */
  method FillOptimized(rd: RegDomain, optMap: array<MapEntry>, dst: array<RegRule>) returns (idx: nat)
    requires rd.Valid() && rd.nRegRules <= optMap.Length && dst != rd.regRules
    requires dst.Length == |OptimizeRules(rd.Rules())| + 1
    modifies optMap, dst
    ensures idx == |OptimizeRules(rd.Rules())| && dst[..idx] == OptimizeRules(rd.Rules())
  {
    hide Visited, OptimizeRules, RuleKeys, Marks, MapHolds, Written, Pivot, SweepTo;
    ghost var rules := rd.Rules();
    var optRule := new RegRule[1](_ => ZERO_RULE);
    idx := 0;
    FillKeys(rd, optMap);
    NothingVisited(rd, optMap);
    WrittenEnds(rules);
    for i := 0 to rd.nRegRules
      invariant rd.Valid() && rd.Rules() == rules
      invariant Visited(rd, optMap, i, idx)
      invariant idx < dst.Length && dst[..idx] == Written(rules, i)
    {
      var isPivot, numOpts := Visit(rd, i, optRule, optMap, idx);
      var rule := if numOpts == 0 then rd.regRules[i] else optRule[0];
      WrittenStep(rules, i, isPivot, rule);
      WrittenGrows(rules, i + 1, |rules|);
      if !isPivot {
        continue;
      }
      dst[idx] := rule;
      idx := idx + 1;
    }
  }

  /** The closing check of every rule written. */
  method AllRulesValid(rd: RegDomain) returns (valid: bool)
    requires rd.Valid()
    ensures valid <==> AllValid(rd.Rules())
  {
    hide IsValidRule;
    for i := 0 to rd.nRegRules
      invariant forall j :: 0 <= j < i ==> IsValidRule(rd.regRules[j])
    {
      if !IsValidRule(rd.regRules[i]) {
        assert !IsValidRule(rd.Rules()[i]);
        return false;
      }
    }
    return true;
  }

  /**
   `reglib_optimize_regdom`. When allocation succeeds and the result can be sized, it returns
   NULL only if some resulting rule is invalid, which a valid domain never leads to; otherwise
   the result is `OptimizeRules` under the input's code and DFS region.
   */
  method OptimizeRegdom(heap: Heap, rd: RegDomain) returns (exited: bool, optRd: RegDomain?)
    requires rd in heap.live && rd.Valid() && rd.nRegRules + 2 < U32_LIMIT
    requires heap.sizeMax >= SIZEOF_REGDOMAIN
    modifies heap`live
    ensures exited ==> optRd == null && !RoomFor(heap.sizeMax, |OptimizeRules(rd.Rules())| + 1)
    ensures !exited && optRd == null ==> heap.live == old(heap.live)
    ensures !exited && optRd == null && heap.reliable ==> !AllValid(OptimizeRules(rd.Rules()))
    ensures !exited && heap.reliable && AllValid(rd.Rules()) ==> optRd != null
    ensures optRd != null ==> fresh(optRd) && optRd.Valid() && heap.live == old(heap.live) + {optRd}
    ensures optRd != null ==> optRd.Value() == Domain(rd.alpha2, rd.dfsRegion, OptimizeRules(rd.Rules()))
    ensures optRd != null ==> AllValid(optRd.Rules())
  {
    hide OptimizeRules;
    var fails: bool := *;
    if fails && !heap.reliable {
      return false, null;
    }
    var optMap := new MapEntry[rd.nRegRules + 2](_ => MapEntry(false, 0));
    var numRules := CountOptimized(rd, optMap);
    if numRules > rd.nRegRules {
      assert false;
    }
    var size := ArrayLen(heap.sizeMax, SIZEOF_REGDOMAIN, numRules + 1, SIZEOF_REG_RULE);
    if size == None {
      return true, null;
    }
    exited := false;
    optRd := heap.Malloc(numRules + 1);
    if optRd == null {
      return;
    }
    optRd.nRegRules := numRules;
    optRd.alpha2 := rd.alpha2;
    optRd.dfsRegion := rd.dfsRegion;
    var idx := FillOptimized(rd, optMap, optRd.regRules);
    if idx != numRules {
      assert false;
    }
    var valid := AllRulesValid(optRd);
    if !valid {
      heap.Free(optRd);
      optRd := null;
      if AllValid(rd.Rules()) {
        OptimizeRun(rd.Rules());
      }
    }
  }
}
