/**
 What the optimizer means for whole domains: one run, repeated runs, and exactly when the merged
 rules keep the EIRP and flags of what was merged.
 */
module NormalForm {
  import opened CTypes
  import opened RegRules
  import opened Optimize
  import opened MergeGroups
  import opened OneRun

  // ---------------------------------------------------------------- one run

  /**
   One run on a valid domain: valid rules, the same frequencies, every input rule dominated,
   and either nothing to merge and nothing changed, or strictly fewer rules.
   */
  lemma OptimizeRun(rules: seq<RegRule>)
    requires AllValid(rules)
    ensures AllValid(OptimizeRules(rules))
    ensures forall f :: Covers(OptimizeRules(rules), f) <==> Covers(rules, f)
    ensures forall m :: 0 <= m < |rules| ==> Dominated(rules[m], OptimizeRules(rules))
    ensures OptimizeRules(rules) == rules <==> Separated(rules, RuleKeys(rules))
    ensures OptimizeRules(rules) != rules ==> |OptimizeRules(rules)| < |rules|
  {
    var keys := RuleKeys(rules);
    MergeRuleByUnion();
    OptimizeValid(MergeRule, rules, keys);
    OptimizeProgress(MergeRule, rules, keys);
    forall f ensures Covers(OptimizeRules(rules), f) <==> Covers(rules, f) {
      OptimizeCovers(MergeRule, rules, keys, f);
    }
    forall m | 0 <= m < |rules| ensures Dominated(rules[m], OptimizeRules(rules)) {
      var j := OptimizeComplete(MergeRule, rules, keys, m);
    }
  }

  ghost predicate Dominated(r: RegRule, rules: seq<RegRule>) {
    exists j :: 0 <= j < |rules| && Dominates(rules[j], r)
  }

  // --------------------------------------------------------- uniform groups

  /** What rules with one key are meant to have in common. */
  function PowerOf(r: RegRule): (u32, bv32) {
    (r.maxEirp, r.flags)
  }

  function FlagsOf(r: RegRule): bv32 {
    r.flags
  }

  ghost predicate SamePower(a: RegRule, b: RegRule) {
    PowerOf(a) == PowerOf(b)
  }

  /** Rules that overlap or touch under one key agree on EIRP and flags. */
  ghost predicate Unmixed(rules: seq<RegRule>) {
    NoMixedMerge(PowerOf, rules, RuleKeys(rules))
  }

  lemma UnionsAgree()
    ensures UnionKeeps(PowerOf) && UnionKeeps(FlagsOf)
  {
    forall a, b ensures UnionAgrees(PowerOf, a, b) && UnionAgrees(FlagsOf, a, b) {
      assert OrFlags(b.flags, b.flags) == b.flags;
    }
  }

  /**
   Every output rule has the EIRP and flags of all the rules it stands for exactly when the input
   is unmixed, and likewise for the flags alone.
   */
  lemma UniformIffUnmixed(rules: seq<RegRule>)
    requires AllValid(rules)
    ensures UniformGroups(PowerOf, MergeRule, rules, RuleKeys(rules)) <==> Unmixed(rules)
    ensures UniformGroups(FlagsOf, MergeRule, rules, RuleKeys(rules)) <==>
            NoMixedMerge(FlagsOf, rules, RuleKeys(rules))
  {
    UnionsAgree();
    MergeRuleByUnion();
    UniformIffNoMixedMerge(PowerOf, MergeRule, rules, RuleKeys(rules));
    UniformIffNoMixedMerge(FlagsOf, MergeRule, rules, RuleKeys(rules));
  }

  /** Where equal keys imply equal EIRP and flags, as the key intends, nothing can be mixed. */
  ghost predicate FaithfulKeys(rules: seq<RegRule>) {
    forall i, j :: 0 <= i < |rules| && 0 <= j < |rules| && RuleKey(rules[i]) == RuleKey(rules[j]) ==>
      SamePower(rules[i], rules[j])
  }

  lemma FaithfulIsUnmixed(rules: seq<RegRule>)
    requires FaithfulKeys(rules)
    ensures Unmixed(rules)
  {
    hide RuleKey;
  }

  /** `rules[m]` has the key, EIRP and flags of `r` and lies inside it. */
  ghost predicate Within(rules: seq<RegRule>, m: int, r: RegRule) {
    && 0 <= m < |rules| && RuleKey(rules[m]) == RuleKey(r) && SamePower(rules[m], r)
    && r.start <= rules[m].start && rules[m].end <= r.end
  }

  /** `r` takes its bandwidth and antenna gain from rules within it. */
  ghost predicate TakesMaxima(r: RegRule, rules: seq<RegRule>) {
    && (exists m :: Within(rules, m, r) && rules[m].maxBandwidth == r.maxBandwidth)
    && (exists m :: Within(rules, m, r) && rules[m].maxAntennaGain == r.maxAntennaGain)
  }

  /** Some rule covering `f` offers exactly this EIRP under exactly these flags. */
  ghost predicate Offers(rules: seq<RegRule>, f: int, eirp: u32, flags: bv32) {
    exists i :: 0 <= i < |rules| && InRange(rules[i], f) && rules[i].maxEirp == eirp && rules[i].flags == flags
  }

  ghost predicate KeyCovers(rules: seq<RegRule>, key: bv32, f: int) {
    KeyedCovers(rules, RuleKeys(rules), key, f)
  }

  lemma KeyFromStart(r: RegRule, s: RegRule)
    requires SamePower(r, s) && r.start == s.start
    ensures RuleKey(r) == RuleKey(s)
  {
  }

  /** The output rule of a pivot keeps the key of its group, and every member lies within it. */
  lemma GroupWithin(rules: seq<RegRule>, p: nat)
    requires AllValid(rules) && Unmixed(rules) && p < |rules|
    ensures var s := Pivot(MergeRule, rules, RuleKeys(rules), p);
            && RuleKey(s.acc) == RuleKey(rules[p])
            && (forall m :: Member(s, p, m) ==> Within(rules, m, s.acc))
            && TakesMaxima(s.acc, rules)
  {
    hide RuleKey, MergeRule, PivotScan;
    var keys := RuleKeys(rules);
    UnionsAgree();
    MergeRuleByUnion();
    ScanUniform(PowerOf, MergeRule, rules, keys, p, |rules|);
    ScanAttains(MergeRule, rules, keys, p, |rules|);
    var s := Pivot(MergeRule, rules, keys, p);
    var t :| Member(s, p, t) && 0 <= t < |rules| && rules[t].start == s.acc.start;
    MemberInside(MergeRule, rules, keys, p, t);
    KeyFromStart(rules[t], s.acc);
    forall m | Member(s, p, m) ensures Within(rules, m, s.acc) {
      MemberInside(MergeRule, rules, keys, p, m);
    }
  }

  lemma OutputWithin(rules: seq<RegRule>, j: nat)
    requires AllValid(rules) && Unmixed(rules) && j < |OptimizeRules(rules)|
    ensures RuleKey(OptimizeRules(rules)[j]) == PivotKeys(MergeRule, rules, RuleKeys(rules))[j]
    ensures TakesMaxima(OptimizeRules(rules)[j], rules)
  {
    hide RuleKey, MergeRule, PivotScan, TakesMaxima;
    GroupWithin(rules, Pivots(MergeRule, rules, RuleKeys(rules))[j]);
  }

  /** Each frequency of an output rule comes from an input rule within it. */
  lemma OutputOrigin(rules: seq<RegRule>, j: nat, f: int) returns (m: nat)
    requires AllValid(rules) && Unmixed(rules)
    requires j < |OptimizeRules(rules)| && InRange(OptimizeRules(rules)[j], f)
    ensures Within(rules, m, OptimizeRules(rules)[j]) && InRange(rules[m], f)
  {
    hide RuleKey, MergeRule, PivotScan;
    var keys := RuleKeys(rules);
    var p := Pivots(MergeRule, rules, keys)[j];
    MergeRuleByUnion();
    m := MemberAt(MergeRule, rules, keys, p, |rules|, f);
    GroupWithin(rules, p);
  }

  /** Each input rule lies within an output rule that dominates it. */
  lemma InputSurvives(rules: seq<RegRule>, m: nat) returns (j: nat)
    requires AllValid(rules) && Unmixed(rules) && m < |rules|
    ensures j < |OptimizeRules(rules)| && Dominates(OptimizeRules(rules)[j], rules[m])
    ensures Within(rules, m, OptimizeRules(rules)[j])
  {
    hide RuleKey, MergeRule, PivotScan, Within;
    var keys := RuleKeys(rules);
    j := SweepOwns(Groups(MergeRule, rules, keys), |rules|, m);
    var p := Pivots(MergeRule, rules, keys)[j];
    MergeRuleByUnion();
    MemberInside(MergeRule, rules, keys, p, m);
    GroupWithin(rules, p);
  }

  /** Rules within two meeting rules of one key meet each other, so they have the same power. */
  lemma MeetingKeepsPower(rules: seq<RegRule>, a: RegRule, b: RegRule, m: nat, n: nat, f: int, g: int)
    requires Unmixed(rules) && Within(rules, m, a) && Within(rules, n, b) && RuleKey(a) == RuleKey(b)
    requires InRange(rules[m], f) && InRange(rules[n], g) && -1 <= f - g <= 1
    ensures SamePower(a, b)
  {
    hide RuleKey;
    NearbyMeet(rules[m], rules[n], f, g);
    if m != n {
      assert Mergeable(rules, RuleKeys(rules), m, n);
    }
  }

  /** A run keeps the rules unmixed, so what holds for one run carries over to the next. */
  lemma OptimizeStaysUnmixed(rules: seq<RegRule>)
    requires AllValid(rules) && Unmixed(rules)
    ensures Unmixed(OptimizeRules(rules))
  {
    hide RuleKey, OptimizeRules, Within;
    OptimizeRun(rules);
    var out := OptimizeRules(rules);
    forall i, j | 0 <= i < |out| && 0 <= j < |out| && Mergeable(out, RuleKeys(out), i, j)
      ensures PowerOf(out[i]) == PowerOf(out[j])
    {
      var f, g := MeetingPoints(out[i], out[j]);
      var m := OutputOrigin(rules, i, f);
      var n := OutputOrigin(rules, j, g);
      MeetingKeepsPower(rules, out[i], out[j], m, n, f, g);
    }
  }

  /** If nothing is mixed the (EIRP, flags) pairs on offer at every frequency are unchanged. */
  lemma OptimizeKeepsOffers(rules: seq<RegRule>, f: int, eirp: u32, flags: bv32)
    requires AllValid(rules) && Unmixed(rules)
    ensures Offers(OptimizeRules(rules), f, eirp, flags) <==> Offers(rules, f, eirp, flags)
  {
    hide RuleKey, OptimizeRules;
    var out := OptimizeRules(rules);
    if j :| 0 <= j < |out| && InRange(out[j], f) && out[j].maxEirp == eirp && out[j].flags == flags {
      var m := OutputOrigin(rules, j, f);
    }
    if m :| 0 <= m < |rules| && InRange(rules[m], f) && rules[m].maxEirp == eirp && rules[m].flags == flags {
      var j := InputSurvives(rules, m);
      assert InRange(out[j], f);
    }
  }

  lemma OptimizeKeepsKeyCover(rules: seq<RegRule>, key: bv32, f: int)
    requires AllValid(rules) && Unmixed(rules)
    ensures KeyCovers(OptimizeRules(rules), key, f) <==> KeyCovers(rules, key, f)
  {
    hide RuleKey, OptimizeRules;
    var out := OptimizeRules(rules);
    if j :| 0 <= j < |out| && InRange(out[j], f) && RuleKey(out[j]) == key {
      var m := OutputOrigin(rules, j, f);
    }
    if m :| 0 <= m < |rules| && InRange(rules[m], f) && RuleKey(rules[m]) == key {
      var j := InputSurvives(rules, m);
      assert InRange(out[j], f);
    }
  }

  /** If no two rules with different flags are merged, every channel that was allowed stays allowed. */
  lemma OptimizeKeepsChannels(rules: seq<RegRule>, c: Channel)
    requires AllValid(rules) && NoMixedMerge(FlagsOf, rules, RuleKeys(rules)) && Allows(rules, c)
    ensures Allows(OptimizeRules(rules), c)
  {
    hide RuleKey, MergeRule, PivotScan;
    var keys := RuleKeys(rules);
    var m :| 0 <= m < |rules| && Permits(rules[m], c);
    var j := SweepOwns(Groups(MergeRule, rules, keys), |rules|, m);
    var p := Pivots(MergeRule, rules, keys)[j];
    UnionsAgree();
    MergeRuleByUnion();
    ScanUniform(FlagsOf, MergeRule, rules, keys, p, |rules|);
    MemberInside(MergeRule, rules, keys, p, m);
    assert FlagsOf(rules[m]) == FlagsOf(OptimizeRules(rules)[j]);
    assert Permits(OptimizeRules(rules)[j], c);
  }

  /** Every channel `s` permits is permitted by `r`. */
  ghost predicate LosesNothing(r: RegRule, s: RegRule) {
    forall c :: Permits(s, c) ==> Permits(r, c)
  }

  lemma HonoursItself(f: bv32)
    ensures Honours(f, f)
  {
  }

  lemma SameBits(f: bv32, g: bv32)
    requires HasBits(f, g) && Honours(f, g)
    ensures f == g
  {
  }

  lemma LosesNothingIffSameFlags(r: RegRule, s: RegRule)
    requires IsValidRule(s) && s.maxBandwidth > 0 && Dominates(r, s)
    ensures LosesNothing(r, s) <==> FlagsOf(r) == FlagsOf(s)
  {
    hide Honours, HasBits;
    HonoursItself(s.flags);
    if LosesNothing(r, s) {
      var c := Channel(s.start, s.start + 1, s.maxAntennaGain, s.maxEirp, s.flags);
      assert Permits(s, c);
      SameBits(r.flags, s.flags);
    }
  }

  /** Input rule `m` was merged into output rule `j`, or is its pivot. */
  ghost predicate StandsFor(rules: seq<RegRule>, j: int, m: int) {
    var ps := Pivots(MergeRule, rules, RuleKeys(rules));
    0 <= j < |ps| && Member(Pivot(MergeRule, rules, RuleKeys(rules), ps[j]), ps[j], m)
  }

  /** Every output rule permits all channels of all the rules it stands for. */
  ghost predicate GroupsLoseNothing(rules: seq<RegRule>) {
    forall j, m :: StandsFor(rules, j, m) ==>
      0 <= m < |rules| && LosesNothing(OptimizeRules(rules)[j], rules[m])
  }

  lemma UniformByOutput(rules: seq<RegRule>)
    ensures UniformGroups(FlagsOf, MergeRule, rules, RuleKeys(rules)) <==>
            forall j, m :: StandsFor(rules, j, m) ==>
              0 <= m < |rules| && FlagsOf(rules[m]) == FlagsOf(OptimizeRules(rules)[j])
  {
    hide RuleKey, MergeRule, PivotScan;
    var keys := RuleKeys(rules);
    var ps := Pivots(MergeRule, rules, keys);
    if forall j, m :: StandsFor(rules, j, m) ==>
         0 <= m < |rules| && FlagsOf(rules[m]) == FlagsOf(OptimizeRules(rules)[j]) {
      forall j | 0 <= j < |ps| ensures UniformGroup(FlagsOf, rules, ps[j], Pivot(MergeRule, rules, keys, ps[j])) {
        forall m | Member(Pivot(MergeRule, rules, keys, ps[j]), ps[j], m)
          ensures 0 <= m < |rules| && FlagsOf(rules[m]) == FlagsOf(Pivot(MergeRule, rules, keys, ps[j]).acc)
        {
          assert StandsFor(rules, j, m);
        }
      }
    }
  }

  lemma OutputDominates(rules: seq<RegRule>, j: int, m: int)
    requires AllValid(rules) && StandsFor(rules, j, m)
    ensures 0 <= m < |rules| && 0 <= j < |OptimizeRules(rules)| && Dominates(OptimizeRules(rules)[j], rules[m])
  {
    hide RuleKey, MergeRule, PivotScan;
    MergeRuleByUnion();
    MemberInside(MergeRule, rules, RuleKeys(rules), Pivots(MergeRule, rules, RuleKeys(rules))[j], m);
  }

  /**
   Among rules of positive bandwidth, no output rule refuses a channel that one of its rules permitted
   exactly when no two rules with different flags may be merged.
   */
  lemma GroupsLoseNothingIff(rules: seq<RegRule>)
    requires AllValid(rules) && forall r :: r in rules ==> r.maxBandwidth > 0
    ensures GroupsLoseNothing(rules) <==> NoMixedMerge(FlagsOf, rules, RuleKeys(rules))
  {
    hide RuleKey, OptimizeRules, StandsFor, UniformGroups, NoMixedMerge, LosesNothing, Dominates;
    UniformIffUnmixed(rules);
    UniformByOutput(rules);
    forall j, m | StandsFor(rules, j, m)
      ensures 0 <= m < |rules| && 0 <= j < |OptimizeRules(rules)|
      ensures LosesNothing(OptimizeRules(rules)[j], rules[m]) <==>
              FlagsOf(OptimizeRules(rules)[j]) == FlagsOf(rules[m])
    {
      OutputDominates(rules, j, m);
      LosesNothingIffSameFlags(OptimizeRules(rules)[j], rules[m]);
    }
  }

  // ---------------------------------------------------------- repeated runs

  /** Optimizing until a run no longer shortens the rule list. */
  function OptimizeFully(rules: seq<RegRule>): seq<RegRule>
    requires AllValid(rules)
    decreases |rules|
  {
    OptimizeRun(rules);
    var out := OptimizeRules(rules);
    if |out| < |rules| then OptimizeFully(out) else rules
  }

  /** The result of repeated runs is separated and covers and dominates what was there. */
  lemma {:induction false} NormalFormMeaning(rules: seq<RegRule>)
    requires AllValid(rules)
    ensures var nf := OptimizeFully(rules);
            && AllValid(nf) && Separated(nf, RuleKeys(nf)) && OptimizeRules(nf) == nf
            && (forall f :: Covers(nf, f) <==> Covers(rules, f))
            && (forall m :: 0 <= m < |rules| ==> Dominated(rules[m], nf))
    decreases |rules|
  {
    OptimizeRun(rules);
    var out := OptimizeRules(rules);
    if |out| < |rules| {
      NormalFormMeaning(out);
      var nf := OptimizeFully(out);
      forall m | 0 <= m < |rules| ensures Dominated(rules[m], nf) {
        assert Dominated(rules[m], out);
        var j :| 0 <= j < |out| && Dominates(out[j], rules[m]);
        assert Dominated(out[j], nf);
        var i :| 0 <= i < |nf| && Dominates(nf[i], out[j]);
        DominatesChain(nf[i], out[j], rules[m]);
      }
    } else {
      forall m | 0 <= m < |rules| ensures Dominated(rules[m], rules) {
        DominatesSelf(rules[m]);
      }
    }
  }

  // --------------------------------------------------- when one run suffices

  /** Repeating the run gains nothing exactly when the first result has nothing left to merge. */
  lemma RepeatingGainsNothing(rules: seq<RegRule>)
    requires AllValid(rules)
    ensures var out := OptimizeRules(rules);
            OptimizeFully(rules) == out <==> Separated(out, RuleKeys(out))
  {
    hide RuleKey, OptimizeRules;
    OptimizeRun(rules);
    var out := OptimizeRules(rules);
    OptimizeRun(out);
    NormalFormMeaning(rules);
  }

  /**
   On unmixed rules one run reaches the result of all runs exactly when every rule joined to an
   earlier one of its key overlaps or touches an earlier one of its key.
   */
  lemma OneRunSufficesIff(rules: seq<RegRule>)
    requires AllValid(rules) && Unmixed(rules)
    ensures OptimizeFully(rules) == OptimizeRules(rules) <==> ListedOutward(rules, RuleKeys(rules))
  {
    hide RuleKey, ListedOutward, OptimizeFully;
    RepeatingGainsNothing(rules);
    MergeRuleByUnion();
    OneRunIsEnoughIff(MergeRule, rules, RuleKeys(rules));
    var out := OptimizeRules(rules);
    forall j | 0 <= j < |out| ensures RuleKeys(out)[j] == PivotKeys(MergeRule, rules, RuleKeys(rules))[j] {
      OutputWithin(rules, j);
    }
    assert RuleKeys(out) == PivotKeys(MergeRule, rules, RuleKeys(rules));
  }

  /** Rules sorted by start need one run only. */
  lemma SortedNeedsOneRun(rules: seq<RegRule>)
    requires AllValid(rules) && Unmixed(rules) && SortedByStart(rules)
    ensures OptimizeFully(rules) == OptimizeRules(rules)
  {
    SortedIsOutward(rules, RuleKeys(rules));
    OneRunSufficesIff(rules);
  }
}
