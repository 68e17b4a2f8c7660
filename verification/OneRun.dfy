/**
 When one run of the merger is enough: the exact condition on the order of the rules under which
 the result has nothing left to merge.
 */
module OneRun {
  import opened CTypes
  import opened RegRules
  import opened Optimize
  import opened MergeGroups

  // ------------------------------------------------ coverage key by key

  /** Some rule carrying `key` covers `f`. */
  ghost predicate KeyedCovers(rules: seq<RegRule>, keys: Keys, key: bv32, f: int)
    requires |keys| == |rules|
  {
    exists m :: 0 <= m < |rules| && keys[m] == key && InRange(rules[m], f)
  }

  /** In a separated list the frequencies just outside a rule are not covered by its key. */
  lemma EdgesUncovered(rules: seq<RegRule>, keys: Keys, i: nat)
    requires |keys| == |rules| && AllValid(rules) && Separated(rules, keys) && i < |rules|
    ensures !KeyedCovers(rules, keys, keys[i], rules[i].start - 1)
    ensures !KeyedCovers(rules, keys, keys[i], rules[i].end)
  {
    forall j | 0 <= j < |rules| && keys[j] == keys[i]
      ensures !InRange(rules[j], rules[i].start - 1) && !InRange(rules[j], rules[i].end)
    {
      assert !Mergeable(rules, keys, i, j);
    }
  }

  /** Every frequency from `lo` up to `hi` is covered by rules carrying `key`. */
  ghost predicate Gapless(rules: seq<RegRule>, keys: Keys, key: bv32, lo: int, hi: int)
    requires |keys| == |rules|
  {
    forall f :: lo <= f < hi ==> KeyedCovers(rules, keys, key, f)
  }

  /** In a separated list one rule holds a whole gapless stretch of its key. */
  lemma HoldsGapless(rules: seq<RegRule>, keys: Keys, j: nat, f: int, lo: int, hi: int)
    requires |keys| == |rules| && AllValid(rules) && Separated(rules, keys) && j < |rules|
    requires lo <= f < hi && InRange(rules[j], f) && Gapless(rules, keys, keys[j], lo, hi)
    ensures rules[j].start <= lo && hi <= rules[j].end
  {
    EdgesUncovered(rules, keys, j);
  }

  /** Two rules of one key with no gap of that key between them: a chain of its rules links them. */
  ghost predicate Joined(rules: seq<RegRule>, keys: Keys, a: nat, b: nat)
    requires |keys| == |rules| && a < |rules| && b < |rules|
  {
    && keys[a] == keys[b]
    && Gapless(rules, keys, keys[a], Min(rules[a].start, rules[b].start), Max(rules[a].end, rules[b].end))
  }

  /** Some rule listed before `m` has its key and overlaps or touches it. */
  ghost predicate MeetsEarlier(rules: seq<RegRule>, keys: Keys, m: nat)
    requires |keys| == |rules| && m < |rules|
  {
    exists n :: 0 <= n < m && Mergeable(rules, keys, n, m)
  }

  /** Whatever is joined to an earlier rule overlaps or touches an earlier rule. */
  ghost predicate ListedOutward(rules: seq<RegRule>, keys: Keys)
    requires |keys| == |rules|
  {
    forall a, m :: 0 <= a < m < |rules| && Joined(rules, keys, a, m) ==> MeetsEarlier(rules, keys, m)
  }

  // ------------------------------------------------------------ the sweep

  lemma {:induction false} PivotsFresh(groups: seq<set<nat>>, k: nat, j: nat)
    requires k <= |groups| && j < |SweepTo(groups, k).pivots|
    ensures var q := SweepTo(groups, k).pivots[j]; q < k && q !in SweepTo(groups, q).absorbed
    ensures groups[SweepTo(groups, k).pivots[j]] <= SweepTo(groups, k).absorbed
    ensures forall i :: 0 <= i < j ==> SweepTo(groups, k).pivots[i] < SweepTo(groups, k).pivots[j]
  {
    var before := SweepTo(groups, k - 1);
    if j < |before.pivots| {
      PivotsFresh(groups, k - 1, j);
    }
  }

  /** A rule that meets an earlier rule of its key does not become a pivot. */
  lemma AttachedIsNoPivot(merge: Merger, rules: seq<RegRule>, keys: Keys, m: nat, j: nat)
    requires MergesByUnion(merge)
    requires |keys| == |rules| && AllValid(rules) && m < |rules| && MeetsEarlier(rules, keys, m)
    requires j < |Pivots(merge, rules, keys)|
    ensures Pivots(merge, rules, keys)[j] != m
  {
    hide PivotScan, SweepTo, Mergeable;
    var groups := Groups(merge, rules, keys);
    var n: nat :| n < m && Mergeable(rules, keys, n, m);
    var o := SweepOwns(groups, n + 1, n);
    var p := SweepTo(groups, n + 1).pivots[o];
    GroupTakesLater(merge, rules, keys, p, n, m);
    PivotsFresh(groups, n + 1, o);
    AbsorbedStays(groups, n + 1, m);
    PivotsFresh(groups, |groups|, j);
  }

  // ----------------------------------------------------- one run is enough

  /** The keys the output rules were built for. */
  function PivotKeys(merge: Merger, rules: seq<RegRule>, keys: Keys): (out: Keys)
    requires |keys| == |rules|
    ensures |out| == |OptimizeBy(merge, rules, keys)| == |Pivots(merge, rules, keys)|
    ensures forall j :: 0 <= j < |out| ==> out[j] == keys[Pivots(merge, rules, keys)[j]]
  {
    var ps := Pivots(merge, rules, keys);
    seq(|ps|, j requires 0 <= j < |ps| => keys[ps[j]])
  }

  lemma OutputGapless(merge: Merger, rules: seq<RegRule>, keys: Keys, key: bv32, lo: int, hi: int)
    requires MergesByUnion(merge)
    requires |keys| == |rules| && AllValid(rules) && Gapless(rules, keys, key, lo, hi)
    ensures Gapless(OptimizeBy(merge, rules, keys), PivotKeys(merge, rules, keys), key, lo, hi)
  {
    var out, outKeys := OptimizeBy(merge, rules, keys), PivotKeys(merge, rules, keys);
    forall f | lo <= f < hi ensures KeyedCovers(out, outKeys, key, f) {
      assert KeyedCovers(rules, keys, key, f);
      var m :| 0 <= m < |rules| && keys[m] == key && InRange(rules[m], f);
      var j := OptimizeComplete(merge, rules, keys, m);
      assert outKeys[j] == key && InRange(out[j], f);
    }
  }

  /** Rules whose accumulated rules meet are joined. */
  lemma MeetingPivotsJoined(merge: Merger, rules: seq<RegRule>, keys: Keys, p: nat, q: nat)
    requires MergesByUnion(merge)
    requires |keys| == |rules| && AllValid(rules) && p < |rules| && q < |rules| && keys[p] == keys[q]
    requires !Apart(Pivot(merge, rules, keys, p).acc, Pivot(merge, rules, keys, q).acc)
    ensures Joined(rules, keys, p, q)
  {
    hide PivotScan;
    var a, b := Pivot(merge, rules, keys, p).acc, Pivot(merge, rules, keys, q).acc;
    ScanValid(merge, rules, keys, p, |rules|);
    ScanValid(merge, rules, keys, q, |rules|);
    RawUnionMeaning(a, b);
    MemberInside(merge, rules, keys, p, p);
    MemberInside(merge, rules, keys, q, q);
    forall f | Min(rules[p].start, rules[q].start) <= f < Max(rules[p].end, rules[q].end)
      ensures KeyedCovers(rules, keys, keys[p], f)
    {
      assert InRange(RawUnion(a, b, 0), f);
      if InRange(a, f) {
        var m := MemberAt(merge, rules, keys, p, |rules|, f);
      } else {
        var m := MemberAt(merge, rules, keys, q, |rules|, f);
      }
    }
  }

  lemma OutwardIsEnough(merge: Merger, rules: seq<RegRule>, keys: Keys)
    requires MergesByUnion(merge)
    requires |keys| == |rules| && AllValid(rules) && ListedOutward(rules, keys)
    ensures Separated(OptimizeBy(merge, rules, keys), PivotKeys(merge, rules, keys))
  {
    hide PivotScan, Joined, MeetsEarlier;
    var out, outKeys := OptimizeBy(merge, rules, keys), PivotKeys(merge, rules, keys);
    var ps := Pivots(merge, rules, keys);
    forall i, j | 0 <= i < j < |out| ensures !Mergeable(out, outKeys, i, j) {
      if Mergeable(out, outKeys, i, j) {
        MeetingPivotsJoined(merge, rules, keys, ps[i], ps[j]);
        PivotsFresh(Groups(merge, rules, keys), |rules|, j);
        assert MeetsEarlier(rules, keys, ps[j]);
        AttachedIsNoPivot(merge, rules, keys, ps[j], j);
      }
    }
    forall i, j | 0 <= i < |out| && 0 <= j < |out| ensures !Mergeable(out, outKeys, i, j) {
      assert Mergeable(out, outKeys, i, j) ==> Mergeable(out, outKeys, j, i);
    }
  }

  /** In a separated result the output rule that holds `a` holds everything joined to `a`. */
  lemma SeparatedHoldsJoined(merge: Merger, rules: seq<RegRule>, keys: Keys, j: nat, a: nat, m: nat)
    requires MergesByUnion(merge)
    requires |keys| == |rules| && AllValid(rules) && j < |Pivots(merge, rules, keys)|
    requires Separated(OptimizeBy(merge, rules, keys), PivotKeys(merge, rules, keys))
    requires a < |rules| && m < |rules| && Joined(rules, keys, a, m)
    requires var p := Pivots(merge, rules, keys)[j]; Member(Pivot(merge, rules, keys, p), p, a)
    ensures var p := Pivots(merge, rules, keys)[j]; Member(Pivot(merge, rules, keys, p), p, m)
  {
    hide PivotScan;
    var out, outKeys := OptimizeBy(merge, rules, keys), PivotKeys(merge, rules, keys);
    var p := Pivots(merge, rules, keys)[j];
    MemberInside(merge, rules, keys, p, a);
    OptimizeValid(merge, rules, keys);
    var lo, hi := Min(rules[a].start, rules[m].start), Max(rules[a].end, rules[m].end);
    OutputGapless(merge, rules, keys, keys[a], lo, hi);
    HoldsGapless(out, outKeys, j, rules[a].start, lo, hi);
    var o := SweepOwns(Groups(merge, rules, keys), |rules|, m);
    var q := Pivots(merge, rules, keys)[o];
    MemberInside(merge, rules, keys, q, m);
    assert !Mergeable(out, outKeys, j, o);
  }

  lemma EnoughIsOutward(merge: Merger, rules: seq<RegRule>, keys: Keys, a: nat, m: nat)
    requires MergesByUnion(merge)
    requires |keys| == |rules| && AllValid(rules)
    requires Separated(OptimizeBy(merge, rules, keys), PivotKeys(merge, rules, keys))
    requires a < m < |rules| && Joined(rules, keys, a, m)
    ensures MeetsEarlier(rules, keys, m)
  {
    hide PivotScan, Joined, Separated;
    var groups := Groups(merge, rules, keys);
    var o := SweepOwns(groups, a + 1, a);
    PivotsGrow(groups, a + 1, |rules|);
    var p := Pivots(merge, rules, keys)[o];
    SeparatedHoldsJoined(merge, rules, keys, o, a, m);
    HitWhenVisited(merge, rules, keys, p, m, |rules|);
    ScanValid(merge, rules, keys, p, m);
    MergeStep(merge, PivotScan(merge, rules, keys, p, m).acc, rules[m]);
    var n := MemberMeets(merge, rules, keys, p, m, rules[m]);
    assert Mergeable(rules, keys, n, m);
  }

  /**
   One run leaves nothing to merge exactly when every rule joined to an earlier one overlaps or
   touches an earlier one: a first pivot absorbs what grows outward from it and nothing else.
   */
  lemma OneRunIsEnoughIff(merge: Merger, rules: seq<RegRule>, keys: Keys)
    requires MergesByUnion(merge)
    requires |keys| == |rules| && AllValid(rules)
    ensures Separated(OptimizeBy(merge, rules, keys), PivotKeys(merge, rules, keys)) <==> ListedOutward(rules, keys)
  {
    hide Joined, MeetsEarlier, Separated;
    if ListedOutward(rules, keys) {
      OutwardIsEnough(merge, rules, keys);
    }
    if Separated(OptimizeBy(merge, rules, keys), PivotKeys(merge, rules, keys)) {
      forall a, m | 0 <= a < m < |rules| && Joined(rules, keys, a, m) ensures MeetsEarlier(rules, keys, m) {
        EnoughIsOutward(merge, rules, keys, a, m);
      }
    }
  }

  ghost predicate SortedByStart(rules: seq<RegRule>) {
    forall i, j :: 0 <= i < j < |rules| ==> rules[i].start <= rules[j].start
  }

  /** Rules listed in the order of their starts always grow outward, so one run is enough for them. */
  lemma SortedIsOutward(rules: seq<RegRule>, keys: Keys)
    requires |keys| == |rules| && AllValid(rules) && SortedByStart(rules)
    ensures ListedOutward(rules, keys)
  {
    forall a, m | 0 <= a < m < |rules| && Joined(rules, keys, a, m) ensures MeetsEarlier(rules, keys, m) {
      if rules[a].start == rules[m].start {
        assert Mergeable(rules, keys, a, m);
      } else {
        assert KeyedCovers(rules, keys, keys[a], rules[m].start - 1);
        var n :| 0 <= n < |rules| && keys[n] == keys[a] && InRange(rules[n], rules[m].start - 1);
        assert Mergeable(rules, keys, n, m);
      }
    }
  }

  // ------------------------------------------------------- a second run needed

  /** Both outer rules absorb the middle one when it is listed last, though they never meet each other. */
  lemma LateBridge(merge: Merger, a: RegRule, b: RegRule, c: RegRule, key: bv32)
    requires MergesByUnion(merge) && AllValid([a, b, c])
    requires Apart(a, b) && !Apart(a, c) && !Apart(b, c)
    ensures OptimizeBy(merge, [a, b, c], [key, key, key]) == [RawUnion(a, c, 0), RawUnion(b, c, 0)]
  {
    var rules, keys := [a, b, c], [key, key, key];
    assert IsValidRule(rules[0]) && IsValidRule(rules[1]) && IsValidRule(rules[2]);
    assert Joins(merge, a, b) && Joins(merge, a, c) && Joins(merge, b, a) && Joins(merge, b, c);
    assert PivotScan(merge, rules, keys, 0, 1) == Scan(a, {});
    assert PivotScan(merge, rules, keys, 0, 2) == Scan(a, {});
    assert PivotScan(merge, rules, keys, 0, 3) == Scan(RawUnion(a, c, 0), {2});
    assert PivotScan(merge, rules, keys, 1, 1) == Scan(b, {});
    assert PivotScan(merge, rules, keys, 1, 2) == Scan(b, {});
    assert PivotScan(merge, rules, keys, 1, 3) == Scan(RawUnion(b, c, 0), {2});
    var groups := Groups(merge, rules, keys);
    assert SweepTo(groups, 1) == Sweep([0], {0, 2});
    assert SweepTo(groups, 2) == Sweep([0, 1], {0, 1, 2});
    assert SweepTo(groups, 3) == Sweep([0, 1], {0, 1, 2});
  }

  /** One greedy run may leave two rules of the same key overlapping, so a second run can shrink more. */
  lemma OneRunIsNotEnough()
    ensures var rules := [RegRule(5100000, 5120000, 20000, 0, 2000, 0, 0),
                          RegRule(5140000, 5160000, 20000, 0, 2000, 0, 0),
                          RegRule(5120000, 5140000, 20000, 0, 2000, 0, 0)];
            var out := OptimizeRules(rules);
            AllValid(rules) && !Separated(out, RuleKeys(out))
  {
    var a := RegRule(5100000, 5120000, 20000, 0, 2000, 0, 0);
    var b := RegRule(5140000, 5160000, 20000, 0, 2000, 0, 0);
    var c := RegRule(5120000, 5140000, 20000, 0, 2000, 0, 0);
    var key := RuleKey(a);
    assert RuleKeys([a, b, c]) == [key, key, key];
    MergeRuleByUnion();
    LateBridge(MergeRule, a, b, c, key);
    var out := OptimizeRules([a, b, c]);
    assert out[0].flags == OrFlags(0, 0) == 0;
    assert Mergeable(out, RuleKeys(out), 0, 1);
  }
}
