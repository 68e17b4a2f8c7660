/**
 The rules that end up in one group of the merger, and exactly when a group is uniform: when
 everything merged into a pivot agrees with it on what the key is meant to compare.
 */
module MergeGroups {
  import opened CTypes
  import opened RegRules
  import opened Optimize

  // ----------------------------------------------------- ranges that meet

  /** Ranges that overlap or touch have frequencies that are equal or neighbours. */
  lemma MeetingPoints(a: RegRule, b: RegRule) returns (f: int, g: int)
    requires IsValidRule(a) && IsValidRule(b) && !Apart(a, b)
    ensures InRange(a, f) && InRange(b, g) && -1 <= f - g <= 1
  {
    if a.end == b.start {
      f, g := a.end - 1, b.start;
    } else if b.end == a.start {
      f, g := a.start, b.end - 1;
    } else {
      f := Max(a.start, b.start);
      g := f;
    }
  }

  lemma NearbyMeet(a: RegRule, b: RegRule, f: int, g: int)
    requires InRange(a, f) && InRange(b, g) && -1 <= f - g <= 1
    ensures !Apart(a, b)
  {
  }

  // -------------------------------------------------------------- members

  /** The rules that make up the accumulated rule of pivot `p`. */
  ghost predicate Member(scan: Scan, p: nat, m: int) {
    m == p || m in scan.hits
  }

  lemma MemberAt(merge: Merger, rules: seq<RegRule>, keys: Keys, p: nat, k: nat, f: int) returns (m: nat)
    requires MergesByUnion(merge)
    requires |keys| == |rules| && p < |rules| && k <= |rules| && AllValid(rules)
    requires InRange(PivotScan(merge, rules, keys, p, k).acc, f)
    ensures Member(PivotScan(merge, rules, keys, p, k), p, m) && (m == p || m < k)
    ensures m < |rules| && keys[m] == keys[p] && InRange(rules[m], f)
  {
    ScanSameKey(merge, rules, keys, p, k);
    ScanCovers(merge, rules, keys, p, k, f);
    if InRange(rules[p], f) {
      m := p;
    } else {
      m :| m in PivotScan(merge, rules, keys, p, k).hits && InRange(rules[m], f);
    }
  }

  /** Whatever overlaps or touches the accumulated rule overlaps or touches one of its members. */
  lemma MemberMeets(merge: Merger, rules: seq<RegRule>, keys: Keys, p: nat, k: nat, r: RegRule) returns (m: nat)
    requires MergesByUnion(merge)
    requires |keys| == |rules| && p < |rules| && k <= |rules| && AllValid(rules) && IsValidRule(r)
    requires !Apart(PivotScan(merge, rules, keys, p, k).acc, r)
    ensures Member(PivotScan(merge, rules, keys, p, k), p, m) && (m == p || m < k)
    ensures m < |rules| && keys[m] == keys[p] && !Apart(rules[m], r)
  {
    ScanValid(merge, rules, keys, p, k);
    var f, g := MeetingPoints(PivotScan(merge, rules, keys, p, k).acc, r);
    m := MemberAt(merge, rules, keys, p, k, f);
    NearbyMeet(rules[m], r, f, g);
  }

  /** A rule is merged when it is visited or not at all. */
  lemma {:induction false} HitWhenVisited(merge: Merger, rules: seq<RegRule>, keys: Keys, p: nat, m: nat, k: nat)
    requires |keys| == |rules| && p < |rules| && k <= |rules|
    requires m in PivotScan(merge, rules, keys, p, k).hits
    ensures m < k && m != p && keys[m] == keys[p]
    ensures merge(PivotScan(merge, rules, keys, p, m).acc, rules[m]).Some?
    ensures forall j :: m < j <= k ==> m in PivotScan(merge, rules, keys, p, j).hits
  {
    if m in PivotScan(merge, rules, keys, p, k - 1).hits {
      HitWhenVisited(merge, rules, keys, p, m, k - 1);
    }
  }

  /** A group that holds a rule also holds every later rule that overlaps or touches it. */
  lemma GroupTakesLater(merge: Merger, rules: seq<RegRule>, keys: Keys, p: nat, m: nat, k: nat)
    requires MergesByUnion(merge)
    requires |keys| == |rules| && p < |rules| && m < k < |rules| && AllValid(rules)
    requires Member(Pivot(merge, rules, keys, p), p, m) && Mergeable(rules, keys, m, k)
    ensures Member(Pivot(merge, rules, keys, p), p, k)
  {
    if m != p {
      HitWhenVisited(merge, rules, keys, p, m, |rules|);
    }
    if k != p {
      ScanHits(merge, rules, keys, p, m, k);
    }
  }

  lemma MemberInside(merge: Merger, rules: seq<RegRule>, keys: Keys, p: nat, m: nat)
    requires MergesByUnion(merge)
    requires |keys| == |rules| && p < |rules| && AllValid(rules)
    requires Member(Pivot(merge, rules, keys, p), p, m)
    ensures m < |rules| && keys[m] == keys[p]
    ensures Dominates(Pivot(merge, rules, keys, p).acc, rules[m])
  {
    ScanSameKey(merge, rules, keys, p, |rules|);
    ScanDominates(merge, rules, keys, p, |rules|, m);
  }

  // ------------------------------------------------- what is taken from members

  /** Bandwidth, antenna gain, EIRP, start and end of the accumulated rule are those of members. */
  ghost predicate Attained(rules: seq<RegRule>, p: nat, scan: Scan) {
    && (exists m :: Member(scan, p, m) && 0 <= m < |rules| && rules[m].maxBandwidth == scan.acc.maxBandwidth)
    && (exists m :: Member(scan, p, m) && 0 <= m < |rules| && rules[m].maxAntennaGain == scan.acc.maxAntennaGain)
    && (exists m :: Member(scan, p, m) && 0 <= m < |rules| && rules[m].maxEirp == scan.acc.maxEirp)
    && (exists m :: Member(scan, p, m) && 0 <= m < |rules| && rules[m].start == scan.acc.start)
    && (exists m :: Member(scan, p, m) && 0 <= m < |rules| && rules[m].end == scan.acc.end)
  }

  lemma AttainedGrows(rules: seq<RegRule>, p: nat, scan: Scan, k: nat)
    requires Attained(rules, p, scan) && k < |rules|
    ensures Attained(rules, p, Scan(RawUnion(scan.acc, rules[k], 0), scan.hits + {k}))
  {
    var grown := Scan(RawUnion(scan.acc, rules[k], 0), scan.hits + {k});
    var b :| Member(scan, p, b) && 0 <= b < |rules| && rules[b].maxBandwidth == scan.acc.maxBandwidth;
    var g :| Member(scan, p, g) && 0 <= g < |rules| && rules[g].maxAntennaGain == scan.acc.maxAntennaGain;
    var t :| Member(scan, p, t) && 0 <= t < |rules| && rules[t].start == scan.acc.start;
    var e :| Member(scan, p, e) && 0 <= e < |rules| && rules[e].maxEirp == scan.acc.maxEirp;
    var u :| Member(scan, p, u) && 0 <= u < |rules| && rules[u].end == scan.acc.end;
    assert Member(grown, p, k) && Member(grown, p, b) && Member(grown, p, g) && Member(grown, p, t);
    assert Member(grown, p, e) && Member(grown, p, u);
  }

  lemma {:induction false} ScanAttains(merge: Merger, rules: seq<RegRule>, keys: Keys, p: nat, k: nat)
    requires MergesByUnion(merge)
    requires |keys| == |rules| && p < |rules| && k <= |rules| && AllValid(rules)
    ensures Attained(rules, p, PivotScan(merge, rules, keys, p, k))
  {
    hide Attained;
    if k == 0 {
      AttainedAtFirst(rules, p);
    } else {
      ScanAttains(merge, rules, keys, p, k - 1);
      var before := PivotScan(merge, rules, keys, p, k - 1);
      ScanValid(merge, rules, keys, p, k - 1);
      assert Joins(merge, before.acc, rules[k - 1]);
      AttainedGrows(rules, p, before, k - 1);
    }
  }

  lemma AttainedAtFirst(rules: seq<RegRule>, p: nat)
    requires p < |rules|
    ensures Attained(rules, p, Scan(rules[p], {}))
  {
    assert Member(Scan(rules[p], {}), p, p);
  }

  /** Who obeys the flags of the accumulated rule obeys those of all its members, and the other way round. */
  lemma {:induction false} ScanHonours(merge: Merger, rules: seq<RegRule>, keys: Keys, p: nat, k: nat, honoured: bv32)
    requires MergesByUnion(merge)
    requires |keys| == |rules| && p < |rules| && k <= |rules| && AllValid(rules)
    ensures Honours(PivotScan(merge, rules, keys, p, k).acc.flags, honoured) <==>
            forall m :: 0 <= m < |rules| && Member(PivotScan(merge, rules, keys, p, k), p, m) ==>
              Honours(rules[m].flags, honoured)
  {
    hide Honours, OrFlags;
    if k > 0 {
      ScanHonours(merge, rules, keys, p, k - 1, honoured);
      var before := PivotScan(merge, rules, keys, p, k - 1);
      ScanValid(merge, rules, keys, p, k - 1);
      assert Joins(merge, before.acc, rules[k - 1]);
      HonoursBoth(before.acc.flags, rules[k - 1].flags, honoured);
    }
  }

  // --------------------------------------------------------- uniform groups

  /** If two rules agree on `view`, their union agrees with them. */
  ghost predicate UnionAgrees<T>(view: RegRule -> T, a: RegRule, b: RegRule) {
    view(a) == view(b) ==> view(RawUnion(a, b, 0)) == view(b)
  }

  ghost predicate UnionKeeps<T>(view: RegRule -> T) {
    forall a, b :: UnionAgrees(view, a, b)
  }

  /** Rules that may be merged, since their keys are equal and their ranges meet, agree on `view`. */
  ghost predicate NoMixedMerge<T>(view: RegRule -> T, rules: seq<RegRule>, keys: Keys)
    requires |keys| == |rules|
  {
    forall i, j :: 0 <= i < |rules| && 0 <= j < |rules| && Mergeable(rules, keys, i, j) ==>
      view(rules[i]) == view(rules[j])
  }

  /** The accumulated rule of `p` agrees on `view` with every rule it stands for. */
  ghost predicate UniformGroup<T>(view: RegRule -> T, rules: seq<RegRule>, p: nat, scan: Scan)
    requires p < |rules|
  {
    forall m :: Member(scan, p, m) ==> 0 <= m < |rules| && view(rules[m]) == view(scan.acc)
  }

  ghost predicate UniformGroups<T>(view: RegRule -> T, merge: Merger, rules: seq<RegRule>, keys: Keys)
    requires |keys| == |rules|
  {
    forall j :: 0 <= j < |Pivots(merge, rules, keys)| ==>
      var p := Pivots(merge, rules, keys)[j]; UniformGroup(view, rules, p, Pivot(merge, rules, keys, p))
  }

  lemma {:induction false} ScanUniform<T>(view: RegRule -> T, merge: Merger, rules: seq<RegRule>, keys: Keys,
                                          p: nat, k: nat)
    requires UnionKeeps(view) && MergesByUnion(merge)
    requires |keys| == |rules| && p < |rules| && k <= |rules| && AllValid(rules)
    requires NoMixedMerge(view, rules, keys)
    ensures UniformGroup(view, rules, p, PivotScan(merge, rules, keys, p, k))
  {
    if k > 0 {
      ScanUniform(view, merge, rules, keys, p, k - 1);
      var before := PivotScan(merge, rules, keys, p, k - 1);
      if PivotScan(merge, rules, keys, p, k) != before {
        var r := rules[k - 1];
        ScanValid(merge, rules, keys, p, k - 1);
        assert Joins(merge, before.acc, r);
        var m := MemberMeets(merge, rules, keys, p, k - 1, r);
        assert Mergeable(rules, keys, m, k - 1);
        assert UnionAgrees(view, before.acc, r);
      }
    }
  }

  lemma UniformOnPair<T>(view: RegRule -> T, merge: Merger, rules: seq<RegRule>, keys: Keys, i: nat, j: nat)
    requires MergesByUnion(merge)
    requires |keys| == |rules| && i < j < |rules| && AllValid(rules)
    requires UniformGroups(view, merge, rules, keys) && Mergeable(rules, keys, i, j)
    ensures view(rules[i]) == view(rules[j])
  {
    var o := SweepOwns(Groups(merge, rules, keys), |rules|, i);
    var p := Pivots(merge, rules, keys)[o];
    GroupTakesLater(merge, rules, keys, p, i, j);
    assert UniformGroup(view, rules, p, Pivot(merge, rules, keys, p));
  }

  /**
   Every output rule agrees with all the rules it stands for exactly when no two rules that may be
   merged differ: the first disagreement among them always shows in some group.
   */
  lemma UniformIffNoMixedMerge<T>(view: RegRule -> T, merge: Merger, rules: seq<RegRule>, keys: Keys)
    requires UnionKeeps(view) && MergesByUnion(merge)
    requires |keys| == |rules| && AllValid(rules)
    ensures UniformGroups(view, merge, rules, keys) <==> NoMixedMerge(view, rules, keys)
  {
    if NoMixedMerge(view, rules, keys) {
      forall j | 0 <= j < |Pivots(merge, rules, keys)|
        ensures var p := Pivots(merge, rules, keys)[j];
                UniformGroup(view, rules, p, Pivot(merge, rules, keys, p))
      {
        ScanUniform(view, merge, rules, keys, Pivots(merge, rules, keys)[j], |rules|);
      }
    }
    if UniformGroups(view, merge, rules, keys) {
      forall i, j | 0 <= i < |rules| && 0 <= j < |rules| && Mergeable(rules, keys, i, j)
        ensures view(rules[i]) == view(rules[j])
      {
        if i < j {
          UniformOnPair(view, merge, rules, keys, i, j);
        } else {
          assert Mergeable(rules, keys, j, i);
          UniformOnPair(view, merge, rules, keys, j, i);
        }
      }
    }
  }
}
