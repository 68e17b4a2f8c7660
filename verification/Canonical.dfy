/**
 Repeated optimization has one answer: on unmixed rules the normal form does not depend on the
 order in which the rules were listed, and which channels it allows can be read off the input.
 */
module Canonical {
  import opened CTypes
  import opened RegRules
  import opened Optimize
  import opened MergeGroups
  import opened OneRun
  import opened NormalForm

  lemma MaximaChain(r: RegRule, out: seq<RegRule>, rules: seq<RegRule>)
    requires TakesMaxima(r, out)
    requires forall j :: 0 <= j < |out| ==> TakesMaxima(out[j], rules)
    ensures TakesMaxima(r, rules)
  {
    hide RuleKey, SamePower;
    var b :| Within(out, b, r) && out[b].maxBandwidth == r.maxBandwidth;
    var b' :| Within(rules, b', out[b]) && rules[b'].maxBandwidth == out[b].maxBandwidth;
    WithinChain(rules, b', out, b, r);
    var g :| Within(out, g, r) && out[g].maxAntennaGain == r.maxAntennaGain;
    var g' :| Within(rules, g', out[g]) && rules[g'].maxAntennaGain == out[g].maxAntennaGain;
    WithinChain(rules, g', out, g, r);
  }

  lemma WithinChain(rules: seq<RegRule>, m: int, out: seq<RegRule>, j: int, r: RegRule)
    requires Within(out, j, r) && Within(rules, m, out[j])
    ensures Within(rules, m, r)
  {
    hide RuleKey;
  }

  /** If nothing is mixed, what each key covers and what each frequency offers survive every run. */
  lemma {:induction false} NormalFormKeeps(rules: seq<RegRule>)
    requires AllValid(rules) && Unmixed(rules)
    ensures Unmixed(OptimizeFully(rules))
    ensures forall key, f :: KeyCovers(OptimizeFully(rules), key, f) <==> KeyCovers(rules, key, f)
    ensures forall f, e, fl :: Offers(OptimizeFully(rules), f, e, fl) <==> Offers(rules, f, e, fl)
    decreases |rules|
  {
    hide RuleKey, OptimizeRules, Unmixed, KeyCovers, Offers;
    OptimizeRun(rules);
    var out := OptimizeRules(rules);
    if |out| < |rules| {
      OptimizeStaysUnmixed(rules);
      NormalFormKeeps(out);
      forall key, f ensures KeyCovers(out, key, f) <==> KeyCovers(rules, key, f) {
        OptimizeKeepsKeyCover(rules, key, f);
      }
      forall f, e, fl ensures Offers(out, f, e, fl) <==> Offers(rules, f, e, fl) {
        OptimizeKeepsOffers(rules, f, e, fl);
      }
    }
  }

  lemma {:induction false} NormalFormTakesMaxima(rules: seq<RegRule>)
    requires AllValid(rules) && Unmixed(rules)
    ensures forall r :: r in OptimizeFully(rules) ==> TakesMaxima(r, rules)
    decreases |rules|
  {
    hide RuleKey, OptimizeRules, Unmixed, TakesMaxima, Within;
    OptimizeRun(rules);
    var out := OptimizeRules(rules);
    forall r | r in OptimizeFully(rules) ensures TakesMaxima(r, rules) {
      if |out| < |rules| {
        OptimizeStaysUnmixed(rules);
        NormalFormTakesMaxima(out);
        forall j | 0 <= j < |out| ensures TakesMaxima(out[j], rules) {
          OutputWithin(rules, j);
        }
        MaximaChain(r, out, rules);
      } else {
        var m :| 0 <= m < |rules| && rules[m] == r;
        TakesOwn(rules, m);
      }
    }
  }

  lemma TakesOwn(rules: seq<RegRule>, m: nat)
    requires m < |rules|
    ensures TakesMaxima(rules[m], rules)
  {
    WithinItself(rules, m);
  }

  lemma WithinItself(rules: seq<RegRule>, m: nat)
    requires m < |rules|
    ensures Within(rules, m, rules[m])
  {
  }

  // -------------------------------------------- separated lists are canonical

  ghost predicate SeparatedRules(rules: seq<RegRule>) {
    AllValid(rules) && Separated(rules, RuleKeys(rules))
  }

  ghost predicate SameKeyCover(a: seq<RegRule>, b: seq<RegRule>) {
    forall key, f :: KeyCovers(a, key, f) <==> KeyCovers(b, key, f)
  }

  lemma CoversItself(rules: seq<RegRule>, j: nat, f: int)
    requires j < |rules|
    ensures InRange(rules[j], f) ==> KeyCovers(rules, RuleKey(rules[j]), f)
  {
    hide RuleKey;
    assert RuleKeys(rules)[j] == RuleKey(rules[j]);
  }

  lemma OuterRange(a: seq<RegRule>, b: seq<RegRule>, i: nat, j: nat, f: int)
    requires SeparatedRules(a) && SeparatedRules(b) && SameKeyCover(a, b)
    requires i < |a| && j < |b| && RuleKey(a[i]) == RuleKey(b[j])
    requires InRange(a[i], f) && InRange(b[j], f)
    ensures a[i].start <= b[j].start && b[j].end <= a[i].end
  {
    hide RuleKey;
    EdgesUncovered(a, RuleKeys(a), i);
    CoversItself(b, j, a[i].start - 1);
    CoversItself(b, j, a[i].end);
    assert !KeyCovers(b, RuleKey(a[i]), a[i].start - 1) && !KeyCovers(b, RuleKey(a[i]), a[i].end);
  }

  /** Separated lists covering the same frequencies key by key consist of the same ranges. */
  lemma SeparatedIsCanonical(a: seq<RegRule>, b: seq<RegRule>, i: nat) returns (j: nat)
    requires SeparatedRules(a) && SeparatedRules(b) && SameKeyCover(a, b) && i < |a|
    ensures j < |b| && RuleKey(b[j]) == RuleKey(a[i]) && b[j].start == a[i].start && b[j].end == a[i].end
  {
    hide RuleKey;
    assert InRange(a[i], a[i].start);
    CoversItself(a, i, a[i].start);
    assert KeyCovers(b, RuleKey(a[i]), a[i].start);
    j :| 0 <= j < |b| && InRange(b[j], a[i].start) && RuleKey(b[j]) == RuleKey(a[i]);
    OuterRange(a, b, i, j, a[i].start);
    OuterRange(b, a, j, i, a[i].start);
  }

  // -------------------------------------------------------- order independence

  lemma ReorderKeeps(a: seq<RegRule>, b: seq<RegRule>)
    requires multiset(a) == multiset(b) && AllValid(a) && Unmixed(a)
    ensures AllValid(b) && Unmixed(b) && SameKeyCover(a, b)
  {
    hide RuleKey;
    forall j | 0 <= j < |b| ensures b[j] in a {
      assert b[j] in multiset(b);
    }
    forall i | 0 <= i < |a| ensures a[i] in b {
      assert a[i] in multiset(a);
    }
    forall i, j | 0 <= i < |b| && 0 <= j < |b| && Mergeable(b, RuleKeys(b), i, j)
      ensures PowerOf(b[i]) == PowerOf(b[j])
    {
      if b[i] != b[j] {
        var m :| 0 <= m < |a| && a[m] == b[i];
        var n :| 0 <= n < |a| && a[n] == b[j];
        assert Mergeable(a, RuleKeys(a), m, n);
      }
    }
    forall key, f ensures KeyCovers(a, key, f) <==> KeyCovers(b, key, f) {
      if i :| 0 <= i < |a| && InRange(a[i], f) && RuleKey(a[i]) == key {
        var j :| 0 <= j < |b| && b[j] == a[i];
        CoversItself(b, j, f);
      }
      if j :| 0 <= j < |b| && InRange(b[j], f) && RuleKey(b[j]) == key {
        var i :| 0 <= i < |a| && a[i] == b[j];
        CoversItself(a, i, f);
      }
    }
  }

  /** Each maximum of `r` is also reached by the rule of the other normal form over the same range. */
  lemma MaximaBelow(r: RegRule, a: seq<RegRule>, b: seq<RegRule>, nf: seq<RegRule>, j: nat)
    requires multiset(a) == multiset(b) && TakesMaxima(r, a)
    requires AllValid(b) && Unmixed(b) && nf == OptimizeFully(b) && SeparatedRules(nf)
    requires j < |nf| && RuleKey(nf[j]) == RuleKey(r) && nf[j].start == r.start && nf[j].end == r.end
    ensures r.maxBandwidth <= nf[j].maxBandwidth && r.maxAntennaGain <= nf[j].maxAntennaGain
  {
    hide RuleKey, OptimizeFully, Unmixed, SeparatedRules;
    var m :| Within(a, m, r) && a[m].maxBandwidth == r.maxBandwidth;
    assert a[m] in multiset(a);
    DominatedHere(b, a[m], j);
    var g :| Within(a, g, r) && a[g].maxAntennaGain == r.maxAntennaGain;
    assert a[g] in multiset(a);
    DominatedHere(b, a[g], j);
  }

  /** An input rule inside a normal-form rule of its key is dominated by that very rule. */
  lemma DominatedHere(b: seq<RegRule>, s: RegRule, j: nat)
    requires AllValid(b) && Unmixed(b) && s in b
    requires SeparatedRules(OptimizeFully(b)) && j < |OptimizeFully(b)|
    requires var r := OptimizeFully(b)[j]; RuleKey(s) == RuleKey(r) && r.start <= s.start && s.end <= r.end
    ensures Dominates(OptimizeFully(b)[j], s)
  {
    hide RuleKey, OptimizeFully, Unmixed;
    var i := SurvivesFully(b, s);
    assert !Mergeable(OptimizeFully(b), RuleKeys(OptimizeFully(b)), i, j);
  }

  lemma {:induction false} SurvivesFully(rules: seq<RegRule>, s: RegRule) returns (i: nat)
    requires AllValid(rules) && Unmixed(rules) && s in rules
    ensures IsValidRule(s)
    ensures i < |OptimizeFully(rules)| && RuleKey(OptimizeFully(rules)[i]) == RuleKey(s)
    ensures Dominates(OptimizeFully(rules)[i], s)
    decreases |rules|
  {
    hide RuleKey, OptimizeRules, Unmixed;
    OptimizeRun(rules);
    var out := OptimizeRules(rules);
    var m :| 0 <= m < |rules| && rules[m] == s;
    if |out| < |rules| {
      var j := InputSurvives(rules, m);
      OptimizeStaysUnmixed(rules);
      i := SurvivesFully(out, out[j]);
      DominatesChain(OptimizeFully(out)[i], out[j], s);
    } else {
      i := m;
      DominatesSelf(s);
    }
  }

  lemma NormalFormSeparated(rules: seq<RegRule>)
    requires AllValid(rules) && Unmixed(rules)
    ensures SeparatedRules(OptimizeFully(rules)) && SameKeyCover(OptimizeFully(rules), rules)
  {
    hide RuleKey, OptimizeFully, Unmixed, KeyCovers;
    NormalFormMeaning(rules);
    NormalFormKeeps(rules);
  }

  lemma SameKeyCoverChain(a: seq<RegRule>, b: seq<RegRule>, c: seq<RegRule>, d: seq<RegRule>)
    requires SameKeyCover(a, b) && SameKeyCover(b, c) && SameKeyCover(d, c)
    ensures SameKeyCover(a, d)
  {
    hide KeyCovers;
  }

  lemma SameMaxima(a: seq<RegRule>, b: seq<RegRule>, i: nat, j: nat)
    requires multiset(a) == multiset(b) && AllValid(a) && Unmixed(a) && AllValid(b) && Unmixed(b)
    requires i < |OptimizeFully(a)| && j < |OptimizeFully(b)|
    requires var r, s := OptimizeFully(a)[i], OptimizeFully(b)[j];
             RuleKey(r) == RuleKey(s) && r.start == s.start && r.end == s.end
    ensures OptimizeFully(a)[i].maxBandwidth <= OptimizeFully(b)[j].maxBandwidth
    ensures OptimizeFully(a)[i].maxAntennaGain <= OptimizeFully(b)[j].maxAntennaGain
  {
    hide RuleKey, OptimizeFully, Unmixed, TakesMaxima, SeparatedRules, SameKeyCover;
    NormalFormTakesMaxima(a);
    NormalFormSeparated(b);
    MaximaBelow(OptimizeFully(a)[i], a, b, OptimizeFully(b), j);
  }

  /** Each frequency of a normal-form rule comes from an input rule of its key and power. */
  lemma {:induction false} ComesFrom(rules: seq<RegRule>, i: nat, f: int) returns (m: nat)
    requires AllValid(rules) && Unmixed(rules) && i < |OptimizeFully(rules)|
    requires InRange(OptimizeFully(rules)[i], f)
    ensures Within(rules, m, OptimizeFully(rules)[i]) && InRange(rules[m], f)
    decreases |rules|
  {
    hide RuleKey, OptimizeRules, Unmixed, SamePower;
    OptimizeRun(rules);
    var out := OptimizeRules(rules);
    if |out| < |rules| {
      OptimizeStaysUnmixed(rules);
      var k := ComesFrom(out, i, f);
      m := OutputOrigin(rules, k, f);
      WithinChain(rules, m, out, k, OptimizeFully(rules)[i]);
    } else {
      m := i;
      WithinItself(rules, m);
    }
  }

  lemma SamePowerAcross(a: seq<RegRule>, b: seq<RegRule>, i: nat, j: nat, f: int)
    requires multiset(a) == multiset(b) && AllValid(a) && Unmixed(a) && AllValid(b) && Unmixed(b)
    requires i < |OptimizeFully(a)| && j < |OptimizeFully(b)|
    requires RuleKey(OptimizeFully(a)[i]) == RuleKey(OptimizeFully(b)[j])
    requires InRange(OptimizeFully(a)[i], f) && InRange(OptimizeFully(b)[j], f)
    ensures SamePower(OptimizeFully(a)[i], OptimizeFully(b)[j])
  {
    hide RuleKey, OptimizeFully, Unmixed;
    var m := ComesFrom(a, i, f);
    var n := ComesFrom(b, j, f);
    assert b[n] in multiset(b);
    var k :| 0 <= k < |a| && a[k] == b[n];
    MeetingKeepsPower(a, OptimizeFully(a)[i], OptimizeFully(b)[j], m, k, f, f);
  }

  /** Equal but for the CAC time, which a rule loses when it is merged. */
  ghost predicate SameButCac(r: RegRule, s: RegRule) {
    s == r.(dfsCacMs := s.dfsCacMs)
  }

  lemma NormalFormCounterpart(a: seq<RegRule>, b: seq<RegRule>, i: nat) returns (j: nat)
    requires multiset(a) == multiset(b) && AllValid(a) && Unmixed(a) && AllValid(b) && Unmixed(b)
    requires i < |OptimizeFully(a)|
    ensures j < |OptimizeFully(b)| && SameButCac(OptimizeFully(a)[i], OptimizeFully(b)[j])
  {
    hide RuleKey, OptimizeFully, Unmixed, SameKeyCover;
    ReorderKeeps(a, b);
    NormalFormSeparated(a);
    NormalFormSeparated(b);
    SameKeyCoverChain(OptimizeFully(a), a, b, OptimizeFully(b));
    j := SeparatedIsCanonical(OptimizeFully(a), OptimizeFully(b), i);
    SameMaxima(a, b, i, j);
    SameMaxima(b, a, j, i);
    SamePowerAcross(a, b, i, j, OptimizeFully(a)[i].start);
  }

  /** The rules with their CAC times erased. */
  function WithoutCac(rules: seq<RegRule>): (out: seq<RegRule>)
    ensures |out| == |rules|
    ensures forall i :: 0 <= i < |rules| ==> out[i] == rules[i].(dfsCacMs := 0)
  {
    seq(|rules|, i requires 0 <= i < |rules| => rules[i].(dfsCacMs := 0))
  }

  ghost predicate Distinct<T>(s: seq<T>) {
    forall i, j :: 0 <= i < j < |s| ==> s[i] != s[j]
  }

  lemma {:induction false} DistinctCounts<T>(s: seq<T>, x: T)
    requires Distinct(s)
    ensures multiset(s)[x] == if x in s then 1 else 0
  {
    if s != [] {
      DistinctCounts(s[1..], x);
      assert s == [s[0]] + s[1..];
    }
  }

  lemma DistinctSameMembers<T>(s: seq<T>, t: seq<T>)
    requires Distinct(s) && Distinct(t) && forall x :: x in s <==> x in t
    ensures multiset(s) == multiset(t)
  {
    forall x: T ensures multiset(s)[x] == multiset(t)[x] {
      DistinctCounts(s, x);
      DistinctCounts(t, x);
    }
  }

  lemma KeyIgnoresCac(r: RegRule, s: RegRule)
    requires SameButCac(r, s)
    ensures RuleKey(r) == RuleKey(s)
  {
  }

  /** No two rules of a separated list are equal, even with their CAC times erased. */
  lemma SeparatedIsDistinct(rules: seq<RegRule>)
    requires SeparatedRules(rules)
    ensures Distinct(WithoutCac(rules))
  {
    hide RuleKey;
    var out := WithoutCac(rules);
    forall i, j | 0 <= i < j < |out| ensures out[i] != out[j] {
      assert !Mergeable(rules, RuleKeys(rules), i, j);
      if out[i] == out[j] {
        KeyIgnoresCac(rules[i], rules[j]);
      }
    }
  }

  lemma NormalFormMembers(a: seq<RegRule>, b: seq<RegRule>, x: RegRule)
    requires multiset(a) == multiset(b) && AllValid(a) && Unmixed(a) && AllValid(b) && Unmixed(b)
    ensures x in WithoutCac(OptimizeFully(a)) ==> x in WithoutCac(OptimizeFully(b))
  {
    hide RuleKey, OptimizeFully, Unmixed;
    var nf := WithoutCac(OptimizeFully(a));
    if i :| 0 <= i < |nf| && nf[i] == x {
      var j := NormalFormCounterpart(a, b, i);
      assert WithoutCac(OptimizeFully(b))[j] == x;
    }
  }

  /**
   Listing the same rules in another order gives, up to the CAC times, the same normal-form rules:
   the fields of a merged component are determined by the rules, not by the greedy order.
   */
  lemma NormalFormOrderIndependent(a: seq<RegRule>, b: seq<RegRule>)
    requires multiset(a) == multiset(b) && AllValid(a) && Unmixed(a)
    ensures AllValid(b) && |OptimizeFully(a)| == |OptimizeFully(b)|
    ensures multiset(WithoutCac(OptimizeFully(a))) == multiset(WithoutCac(OptimizeFully(b)))
  {
    hide RuleKey, OptimizeFully, Unmixed, SeparatedRules, SameKeyCover, Distinct;
    ReorderKeeps(a, b);
    NormalFormSeparated(a);
    NormalFormSeparated(b);
    SeparatedIsDistinct(OptimizeFully(a));
    SeparatedIsDistinct(OptimizeFully(b));
    var us, vs := WithoutCac(OptimizeFully(a)), WithoutCac(OptimizeFully(b));
    forall x ensures x in us <==> x in vs {
      NormalFormMembers(a, b, x);
      NormalFormMembers(b, a, x);
    }
    DistinctSameMembers(us, vs);
    assert |multiset(us)| == |us| && |multiset(vs)| == |vs|;
  }

  // -------------------------------------------------- channels that are allowed

  /** No gap of `key` in the smallest stretch that holds both the channel and rule `m` of that key. */
  ghost predicate JoinedTo(rules: seq<RegRule>, key: bv32, c: Channel, m: int) {
    && 0 <= m < |rules| && RuleKey(rules[m]) == key && c.lo < c.hi
    && var lo := if c.lo < rules[m].start then c.lo else rules[m].start;
       var hi := if c.hi > rules[m].end then c.hi else rules[m].end;
       Gapless(rules, RuleKeys(rules), key, lo, hi)
  }

  /**
   The channel fits into rules of one key taken together: its range has no gap of that key, and the
   bandwidth, the antenna gain and the power are each granted by some rule joined to it.
   */
  ghost predicate AllowsTogether(rules: seq<RegRule>, c: Channel, key: bv32) {
    && (exists b :: JoinedTo(rules, key, c, b) && c.hi - c.lo <= rules[b].maxBandwidth)
    && (exists g :: JoinedTo(rules, key, c, g) && c.gain <= rules[g].maxAntennaGain)
    && (exists e :: JoinedTo(rules, key, c, e) && c.eirp <= rules[e].maxEirp && Honours(rules[e].flags, c.honoured))
  }

  /** A rule that is gapless in its key joins the channels it permits to the rules within it. */
  lemma WithinIsJoined(rules: seq<RegRule>, r: RegRule, c: Channel, m: int)
    requires Within(rules, m, r) && r.start <= c.lo < c.hi <= r.end
    requires Gapless(rules, RuleKeys(rules), RuleKey(r), r.start, r.end)
    ensures JoinedTo(rules, RuleKey(r), c, m)
  {
    hide RuleKey, KeyedCovers;
  }

  lemma NormalFormGapless(rules: seq<RegRule>, key: bv32, lo: int, hi: int)
    requires AllValid(rules) && Unmixed(rules)
    ensures Gapless(OptimizeFully(rules), RuleKeys(OptimizeFully(rules)), key, lo, hi) <==>
            Gapless(rules, RuleKeys(rules), key, lo, hi)
  {
    hide RuleKey, OptimizeFully, Unmixed, KeyedCovers;
    NormalFormKeeps(rules);
    var nf := OptimizeFully(rules);
    forall f ensures KeyedCovers(nf, RuleKeys(nf), key, f) <==> KeyedCovers(rules, RuleKeys(rules), key, f) {
      assert KeyCovers(nf, key, f) <==> KeyCovers(rules, key, f);
    }
  }

  lemma GaplessItself(rules: seq<RegRule>, j: nat)
    requires j < |rules|
    ensures Gapless(rules, RuleKeys(rules), RuleKey(rules[j]), rules[j].start, rules[j].end)
  {
    hide RuleKey;
    assert RuleKeys(rules)[j] == RuleKey(rules[j]);
  }

  lemma AllowedTogether(rules: seq<RegRule>, j: nat, c: Channel)
    requires AllValid(rules) && Unmixed(rules) && j < |OptimizeFully(rules)| && Permits(OptimizeFully(rules)[j], c)
    ensures AllowsTogether(rules, c, RuleKey(OptimizeFully(rules)[j]))
  {
    hide RuleKey, OptimizeFully, Unmixed, Gapless, Honours;
    var r := OptimizeFully(rules)[j];
    GaplessItself(OptimizeFully(rules), j);
    NormalFormGapless(rules, RuleKey(r), r.start, r.end);
    NormalFormTakesMaxima(rules);
    assert TakesMaxima(r, rules);
    var b :| Within(rules, b, r) && rules[b].maxBandwidth == r.maxBandwidth;
    var g :| Within(rules, g, r) && rules[g].maxAntennaGain == r.maxAntennaGain;
    var e := ComesFrom(rules, j, c.lo);
    WithinIsJoined(rules, r, c, b);
    WithinIsJoined(rules, r, c, g);
    WithinIsJoined(rules, r, c, e);
  }

  /** The normal-form rule of a key that covers the channel's start dominates all rules joined to the channel. */
  lemma HoldsJoined(rules: seq<RegRule>, j: nat, c: Channel, m: int)
    requires AllValid(rules) && Unmixed(rules) && j < |OptimizeFully(rules)|
    requires InRange(OptimizeFully(rules)[j], c.lo)
    requires JoinedTo(rules, RuleKey(OptimizeFully(rules)[j]), c, m)
    ensures var r := OptimizeFully(rules)[j]; c.hi <= r.end && Dominates(r, rules[m]) && SamePower(rules[m], r)
  {
    hide RuleKey, OptimizeFully, Unmixed, Gapless;
    var nf := OptimizeFully(rules);
    var lo := if c.lo < rules[m].start then c.lo else rules[m].start;
    var hi := if c.hi > rules[m].end then c.hi else rules[m].end;
    NormalFormSeparated(rules);
    NormalFormGapless(rules, RuleKey(nf[j]), lo, hi);
    HoldsGapless(nf, RuleKeys(nf), j, c.lo, lo, hi);
    DominatedHere(rules, rules[m], j);
    var n := ComesFrom(rules, j, rules[m].start);
    SameKeyMeets(rules, m, n, rules[m].start);
  }

  lemma SameKeyMeets(rules: seq<RegRule>, m: nat, n: nat, f: int)
    requires Unmixed(rules) && m < |rules| && n < |rules| && RuleKey(rules[m]) == RuleKey(rules[n])
    requires InRange(rules[m], f) && InRange(rules[n], f)
    ensures SamePower(rules[m], rules[n])
  {
    hide RuleKey;
    NearbyMeet(rules[m], rules[n], f, f);
    assert m != n ==> Mergeable(rules, RuleKeys(rules), m, n);
  }

  lemma JoinedReaches(rules: seq<RegRule>, c: Channel, key: bv32, m: int) returns (j: nat)
    requires AllValid(rules) && Unmixed(rules) && JoinedTo(rules, key, c, m)
    ensures c.lo < c.hi && j < |OptimizeFully(rules)|
    ensures RuleKey(OptimizeFully(rules)[j]) == key && InRange(OptimizeFully(rules)[j], c.lo)
  {
    hide RuleKey, OptimizeFully, Unmixed;
    var nf := OptimizeFully(rules);
    NormalFormKeeps(rules);
    assert KeyCovers(rules, key, c.lo);
    assert KeyCovers(nf, key, c.lo);
    j :| 0 <= j < |nf| && RuleKey(nf[j]) == key && InRange(nf[j], c.lo);
  }

  lemma TogetherAllowed(rules: seq<RegRule>, c: Channel, key: bv32)
    requires AllValid(rules) && Unmixed(rules) && AllowsTogether(rules, c, key)
    ensures Allows(OptimizeFully(rules), c)
  {
    hide RuleKey, OptimizeFully, Unmixed, Honours, Gapless;
    var nf := OptimizeFully(rules);
    var b :| JoinedTo(rules, key, c, b) && c.hi - c.lo <= rules[b].maxBandwidth;
    var g :| JoinedTo(rules, key, c, g) && c.gain <= rules[g].maxAntennaGain;
    var e :| JoinedTo(rules, key, c, e) && c.eirp <= rules[e].maxEirp && Honours(rules[e].flags, c.honoured);
    var j := JoinedReaches(rules, c, key, b);
    HoldsJoined(rules, j, c, b);
    HoldsJoined(rules, j, c, g);
    HoldsJoined(rules, j, c, e);
    assert Permits(nf[j], c);
  }

  /**
   Which channels repeated optimization allows, in terms of the rules it started from: exactly those
   that fit into rules of one key taken together. What is new are channels across a join, and the
   widest bandwidth and highest gain of a joined stretch offered throughout it.
   */
  lemma NormalFormAllows(rules: seq<RegRule>, c: Channel)
    requires AllValid(rules) && Unmixed(rules)
    ensures Allows(OptimizeFully(rules), c) <==> exists key :: AllowsTogether(rules, c, key)
  {
    hide RuleKey, OptimizeFully, Unmixed, AllowsTogether;
    var nf := OptimizeFully(rules);
    if j :| 0 <= j < |nf| && Permits(nf[j], c) {
      AllowedTogether(rules, j, c);
    }
    if key :| AllowsTogether(rules, c, key) {
      TogetherAllowed(rules, c, key);
    }
  }

  lemma UnmixedFlags(rules: seq<RegRule>)
    requires Unmixed(rules)
    ensures NoMixedMerge(FlagsOf, rules, RuleKeys(rules))
  {
    hide RuleKey;
    forall i, j | 0 <= i < |rules| && 0 <= j < |rules| && Mergeable(rules, RuleKeys(rules), i, j)
      ensures FlagsOf(rules[i]) == FlagsOf(rules[j])
    {
      assert PowerOf(rules[i]) == PowerOf(rules[j]);
    }
  }

  lemma {:induction false} NormalFormKeepsChannels(rules: seq<RegRule>, c: Channel)
    requires AllValid(rules) && Unmixed(rules) && Allows(rules, c)
    ensures Allows(OptimizeFully(rules), c)
    decreases |rules|
  {
    hide RuleKey, OptimizeRules, Unmixed, Allows, NoMixedMerge;
    OptimizeRun(rules);
    var out := OptimizeRules(rules);
    if |out| < |rules| {
      UnmixedFlags(rules);
      OptimizeKeepsChannels(rules, c);
      OptimizeStaysUnmixed(rules);
      NormalFormKeepsChannels(out, c);
    }
  }

  /** Every run only adds channels, and in the end exactly those that fit into joined rules are allowed. */
  lemma RunsOnlyAddChannels(rules: seq<RegRule>, c: Channel)
    requires AllValid(rules) && Unmixed(rules)
    ensures Allows(rules, c) ==> Allows(OptimizeRules(rules), c)
    ensures Allows(OptimizeRules(rules), c) ==> exists key :: AllowsTogether(rules, c, key)
  {
    hide RuleKey, OptimizeRules, Unmixed, Allows, NoMixedMerge, AllowsTogether;
    OptimizeRun(rules);
    var out := OptimizeRules(rules);
    UnmixedFlags(rules);
    if Allows(rules, c) {
      OptimizeKeepsChannels(rules, c);
    }
    if Allows(out, c) {
      OptimizeStaysUnmixed(rules);
      NormalFormKeepsChannels(out, c);
      RepeatingGainsNothing(rules);
      NormalFormAllows(rules, c);
    }
  }

  // ------------------------------------------------------- limits of the key

  lemma MergesPair(merge: Merger, a: RegRule, b: RegRule, key: bv32)
    requires MergesByUnion(merge) && AllValid([a, b]) && !Apart(a, b)
    ensures OptimizeBy(merge, [a, b], [key, key]) == [RawUnion(a, b, 0)]
  {
    var rules, keys := [a, b], [key, key];
    assert IsValidRule(rules[0]) && IsValidRule(rules[1]);
    assert Joins(merge, a, b);
    assert PivotScan(merge, rules, keys, 0, 1) == Scan(a, {});
    assert PivotScan(merge, rules, keys, 0, 2) == Scan(RawUnion(a, b, 0), {1});
    var groups := Groups(merge, rules, keys);
    assert SweepTo(groups, 1) == Sweep([0], {0, 1});
    assert SweepTo(groups, 2) == Sweep([0], {0, 1});
  }

  lemma CollidingPair(a: RegRule, b: RegRule)
    requires a.start == b.start && a.maxEirp == 1744 && a.flags == 0 && b.maxEirp == 2000 && b.flags == 1
    ensures RuleKey(a) == RuleKey(b)
  {
    hide DeduceBand;
    assert (1744 as bv32) == 0x6D0 && (2000 as bv32) == 0x7D0;
  }

  /**
   Keys can collide: two overlapping rules that differ in EIRP and in a restriction are merged,
   so a channel the input allowed is allowed no longer.
   */
  lemma CollidingKeysLoseAChannel()
    ensures var rules := [RegRule(5170000, 5250000, 80000, 0, 1744, 0, 0),
                          RegRule(5170000, 5250000, 80000, 0, 2000, 1, 0)];
            var c := Channel(5170000, 5190000, 0, 1000, 0);
            AllValid(rules) && Allows(rules, c) && !Allows(OptimizeRules(rules), c)
  {
    hide RuleKey, MergeRule;
    var a := RegRule(5170000, 5250000, 80000, 0, 1744, 0, 0);
    var b := RegRule(5170000, 5250000, 80000, 0, 2000, 1, 0);
    var c := Channel(5170000, 5190000, 0, 1000, 0);
    assert Permits([a, b][0], c);
    CollidingPair(a, b);
    assert RuleKeys([a, b]) == [RuleKey(a), RuleKey(a)];
    MergeRuleByUnion();
    MergesPair(MergeRule, a, b, RuleKey(a));
    assert OptimizeRules([a, b]) == [RawUnion(a, b, 0)];
    assert RawUnion(a, b, 0).flags == 1;
  }
}
