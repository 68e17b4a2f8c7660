/**
 Intersection of rule lists, as `reglib_intersect_rds` computes it, and its algebra.
 A NULL result of the C function is the empty list here.
 */
module Intersection {
  import opened CTypes
  import opened RegRules

  function Listed(r: Option<RegRule>): seq<RegRule> {
    match r
    case None => []
    case Some(v) => [v]
  }

  /** The rules one rule of the first domain contributes, in the order of the second domain. */
  function Row(a: RegRule, ys: seq<RegRule>): seq<RegRule> {
    if ys == [] then []
    else Row(a, ys[..|ys| - 1]) + Listed(IntersectRule(a, ys[|ys| - 1]))
  }

  /** The successful pairs in lexicographic order. */
  function IntersectRules(xs: seq<RegRule>, ys: seq<RegRule>): seq<RegRule> {
    if xs == [] then []
    else IntersectRules(xs[..|xs| - 1], ys) + Row(xs[|xs| - 1], ys)
  }

  lemma RowSnoc(a: RegRule, ys: seq<RegRule>, k: nat)
    requires k < |ys|
    ensures Row(a, ys[..k + 1]) == Row(a, ys[..k]) + Listed(IntersectRule(a, ys[k]))
  {
    assert ys[..k + 1][..k] == ys[..k];
  }

  lemma RulesSnoc(xs: seq<RegRule>, ys: seq<RegRule>, k: nat)
    requires k < |xs|
    ensures IntersectRules(xs[..k + 1], ys) == IntersectRules(xs[..k], ys) + Row(xs[k], ys)
  {
    assert xs[..k + 1][..k] == xs[..k];
  }

  // ---------------------------------------------------------- what it means

  lemma {:induction false} RowOrigin(a: RegRule, ys: seq<RegRule>, r: RegRule) returns (j: nat)
    requires r in Row(a, ys)
    ensures j < |ys| && IntersectRule(a, ys[j]) == Some(r)
  {
    var n := |ys| - 1;
    if r in Row(a, ys[..n]) {
      j := RowOrigin(a, ys[..n], r);
    } else {
      j := n;
    }
  }

  lemma {:induction false} RowHas(a: RegRule, ys: seq<RegRule>, j: nat)
    requires j < |ys| && IntersectRule(a, ys[j]).Some?
    ensures IntersectRule(a, ys[j]).value in Row(a, ys)
  {
    var n := |ys| - 1;
    if j < n {
      RowHas(a, ys[..n], j);
    }
  }

  lemma {:induction false} RuleOrigin(xs: seq<RegRule>, ys: seq<RegRule>, r: RegRule) returns (i: nat, j: nat)
    requires r in IntersectRules(xs, ys)
    ensures i < |xs| && j < |ys| && IntersectRule(xs[i], ys[j]) == Some(r)
  {
    var n := |xs| - 1;
    if r in IntersectRules(xs[..n], ys) {
      i, j := RuleOrigin(xs[..n], ys, r);
    } else {
      i := n;
      j := RowOrigin(xs[n], ys, r);
    }
  }

  lemma {:induction false} RuleHas(xs: seq<RegRule>, ys: seq<RegRule>, i: nat, j: nat)
    requires i < |xs| && j < |ys| && IntersectRule(xs[i], ys[j]).Some?
    ensures IntersectRule(xs[i], ys[j]).value in IntersectRules(xs, ys)
  {
    var init, last := xs[..|xs| - 1], xs[|xs| - 1];
    var r := IntersectRule(xs[i], ys[j]).value;
    assert r in IntersectRules(init, ys) || r in Row(last, ys) by {
      if i < |init| {
        assert init[i] == xs[i];
        RuleHas(init, ys, i, j);
      } else {
        RowHas(last, ys, j);
      }
    }
    assert IntersectRules(xs, ys) == IntersectRules(init, ys) + Row(last, ys);
  }

  /** Exactly the successful pairs are kept: nothing of a failed pair survives. */
  lemma RulesMember(xs: seq<RegRule>, ys: seq<RegRule>, r: RegRule)
    ensures r in IntersectRules(xs, ys) <==>
            exists i, j :: 0 <= i < |xs| && 0 <= j < |ys| && IntersectRule(xs[i], ys[j]) == Some(r)
  {
    if r in IntersectRules(xs, ys) {
      var i, j := RuleOrigin(xs, ys, r);
    }
    if i, j :| 0 <= i < |xs| && 0 <= j < |ys| && IntersectRule(xs[i], ys[j]) == Some(r) {
      RuleHas(xs, ys, i, j);
    }
  }

  /** Whatever the inputs, every rule of an intersection passes the sanity check. */
  lemma RulesValid(xs: seq<RegRule>, ys: seq<RegRule>)
    ensures AllValid(IntersectRules(xs, ys))
    ensures NonzeroStarts(IntersectRules(xs, ys))
  {
    var zs := IntersectRules(xs, ys);
    forall r | r in zs ensures IsValidRule(r) {
      var i, j := RuleOrigin(xs, ys, r);
    }
  }

  /** Some rule that starts above zero covers `f`. */
  ghost predicate CoversAboveZero(rules: seq<RegRule>, f: int) {
    exists i :: 0 <= i < |rules| && InRange(rules[i], f) && rules[i].start > 0
  }

  /**
   The intersection covers a frequency iff both domains cover it, at least one of them by a rule that
   starts above zero.
   */
  lemma RulesCover(xs: seq<RegRule>, ys: seq<RegRule>, f: int)
    ensures Covers(IntersectRules(xs, ys), f) <==>
            Covers(xs, f) && Covers(ys, f) && (CoversAboveZero(xs, f) || CoversAboveZero(ys, f))
  {
    hide IntersectRule, IntersectRules;
    var zs := IntersectRules(xs, ys);
    if Covers(zs, f) {
      var k :| 0 <= k < |zs| && InRange(zs[k], f);
      var i, j := RuleOrigin(xs, ys, zs[k]);
      IntersectRuleCovers(xs[i], ys[j], f);
      IntersectRuleSucceeds(xs[i], ys[j]);
    }
    if Covers(xs, f) && Covers(ys, f) && (CoversAboveZero(xs, f) || CoversAboveZero(ys, f)) {
      var i :| 0 <= i < |xs| && InRange(xs[i], f) && (CoversAboveZero(xs, f) ==> xs[i].start > 0);
      var j :| 0 <= j < |ys| && InRange(ys[j], f) && (CoversAboveZero(ys, f) ==> ys[j].start > 0);
      IntersectRuleSucceeds(xs[i], ys[j]);
      var r := IntersectRule(xs[i], ys[j]).value;
      IntersectRuleCovers(xs[i], ys[j], f);
      RuleHas(xs, ys, i, j);
      var k :| 0 <= k < |zs| && zs[k] == r;
      assert InRange(zs[k], f);
    }
  }

  /** Coverage is that of both domains at every frequency exactly when they do not both cover zero. */
  lemma RulesCoverExactly(xs: seq<RegRule>, ys: seq<RegRule>)
    ensures (forall f :: Covers(IntersectRules(xs, ys), f) <==> Covers(xs, f) && Covers(ys, f)) <==>
            !(Covers(xs, 0) && Covers(ys, 0))
  {
    hide IntersectRules;
    RulesCover(xs, ys, 0);
    if !(Covers(xs, 0) && Covers(ys, 0)) {
      forall f ensures Covers(IntersectRules(xs, ys), f) <==> Covers(xs, f) && Covers(ys, f) {
        RulesCover(xs, ys, f);
        if Covers(xs, f) && Covers(ys, f) {
          CoversAboveUnlessZero(xs, f);
          CoversAboveUnlessZero(ys, f);
        }
      }
    }
  }

  lemma CoversAboveUnlessZero(rules: seq<RegRule>, f: int)
    requires Covers(rules, f)
    ensures CoversAboveZero(rules, f) || Covers(rules, 0)
  {
    var i :| 0 <= i < |rules| && InRange(rules[i], f);
    assert rules[i].start == 0 ==> InRange(rules[i], 0);
  }

  /** Some rule that starts above zero allows the channel. */
  ghost predicate AllowsAboveZero(rules: seq<RegRule>, c: Channel) {
    exists i :: 0 <= i < |rules| && Permits(rules[i], c) && rules[i].start > 0
  }

  /** Some rule that starts at zero allows channels. */
  ghost predicate AllowsAtZero(rules: seq<RegRule>) {
    exists i :: 0 <= i < |rules| && rules[i].start == 0 && rules[i].end > 0 && rules[i].maxBandwidth > 0
  }

  /**
   The intersection allows a channel iff each domain allows it by some rule, at least one of them by
   a rule that starts above zero.
   */
  lemma RulesAllow(xs: seq<RegRule>, ys: seq<RegRule>, c: Channel)
    ensures Allows(IntersectRules(xs, ys), c) <==>
            Allows(xs, c) && Allows(ys, c) && (AllowsAboveZero(xs, c) || AllowsAboveZero(ys, c))
  {
    hide IntersectRule, IntersectRules, Permits;
    var zs := IntersectRules(xs, ys);
    if Allows(zs, c) {
      var k :| 0 <= k < |zs| && Permits(zs[k], c);
      var i, j := RuleOrigin(xs, ys, zs[k]);
      IntersectRulePermits(xs[i], ys[j], c);
    }
    if Allows(xs, c) && Allows(ys, c) && (AllowsAboveZero(xs, c) || AllowsAboveZero(ys, c)) {
      var i :| 0 <= i < |xs| && Permits(xs[i], c) && (AllowsAboveZero(xs, c) ==> xs[i].start > 0);
      var j :| 0 <= j < |ys| && Permits(ys[j], c) && (AllowsAboveZero(ys, c) ==> ys[j].start > 0);
      IntersectRulePermits(xs[i], ys[j], c);
      RuleHas(xs, ys, i, j);
    }
  }

  lemma ZeroAllowsLeast(rules: seq<RegRule>)
    requires AllowsAtZero(rules)
    ensures Allows(rules, Channel(0, 1, 0, 0, 0xFFFF_FFFF))
  {
    var i :| 0 <= i < |rules| && rules[i].start == 0 && rules[i].end > 0 && rules[i].maxBandwidth > 0;
    assert Permits(rules[i], Channel(0, 1, 0, 0, 0xFFFF_FFFF));
  }

  lemma AllowsAboveUnlessZero(rules: seq<RegRule>, c: Channel)
    requires Allows(rules, c)
    ensures AllowsAboveZero(rules, c) || AllowsAtZero(rules)
  {
    var i :| 0 <= i < |rules| && Permits(rules[i], c);
  }

  /** No channel is lost exactly when the domains do not both allow channels by rules that start at zero. */
  lemma RulesAllowExactly(xs: seq<RegRule>, ys: seq<RegRule>)
    ensures (forall c :: Allows(IntersectRules(xs, ys), c) <==> Allows(xs, c) && Allows(ys, c)) <==>
            !(AllowsAtZero(xs) && AllowsAtZero(ys))
  {
    hide IntersectRules, Permits;
    if AllowsAtZero(xs) && AllowsAtZero(ys) {
      var c := Channel(0, 1, 0, 0, 0xFFFF_FFFF);
      ZeroAllowsLeast(xs);
      ZeroAllowsLeast(ys);
      RulesAllow(xs, ys, c);
      NothingAboveZero(xs, c);
      NothingAboveZero(ys, c);
    } else {
      forall c ensures Allows(IntersectRules(xs, ys), c) <==> Allows(xs, c) && Allows(ys, c) {
        RulesAllow(xs, ys, c);
        if Allows(xs, c) && Allows(ys, c) {
          AllowsAboveUnlessZero(xs, c);
          AllowsAboveUnlessZero(ys, c);
        }
      }
    }
  }

  lemma NothingAboveZero(rules: seq<RegRule>, c: Channel)
    requires c.lo == 0
    ensures !AllowsAboveZero(rules, c)
  {
  }

  /** Rules that all start above zero lose nothing. */
  lemma NonzeroCoversAbove(rules: seq<RegRule>)
    requires NonzeroStarts(rules)
    ensures forall f :: Covers(rules, f) ==> CoversAboveZero(rules, f)
    ensures forall c :: Allows(rules, c) ==> AllowsAboveZero(rules, c)
  {
    hide Permits;
    forall c | Allows(rules, c) ensures AllowsAboveZero(rules, c) {
      var i :| 0 <= i < |rules| && Permits(rules[i], c);
      assert rules[i] in rules;
    }
  }

  /** With both starts at zero the code drops a shared range. */
  lemma ZeroStartsLoseCoverage()
    ensures var r := RegRule(0, 100, 20, 0, 0, 0, 0);
            Covers([r], 50) && !Covers(IntersectRules([r], [r]), 50)
  {
    var r := RegRule(0, 100, 20, 0, 0, 0, 0);
    assert InRange([r][0], 50);
    assert Row(r, [r]) == [];
    assert IntersectRules([r], [r]) == [];
  }

  // ---------------------------------------------------------- associativity

  lemma RowOneMore(a: RegRule, ys: seq<RegRule>, y: RegRule)
    ensures Row(a, ys + [y]) == Row(a, ys) + Listed(IntersectRule(a, y))
  {
    assert (ys + [y])[..|ys|] == ys;
  }

  lemma {:induction false} RowAppend(a: RegRule, us: seq<RegRule>, vs: seq<RegRule>)
    ensures Row(a, us + vs) == Row(a, us) + Row(a, vs)
  {
    hide IntersectRule;
    if vs == [] {
      assert us + vs == us;
    } else {
      var init, last := vs[..|vs| - 1], vs[|vs| - 1];
      var end := Listed(IntersectRule(a, last));
      assert vs == init + [last] && us + vs == (us + init) + [last];
      RowOneMore(a, us + init, last);
      RowOneMore(a, init, last);
      RowAppend(a, us, init);
      assert (Row(a, us) + Row(a, init)) + end == Row(a, us) + (Row(a, init) + end);
    }
  }

  lemma {:induction false} RulesAppend(us: seq<RegRule>, vs: seq<RegRule>, ys: seq<RegRule>)
    ensures IntersectRules(us + vs, ys) == IntersectRules(us, ys) + IntersectRules(vs, ys)
  {
    if vs == [] {
      assert us + vs == us;
    } else {
      var n := |vs| - 1;
      RulesAppend(us, vs[..n], ys);
      assert (us + vs)[..|us + vs| - 1] == us + vs[..n];
    }
  }

  lemma RulesOfNone(ys: seq<RegRule>)
    ensures IntersectRules([], ys) == []
  {
  }

  lemma RulesOfOne(a: RegRule, ys: seq<RegRule>)
    ensures IntersectRules([a], ys) == Row(a, ys)
  {
    assert [a][..0] == [];
  }

  lemma {:induction false} RowOfRow(a: RegRule, b: RegRule, cs: seq<RegRule>)
    requires b.start > 0
    ensures Row(a, Row(b, cs)) == IntersectRules(Listed(IntersectRule(a, b)), cs)
  {
    if cs == [] {
      assert IntersectRules(Listed(IntersectRule(a, b)), cs) == [] by {
        if IntersectRule(a, b).Some? { RulesOfOne(IntersectRule(a, b).value, cs); }
      }
    } else {
      var n := |cs| - 1;
      var c, bc := cs[n], IntersectRule(b, cs[n]);
      RowOfRow(a, b, cs[..n]);
      RowAppend(a, Row(b, cs[..n]), Listed(bc));
      IntersectRuleAssociates(a, b, c);
      if bc.Some? {
        assert [bc.value][..0] == [];
        assert Row(a, []) == [];
        assert Row(a, [bc.value]) == Listed(IntersectRule(a, bc.value));
      }
      if IntersectRule(a, b).Some? {
        RulesOfOne(IntersectRule(a, b).value, cs);
        RulesOfOne(IntersectRule(a, b).value, cs[..n]);
      }
    }
  }

  lemma {:induction false} RowOfRules(a: RegRule, bs: seq<RegRule>, cs: seq<RegRule>)
    requires NonzeroStarts(bs)
    ensures Row(a, IntersectRules(bs, cs)) == IntersectRules(Row(a, bs), cs)
  {
    if bs != [] {
      var n := |bs| - 1;
      RowOfRules(a, bs[..n], cs);
      RowOfRow(a, bs[n], cs);
      RowAppend(a, IntersectRules(bs[..n], cs), Row(bs[n], cs));
      RulesAppend(Row(a, bs[..n]), Listed(IntersectRule(a, bs[n])), cs);
    }
  }

  /** Domain intersection is associative as an exact rule sequence. */
  lemma {:induction false} RulesAssociate(xs: seq<RegRule>, ys: seq<RegRule>, zs: seq<RegRule>)
    requires NonzeroStarts(ys)
    ensures IntersectRules(IntersectRules(xs, ys), zs) == IntersectRules(xs, IntersectRules(ys, zs))
  {
    if xs != [] {
      var n := |xs| - 1;
      RulesAssociate(xs[..n], ys, zs);
      RulesAppend(IntersectRules(xs[..n], ys), Row(xs[n], ys), zs);
      RowOfRules(xs[n], ys, zs);
    }
  }

  // ---------------------------------------------------------- commutativity

  ghost predicate SameRules(us: seq<RegRule>, vs: seq<RegRule>) {
    multiset(us) == multiset(vs)
  }

  lemma {:induction false} SplitSecond(xs: seq<RegRule>, us: seq<RegRule>, vs: seq<RegRule>)
    ensures multiset(IntersectRules(xs, us + vs)) ==
            multiset(IntersectRules(xs, us)) + multiset(IntersectRules(xs, vs))
  {
    if xs != [] {
      var n := |xs| - 1;
      SplitSecond(xs[..n], us, vs);
      RowAppend(xs[n], us, vs);
    }
  }

  lemma {:induction false} ColumnIsRow(xs: seq<RegRule>, y: RegRule)
    ensures IntersectRules(xs, [y]) == Row(y, xs)
  {
    if xs != [] {
      var n := |xs| - 1;
      ColumnIsRow(xs[..n], y);
      IntersectRuleCommutes(xs[n], y);
      RowSnoc(xs[n], [y], 0);
      assert [y][..1] == [y] && [y][..0] == [];
    }
  }

  /** Domain intersection is commutative up to the order of the rules. */
  lemma {:induction false} RulesCommute(xs: seq<RegRule>, ys: seq<RegRule>)
    ensures SameRules(IntersectRules(xs, ys), IntersectRules(ys, xs))
  {
    if xs == [] {
      SplitSecond(ys, [], []);
      assert [] + [] == xs;
    } else {
      var n := |xs| - 1;
      RulesCommute(xs[..n], ys);
      SplitSecond(ys, xs[..n], [xs[n]]);
      assert xs[..n] + [xs[n]] == xs;
      ColumnIsRow(ys, xs[n]);
    }
  }

  function Without<T>(us: seq<T>, k: nat): seq<T>
    requires k < |us|
  {
    us[..k] + us[k + 1..]
  }

  lemma WithoutMultiset<T>(us: seq<T>, k: nat)
    requires k < |us|
    ensures multiset(Without(us, k)) == multiset(us) - multiset{us[k]}
    ensures multiset(us) == multiset(Without(us, k)) + multiset{us[k]}
  {
    assert us == us[..k] + [us[k]] + us[k + 1..];
  }

  lemma PickOne(us: seq<RegRule>, k: nat, ys: seq<RegRule>)
    requires k < |us|
    ensures multiset(IntersectRules(us, ys)) ==
            multiset(IntersectRules(Without(us, k), ys)) + multiset(Row(us[k], ys))
  {
    assert us == (us[..k] + [us[k]]) + us[k + 1..];
    RulesAppend(us[..k] + [us[k]], us[k + 1..], ys);
    RulesAppend(us[..k], [us[k]], ys);
    RulesAppend(us[..k], us[k + 1..], ys);
    RulesOfOne(us[k], ys);
  }

  /** Reordering an operand only reorders the result. */
  lemma {:induction false} RulesRespectOrder(us: seq<RegRule>, vs: seq<RegRule>, ys: seq<RegRule>)
    requires SameRules(us, vs)
    ensures SameRules(IntersectRules(us, ys), IntersectRules(vs, ys))
    decreases |us|
  {
    if us == [] {
      assert |multiset(vs)| == |vs|;
    } else {
      assert us[0] in multiset(vs);
      var k :| 0 <= k < |vs| && vs[k] == us[0];
      WithoutMultiset(us, 0);
      WithoutMultiset(vs, k);
      RulesRespectOrder(Without(us, 0), Without(vs, k), ys);
      PickOne(us, 0, ys);
      PickOne(vs, k, ys);
    }
  }

  lemma RulesRespectOrderSecond(xs: seq<RegRule>, us: seq<RegRule>, vs: seq<RegRule>)
    requires SameRules(us, vs)
    ensures SameRules(IntersectRules(xs, us), IntersectRules(xs, vs))
  {
    RulesCommute(xs, us);
    RulesRespectOrder(us, vs, xs);
    RulesCommute(vs, xs);
  }
}
