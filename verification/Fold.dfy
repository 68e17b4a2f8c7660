/** Intersecting a whole list of domains from left to right, and what does not depend on that order. */
module Fold {
  import opened CTypes
  import opened RegRules
  import opened Intersection

  type RuleLists = seq<seq<RegRule>>

  function FoldRules(ds: RuleLists): seq<RegRule>
    requires ds != []
  {
    if |ds| == 1 then ds[0]
    else IntersectRules(FoldRules(ds[..|ds| - 1]), ds[|ds| - 1])
  }

  ghost predicate AllNonzero(ds: RuleLists) {
    forall d :: d in ds ==> NonzeroStarts(d)
  }

  ghost predicate CoveredByAll(ds: RuleLists, f: int) {
    forall d :: d in ds ==> Covers(d, f)
  }

  ghost predicate AllowedByAll(ds: RuleLists, c: Channel) {
    forall d :: d in ds ==> Allows(d, c)
  }

  lemma FoldSnoc(ds: RuleLists, d: seq<RegRule>)
    requires ds != []
    ensures FoldRules(ds + [d]) == IntersectRules(FoldRules(ds), d)
  {
    assert (ds + [d])[..|ds|] == ds;
  }

  lemma FoldNonzero(ds: RuleLists)
    requires ds != [] && AllNonzero(ds)
    ensures NonzeroStarts(FoldRules(ds))
  {
    if |ds| > 1 {
      RulesValid(FoldRules(ds[..|ds| - 1]), ds[|ds| - 1]);
    }
  }

  /** Once a prefix intersects to nothing, so does every longer list: NULL may be returned early. */
  lemma {:induction false} FoldStaysEmpty(ds: RuleLists, k: nat)
    requires 1 <= k <= |ds| && FoldRules(ds[..k]) == []
    ensures FoldRules(ds) == []
  {
    if k == |ds| {
      assert ds[..k] == ds;
    } else {
      var n := |ds| - 1;
      assert ds[..n][..k] == ds[..k];
      FoldStaysEmpty(ds[..n], k);
    }
  }

  /** One of the first two domains, if there are two, covers `f` by a rule that starts above zero. */
  ghost predicate CoveredAboveZero(ds: RuleLists, f: int) {
    |ds| >= 2 ==> CoversAboveZero(ds[0], f) || CoversAboveZero(ds[1], f)
  }

  ghost predicate AllowedAboveZero(ds: RuleLists, c: Channel) {
    |ds| >= 2 ==> AllowsAboveZero(ds[0], c) || AllowsAboveZero(ds[1], c)
  }

  /**
   The fold covers exactly what every domain covers, apart from frequencies that the first two cover
   only by rules starting at zero.
   */
  lemma {:induction false} FoldCovers(ds: RuleLists, f: int)
    requires ds != []
    ensures Covers(FoldRules(ds), f) <==> CoveredByAll(ds, f) && CoveredAboveZero(ds, f)
  {
    hide IntersectRules, Covers, CoversAboveZero;
    if |ds| > 1 {
      var n := |ds| - 1;
      var init := FoldRules(ds[..n]);
      FoldCovers(ds[..n], f);
      RulesCover(init, ds[n], f);
      assert ds == ds[..n] + [ds[n]];
      if n > 1 {
        RulesValid(FoldRules(ds[..n][..n - 1]), ds[..n][n - 1]);
        NonzeroCoversAbove(init);
      }
    }
  }

  lemma {:induction false} FoldAllows(ds: RuleLists, c: Channel)
    requires ds != []
    ensures Allows(FoldRules(ds), c) <==> AllowedByAll(ds, c) && AllowedAboveZero(ds, c)
  {
    hide IntersectRules, Allows, AllowsAboveZero;
    if |ds| > 1 {
      var n := |ds| - 1;
      var init := FoldRules(ds[..n]);
      FoldAllows(ds[..n], c);
      RulesAllow(init, ds[n], c);
      assert ds == ds[..n] + [ds[n]];
      if n > 1 {
        RulesValid(FoldRules(ds[..n][..n - 1]), ds[..n][n - 1]);
        NonzeroCoversAbove(init);
      }
    }
  }

  /** With two domains or more the result is empty iff there is no frequency that it should cover. */
  lemma FoldEmptyIffNothingShared(ds: RuleLists)
    requires |ds| >= 2
    ensures FoldRules(ds) == [] <==> !exists f :: CoveredByAll(ds, f) && CoveredAboveZero(ds, f)
  {
    hide CoveredAboveZero, CoveredByAll;
    var r := FoldRules(ds);
    if r != [] {
      RulesValid(FoldRules(ds[..|ds| - 1]), ds[|ds| - 1]);
      assert InRange(r[0], r[0].start);
      FoldCovers(ds, r[0].start);
    }
    if f :| CoveredByAll(ds, f) && CoveredAboveZero(ds, f) {
      FoldCovers(ds, f);
    }
  }

  /** If no rule starts at zero there is nothing to except. */
  lemma NonzeroFoldsExactly(ds: RuleLists)
    requires AllNonzero(ds)
    ensures forall f :: CoveredByAll(ds, f) ==> CoveredAboveZero(ds, f)
    ensures forall c :: AllowedByAll(ds, c) ==> AllowedAboveZero(ds, c)
  {
    hide Covers, CoversAboveZero, Allows, AllowsAboveZero;
    if |ds| >= 2 {
      NonzeroCoversAbove(ds[0]);
      NonzeroCoversAbove(ds[1]);
    }
  }

  // ------------------------------------------------------ order independence

  lemma FoldConsStep(d: seq<RegRule>, init: RuleLists, last: seq<RegRule>)
    requires init != [] && NonzeroStarts(FoldRules(init))
    requires FoldRules([d] + init) == IntersectRules(d, FoldRules(init))
    ensures FoldRules([d] + (init + [last])) == IntersectRules(d, FoldRules(init + [last]))
  {
    FoldSnoc([d] + init, last);
    FoldSnoc(init, last);
    assert [d] + (init + [last]) == ([d] + init) + [last];
    RulesAssociate(d, FoldRules(init), last);
  }

  /** The left fold is also the right fold, rule for rule. */
  lemma {:induction false} FoldCons(d: seq<RegRule>, ds: RuleLists)
    requires ds != [] && AllNonzero(ds)
    ensures FoldRules([d] + ds) == IntersectRules(d, FoldRules(ds))
    decreases |ds|
  {
    if |ds| == 1 {
      FoldSnoc([d], ds[0]);
      assert ds == [ds[0]];
    } else {
      var init, last := ds[..|ds| - 1], ds[|ds| - 1];
      assert ds == init + [last];
      FoldCons(d, init);
      FoldNonzero(init);
      FoldConsStep(d, init, last);
    }
  }

  lemma SwapFront(d: seq<RegRule>, e: seq<RegRule>, r: seq<RegRule>)
    requires NonzeroStarts(d) && NonzeroStarts(e)
    ensures SameRules(IntersectRules(d, IntersectRules(e, r)), IntersectRules(e, IntersectRules(d, r)))
  {
    RulesAssociate(d, e, r);
    RulesCommute(d, e);
    RulesRespectOrder(IntersectRules(d, e), IntersectRules(e, d), r);
    RulesAssociate(e, d, r);
  }

  lemma Advance(d: seq<RegRule>, e: seq<RegRule>, all: seq<RegRule>, r: seq<RegRule>)
    requires NonzeroStarts(d) && NonzeroStarts(e)
    requires SameRules(all, IntersectRules(e, r))
    ensures SameRules(IntersectRules(d, all), IntersectRules(e, IntersectRules(d, r)))
  {
    RulesRespectOrderSecond(d, all, IntersectRules(e, r));
    SwapFront(d, e, r);
  }

  lemma WithoutParts(ds: RuleLists, k: nat)
    requires k < |ds|
    ensures AllNonzero(ds) ==> AllNonzero(Without(ds, k))
    ensures k == 0 ==> Without(ds, k) == ds[1..]
    ensures k > 0 ==> Without(ds, k) == [ds[0]] + Without(ds[1..], k - 1)
    ensures k > 0 ==> AllNonzero(ds) ==> AllNonzero(Without(ds[1..], k - 1))
  {
    if k > 0 {
      WithoutParts(ds[1..], k - 1);
    }
  }

  /** Any domain may be moved to the front. */
  lemma {:induction false} FoldPick(ds: RuleLists, k: nat)
    requires |ds| >= 2 && k < |ds| && AllNonzero(ds)
    ensures SameRules(FoldRules(ds), IntersectRules(ds[k], FoldRules(Without(ds, k))))
    decreases |ds|
  {
    var d, rest := ds[0], ds[1..];
    assert ds == [d] + rest;
    FoldCons(d, rest);
    WithoutParts(ds, k);
    if k == 0 {
    } else if |ds| == 2 {
      assert rest == [ds[1]] && Without(ds, 1) == [d];
      RulesCommute(d, ds[1]);
    } else {
      var others := Without(rest, k - 1);
      FoldPick(rest, k - 1);
      Advance(d, ds[k], FoldRules(rest), FoldRules(others));
      FoldCons(d, others);
    }
  }

  /** The multiset of resulting rules does not depend on the order of the domains. */
  lemma {:induction false} FoldOrderIndependent(ds: RuleLists, es: RuleLists)
    requires ds != [] && AllNonzero(ds) && AllNonzero(es)
    requires multiset(ds) == multiset(es)
    ensures es != [] && SameRules(FoldRules(ds), FoldRules(es))
    decreases |ds|
  {
    assert |multiset(ds)| == |ds| && |multiset(es)| == |es|;
    assert ds[0] in multiset(es);
    if |ds| == 1 {
      assert ds[0] == es[0];
    } else {
      var k :| 0 <= k < |es| && es[k] == ds[0];
      WithoutMultiset(ds, 0);
      WithoutMultiset(es, k);
      FoldOrderIndependent(Without(ds, 0), Without(es, k));
      FoldPick(ds, 0);
      FoldPick(es, k);
      RulesRespectOrderSecond(ds[0], FoldRules(Without(ds, 0)), FoldRules(Without(es, k)));
    }
  }
}
