/** What the intersection of a whole database means. */
module RegDbTheorems {
  import opened CTypes
  import opened RegRules
  import opened Intersection
  import opened Fold
  import opened RegDomains
  import opened RegDbFold

  /**
   With two or more non-world countries, the result covers the frequencies, and allows the channels,
   of every one of them, except what the first two grant by rules starting at zero only; it is None
   iff nothing is left.
   */
  lemma IntersectAllExactly(ds: seq<Domain>)
    requires |NonWorld(ds)| >= 2
    ensures var lists := NonWorld(ds);
            && (IntersectAll(ds) == None <==> !exists f :: CoveredByAll(lists, f) && CoveredAboveZero(lists, f))
            && (IntersectAll(ds).Some? ==> var rules := IntersectAll(ds).value.rules;
                 && AllValid(rules) && IntersectAll(ds).value == Domain([0x39, 0x39], 0, rules)
                 && (forall f :: Covers(rules, f) <==> CoveredByAll(lists, f) && CoveredAboveZero(lists, f))
                 && (forall c :: Allows(rules, c) <==> AllowedByAll(lists, c) && AllowedAboveZero(lists, c)))
  {
    hide NonWorld, FoldRules, IntersectRules, CoveredByAll, CoveredAboveZero, AllowedByAll, AllowedAboveZero;
    hide Covers, Allows;
    var lists := NonWorld(ds);
    FoldEmptyIffNothingShared(lists);
    FoldValid(lists);
    forall f ensures Covers(FoldRules(lists), f) <==> CoveredByAll(lists, f) && CoveredAboveZero(lists, f) {
      FoldCovers(lists, f);
    }
    forall c ensures Allows(FoldRules(lists), c) <==> AllowedByAll(lists, c) && AllowedAboveZero(lists, c) {
      FoldAllows(lists, c);
    }
  }

  /**
   If no rule starts at zero, the result covers exactly the frequencies, and allows exactly the
   channels, of every non-world country; it is None iff they share no frequency at all.
   */
  lemma IntersectAllMeaning(ds: seq<Domain>)
    requires |NonWorld(ds)| >= 2 && AllNonzero(NonWorld(ds))
    ensures IntersectAll(ds) == None <==> !exists f :: CoveredByAll(NonWorld(ds), f)
    ensures IntersectAll(ds).Some? ==>
              && AllValid(IntersectAll(ds).value.rules)
              && (forall f :: Covers(IntersectAll(ds).value.rules, f) <==> CoveredByAll(NonWorld(ds), f))
              && (forall c :: Allows(IntersectAll(ds).value.rules, c) <==> AllowedByAll(NonWorld(ds), c))
  {
    hide NonWorld, IntersectAll, CoveredByAll, CoveredAboveZero, AllowedByAll, AllowedAboveZero, AllNonzero;
    hide Covers, Allows;
    IntersectAllExactly(ds);
    NonzeroFoldsExactly(NonWorld(ds));
  }

  lemma FoldValid(ds: RuleLists)
    requires |ds| >= 2
    ensures AllValid(FoldRules(ds))
  {
    RulesValid(FoldRules(ds[..|ds| - 1]), ds[|ds| - 1]);
  }

  // -------------------------------------------------- which entries count

  lemma {:induction false} NonWorldAppend(us: seq<Domain>, vs: seq<Domain>)
    ensures NonWorld(us + vs) == NonWorld(us) + NonWorld(vs)
  {
    if vs == [] {
      assert us + vs == us;
    } else {
      var init, last := vs[..|vs| - 1], vs[|vs| - 1];
      assert (us + vs)[..|us + vs| - 1] == us + init;
      NonWorldAppend(us, init);
    }
  }

  /** The entries whose code is not the two bytes "00", in order. */
  function Countries(ds: seq<Domain>): seq<Domain> {
    if ds == [] then []
    else (if ds[0].alpha2 == [0x30, 0x30] then [] else [ds[0]]) + Countries(ds[1..])
  }

  lemma WorldCode(alpha2: Alpha2)
    ensures IsWorld(alpha2) <==> alpha2 == [0x30, 0x30]
  {
  }

  /** Exactly the rule lists of the entries not coded "00" are intersected, in order. */
  lemma {:induction false} NonWorldCountries(ds: seq<Domain>)
    ensures |NonWorld(ds)| == |Countries(ds)|
    ensures forall i :: 0 <= i < |Countries(ds)| ==> NonWorld(ds)[i] == Countries(ds)[i].rules
  {
    if ds != [] {
      NonWorldCountries(ds[1..]);
      NonWorldAppend([ds[0]], ds[1..]);
      assert [ds[0]] + ds[1..] == ds;
      NonWorldOne(ds[0]);
    }
  }

  lemma NonWorldOne(d: Domain)
    ensures NonWorld([d]) == if d.alpha2 == [0x30, 0x30] then [] else [d.rules]
  {
    WorldCode(d.alpha2);
    assert [d][..0] == [];
  }

  /** No entry with another code is passed over. */
  lemma {:induction false} CountryCounts(ds: seq<Domain>, d: Domain)
    requires d in ds && d.alpha2 != [0x30, 0x30]
    ensures d in Countries(ds) && d.rules in NonWorld(ds)
  {
    NonWorldCountries(ds);
    CountriesHold(ds, d);
    var i :| 0 <= i < |Countries(ds)| && Countries(ds)[i] == d;
    assert NonWorld(ds)[i] == d.rules;
  }

  lemma {:induction false} CountriesHold(ds: seq<Domain>, d: Domain)
    requires d in ds && d.alpha2 != [0x30, 0x30]
    ensures d in Countries(ds)
  {
    if d != ds[0] {
      CountriesHold(ds[1..], d);
    }
  }

  /**
   An entry coded "00" makes no difference wherever it is stored, except beside a lone country, which it
   makes the result lose.
   */
  lemma WorldEntryIgnored(us: seq<Domain>, w: Domain, vs: seq<Domain>)
    requires w.alpha2 == [0x30, 0x30]
    ensures IntersectAll(us + [w] + vs) == IntersectAll(us + vs) <==> !(|us + vs| == 1 && |Countries(us + vs)| == 1)
  {
    hide NonWorld, FoldRules;
    var ds := us + [w] + vs;
    NonWorldAppend(us + [w], vs);
    NonWorldAppend(us, [w]);
    NonWorldAppend(us, vs);
    NonWorldOne(w);
    NonWorldCountries(us + vs);
    assert NonWorld(us) + [] == NonWorld(us);
    assert NonWorld(ds) == NonWorld(us + vs);
  }

  /**
   A lone country is lost as soon as any other entry is stored with it: the result is that country,
   as it is stored, exactly when it is the only entry.
   */
  lemma LoneCountry(ds: seq<Domain>)
    requires |Countries(ds)| == 1
    ensures IntersectAll(ds) == if |ds| == 1 then Some(Countries(ds)[0]) else None
  {
    NonWorldCountries(ds);
    if |ds| == 1 {
      assert ds[1..] == [];
    }
  }

  // --------------------------------------------------------- storage order

  lemma NonWorldSplits(ds: seq<Domain>, k: nat)
    requires k < |ds|
    ensures NonWorld(ds) == (NonWorld(ds[..k]) + NonWorld([ds[k]])) + NonWorld(ds[k + 1..])
  {
    hide NonWorld;
    var before, here, after := ds[..k], [ds[k]], ds[k + 1..];
    SplitAt(ds, k);
    NonWorldAppend(before + here, after);
    NonWorldAppend(before, here);
  }

  lemma SplitAt<T>(ds: seq<T>, k: nat)
    requires k < |ds|
    ensures ds == (ds[..k] + [ds[k]]) + ds[k + 1..]
  {
  }

  lemma NonWorldPick(ds: seq<Domain>, k: nat)
    requires k < |ds|
    ensures multiset(NonWorld(ds)) == multiset(NonWorld(Without(ds, k))) + multiset(NonWorld([ds[k]]))
  {
    hide NonWorld;
    NonWorldSplits(ds, k);
    NonWorldAppend(ds[..k], ds[k + 1..]);
    MiddleOut(NonWorld(ds[..k]), NonWorld([ds[k]]), NonWorld(ds[k + 1..]));
  }

  lemma MiddleOut<T>(a: seq<T>, b: seq<T>, c: seq<T>)
    ensures multiset((a + b) + c) == multiset(a + c) + multiset(b)
  {
  }

  lemma {:induction false} NonWorldReorders(ds: seq<Domain>, es: seq<Domain>)
    requires multiset(ds) == multiset(es)
    ensures multiset(NonWorld(ds)) == multiset(NonWorld(es))
    decreases |ds|
  {
    assert |multiset(ds)| == |ds| && |multiset(es)| == |es|;
    if ds != [] {
      assert ds[0] in multiset(es);
      var k :| 0 <= k < |es| && es[k] == ds[0];
      WithoutMultiset(ds, 0);
      WithoutMultiset(es, k);
      NonWorldReorders(Without(ds, 0), Without(es, k));
      NonWorldPick(ds, 0);
      NonWorldPick(es, k);
    }
  }

  /** Storing the countries in another order changes at most the order of the resulting rules. */
  lemma IntersectAllOrderIndependent(ds: seq<Domain>, es: seq<Domain>)
    requires multiset(ds) == multiset(es) && |NonWorld(ds)| >= 2
    requires AllNonzero(NonWorld(ds))
    ensures IntersectAll(ds).Some? <==> IntersectAll(es).Some?
    ensures IntersectAll(ds).Some? ==> SameRules(IntersectAll(ds).value.rules, IntersectAll(es).value.rules)
  {
    hide NonWorld, FoldRules;
    var us, vs := NonWorld(ds), NonWorld(es);
    NonWorldReorders(ds, es);
    assert |multiset(us)| == |us| && |multiset(vs)| == |vs|;
    forall v | v in vs ensures v in us {
      assert v in multiset(vs);
    }
    FoldOrderIndependent(us, vs);
    assert |multiset(FoldRules(us))| == |FoldRules(us)| && |multiset(FoldRules(vs))| == |FoldRules(vs)|;
  }
}
