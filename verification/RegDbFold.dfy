/**
 `reglib_intersect_regdb`: intersecting every non-world country of a database, with manual
 ownership of the domains involved.
 */
module RegDbFold {
  import opened CTypes
  import opened RegRules
  import opened Intersection
  import opened Fold
  import opened RegDomains
  import opened RegDbFile
  import opened RegDbAccess

  // -------------------------------------------------------- specification

  /** The rule lists of the non-world domains, in database order. */
  function NonWorld(ds: seq<Domain>): (lists: RuleLists)
    ensures |lists| <= |ds|
  {
    if ds == [] then []
    else
      var d := ds[|ds| - 1];
      NonWorld(ds[..|ds| - 1]) + if IsWorld(d.alpha2) then [] else [d.rules]
  }

  /**
   What intersecting these countries yields. With two or more non-world countries it is their
   left fold, None when nothing is left; a single country is returned only if it is all there is.
   */
  function IntersectAll(ds: seq<Domain>): Option<Domain> {
    var lists := NonWorld(ds);
    if |lists| >= 2 then
      if FoldRules(lists) == [] then None else Some(Domain(INTERSECTED, 0, FoldRules(lists)))
    else if |lists| == 1 && |ds| == 1 then Some(ds[0])
    else None
  }

  ghost predicate Decodes(ctx: Ctx, k: nat)
    requires ctx.Valid() && k <= ctx.numCountries
  {
    forall i :: 0 <= i < k ==> DecodeCountry(ctx, i).Ok?
  }

  ghost function Decoded(ctx: Ctx, k: nat): (ds: seq<Domain>)
    requires ctx.Valid() && k <= ctx.numCountries && Decodes(ctx, k)
    ensures |ds| == k
    ensures forall i :: 0 <= i < k ==> DecodeCountry(ctx, i) == Ok(ds[i])
  {
    if k == 0 then [] else Decoded(ctx, k - 1) + [DecodeCountry(ctx, k - 1).value]
  }

  /** After any number of countries, the rules to be built can be counted in an unsigned int. */
  ghost predicate CountsFit(ctx: Ctx)
    requires ctx.Valid()
  {
    forall k :: 0 <= k <= ctx.numCountries && Decodes(ctx, k) ==>
      NonWorld(Decoded(ctx, k)) == [] || |FoldRules(NonWorld(Decoded(ctx, k)))| + 1 < U32_LIMIT
  }

  /** Every intermediate intersection can be sized in `size_t`. */
  ghost predicate SizesFit(ctx: Ctx)
    requires ctx.Valid()
  {
    forall k :: 0 <= k <= ctx.numCountries && Decodes(ctx, k) ==>
      NonWorld(Decoded(ctx, k)) == [] || RoomFor(ctx.sizeMax, |FoldRules(NonWorld(Decoded(ctx, k)))| + 1)
  }

  lemma DecodedStep(ctx: Ctx, k: nat)
    requires ctx.Valid() && k < ctx.numCountries && Decodes(ctx, k) && DecodeCountry(ctx, k).Ok?
    ensures Decodes(ctx, k + 1)
    ensures var d, lists := DecodeCountry(ctx, k).value, NonWorld(Decoded(ctx, k));
            NonWorld(Decoded(ctx, k + 1)) == lists + if IsWorld(d.alpha2) then [] else [d.rules]
  {
    hide DecodeCountry;
    assert Decoded(ctx, k + 1)[..k] == Decoded(ctx, k);
  }

  lemma {:induction false} NonWorldPrefix(ctx: Ctx, k: nat, n: nat)
    requires ctx.Valid() && k <= n <= ctx.numCountries && Decodes(ctx, n)
    ensures NonWorld(Decoded(ctx, k)) <= NonWorld(Decoded(ctx, n))
  {
    hide DecodeCountry;
    if k < n {
      NonWorldPrefix(ctx, k, n - 1);
      DecodedStep(ctx, n - 1);
    }
  }

  /** An empty intermediate intersection already decides the answer. */
  lemma EmptyDecides(ctx: Ctx, k: nat)
    requires ctx.Valid() && k <= ctx.numCountries && Decodes(ctx, ctx.numCountries)
    requires |NonWorld(Decoded(ctx, k))| >= 2 && FoldRules(NonWorld(Decoded(ctx, k))) == []
    ensures IntersectAll(Decoded(ctx, ctx.numCountries)) == None
  {
    hide DecodeCountry, FoldRules, NonWorld, Decoded;
    var all := NonWorld(Decoded(ctx, ctx.numCountries));
    NonWorldPrefix(ctx, k, ctx.numCountries);
    var lists := NonWorld(Decoded(ctx, k));
    assert all[..|lists|] == lists;
    FoldStaysEmpty(all, |lists|);
  }

  lemma NothingDecoded(ctx: Ctx)
    requires ctx.Valid()
    ensures Decodes(ctx, 0) && NonWorld(Decoded(ctx, 0)) == []
  {
  }

  lemma FitsAt(ctx: Ctx, k: nat)
    requires ctx.Valid() && k <= ctx.numCountries && Decodes(ctx, k) && NonWorld(Decoded(ctx, k)) != []
    ensures CountsFit(ctx) ==> |FoldRules(NonWorld(Decoded(ctx, k)))| + 1 < U32_LIMIT
    ensures SizesFit(ctx) ==> RoomFor(ctx.sizeMax, |FoldRules(NonWorld(Decoded(ctx, k)))| + 1)
  {
    hide DecodeCountry, FoldRules, NonWorld;
  }

  lemma FoldOfOne(d: seq<RegRule>)
    ensures FoldRules([d]) == d
  {
  }

  // --------------------------------------------------------------- method

  /** The domain a pointer owns, if any. */
  ghost function Own(rd: RegDomain?): set<RegDomain> {
    if rd == null then {} else {rd}
  }

  ghost function Outcome(rd: RegDomain?): Option<Domain>
    reads rd, if rd == null then {} else {rd.regRules}
    requires rd != null ==> rd.Valid()
  {
    if rd == null then None else Some(rd.Value())
  }

  /**
   One more non-world country `rd` once there is an earlier one: the intersection so far is
   `last`, or `prev` while only one country has been seen. An empty result releases everything.
   */
  method IntersectNext(heap: Heap, prev: RegDomain, last: RegDomain?, rd: RegDomain)
    returns (exited: bool, newPrev: RegDomain?, newLast: RegDomain?)
    requires {prev, rd} + Own(last) <= heap.live && prev != rd && last != prev && last != rd
    requires prev.Valid() && rd.Valid() && (last != null ==> last.Valid())
    requires heap.sizeMax >= SIZEOF_REGDOMAIN
    requires |IntersectRules((if last == null then prev else last).Rules(), rd.Rules())| + 1 < U32_LIMIT
    modifies heap`live
    ensures var rules := IntersectRules((if last == null then prev else last).Rules(), rd.Rules());
            && (exited ==> !RoomFor(heap.sizeMax, |rules| + 1))
            && (!exited && newLast == null && heap.reliable ==> rules == [])
            && (!exited && newLast != null ==>
                 newLast.Valid() && rules != [] && newLast.Value() == Domain(INTERSECTED, 0, rules))
    ensures !exited && newLast == null ==> heap.live == old(heap.live) - {prev, rd} - Own(last)
    ensures !exited && newLast != null ==>
              && fresh(newLast) && fresh(newLast.regRules)
              && newPrev == (if last == null then prev else last)
              && heap.live == (if last == null then old(heap.live) - {rd} else old(heap.live) - {prev, rd}) + {newLast}
  {
    hide IntersectRules;
    newPrev := prev;
    if last != null {
      heap.Free(newPrev);
      newPrev := last;
    }
    exited, newLast := IntersectRds(heap, newPrev, rd);
    if exited {
      return;
    }
    if newLast == null {
      heap.Free(newPrev);
      heap.Free(rd);
      return;
    }
    heap.Free(rd);
  }

  /** What the two fold pointers hold after the first `idx` countries. */
  ghost predicate SoFar(ctx: Ctx, idx: nat, prev: RegDomain?, last: RegDomain?)
    reads prev, last, if prev == null then {} else {prev.regRules}, if last == null then {} else {last.regRules}
    requires ctx.Valid()
  {
    && idx <= ctx.numCountries && Decodes(ctx, idx)
    && (prev != null ==> prev.Valid())
    && (last != null ==> last.Valid())
    && var lists := NonWorld(Decoded(ctx, idx));
    && (prev == null <==> lists == [])
    && (last == null <==> |lists| <= 1)
    && (prev != null && last == null ==> prev.Rules() == FoldRules(lists))
    && (last != null ==> last.Rules() != [] && last.Value() == Domain(INTERSECTED, 0, FoldRules(lists)))
    && (idx == 1 && prev != null ==> prev.Value() == Decoded(ctx, 1)[0])
  }

  /** The live domains are `base` and, separately, those the pointers own. */
  ghost predicate Owned(live: set<RegDomain>, base: set<RegDomain>, a: RegDomain?, b: RegDomain?, c: RegDomain?) {
    live == base + Own(a) + Own(b) + Own(c) && base !! Own(a) !! Own(b) !! Own(c)
  }

  /** The body of the loop for country `idx`; `done` reports an early NULL return. */
  method AbsorbCountry(heap: Heap, ctx: Ctx, idx: nat, prev: RegDomain?, last: RegDomain?, rd: RegDomain,
                       intersected: nat, ghost base: set<RegDomain>)
    returns (exited: bool, done: bool, newPrev: RegDomain?, newLast: RegDomain?, newIntersected: nat)
    requires ctx.Valid() && heap.sizeMax == ctx.sizeMax && CountsFit(ctx)
    requires SoFar(ctx, idx, prev, last) && idx < ctx.numCountries
    requires rd.Valid() && DecodeCountry(ctx, idx) == Ok(rd.Value())
    requires Owned(heap.live, base, prev, last, rd)
    requires intersected == 0 <==> last == null
    modifies heap`live
    ensures !exited && !done ==> (newIntersected == 0 <==> newLast == null)
    ensures exited ==> Decodes(ctx, idx + 1) && !SizesFit(ctx)
    ensures !exited && done ==> heap.live == base
    ensures !exited && done && heap.reliable && Decodes(ctx, ctx.numCountries) ==>
              IntersectAll(Decoded(ctx, ctx.numCountries)) == None
    ensures !exited && !done ==> SoFar(ctx, idx + 1, newPrev, newLast)
    ensures !exited && !done ==> Owned(heap.live, base, newPrev, newLast, null)
    ensures !exited && !done && newPrev != null ==>
              newPrev in {prev, last, rd} || (fresh(newPrev) && fresh(newPrev.regRules))
    ensures !exited && !done && newLast != null ==>
              newLast in {prev, last, rd} || (fresh(newLast) && fresh(newLast.regRules))
  {
    hide DecodeCountry, FoldRules, IntersectRules, NonWorld, Decoded, CountsFit, SizesFit, IntersectAll;
    ghost var lists := NonWorld(Decoded(ctx, idx));
    exited, done, newPrev, newLast, newIntersected := false, false, prev, last, intersected;
    DecodedStep(ctx, idx);
    if IsWorld(rd.alpha2) {
      assert lists + [] == lists;
      heap.Free(rd);
    } else if prev == null {
      newPrev := rd;
      assert lists + [rd.Rules()] == [rd.Rules()];
      FoldOfOne(rd.Rules());
      DecodedLast(ctx, idx);
    } else {
      FoldSnoc(lists, rd.Rules());
      FitsAt(ctx, idx + 1);
      exited, newPrev, newLast := IntersectNext(heap, prev, last, rd);
      done := newLast == null;
      newIntersected := intersected + 1;
      if !exited && done && heap.reliable && Decodes(ctx, ctx.numCountries) {
        EmptyDecides(ctx, idx + 1);
      }
    }
  }

  lemma DecodedLast(ctx: Ctx, k: nat)
    requires ctx.Valid() && k < ctx.numCountries && Decodes(ctx, k + 1)
    ensures Decoded(ctx, k + 1)[k] == DecodeCountry(ctx, k).value
  {
  }

  /** What follows the loop: release what is not returned. */
  method FinishFold(heap: Heap, idx: nat, prev: RegDomain?, last: RegDomain?, intersected: nat,
                    ghost base: set<RegDomain>)
    returns (result: RegDomain?)
    requires Owned(heap.live, base, prev, last, null)
    requires prev == null ==> last == null
    requires idx == 0 ==> prev == null
    requires intersected == 0 <==> last == null
    modifies heap`live
    ensures result == if last != null then last else if idx == 1 then prev else null
    ensures heap.live == base + Own(result)
  {
    var prevRd, rdIntsct := prev, last;
    if idx == 0 {
      return null;
    }
    if intersected <= 0 {
      rdIntsct := prevRd;
      prevRd := null;
      if idx > 1 {
        heap.Free(rdIntsct);
        return null;
      }
    }
    if prevRd != null {
      heap.Free(prevRd);
    }
    return rdIntsct;
  }

  /** The head of the loop: country `idx` becomes live beside what the fold pointers own. */
  method FetchCountry(heap: Heap, ctx: Ctx, idx: nat, prev: RegDomain?, last: RegDomain?, ghost base: set<RegDomain>)
    returns (exited: bool, rd: RegDomain?)
    requires ctx.Valid() && heap.sizeMax == ctx.sizeMax
    requires Owned(heap.live, base, prev, last, null)
    modifies heap`live
    ensures exited ==> rd == null && !Decodes(ctx, ctx.numCountries)
    ensures !exited ==> Owned(heap.live, base, prev, last, rd)
    ensures rd == null && !exited && heap.reliable ==> idx >= ctx.numCountries
    ensures rd != null ==> idx < ctx.numCountries && fresh(rd) && fresh(rd.regRules) && rd.Valid()
    ensures rd != null ==> DecodeCountry(ctx, idx) == Ok(rd.Value())
  {
    hide DecodeCountry;
    exited, rd := GetRdIdx(heap, idx, Some(ctx));
  }

  /**
   `reglib_intersect_regdb`. Whatever happens short of exit(3), the domains allocated along the
   way have been released, except the one returned; the loop ends after at most `numCountries`
   rounds. When allocation succeeds and every country decodes, the result is `IntersectAll`. When a
   country cannot be allocated the loop takes it for the last one, so what is returned may be the
   intersection of only a prefix of the countries.
   */
  method IntersectRegdb(heap: Heap, ctx: Option<Ctx>) returns (exited: bool, result: RegDomain?)
    requires ctx.Some? ==> ctx.value.Valid() && heap.sizeMax == ctx.value.sizeMax && CountsFit(ctx.value)
    modifies heap`live
    ensures exited ==> result == null && ctx.Some?
    ensures exited && Decodes(ctx.value, ctx.value.numCountries) ==> !SizesFit(ctx.value)
    ensures !exited ==> heap.live == old(heap.live) + Own(result)
    ensures result != null ==> fresh(result) && result.Valid() && ctx.Some?
    ensures !exited && heap.reliable && ctx.Some? && Decodes(ctx.value, ctx.value.numCountries) ==>
              Outcome(result) == IntersectAll(Decoded(ctx.value, ctx.value.numCountries))
    ensures result != null ==> OutcomeOfPrefix(ctx.value, Outcome(result))
  {
    hide DecodeCountry, FoldRules, IntersectRules, NonWorld, Decoded, CountsFit, SizesFit, IntersectAll;
    hide SoFar, Owned, Decodes, OutcomeOfPrefix;
    ghost var base := heap.live;
    if ctx == None {
      return false, null;
    }
    var prev: RegDomain? := null;
    var last: RegDomain? := null;
    var intersected: nat := 0;
    var idx: nat := 0;
    var rd: RegDomain?;
    StartSoFar(base, ctx.value);
    exited, rd := FetchCountry(heap, ctx.value, idx, prev, last, base);
    if exited {
      return true, null;
    }
    while rd != null
      invariant SoFar(ctx.value, idx, prev, last)
      invariant Owned(heap.live, base, prev, last, rd)
      invariant rd == null && heap.reliable ==> idx >= ctx.value.numCountries
      invariant rd != null ==> idx < ctx.value.numCountries && fresh(rd) && fresh(rd.regRules) && rd.Valid()
      invariant rd != null ==> DecodeCountry(ctx.value, idx) == Ok(rd.Value())
      invariant prev != null ==> fresh(prev) && fresh(prev.regRules)
      invariant last != null ==> fresh(last) && fresh(last.regRules)
      invariant intersected == 0 <==> last == null
      decreases ctx.value.numCountries - idx, rd != null
    {
      var done: bool;
      exited, done, prev, last, intersected :=
        AbsorbCountry(heap, ctx.value, idx, prev, last, rd, intersected, base);
      if exited {
        return true, null;
      }
      if done {
        return false, null;
      }
      idx := idx + 1;
      exited, rd := FetchCountry(heap, ctx.value, idx, prev, last, base);
      if exited {
        return true, null;
      }
    }
    AtEnd(ctx.value, idx, prev, last);
    result := FinishFold(heap, idx, prev, last, intersected, base);
  }

  /** This is what intersecting the first few countries yields. */
  ghost predicate OutcomeOfPrefix(ctx: Ctx, outcome: Option<Domain>)
    requires ctx.Valid()
  {
    exists k: nat :: k <= ctx.numCountries && Decodes(ctx, k) && outcome == IntersectAll(Decoded(ctx, k))
  }

  lemma StartSoFar(live: set<RegDomain>, ctx: Ctx)
    requires ctx.Valid()
    ensures SoFar(ctx, 0, null, null) && Owned(live, live, null, null, null)
  {
    NothingDecoded(ctx);
  }

  lemma AtEnd(ctx: Ctx, idx: nat, prev: RegDomain?, last: RegDomain?)
    requires ctx.Valid() && SoFar(ctx, idx, prev, last)
    ensures idx <= ctx.numCountries
    ensures prev != null ==> prev.Valid()
    ensures last != null ==> last.Valid()
    ensures prev == null ==> last == null
    ensures idx == 0 ==> prev == null
    ensures Decodes(ctx, idx)
    ensures var outcome := Outcome(if last != null then last else if idx == 1 then prev else null);
            outcome == IntersectAll(Decoded(ctx, idx)) && OutcomeOfPrefix(ctx, outcome)
  {
    hide DecodeCountry, FoldRules, NonWorld, Decoded;
    if idx == 0 {
      NothingDecoded(ctx);
    }
  }
}
