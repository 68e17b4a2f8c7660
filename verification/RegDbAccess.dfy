/** Decoding into freshly allocated domains: `country2rd` and the two lookups built on it. */
module RegDbAccess {
  import opened CTypes
  import opened RegRules
  import opened RegDomains
  import opened RegDbFile

  /** `reg_rule2rd`, writing to `slots[at]`; `exited` reports exit(3). */
  method RegRule2Rd(ctx: Ctx, rulePtr: u32, slots: array<RegRule>, at: nat) returns (exited: bool)
    requires ctx.Valid() && at < slots.Length && slots[at] == ZERO_RULE
    modifies slots
    ensures exited <==> DecodeRule(ctx, rulePtr) == Exit
    ensures slots[..at] == old(slots[..at]) && slots[at + 1..] == old(slots[at + 1..])
    ensures !exited ==> slots[at] == DecodeRule(ctx, rulePtr).value
  {
    hide ReadWord, DecodeFlags;
    var rule := FilePtr(ctx.dblen, RULE_SIZE, rulePtr);
    if rule == Exit {
      return true;
    }
    var freq := FilePtr(ctx.dblen, FREQ_RANGE_SIZE, ReadWord(ctx.db, rule.value));
    if freq == Exit {
      return true;
    }
    var power := FilePtr(ctx.dblen, POWER_RULE_SIZE, ReadWord(ctx.db, rule.value + 4));
    if power == Exit {
      return true;
    }
    slots[at] := slots[at].(
      start := ReadWord(ctx.db, freq.value),
      end := ReadWord(ctx.db, freq.value + 4),
      maxBandwidth := ReadWord(ctx.db, freq.value + 8));
    slots[at] := slots[at].(
      maxAntennaGain := ReadWord(ctx.db, power.value),
      maxEirp := ReadWord(ctx.db, power.value + 4));
    slots[at] := slots[at].(flags := DecodeFlags(ReadWord(ctx.db, rule.value + 8)));
    exited := false;
  }

  lemma {:induction false} ExitSpreads(ctx: Ctx, coll: nat, k: nat, n: nat)
    requires ctx.Valid() && k <= n && coll + COLLECTION_SIZE + 4 * n <= ctx.dblen
    requires DecodeRules(ctx, coll, k) == Exit
    ensures DecodeRules(ctx, coll, n) == Exit
  {
    hide ReadWord, DecodeRule;
    if k < n {
      ExitSpreads(ctx, coll, k, n - 1);
    }
  }

  /** The loop of `country2rd`. */
  method FillRules(ctx: Ctx, coll: nat, numRules: u32, slots: array<RegRule>) returns (exited: bool)
    requires ctx.Valid() && coll + COLLECTION_SIZE + 4 * numRules <= ctx.dblen
    requires slots.Length == numRules && forall i :: 0 <= i < slots.Length ==> slots[i] == ZERO_RULE
    modifies slots
    ensures exited <==> DecodeRules(ctx, coll, numRules) == Exit
    ensures !exited ==> slots[..] == DecodeRules(ctx, coll, numRules).value
  {
    hide ReadWord, DecodeRule;
    var i := 0;
    while i < numRules
      invariant i <= numRules
      invariant DecodeRules(ctx, coll, i).Ok? && slots[..i] == DecodeRules(ctx, coll, i).value
      invariant forall j :: i <= j < slots.Length ==> slots[j] == ZERO_RULE
    {
      ghost var before := slots[..i];
      ghost var after := slots[i + 1..];
      exited := RegRule2Rd(ctx, ReadWord(ctx.db, coll + COLLECTION_SIZE + 4 * i), slots, i);
      if exited {
        ExitSpreads(ctx, coll, i + 1, numRules);
        return;
      }
      assert slots[..i + 1] == before + [slots[i]];
      assert forall j :: i < j < slots.Length ==> slots[j] == slots[i + 1..][j - i - 1];
      i := i + 1;
    }
    exited := false;
    assert slots[..] == slots[..numRules];
  }

  /** `country2rd`: a fresh domain holding exactly what the image says, unless allocation fails. */
  method Country2Rd(heap: Heap, ctx: Ctx, i: nat) returns (exited: bool, rd: RegDomain?)
    requires ctx.Valid() && i < ctx.numCountries && heap.sizeMax == ctx.sizeMax
    modifies heap`live
    ensures exited ==> rd == null && DecodeCountry(ctx, i) == Exit
    ensures rd == null && !exited ==> !heap.reliable && heap.live == old(heap.live)
    ensures rd != null ==> fresh(rd) && fresh(rd.regRules) && heap.live == old(heap.live) + {rd}
    ensures rd != null ==> rd.Valid() && DecodeCountry(ctx, i) == Ok(rd.Value())
  {
    hide DecodeRules, ReadWord;
    var located := LocateRules(ctx, i);
    if located == Exit {
      return true, null;
    }
    var (coll, numRules) := located.value;
    exited := false;
    rd := heap.Malloc(numRules);
    if rd == null {
      return;
    }
    rd.alpha2 := CountryAlpha2(ctx, i);
    rd.dfsRegion := ctx.db[CountryOffset(ctx, i) + 3] % 4;
    rd.nRegRules := numRules;
    exited := FillRules(ctx, coll, numRules, rd.regRules);
    if exited {
      rd := null;
      return;
    }
    assert rd.Rules() == rd.regRules[..];
  }

  /** `reglib_get_rd_idx`: NULL past the last country. */
  method GetRdIdx(heap: Heap, idx: nat, ctx: Option<Ctx>) returns (exited: bool, rd: RegDomain?)
    requires ctx.Some? ==> ctx.value.Valid() && heap.sizeMax == ctx.value.sizeMax
    modifies heap`live
    ensures exited ==> rd == null && ctx.Some? && idx < ctx.value.numCountries && DecodeCountry(ctx.value, idx) == Exit
    ensures rd == null && !exited ==> heap.live == old(heap.live)
    ensures rd == null && !exited && heap.reliable ==> ctx == None || idx >= ctx.value.numCountries
    ensures rd != null ==> fresh(rd) && fresh(rd.regRules) && heap.live == old(heap.live) + {rd}
    ensures rd != null ==> ctx.Some? && idx < ctx.value.numCountries
    ensures rd != null ==> rd.Valid() && DecodeCountry(ctx.value, idx) == Ok(rd.Value())
  {
    if ctx == None {
      return false, null;
    }
    if idx >= ctx.value.numCountries {
      return false, null;
    }
    exited, rd := Country2Rd(heap, ctx.value, idx);
  }

  /** The record of country `i` starts with this code. */
  predicate HasCode(ctx: Ctx, alpha2: Alpha2, i: nat)
    requires ctx.Valid() && i < ctx.numCountries
  {
    ctx.db[ctx.countries + 8 * i] == alpha2[0] && ctx.db[ctx.countries + 8 * i + 1] == alpha2[1]
  }

  lemma HasCodeIff(ctx: Ctx, alpha2: Alpha2, i: nat)
    requires ctx.Valid() && i < ctx.numCountries
    ensures HasCode(ctx, alpha2, i) <==> CountryAlpha2(ctx, i) == alpha2
  {
    CountryCode(ctx, i);
  }

  /** Country `i` is the first one with this code. */
  ghost predicate FirstMatch(ctx: Ctx, alpha2: Alpha2, i: nat)
    requires ctx.Valid()
  {
    && i < ctx.numCountries && HasCode(ctx, alpha2, i)
    && forall j :: 0 <= j < i ==> !HasCode(ctx, alpha2, j)
  }

  /** In a table of records that is the first record with these two bytes. */
  lemma TableFirstMatch(ctx: Ctx, entries: seq<TableEntry>, alpha2: Alpha2, i: nat)
    requires ctx.Valid() && HasTable(ctx, entries)
    ensures FirstMatch(ctx, alpha2, i) <==>
            && i < |entries| && [entries[i].code0, entries[i].code1] == alpha2
            && forall j :: 0 <= j < i ==> [entries[j].code0, entries[j].code1] != alpha2
  {
    hide HasTable;
    forall j | 0 <= j < |entries|
      ensures j < ctx.numCountries && (HasCode(ctx, alpha2, j) <==> [entries[j].code0, entries[j].code1] == alpha2)
    {
      TableSize(ctx, entries);
      TableRecord(ctx, entries, j);
    }
    TableSize(ctx, entries);
  }

  lemma TableSize(ctx: Ctx, entries: seq<TableEntry>)
    requires ctx.Valid() && HasTable(ctx, entries)
    ensures |entries| == ctx.numCountries
  {
  }

  /** The first country with this code decodes to `r`. */
  ghost predicate FirstDecodes(ctx: Ctx, alpha2: Alpha2, r: Result<Domain>)
    requires ctx.Valid()
  {
    exists i :: FirstMatch(ctx, alpha2, i) && DecodeCountry(ctx, i) == r
  }

  ghost predicate NoMatch(ctx: Ctx, alpha2: Alpha2)
    requires ctx.Valid()
  {
    forall i :: 0 <= i < ctx.numCountries ==> !HasCode(ctx, alpha2, i)
  }

  /** `reglib_get_rd_alpha2`: the lowest-index country with the code, or NULL when there is none. */
  method GetRdAlpha2(heap: Heap, alpha2: Alpha2, attempt: Result<Option<Ctx>>) returns (exited: bool, rd: RegDomain?)
    requires attempt.Ok? && attempt.value.Some? ==> attempt.value.value.Valid()
    requires attempt.Ok? && attempt.value.Some? ==> heap.sizeMax == attempt.value.value.sizeMax
    modifies heap`live
    ensures exited ==> rd == null
    ensures exited && attempt.Ok? ==> attempt.value.Some? && FirstDecodes(attempt.value.value, alpha2, Exit)
    ensures attempt == Exit ==> exited
    ensures rd == null && !exited ==> heap.live == old(heap.live)
    ensures rd != null ==> fresh(rd) && fresh(rd.regRules) && heap.live == old(heap.live) + {rd}
    ensures rd != null ==> attempt.Ok? && attempt.value.Some? && rd.Valid()
    ensures rd != null ==> FirstDecodes(attempt.value.value, alpha2, Ok(rd.Value()))
    ensures rd == null && !exited && heap.reliable ==> attempt.value == None || NoMatch(attempt.value.value, alpha2)
  {
    hide DecodeCountry, CountryAlpha2, HasCode;
    if attempt == Exit {
      return true, null;
    }
    if attempt.value == None {
      return false, null;
    }
    var ctx := attempt.value.value;
    var found := false;
    var i := 0;
    while i < ctx.numCountries
      invariant i <= ctx.numCountries && !found && heap.live == old(heap.live)
      invariant forall j :: 0 <= j < i ==> !HasCode(ctx, alpha2, j)
    {
      HasCodeIff(ctx, alpha2, i);
      if CountryAlpha2(ctx, i) == alpha2 {
        found := true;
        break;
      }
      i := i + 1;
    }
    if !found {
      return false, null;
    }
    assert FirstMatch(ctx, alpha2, i);
    exited, rd := Country2Rd(heap, ctx, i);
  }
}
