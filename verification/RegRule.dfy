/**
 One regulatory rule and the partial operations on it: sanity check, union,
 intersection, and the merge step of the optimizer (union that both operands fit).
 A rule's frequency range is the half-open interval [start, end).
 */
module RegRules {
  import opened CTypes

  datatype RegRule = RegRule(
    start: u32,
    end: u32,
    maxBandwidth: u32,
    maxAntennaGain: u32,
    maxEirp: u32,
    flags: bv32,
    dfsCacMs: u32)

  /** What `memset(rule, 0, sizeof *rule)` leaves behind. */
  const ZERO_RULE := RegRule(0, 0, 0, 0, 0, 0, 0)

  predicate IsValidRule(r: RegRule): (valid: bool)
    ensures valid <==> 0 < r.start < r.end && r.maxBandwidth <= r.end - r.start
  {
    if r.start == 0 || r.end == 0 then false
    else if r.start > r.end then false
    else
      var freqDiff := Sub32(r.end, r.start);
      !(r.end <= r.start || r.maxBandwidth > freqDiff)
  }

  ghost predicate AllValid(rules: seq<RegRule>) {
    forall i :: 0 <= i < |rules| ==> IsValidRule(rules[i])
  }

  /** `reglib_is_valid_rd`: a domain without rules does not pass. */
  ghost predicate IsValidRd(rules: seq<RegRule>) {
    rules != [] && AllValid(rules)
  }

  ghost predicate NonzeroStarts(rules: seq<RegRule>) {
    forall r :: r in rules ==> r.start > 0
  }

  // ------------------------------------------------------------- flag bits

  /** The restrictions of either rule. */
  function OrFlags(f: bv32, g: bv32): bv32 {
    f | g
  }

  lemma OrAssociates(f: bv32, g: bv32, h: bv32)
    ensures OrFlags(OrFlags(f, g), h) == OrFlags(f, OrFlags(g, h))
  {
  }

  lemma OrCommutes(f: bv32, g: bv32)
    ensures OrFlags(f, g) == OrFlags(g, f)
  {
  }

  lemma AndDistributes(f: bv32, g: bv32, m: bv32)
    ensures (f | g) & m == (f & m) | (g & m)
  {
  }

  lemma OrIsZero(f: bv32, g: bv32)
    ensures f | g == 0 <==> f == 0 && g == 0
  {
  }

  lemma OrAbsorbs(f: bv32, g: bv32)
    ensures f | (g & f) == f
  {
  }

  predicate Honours(flags: bv32, honoured: bv32) {
    flags & !honoured == 0
  }

  lemma HonoursBoth(f: bv32, g: bv32, h: bv32)
    ensures Honours(OrFlags(f, g), h) <==> Honours(f, h) && Honours(g, h)
  {
    AndDistributes(f, g, !h);
    OrIsZero(f & !h, g & !h);
  }

  /** Every bit of `g` is set in `f`. */
  predicate HasBits(f: bv32, g: bv32) {
    f & g == g
  }

  lemma HasBitsChain(f: bv32, g: bv32, h: bv32)
    requires HasBits(f, g) && HasBits(g, h)
    ensures HasBits(f, h)
  {
  }

  lemma OrKeepsBits(f: bv32, g: bv32, h: bv32)
    requires HasBits(f, h)
    ensures HasBits(OrFlags(f, g), h)
  {
    AndDistributes(f, g, h);
    OrAbsorbs(h, g);
  }

  // ---------------------------------------------------------------- meaning

  ghost predicate InRange(r: RegRule, f: int) {
    r.start <= f < r.end
  }

  ghost predicate Covers(rules: seq<RegRule>, f: int) {
    exists i :: 0 <= i < |rules| && InRange(rules[i], f)
  }

  /** A transmission: a nonempty frequency range, its power, and the restrictions it obeys. */
  datatype Channel = Channel(lo: int, hi: int, gain: int, eirp: int, honoured: bv32)

  ghost predicate Permits(r: RegRule, c: Channel) {
    && r.start <= c.lo < c.hi <= r.end
    && c.hi - c.lo <= r.maxBandwidth
    && c.gain <= r.maxAntennaGain
    && c.eirp <= r.maxEirp
    && Honours(r.flags, c.honoured)
  }

  ghost predicate Allows(rules: seq<RegRule>, c: Channel) {
    exists i :: 0 <= i < |rules| && Permits(rules[i], c)
  }

  /** `r` grants at least what `s` grants, apart from carrying at least its flag bits. */
  ghost predicate Dominates(r: RegRule, s: RegRule) {
    && r.start <= s.start && s.end <= r.end
    && s.maxBandwidth <= r.maxBandwidth
    && s.maxAntennaGain <= r.maxAntennaGain
    && s.maxEirp <= r.maxEirp
    && HasBits(r.flags, s.flags)
  }

  // ----------------------------------------------------------- intersection

  /**
   The fields `reg_rules_intersect` stores in its target whether or not it succeeds.
   `cac` is what the target held before, since that field is never written.
   */
  function RawIntersect(a: RegRule, b: RegRule, cac: u32): RegRule {
    var start := Max(a.start, b.start);
    var end := Min(a.end, b.end);
    var bandwidth := Min(a.maxBandwidth, b.maxBandwidth);
    var freqDiff := Sub32(end, start);
    RegRule(start, end,
            if bandwidth > freqDiff then freqDiff else bandwidth,
            Min(a.maxAntennaGain, b.maxAntennaGain),
            Min(a.maxEirp, b.maxEirp),
            OrFlags(a.flags, b.flags),
            cac)
  }

  /** `reg_rules_intersect` on a zeroed target; None is the -EINVAL return. */
  function IntersectRule(a: RegRule, b: RegRule): Option<RegRule> {
    var r := RawIntersect(a, b, 0);
    if IsValidRule(r) then Some(r) else None
  }

  /** Ranges that merely touch, or that both start at zero, do not intersect; all others do. */
  lemma IntersectRuleSucceeds(a: RegRule, b: RegRule)
    ensures IntersectRule(a, b).Some? <==>
            (exists f :: InRange(a, f) && InRange(b, f)) && !(a.start == 0 && b.start == 0)
  {
    var s := Max(a.start, b.start);
    if IntersectRule(a, b).Some? {
      assert InRange(a, s) && InRange(b, s);
    }
  }

  lemma IntersectRuleCovers(a: RegRule, b: RegRule, f: int)
    requires IntersectRule(a, b).Some?
    ensures InRange(IntersectRule(a, b).value, f) <==> InRange(a, f) && InRange(b, f)
  {
  }

  lemma IntersectRuleCommutes(a: RegRule, b: RegRule)
    ensures IntersectRule(a, b) == IntersectRule(b, a)
  {
    OrCommutes(a.flags, b.flags);
  }

  function Bind(a: Option<RegRule>, b: Option<RegRule>): Option<RegRule> {
    if a.Some? && b.Some? then IntersectRule(a.value, b.value) else None
  }

  ghost predicate ShareFrequency(a: RegRule, b: RegRule, c: RegRule) {
    Max(a.start, Max(b.start, c.start)) < Min(a.end, Min(b.end, c.end))
  }

  /** What intersecting three rules amounts to, whichever pair goes first. */
  function RawTriple(a: RegRule, b: RegRule, c: RegRule): RegRule
    requires ShareFrequency(a, b, c)
  {
    var start := Max(a.start, Max(b.start, c.start));
    var end := Min(a.end, Min(b.end, c.end));
    RegRule(start, end,
            Min(Min(a.maxBandwidth, Min(b.maxBandwidth, c.maxBandwidth)), end - start),
            Min(a.maxAntennaGain, Min(b.maxAntennaGain, c.maxAntennaGain)),
            Min(a.maxEirp, Min(b.maxEirp, c.maxEirp)),
            OrFlags(a.flags, OrFlags(b.flags, c.flags)),
            0)
  }

  /** The intersection in closed form: the clamp on the bandwidth is a third minimum. */
  lemma IntersectRuleForm(a: RegRule, b: RegRule)
    ensures IntersectRule(a, b) ==
            if Max(a.start, b.start) < Min(a.end, b.end) && (a.start > 0 || b.start > 0)
            then Some(RegRule(
              Max(a.start, b.start),
              Min(a.end, b.end),
              Min(Min(a.maxBandwidth, b.maxBandwidth), Min(a.end, b.end) - Max(a.start, b.start)),
              Min(a.maxAntennaGain, b.maxAntennaGain),
              Min(a.maxEirp, b.maxEirp),
              OrFlags(a.flags, b.flags),
              0))
            else None
  {
  }

  lemma IntersectRight(a: RegRule, b: RegRule, c: RegRule)
    ensures Bind(Some(a), IntersectRule(b, c)) ==
            if ShareFrequency(a, b, c) && (b.start > 0 || c.start > 0)
            then Some(RawTriple(a, b, c)) else None
  {
    hide IntersectRule;
    IntersectRuleForm(b, c);
    if IntersectRule(b, c).Some? {
      IntersectRuleForm(a, IntersectRule(b, c).value);
    }
  }

  lemma TripleReverses(a: RegRule, b: RegRule, c: RegRule)
    ensures ShareFrequency(a, b, c) <==> ShareFrequency(c, b, a)
    ensures ShareFrequency(a, b, c) ==> RawTriple(a, b, c) == RawTriple(c, b, a)
  {
    OrAssociates(a.flags, b.flags, c.flags);
    OrCommutes(a.flags, b.flags);
    OrCommutes(OrFlags(b.flags, a.flags), c.flags);
  }

  lemma IntersectLeft(a: RegRule, b: RegRule, c: RegRule)
    ensures Bind(IntersectRule(a, b), Some(c)) ==
            if ShareFrequency(a, b, c) && (a.start > 0 || b.start > 0)
            then Some(RawTriple(a, b, c)) else None
  {
    hide IntersectRule;
    var left := Bind(IntersectRule(a, b), Some(c));
    IntersectRuleCommutes(a, b);
    if IntersectRule(a, b).Some? {
      IntersectRuleCommutes(IntersectRule(a, b).value, c);
    }
    assert left == Bind(Some(c), IntersectRule(b, a));
    IntersectRight(c, b, a);
    TripleReverses(a, b, c);
  }

  /**
   Rule intersection re-associates exactly when the three ranges share no frequency, or
   the middle rule starts above zero, or the outer two agree on starting at zero.
   */
  lemma IntersectRuleAssociates(a: RegRule, b: RegRule, c: RegRule)
    ensures Bind(IntersectRule(a, b), Some(c)) == Bind(Some(a), IntersectRule(b, c)) <==>
            !ShareFrequency(a, b, c) || b.start > 0 || (a.start == 0 <==> c.start == 0)
  {
    hide IntersectRule;
    IntersectLeft(a, b, c);
    IntersectRight(a, b, c);
  }

  lemma PermitsBoth(a: RegRule, b: RegRule, c: Channel)
    requires IntersectRule(a, b).Some? && Permits(IntersectRule(a, b).value, c)
    ensures Permits(a, c) && Permits(b, c)
  {
    HonoursBoth(a.flags, b.flags, c.honoured);
  }

  lemma BothPermit(a: RegRule, b: RegRule, c: Channel)
    requires a.start > 0 || b.start > 0
    requires Permits(a, c) && Permits(b, c)
    ensures IntersectRule(a, b).Some? && Permits(IntersectRule(a, b).value, c)
  {
    HonoursBoth(a.flags, b.flags, c.honoured);
  }

  /**
   A channel fits the intersection iff it fits both rules and they do not both start at zero: the
   bandwidth clamp loses nothing.
   */
  lemma IntersectRulePermits(a: RegRule, b: RegRule, c: Channel)
    ensures IntersectRule(a, b).Some? && Permits(IntersectRule(a, b).value, c) <==>
            Permits(a, c) && Permits(b, c) && (a.start > 0 || b.start > 0)
  {
    hide IntersectRule, Permits;
    IntersectRuleSucceeds(a, b);
    if IntersectRule(a, b).Some? && Permits(IntersectRule(a, b).value, c) {
      PermitsBoth(a, b, c);
    }
    if Permits(a, c) && Permits(b, c) && (a.start > 0 || b.start > 0) {
      BothPermit(a, b, c);
    }
  }

  // ------------------------------------------------------------------ union

  predicate Apart(a: RegRule, b: RegRule) {
    a.end < b.start || b.end < a.start
  }

  /** The fields `reg_rules_union` stores once the ranges are known to overlap or touch. */
  function RawUnion(a: RegRule, b: RegRule, cac: u32): RegRule {
    RegRule(Min(a.start, b.start),
            Max(a.end, b.end),
            Max(a.maxBandwidth, b.maxBandwidth),
            Max(a.maxAntennaGain, b.maxAntennaGain),
            Max(a.maxEirp, b.maxEirp),
            OrFlags(a.flags, b.flags),
            cac)
  }

  function UnionRule(a: RegRule, b: RegRule): Option<RegRule> {
    if Apart(a, b) then None
    else
      var u := RawUnion(a, b, 0);
      if IsValidRule(u) then Some(u) else None
  }

  /** `reg_rule_optimize`: the union, provided each operand still intersects it. */
  function MergeRule(a: RegRule, b: RegRule): Option<RegRule> {
    match UnionRule(a, b)
    case None => None
    case Some(u) =>
      if IntersectRule(a, u).Some? && IntersectRule(b, u).Some? then Some(u) else None
  }

  lemma UnionDominates(a: RegRule, b: RegRule, s: RegRule)
    requires Dominates(a, s)
    ensures Dominates(RawUnion(a, b, 0), s)
  {
    OrKeepsBits(a.flags, b.flags, s.flags);
  }

  lemma DominatesSelf(a: RegRule)
    ensures Dominates(a, a)
  {
    assert HasBits(a.flags, a.flags);
  }

  lemma DominatesChain(a: RegRule, b: RegRule, c: RegRule)
    requires Dominates(a, b) && Dominates(b, c)
    ensures Dominates(a, c)
  {
    HasBitsChain(a.flags, b.flags, c.flags);
  }

  /** A valid rule intersects any rule whose range contains its own. */
  lemma FitsInside(a: RegRule, u: RegRule)
    requires IsValidRule(a) && u.start <= a.start && a.end <= u.end
    ensures IntersectRule(a, u).Some?
  {
  }

  /** The union of two valid rules that overlap or touch is valid and covers exactly their ranges. */
  lemma RawUnionMeaning(a: RegRule, b: RegRule)
    requires IsValidRule(a) && IsValidRule(b) && !Apart(a, b)
    ensures IsValidRule(RawUnion(a, b, 0))
    ensures forall f :: InRange(RawUnion(a, b, 0), f) <==> InRange(a, f) || InRange(b, f)
  {
  }

  /** Two valid rules merge iff their ranges overlap or touch, and then into their union. */
  lemma MergeRuleMeaning(a: RegRule, b: RegRule)
    requires IsValidRule(a) && IsValidRule(b)
    ensures MergeRule(a, b) == if Apart(a, b) then None else Some(RawUnion(a, b, 0))
  {
    if !Apart(a, b) {
      RawUnionMeaning(a, b);
      FitsInside(a, RawUnion(a, b, 0));
      FitsInside(b, RawUnion(a, b, 0));
    }
  }

  lemma UnionDominatesBoth(a: RegRule, b: RegRule, s: RegRule)
    requires Dominates(a, s) || Dominates(b, s)
    ensures Dominates(RawUnion(a, b, 0), s)
  {
    if Dominates(a, s) {
      UnionDominates(a, b, s);
    } else {
      UnionDominates(b, a, s);
      OrCommutes(a.flags, b.flags);
    }
  }
}
