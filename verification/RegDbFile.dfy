/**
 The binary regulatory database: what its image means, and the bounds-checked decoder that
 follows offsets through it. A result of Exit stands for exit(3).
 */
module RegDbFile {
  import opened CTypes
  import opened Arithmetic
  import opened RegRules
  import opened RegDomains

  const REGDB_MAGIC := 0x52474442
  const REGDB_VERSION := 19
  const HEADER_SIZE := 20
  const COUNTRY_SIZE := 8
  const RULE_SIZE := 12
  const FREQ_RANGE_SIZE := 12
  const POWER_RULE_SIZE := 8
  const COLLECTION_SIZE := 4

  const RRF_NO_IR_ALL: bv32 := 0x180

  datatype Result<+T> = Ok(value: T) | Exit

  // ------------------------------------------------------ big-endian words

  function WordBytes(x: u32): (bytes: seq<u8>)
    ensures |bytes| == 4
  {
    [x / 0x100_0000, x / 0x1_0000 % 0x100, x / 0x100 % 0x100, x % 0x100]
  }

  /** `ntohl` of the word stored at `off`. */
  function ReadWord(db: seq<u8>, off: nat): u32
    requires off + 4 <= |db|
  {
    db[off] as int * 0x100_0000 + db[off + 1] as int * 0x1_0000 + db[off + 2] as int * 0x100 + db[off + 3]
  }

  /** A word reads as `x` iff its bytes are the big-endian encoding of `x`. */
  lemma WordRoundTrip(db: seq<u8>, off: nat, x: u32)
    requires off + 4 <= |db|
    ensures ReadWord(db, off) == x <==> db[off..off + 4] == WordBytes(x)
  {
    var s := db[off..off + 4];
    assert s == [db[off], db[off + 1], db[off + 2], db[off + 3]];
    WordOfBytes(db[off], db[off + 1], db[off + 2], db[off + 3]);
    if s == WordBytes(x) {
      BytesOfWord(x);
    }
  }

  lemma WordOfBytes(a: int, b: int, c: int, d: int)
    requires 0 <= a < 0x100 && 0 <= b < 0x100 && 0 <= c < 0x100 && 0 <= d < 0x100
    ensures var y := a * 0x100_0000 + b * 0x1_0000 + c * 0x100 + d;
            WordBytes(y) == [a, b, c, d]
  {
    var y := a * 0x100_0000 + b * 0x1_0000 + c * 0x100 + d;
    DivRem(y, a * 0x1_0000 + b * 0x100 + c, d);
    DivRem(a * 0x1_0000 + b * 0x100 + c, a * 0x100 + b, c);
    DivRem(a * 0x100 + b, a, b);
    assert y / 0x1_0000 == y / 0x100 / 0x100 && y / 0x100_0000 == y / 0x100 / 0x100 / 0x100;
  }

  lemma DivRem(y: int, q: int, r: int)
    requires y == q * 0x100 + r && 0 <= r < 0x100
    ensures y / 0x100 == q && y % 0x100 == r
  {
  }

  lemma BytesOfWord(x: u32)
    ensures x == x / 0x100_0000 * 0x100_0000 + x / 0x1_0000 % 0x100 * 0x1_0000 + x / 0x100 % 0x100 * 0x100 + x % 0x100
  {
    assert x / 0x1_0000 == x / 0x100_0000 * 0x100 + x / 0x1_0000 % 0x100;
    assert x / 0x100 == x / 0x1_0000 * 0x100 + x / 0x100 % 0x100;
  }

  /** The most significant byte comes first. */
  lemma WordBytesMeaning(x: u32, a: u8, b: u8, c: u8, d: u8)
    ensures WordBytes(x) == [a, b, c, d] <==> x == a * 0x100_0000 + b * 0x1_0000 + c * 0x100 + d
  {
    BytesOfWord(x);
    WordOfBytes(a, b, c, d);
  }

  // -------------------------------------------------------------- decoding

  /** `reglib_get_file_ptr`: it returns exactly when the whole record lies in the first `dblen` bytes. */
  function FilePtr(dblen: nat, structLen: nat, ptr: u32): (r: Result<nat>)
    ensures r == if ptr + structLen <= dblen then Ok(ptr) else Exit
  {
    if structLen > dblen then Exit
    else if ptr > dblen - structLen then Exit
    else Ok(ptr)
  }

  /** `struct reglib_regdb_ctx`; `countries` is an offset into the mapped image. */
  datatype Ctx = Ctx(db: seq<u8>, dblen: nat, numCountries: u32, countries: nat, sizeMax: nat) {
    ghost predicate Valid() {
      && dblen <= |db|
      && dblen < U32_LIMIT
      && countries + COUNTRY_SIZE * numCountries <= dblen
      && sizeMax >= U32_LIMIT - 1
    }
  }

  /**
   `reglib_malloc_regdb_ctx` on the mapped file; `verified` is the verdict of the signature check.
   The byte length of the country table is computed in `size_t`.
   */
  function OpenDb(file: seq<u8>, verified: bool, sizeMax: nat): Result<Option<Ctx>> {
    var realDblen := |file| % U32_LIMIT;
    match FilePtr(realDblen, HEADER_SIZE, 0)
    case Exit => Exit
    case Ok(_) =>
      if ReadWord(file, 0) != REGDB_MAGIC then Ok(None)
      else if ReadWord(file, 4) != REGDB_VERSION then Ok(None)
      else
        var siglen := ReadWord(file, 16);
        if siglen > realDblen - HEADER_SIZE then Ok(None)
        else if !verified then Ok(None)
        else
          var dblen := realDblen - siglen;
          var numCountries := ReadWord(file, 12);
          match FilePtr(dblen, COUNTRY_SIZE * numCountries % (sizeMax + 1), ReadWord(file, 8))
          case Exit => Exit
          case Ok(countries) => Ok(Some(Ctx(file, dblen, numCountries, countries, sizeMax)))
  }

  /** The accepted country table lies in the signed region exactly when its length fits in `size_t`. */
  lemma OpenDbValid(file: seq<u8>, verified: bool, sizeMax: nat)
    requires sizeMax >= U32_LIMIT - 1
    requires OpenDb(file, verified, sizeMax).Ok? && OpenDb(file, verified, sizeMax).value.Some?
    ensures var ctx := OpenDb(file, verified, sizeMax).value.value;
            ctx.Valid() <==> COUNTRY_SIZE * ctx.numCountries <= sizeMax
  {
    hide ReadWord;
    var n := ReadWord(file, 12);
    SmallRemainder(COUNTRY_SIZE * n, sizeMax + 1);
  }

  lemma HeaderWord(file: seq<u8>, header: seq<seq<u8>>, k: nat, x: u32)
    requires |header| == 5 && k < 5 && forall j :: 0 <= j < 5 ==> |header[j]| == 4
    requires |file| >= 20 && file[..20] == header[0] + header[1] + header[2] + header[3] + header[4]
    requires header[k] == WordBytes(x)
    ensures ReadWord(file, 4 * k) == x
  {
    hide ReadWord, WordBytes;
    WordRoundTrip(file, 4 * k, x);
    assert file[4 * k..4 * k + 4] == file[..20][4 * k..4 * k + 4];
    assert k == 0 || k == 1 || k == 2 || k == 3 || k == 4;
  }

  lemma ShortFileExits(file: seq<u8>, verified: bool, sizeMax: nat)
    requires |file| % 0x1_0000_0000 < 20
    ensures OpenDb(file, verified, sizeMax) == Exit
  {
  }

  /**
   Opening undoes the layout of the header: magic, version, pointer and number of the countries, length
   of the signature. Without a database there is no context; a pointer out of bounds exits.
   */
  lemma OpenUndoesHeader(file: seq<u8>, verified: bool, sizeMax: nat,
                         magic: u32, version: u32, ptr: u32, num: u32, siglen: u32)
    requires 20 <= |file| && sizeMax >= U32_LIMIT - 1
    requires file[..20] == WordBytes(magic) + WordBytes(version) + WordBytes(ptr) + WordBytes(num) + WordBytes(siglen)
    ensures OpenDb(file, verified, sizeMax) ==
            var length := |file| % 0x1_0000_0000;
            if length < 20 then Exit
            else if magic != 0x5247_4442 || version != 19 || siglen > length - 20 || !verified then Ok(None)
            else if ptr + 8 * num % (sizeMax + 1) > length - siglen then Exit
            else Ok(Some(Ctx(file, length - siglen, num, ptr, sizeMax)))
  {
    hide ReadWord, WordBytes;
    var header := [WordBytes(magic), WordBytes(version), WordBytes(ptr), WordBytes(num), WordBytes(siglen)];
    HeaderWord(file, header, 0, magic);
    HeaderWord(file, header, 1, version);
    HeaderWord(file, header, 2, ptr);
    HeaderWord(file, header, 3, num);
    HeaderWord(file, header, 4, siglen);
  }

  /** Every word of a file is the encoding of a number, so every file of 20 bytes has such a header. */
  lemma HeaderExists(file: seq<u8>) returns (magic: u32, version: u32, ptr: u32, num: u32, siglen: u32)
    requires 20 <= |file|
    ensures file[..20] == WordBytes(magic) + WordBytes(version) + WordBytes(ptr) + WordBytes(num) + WordBytes(siglen)
  {
    hide ReadWord, WordBytes;
    magic, version, ptr := ReadWord(file, 0), ReadWord(file, 4), ReadWord(file, 8);
    num, siglen := ReadWord(file, 12), ReadWord(file, 16);
    WordRoundTrip(file, 0, magic);
    WordRoundTrip(file, 4, version);
    WordRoundTrip(file, 8, ptr);
    WordRoundTrip(file, 12, num);
    WordRoundTrip(file, 16, siglen);
    assert file[..20] == file[0..4] + file[4..8] + file[8..12] + file[12..16] + file[16..20];
  }

  /** The old no-IBSS bit and the no-IR bit are always set together. */
  function NormalizeFlags(flags: bv32): bv32 {
    if flags & RRF_NO_IR_ALL != 0 then flags | RRF_NO_IR_ALL else flags
  }

  function DecodeFlags(word: u32): bv32 {
    NormalizeFlags(word as bv32)
  }

  /** `reg_rule2rd`. */
  function DecodeRule(ctx: Ctx, rulePtr: u32): Result<RegRule>
    requires ctx.Valid()
  {
    match FilePtr(ctx.dblen, RULE_SIZE, rulePtr)
    case Exit => Exit
    case Ok(rule) =>
      match FilePtr(ctx.dblen, FREQ_RANGE_SIZE, ReadWord(ctx.db, rule))
      case Exit => Exit
      case Ok(freq) =>
        match FilePtr(ctx.dblen, POWER_RULE_SIZE, ReadWord(ctx.db, rule + 4))
        case Exit => Exit
        case Ok(power) =>
          Ok(RegRule(
               ReadWord(ctx.db, freq),
               ReadWord(ctx.db, freq + 4),
               ReadWord(ctx.db, freq + 8),
               ReadWord(ctx.db, power),
               ReadWord(ctx.db, power + 4),
               DecodeFlags(ReadWord(ctx.db, rule + 8)),
               0))
  }

  /** The first `k` rules of the collection at `coll`. */
  function DecodeRules(ctx: Ctx, coll: nat, k: nat): (r: Result<seq<RegRule>>)
    requires ctx.Valid() && coll + COLLECTION_SIZE + 4 * k <= ctx.dblen
    ensures r.Ok? ==> |r.value| == k
  {
    if k == 0 then Ok([])
    else
      match DecodeRules(ctx, coll, k - 1)
      case Exit => Exit
      case Ok(rules) =>
        match DecodeRule(ctx, ReadWord(ctx.db, coll + COLLECTION_SIZE + 4 * (k - 1)))
        case Exit => Exit
        case Ok(rule) => Ok(rules + [rule])
  }

  function CountryOffset(ctx: Ctx, i: nat): nat {
    ctx.countries + COUNTRY_SIZE * i
  }

  /**
   The collection of country `i` and its number of rules: an exit unless the whole collection lies in the
   signed region and the domain can be sized. The short look at the collection and its two lengths
   never read or wrap beyond that.
   */
  function LocateRules(ctx: Ctx, i: nat): (r: Result<(nat, u32)>)
    requires ctx.Valid() && i < ctx.numCountries
    ensures var ptr := ReadWord(ctx.db, CountryOffset(ctx, i) + 4);
            r == if ptr + COLLECTION_SIZE <= ctx.dblen &&
                    ptr + COLLECTION_SIZE + 4 * ReadWord(ctx.db, ptr) <= ctx.dblen &&
                    RoomFor(ctx.sizeMax, ReadWord(ctx.db, ptr))
                 then Ok((ptr, ReadWord(ctx.db, ptr))) else Exit
  {
    var ptr := ReadWord(ctx.db, CountryOffset(ctx, i) + 4);
    match FilePtr(ctx.dblen, COLLECTION_SIZE, ptr)
    case Exit => Exit
    case Ok(short) =>
      var numRules := ReadWord(ctx.db, short);
      match ArrayLen(ctx.sizeMax, COLLECTION_SIZE, numRules, 4)
      case None => Exit
      case Some(collLen) =>
        match FilePtr(ctx.dblen, collLen, ptr)
        case Exit => Exit
        case Ok(coll) =>
          match ArrayLen(ctx.sizeMax, SIZEOF_REGDOMAIN, numRules, SIZEOF_REG_RULE)
          case None => Exit
          case Some(_) => Ok((coll, numRules))
  }

  function CountryAlpha2(ctx: Ctx, i: nat): Alpha2
    requires ctx.Valid() && i < ctx.numCountries
  {
    ctx.db[CountryOffset(ctx, i)..CountryOffset(ctx, i) + 2]
  }

  /** `country2rd` on country `i`, allocation aside. */
  function DecodeCountry(ctx: Ctx, i: nat): Result<Domain>
    requires ctx.Valid() && i < ctx.numCountries
  {
    match LocateRules(ctx, i)
    case Exit => Exit
    case Ok((coll, numRules)) =>
      match DecodeRules(ctx, coll, numRules)
      case Exit => Exit
      case Ok(rules) => Ok(Domain(CountryAlpha2(ctx, i), ctx.db[CountryOffset(ctx, i) + 3] % 4, rules))
  }

  // ---------------------------------------------------- what an image holds

  datatype RuleRecord = RuleRecord(
    start: u32, end: u32, maxBandwidth: u32, maxAntennaGain: u32, maxEirp: u32, flags: u32)
  datatype CountryRecord = CountryRecord(alpha2: Alpha2, creqs: u8, rules: seq<RuleRecord>)

  /** Where the parts of a record are; places may coincide or overlap freely. */
  datatype RulePlace = RulePlace(rule: u32, freq: u32, power: u32)
  datatype CountryPlace = CountryPlace(collection: u32, rules: seq<RulePlace>)

  ghost predicate HasWord(ctx: Ctx, off: nat, x: u32)
    requires ctx.Valid()
  {
    off + 4 <= ctx.dblen && ctx.db[off..off + 4] == WordBytes(x)
  }

  ghost predicate HasFreqRange(ctx: Ctx, off: nat, start: u32, end: u32, maxBandwidth: u32)
    requires ctx.Valid()
  {
    HasWord(ctx, off, start) && HasWord(ctx, off + 4, end) && HasWord(ctx, off + 8, maxBandwidth)
  }

  ghost predicate HasPowerRule(ctx: Ctx, off: nat, maxAntennaGain: u32, maxEirp: u32)
    requires ctx.Valid()
  {
    HasWord(ctx, off, maxAntennaGain) && HasWord(ctx, off + 4, maxEirp)
  }

  ghost predicate HasRule(ctx: Ctx, place: RulePlace, rec: RuleRecord)
    requires ctx.Valid()
  {
    && HasWord(ctx, place.rule, place.freq)
    && HasWord(ctx, place.rule + 4, place.power)
    && HasWord(ctx, place.rule + 8, rec.flags)
    && HasFreqRange(ctx, place.freq, rec.start, rec.end, rec.maxBandwidth)
    && HasPowerRule(ctx, place.power, rec.maxAntennaGain, rec.maxEirp)
  }

  ghost predicate HasRules(ctx: Ctx, coll: nat, places: seq<RulePlace>, recs: seq<RuleRecord>)
    requires ctx.Valid()
  {
    && |places| == |recs|
    && forall j :: 0 <= j < |recs| ==>
         HasWord(ctx, coll + 4 + 4 * j, places[j].rule) && HasRule(ctx, places[j], recs[j])
  }

  /** Record `i` of the country table describes `rec`, its parts stored at `place`. */
  ghost predicate HasCountry(ctx: Ctx, i: nat, rec: CountryRecord, place: CountryPlace)
    requires ctx.Valid() && i < ctx.numCountries
  {
    && ctx.db[ctx.countries + 8 * i] == rec.alpha2[0] && ctx.db[ctx.countries + 8 * i + 1] == rec.alpha2[1]
    && ctx.db[ctx.countries + 8 * i + 3] == rec.creqs
    && HasWord(ctx, ctx.countries + 8 * i + 4, place.collection)
    && |rec.rules| < U32_LIMIT
    && HasWord(ctx, place.collection, |rec.rules|)
    && HasRules(ctx, place.collection, place.rules, rec.rules)
  }

  function RuleMeaning(rec: RuleRecord): RegRule {
    RegRule(rec.start, rec.end, rec.maxBandwidth, rec.maxAntennaGain, rec.maxEirp,
            DecodeFlags(rec.flags), 0)
  }

  function RulesMeaning(recs: seq<RuleRecord>): (rules: seq<RegRule>)
    ensures |rules| == |recs|
  {
    if recs == [] then [] else RulesMeaning(recs[..|recs| - 1]) + [RuleMeaning(recs[|recs| - 1])]
  }

  /** The domain a record describes: two bits of `creqs`, no-IR flags normalized. */
  function CountryMeaning(rec: CountryRecord): Domain {
    Domain(rec.alpha2, rec.creqs % 4, RulesMeaning(rec.rules))
  }

  // ---------------------------------------------- decoding undoes encoding

  lemma ReadsWord(ctx: Ctx, off: nat, x: u32)
    requires ctx.Valid()
    ensures HasWord(ctx, off, x) <==> off + 4 <= ctx.dblen && ReadWord(ctx.db, off) == x
  {
    hide ReadWord, WordBytes;
    if off + 4 <= ctx.dblen {
      WordRoundTrip(ctx.db, off, x);
    }
  }

  lemma ReadsFreqRange(ctx: Ctx, off: nat, start: u32, end: u32, maxBandwidth: u32)
    requires ctx.Valid()
    ensures HasFreqRange(ctx, off, start, end, maxBandwidth) <==>
            off + FREQ_RANGE_SIZE <= ctx.dblen && ReadWord(ctx.db, off) == start &&
            ReadWord(ctx.db, off + 4) == end && ReadWord(ctx.db, off + 8) == maxBandwidth
  {
    hide ReadWord, HasWord;
    ReadsWord(ctx, off, start);
    ReadsWord(ctx, off + 4, end);
    ReadsWord(ctx, off + 8, maxBandwidth);
  }

  lemma ReadsPowerRule(ctx: Ctx, off: nat, maxAntennaGain: u32, maxEirp: u32)
    requires ctx.Valid()
    ensures HasPowerRule(ctx, off, maxAntennaGain, maxEirp) <==>
            off + POWER_RULE_SIZE <= ctx.dblen && ReadWord(ctx.db, off) == maxAntennaGain &&
            ReadWord(ctx.db, off + 4) == maxEirp
  {
    hide ReadWord, HasWord;
    ReadsWord(ctx, off, maxAntennaGain);
    ReadsWord(ctx, off + 4, maxEirp);
  }

  /** `place` and `rec` are what the pointers of the rule at `place.rule` lead to. */
  lemma ReadsRule(ctx: Ctx, place: RulePlace, rec: RuleRecord)
    requires ctx.Valid()
    ensures HasRule(ctx, place, rec) <==>
            && place.rule + RULE_SIZE <= ctx.dblen
            && ReadWord(ctx.db, place.rule) == place.freq && ReadWord(ctx.db, place.rule + 4) == place.power
            && DecodeRule(ctx, place.rule).Ok? && ReadWord(ctx.db, place.rule + 8) == rec.flags
            && ReadWord(ctx.db, place.freq) == rec.start && ReadWord(ctx.db, place.freq + 4) == rec.end
            && ReadWord(ctx.db, place.freq + 8) == rec.maxBandwidth
            && ReadWord(ctx.db, place.power) == rec.maxAntennaGain && ReadWord(ctx.db, place.power + 4) == rec.maxEirp
  {
    hide ReadWord, HasWord, HasFreqRange, HasPowerRule, DecodeFlags;
    ReadsWord(ctx, place.rule, place.freq);
    ReadsWord(ctx, place.rule + 4, place.power);
    ReadsWord(ctx, place.rule + 8, rec.flags);
    ReadsFreqRange(ctx, place.freq, rec.start, rec.end, rec.maxBandwidth);
    ReadsPowerRule(ctx, place.power, rec.maxAntennaGain, rec.maxEirp);
  }

  lemma RuleDecodes(ctx: Ctx, place: RulePlace, rec: RuleRecord)
    requires ctx.Valid() && HasRule(ctx, place, rec)
    ensures DecodeRule(ctx, place.rule) == Ok(RuleMeaning(rec))
  {
    hide ReadWord, HasRule, DecodeFlags;
    ReadsRule(ctx, place, rec);
  }

  lemma {:induction false} RulesDecode(ctx: Ctx, coll: nat, places: seq<RulePlace>, recs: seq<RuleRecord>)
    requires ctx.Valid() && coll + COLLECTION_SIZE + 4 * |recs| <= ctx.dblen
    requires HasRules(ctx, coll, places, recs)
    ensures DecodeRules(ctx, coll, |recs|) == Ok(RulesMeaning(recs))
  {
    hide ReadWord, HasWord, HasRule, DecodeRule, RuleMeaning;
    if recs != [] {
      var n := |recs| - 1;
      RulesDecode(ctx, coll, places[..n], recs[..n]);
      ReadsWord(ctx, coll + COLLECTION_SIZE + 4 * n, places[n].rule);
      RuleDecodes(ctx, places[n], recs[n]);
    }
  }

  lemma CollectionFits(ctx: Ctx, coll: nat, places: seq<RulePlace>, recs: seq<RuleRecord>)
    requires ctx.Valid() && HasRules(ctx, coll, places, recs) && coll + COLLECTION_SIZE <= ctx.dblen
    ensures coll + COLLECTION_SIZE + 4 * |recs| <= ctx.dblen
  {
    if recs != [] {
      var n := |recs| - 1;
      assert HasWord(ctx, coll + COLLECTION_SIZE + 4 * n, places[n].rule);
    }
  }

  /** The code of country `i` is the first two bytes of its eight-byte record. */
  lemma CountryCode(ctx: Ctx, i: nat)
    requires ctx.Valid() && i < ctx.numCountries
    ensures ctx.countries + 8 * i + 8 <= |ctx.db|
    ensures CountryAlpha2(ctx, i) == [ctx.db[ctx.countries + 8 * i], ctx.db[ctx.countries + 8 * i + 1]]
  {
  }

  /** An image that holds a country, wherever its parts are, decodes to exactly that country. */
  lemma DecodeUndoesLayout(ctx: Ctx, i: nat, rec: CountryRecord, place: CountryPlace)
    requires ctx.Valid() && i < ctx.numCountries && HasCountry(ctx, i, rec, place)
    requires RoomFor(ctx.sizeMax, |rec.rules|)
    ensures DecodeCountry(ctx, i) == Ok(CountryMeaning(rec))
  {
    hide ReadWord, HasWord, DecodeRules, RulesMeaning, HasRules;
    CountryCode(ctx, i);
    assert rec.alpha2 == [rec.alpha2[0], rec.alpha2[1]];
    ReadsWord(ctx, CountryOffset(ctx, i) + 4, place.collection);
    ReadsWord(ctx, place.collection, |rec.rules|);
    CollectionFits(ctx, place.collection, place.rules, rec.rules);
    RulesDecode(ctx, place.collection, place.rules, rec.rules);
  }

  lemma RuleInBounds(ctx: Ctx, rulePtr: u32)
    requires ctx.Valid() && DecodeRule(ctx, rulePtr).Ok?
    ensures rulePtr + RULE_SIZE <= ctx.dblen
    ensures ReadWord(ctx.db, rulePtr) + FREQ_RANGE_SIZE <= ctx.dblen
    ensures ReadWord(ctx.db, rulePtr + 4) + POWER_RULE_SIZE <= ctx.dblen
  {
    hide ReadWord, DecodeFlags;
  }

  lemma RuleFound(ctx: Ctx, rulePtr: u32) returns (place: RulePlace, rec: RuleRecord)
    requires ctx.Valid() && DecodeRule(ctx, rulePtr).Ok?
    ensures place.rule == rulePtr && HasRule(ctx, place, rec)
    ensures DecodeRule(ctx, rulePtr) == Ok(RuleMeaning(rec))
  {
    hide ReadWord, HasRule, DecodeRule, RuleMeaning;
    RuleInBounds(ctx, rulePtr);
    var freq, power := ReadWord(ctx.db, rulePtr), ReadWord(ctx.db, rulePtr + 4);
    place := RulePlace(rulePtr, freq, power);
    rec := RuleRecord(ReadWord(ctx.db, freq), ReadWord(ctx.db, freq + 4), ReadWord(ctx.db, freq + 8),
                      ReadWord(ctx.db, power), ReadWord(ctx.db, power + 4), ReadWord(ctx.db, rulePtr + 8));
    ReadsRule(ctx, place, rec);
    RuleDecodes(ctx, place, rec);
  }

  lemma {:induction false} RulesFound(ctx: Ctx, coll: nat, k: nat)
    returns (places: seq<RulePlace>, recs: seq<RuleRecord>)
    requires ctx.Valid() && coll + COLLECTION_SIZE + 4 * k <= ctx.dblen
    requires DecodeRules(ctx, coll, k).Ok?
    ensures |recs| == k && HasRules(ctx, coll, places, recs)
    ensures DecodeRules(ctx, coll, k) == Ok(RulesMeaning(recs))
  {
    hide ReadWord, HasWord, HasRule, DecodeRule, RuleMeaning;
    places, recs := [], [];
    if k > 0 {
      var ps, rs := RulesFound(ctx, coll, k - 1);
      var ptr := ReadWord(ctx.db, coll + COLLECTION_SIZE + 4 * (k - 1));
      var p, r := RuleFound(ctx, ptr);
      ReadsWord(ctx, coll + COLLECTION_SIZE + 4 * (k - 1), ptr);
      places, recs := ps + [p], rs + [r];
      assert recs[..k - 1] == rs;
    }
  }

  /** Whatever decodes is a country the image holds: nothing else is accepted. */
  lemma DecodeFindsLayout(ctx: Ctx, i: nat) returns (rec: CountryRecord, place: CountryPlace)
    requires ctx.Valid() && i < ctx.numCountries && DecodeCountry(ctx, i).Ok?
    ensures HasCountry(ctx, i, rec, place) && RoomFor(ctx.sizeMax, |rec.rules|)
    ensures DecodeCountry(ctx, i) == Ok(CountryMeaning(rec))
  {
    hide ReadWord, HasWord, DecodeRules, RulesMeaning, HasRules;
    var (coll, n) := LocateRules(ctx, i).value;
    var places, recs := RulesFound(ctx, coll, n);
    rec := CountryRecord(CountryAlpha2(ctx, i), ctx.db[CountryOffset(ctx, i) + 3], recs);
    place := CountryPlace(coll, places);
    ReadsWord(ctx, CountryOffset(ctx, i) + 4, coll);
    ReadsWord(ctx, coll, n);
  }

  /** One eight-byte record of the country table, field by field. */
  datatype TableEntry = TableEntry(code0: u8, code1: u8, pad: u8, creqs: u8, collection: u32)

  function EntryBytes(e: TableEntry): (bytes: seq<u8>)
    ensures |bytes| == 8
  {
    [e.code0, e.code1, e.pad, e.creqs] + WordBytes(e.collection)
  }

  function TableBytes(entries: seq<TableEntry>): (bytes: seq<u8>)
    ensures |bytes| == 8 * |entries|
  {
    if entries == [] then [] else TableBytes(entries[..|entries| - 1]) + EntryBytes(entries[|entries| - 1])
  }

  lemma {:induction false} TableEntryAt(entries: seq<TableEntry>, i: nat)
    requires i < |entries|
    ensures TableBytes(entries)[8 * i..8 * i + 8] == EntryBytes(entries[i])
  {
    hide EntryBytes;
    var n := |entries| - 1;
    if i < n {
      TableEntryAt(entries[..n], i);
      assert TableBytes(entries)[8 * i..8 * i + 8] == TableBytes(entries[..n])[8 * i..8 * i + 8];
    }
  }

  /** The country table consists of these records, one after the other. */
  ghost predicate HasTable(ctx: Ctx, entries: seq<TableEntry>)
    requires ctx.Valid()
  {
    && |entries| == ctx.numCountries
    && ctx.db[ctx.countries..ctx.countries + 8 * |entries|] == TableBytes(entries)
  }

  lemma SliceOfSlice(s: seq<u8>, a: nat, b: nat, c: nat, d: nat)
    requires a <= b <= |s| && c <= d <= b - a
    ensures s[a..b][c..d] == s[a + c..a + d]
  {
    var t, u := s[a..b][c..d], s[a + c..a + d];
    forall k | 0 <= k < d - c ensures t[k] == u[k] {
      assert t[k] == s[a..b][c + k];
    }
  }

  lemma TableRecord(ctx: Ctx, entries: seq<TableEntry>, i: nat)
    requires ctx.Valid() && HasTable(ctx, entries) && i < |entries|
    ensures var o := ctx.countries + 8 * i;
            && o + 8 <= ctx.dblen
            && ctx.db[o] == entries[i].code0 && ctx.db[o + 1] == entries[i].code1 && ctx.db[o + 3] == entries[i].creqs
            && ctx.db[o + 4..o + 8] == WordBytes(entries[i].collection)
  {
    hide TableBytes, WordBytes;
    var o := ctx.countries + 8 * i;
    TableEntryAt(entries, i);
    SliceOfSlice(ctx.db, ctx.countries, ctx.countries + 8 * |entries|, 8 * i, 8 * i + 8);
    var e := EntryBytes(entries[i]);
    assert e[0] == ctx.db[o] && e[1] == ctx.db[o + 1] && e[3] == ctx.db[o + 3];
    assert e[4..8] == WordBytes(entries[i].collection);
    SliceOfSlice(ctx.db, o, o + 8, 4, 8);
  }

  lemma TableCountry(ctx: Ctx, entries: seq<TableEntry>, i: nat, places: seq<RulePlace>, recs: seq<RuleRecord>)
    returns (rec: CountryRecord, place: CountryPlace)
    requires ctx.Valid() && HasTable(ctx, entries) && i < |entries| && |recs| < U32_LIMIT
    requires HasWord(ctx, entries[i].collection, |recs|) && HasRules(ctx, entries[i].collection, places, recs)
    ensures rec == CountryRecord([entries[i].code0, entries[i].code1], entries[i].creqs, recs)
    ensures i < ctx.numCountries && HasCountry(ctx, i, rec, place)
  {
    hide HasRules, WordBytes, TableBytes;
    TableRecord(ctx, entries, i);
    rec := CountryRecord([entries[i].code0, entries[i].code1], entries[i].creqs, recs);
    place := CountryPlace(entries[i].collection, places);
  }

  /** Country `i` of a table of records is decoded from record `i`: its code, its region and its rules. */
  lemma TableDecodes(ctx: Ctx, entries: seq<TableEntry>, i: nat, places: seq<RulePlace>, recs: seq<RuleRecord>)
    requires ctx.Valid() && HasTable(ctx, entries) && i < |entries|
    requires |recs| < U32_LIMIT && RoomFor(ctx.sizeMax, |recs|)
    requires HasWord(ctx, entries[i].collection, |recs|) && HasRules(ctx, entries[i].collection, places, recs)
    ensures DecodeCountry(ctx, i) ==
            Ok(Domain([entries[i].code0, entries[i].code1], entries[i].creqs % 4, RulesMeaning(recs)))
  {
    hide DecodeCountry, HasRules, RulesMeaning, HasWord, HasCountry;
    var rec, place := TableCountry(ctx, entries, i, places, recs);
    DecodeUndoesLayout(ctx, i, rec, place);
  }

  /** Decoding succeeds with `d` exactly for images that hold a record of `d`. */
  lemma DecodeIffLaidOut(ctx: Ctx, i: nat, d: Domain)
    requires ctx.Valid() && i < ctx.numCountries
    ensures DecodeCountry(ctx, i) == Ok(d) <==>
            exists rec, place ::
              HasCountry(ctx, i, rec, place) && RoomFor(ctx.sizeMax, |rec.rules|) && CountryMeaning(rec) == d
  {
    hide DecodeCountry, HasCountry, CountryMeaning;
    if DecodeCountry(ctx, i) == Ok(d) {
      var rec, place := DecodeFindsLayout(ctx, i);
    }
    if rec, place :| HasCountry(ctx, i, rec, place) && RoomFor(ctx.sizeMax, |rec.rules|) && CountryMeaning(rec) == d {
      DecodeUndoesLayout(ctx, i, rec, place);
    }
  }

  lemma NormalizeFlagsMeaning(flags: bv32)
    ensures NormalizeFlags(flags) & 0x180 == if flags & 0x180 == 0 then 0 else 0x180
    ensures NormalizeFlags(flags) & 0xFFFF_FE7F == flags & 0xFFFF_FE7F
  {
    NoIrSet(flags);
    OtherBitsKept(flags);
  }

  /** Of a flag word the two no-IR bits end up both set iff either was, else both clear; other bits are kept. */
  lemma DecodeFlagsMeaning(word: u32, flags: bv32)
    requires flags == word as bv32
    ensures DecodeFlags(word) & 0x180 == if flags & 0x180 == 0 then 0 else 0x180
    ensures DecodeFlags(word) & 0xFFFF_FE7F == flags & 0xFFFF_FE7F
  {
    hide NormalizeFlags;
    assert DecodeFlags(word) == NormalizeFlags(flags);
    NormalizeFlagsMeaning(flags);
  }

  lemma NoIrSet(f: bv32)
    ensures (f | 0x180) & 0x180 == 0x180
  {
  }

  lemma OtherBitsKept(f: bv32)
    ensures (f | 0x180) & 0xFFFF_FE7F == f & 0xFFFF_FE7F
  {
  }

  // -------------------------------------------------------- read footprint

  /** Two contexts that agree on everything but the bytes after the signed region. */
  ghost predicate SameSigned(c: Ctx, d: Ctx) {
    && c.Valid() && d.Valid()
    && c.dblen == d.dblen && c.numCountries == d.numCountries && c.countries == d.countries && c.sizeMax == d.sizeMax
    && c.db[..c.dblen] == d.db[..d.dblen]
  }

  lemma SameBytes(c: Ctx, d: Ctx, lo: nat, hi: nat)
    requires SameSigned(c, d) && lo <= hi <= c.dblen
    ensures c.db[lo..hi] == d.db[lo..hi]
  {
    assert c.db[lo..hi] == c.db[..c.dblen][lo..hi];
    assert d.db[lo..hi] == d.db[..d.dblen][lo..hi];
  }

  lemma SameWord(c: Ctx, d: Ctx, off: nat, x: u32)
    requires SameSigned(c, d) && HasWord(c, off, x)
    ensures HasWord(d, off, x)
  {
    SameBytes(c, d, off, off + 4);
  }

  lemma SameCountry(c: Ctx, d: Ctx, i: nat, rec: CountryRecord, place: CountryPlace)
    requires SameSigned(c, d) && i < c.numCountries && HasCountry(c, i, rec, place)
    ensures HasCountry(d, i, rec, place)
  {
    hide HasWord;
    var off := CountryOffset(c, i);
    SameBytes(c, d, off, off + 2);
    SameBytes(c, d, off + 3, off + 4);
    assert c.db[off + 3] == c.db[off + 3..off + 4][0];
    assert d.db[off + 3] == d.db[off + 3..off + 4][0];
    forall o, x | HasWord(c, o, x) ensures HasWord(d, o, x) {
      SameWord(c, d, o, x);
    }
  }

  /** Decoding depends on nothing outside the signed region. */
  lemma DecodeFootprint(c: Ctx, d: Ctx, i: nat)
    requires SameSigned(c, d) && i < c.numCountries
    ensures DecodeCountry(c, i) == DecodeCountry(d, i)
  {
    hide DecodeCountry, HasCountry, CountryMeaning;
    if DecodeCountry(c, i).Ok? {
      var rec, place := DecodeFindsLayout(c, i);
      SameCountry(c, d, i, rec, place);
      DecodeUndoesLayout(d, i, rec, place);
    } else if DecodeCountry(d, i).Ok? {
      var rec, place := DecodeFindsLayout(d, i);
      SameCountry(d, c, i, rec, place);
      DecodeUndoesLayout(c, i, rec, place);
    }
  }

  lemma SameHeaderWord(file: seq<u8>, other: seq<u8>, n: nat, off: nat)
    requires n <= |file| && n <= |other| && file[..n] == other[..n] && off + 4 <= n
    ensures ReadWord(file, off) == ReadWord(other, off)
  {
    assert file[..n][off..off + 4] == other[..n][off..off + 4];
    WordRoundTrip(file, off, ReadWord(file, off));
    WordRoundTrip(other, off, ReadWord(file, off));
    assert file[off..off + 4] == file[..n][off..off + 4] && other[off..off + 4] == other[..n][off..off + 4];
  }

  /**
   Two verified files of one length that agree on the signed region, which holds the header, open alike
   and hold the same countries: nothing is read behind the signed region but the signature itself.
   */
  lemma FileFootprint(file: seq<u8>, other: seq<u8>, sizeMax: nat)
    requires sizeMax >= U32_LIMIT - 1 && |file| == |other|
    requires OpenDb(file, true, sizeMax).Ok? && OpenDb(file, true, sizeMax).value.Some?
    requires var n := OpenDb(file, true, sizeMax).value.value.dblen; n <= |file| && file[..n] == other[..n]
    ensures var ctx := OpenDb(file, true, sizeMax).value.value;
            && OpenDb(other, true, sizeMax) == Ok(Some(ctx.(db := other)))
            && (ctx.Valid() ==> ctx.(db := other).Valid() && forall i :: 0 <= i < ctx.numCountries ==>
                 DecodeCountry(ctx.(db := other), i) == DecodeCountry(ctx, i))
  {
    hide ReadWord, DecodeCountry;
    var ctx := OpenDb(file, true, sizeMax).value.value;
    SameHeaderWord(file, other, ctx.dblen, 0);
    SameHeaderWord(file, other, ctx.dblen, 4);
    SameHeaderWord(file, other, ctx.dblen, 8);
    SameHeaderWord(file, other, ctx.dblen, 12);
    SameHeaderWord(file, other, ctx.dblen, 16);
    if ctx.Valid() {
      forall i | 0 <= i < ctx.numCountries
        ensures DecodeCountry(ctx.(db := other), i) == DecodeCountry(ctx, i)
      {
        DecodeFootprint(ctx.(db := other), ctx, i);
      }
    }
  }
}
