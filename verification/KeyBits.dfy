/** The bit arithmetic of rule keys. */
module KeyBits {
  import opened CTypes

  function Key(eirp: bv32, flags: bv32, band: bv32): bv32 {
    ((eirp ^ 0) << 0) ^ ((flags ^ 8) << 8) ^ ((band ^ 16) << 16)
  }

  /** How two keys differ: the constants cancel. */
  function Difference(e: bv32, f: bv32, b: bv32, e': bv32, f': bv32, b': bv32): bv32 {
    e ^ e' ^ ((f ^ f') << 8) ^ ((b ^ b') << 16)
  }

  lemma KeysDiffer(e: bv32, f: bv32, b: bv32, e': bv32, f': bv32, b': bv32)
    ensures Key(e, f, b) ^ Key(e', f', b') == Difference(e, f, b, e', f', b')
  {
  }

  lemma XorZero(x: bv32, y: bv32)
    ensures x == y <==> x ^ y == 0
  {
  }

  lemma KeysEqualIff(e: bv32, f: bv32, b: bv32, e': bv32, f': bv32, b': bv32)
    ensures Key(e, f, b) == Key(e', f', b') <==> Difference(e, f, b, e', f', b') == 0
  {
    hide Key, Difference;
    KeysDiffer(e, f, b, e', f', b');
    XorZero(Key(e, f, b), Key(e', f', b'));
  }

  lemma OnlyEirpDiffers(e: bv32, e': bv32, f: bv32, b: bv32)
    ensures Key(e, f, b) == Key(e', f, b) <==> e == e'
  {
  }

  // ------------------------------------------------------ words as numbers

  function WordBits(x: u32): bv32 {
    x as bv32
  }

  function WordNumber(b: bv32): int {
    b as int
  }

  lemma CastBack(x: u32, b: bv32)
    requires b == x as bv32
    ensures b as int == x % U32_LIMIT
  {
  }

  lemma NumberOfBits(x: u32, b: bv32)
    requires b == WordBits(x)
    ensures WordNumber(b) == x % U32_LIMIT
  {
    CastBack(x, b);
  }

  /** Different words have different bits. */
  lemma WordBitsInjective(x: u32, y: u32)
    ensures WordBits(x) == WordBits(y) <==> x == y
  {
    hide WordBits, WordNumber;
    if WordBits(x) == WordBits(y) {
      NumberOfBits(x, WordBits(x));
      NumberOfBits(y, WordBits(x));
    }
  }

  lemma WordBitsAre(x: u32)
    ensures WordBits(x) == x as bv32
  {
  }

  lemma CastKeysEqualIff(x: u32, f: bv32, b: bv32, y: u32, f': bv32, b': bv32)
    ensures Key(x as bv32, f, b) == Key(y as bv32, f', b') <==>
            (x as bv32) ^ (y as bv32) ^ ((f ^ f') << 8) ^ ((b ^ b') << 16) == 0
  {
    hide Key;
    KeysEqualIff(x as bv32, f, b, y as bv32, f', b');
  }

  /** The same for words taken as bits. */
  lemma WordKeysEqualIff(x: u32, f: bv32, b: bv32, y: u32, f': bv32, b': bv32)
    ensures Key(WordBits(x), f, b) == Key(WordBits(y), f', b') <==>
            (x as bv32) ^ (y as bv32) ^ ((f ^ f') << 8) ^ ((b ^ b') << 16) == 0
  {
    hide Key, WordBits;
    WordBitsAre(x);
    WordBitsAre(y);
    CastKeysEqualIff(x, f, b, y, f', b');
  }
}
