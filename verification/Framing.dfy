/** The 8-byte length prefix of the fastboot TCP protocol and the frames built with it. */
module Framing {
  import opened CTypes
  import opened Arithmetic

  type Bytes = seq<u8>

  const HEADER := 8

  // ----------------------------------------------------------------- codec

  function Pow256(k: nat): (p: nat)
    ensures p > 0
  {
    if k == 0 then 1 else 0x100 * Pow256(k - 1)
  }

  /** The low `k` bytes of `x`, most significant first. */
  function EncodeBE(x: nat, k: nat): (b: Bytes)
    ensures |b| == k
  {
    if k == 0 then [] else EncodeBE(x / 0x100, k - 1) + [x % 0x100]
  }

  function DecodeBE(b: Bytes): nat {
    if b == [] then 0 else DecodeBE(b[..|b| - 1]) * 0x100 + b[|b| - 1]
  }

  lemma {:induction false} DecodeUndoesEncode(x: nat, k: nat)
    requires x < Pow256(k)
    ensures DecodeBE(EncodeBE(x, k)) == x
  {
    if k > 0 {
      DecodeUndoesEncode(x / 0x100, k - 1);
      var b := EncodeBE(x, k);
      assert b[..k - 1] == EncodeBE(x / 0x100, k - 1);
    }
  }

  lemma {:induction false} EncodeUndoesDecode(b: Bytes)
    ensures DecodeBE(b) < Pow256(|b|)
    ensures EncodeBE(DecodeBE(b), |b|) == b
  {
    if b != [] {
      var n := |b| - 1;
      EncodeUndoesDecode(b[..n]);
      assert DecodeBE(b) / 0x100 == DecodeBE(b[..n]) && DecodeBE(b) % 0x100 == b[n];
      assert b == b[..n] + [b[n]];
    }
  }

  lemma Pow256Of8()
    ensures Pow256(8) == U64_LIMIT
  {
    assert Pow256(2) == 0x1_0000;
    assert Pow256(4) == 0x1_0000_0000;
    assert Pow256(6) == 0x1_0000_0000_0000;
  }

  lemma DivTwice(x: nat, p: nat)
    requires p > 0
    ensures x / 0x100 / p == x / (0x100 * p)
  {
    var q, r := x / (0x100 * p), x % (0x100 * p);
    assert x == q * (0x100 * p) + r;
    var y := x / 0x100;
    assert q * (0x100 * p) == (q * p) * 0x100;
    assert y == q * p + r / 0x100;
    assert r / 0x100 < p;
    QuotientIs(y, q, r / 0x100, p);
  }

  /** Byte `i` is what shifting right by the remaining bytes and truncating leaves. */
  lemma {:induction false} EncodedByte(x: nat, k: nat, i: nat)
    requires i < k
    ensures EncodeBE(x, k)[i] == x / Pow256(k - 1 - i) % 0x100
  {
    if i < k - 1 {
      EncodedByte(x / 0x100, k - 1, i);
      DivTwice(x, Pow256(k - 2 - i));
    }
  }

  /** `EncodeMessageLength`: a right shift by `56 - 8i` bits is a division by 256 to the `7 - i`. */
  method EncodeMessageLength(length: u64, buffer: array<u8>)
    requires buffer.Length >= HEADER
    modifies buffer
    ensures buffer[..HEADER] == EncodeBE(length, HEADER)
    ensures buffer[HEADER..] == old(buffer[HEADER..])
  {
    for i := 0 to 8
      invariant forall j :: 0 <= j < i ==> buffer[j] == EncodeBE(length, HEADER)[j]
      invariant buffer[HEADER..] == old(buffer[HEADER..])
    {
      EncodedByte(length, HEADER, i);
      buffer[i] := length / Pow256(7 - i) % 0x100;
    }
  }

  lemma ShiftIn(high: nat, b: u8, i: nat)
    requires i < 8
    ensures high * Pow256(8 - i) + b * Pow256(7 - i) == (high * 0x100 + b) * Pow256(7 - i)
    ensures b * Pow256(7 - i) < Pow256(8 - i)
  {
    var p := Pow256(7 - i);
    Distribute(high, b, p);
    MultiplyUp(b, 0xFF, p);
  }

  lemma Distribute(high: nat, b: nat, p: nat)
    ensures high * (0x100 * p) + b * p == (high * 0x100 + b) * p
  {
    assert high * (0x100 * p) == (high * 0x100) * p;
  }

  lemma DecodeSnoc(b: Bytes, i: nat)
    requires i < |b|
    ensures DecodeBE(b[..i + 1]) == DecodeBE(b[..i]) * 0x100 + b[i]
  {
    assert b[..i + 1][..i] == b[..i];
  }

  lemma DecodeNone()
    ensures DecodeBE([]) == 0
  {
  }

  lemma PowNone()
    ensures Pow256(0) == 1
  {
  }

  /**
   `ExtractMessageLength`. Each byte is shifted into bits that are still zero, so the bitwise or
   of the source is an addition here.
   */
  method ExtractMessageLength(buffer: array<u8>) returns (ret: u64)
    requires buffer.Length >= HEADER
    ensures ret == DecodeBE(buffer[..HEADER])
  {
    hide DecodeBE, EncodeBE, Pow256;
    ghost var b := buffer[..HEADER];
    var sum: nat := 0;
    DecodeNone();
    for i := 0 to 8
      invariant sum == DecodeBE(b[..i]) * Pow256(8 - i)
    {
      ShiftIn(DecodeBE(b[..i]), b[i], i);
      DecodeSnoc(b, i);
      sum := sum + buffer[i] * Pow256(7 - i);
    }
    PowNone();
    assert b[..8] == b;
    EncodeUndoesDecode(b);
    Pow256Of8();
    ret := sum;
  }

  // ---------------------------------------------------------------- frames

  function Frame(payload: Bytes): (f: Bytes)
    ensures |f| == HEADER + |payload|
  {
    EncodeBE(|payload|, HEADER) + payload
  }

  function Frames(payloads: seq<Bytes>): Bytes {
    if payloads == [] then [] else Frame(payloads[0]) + Frames(payloads[1..])
  }

  function Concat(bs: seq<Bytes>): Bytes {
    if bs == [] then [] else bs[0] + Concat(bs[1..])
  }

  ghost predicate LengthsFit(payloads: seq<Bytes>) {
    forall p :: p in payloads ==> |p| < U64_LIMIT
  }

  /** Splitting a byte stream into frames; None if it does not end on a frame boundary. */
  function ParseFrames(stream: Bytes): Option<seq<Bytes>>
    decreases |stream|
  {
    if stream == [] then Some([])
    else if |stream| < HEADER then None
    else
      var n := DecodeBE(stream[..HEADER]);
      if |stream| < HEADER + n then None
      else
        match ParseFrames(stream[HEADER + n..])
        case None => None
        case Some(rest) => Some([stream[HEADER..HEADER + n]] + rest)
  }

  lemma FrameHead(payload: Bytes, rest: Bytes)
    requires |payload| < U64_LIMIT
    ensures var s := Frame(payload) + rest;
            && DecodeBE(s[..HEADER]) == |payload|
            && s[HEADER..HEADER + |payload|] == payload
            && s[HEADER + |payload|..] == rest
  {
    Pow256Of8();
    DecodeUndoesEncode(|payload|, HEADER);
    var s := Frame(payload) + rest;
    assert s[..HEADER] == EncodeBE(|payload|, HEADER);
  }

  /** A sequence of frames parses back to exactly its payloads, so frame streams are unambiguous. */
  lemma {:induction false} ParseUndoesFrames(payloads: seq<Bytes>)
    requires LengthsFit(payloads)
    ensures ParseFrames(Frames(payloads)) == Some(payloads)
  {
    if payloads != [] {
      FrameHead(payloads[0], Frames(payloads[1..]));
      ParseUndoesFrames(payloads[1..]);
      assert payloads == [payloads[0]] + payloads[1..];
    }
  }

  /** Only streams of frames parse, and they parse to what they were framed from. */
  lemma {:induction false} FramesUndoParse(stream: Bytes)
    requires ParseFrames(stream).Some?
    ensures Frames(ParseFrames(stream).value) == stream
    decreases |stream|
  {
    hide DecodeBE, EncodeBE;
    if stream != [] {
      var n := DecodeBE(stream[..HEADER]);
      var payload, tail := stream[HEADER..HEADER + n], stream[HEADER + n..];
      FramesUndoParse(tail);
      EncodeUndoesDecode(stream[..HEADER]);
      assert ParseFrames(stream).value[1..] == ParseFrames(tail).value;
      assert stream == stream[..HEADER] + payload + tail;
    }
  }

  // --------------------------------------------------------------- replies

  const REPLY_BUFFER := 60

  datatype Reply = Reply(id: Bytes, text: Bytes)

  /**
   What `send_reply` puts in the text part: `vsnprintf` keeps at most 59 bytes and a NUL, but the
   length it returns, which is sent, is that of the whole text.
   */
  function ReplyText(text: Bytes): Bytes
    requires |text| <= REPLY_BUFFER
  {
    if |text| < REPLY_BUFFER then text else text[..REPLY_BUFFER - 1] + [0]
  }

  /** The payload of a reply frame: the four bytes of the id, then the text buffer. */
  function ReplyPayload(r: Reply): Bytes
    requires |r.id| == 4 && |r.text| <= REPLY_BUFFER
  {
    r.id + ReplyText(r.text)
  }

  /** The first four bytes of a reply are its id, the rest is its text if that fits the buffer. */
  lemma ReplyPayloadMeaning(r: Reply)
    requires |r.id| == 4 && |r.text| <= REPLY_BUFFER
    ensures ReplyPayload(r)[..4] == r.id && |ReplyPayload(r)| == 4 + |r.text|
    ensures |r.text| < 60 ==> ReplyPayload(r)[4..] == r.text
    ensures |r.text| == 60 ==> ReplyPayload(r)[4..] == r.text[..59] + [0]
  {
  }

  ghost predicate Sendable(replies: seq<Reply>) {
    forall r :: r in replies ==> |r.id| == 4 && |r.text| < REPLY_BUFFER
  }

  function ReplyPayloads(replies: seq<Reply>): (ps: seq<Bytes>)
    requires Sendable(replies)
    ensures |ps| == |replies|
    ensures forall i :: 0 <= i < |ps| ==> ps[i] == ReplyPayload(replies[i])
  {
    seq(|replies|, i requires 0 <= i < |replies| => ReplyPayload(replies[i]))
  }

  function ReplyOf(payload: Bytes): Reply
    requires |payload| >= 4
  {
    Reply(payload[..4], payload[4..])
  }

  /** Distinct sequences of replies with untruncated texts are distinct on the wire. */
  lemma RepliesUnambiguous(a: seq<Reply>, b: seq<Reply>)
    requires Sendable(a) && Sendable(b)
    requires Frames(ReplyPayloads(a)) == Frames(ReplyPayloads(b))
    ensures a == b
  {
    hide ParseFrames, Frames;
    ParseUndoesFrames(ReplyPayloads(a));
    ParseUndoesFrames(ReplyPayloads(b));
    forall i | 0 <= i < |a| ensures a[i] == b[i] {
      assert ReplyOf(ReplyPayload(a[i])) == a[i];
      assert ReplyOf(ReplyPayload(b[i])) == b[i];
    }
  }

  /** A text without NUL bytes reaches the client unchanged exactly when it fits the buffer. */
  lemma ReplyTextIntact(text: Bytes)
    requires |text| <= REPLY_BUFFER && 0 !in text
    ensures ReplyText(text) == text <==> |text| < REPLY_BUFFER
  {
    if |text| == REPLY_BUFFER {
      assert ReplyText(text)[REPLY_BUFFER - 1] == 0 && text[REPLY_BUFFER - 1] != 0;
    }
  }
}
