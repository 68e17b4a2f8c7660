/** The fastboot daemon: replies and the download loop. */
module Fastboot {
  import opened CTypes
  import opened Arithmetic
  import opened Framing
  import opened Sockets

  // --------------------------------------------------------------- replies

  /** The buffers of a reply; the text buffer is there iff the format string is not empty. */
  function ReplyBuffers(id: Bytes, text: Bytes, hasFormat: bool): Buffers
    requires |id| == 4 && |text| <= REPLY_BUFFER
  {
    var length := if hasFormat then |text| else 0;
    var head := EncodeBE(length + 4, HEADER);
    if hasFormat then [head, id, ReplyText(text)] else [head, id]
  }

  /** A reply can be sent at all iff a nonempty format does not expand to nothing. */
  lemma ReplyCanFinish(id: Bytes, text: Bytes, hasFormat: bool)
    requires |id| == 4 && |text| <= REPLY_BUFFER
    ensures CanFinish(ReplyBuffers(id, text, hasFormat)) <==> (hasFormat ==> text != [])
  {
    SendCanFinish(ReplyBuffers(id, text, hasFormat));
  }

  /**
   `send_reply`; `text` is what the format expands to and `hasFormat` says that the format string
   is not empty. An empty expansion of a nonempty format would leave a trailing empty buffer.
   */
  method SendReply(client: TcpSocket, id: Bytes, text: Bytes, hasFormat: bool) returns (ok: bool)
    requires |id| == 4 && |text| <= REPLY_BUFFER
    requires hasFormat <==> text != []
    modifies client`wire
    ensures ok ==> client.wire == old(client.wire) + Frame(ReplyPayload(Reply(id, text)))
    ensures !ok ==> !client.link.reliable
  {
    var length := if hasFormat then |text| else 0;
    var header := new u8[HEADER];
    EncodeMessageLength(length + 4, header);
    var head := header[..HEADER];
    if hasFormat {
      var bufs := [head, id, ReplyText(text)];
      assert bufs == ReplyBuffers(id, text, hasFormat);
      assert bufs[1..] == [id, ReplyText(text)] && bufs[1..][1..] == [ReplyText(text)];
      assert Concat(bufs[1..][1..]) == ReplyText(text);
      assert Concat(bufs) == head + (id + ReplyText(text));
      ok := client.Send(bufs);
      return;
    }
    var bufs := [head, id];
    assert bufs == ReplyBuffers(id, text, hasFormat);
    assert bufs[1..] == [id] && Concat(bufs[1..]) == id;
    assert Concat(bufs) == head + id;
    assert ReplyPayload(Reply(id, text)) == id;
    ok := client.Send(bufs);
  }

  // -------------------------------------------------------------- download

  const CHUNK := 4096

  /** The message length as a `size_t`. */
  function MessageLength(stream: Bytes, sizeMax: nat): nat
    requires |stream| >= HEADER
  {
    DecodeBE(stream[..HEADER]) % (sizeMax + 1)
  }

  /** How a transfer comes to its end, once everything the peer sends has arrived. */
  datatype Outcome = Done | NoHeader | NoPayload

  /** The bytes written, and for a transfer that is done the bytes that were not touched. */
  datatype Transfer = Transfer(file: Bytes, left: Bytes, outcome: Outcome)

  /** What the loop makes of a stream when `size` bytes are due; `size` wraps like a `uint32_t`. */
  function Transferred(stream: Bytes, size: u32, sizeMax: nat): Transfer
    decreases |stream|
  {
    if size == 0 then Transfer([], stream, Done)
    else if |stream| < HEADER then Transfer([], [], NoHeader)
    else
      var n := MessageLength(stream, sizeMax);
      if |stream| < HEADER + n then Transfer(stream[HEADER..], [], NoPayload)
      else
        Prepend(stream[HEADER..HEADER + n], Transferred(stream[HEADER + n..], (size - n) % U32_LIMIT, sizeMax))
  }

  function Prepend(file: Bytes, t: Transfer): Transfer {
    t.(file := file + t.file)
  }

  lemma PrependTwice(file: Bytes, more: Bytes, t: Transfer)
    ensures Prepend(file, Prepend(more, t)) == Prepend(file + more, t)
  {
  }

  lemma SubtractOn(size: u32, got: nat, read: u32)
    ensures Sub32((size - got) % U32_LIMIT, read) == (size - (got + read)) % U32_LIMIT
  {
  }

  /**
   The inner loop of `download`, where it ends: whatever the chunking, exactly the next `length` bytes
   are written, or a prefix of them before a failed receive.
   */
  method ReceivePayload(client: TcpSocket, buffer: array<u8>, length: nat, size: u32, file: Bytes)
    returns (ok: bool, newSize: u32, newFile: Bytes, ghost got: nat)
    requires buffer.Length == CHUNK
    requires client.link.resets || length <= |client.inbound|
    modifies client`inbound, buffer
    ensures got <= length && got <= |old(client.inbound)| && (ok ==> got == length)
    ensures newFile == file + old(client.inbound)[..got]
    ensures client.inbound == old(client.inbound)[got..]
    ensures newSize == (size - got) % U32_LIMIT
    ensures client.link.reliable ==> (ok <==> length <= |old(client.inbound)|)
    ensures client.link.reliable && !ok ==> got == |old(client.inbound)|
  {
    hide Sub32;
    var left := length;
    got := 0;
    newSize, newFile := size, file;
    assert newFile == file + old(client.inbound)[..0];
    var again := true;
    while again
      invariant got + left == length && 0 <= left && got <= |old(client.inbound)|
      invariant newFile == file + old(client.inbound)[..got]
      invariant client.inbound == old(client.inbound)[got..]
      invariant newSize == (size - got) % U32_LIMIT
      invariant !again ==> left == 0
      decreases again, left
    {
      var read := client.Receive(buffer, 0, if left < CHUNK then left else CHUNK);
      if read < 0 {
        return false, newSize, newFile, got;
      }
      newFile := newFile + buffer[..read];
      assert buffer[..read] == buffer[0..0 + read];
      SentMore(file, old(client.inbound), got, read);
      left := left - read;
      SubtractOn(size, got, read);
      newSize := Sub32(newSize, read);
      got := got + read;
      again := left > 0;
    }
    ok := true;
  }

  /** One message: its header must arrive in one piece. */
  method ReceiveMessage(client: TcpSocket, buffer: array<u8>, size: u32, file: Bytes, sizeMax: nat)
    returns (ok: bool, newSize: u32, newFile: Bytes, ghost got: nat)
    requires buffer.Length == CHUNK
    requires client.link.resets || |client.inbound| < HEADER ||
             HEADER + MessageLength(client.inbound, sizeMax) <= |client.inbound|
    modifies client`inbound, buffer
    ensures ok ==> |old(client.inbound)| >= HEADER
    ensures ok ==> var n := MessageLength(old(client.inbound), sizeMax);
              && got == n && HEADER + n <= |old(client.inbound)|
              && client.inbound == old(client.inbound)[HEADER + n..]
              && newSize == (size - n) % U32_LIMIT
    ensures if |old(client.inbound)| < HEADER then newFile == file
            else Took(old(client.inbound), sizeMax, file, newFile, got)
    ensures client.link.reliable && client.link.wholeHeaders ==>
              (ok <==> |old(client.inbound)| >= HEADER &&
                       HEADER + MessageLength(old(client.inbound), sizeMax) <= |old(client.inbound)|)
    ensures client.link.reliable && client.link.wholeHeaders && !ok && |old(client.inbound)| >= HEADER ==>
              newFile == file + old(client.inbound)[HEADER..]
  {
    hide DecodeBE;
    ghost var stream := client.inbound;
    var read := client.Receive(buffer, 0, HEADER);
    if read != HEADER {
      assert |stream| >= HEADER ==> stream[HEADER..HEADER + 0] == [];
      return false, size, file, 0;
    }
    assert buffer[..HEADER] == buffer[0..HEADER] == stream[..HEADER];
    var field := ExtractMessageLength(buffer);
    var length := field % (sizeMax + 1);
    ghost var body := client.inbound;
    ok, newSize, newFile, got := ReceivePayload(client, buffer, length, size, file);
    assert body[..got] == stream[HEADER..HEADER + got];
    assert body[got..] == stream[HEADER + got..];
  }

  /** `file` was extended by the first `j` bytes of the message at the head of `stream`. */
  ghost predicate Took(stream: Bytes, sizeMax: nat, file: Bytes, newFile: Bytes, j: nat)
    requires |stream| >= HEADER
  {
    HEADER + j <= |stream| && j <= MessageLength(stream, sizeMax) && newFile == file + stream[HEADER..HEADER + j]
  }

  /** What was written of a message is a prefix of what the transfer writes. */
  lemma TookPrefix(stream: Bytes, size: u32, sizeMax: nat, file: Bytes, newFile: Bytes, j: nat)
    requires size > 0 && |stream| >= HEADER && Took(stream, sizeMax, file, newFile, j)
    ensures newFile <= Prepend(file, Transferred(stream, size, sizeMax)).file
  {
    hide MessageLength;
    var n := MessageLength(stream, sizeMax);
    assert stream[HEADER..HEADER + j] <= stream[HEADER..];
    if HEADER + n <= |stream| {
      assert stream[HEADER..HEADER + j] <= stream[HEADER..HEADER + n];
    }
  }

  /** The outcome for one message more. */
  lemma TransferStep(stream: Bytes, size: u32, sizeMax: nat, file: Bytes, newFile: Bytes)
    requires size > 0 && |stream| >= HEADER && HEADER + MessageLength(stream, sizeMax) <= |stream|
    requires Took(stream, sizeMax, file, newFile, MessageLength(stream, sizeMax))
    ensures var n := MessageLength(stream, sizeMax);
            Prepend(file, Transferred(stream, size, sizeMax)) ==
            Prepend(newFile, Transferred(stream[HEADER + n..], (size - n) % U32_LIMIT, sizeMax))
  {
    hide MessageLength;
    var n := MessageLength(stream, sizeMax);
    PrependTwice(file, stream[HEADER..HEADER + n],
                 Transferred(stream[HEADER + n..], (size - n) % U32_LIMIT, sizeMax));
  }

  // ----------------------------------------------------- what was announced

  /** The stream starts with these messages, which together are as long as announced. */
  ghost predicate Announced(stream: Bytes, size: u32, payloads: seq<Bytes>, rest: Bytes) {
    stream == Frames(payloads) + rest && Total(payloads) == size
  }

  lemma {:induction false} PayloadsFit(payloads: seq<Bytes>)
    requires Total(payloads) < U32_LIMIT
    ensures forall p :: p in payloads ==> |p| < U32_LIMIT
  {
    if payloads != [] {
      PayloadsFit(payloads[1..]);
    }
  }

  lemma NextMessage(stream: Bytes, payloads: seq<Bytes>, rest: Bytes)
    requires payloads != [] && |payloads[0]| < U32_LIMIT && stream == Frames(payloads) + rest
    ensures |stream| >= HEADER + |payloads[0]|
    ensures DecodeBE(stream[..HEADER]) == |payloads[0]|
    ensures stream[HEADER..][..|payloads[0]|] == payloads[0]
    ensures stream[HEADER..][|payloads[0]|..] == Frames(payloads[1..]) + rest
  {
    FrameHead(payloads[0], Frames(payloads[1..]) + rest);
    assert stream == Frame(payloads[0]) + (Frames(payloads[1..]) + rest);
  }

  lemma {:induction false} NothingLeft(payloads: seq<Bytes>)
    requires Total(payloads) == 0
    ensures Concat(payloads) == []
    ensures [] !in payloads ==> payloads == []
  {
    if payloads != [] {
      NothingLeft(payloads[1..]);
    }
  }

  /** A client that keeps to what it announced has all its payloads written, in order. */
  lemma {:induction false} AnnouncedArrives(stream: Bytes, size: u32, payloads: seq<Bytes>, rest: Bytes, sizeMax: nat)
    requires Announced(stream, size, payloads, rest) && sizeMax >= U32_LIMIT - 1
    ensures Transferred(stream, size, sizeMax).outcome == Done
    ensures Transferred(stream, size, sizeMax).file == Concat(payloads)
    ensures [] !in payloads ==> Transferred(stream, size, sizeMax).left == rest
    decreases |payloads|
  {
    hide DecodeBE, EncodeBE;
    if size == 0 {
      NothingLeft(payloads);
    } else {
      var n := |payloads[0]|;
      PayloadsFit(payloads);
      NextMessage(stream, payloads, rest);
      SmallRemainder(n, sizeMax + 1);
      SmallRemainder(size - n, U32_LIMIT);
      assert stream[HEADER..][..n] == stream[HEADER..HEADER + n];
      assert stream[HEADER..][n..] == stream[HEADER + n..];
      AnnouncedArrives(stream[HEADER + n..], size - n, payloads[1..], rest, sizeMax);
    }
  }

  /**
   The receiving loop of `download`, where it ends; `announced` is the size in the command, `sizeMax`
   the largest `size_t`. A success wrote exactly what the stream holds and a failure a prefix of it;
   on a connection that neither fails nor splits headers it succeeds whenever the stream allows. If
   the client keeps to what it announced, that is the concatenation of the message payloads.
   */
  method Download(client: TcpSocket, announced: u32, sizeMax: nat, ghost payloads: seq<Bytes>, ghost rest: Bytes)
    returns (ok: bool, file: Bytes)
    requires sizeMax >= U32_LIMIT - 1
    requires client.link.resets || Transferred(client.inbound, announced, sizeMax).outcome != NoPayload
    modifies client`inbound
    ensures file <= Transferred(old(client.inbound), announced, sizeMax).file
    ensures ok ==> Transferred(old(client.inbound), announced, sizeMax) == Transfer(file, client.inbound, Done)
    ensures client.link.reliable && client.link.wholeHeaders ==>
              && (ok <==> Transferred(old(client.inbound), announced, sizeMax).outcome == Done)
              && file == Transferred(old(client.inbound), announced, sizeMax).file
    ensures Announced(old(client.inbound), announced, payloads, rest) ==>
              && file <= Concat(payloads)
              && (ok ==> file == Concat(payloads))
              && (client.link.reliable && client.link.wholeHeaders ==> ok)
              && (ok && [] !in payloads ==> client.inbound == rest)
  {
    hide Concat, Announced, Transferred, MessageLength;
    var buffer := new u8[CHUNK];
    var size := announced;
    file := [];
    ghost var whole := Transferred(client.inbound, announced, sizeMax);
    if Announced(client.inbound, announced, payloads, rest) {
      AnnouncedArrives(client.inbound, announced, payloads, rest, sizeMax);
    }
    assert whole == Prepend(file, whole);
    while size > 0
      invariant whole == Prepend(file, Transferred(client.inbound, size, sizeMax))
      decreases |client.inbound|
    {
      ghost var stream, before, due := client.inbound, file, size;
      MessageCases(stream, due, sizeMax);
      ghost var got: nat;
      ok, size, file, got := ReceiveMessage(client, buffer, size, file, sizeMax);
      if !ok {
        if |stream| >= HEADER {
          TookPrefix(stream, due, sizeMax, before, file, got);
        }
        return;
      }
      TransferStep(stream, due, sizeMax, before, file);
    }
    NothingDue(client.inbound, sizeMax);
    ok := true;
  }

  lemma NothingDue(stream: Bytes, sizeMax: nat)
    ensures Transferred(stream, 0, sizeMax) == Transfer([], stream, Done)
  {
  }

  /** What the transfer comes to at the next message. */
  lemma MessageCases(stream: Bytes, size: u32, sizeMax: nat)
    requires size > 0
    ensures var t := Transferred(stream, size, sizeMax);
            if |stream| < HEADER then t == Transfer([], [], NoHeader)
            else HEADER + MessageLength(stream, sizeMax) > |stream| ==> t == Transfer(stream[HEADER..], [], NoPayload)
  {
    hide MessageLength;
  }

  // ------------------------------------------------------- when the loop ends

  /** Where the loop stands: about to read a header, or with bytes of a payload still due. */
  datatype Standing = Standing(stream: Bytes, size: u32, due: Option<nat>)

  ghost predicate Over(st: Standing) {
    st.due == None && st.size == 0
  }

  /** How many bytes the next receive asks for. */
  function Wanted(st: Standing): nat {
    match st.due
    case None => HEADER
    case Some(left) => if left < CHUNK then left else CHUNK
  }

  /** The loop does not give up on this result: a whole header, or a payload receive that did not fail. */
  ghost predicate GoesOn(st: Standing, read: int) {
    0 <= read <= Wanted(st) && read <= |st.stream| && (st.due == None ==> read == HEADER)
  }

  function NextStanding(st: Standing, read: nat, sizeMax: nat): Standing
    requires GoesOn(st, read)
  {
    match st.due
    case None => Standing(st.stream[HEADER..], st.size, Some(MessageLength(st.stream, sizeMax)))
    case Some(left) =>
      Standing(st.stream[read..], (st.size - read) % U32_LIMIT, if left == read then None else Some(left - read))
  }

  /** The loop is still running after these receives. */
  ghost predicate StillRunning(link: Link, st: Standing, sizeMax: nat, results: seq<int>)
    decreases |results|
  {
    && !Over(st)
    && (results == [] ||
        var r := results[0];
        && Receives(link, |st.stream|, Wanted(st), r) && GoesOn(st, r)
        && StillRunning(link, NextStanding(st, r, sizeMax), sizeMax, results[1..]))
  }

  ghost predicate RunsFor(link: Link, st: Standing, sizeMax: nat, n: nat) {
    exists results :: |results| == n && StillRunning(link, st, sizeMax, results)
  }

  /** Some payload is cut off by the end of the stream. */
  ghost predicate Starved(st: Standing, sizeMax: nat) {
    match st.due
    case None => Transferred(st.stream, st.size, sizeMax).outcome == NoPayload
    case Some(left) =>
      |st.stream| < left ||
      Transferred(st.stream[left..], (st.size - left) % U32_LIMIT, sizeMax).outcome == NoPayload
  }

  lemma RemainderTwice(size: int, a: int, b: int)
    ensures ((size - a) % U32_LIMIT - b) % U32_LIMIT == (size - (a + b)) % U32_LIMIT
  {
  }

  lemma StarvedAtHeader(st: Standing, sizeMax: nat)
    requires !Over(st) && st.due == None && GoesOn(st, HEADER)
    ensures Starved(NextStanding(st, HEADER, sizeMax), sizeMax) <==> Starved(st, sizeMax)
  {
    hide MessageLength;
    var n := MessageLength(st.stream, sizeMax);
    assert HEADER + n <= |st.stream| ==> st.stream[HEADER..][n..] == st.stream[HEADER + n..];
  }

  lemma StarvedInPayload(st: Standing, read: nat, left: nat, sizeMax: nat)
    requires st.due == Some(left) && GoesOn(st, read)
    ensures Starved(NextStanding(st, read, sizeMax), sizeMax) <==> Starved(st, sizeMax)
  {
    hide Transferred;
    RemainderTwice(st.size, read, left - read);
    if left <= |st.stream| {
      assert st.stream[read..][left - read..] == st.stream[left..];
    }
  }

  /** A receive the loop goes on after does not change whether a payload is cut off. */
  lemma StarvedKept(st: Standing, read: nat, sizeMax: nat)
    requires !Over(st) && GoesOn(st, read)
    ensures Starved(NextStanding(st, read, sizeMax), sizeMax) <==> Starved(st, sizeMax)
  {
    hide Starved, NextStanding;
    match st.due
    case None => StarvedAtHeader(st, sizeMax);
    case Some(left) => StarvedInPayload(st, read, left, sizeMax);
  }

  /** An upper bound for the receives that can still follow. */
  function Bound(st: Standing): nat {
    2 * |st.stream| + if st.due.Some? then 1 else 0
  }

  lemma {:induction false} RunningIsBounded(link: Link, st: Standing, sizeMax: nat, results: seq<int>)
    requires link.resets || !Starved(st, sizeMax)
    requires StillRunning(link, st, sizeMax, results)
    ensures |results| <= Bound(st)
    decreases |results|
  {
    hide MessageLength;
    if results != [] {
      StarvedKept(st, results[0], sizeMax);
      RunningIsBounded(link, NextStanding(st, results[0], sizeMax), sizeMax, results[1..]);
    }
  }

  /** As long as a payload is cut off there is a receive to go on with. */
  lemma StarvedGoesOn(link: Link, st: Standing, sizeMax: nat) returns (read: nat)
    requires !link.resets && Starved(st, sizeMax)
    ensures !Over(st) && Receives(link, |st.stream|, Wanted(st), read) && GoesOn(st, read)
  {
    hide MessageLength;
    read := if Wanted(st) < |st.stream| then Wanted(st) else |st.stream|;
  }

  lemma {:induction false} StarvedRuns(link: Link, st: Standing, sizeMax: nat, n: nat) returns (results: seq<int>)
    requires !link.resets && Starved(st, sizeMax)
    ensures |results| == n && StillRunning(link, st, sizeMax, results)
    decreases n
  {
    hide Starved, MessageLength, Receives;
    var read := StarvedGoesOn(link, st, sizeMax);
    if n == 0 {
      results := [];
    } else {
      StarvedKept(st, read, sizeMax);
      var rest := StarvedRuns(link, NextStanding(st, read, sizeMax), sizeMax, n - 1);
      results := [read] + rest;
      assert results[1..] == rest;
    }
  }

  /**
   The download loop can be kept going for any number of receives exactly when the peer closes the
   connection in order within a payload: receives then return 0, which the loop does not count as a
   failure. A connection closed within or before a header ends it.
   */
  lemma DownloadSpinsIff(link: Link, stream: Bytes, size: u32, sizeMax: nat)
    ensures (forall n: nat :: RunsFor(link, Standing(stream, size, None), sizeMax, n)) <==>
            !link.resets && Transferred(stream, size, sizeMax).outcome == NoPayload
  {
    hide Transferred, Receives, StillRunning;
    var st := Standing(stream, size, None);
    if !link.resets && Starved(st, sizeMax) {
      forall n: nat ensures RunsFor(link, st, sizeMax, n) {
        var results := StarvedRuns(link, st, sizeMax, n);
      }
    } else {
      forall results | StillRunning(link, st, sizeMax, results) ensures |results| <= Bound(st) {
        RunningIsBounded(link, st, sizeMax, results);
      }
      assert !RunsFor(link, st, sizeMax, Bound(st) + 1);
    }
  }
}
