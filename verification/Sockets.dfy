/**
 The TCP socket wrapper: scatter/gather sending under short writes and receiving under
 arbitrary chunking. The peer and the kernel are the fields `wire` and `inbound`.
 */
module Sockets {
  import opened CTypes
  import opened Framing

  type Buffers = seq<Bytes>

  function Total(bufs: Buffers): nat {
    if bufs == [] then 0 else |bufs[0]| + Total(bufs[1..])
  }

  lemma {:induction false} ConcatLength(bufs: Buffers)
    ensures |Concat(bufs)| == Total(bufs)
  {
    if bufs != [] { ConcatLength(bufs[1..]); }
  }

  /** The buffers left after the first `sent` bytes; a buffer that was only just finished is gone. */
  function Advance(bufs: Buffers, sent: nat): Buffers
    requires sent <= Total(bufs)
  {
    if sent == 0 then bufs
    else if |bufs[0]| > sent then [bufs[0][sent..]] + bufs[1..]
    else Advance(bufs[1..], sent - |bufs[0]|)
  }

  /** Nothing still to be sent is lost, repeated or reordered by a short write. */
  lemma {:induction false} AdvanceKeepsRest(bufs: Buffers, sent: nat)
    requires sent <= Total(bufs)
    ensures |Concat(bufs)| == Total(bufs)
    ensures Concat(Advance(bufs, sent)) == Concat(bufs)[sent..]
    ensures Total(Advance(bufs, sent)) == Total(bufs) - sent
  {
    ConcatLength(bufs);
    if sent > 0 {
      if |bufs[0]| > sent {
        var rest := [bufs[0][sent..]] + bufs[1..];
        assert rest[1..] == bufs[1..];
        assert Concat(bufs)[sent..] == bufs[0][sent..] + Concat(bufs[1..]);
      } else {
        AdvanceKeepsRest(bufs[1..], sent - |bufs[0]|);
        assert Concat(bufs)[sent..] == Concat(bufs[1..])[sent - |bufs[0]|..];
      }
    }
  }

  /** No buffers, or a last buffer that is not empty. */
  predicate EndsNonempty(bufs: Buffers) {
    bufs == [] || bufs[|bufs| - 1] != []
  }

  lemma {:induction false} AdvanceEnd(bufs: Buffers, sent: nat)
    requires sent <= Total(bufs)
    ensures EndsNonempty(bufs) ==> EndsNonempty(Advance(bufs, sent))
    ensures EndsNonempty(bufs) && sent == Total(bufs) ==> Advance(bufs, sent) == []
    ensures !EndsNonempty(bufs) ==> Advance(bufs, sent) != [] && !EndsNonempty(Advance(bufs, sent))
  {
    if sent > 0 && |bufs[0]| <= sent {
      AdvanceEnd(bufs[1..], sent - |bufs[0]|);
    } else if sent == 0 && bufs != [] {
      LastCounts(bufs);
    }
  }

  lemma {:induction false} LastCounts(bufs: Buffers)
    requires bufs != []
    ensures Total(bufs) >= |bufs[|bufs| - 1]|
  {
    if |bufs| > 1 { LastCounts(bufs[1..]); }
  }

  /** These write sizes, one after the other, use up all buffers. */
  ghost predicate Finishes(bufs: Buffers, sizes: seq<nat>)
    decreases |sizes|
  {
    if sizes == [] then bufs == []
    else sizes[0] <= Total(bufs) && Finishes(Advance(bufs, sizes[0]), sizes[1..])
  }

  ghost predicate CanFinish(bufs: Buffers) {
    exists sizes: seq<nat> :: Finishes(bufs, sizes)
  }

  /**
   The send loop can finish at all exactly when the last buffer is not empty: a trailing empty
   buffer survives every round.
   */
  lemma SendCanFinish(bufs: Buffers)
    ensures CanFinish(bufs) <==> EndsNonempty(bufs)
  {
    if EndsNonempty(bufs) {
      var sizes: seq<nat> := [Total(bufs)];
      AdvanceEnd(bufs, Total(bufs));
      assert sizes[1..] == [];
      assert Finishes(Advance(bufs, sizes[0]), sizes[1..]);
      assert Finishes(bufs, sizes);
      assert CanFinish(bufs);
    } else if CanFinish(bufs) {
      var sizes: seq<nat> :| Finishes(bufs, sizes);
      FinishedEnd(bufs, sizes);
    }
  }

  lemma {:induction false} FinishedEnd(bufs: Buffers, sizes: seq<nat>)
    requires Finishes(bufs, sizes)
    ensures EndsNonempty(bufs)
    decreases |sizes|
  {
    if sizes != [] {
      FinishedEnd(Advance(bufs, sizes[0]), sizes[1..]);
      AdvanceEnd(bufs, sizes[0]);
    }
  }

  /** `sent` more bytes of `stream` after `done` of them. */
  lemma SentMore(wire: Bytes, stream: Bytes, done: nat, sent: nat)
    requires done + sent <= |stream|
    ensures (wire + stream[..done]) + stream[done..][..sent] == wire + stream[..done + sent]
    ensures stream[done..][sent..] == stream[done + sent..]
  {
  }

  // ------------------------------------------------------------- receiving

  /**
   What is assumed of a connection. `reliable`: calls fail only when it was reset. `wholeHeaders`: a
   receive of at most a header's length delivers all of it if it is there. `resets`: once everything
   has been delivered, receives fail instead of reporting the end of the stream.
   */
  datatype Link = Link(reliable: bool, wholeHeaders: bool, resets: bool)

  /** What `recv` may return for `length` bytes when `available` more will be delivered. */
  ghost predicate Receives(link: Link, available: nat, length: nat, bytes: int) {
    || (bytes == -1 && !link.reliable)
    || if length == 0 then bytes == 0
       else if available == 0 then bytes == if link.resets then -1 else 0
       else
         && 1 <= bytes <= length && bytes <= available
         && (link.wholeHeaders && length <= HEADER && length <= available ==> bytes == length)
  }

  /** `ReceiveAll` is still asking for `length` more bytes after these receives. */
  ghost predicate StillReceiving(link: Link, available: nat, length: nat, results: seq<int>)
    decreases |results|
  {
    && length > 0
    && (results == [] ||
        var r := results[0];
        && Receives(link, available, length, r) && 0 <= r <= available && r <= length
        && StillReceiving(link, available - r, length - r, results[1..]))
  }

  lemma {:induction false} ReceivingIsBounded(link: Link, available: nat, length: nat, results: seq<int>)
    requires link.resets || length <= available
    requires StillReceiving(link, available, length, results)
    ensures |results| < length
    decreases |results|
  {
    if results != [] {
      ReceivingIsBounded(link, available - results[0], length - results[0], results[1..]);
    }
  }

  lemma {:induction false} StarvedReceiving(link: Link, available: nat, length: nat, n: nat) returns (results: seq<int>)
    requires !link.resets && available < length
    ensures |results| == n && StillReceiving(link, available, length, results)
  {
    if n == 0 {
      results := [];
    } else {
      var rest := StarvedReceiving(link, 0, length - available, n - 1);
      results := [available] + rest;
      assert results[1..] == rest;
    }
  }

  /** Some `n` receives leave `ReceiveAll` asking for more. */
  ghost predicate ReceivesFor(link: Link, available: nat, length: nat, n: nat) {
    exists results :: |results| == n && StillReceiving(link, available, length, results)
  }

  /**
   `ReceiveAll` can be kept going for any number of rounds exactly when the peer closes the connection
   in order after sending too little: the end of the stream, 0, is not taken for a failure.
   */
  lemma ReceiveAllSpinsIff(link: Link, available: nat, length: nat)
    ensures (forall n: nat :: ReceivesFor(link, available, length, n)) <==> !link.resets && available < length
  {
    if !link.resets && available < length {
      forall n: nat ensures ReceivesFor(link, available, length, n) {
        var results := StarvedReceiving(link, available, length, n);
      }
    } else {
      forall results | StillReceiving(link, available, length, results) ensures |results| != length {
        ReceivingIsBounded(link, available, length, results);
      }
      assert !ReceivesFor(link, available, length, length);
    }
  }

  class TcpSocket {
    /** Everything the kernel has accepted for sending. */
    var wire: Bytes
    /** Everything the peer will still deliver. */
    var inbound: Bytes
    const link: Link

    constructor (inbound: Bytes, link: Link)
      ensures wire == [] && this.inbound == inbound && this.link == link
    {
      wire, this.inbound, this.link := [], inbound, link;
    }

    /**
     `socket_send_buffers`: accepts any prefix, at least one byte if there is one, or fails with -1.
     A buffer list holding no byte sends nothing.
     */
    method SendBuffers(bufs: Buffers) returns (sent: int)
      modifies this`wire
      ensures sent == -1 || 0 <= sent <= Total(bufs)
      ensures sent == 0 ==> Total(bufs) == 0
      ensures sent == -1 ==> wire == old(wire) && !link.reliable
      ensures sent != -1 ==> |Concat(bufs)| == Total(bufs) && wire == old(wire) + Concat(bufs)[..sent]
    {
      ConcatLength(bufs);
      var fails: bool := *;
      if fails && !link.reliable {
        return -1;
      }
      sent := *;
      if sent < 1 || sent > Total(bufs) {
        sent := Total(bufs);
      }
      wire := wire + Concat(bufs)[..sent];
    }

    /** `recv` into `buffer[off..]`: the next bytes of the stream, as many as the link allows. */
    method Receive(buffer: array<u8>, off: nat, length: nat) returns (bytes: int)
      requires off + length <= buffer.Length
      modifies this`inbound, buffer
      ensures Receives(link, |old(inbound)|, length, bytes)
      ensures bytes == -1 ==> inbound == old(inbound) && buffer[..] == old(buffer[..])
      ensures bytes != -1 ==> 0 <= bytes <= length && bytes <= |old(inbound)| && inbound == old(inbound)[bytes..]
      ensures bytes != -1 ==> buffer[off..off + bytes] == old(inbound)[..bytes]
      ensures bytes != -1 ==> buffer[..off] == old(buffer[..off])
      ensures bytes != -1 ==> buffer[off + bytes..] == old(buffer[off + bytes..])
    {
      var fails: bool := *;
      if fails && !link.reliable {
        return -1;
      }
      if length == 0 {
        return 0;
      }
      if inbound == [] {
        return if link.resets then -1 else 0;
      }
      var most := if length <= |inbound| then length else |inbound|;
      bytes := *;
      if bytes < 1 || bytes > most || (link.wholeHeaders && length <= HEADER) {
        bytes := most;
      }
      ghost var before := buffer[..];
      forall i | 0 <= i < bytes {
        buffer[off + i] := inbound[i];
      }
      assert buffer[..off] == before[..off] && buffer[off + bytes..] == before[off + bytes..];
      assert buffer[off..off + bytes] == inbound[..bytes];
      inbound := inbound[bytes..];
    }

    /** The inner loop of the vector `Send`: skips what was sent without stepping past the list. */
    method SkipSent(buffers: Buffers, sentBytes: nat) returns (rest: Buffers)
      requires sentBytes <= Total(buffers)
      ensures rest == Advance(buffers, sentBytes)
    {
      var bufs := buffers;
      var iter := 0;
      var sent := sentBytes;
      while sent > 0
        invariant iter <= |bufs| && 0 <= sent <= Total(bufs[iter..])
        invariant Advance(bufs[iter..], sent) == Advance(buffers, sentBytes)
        decreases |bufs| - iter
      {
        assert bufs[iter..][0] == bufs[iter] && bufs[iter..][1..] == bufs[iter + 1..];
        if |bufs[iter]| > sent {
          ghost var left := bufs[iter..];
          bufs := bufs[iter := bufs[iter][sent..]];
          assert bufs[iter..] == [left[0][sent..]] + left[1..];
          return bufs[iter..];
        }
        sent := sent - |bufs[iter]|;
        iter := iter + 1;
      }
      rest := bufs[iter..];
    }

    /**
     `TcpSocket::Send(std::vector)`: on success exactly the concatenation of the buffers was
     transmitted, in order; on failure some prefix of it. Every round sends at least one byte.
     */
    method Send(buffers: Buffers) returns (ok: bool)
      requires EndsNonempty(buffers)
      modifies this`wire
      ensures ok ==> wire == old(wire) + Concat(buffers)
      ensures !ok ==> !link.reliable
      ensures !ok ==> exists k :: 0 <= k <= |Concat(buffers)| && wire == old(wire) + Concat(buffers)[..k]
    {
      hide Advance;
      var bufs := buffers;
      ghost var done: nat := 0;
      ConcatLength(buffers);
      while bufs != []
        invariant EndsNonempty(bufs)
        invariant done <= |Concat(buffers)| && Concat(bufs) == Concat(buffers)[done..]
        invariant wire == old(wire) + Concat(buffers)[..done]
        decreases Total(bufs)
      {
        LastCounts(bufs);
        var sent := SendBuffers(bufs);
        if sent == -1 {
          return false;
        }
        AdvanceKeepsRest(bufs, sent);
        AdvanceEnd(bufs, sent);
        SentMore(old(wire), Concat(buffers), done, sent);
        done := done + sent;
        bufs := SkipSent(bufs, sent);
      }
      assert Concat(buffers)[..done] == Concat(buffers);
      ok := true;
    }

    /**
     `Socket::ReceiveAll`, where it ends however the bytes are chunked: they arrive in order, and if
     receives fail only after a reset, as many as there are.
     */
    method ReceiveAll(buffer: array<u8>, length: nat) returns (total: int)
      requires length <= buffer.Length
      requires link.resets || length <= |inbound|
      modifies this`inbound, buffer
      ensures total == -1 || 0 <= total <= length
      ensures total == -1 ==> inbound == old(inbound) && length > 0
      ensures total >= 0 ==> total <= |old(inbound)| && inbound == old(inbound)[total..]
      ensures total >= 0 ==> buffer[..total] == old(inbound)[..total] && buffer[total..] == old(buffer[total..])
      ensures link.reliable ==>
                total == if |old(inbound)| >= length then length else if old(inbound) == [] then -1 else |old(inbound)|
    {
      total := 0;
      while total < length
        invariant 0 <= total <= length && total <= |old(inbound)|
        invariant inbound == old(inbound)[total..]
        invariant buffer[..total] == old(inbound)[..total] && buffer[total..] == old(buffer[total..])
      {
        ghost var head, tail := buffer[..total], buffer[total..];
        var bytes := Receive(buffer, total, length - total);
        if bytes == -1 {
          if total == 0 {
            return -1;
          }
          break;
        }
        assert buffer[..total + bytes] == head + buffer[total..total + bytes];
        assert buffer[total + bytes..] == tail[bytes..];
        assert old(inbound)[..total + bytes] == old(inbound)[..total] + old(inbound)[total..][..bytes];
        total := total + bytes;
      }
    }
  }
}
