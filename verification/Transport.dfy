/** Length-prefixed framing (node/p2pcd/src/transport.rs; `encode` and `decode` of cbor.rs). */
module Transport {
  import opened Prelude
  import opened BigEndian
  import opened Messages
  import opened Wire

  const U32_RANGE := 0x1_0000_0000

  /** The cap of `ProtocolMessage::decode`. */
  const MAX_DECODE := 64 * 1024 * 1024

  /** The cap of the transport. */
  const MAX_FRAME := 1024 * 1024

  /** `encode`: the length cast to 32 bits, big-endian, then the payload. */
  function Encode(m: Message): Octets {
    var payload := ToPayload(m);
    ToBe(|payload| % U32_RANGE, 4) + payload
  }

  datatype Read =
    | Incomplete
    | Bad
    | Got(message: Message, rest: Octets)

  /** `ProtocolMessage::decode` on a byte source. */
  function Decode(b: Octets): Read {
    if |b| < 4 then Incomplete
    else
      var len := FromBe(b[..4]);
      if len > MAX_DECODE then Bad
      else if |b| < 4 + len then Incomplete
      else
        match FromPayload(b[4..4 + len])
        case Ok(m) => Got(m, b[4 + len..])
        case Err => Bad
  }

  /** Decoding waits for more bytes exactly while the header or an allowed payload is not all there. */
  lemma DecodeWaits(b: Octets)
    ensures Decode(b) == Incomplete
            <==> |b| < 4 || (FromBe(b[..4]) <= 64 * 1024 * 1024 && |b| < 4 + FromBe(b[..4]))
  {
    hide FromPayload;
  }

  /** `recv`: read one frame off the stream and decode the bytes read. */
  function Receive(stream: Octets): (r: Read)
    ensures r.Got? ==> |r.rest| < |stream|
  {
    if |stream| < 4 then Incomplete
    else
      var len := FromBe(stream[..4]);
      if len > MAX_FRAME then Bad
      else if |stream| < 4 + len then Incomplete
      else
        match Decode(stream[..4] + stream[4..4 + len])
        case Got(m, _) => Got(m, stream[4 + len..])
        case _ => Bad
  }

  /**
   * What a failed receive leaves of the bytes that still arrive: an oversized frame loses
   * its header, a bad one itself, and an incomplete one is read to the end.
   */
  function AfterFailure(stream: Octets): Octets {
    if |stream| < 4 then []
    else
      var len := FromBe(stream[..4]);
      if len > MAX_FRAME then stream[4..] else if |stream| < 4 + len then [] else stream[4 + len..]
  }

  /** So does receiving, up to its own cap. */
  lemma ReceiveWaits(stream: Octets)
    ensures Receive(stream) == Incomplete
            <==> |stream| < 4 || (FromBe(stream[..4]) <= 1024 * 1024 && |stream| < 4 + FromBe(stream[..4]))
  {
    hide Decode;
  }

  /** What a failed receive leaves, by what was on the stream. */
  lemma FailureLeaves(n: nat, payload: Octets, tail: Octets)
    requires n < U32_RANGE
    ensures n > 1024 * 1024 ==> AfterFailure(ToBe(n, 4) + payload + tail) == payload + tail
    ensures n <= 1024 * 1024 && n == |payload| ==> AfterFailure(ToBe(n, 4) + payload + tail) == tail
    ensures n <= 1024 * 1024 && n > |payload| && tail == [] ==> AfterFailure(ToBe(n, 4) + payload + tail) == []
  {
    hide ToBe, FromBe;
    HeaderParts(n, payload, tail);
    assert (payload + tail)[|payload|..] == tail;
    assert (ToBe(n, 4) + payload + tail)[4 + |payload|..] == tail;
  }

  /** All messages delivered off a stream, and what is left where reading stops. */
  function Drain(stream: Octets): (seq<Message>, Octets)
    decreases |stream|
  {
    match Receive(stream)
    case Got(m, rest) => ([m] + Drain(rest).0, Drain(rest).1)
    case _ => ([], stream)
  }

  /** The reader task of `into_channels`. */
  method ReaderTask(stream: Octets) returns (delivered: seq<Message>, rest: Octets)
    ensures (delivered, rest) == Drain(stream)
  {
    hide Receive;
    delivered, rest := [], stream;
    var frame := Receive(rest);
    while frame.Got?
      invariant frame == Receive(rest)
      invariant delivered + Drain(rest).0 == Drain(stream).0
      invariant Drain(rest).1 == Drain(stream).1
      decreases |rest|
    {
      DrainGot(rest);
      assert delivered + ([frame.message] + Drain(frame.rest).0) == (delivered + [frame.message]) + Drain(frame.rest).0;
      delivered, rest := delivered + [frame.message], frame.rest;
      frame := Receive(rest);
    }
    assert Drain(rest) == ([], rest);
    assert delivered + [] == delivered;
  }

  lemma DrainGot(stream: Octets)
    requires Receive(stream).Got?
    ensures Drain(stream).0 == [Receive(stream).message] + Drain(Receive(stream).rest).0
    ensures Drain(stream).1 == Drain(Receive(stream).rest).1
  {
  }

  // ── Round trip ────────────────────────────────────────────────────────────

  lemma HeaderParts(n: nat, payload: Octets, tail: Octets)
    requires n < U32_RANGE
    ensures FromBe((ToBe(n, 4) + payload + tail)[..4]) == n
    ensures (ToBe(n, 4) + payload + tail)[4..] == payload + tail
  {
    Ranges();
    FromBeToBe(n, 4);
    assert (ToBe(n, 4) + payload + tail)[..4] == ToBe(n, 4);
  }

  /** The decoder's view of a complete frame within the transport's cap. */
  lemma ReceiveComplete(stream: Octets)
    requires |stream| >= 4 && FromBe(stream[..4]) <= MAX_FRAME && |stream| >= 4 + FromBe(stream[..4])
    ensures var len := FromBe(stream[..4]);
            Receive(stream)
                == match FromPayload(stream[4..4 + len]) case Ok(m) => Got(m, stream[4 + len..]) case Err => Bad
  {
    var len := FromBe(stream[..4]);
    var frame := stream[..4] + stream[4..4 + len];
    assert frame[..4] == stream[..4];
    assert frame[4..4 + len] == stream[4..4 + len];
  }

  /** What a receiver gets from a sent message: the message, or an error if it is over the cap. */
  lemma ReceiveEncoded(m: Message, tail: Octets)
    requires Routable(m) && Allocatable(m)
    ensures Receive(Encode(m) + tail)
            == if |ToPayload(m)| <= 1024 * 1024 then Got(ReceivedMessage(m), tail) else Bad
  {
    hide ToPayload, FromPayload, Decode, Routable, Allocatable, ReceivedMessage;
    var payload := ToPayload(m);
    var len := |payload| % U32_RANGE;
    var stream := Encode(m) + tail;
    HeaderParts(len, payload, tail);
    if len <= MAX_FRAME {
      ReceiveComplete(stream);
      assert stream[4..4 + len] == payload[..len];
      if |payload| <= MAX_FRAME {
        assert payload[..len] == payload;
        assert stream[4 + len..] == tail;
        PayloadDecodes(m);
      } else {
        PayloadPrefixFails(m, len);
      }
    }
  }

  function EncodeAll(ms: seq<Message>): Octets {
    if ms == [] then [] else Encode(ms[0]) + EncodeAll(ms[1..])
  }

  function ReceivedAll(ms: seq<Message>): seq<Message> {
    if ms == [] then [] else [ReceivedMessage(ms[0])] + ReceivedAll(ms[1..])
  }

  /** `decode` on its own reads frames of up to 64 MiB. */
  lemma DecodeEncoded(m: Message, tail: Octets)
    requires Routable(m) && Allocatable(m)
    ensures Decode(Encode(m) + tail)
            == if |ToPayload(m)| <= 64 * 1024 * 1024 then Got(ReceivedMessage(m), tail) else Bad
  {
    hide ToPayload, FromPayload, Routable, Allocatable, ReceivedMessage, ToBe, FromBe;
    var payload := ToPayload(m);
    var len := |payload| % U32_RANGE;
    var stream := Encode(m) + tail;
    HeaderParts(len, payload, tail);
    if len <= MAX_DECODE {
      assert stream[4..4 + len] == payload[..len];
      if |payload| <= MAX_DECODE {
        assert payload[..len] == payload;
        assert stream[4 + len..] == tail;
        PayloadDecodes(m);
      } else {
        PayloadPrefixFails(m, len);
      }
    }
  }

  predicate Framed(m: Message) {
    Routable(m) && Allocatable(m) && |ToPayload(m)| <= MAX_FRAME
  }

  lemma ReceiveNothing()
    ensures Receive([]) == Incomplete
  {
  }

  lemma ReceiveSent(m: Message, tail: Octets)
    requires Routable(m) && Allocatable(m)
    ensures Receive(Encode(m) + tail) == if Framed(m) then Got(ReceivedMessage(m), tail) else Bad
  {
    hide Encode, Receive, Routable, Allocatable, ToPayload, ReceivedMessage;
    ReceiveEncoded(m, tail);
  }

  lemma DrainEncoded(m: Message, rest: Octets)
    requires Framed(m)
    ensures Drain(Encode(m) + rest).0 == [ReceivedMessage(m)] + Drain(rest).0
    ensures Drain(Encode(m) + rest).1 == Drain(rest).1
  {
    ReceiveEncoded(m, rest);
    DrainGot(Encode(m) + rest);
  }

  /** Concatenated frames come apart into exactly the messages sent, leaving what follows untouched. */
  lemma {:induction false} StreamRoundTrip(ms: seq<Message>, tail: Octets)
    requires forall m :: m in ms ==> Framed(m)
    ensures Drain(EncodeAll(ms) + tail).0 == ReceivedAll(ms) + Drain(tail).0
    ensures Drain(EncodeAll(ms) + tail).1 == Drain(tail).1
  {
    hide Encode, Receive, ReceivedMessage, Framed;
    if ms == [] {
      assert [] + tail == tail;
    } else {
      var first, others := Encode(ms[0]), EncodeAll(ms[1..]);
      assert (first + others) + tail == first + (others + tail);
      assert ms[0] in ms;
      DrainEncoded(ms[0], others + tail);
      StreamRoundTrip(ms[1..], tail);
    }
  }
}
