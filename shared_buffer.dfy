/** `send` stages its frame in the same `BytesMut` that `receive` reads into.
    Bytes of the next incoming frame that a `receive` left in the buffer are
    therefore written back to the peer ahead of the outgoing frame, and lost
    to the next `receive`. This module shows that on a concrete exchange, and
    defines the connection with a receive buffer and a separate write buffer,
    whose outgoing byte stream is always a sequence of whole frames. */
module SharedBuffer {
  import opened Io
  import opened Bytes
  import opened FrameCodec
  import opened Transport
  import opened Connection

  /** A serializer for byte strings that copies them unchanged: enough to
      exhibit the problem, which does not depend on the serializer. */
  const Raw: Payload<seq<byte>> := Payload(x => Some(x), b => Some(b))

  lemma RawEncodeEmpty()
    ensures EncodeStep(Raw, []) == Ok([0, 0, 0, 0])
  {
    var empty: seq<byte> := [];
    assert Raw.serialize(empty) == Some(empty);
    assert LeBytes(|empty|) + empty == [0, 0, 0, 0];
  }

  /** An empty frame followed by the first two bytes of a frame of length 5. */
  lemma RawDecodeFrameAndResidue()
    ensures DecodeStep(Raw, [0, 0, 0, 0, 5, 0]) == Decoded(Ok(Some([])), [5, 0])
  {
    var chunk: seq<byte> := [0, 0, 0, 0, 5, 0];
    assert chunk[..4] == [0, 0, 0, 0];
    assert chunk[4..4] == [] && chunk[4..] == [5, 0];
    assert Raw.deserialize([]) == Some([]);
  }

  lemma RawDecodeFrame()
    ensures DecodeStep(Raw, [0, 0, 0, 0]) == Decoded(Ok(Some([])), [])
  {
    var chunk: seq<byte> := [0, 0, 0, 0];
    assert chunk[..4] == chunk && chunk[4..4] == [] && chunk[4..] == [];
    assert Raw.deserialize([]) == Some([]);
  }

  /** Residue then an empty frame reads as the start of a 5-byte payload. */
  lemma RawDecodeEchoed()
    ensures DecodeStep(Raw, [5, 0, 0, 0, 0, 0]).result == Ok(None)
  {
    var wire: seq<byte> := [5, 0, 0, 0, 0, 0];
    assert wire[..4] == [5, 0, 0, 0];
    assert LeU32(wire[..4]) == 5;
  }

  /** As written: the peer sends an empty frame and the first two bytes of
      the next one in a single chunk. `receive` returns the empty frame and
      keeps those two bytes; `send` of an empty frame then writes them to the
      peer in front of its own frame. The peer, which would have received the
      frame on its own, now waits forever for a 5-byte payload, and the two
      bytes are gone from the local buffer. */
  lemma SharedBufferEchoesResidue()
    ensures var got := ReceiveSpec(Raw, [], [Chunk([0, 0, 0, 0, 5, 0])]);
      got.outcome == Returns(Ok([])) && got.buf == [5, 0] &&
      var sent := SendSpec(Raw, got.buf, [], []);
      sent.accepted == [5, 0, 0, 0, 0, 0] && sent.buf == [] &&
      ReceiveSpec(Raw, [], [Chunk(sent.accepted)]).outcome == Diverges &&
      ReceiveSpec(Raw, [], [Chunk(EncodeStep(Raw, []).value)]).outcome == Returns(Ok([]))
  {
    ReceiveFrameAndResidue();
    SendBehindResidue();
    ReceiveOneChunk([5, 0, 0, 0, 0, 0]);
    RawDecodeEchoed();
    RawEncodeEmpty();
    ReceiveOneChunk([0, 0, 0, 0]);
    RawDecodeFrame();
  }

  /** A `receive` whose only read delivers `chunk`. */
  lemma ReceiveOneChunk(chunk: seq<byte>)
    requires chunk != []
    ensures var d := DecodeStep(Raw, chunk);
      ReceiveSpec(Raw, [], [Chunk(chunk)]) ==
        match d.result
        case Ok(Some(v)) => Received(Returns(Ok(v)), d.rest, [])
        case Err(e) => Received(Returns(Err(e)), d.rest, [])
        case Ok(None) => Received(Diverges, d.rest, [])
  {
    assert [] + chunk == chunk;
  }

  lemma ReceiveFrameAndResidue()
    ensures ReceiveSpec(Raw, [], [Chunk([0, 0, 0, 0, 5, 0])]) == Received(Returns(Ok([])), [5, 0], [])
  {
    ReceiveOneChunk([0, 0, 0, 0, 5, 0]);
    RawDecodeFrameAndResidue();
  }

  lemma SendBehindResidue()
    ensures SendSpec(Raw, [5, 0], [], []) == Written(Ok(6), [], [], [5, 0, 0, 0, 0, 0])
  {
    RawEncodeEmpty();
    var residue: seq<byte> := [5, 0];
    assert residue + [0, 0, 0, 0] == [5, 0, 0, 0, 0, 0];
  }

  /** As written, the other way round: a write that takes two of the four
      bytes of an outgoing empty frame leaves the other two staged, and the
      next `receive` reads the peer's frame `01 00 00 00 07` behind them. The
      staged bytes and the peer's bytes together declare a 65536-byte payload,
      so that `receive` never returns, where on an empty buffer it returns the
      peer's frame. */
  lemma PartialWriteReadBack()
    ensures var sent := SendSpec(Raw, [], [Accept(2)], []);
      sent.result == Ok(2) && sent.accepted == [0, 0] && sent.buf == [0, 0] &&
      ReceiveSpec(Raw, sent.buf, [Chunk([1, 0, 0, 0, 7])]).outcome == Diverges &&
      ReceiveSpec(Raw, [], [Chunk([1, 0, 0, 0, 7])]).outcome == Returns(Ok([7]))
  {
    SendStagesHalfFrame();
    ReceiveBehindStaged();
    ReceiveOneChunk([1, 0, 0, 0, 7]);
    RawDecodePeerFrame();
  }

  lemma SendStagesHalfFrame()
    ensures SendSpec(Raw, [], [Accept(2)], []) == Written(Ok(2), [0, 0], [], [0, 0])
  {
    RawEncodeEmpty();
    var staged: seq<byte> := [0, 0, 0, 0];
    assert [] + staged == staged;
    assert staged[..2] == [0, 0] && staged[2..] == [0, 0];
  }

  lemma RawDecodePeerFrame()
    ensures DecodeStep(Raw, [1, 0, 0, 0, 7]) == Decoded(Ok(Some([7])), [])
  {
    var frame: seq<byte> := [1, 0, 0, 0, 7];
    assert frame[..4] == [1, 0, 0, 0];
    assert LeU32(frame[..4]) == 1;
    assert frame[4..5] == [7] && frame[5..] == [];
    assert Raw.deserialize([7]) == Some([7]);
  }

  lemma ReceiveBehindStaged()
    ensures ReceiveSpec(Raw, [0, 0], [Chunk([1, 0, 0, 0, 7])]).outcome == Diverges
  {
    var staged: seq<byte> := [0, 0];
    var both := staged + [1, 0, 0, 0, 7];
    assert both == [0, 0, 1, 0, 0, 0, 7];
    assert both[..4] == [0, 0, 1, 0];
    assert LeU32(both[..4]) == 0x1_0000;
    assert DecodeStep(Raw, both).result == Ok(None);
  }

  /** The connection with a separate write buffer: `rbuf` is only read into
      and decoded from, `wbuf` is only encoded into and written from. */
  datatype Duplex = Duplex(rbuf: seq<byte>, wbuf: seq<byte>, script: seq<ReadEvent>, writes: seq<WriteEvent>, wire: seq<byte>)

  /** The byte stream a sequence of `send` calls should produce: each item's
      frame in order, nothing for an item that failed to encode. */
  function Framed<T>(p: Payload<T>, items: seq<T>): (stream: seq<byte>)
    decreases |items|
  {
    if items == [] then [] else Framed(p, items[..|items| - 1]) + FrameOf(p, items[|items| - 1])
  }

  /** The frame of one item, nothing if it does not encode. */
  function FrameOf<T>(p: Payload<T>, item: T): (frame: seq<byte>)
  {
    match EncodeStep(p, item)
    case Ok(enc) => enc
    case Err(_) => []
  }

  lemma FramedSnoc<T>(p: Payload<T>, items: seq<T>, item: T)
    ensures Framed(p, items + [item]) == Framed(p, items) + FrameOf(p, item)
  {
    assert (items + [item])[..|items|] == items;
  }

  /** A `send` neither loses nor adds a byte: what it writes followed by
      what it leaves staged is what was staged followed by the new frame. */
  lemma SendConserves<T>(p: Payload<T>, buf: seq<byte>, writes: seq<WriteEvent>, item: T)
    ensures var s := SendSpec(p, buf, writes, item);
      s.accepted + s.buf == buf + FrameOf(p, item)
  {
  }

  /** `send` on the separate write buffer. */
  function DuplexSend<T>(p: Payload<T>, c: Duplex, item: T): (r: (Result<nat>, Duplex))
    ensures r.1.rbuf == c.rbuf && r.1.script == c.script
  {
    var s := SendSpec(p, c.wbuf, c.writes, item);
    (s.result, c.(wbuf := s.buf, writes := s.writes, wire := c.wire + s.accepted))
  }

  /** `receive` on the receive buffer alone. */
  function DuplexReceive<T>(p: Payload<T>, c: Duplex): (r: (Outcome<T>, Duplex))
    ensures r.1.wbuf == c.wbuf && r.1.writes == c.writes && r.1.wire == c.wire
  {
    var got := ReceiveSpec(p, c.rbuf, c.script);
    (got.outcome, c.(rbuf := got.buf, script := got.script))
  }

  /** With a separate write buffer, what has been written followed by what is
      still staged is exactly the frames of the items sent so far, whatever
      the receive side holds, and a send leaves the receive side alone. */
  lemma DuplexSendKeepsFraming<T>(p: Payload<T>, c: Duplex, sent: seq<T>, item: T)
    requires c.wire + c.wbuf == Framed(p, sent)
    ensures var c' := DuplexSend(p, c, item).1;
      c'.wire + c'.wbuf == Framed(p, sent + [item]) && c'.rbuf == c.rbuf && c'.script == c.script
  {
    DuplexSendAppends(p, c, item);
    FramedSnoc(p, sent, item);
  }

  /** With a separate write buffer, a `send` extends the outgoing byte
      stream, written and staged, by the item's frame and nothing else. */
  lemma DuplexSendAppends<T>(p: Payload<T>, c: Duplex, item: T)
    ensures var c' := DuplexSend(p, c, item).1;
      c'.wire + c'.wbuf == c.wire + c.wbuf + FrameOf(p, item)
  {
    var s := SendSpec(p, c.wbuf, c.writes, item);
    var c' := DuplexSend(p, c, item).1;
    assert c'.wire == c.wire + s.accepted && c'.wbuf == s.buf;
    SendConserves(p, c.wbuf, c.writes, item);
    Regroup(c.wire, s.accepted, s.buf, c.wbuf, FrameOf(p, item));
  }

  lemma Regroup(w: seq<byte>, a: seq<byte>, b: seq<byte>, u: seq<byte>, f: seq<byte>)
    requires a + b == u + f
    ensures (w + a) + b == w + u + f
  {
    assert (w + a) + b == w + (a + b);
    assert w + (u + f) == (w + u) + f;
  }

  /** The same exchange as in SharedBufferEchoesResidue, with the separate
      write buffer: the peer receives the frame, and the two bytes of the
      next incoming frame stay in the receive buffer. */
  lemma DuplexKeepsResidue()
    ensures var c := Duplex([], [], [Chunk([0, 0, 0, 0, 5, 0])], [], []);
      var got := DuplexReceive(Raw, c);
      got.0 == Returns(Ok([])) &&
      var sent := DuplexSend(Raw, got.1, []);
      sent.1.rbuf == [5, 0] && sent.1.wire == [0, 0, 0, 0] &&
      ReceiveSpec(Raw, [], [Chunk(sent.1.wire)]).outcome == Returns(Ok([]))
  {
    ReceiveFrameAndResidue();
    var got := DuplexReceive(Raw, Duplex([], [], [Chunk([0, 0, 0, 0, 5, 0])], [], []));
    RawEncodeEmpty();
    var frame: seq<byte> := [0, 0, 0, 0];
    assert [] + frame == frame;
    assert DuplexSend(Raw, got.1, []).1.wire == frame;
    ReceiveOneChunk(frame);
    RawDecodeFrame();
  }
  /** Over a transport that takes everything offered, two sends put the two
      frames on the wire, in order, and leave nothing staged. */
  lemma DuplexTwoSends<T>(p: Payload<T>, c: Duplex, first: T, second: T)
    requires EncodeStep(p, first).Ok? && EncodeStep(p, second).Ok?
    requires c.wire == [] && c.wbuf == [] && c.writes == []
    ensures var c2 := DuplexSend(p, DuplexSend(p, c, first).1, second).1;
      c2.wire == EncodeStep(p, first).value + EncodeStep(p, second).value && c2.wbuf == []
  {
    var c1 := DuplexSend(p, c, first).1;
    DuplexSendAppends(p, c, first);
    assert c1.wbuf == [] && c1.writes == [];
    assert c1.wire == EncodeStep(p, first).value;
    var c2 := DuplexSend(p, c1, second).1;
    DuplexSendAppends(p, c1, second);
    assert c2.wbuf == [];
  }

  /** Whatever the transport accepts, two sends on the separate write buffer
      leave the two frames, in order, split between the wire and what is
      still staged: the wire is always a prefix of them. */
  lemma DuplexTwoSendsFramed<T>(p: Payload<T>, c: Duplex, first: T, second: T)
    requires c.wire == [] && c.wbuf == []
    ensures var c2 := DuplexSend(p, DuplexSend(p, c, first).1, second).1;
      c2.wire + c2.wbuf == FrameOf(p, first) + FrameOf(p, second)
  {
    var c1 := DuplexSend(p, c, first).1;
    DuplexSendAppends(p, c, first);
    assert c1.wire + c1.wbuf == FrameOf(p, first);
    DuplexSendAppends(p, c1, second);
  }

  /** Two items sent over the separate write buffer, on a transport that takes
      every write in full, reach a peer that reads
      the wire in chunks of any sizes as two frames, in order. */
  lemma DuplexDeliversInOrder<T(!new)>(p: Payload<T>, c: Duplex, first: T, second: T, peer: seq<ReadEvent>)
    requires Symmetric(p) && EncodeStep(p, first).Ok? && EncodeStep(p, second).Ok?
    requires c.wire == [] && c.wbuf == [] && c.writes == []
    requires var c2 := DuplexSend(p, DuplexSend(p, c, first).1, second).1;
      NonEmptyChunks(peer) && Arrived(peer) == c2.wire
    ensures var one := ReceiveSpec(p, [], peer);
      var two := ReceiveSpec(p, one.buf, one.script);
      one.outcome == Returns(Ok(first)) && two.outcome == Returns(Ok(second))
  {
    DuplexTwoSends(p, c, first, second);
    ReceiveInOrder(p, first, second, peer);
  }
}
