/** The connection of src/conn.rs: one receive buffer, the codec and the
    socket. `send` encodes into the buffer and writes from it; `receive`
    reads into it and decodes from it. */
module Connection {
  import opened Io
  import opened Bytes
  import opened FrameCodec
  import opened Transport

  /** How a call of `receive` ends: it returns, or its loop never ends. */
  datatype Outcome<T> = Returns(result: Result<T>) | Diverges

  /** A call of `receive`: how it ends, the buffer it leaves and the reads
      still to come. */
  datatype Received<T> = Received(outcome: Outcome<T>, buf: seq<byte>, script: seq<ReadEvent>)

  /** The loop of `receive` on buffer contents `buf`. Each round does one
      read and then one decode attempt. When decoding says "not yet" and every
      further read returns 0 bytes, the buffer can never change again and the
      same round repeats forever. */
  function ReceiveSpec<T>(p: Payload<T>, buf: seq<byte>, script: seq<ReadEvent>): (out: Received<T>)
    // What is left of the script is a suffix of it: the reads done are its front.
    ensures |out.script| <= |script| && out.script == script[|script| - |out.script|..]
    ensures out.outcome == Diverges ==> out.script == [] && out.buf != []
    decreases |script|
  {
    var more := AfterRead(script);
    match NextRead(script)
    case ReadFail => Received(Returns(Err(Transport)), buf, more)
    case Chunk(c) =>
      var b := buf + c;
      if |c| == 0 && b == [] then Received(Returns(Err(UnexpectedEof)), b, more)
      else
        var d := DecodeStep(p, b);
        match d.result
        case Ok(Some(v)) => Received(Returns(Ok(v)), d.rest, more)
        case Err(e) => Received(Returns(Err(e)), d.rest, more)
        case Ok(None) =>
          if more == [] then Received(Diverges, d.rest, more)
          else ReceiveSpec(p, d.rest, more)
  }

  /** A call of `send` on buffer contents `buf`. */
  function SendSpec<T>(p: Payload<T>, buf: seq<byte>, writes: seq<WriteEvent>, item: T): (s: Written)
    // An encoding failure is returned before any write, with the buffer untouched.
    ensures EncodeStep(p, item).Err? ==> s == Written(Err(InvalidData), buf, writes, [])
    // Otherwise the bytes offered are the residue already in the buffer followed
    // by the new frame; the written prefix is drained and its length returned.
    ensures EncodeStep(p, item).Ok? ==>
      (s.result.Ok? ==> s.accepted + s.buf == buf + EncodeStep(p, item).value && s.result.value == |s.accepted|) &&
      (s.result.Err? ==> s.result.error == Transport && s.buf == buf + EncodeStep(p, item).value && s.accepted == [])
  {
    match EncodeStep(p, item)
    case Err(e) => Written(Err(e), buf, writes, [])
    case Ok(enc) => WriteStep(buf + enc, writes)
  }

  class Conn<T> {
    const buf: BytesMut
    const payload: Payload<T>
    const stream: Stream

    /** `Conn::new`: a connection starts with an empty buffer. */
    constructor (payload: Payload<T>, stream: Stream)
      ensures this.payload == payload && this.stream == stream
      ensures fresh(buf) && buf.data == []
    {
      this.buf := new BytesMut();
      this.payload := payload;
      this.stream := stream;
    }

    /** `send`: encode `frame` into the buffer, then write from it. */
    method Send(frame: T) returns (r: Result<nat>)
      modifies buf, stream
      ensures var s := SendSpec(payload, old(buf.data), old(stream.writeScript), frame);
        r == s.result && buf.data == s.buf && stream.writeScript == s.writes
        && stream.wire == old(stream.wire) + s.accepted
      ensures stream.readScript == old(stream.readScript)
    {
      var e := Encode(payload, frame, buf);
      if e.Err? {
        return Err(e.error);
      }
      r := stream.WriteBuf(buf);
    }

    /** `receive`: read and decode until a frame or an error comes out. */
    method Receive() returns (out: Outcome<T>)
      modifies buf, stream
      ensures ReceiveSpec(payload, old(buf.data), old(stream.readScript)) == Received(out, buf.data, stream.readScript)
      ensures stream.writeScript == old(stream.writeScript) && stream.wire == old(stream.wire)
    {
      while true
        invariant ReceiveSpec(payload, buf.data, stream.readScript) == ReceiveSpec(payload, old(buf.data), old(stream.readScript))
        invariant stream.writeScript == old(stream.writeScript) && stream.wire == old(stream.wire)
        decreases |stream.readScript|
      {
        var n := stream.ReadBuf(buf);
        if n.Err? {
          return Returns(Err(n.error));
        }
        if n.value == 0 && buf.IsEmpty() {
          return Returns(Err(UnexpectedEof));
        }
        var d := Decode(payload, buf);
        match d
        case Ok(Some(frame)) => return Returns(Ok(frame));
        case Err(e) => return Returns(Err(e));
        case Ok(None) =>
          if stream.readScript == [] {
            // Every further read returns 0 bytes and "not yet" leaves the
            // buffer as it is: the source loops here forever.
            return Diverges;
          }
      }
    }
  }

  /** Once the buffer holds a byte, `receive` never reports end of stream:
      a 0-byte read with a partial frame buffered is a stall, not EOF. */
  lemma {:induction false} NoEofWithResidue<T>(p: Payload<T>, buf: seq<byte>, script: seq<ReadEvent>)
    requires buf != []
    ensures ReceiveSpec(p, buf, script).outcome != Returns(Err(UnexpectedEof))
    decreases |script|
  {
    match NextRead(script)
    case ReadFail =>
    case Chunk(c) =>
      var b := buf + c;
      var d := DecodeStep(p, b);
      if d.result == Ok(None) && AfterRead(script) != [] {
        NoEofWithResidue(p, d.rest, AfterRead(script));
      }
  }

  /** `receive` reports end of stream exactly when the buffer is empty and
      the first read returns 0 bytes. */
  lemma ReceiveEof<T>(p: Payload<T>, buf: seq<byte>, script: seq<ReadEvent>)
    ensures ReceiveSpec(p, buf, script).outcome == Returns(Err(UnexpectedEof))
        <==> buf == [] && NextRead(script) == Chunk([])
  {
    match NextRead(script)
    case ReadFail =>
    case Chunk(c) =>
      var b := buf + c;
      if b != [] {
        var d := DecodeStep(p, b);
        if d.result == Ok(None) && AfterRead(script) != [] {
          NoEofWithResidue(p, d.rest, AfterRead(script));
        }
      }
  }

  /** Each round reads before it decodes: whatever the buffer holds, even a
      whole frame, a failing first read is what `receive` reports, and the
      buffer is kept as it was. */
  lemma ReceiveReadsFirst<T>(p: Payload<T>, buf: seq<byte>, script: seq<ReadEvent>)
    requires script != [] && script[0] == ReadFail
    ensures ReceiveSpec(p, buf, script) == Received(Returns(Err(Transport)), buf, script[1..])
  {
  }

  /** The reads a call used: the front of the script up to what it left. */
  function Consumed(script: seq<ReadEvent>, left: seq<ReadEvent>): (used: seq<ReadEvent>)
    requires |left| <= |script|
  {
    script[..|script| - |left|]
  }

  /** The answer of `receive` as an answer of `decode`. */
  function AsDecodeResult<T>(r: Result<T>): (d: Result<Option<T>>)
  {
    match r
    case Ok(v) => Ok(Some(v))
    case Err(e) => Err(e)
  }

  lemma ArrivedCons(ev: ReadEvent, rest: seq<ReadEvent>)
    requires ev.Chunk?
    ensures Arrived([ev] + rest) == ev.bytes + Arrived(rest)
  {
    assert ([ev] + rest)[1..] == rest;
  }

  /** Reading one chunk and then the reads of a later call delivers the
      chunk followed by what that call consumed. */
  lemma ArrivedConsumed(script: seq<ReadEvent>, left: seq<ReadEvent>)
    requires script != [] && script[0].Chunk? && |left| < |script|
    ensures Arrived(Consumed(script, left)) == script[0].bytes + Arrived(Consumed(script[1..], left))
  {
    assert Consumed(script, left) == [script[0]] + Consumed(script[1..], left);
    ArrivedCons(script[0], Consumed(script[1..], left));
  }

  /** When the first round's decode gives an answer, that answer is the
      decode of the buffer and the one chunk read. */
  lemma FirstRoundDecodes<T>(p: Payload<T>, buf: seq<byte>, script: seq<ReadEvent>)
    requires script != [] && script[0].Chunk?
    requires DecodeStep(p, buf + script[0].bytes).result != Ok(None)
    ensures var out := ReceiveSpec(p, buf, script);
      out.script == script[1..] &&
      DecodeStep(p, buf + Arrived(Consumed(script, out.script))) == Decoded(AsDecodeResult(out.outcome.result), out.buf)
  {
    var out := ReceiveSpec(p, buf, script);
    assert out.script == script[1..];
    ArrivedConsumed(script, out.script);
    assert Consumed(script[1..], out.script) == [];
    assert buf + Arrived(Consumed(script, out.script)) == buf + script[0].bytes;
  }

  /** When the first round's decode says "not yet" and reads remain, the
      call goes on exactly as a call on the grown buffer would. */
  lemma LaterRound<T>(p: Payload<T>, buf: seq<byte>, script: seq<ReadEvent>)
    requires script != [] && script[0].Chunk?
    requires buf + script[0].bytes != []
    requires DecodeStep(p, buf + script[0].bytes).result == Ok(None)
    requires |script| > 1
    ensures ReceiveSpec(p, buf, script) == ReceiveSpec(p, buf + script[0].bytes, script[1..])
  {
  }

  /** The buffer grown by the first chunk, then what later reads deliver,
      is the old buffer followed by everything the reads deliver. */
  lemma ArrivedRegroup(buf: seq<byte>, script: seq<ReadEvent>, left: seq<ReadEvent>)
    requires script != [] && script[0].Chunk? && |left| < |script|
    ensures buf + Arrived(Consumed(script, left)) == (buf + script[0].bytes) + Arrived(Consumed(script[1..], left))
  {
    ArrivedConsumed(script, left);
    assert buf + (script[0].bytes + Arrived(Consumed(script[1..], left)))
        == (buf + script[0].bytes) + Arrived(Consumed(script[1..], left));
  }

  /** Unless a read failed or the stream ended, what `receive` returns is
      what one decode of everything buffered and read so far returns: the
      first frame of the byte stream, or the error at its front; and the
      buffer it leaves is what that decode leaves. */
  lemma {:induction false} ReceiveDecodesArrived<T>(p: Payload<T>, buf: seq<byte>, script: seq<ReadEvent>)
    requires ReceiveSpec(p, buf, script).outcome.Returns?
    requires ReceiveSpec(p, buf, script).outcome.result !in {Err(Transport), Err(UnexpectedEof)}
    ensures var out := ReceiveSpec(p, buf, script);
      DecodeStep(p, buf + Arrived(Consumed(script, out.script))) == Decoded(AsDecodeResult(out.outcome.result), out.buf)
    decreases |script|
  {
    var out := ReceiveSpec(p, buf, script);
    if script == [] {
      assert Consumed(script, out.script) == [];
      assert buf + [] == buf;
    } else {
      var b := buf + script[0].bytes;
      assert b != [];
      var d := DecodeStep(p, b);
      if d.result != Ok(None) {
        FirstRoundDecodes(p, buf, script);
      } else {
        assert |script| > 1;
        LaterRound(p, buf, script);
        ReceiveDecodesArrived(p, b, script[1..]);
        ArrivedRegroup(buf, script, out.script);
      }
    }
  }

  /** A call that never ends has read the whole script and holds the whole
      byte stream, which decodes to "not yet": an incomplete frame. */
  lemma {:induction false} ReceiveDivergesIncomplete<T>(p: Payload<T>, buf: seq<byte>, script: seq<ReadEvent>)
    requires ReceiveSpec(p, buf, script).outcome == Diverges
    ensures var out := ReceiveSpec(p, buf, script);
      out.buf == buf + Arrived(script) && DecodeStep(p, out.buf).result == Ok(None)
    decreases |script|
  {
    if script == [] {
      assert buf + [] == buf;
    } else {
      var ev, more := script[0], script[1..];
      assert script == [ev] + more;
      ArrivedCons(ev, more);
      var b := buf + ev.bytes;
      if more == [] {
        assert Arrived(more) == [];
      } else {
        ReceiveDivergesIncomplete(p, b, more);
      }
    }
  }

  /** Splitting two equal concatenations at the same length. */
  lemma SplitAt(x: seq<byte>, y: seq<byte>, u: seq<byte>, v: seq<byte>)
    requires x + y == u + v
    ensures |x| >= |u| ==> x == u + x[|u|..] && x[|u|..] + y == v
    ensures |x| < |u| ==> x == u[..|x|]
  {
    if |x| >= |u| {
      assert (x + y)[..|u|] == x[..|u|];
      assert (u + v)[..|u|] == u;
      assert x == x[..|u|] + x[|u|..];
      assert (x + y)[|u|..] == x[|u|..] + y;
      assert (u + v)[|u|..] == v;
    } else {
      assert (x + y)[..|x|] == x;
      assert (u + v)[..|x|] == u[..|x|];
    }
  }

  lemma NonEmptyChunksSuffix(script: seq<ReadEvent>, k: nat)
    requires NonEmptyChunks(script) && k <= |script|
    ensures NonEmptyChunks(script[k..])
  {
    forall i | 0 <= i < |script[k..]| ensures script[k..][i].Chunk? && script[k..][i].bytes != [] {
      assert script[k..][i] == script[k + i];
    }
  }

  /** With the reads used up, a whole frame already buffered is returned. */
  lemma FrameAlreadyBuffered<T(!new)>(p: Payload<T>, item: T, buf: seq<byte>, tail: seq<byte>)
    requires Symmetric(p) && EncodeStep(p, item).Ok?
    requires buf == EncodeStep(p, item).value + tail
    ensures ReceiveSpec(p, buf, []) == Received(Returns(Ok(item)), tail, [])
  {
    DecodeEncode(p, item, tail);
    assert buf + [] == buf;
  }

  /** The first chunk completes the frame: it is returned at once. */
  lemma FrameCompleted<T(!new)>(p: Payload<T>, item: T, buf: seq<byte>, script: seq<ReadEvent>, rest: seq<byte>)
    requires Symmetric(p) && EncodeStep(p, item).Ok?
    requires script != [] && script[0].Chunk?
    requires buf + script[0].bytes == EncodeStep(p, item).value + rest
    ensures ReceiveSpec(p, buf, script) == Received(Returns(Ok(item)), rest, script[1..])
  {
    DecodeEncode(p, item, rest);
  }

  /** Delivered in chunks of any sizes, the bytes of an encoded item followed
      by anything else make `receive` return that item, and what is left in
      the buffer and still to be read is exactly what followed it. */
  lemma {:induction false} ReceiveChunked<T(!new)>(p: Payload<T>, item: T, buf: seq<byte>, script: seq<ReadEvent>, tail: seq<byte>)
    requires Symmetric(p) && EncodeStep(p, item).Ok?
    requires NonEmptyChunks(script)
    requires buf + Arrived(script) == EncodeStep(p, item).value + tail
    ensures var out := ReceiveSpec(p, buf, script);
      out.outcome == Returns(Ok(item)) && out.buf + Arrived(out.script) == tail
    decreases |script|
  {
    var enc := EncodeStep(p, item).value;
    if script == [] {
      assert buf == enc + tail;
      FrameAlreadyBuffered(p, item, buf, tail);
    } else {
      var c := script[0].bytes;
      var more := script[1..];
      var b := buf + c;
      ArrivedCons(script[0], more);
      assert script == [script[0]] + more;
      assert b + Arrived(more) == enc + tail;
      SplitAt(b, Arrived(more), enc, tail);
      if |b| >= |enc| {
        FrameCompleted(p, item, buf, script, b[|enc|..]);
      } else {
        DecodeStrictPrefix(p, item, |b|);
        if more == [] {
          assert false;
        }
        LaterRound(p, buf, script);
        NonEmptyChunksSuffix(script, 1);
        ReceiveChunked(p, item, b, more, tail);
      }
    }
  }

  lemma NonEmptyChunksNothingArrived(script: seq<ReadEvent>)
    requires NonEmptyChunks(script) && Arrived(script) == []
    ensures script == []
  {
  }

  /** Two items encoded back to back and delivered in any chunking come out
      of two successive `receive` calls in the order they were encoded, and
      nothing is left over. */
  lemma ReceiveInOrder<T(!new)>(p: Payload<T>, first: T, second: T, script: seq<ReadEvent>)
    requires Symmetric(p) && EncodeStep(p, first).Ok? && EncodeStep(p, second).Ok?
    requires NonEmptyChunks(script)
    requires Arrived(script) == EncodeStep(p, first).value + EncodeStep(p, second).value
    ensures var one := ReceiveSpec(p, [], script);
      var two := ReceiveSpec(p, one.buf, one.script);
      one.outcome == Returns(Ok(first)) && two.outcome == Returns(Ok(second)) && two.buf == [] && two.script == []
  {
    assert [] + Arrived(script) == Arrived(script);
    ReceiveChunked(p, first, [], script, EncodeStep(p, second).value);
    var one := ReceiveSpec(p, [], script);
    NonEmptyChunksSuffix(script, |script| - |one.script|);
    assert EncodeStep(p, second).value + [] == EncodeStep(p, second).value;
    ReceiveChunked(p, second, one.buf, one.script, []);
    var two := ReceiveSpec(p, one.buf, one.script);
    NonEmptyChunksSuffix(one.script, |one.script| - |two.script|);
    NonEmptyChunksNothingArrived(two.script);
  }
}
