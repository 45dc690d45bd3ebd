/** The socket a connection owns (`tokio::net::TcpStream`), reduced to the
    two calls the connection makes: `read_buf` and `write_buf`. What the peer
    and the network do is given as a script of read and write outcomes. */
module Transport {
  import opened Io
  import opened Bytes

  /** What one `read_buf` call returns: some bytes (none at all for a 0-byte
      read) or an error. */
  datatype ReadEvent = Chunk(bytes: seq<byte>) | ReadFail

  /** What one `write_buf` call does: accept at most `limit` bytes, or fail. */
  datatype WriteEvent = Accept(limit: nat) | WriteFail

  /** The next read. Once the script is used up the peer has closed its side,
      and every further read returns 0 bytes. */
  function NextRead(script: seq<ReadEvent>): (ev: ReadEvent)
  {
    if script == [] then Chunk([]) else script[0]
  }

  function AfterRead(script: seq<ReadEvent>): (more: seq<ReadEvent>)
    ensures script != [] ==> more == script[1..]
    ensures script == [] ==> more == []
  {
    if script == [] then [] else script[1..]
  }

  /** The bytes a sequence of reads delivers, in order. */
  function Arrived(script: seq<ReadEvent>): (bytes: seq<byte>)
  {
    if script == [] then []
    else (match script[0] case Chunk(c) => c case ReadFail => []) + Arrived(script[1..])
  }

  /** Every read in the script delivers at least one byte. */
  predicate NonEmptyChunks(script: seq<ReadEvent>)
  {
    forall i :: 0 <= i < |script| ==> script[i].Chunk? && script[i].bytes != []
  }

  /** What a `write_buf` of the buffer contents `buf` results in. */
  datatype Written = Written(result: Result<nat>, buf: seq<byte>, writes: seq<WriteEvent>, accepted: seq<byte>)

  /** One `write_buf` call: the transport takes a prefix of the buffer, which
      is drained from it, and its length is returned. A used-up script means
      the transport takes everything offered. */
  function WriteStep(buf: seq<byte>, writes: seq<WriteEvent>): (w: Written)
    ensures w.result.Ok? ==> w.accepted + w.buf == buf && w.result.value == |w.accepted|
    ensures w.result.Err? ==> w.result.error == Transport && w.buf == buf && w.accepted == []
    ensures writes == [] ==> w == Written(Ok(|buf|), [], [], buf)
    ensures writes != [] ==> w.writes == writes[1..]
  {
    var ev := if writes == [] then Accept(|buf|) else writes[0];
    var more := if writes == [] then [] else writes[1..];
    match ev
    case WriteFail => Written(Err(Transport), buf, more, [])
    case Accept(limit) =>
      var k := if limit < |buf| then limit else |buf|;
      Written(Ok(k), buf[k..], more, buf[..k])
  }

  class Stream {
    /** The outcomes of the reads still to come. */
    var readScript: seq<ReadEvent>
    /** The outcomes of the writes still to come. */
    var writeScript: seq<WriteEvent>
    /** Every byte the transport has accepted for the peer, in order. */
    var wire: seq<byte>

    constructor (readScript: seq<ReadEvent>, writeScript: seq<WriteEvent>)
      ensures this.readScript == readScript && this.writeScript == writeScript && wire == []
    {
      this.readScript := readScript;
      this.writeScript := writeScript;
      wire := [];
    }

    /** `AsyncReadExt::read_buf`: append what one read delivers to `dst` and
        return how many bytes that was. */
    method ReadBuf(dst: BytesMut) returns (r: Result<nat>)
      modifies this, dst
      ensures readScript == AfterRead(old(readScript)) && writeScript == old(writeScript) && wire == old(wire)
      ensures NextRead(old(readScript)).ReadFail? ==> r == Err(Transport) && dst.data == old(dst.data)
      ensures NextRead(old(readScript)).Chunk? ==>
        r == Ok(|NextRead(old(readScript)).bytes|) && dst.data == old(dst.data) + NextRead(old(readScript)).bytes
    {
      var ev := NextRead(readScript);
      readScript := AfterRead(readScript);
      match ev
      case ReadFail => r := Err(Transport);
      case Chunk(c) =>
        dst.ExtendFromSlice(c);
        r := Ok(|c|);
    }

    /** `AsyncWriteExt::write_buf`: one write from the front of `src`; what
        the transport accepted is drained from `src`. */
    method WriteBuf(src: BytesMut) returns (r: Result<nat>)
      modifies this, src
      ensures var w := WriteStep(old(src.data), old(writeScript));
        r == w.result && src.data == w.buf && writeScript == w.writes && wire == old(wire) + w.accepted
      ensures readScript == old(readScript)
    {
      var w := WriteStep(src.data, writeScript);
      writeScript := w.writes;
      wire := wire + w.accepted;
      src.data := w.buf;
      r := w.result;
    }
  }
}
