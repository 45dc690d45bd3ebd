# Length-prefixed framing over a byte stream, in Dafny

This project models the framing layer of a small Rust program. Two peers exchange
discrete messages ("frames") over a TCP connection, which carries only an ordered
stream of bytes.

- **Frame codec** (`src/payload.rs`): a frame on the wire is a 4-byte little-endian
  `u32` length `L` followed by exactly `L` payload bytes. `L` may be at most
  `MAX = 8196 * 1024` = 8,392,704.
  - `decode` looks at the receive buffer and returns one of three answers:
    "not yet" (`Ok(None)`), a frame (`Ok(Some)`), or an error. When a whole frame
    is there, it removes exactly `4 + L` bytes from the front of the buffer.
  - `encode` appends the prefix and the payload to an output buffer.
  - The payload is serialized with bincode, which is not modelled. It is a pair of
    functions carried by the `Payload<T>` value: `serialize`, which may fail, and
    `deserialize`, which may reject its input. The serializer's promise that
    deserialize undoes serialize is the predicate `Symmetric`. The round-trip
    lemmas take it as a precondition.
- **Connection** (`src/conn.rs`): a `Conn` owns one `BytesMut` buffer, the codec and
  a socket.
  - `receive` loops. Each round does one read into the buffer, then one decode
    attempt. It reports end of stream only when a read returns 0 bytes and the
    buffer is empty.
  - `send` encodes into the **same** buffer, then makes one write from it.

The module layout follows the program:

- `Io`: the standard `Option`, `io::Result` and the `io::ErrorKind` values used.
- `Bytes`: the `u32` little-endian conversions and the contents of a `BytesMut`.
- `FrameCodec`: `src/payload.rs`.
- `Transport`: the two socket calls the connection makes.
- `Connection`: `src/conn.rs`.
- `SharedBuffer`: the finding below, and the corrected connection.

Both core files change state in place, so the model does too:

- `Decode` and `Encode` are methods on a `BytesMut` object.
- `Conn` is a class whose `Send` and `Receive` change its buffer and its stream.
- `Receive` keeps the source's `loop`.
- Each method is proved against a function: `DecodeStep`, `EncodeStep`, `SendSpec`
  and `ReceiveSpec`. The lemmas state the properties of those functions.

The socket is a script of outcomes:

- Reads are a finite sequence of `ReadEvent`s. A `Chunk` carries the bytes one
  `read_buf` returns; an empty chunk is a 0-byte read. A `ReadFail` is a read error.
- Once the read script is used up, the peer has closed its side, and every further
  read returns 0 bytes.
- Writes are a sequence of `WriteEvent`s. `Accept(limit)` takes at most `limit`
  bytes from the front of the buffer. `WriteFail` is a write error. Once the write
  script is used up, the socket takes everything offered.

In the source, the receive loop never ends when the buffer holds an incomplete frame
and reads keep returning 0 bytes. The model states this as the outcome `Diverges`.

## Model

Library primitives the core calls have no row of their own. Their contracts are
covered through the rows of their callers:
- `Bytes.LeU32` and `Bytes.LeBytes` (`u32::from_le_bytes` and `u32::to_le_bytes`),
  through `LeU32OfLeBytes` and `LeBytesOfLeU32`.
- `FrameCodec.DeclaredLength`, through `DecodeStep`.
- `Bytes.BytesMut.Advance` and `Bytes.BytesMut.ExtendFromSlice`, through `Decode`
  and `Encode`.
- `SharedBuffer.DuplexSend` and `SharedBuffer.DuplexReceive`, through the `Duplex`
  lemmas.

| member | source | states |
|---|---|---|
| `Bytes.LeU32OfLeBytes` | src/payload.rs:77 | reading back the four bytes `u32::to_le_bytes` writes for a length gives that length |
| `Bytes.LeBytesOfLeU32` | src/payload.rs:33-35 | the prefix `u32::from_le_bytes` reads determines the four bytes: the prefix encoding is a bijection |
| `FrameCodec.DecodeStep` | src/payload.rs:28-60 | "not yet" exactly when fewer than 4 bytes, or fewer than `4 + L` with `L <= MAX`, are held, and then nothing is consumed; bytes are consumed exactly when a whole frame is there, whether or not it deserializes, and then exactly `4 + L` of them; a length over `MAX` is `InvalidData`, the buffer untouched; a frame is the deserialization of exactly `src[4..4+L]`; a whole frame within `MAX` is always consumed, exactly `4 + L` bytes, and is `InvalidInput` exactly when its payload does not deserialize, so a payload that deserializes to `v` gives `Ok(Some(v))` |
| `FrameCodec.Decode` | src/payload.rs:28-60 | the method on the `BytesMut` returns and leaves what `DecodeStep` says |
| `FrameCodec.EncodeStep` | src/payload.rs:66-84 | encoding succeeds exactly when serialization succeeds with at most `MAX` bytes; a failure is `InvalidData`; on success the prefix equals the payload length and the payload is the serialized item |
| `FrameCodec.Encode` | src/payload.rs:66-84 | on success `dst` is the old `dst`, then the prefix, then the payload; on failure `dst` is unchanged |
| `FrameCodec.DecodeEncode` | src/payload.rs:28-84 | for a symmetric serializer, decoding a buffer that starts with an encoded item yields that item and leaves exactly the bytes that followed it |
| `FrameCodec.DecodeStrictPrefix` | src/payload.rs:44-48 | every strict prefix of an encoded frame, the empty buffer included, decodes to "not yet" and is left as it is |
| `FrameCodec.DecodeAppend` | src/payload.rs:50-51 | once a buffer decodes to a frame or an error, appended bytes do not change the answer and stay behind in the buffer |
| `Transport.WriteStep` | src/conn.rs:43 | a write drains a prefix of the buffer and returns its length, or fails with the buffer untouched |
| `Transport.Stream.ReadBuf` | src/conn.rs:51 | one read appends its chunk to the buffer and returns the chunk's length, or fails with the buffer untouched |
| `Transport.Stream.WriteBuf` | src/conn.rs:43 | one write moves the accepted prefix of the buffer onto the wire |
| `Connection.ReceiveSpec` | src/conn.rs:46-61 | one read, then one decode attempt, per round; the reads done are the front of the script; a call that never ends has used up the script and holds bytes |
| `Connection.SendSpec` | src/conn.rs:37-44 | an encoding failure is returned before any write, with the buffer unchanged; otherwise the bytes offered are the residue already buffered followed by the new frame, and the written prefix is drained and its length returned |
| `Connection.Conn.constructor` | src/conn.rs:25-34 | a new connection's buffer is empty |
| `Connection.Conn.Send` | src/conn.rs:37-44 | the method encodes into the shared buffer, writes from it, and ends as `SendSpec` says |
| `Connection.Conn.Receive` | src/conn.rs:46-61 | the loop ends as `ReceiveSpec` says, and never writes |
| `Connection.NoEofWithResidue` | src/conn.rs:51-57 | once the buffer holds a byte, `receive` never reports end of stream: a 0-byte read with a partial frame is a stall |
| `Connection.ReceiveEof` | src/conn.rs:51-53 | `receive` reports `UnexpectedEof` exactly when the buffer is empty and the first read returns 0 bytes |
| `Connection.ReceiveReadsFirst` | src/conn.rs:50-55 | a read comes before any decode: a failing first read is reported whatever the buffer holds, even a whole frame, and the buffer is kept |
| `Connection.ReceiveDecodesArrived` | src/conn.rs:50-60 | unless a read fails or the stream ends, `receive` returns what one decode of the old buffer plus all bytes read returns (the first frame of the stream, or the error at its front) and leaves what that decode leaves |
| `Connection.ReceiveDivergesIncomplete` | src/conn.rs:55-57 | a call that never ends holds the whole byte stream, which is an incomplete frame |
| `Connection.ReceiveChunked` | src/conn.rs:50-60 | an encoded item followed by any bytes, delivered in non-empty chunks of any sizes, makes `receive` return that item, and what it leaves buffered and unread is exactly what followed |
| `Connection.ReceiveInOrder` | src/conn.rs:50-60 | two encoded items delivered in any chunking come out of two successive `receive` calls in order, with nothing left over |
| `SharedBuffer.SharedBufferEchoesResidue` | src/conn.rs:41-43 | as written: after a `receive` leaves two bytes of the next frame in the buffer, `send` writes them to the peer ahead of its own frame; the peer then never gets the frame, and the two bytes are gone locally |
| `SharedBuffer.PartialWriteReadBack` | src/conn.rs:41-51 | as written: a write that takes part of an outgoing frame leaves the rest staged, and the next `receive` decodes those bytes together with the peer's frame, so it stalls where on an empty buffer it returns the peer's frame |
| `SharedBuffer.SendConserves` | src/conn.rs:41-43 | a `send` neither loses nor adds a byte: what it writes, then what it leaves staged, is the old staging followed by the item's frame |
| `SharedBuffer.DuplexSendAppends` | src/conn.rs:41-43 | with a separate write buffer, a send extends the outgoing stream (written plus staged) by the item's frame and nothing else |
| `SharedBuffer.DuplexSendKeepsFraming` | src/conn.rs:41-43 | with a separate write buffer, the outgoing stream is always exactly the frames of the items sent, whatever the receive side holds, and a send leaves the receive side alone |
| `SharedBuffer.DuplexKeepsResidue` | src/conn.rs:41-43 | the exchange of `SharedBufferEchoesResidue` with a separate write buffer: the peer gets the frame and the residue stays in the receive buffer |
| `SharedBuffer.DuplexTwoSendsFramed` | src/conn.rs:37-44 | with a separate write buffer and any transport, after two sends the wire followed by what is still staged is the two frames in order, so the wire is always a prefix of them |
| `SharedBuffer.DuplexDeliversInOrder` | src/conn.rs:37-61 | over a transport that takes every write in full, two items sent over the separate write buffer reach a peer reading the wire in any chunking as two frames, in order |

## Findings

| source | as written | input that shows it | evidently intended | confidence | as-written member | corrected member |
|---|---|---|---|---|---|---|
| src/conn.rs:41-43 | `send` encodes into, and writes from, `buf`, the buffer that `receive` fills | the peer's bytes `00 00 00 00 05 00` arrive in one read; `receive` returns the empty frame and keeps `05 00`; a `send` of an empty frame then writes `05 00 00 00 00 00` | a write staging area of its own, so the wire carries only whole frames and received bytes stay for the next `receive` | high, not executed | `SharedBuffer.SharedBufferEchoesResidue` | `SharedBuffer.DuplexSendKeepsFraming` |

The finding also works in the other direction. A write that takes only part of the
buffer leaves outgoing bytes in it. The next `receive` appends incoming bytes behind
them and decodes them together with the peer's bytes.
`SharedBuffer.PartialWriteReadBack` shows this on a concrete exchange:
- A `send` of an empty frame whose write takes 2 of its 4 bytes leaves `00 00` staged.
- The peer then sends the frame `01 00 00 00 07`. The buffer `00 00 01 00 00 00 07`
  declares a payload of 65536 bytes, so `receive` never returns.
- On an empty buffer, the same read returns the peer's frame `[7]`.

The program's own client only sends and its server only receives, so neither case
arises in it.

`Conn` keeps the shared buffer exactly as the source has it. The corrected connection
is `Duplex`, with `DuplexSend` and `DuplexReceive` over a receive buffer and a
separate write buffer. The lemmas `DuplexTwoSendsFramed`, `DuplexTwoSends` and
`DuplexDeliversInOrder` are about it.

## Notes on the source

- `MAX` is 8196 × 1024 = 8,392,704 (`src/payload.rs:7`).
- `decode` advances past the `4 + L` bytes of a frame before it deserializes the
  payload (`src/payload.rs:50-53`). So a payload that fails to deserialize is still
  consumed, and reported as `InvalidInput`.
- `encode` reports a serializer failure with the kind `InvalidData`
  (`src/payload.rs:67-68`), the same kind as an oversized payload
  (`src/payload.rs:70-75`). The model keeps that: only the messages, which are not
  modelled, tell the two apart.
- The cast `encoded.len() as u32` cannot truncate: the length is at most `MAX`, which
  is below 2^32, and `LeBytes` requires a value below 2^32. `4 + length` is computed
  after the bound check, so it cannot overflow either.

## Left out

- `reserve` (`src/payload.rs:45`, `src/payload.rs:79`) changes only a buffer's
  capacity, which no byte of its contents shows, so it is not modelled.
- The bincode and serde internals are left out. The serializer is the pair of
  functions in `Payload<T>`, and its round trip is the precondition `Symmetric`.
- `Payload::new` and `From<T> for Payload<T>` build a stateless marker value. The
  model's `Payload<T>` value is the codec and its serializer together, and it is
  given to the `Conn` constructor.
- The `Decoder` and `Encoder` traits of `tokio_util` are not modelled. Decode and
  encode are plain methods.
- The asynchronous runtime, blocking, cancellation and concurrency are not modelled.
  The socket is the read and write scripts.
- A read that blocks forever cannot be expressed. A used-up read script stands for a
  peer that has closed, which is the case in which the source's loop spins forever.
- Error messages and `io::Error` payloads are not modelled. Only the kinds are:
  `InvalidData`, `InvalidInput`, `UnexpectedEof`, and a single `Transport` kind for
  any socket error.
- `src/main.rs` is not part of this model. It holds argument parsing, binding,
  accepting, connecting, printing, and the concrete `Frame` type. The codec is
  generic over the item type.
- `Connection.ReceiveChunked` and `Connection.ReceiveInOrder`: they require every
  chunk to be non-empty. An empty read while the buffer is still empty is end of
  stream (`Connection.ReceiveEof`).
- `SharedBuffer.DuplexDeliversInOrder`: it requires a transport that takes every
  write in full. Under partial writes the second frame may not all have reached the
  wire yet. For that case `SharedBuffer.DuplexTwoSendsFramed` states only that the
  wire is a prefix of the two frames.
