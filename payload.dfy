/** The frame codec of src/payload.rs. A frame on the wire is a 4-byte
    little-endian `u32` length `L` followed by exactly `L` payload bytes. */
module FrameCodec {
  import opened Io
  import opened Bytes

  /** `MAX = 8196 * 1024`: the largest payload length decode and encode accept. */
  const MAX: nat := 8196 * 1024

  /** The codec instance `Payload<T>` together with the serializer it calls
      (bincode). Serializing may fail; deserializing may reject its input. */
  datatype Payload<!T> = Payload(serialize: T -> Option<seq<byte>>, deserialize: seq<byte> -> Option<T>)

  /** The serializer's contract: whatever it produces for a value
      deserializes back to that value. */
  ghost predicate Symmetric<T(!new)>(p: Payload<T>)
  {
    forall v :: p.serialize(v).Some? ==> p.deserialize(p.serialize(v).value) == Some(v)
  }

  /** What one call of `decode` returns, and the buffer it leaves behind. */
  datatype Decoded<T> = Decoded(result: Result<Option<T>>, rest: seq<byte>)

  /** The declared payload length of a buffer that holds at least 4 bytes. */
  function DeclaredLength(src: seq<byte>): (n: nat)
    requires |src| >= 4
  {
    LeU32(src[..4])
  }

  /** `Payload::decode` on the contents `src` of the receive buffer. */
  function DecodeStep<T>(p: Payload<T>, src: seq<byte>): (d: Decoded<T>)
    // A frame or an error is never the answer when fewer than 4 + L bytes are held.
    ensures d.result == Ok(None) <==> |src| < 4 || (DeclaredLength(src) <= MAX && |src| < 4 + DeclaredLength(src))
    // Nothing is consumed unless a whole frame is present: then exactly 4 + L bytes are.
    ensures d.rest == src || (|src| >= 4 && DeclaredLength(src) <= MAX && 4 + DeclaredLength(src) <= |src|
                              && d.rest == src[4 + DeclaredLength(src)..])
    // Bytes are consumed exactly when a whole frame was there, whether or not it deserialized.
    ensures d.rest == src <==> d.result == Ok(None) || d.result == Err(InvalidData)
    // A whole frame within MAX is always consumed, exactly 4 + L bytes of it.
    ensures |src| >= 4 && DeclaredLength(src) <= MAX && 4 + DeclaredLength(src) <= |src| ==>
      d.rest == src[4 + DeclaredLength(src)..]
    // A length over MAX is an error that slices nothing, whatever follows the prefix.
    ensures |src| >= 4 && DeclaredLength(src) > MAX ==> d == Decoded(Err(InvalidData), src)
    // A frame is the deserialization of exactly the L bytes after the prefix.
    ensures d.result.Ok? && d.result.value.Some? ==>
      p.deserialize(src[4..4 + DeclaredLength(src)]) == Some(d.result.value.value)
    // A whole frame within MAX is rejected as InvalidInput exactly when its payload does not deserialize.
    ensures |src| >= 4 && DeclaredLength(src) <= MAX && 4 + DeclaredLength(src) <= |src| ==>
      (d.result == Err(InvalidInput) <==> p.deserialize(src[4..4 + DeclaredLength(src)]).None?)
    ensures d.result.Err? ==> d.result.error in {InvalidData, InvalidInput}
  {
    if |src| < 4 then Decoded(Ok(None), src)
    else
      var length := LeU32(src[..4]);
      if length > MAX then Decoded(Err(InvalidData), src)
      else if |src| < 4 + length then Decoded(Ok(None), src)
      else
        var data := src[4..4 + length];
        var rest := src[4 + length..];
        match p.deserialize(data)
        case Some(v) => Decoded(Ok(Some(v)), rest)
        case None => Decoded(Err(InvalidInput), rest)
  }

  /** `Payload::decode`: inspects `src`, removes one whole frame from its front
      when one is there, and returns it. */
  method Decode<T>(p: Payload<T>, src: BytesMut) returns (r: Result<Option<T>>)
    modifies src
    ensures DecodeStep(p, old(src.data)) == Decoded(r, src.data)
  {
    if |src.data| < 4 {
      return Ok(None);
    }
    var length := LeU32(src.data[..4]);
    if length > MAX {
      return Err(InvalidData);
    }
    if |src.data| < 4 + length {
      // `reserve(4 + length - len)` only grows the capacity.
      return Ok(None);
    }
    var data := src.data[4..4 + length];
    src.Advance(4 + length);
    match p.deserialize(data)
    case Some(v) => r := Ok(Some(v));
    case None => r := Err(InvalidInput);
  }

  /** The bytes `Payload::encode` appends for `item`: the prefix holding the
      payload length, then the payload. */
  function EncodeStep<T>(p: Payload<T>, item: T): (r: Result<seq<byte>>)
    ensures r.Ok? <==> p.serialize(item).Some? && |p.serialize(item).value| <= MAX
    ensures r.Err? ==> r.error == InvalidData
    // The prefix never disagrees with the length of the payload that follows it.
    ensures r.Ok? ==> |r.value| >= 4 && DeclaredLength(r.value) == |r.value| - 4
                      && r.value[4..] == p.serialize(item).value
  {
    match p.serialize(item)
    case None => Err(InvalidData)
    case Some(encoded) =>
      if |encoded| > MAX then Err(InvalidData)
      else
        LeU32OfLeBytes(|encoded|);
        assert (LeBytes(|encoded|) + encoded)[..4] == LeBytes(|encoded|);
        Ok(LeBytes(|encoded|) + encoded)
  }

  /** `Payload::encode`: appends the frame for `item` to `dst`, or fails and
      leaves `dst` as it was. */
  method Encode<T>(p: Payload<T>, item: T, dst: BytesMut) returns (r: Result<()>)
    modifies dst
    ensures EncodeStep(p, item).Ok? ==> r == Ok(()) && dst.data == old(dst.data) + EncodeStep(p, item).value
    ensures EncodeStep(p, item).Err? ==> r == Err(EncodeStep(p, item).error) && dst.data == old(dst.data)
  {
    var serialized := p.serialize(item);
    if serialized.None? {
      return Err(InvalidData);
    }
    var encoded := serialized.value;
    if |encoded| > MAX {
      return Err(InvalidData);
    }
    var lenSlice := LeBytes(|encoded|);
    dst.ExtendFromSlice(lenSlice);
    dst.ExtendFromSlice(encoded);
    r := Ok(());
  }

  /** Decoding a buffer that starts with an encoded item yields that item and
      leaves exactly the bytes that followed it. */
  lemma DecodeEncode<T(!new)>(p: Payload<T>, item: T, tail: seq<byte>)
    requires Symmetric(p)
    requires EncodeStep(p, item).Ok?
    ensures DecodeStep(p, EncodeStep(p, item).value + tail) == Decoded(Ok(Some(item)), tail)
  {
    var enc := EncodeStep(p, item).value;
    var src := enc + tail;
    assert src[..4] == enc[..4];
    var n := |enc|;
    assert src[4..n] == enc[4..];
    assert src[n..] == tail;
  }

  /** Every strict prefix of an encoded frame, down to the empty buffer, is
      "not yet" and is left as it is. */
  lemma DecodeStrictPrefix<T>(p: Payload<T>, item: T, k: nat)
    requires EncodeStep(p, item).Ok?
    requires k < |EncodeStep(p, item).value|
    ensures DecodeStep(p, EncodeStep(p, item).value[..k]) == Decoded(Ok(None), EncodeStep(p, item).value[..k])
  {
    var enc := EncodeStep(p, item).value;
    if k >= 4 {
      assert enc[..k][..4] == enc[..4];
    }
  }

  /** Once a buffer decodes to a frame or an error, bytes appended to it do
      not change the answer and stay behind in the buffer. */
  lemma DecodeAppend<T>(p: Payload<T>, src: seq<byte>, more: seq<byte>)
    requires DecodeStep(p, src).result != Ok(None)
    ensures DecodeStep(p, src + more) == Decoded(DecodeStep(p, src).result, DecodeStep(p, src).rest + more)
  {
    var s := src + more;
    assert s[..4] == src[..4];
    var n := 4 + DeclaredLength(src);
    if DeclaredLength(src) <= MAX {
      assert s[4..n] == src[4..n];
      assert s[n..] == src[n..] + more;
    }
  }
}
