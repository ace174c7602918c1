/**
 * `MistyCodec` of `codec.rs`: a length-delimited record layer (4-byte big-endian length
 * prefix, bounded record size) around an opaque binary serializer.
 */
module Codec {
  import opened Wrappers
  import opened Bytes
  import opened Frames
  import opened Statuses
  import opened Errors

  /** A record-size bound; the 4-byte length field caps it below 2^32. */
  type FrameLimit = m: nat | m < Two32

  /** The record-size bound of the length layer's default configuration: 8 MiB. */
  const DefaultMaxFrameLength: FrameLimit := 8 * 1024 * 1024

  /**
   * The serializer, as a pair of total functions. Either direction may fail. Nothing is
   * assumed about the byte format.
   */
  datatype Serde = Serde(ser: Frame -> Option<Bytes>, deser: Bytes -> Option<Frame>)

  /** The serializer's one promise: what it writes, it reads back. */
  ghost predicate RoundTrips(serde: Serde) {
    forall f :: serde.ser(f).Some? ==> serde.deser(serde.ser(f).value) == Some(f)
  }

  /** The codec: a serializer and the record-size bound of its length layer. */
  datatype Codec = Codec(serde: Serde, maxFrameLength: FrameLimit)

  /** `MistyCodec::default()`. */
  function DefaultCodec(serde: Serde): (c: Codec)
    ensures c.serde == serde && c.maxFrameLength == 8 * 1024 * 1024
  {
    Codec(serde, DefaultMaxFrameLength)
  }

  /** One length-delimited record: the big-endian payload length, then the payload. */
  function Record(payload: Bytes): (r: Bytes)
    requires |payload| < Two32
    ensures |r| == 4 + |payload|
  {
    ToBigEndian4(|payload|) + payload
  }

  /** A record taken off the front of a buffer, and the bytes behind it. */
  datatype Split = Split(payload: Bytes, rest: Bytes)

  /** The length field at the front of a buffer holding at least four bytes. */
  function PrefixLength(src: Bytes): (n: nat)
    requires 4 <= |src|
    ensures n < Two32
  {
    FromBigEndian4(src[..4])
  }

  /** The length layer's decode: cut one record off the front of `src`. */
  function LengthDecode(max: FrameLimit, src: Bytes): (r: Result<Option<Split>, IoError>)
    ensures r.Err? <==> 4 <= |src| && PrefixLength(src) > max
    ensures r.Err? ==> r.error.kind == InvalidData
    ensures r == Ok(None) <==> |src| < 4 || (PrefixLength(src) <= max && |src| < 4 + PrefixLength(src))
    ensures r.Ok? && r.value.Some? ==>
              && |r.value.value.payload| <= max
              && src == Record(r.value.value.payload) + r.value.value.rest
  {
    if |src| < 4 then Ok(None)
    else
      var n := PrefixLength(src);
      if n > max then Err(IoError(InvalidData))
      else if |src| < 4 + n then Ok(None)
      else
        ToBigEndian4OfValue(src[..4]);
        assert src == src[..4] + src[4..4 + n] + src[4 + n..];
        Ok(Some(Split(src[4..4 + n], src[4 + n..])))
  }

  /** The length layer's encode: append one record to `dst`. */
  function LengthEncode(max: FrameLimit, payload: Bytes, dst: Bytes): (r: Result<Bytes, IoError>)
    ensures r.Ok? <==> |payload| <= max
    ensures r.Ok? ==> |r.value| == |dst| + 4 + |payload|
    ensures r.Ok? ==> r.value[..|dst|] == dst && r.value[|dst|..] == Record(payload)
    ensures r.Err? ==> r.error.kind == InvalidInput
  {
    if |payload| > max then Err(IoError(InvalidInput))
    else
      var out := dst + Record(payload);
      assert out[|dst|..] == Record(payload);
      Ok(out)
  }

  /** A record at the front of a buffer is cut off whole, whatever follows it. */
  lemma LengthDecodeRecord(max: FrameLimit, payload: Bytes, tail: Bytes)
    requires |payload| <= max
    ensures LengthDecode(max, Record(payload) + tail) == Ok(Some(Split(payload, tail)))
  {
  }

  /** The result of one `decode` call, with what is left of the buffer afterwards. */
  datatype Decoded = Decoded(result: Result<Option<Frame>, NetError>, rest: Bytes)

  /**
   * `MistyCodec::decode`. A length-layer failure surfaces through the I/O conversion; a
   * record that does not deserialize fails as `MalformedFrame` after being consumed.
   */
  function Decode(codec: Codec, src: Bytes): (d: Decoded)
    ensures d.result == Ok(None) ==> d.rest == src
    ensures d.result == Ok(None) <==> LengthDecode(codec.maxFrameLength, src) == Ok(None)
    ensures d.result.Err? && d.result.error.StdIo? <==> LengthDecode(codec.maxFrameLength, src).Err?
    ensures d.result.Err? && d.result.error.Status? ==> d.result.error.status == MalformedFrame
    ensures d.result.Ok? && d.result.value.Some? ==>
              && |d.rest| < |src|
              && var split := LengthDecode(codec.maxFrameLength, src).value.value;
              && split.rest == d.rest
              && codec.serde.deser(split.payload) == Some(d.result.value.value)
    ensures LengthDecode(codec.maxFrameLength, src).Err? ==>
              d == Decoded(Err(StdIo(LengthDecode(codec.maxFrameLength, src).error)), src)
    ensures LengthDecode(codec.maxFrameLength, src).Ok? && LengthDecode(codec.maxFrameLength, src).value.Some? ==>
              var split := LengthDecode(codec.maxFrameLength, src).value.value;
              d == match codec.serde.deser(split.payload)
                   case Some(f) => Decoded(Ok(Some(f)), split.rest)
                   case None => Decoded(Err(Status(MalformedFrame)), split.rest)
  {
    match LengthDecode(codec.maxFrameLength, src)
    case Err(io) => Decoded(Err(FromIo(io)), src)
    case Ok(None) => Decoded(Ok(None), src)
    case Ok(Some(split)) =>
      match codec.serde.deser(split.payload)
      case None => Decoded(Err(Status(MalformedFrame)), split.rest)
      case Some(frame) => Decoded(Ok(Some(frame)), split.rest)
  }

  /**
   * `MistyCodec::encode`. Every failure, of the serializer or of the length layer, is
   * reported as `MalformedFrame`; on success exactly one record is appended to `dst`.
   */
  function Encode(codec: Codec, item: Frame, dst: Bytes): (r: Result<Bytes, NetError>)
    ensures r.Err? ==> r.error == Status(MalformedFrame)
    ensures r.Ok? <==> codec.serde.ser(item).Some? && |codec.serde.ser(item).value| <= codec.maxFrameLength
    ensures r.Ok? ==> |r.value| == |dst| + 4 + |codec.serde.ser(item).value|
    ensures r.Ok? ==> r.value[..|dst|] == dst && r.value[|dst|..] == Record(codec.serde.ser(item).value)
  {
    match codec.serde.ser(item)
    case None => Err(Status(MalformedFrame))
    case Some(payload) =>
      match LengthEncode(codec.maxFrameLength, payload, dst)
      case Err(_) => Err(Status(MalformedFrame))
      case Ok(out) => Ok(out)
  }

  /**
   * Round trip: the bytes `Encode` appends decode to the same frame and leave exactly what
   * followed them.
   */
  lemma RoundTrip(codec: Codec, f: Frame, tail: Bytes)
    requires RoundTrips(codec.serde)
    requires Encode(codec, f, []).Ok?
    ensures Decode(codec, Encode(codec, f, []).value + tail) == Decoded(Ok(Some(f)), tail)
  {
  }

  /**
   * The error asymmetry: a length prefix above the bound fails decoding as an I/O error and
   * leaves the buffer alone, while a payload above the bound fails encoding as
   * `MalformedFrame`.
   */
  lemma OversizeAsymmetry(codec: Codec, src: Bytes, f: Frame)
    requires 4 <= |src| && PrefixLength(src) > codec.maxFrameLength
    requires codec.serde.ser(f).Some? && |codec.serde.ser(f).value| > codec.maxFrameLength
    ensures Decode(codec, src) == Decoded(Err(StdIo(IoError(InvalidData))), src)
    ensures Encode(codec, f, []) == Err(Status(MalformedFrame))
  {
  }

  /** A complete record whose payload does not deserialize fails as `MalformedFrame`. */
  lemma CorruptRecordIsMalformed(codec: Codec, payload: Bytes, tail: Bytes)
    requires |payload| <= codec.maxFrameLength
    requires codec.serde.deser(payload).None?
    ensures Decode(codec, Record(payload) + tail) == Decoded(Err(Status(MalformedFrame)), tail)
  {
  }

  /** A complete record whose payload deserializes yields that frame and consumes the record. */
  lemma RecordDecodes(codec: Codec, payload: Bytes, tail: Bytes, f: Frame)
    requires |payload| <= codec.maxFrameLength
    requires codec.serde.deser(payload) == Some(f)
    ensures Decode(codec, Record(payload) + tail) == Decoded(Ok(Some(f)), tail)
  {
    LengthDecodeRecord(codec.maxFrameLength, payload, tail);
  }

  /** Why a run of decode calls stopped. */
  datatype Stop =
    | NeedMore(pending: Bytes)  // no complete record left; these bytes wait for more input
    | Failed(error: NetError)    // the first error; a framed stream yields nothing after it

  /** The frames a run of decode calls produced, and why it stopped. */
  datatype Drained = Drained(frames: seq<Frame>, stop: Stop)

  /** Calls `Decode` on a buffer until it asks for more input or fails. */
  function DecodeAll(codec: Codec, src: Bytes): (d: Drained)
    decreases |src|
  {
    var step := Decode(codec, src);
    match step.result
    case Err(e) => Drained([], Failed(e))
    case Ok(None) => Drained([], NeedMore(src))
    case Ok(Some(f)) =>
      var more := DecodeAll(codec, step.rest);
      Drained([f] + more.frames, more.stop)
  }

  /** Resuming a run that stopped for lack of input, once `more` bytes have arrived. */
  function Resume(codec: Codec, d: Drained, more: Bytes): Drained {
    match d.stop
    case Failed(_) => d
    case NeedMore(pending) =>
      var next := DecodeAll(codec, pending + more);
      Drained(d.frames + next.frames, next.stop)
  }

  /** A decode step that made progress on `a` makes the same progress on `a + b`. */
  lemma DecodeExtend(codec: Codec, a: Bytes, b: Bytes)
    requires Decode(codec, a).result != Ok(None)
    ensures Decode(codec, a + b) == Decoded(Decode(codec, a).result, Decode(codec, a).rest + b)
  {
    var max := codec.maxFrameLength;
    assert (a + b)[..4] == a[..4];
    match LengthDecode(max, a)
    case Err(_) =>
    case Ok(Some(split)) =>
      assert a + b == Record(split.payload) + (split.rest + b);
      LengthDecodeRecord(max, split.payload, split.rest + b);
  }

  /**
   * Splitting the input anywhere does not change the decoded frames: draining `a + b` is
   * draining `a` and then resuming with `b`.
   */
  lemma {:induction false} DecodeAllAppend(codec: Codec, a: Bytes, b: Bytes)
    ensures DecodeAll(codec, a + b) == Resume(codec, DecodeAll(codec, a), b)
    decreases |a|, 1
  {
    var step := Decode(codec, a);
    if step.result == Ok(None) {
      assert DecodeAll(codec, a) == Drained([], NeedMore(a));
    } else if step.result.Err? {
      DecodeExtend(codec, a, b);
    } else {
      DecodeAllAppendAfterFrame(codec, a, b);
    }
  }

  /** The inductive case of `DecodeAllAppend`: `a` starts with a complete, valid record. */
  lemma {:induction false} DecodeAllAppendAfterFrame(codec: Codec, a: Bytes, b: Bytes)
    requires Decode(codec, a).result.Ok? && Decode(codec, a).result.value.Some?
    ensures DecodeAll(codec, a + b) == Resume(codec, DecodeAll(codec, a), b)
    decreases |a|, 0
  {
    var step := Decode(codec, a);
    var f := step.result.value.value;
    DecodeExtend(codec, a, b);
    UnfoldAfterFrame(codec, a);
    UnfoldAfterFrame(codec, a + b);
    DecodeAllAppend(codec, step.rest, b);
    ResumeAfterFrames(codec, [f], DecodeAll(codec, step.rest), b);
  }

  /** One unfolding of `DecodeAll` past a decoded frame. */
  lemma UnfoldAfterFrame(codec: Codec, src: Bytes)
    requires Decode(codec, src).result.Ok? && Decode(codec, src).result.value.Some?
    ensures var step := Decode(codec, src);
            var more := DecodeAll(codec, step.rest);
            DecodeAll(codec, src) == Drained([step.result.value.value] + more.frames, more.stop)
  {
  }

  /** Resuming commutes with putting frames in front of the run. */
  lemma ResumeAfterFrames(codec: Codec, prefix: seq<Frame>, d: Drained, more: Bytes)
    ensures Resume(codec, Drained(prefix + d.frames, d.stop), more)
         == Drained(prefix + Resume(codec, d, more).frames, Resume(codec, d, more).stop)
  {
    if d.stop.NeedMore? {
      var next := DecodeAll(codec, d.stop.pending + more);
      assert prefix + (d.frames + next.frames) == (prefix + d.frames) + next.frames;
    }
  }

  /** A run that stopped for lack of input left bytes that decode to nothing on their own. */
  lemma {:induction false} PendingIsIncomplete(codec: Codec, src: Bytes)
    ensures DecodeAll(codec, src).stop.NeedMore? ==>
              var pending := DecodeAll(codec, src).stop.pending;
              DecodeAll(codec, pending) == Drained([], NeedMore(pending))
    decreases |src|
  {
    var step := Decode(codec, src);
    if step.result.Ok? && step.result.value.Some? {
      PendingIsIncomplete(codec, step.rest);
    }
  }

  /** The bytes of a sequence of chunks laid end to end. */
  function Concat(chunks: seq<Bytes>): Bytes {
    if |chunks| == 0 then [] else chunks[0] + Concat(chunks[1..])
  }

  /** Resuming with `chunk + rest` is resuming with `chunk`, then with `rest`. */
  lemma ResumeChunk(codec: Codec, frames: seq<Frame>, pending: Bytes, chunk: Bytes, rest: Bytes)
    ensures Resume(codec, Drained(frames, NeedMore(pending)), chunk + rest)
         == Resume(codec, Resume(codec, Drained(frames, NeedMore(pending)), chunk), rest)
  {
    var buffer := pending + chunk;
    assert pending + (chunk + rest) == buffer + rest;
    DecodeAllAppend(codec, buffer, rest);
    ResumeAfterFrames(codec, frames, DecodeAll(codec, buffer), rest);
  }

  /** Resuming a run with no new bytes changes nothing once its pending bytes are incomplete. */
  lemma ResumeNothing(codec: Codec, d: Drained)
    requires d.stop.NeedMore? ==> DecodeAll(codec, d.stop.pending) == Drained([], NeedMore(d.stop.pending))
    ensures Resume(codec, d, []) == d
  {
  }

  /** Resuming an empty run with some bytes is decoding those bytes. */
  lemma ResumeFromStart(codec: Codec, src: Bytes)
    ensures Resume(codec, Drained([], NeedMore([])), src) == DecodeAll(codec, src)
  {
    assert [] + src == src;
    assert [] + DecodeAll(codec, src).frames == DecodeAll(codec, src).frames;
  }

  /** One iteration of `Feed`: the chunk joins the pending bytes and everything complete is decoded. */
  lemma FeedChunk(codec: Codec, whole: Drained, frames: seq<Frame>, pending: Bytes, chunks: seq<Bytes>, i: nat)
    requires i < |chunks|
    requires whole == Resume(codec, Drained(frames, NeedMore(pending)), Concat(chunks[i..]))
    ensures var run := DecodeAll(codec, pending + chunks[i]);
            && whole == Resume(codec, Drained(frames + run.frames, run.stop), Concat(chunks[i + 1..]))
            && (run.stop.NeedMore? ==> DecodeAll(codec, run.stop.pending) == Drained([], NeedMore(run.stop.pending)))
  {
    assert Concat(chunks[i..]) == chunks[i] + Concat(chunks[i + 1..]);
    ResumeChunk(codec, frames, pending, chunks[i], Concat(chunks[i + 1..]));
    PendingIsIncomplete(codec, pending + chunks[i]);
  }

  /**
   * A framed reader: append each arriving chunk to the buffer, decode every complete
   * record, stop for good at the first error. Whatever the split of the input into chunks,
   * it yields what decoding the whole input at once yields.
   */
  method Feed(codec: Codec, chunks: seq<Bytes>) returns (frames: seq<Frame>, stop: Stop)
    ensures Drained(frames, stop) == DecodeAll(codec, Concat(chunks))
  {
    ghost var whole := DecodeAll(codec, Concat(chunks));
    frames := [];
    stop := NeedMore([]);
    var i := 0;
    assert chunks[i..] == chunks;
    ResumeFromStart(codec, Concat(chunks));
    while i < |chunks| && stop.NeedMore?
      invariant 0 <= i <= |chunks|
      invariant stop.NeedMore? ==> DecodeAll(codec, stop.pending) == Drained([], NeedMore(stop.pending))
      invariant whole == Resume(codec, Drained(frames, stop), Concat(chunks[i..]))
    {
      FeedChunk(codec, whole, frames, stop.pending, chunks, i);
      var run := DecodeAll(codec, stop.pending + chunks[i]);
      frames := frames + run.frames;
      stop := run.stop;
      i := i + 1;
    }
    if stop.NeedMore? {
      assert chunks[i..] == [];
    }
    ResumeNothing(codec, Drained(frames, stop));
  }

  /** Encodes frames back to back into one buffer; fails with the first failing frame. */
  function EncodeAll(codec: Codec, frames: seq<Frame>): (r: Result<Bytes, NetError>)
    ensures r.Err? ==> r.error == Status(MalformedFrame)
  {
    if |frames| == 0 then Ok([])
    else
      match Encode(codec, frames[0], [])
      case Err(e) => Err(e)
      case Ok(first) =>
        match EncodeAll(codec, frames[1..])
        case Err(e) => Err(e)
        case Ok(more) => Ok(first + more)
  }

  /** A stream of encoded frames decodes to exactly those frames, leaving nothing behind. */
  lemma {:induction false} EncodeAllRoundTrip(codec: Codec, frames: seq<Frame>)
    requires RoundTrips(codec.serde)
    requires EncodeAll(codec, frames).Ok?
    ensures DecodeAll(codec, EncodeAll(codec, frames).value) == Drained(frames, NeedMore([]))
  {
    if |frames| > 0 {
      var first := Encode(codec, frames[0], []).value;
      var more := EncodeAll(codec, frames[1..]).value;
      assert EncodeAll(codec, frames).value == first + more;
      RoundTrip(codec, frames[0], more);
      UnfoldAfterFrame(codec, first + more);
      EncodeAllRoundTrip(codec, frames[1..]);
      assert [frames[0]] + frames[1..] == frames;
    }
  }
}
