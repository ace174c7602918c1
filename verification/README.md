# misty-net protocol layer, modelled in Dafny

This project models the transport/protocol core of the `misty-net` crate: the RPC layer that
turns a pair of ordered byte streams into one typed request/response exchange between a
client and a registered service handler. It covers four parts:

- **Status taxonomy** (`statuses.dfy`). There are eight named outcomes plus `Custom(code)`.
  `AsU16` is the one numeric code that goes on the wire. `Display` gives the names.
- **Frames** (`frames.dfy`). A frame is `Head`, `Data` or `Tail`. A stream must follow
  `Head, Data*, Tail`. This file holds that grammar and a frame-by-frame order checker proved
  equal to it. The types carry the field widths: both ids are exactly 32 bytes, a `Tail` code
  fits in 16 bits, and a `Data` payload is any byte sequence, including the empty one.
- **Codec** (`codec.dfy`, `errors.dfy`, `bytes.dfy`). `MistyCodec` is a length-delimited
  record layer wrapped around an opaque serializer:
  - each record is a 4-byte big-endian length prefix followed by the payload;
  - the default record limit is 8 MiB;
  - `NetError` is `StdIo | Status`.

  The file also models a framed reader (`DecodeAll`, `Feed`) that decodes every complete
  record as bytes arrive.
- **Router** (`routing.dfy`, `service.dfy`). It holds the registry from
  32-byte service ids to handlers. `Route` is the handshake and dispatch of one stream,
  written as a pure function. Its inputs are:
  - the first read;
  - the registry;
  - the environment: the serializer, the outcome of writing and of closing the send half,
    and what handlers return.

  Its output is an outcome record: the handshake state reached, the frames sent and their
  bytes, whether the send half was closed, the handler call made (if any), and the result.

Things to know:
- **Two code tables.** The `Status` declaration gives discriminants in which
  `HandshakeViolation = 2` and `MalformedFrame = 3`, but `as_u16` maps them the other way
  round. Only `as_u16` reaches the wire, so the model uses `AsU16` everywhere.
  `DeclaredDiscriminant` exists only so that `DiscriminantsSwapTwoCodes` can pin down the
  disagreement.
- **Codec errors are not all `MalformedFrame`.** One might expect every codec failure to
  become `MalformedFrame`, and the model does not follow that reading. It follows the code:
  - a length-layer decode failure (a prefix above the limit) passes through `?` and the
    I/O-error conversion as `StdIo`, and the router answers it with `InternalServerError`
    (code 7);
  - only deserialization failures, and every encode failure, are `Status(MalformedFrame)`.

  `OversizeAsymmetry` and `OversizePrefixAnsweredAsInternalError` state this.
- **The serializer is a parameter.** It is a pair of total functions
  `Serde(ser, deser)`, and either direction may fail. Its round-trip property is the
  predicate `RoundTrips`, used as a hypothesis wherever it is needed.

## Model

| member | source | states |
|---|---|---|
| `Bytes.ToBigEndian4` | crates/misty-net/src/codec.rs:43-46 | the length prefix is exactly 4 bytes and reads back as the length it encodes |
| `Bytes.ToBigEndian4OfValue` | crates/misty-net/src/codec.rs:16-17 | reading any 4-byte prefix and re-encoding the value gives the same 4 bytes back, so a prefix is determined by its value |
| `Statuses.AsU16` | crates/misty-net/src/status.rs:19-31 | a `Custom(c)` status maps to `c` unchanged; every named status maps below 8, to the code whose reading `FromCode` is that status (Success 0, ProtocolFailure 1, MalformedFrame 2, HandshakeViolation 3, ServiceNotFound 4, MethodNotFound 5, InvalidDataFrame 6, InternalServerError 7) |
| `Statuses.IntoU16` | crates/misty-net/src/status.rs:34-38 | `u16::from(s)` equals `s.as_u16()` for every status |
| `Statuses.DeclaredDiscriminant` | crates/misty-net/src/status.rs:7-15 | the declared discriminants of the eight named statuses lie below 8, and `Custom` takes the next one, 8 |
| `Statuses.DiscriminantsSwapTwoCodes` | crates/misty-net/src/status.rs:7-15 | the declared discriminants differ from `as_u16` on exactly `HandshakeViolation` and `MalformedFrame`, whose codes are swapped |
| `Statuses.AsU16FromCode` | crates/misty-net/src/status.rs:19-31 | every 16-bit code is `as_u16` of some status, namely its canonical reading |
| `Statuses.FromCodeAsU16` | crates/misty-net/src/status.rs:29 | a status is recovered from its code exactly when it is not a `Custom(c)` with `c < 8` |
| `Statuses.NamedCodesDistinct` | crates/misty-net/src/status.rs:21-28 | on the eight named statuses `as_u16` is injective |
| `Statuses.CustomShadowsNamed` | crates/misty-net/src/status.rs:29 | `Custom(c)` with `c < 8` has the same code as a different, named status, so `as_u16` is not injective over all statuses |
| `Statuses.Display` | crates/misty-net/src/status.rs:40-53 | a custom status renders as `CUSTOM(` ... `)`; no named status's name starts with `C` |
| `Statuses.DisplayCustomCode` | crates/misty-net/src/status.rs:51 | the text between the parentheses of `CUSTOM(...)` is a decimal numeral whose value is the code |
| `Statuses.DisplayInjective` | crates/misty-net/src/status.rs:42-52 | distinct statuses have distinct display names, custom codes included |
| `Decimal.Render` | crates/misty-net/src/status.rs:51 | the numeral is non-empty, all digits, and has no leading zero; it is one digit exactly for values below 10 |
| `Decimal.ParseRender` | crates/misty-net/src/status.rs:51 | parsing the rendered numeral gives back the number |
| `Decimal.RenderInjective` | crates/misty-net/src/status.rs:51 | distinct codes render to distinct numerals |
| `Frames.WellFormed` | crates/misty-net/src/frame.rs:5-31 | an exchange that follows the protocol has at least two frames, opens with a `Head` and closes with a `Tail` |
| `Frames.WellFormedCounts` | crates/misty-net/src/frame.rs:5-31 | a `Head, Data*, Tail` stream contains exactly one `Head` and exactly one `Tail` |
| `Frames.NotHeadFirstIllFormed` | crates/misty-net/src/frame.rs:6-7 | a sequence that is empty or does not start with `Head` is not a well-formed stream |
| `Frames.RunCharacterised` | crates/misty-net/src/frame.rs:5-31 | the frame-by-frame checker ends in `Finished` exactly on well-formed streams, and stays open exactly on `Head, Data*` prefixes |
| `Frames.CheckOrder` | crates/misty-net/src/frame.rs:5-31 | the checker accepts a frame sequence if and only if it is `Head, Data*, Tail` |
| `Errors.FromIo` | crates/misty-net/src/error.rs:7 | every I/O error converts into the `StdIo` variant carrying that error, never into `Status` |
| `Codec.DefaultCodec` | crates/misty-net/src/codec.rs:6-9 | the default codec uses the 8 MiB record limit of the default length layer |
| `Codec.Record` | crates/misty-net/src/codec.rs:43-46 | a record is four bytes longer than its payload |
| `Codec.LengthDecode` | crates/misty-net/src/codec.rs:17-20 | fewer than 4 bytes, or a prefix not yet followed by its payload, gives no record; a prefix above the limit is an `InvalidData` I/O error; otherwise the buffer is a record of at most the limit followed by the rest |
| `Codec.LengthEncode` | crates/misty-net/src/codec.rs:44-50 | fails with `InvalidInput` exactly when the payload exceeds the limit; otherwise keeps `dst` and appends exactly one record |
| `Codec.LengthDecodeRecord` | crates/misty-net/src/codec.rs:17-20 | a record within the limit is cut off whole from the front of any buffer |
| `Codec.Decode` | crates/misty-net/src/codec.rs:15-29 | incomplete input yields no frame and leaves the buffer untouched; a length-layer failure is returned as `StdIo` carrying that same I/O error, with the buffer untouched; a complete record whose payload deserializes to `f` yields exactly `f` and leaves the bytes after the record; one whose payload does not deserialize yields `MalformedFrame` and leaves the bytes after the record |
| `Codec.Encode` | crates/misty-net/src/codec.rs:35-51 | every failure is `Status(MalformedFrame)`; it succeeds exactly when the serializer succeeds within the limit; on success `dst` is kept and one record of the serialized frame is appended |
| `Codec.RoundTrip` | crates/misty-net/src/codec.rs:15-51 | for a round-tripping serializer, decoding the encoded frame, whatever follows it, gives that frame and leaves exactly the bytes that followed |
| `Codec.OversizeAsymmetry` | crates/misty-net/src/codec.rs:17-50 | an oversize prefix fails decoding as an `InvalidData` I/O error without consuming input; an oversize payload fails encoding as `MalformedFrame` |
| `Codec.CorruptRecordIsMalformed` | crates/misty-net/src/codec.rs:23-28 | a complete record whose payload does not deserialize fails as `MalformedFrame` and is consumed; no partial frame is produced |
| `Codec.RecordDecodes` | crates/misty-net/src/codec.rs:23-28 | a complete record within the limit whose payload deserializes to `f` decodes to `f`, leaving exactly the bytes that follow it |
| `Codec.DecodeExtend` | crates/misty-net/src/codec.rs:17-28 | a decode step that produced a frame or an error on a buffer does the same when more bytes are appended |
| `Codec.DecodeAllAppend` | crates/misty-net/src/codec.rs:17-20 | decoding `a + b` equals decoding `a` and then resuming with `b` |
| `Codec.PendingIsIncomplete` | crates/misty-net/src/codec.rs:17-20 | bytes left waiting after a run of decodes contain no complete record |
| `Codec.ResumeChunk` | crates/misty-net/src/codec.rs:17-20 | resuming with two chunks at once equals resuming with them one after the other |
| `Codec.Feed` | crates/misty-net/src/codec.rs:15-29 | feeding the input in any split into chunks yields the same frames and the same stopping reason as decoding it whole |
| `Codec.EncodeAll` | crates/misty-net/src/codec.rs:35-51 | encoding a sequence of frames fails only with `MalformedFrame` |
| `Codec.EncodeAllRoundTrip` | crates/misty-net/src/codec.rs:15-51 | frames encoded back to back decode to exactly those frames, with nothing left over |
| `Service.Invoke` | crates/misty-net/src/server/service.rs:11-16 | the handler named is the one that runs, and it receives exactly the head frame the router read |
| `Routing.New` | crates/misty-net/src/server/router.rs:15-19 | a new router routes no service id |
| `Routing.Lookup` | crates/misty-net/src/server/router.rs:84 | a service id finds a handler exactly when it is registered, and then finds the handler registered for it |
| `Routing.Register` | crates/misty-net/src/server/router.rs:22-27 | after registration the id routes to the new handler, and every other id routes as before |
| `Routing.RegisterOverwrites` | crates/misty-net/src/server/router.rs:26 | re-registering an id replaces the earlier handler: last write wins |
| `Routing.RegisterCommutes` | crates/misty-net/src/server/router.rs:26 | registrations under distinct ids are independent of their order |
| `Routing.BuildLookup` | crates/misty-net/src/server/router.rs:22-27 | a router built by a sequence of registrations routes each id to the handler registered last under it |
| `Routing.FirstReadOf` | crates/misty-net/src/server/router.rs:47 | the first read is the end of the stream exactly when the peer sent nothing |
| `Routing.HandshakeStatus` | crates/misty-net/src/server/router.rs:59-68 | an I/O error is reported as `InternalServerError`; a status error is reported as its own status |
| `Routing.IoDetailHidden` | crates/misty-net/src/server/router.rs:60-63 | all I/O errors are reported alike, so no I/O detail reaches the peer |
| `Routing.AwaitHead` | crates/misty-net/src/server/router.rs:47-81 | end of stream aborts; a `Head` is accepted with that head; a `Data` or `Tail` is rejected with `HandshakeViolation`; a read error is rejected with its handshake status |
| `Routing.StreamCodec` | crates/misty-net/src/server/router.rs:42-43 | both halves of the stream use the default codec: the length limit is 8 MiB and the serializer is the one the server was built with |
| `Routing.TailFor` | crates/misty-net/src/server/router.rs:104-106 | the reply frame is a `Tail` whose code is `as_u16` of the status |
| `Routing.SendError` | crates/misty-net/src/server/router.rs:96-113 | at most one `Tail` with the status code is sent; a tail that cannot be encoded is `MalformedFrame` and nothing is sent; a failed write returns its I/O error and skips the close; when the write succeeds exactly that `Tail` is sent, the half is closed, and the result is `Ok` or the close's I/O error; the bytes written are the encoded `Tail` |
| `Routing.SendErrorDelivers` | crates/misty-net/src/server/router.rs:109-112 | on a working send half exactly one `Tail` is sent, the half is closed and the result is `Ok` |
| `Routing.Route` | crates/misty-net/src/server/router.rs:36-92 | a handler is called if and only if the first read is a `Head` with a registered service id; that handler is called once, with that head, and the router then sends nothing, closes nothing and returns `Ok`; end of stream sends nothing and returns `HandshakeViolation`; every rejection is answered through `send_error` |
| `Routing.RouteEndOfStream` | crates/misty-net/src/server/router.rs:77-80 | a stream that ends before any frame: nothing is sent or closed, no handler runs, and the result is `Err(Status(HandshakeViolation))` |
| `Routing.RouteWrongFirstFrame` | crates/misty-net/src/server/router.rs:50-57 | a first `Data` or `Tail` frame sends at most one `Tail` with code 3, and on a working send half exactly that, then closes and returns `Ok` |
| `Routing.RouteReadError` | crates/misty-net/src/server/router.rs:58-76 | a first read error sends at most one `Tail`, carrying code 7 for an I/O error and the error's own status code otherwise; on a working send half exactly one is sent and the half is closed |
| `Routing.RouteKnownService` | crates/misty-net/src/server/router.rs:84-85 | a registered service's handler is invoked once with the exact head frame; the router sends and closes nothing and returns `Ok` |
| `Routing.RouteUnknownService` | crates/misty-net/src/server/router.rs:86-89 | an unregistered service id invokes no handler and sends at most one `Tail` with code 4, and on a working send half exactly that, then closes and returns `Ok` |
| `Routing.RouteSendFailure` | crates/misty-net/src/server/router.rs:109-110 | when the `Tail` cannot be written, nothing is closed and the call fails |
| `Routing.RouteIgnoresMethodId` | crates/misty-net/src/server/router.rs:84 | two heads that differ only in `method_id` are routed identically, to the same handler |
| `Routing.RouteIgnoresHandlerStatus` | crates/misty-net/src/server/router.rs:85-91 | what the handler returns changes neither the frames sent nor the close nor the router's result |
| `Routing.RouteHidesIoDetail` | crates/misty-net/src/server/router.rs:59-63 | two different I/O errors on the first read lead to identical outcomes |
| `Routing.RouteReplyDecodes` | crates/misty-net/src/server/router.rs:104-109 | for a round-tripping serializer the bytes written decode, on the peer's side, to exactly the frames reported as sent |
| `Routing.FirstReadOfEncoded` | crates/misty-net/src/server/router.rs:42-49 | when the client's first record encodes a frame, the router's first read is that frame |
| `Routing.OversizePrefixAnsweredAsInternalError` | crates/misty-net/src/server/router.rs:58-76 | a first length prefix above the limit is answered with a `Tail` of code 7, not code 2 |
| `Routing.CorruptHeadAnsweredAsMalformed` | crates/misty-net/src/server/router.rs:58-76 | a complete first record that does not deserialize is answered with a `Tail` of code 2 |

## Left out

- The async plumbing (quinn streams, tokio `Framed`, `SinkExt`/`StreamExt`, `await`) is left out. `Route` takes the first read as a value. The outcomes of writing and of closing the send half are parameters in `Env`.
- The MessagePack bytes produced by `rmp_serde` are not modelled, because that encoding belongs to a foreign library. The serializer is the parameter `Serde`, and its round trip is the hypothesis `RoundTrips`.
- The length layer's internal state is not modelled. The library keeps a parsed length prefix between calls; the model recomputes everything from the unconsumed bytes. The frames produced are the same either way.
- `Routing.FirstReadOf`: a stream that ends right after a complete length prefix is reported as leftover bytes, an I/O error. The library has already consumed that prefix into its internal state and can report a clean end instead.
- `Service.Invoke`: the handler's exchange of `Data` frames and its own `Tail` over the streams it now owns are not modelled. Those belong to generated service code. Only the status it returns is observed.
- Concurrency is not modelled: many streams dispatched at once, and the registry and handlers shared across tasks. One `route` call is treated as sequential.
- `tracing` instrumentation is not modelled. Neither is the `message` argument of `send_error`, which is only logged and never sent.
- The derived `Debug`, `Clone`, `Hash`, `PartialOrd`/`Ord` and `Serialize` implementations of `Status` are left out. None of them takes part in the protocol decisions modelled here.
- The client side (`mod client` in crates/misty-net/src/lib.rs) is not part of this model.
- The schema parser, the validator and code generation (misty-parser, misty-ast, misty-core, misty-codegen-rs) are left out. They are a separate compiler front end that only produces the 32-byte discriminators.
- Platform integer widths are not modelled beyond what matters. The record limit is kept below 2^32, which matches the library clamping the limit to the width of the 4-byte field.
