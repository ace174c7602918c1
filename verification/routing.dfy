/**
 * `Router` of `router.rs`: the registry from service discriminators to handlers, and the
 * handshake that reads the first frame of a stream and either dispatches it or answers with
 * a `Tail` frame.
 */
module Routing {
  import opened Wrappers
  import opened Bytes
  import opened Frames
  import opened Statuses
  import opened Errors
  import opened Codec
  import opened Service

  /** The registry. */
  datatype Router = Router(services: map<Id, HandlerId>)

  /** The handler registered under `id`, if any. */
  function Lookup(router: Router, id: Id): (r: Option<HandlerId>)
    ensures r.Some? <==> id in router.services
    ensures r.Some? ==> r.value == router.services[id]
  {
    if id in router.services then Some(router.services[id]) else None
  }

  /** `Router::new`: no service is routable. */
  function New(): (router: Router)
    ensures forall id: Id :: Lookup(router, id) == None
  {
    Router(map[])
  }

  /** `Router::register`: `id` now routes to `handler`; every other id routes as before. */
  function Register(router: Router, id: Id, handler: HandlerId): (r: Router)
    ensures Lookup(r, id) == Some(handler)
    ensures forall other: Id :: other != id ==> Lookup(r, other) == Lookup(router, other)
  {
    Router(router.services[id := handler])
  }

  /** Registering twice under one id leaves only the second handler: last write wins. */
  lemma RegisterOverwrites(router: Router, id: Id, first: HandlerId, second: HandlerId)
    ensures Register(Register(router, id, first), id, second) == Register(router, id, second)
  {
  }

  /** Registrations under distinct ids can be made in either order. */
  lemma RegisterCommutes(router: Router, a: Id, ha: HandlerId, b: Id, hb: HandlerId)
    requires a != b
    ensures Register(Register(router, a, ha), b, hb) == Register(Register(router, b, hb), a, ha)
  {
  }

  /** One `register` call made while building the router. */
  datatype Registration = Registration(serviceId: Id, handler: HandlerId)

  /** The router that `new` followed by the given `register` calls, in order, builds. */
  function Build(regs: seq<Registration>): Router {
    if |regs| == 0 then New()
    else
      var last := regs[|regs| - 1];
      Register(Build(regs[..|regs| - 1]), last.serviceId, last.handler)
  }

  /** The handler of the latest registration under `id`, found by scanning from the front. */
  function LatestFor(regs: seq<Registration>, id: Id): Option<HandlerId> {
    if |regs| == 0 then None
    else
      match LatestFor(regs[1..], id)
      case Some(h) => Some(h)
      case None => if regs[0].serviceId == id then Some(regs[0].handler) else None
  }

  /** The scan agrees with the first registrations and the last one taken separately. */
  lemma {:induction false} LatestForSnoc(regs: seq<Registration>, reg: Registration, id: Id)
    ensures LatestFor(regs + [reg], id)
         == if reg.serviceId == id then Some(reg.handler) else LatestFor(regs, id)
  {
    if |regs| == 0 {
      assert (regs + [reg])[1..] == [];
    } else {
      assert (regs + [reg])[1..] == regs[1..] + [reg];
      LatestForSnoc(regs[1..], reg, id);
    }
  }

  /** A built router routes every id to the handler registered last under it. */
  lemma {:induction false} BuildLookup(regs: seq<Registration>, id: Id)
    ensures Lookup(Build(regs), id) == LatestFor(regs, id)
  {
    if |regs| > 0 {
      var init := regs[..|regs| - 1];
      var last := regs[|regs| - 1];
      BuildLookup(init, id);
      assert init + [last] == regs;
      LatestForSnoc(init, last, id);
    }
  }

  /** What the first poll of the framed receive half produced. */
  datatype FirstRead =
    | EndOfStream             // the stream ended before any frame
    | ReadError(error: NetError)
    | ReadFrame(frame: Frame)

  /**
   * The first item the framed receive half yields when `received` is everything the peer
   * sent before finishing its half: a decoded frame, a decode error, a clean end, or an I/O
   * error for bytes left over at the end.
   */
  function FirstReadOf(codec: Codec, received: Bytes): (first: FirstRead)
    ensures first.EndOfStream? <==> received == []
  {
    var step := Decode(codec, received);
    match step.result
    case Ok(Some(f)) => ReadFrame(f)
    case Err(e) => ReadError(e)
    case Ok(None) => if received == [] then EndOfStream else ReadError(FromIo(IoError(Other)))
  }

  /** The status reported to the peer for an error while reading the head frame. */
  function HandshakeStatus(e: NetError): (s: Status)
    ensures e.Status? ==> s == e.status
    ensures e.StdIo? ==> s == InternalServerError
  {
    match e
    case StdIo(_) => InternalServerError
    case Status(status) => status
  }

  /** No detail of an I/O error reaches the peer: every one is reported alike. */
  lemma IoDetailHidden(a: IoError, b: IoError)
    ensures HandshakeStatus(StdIo(a)) == HandshakeStatus(StdIo(b))
  {
  }

  /** Where the handshake goes from `AwaitingHead`. */
  datatype Handshake =
    | Aborted                   // nothing arrived; nothing is answered
    | Rejected(status: Status)  // the peer is answered with a Tail carrying `status`
    | Accepted(head: HeadFrame) // the head frame goes on to dispatch

  /** The handshake decision, which looks at nothing but the first read. */
  function AwaitHead(first: FirstRead): (h: Handshake)
    ensures h.Aborted? <==> first.EndOfStream?
    ensures h.Accepted? <==> first.ReadFrame? && first.frame.Head?
    ensures h.Accepted? ==> h.head == first.frame.head
    ensures first.ReadFrame? && !first.frame.Head? ==> h == Rejected(HandshakeViolation)
    ensures first.ReadError? ==> h == Rejected(HandshakeStatus(first.error))
  {
    match first
    case EndOfStream => Aborted
    case ReadError(e) => Rejected(HandshakeStatus(e))
    case ReadFrame(Head(head)) => Accepted(head)
    case ReadFrame(_) => Rejected(HandshakeViolation)
  }

  /**
   * Everything outside the router's own logic: the serializer both framed halves use, the
   * outcome of writing to and closing the send half, and what the handlers return.
   */
  datatype Env = Env(
    serde: Serde,
    writeError: Option<IoError>,
    closeError: Option<IoError>,
    behaviour: Behaviour)

  /** The codec both halves are framed with: `MistyCodec::default()`. */
  function StreamCodec(env: Env): (c: Codec)
    ensures c.serde == env.serde && c.maxFrameLength == DefaultMaxFrameLength
  {
    DefaultCodec(env.serde)
  }

  /** What a `send_error` call did on the send half. */
  datatype Reply = Reply(sent: seq<Frame>, wire: Bytes, closed: bool, result: Result<(), NetError>)

  /** The frame that answers a rejected stream with `status`. */
  function TailFor(status: Status): (f: Frame)
    ensures f.Tail? && f.tail.status == AsU16(status)
  {
    Tail(TailFrame(AsU16(status)))
  }

  /**
   * `Router::send_error`: send one `Tail` carrying the status code, then close. A failed
   * send ends the call with that error and the close is never attempted; otherwise the
   * close decides the result.
   */
  function SendError(env: Env, status: Status): (r: Reply)
    ensures r.sent == [] || r.sent == [TailFor(status)]
    ensures r.closed <==> r.sent != []
    ensures r.result.Ok? <==> r.closed && env.closeError.None?
    ensures r.sent == [] ==> r.wire == []
    ensures r.sent != [] ==> Encode(StreamCodec(env), r.sent[0], []) == Ok(r.wire)
    ensures Encode(StreamCodec(env), TailFor(status), []).Err? ==> r.result == Err(Status(MalformedFrame))
    ensures env.writeError.Some? ==> !r.closed && r.result.Err?
    ensures Encode(StreamCodec(env), TailFor(status), []).Ok? && env.writeError.Some? ==>
              r.result == Err(StdIo(env.writeError.value))
    ensures Encode(StreamCodec(env), TailFor(status), []).Ok? && env.writeError.None? ==>
              && r.sent == [TailFor(status)]
              && r.closed
              && r.result == (if env.closeError.Some? then Err(StdIo(env.closeError.value)) else Ok(()))
  {
    var tail := TailFor(status);
    match Encode(StreamCodec(env), tail, [])
    case Err(e) => Reply([], [], false, Err(e))
    case Ok(bytes) =>
      match env.writeError
      case Some(io) => Reply([], [], false, Err(FromIo(io)))
      case None =>
        match env.closeError
        case Some(io) => Reply([tail], bytes, true, Err(FromIo(io)))
        case None => Reply([tail], bytes, true, Ok(()))
  }

  /** The send half works and the codec can frame the `Tail` for `status`. */
  predicate Deliverable(env: Env, status: Status) {
    && env.writeError.None?
    && env.closeError.None?
    && Encode(StreamCodec(env), TailFor(status), []).Ok?
  }

  /** On a working send half the peer gets exactly one `Tail` and the half is closed. */
  lemma SendErrorDelivers(env: Env, status: Status)
    requires Deliverable(env, status)
    ensures SendError(env, status).sent == [TailFor(status)]
    ensures SendError(env, status).closed
    ensures SendError(env, status).result == Ok(())
  {
  }

  /** The observable effect of one `route` call. */
  datatype Outcome = Outcome(
    handshake: Handshake,
    sent: seq<Frame>,
    wire: Bytes,
    closed: bool,
    call: Option<Call>,
    result: Result<(), NetError>)

  /** The part of an outcome that `send_error` produced. */
  function ReplyOf(o: Outcome): Reply {
    Reply(o.sent, o.wire, o.closed, o.result)
  }

  /**
   * `Router::route` for one stream. Only a head frame whose service is registered reaches
   * a handler, which is then invoked once with that head and answers the peer itself; the
   * handler's status does not affect the result.
   */
  function Route(router: Router, first: FirstRead, env: Env): (o: Outcome)
    ensures o.handshake == AwaitHead(first)
    ensures o.call.Some? <==> first.ReadFrame? && first.frame.Head? && first.frame.head.serviceId in router.services
    ensures o.call.Some? ==>
              && o.call.value.head == first.frame.head
              && Lookup(router, first.frame.head.serviceId) == Some(o.call.value.handler)
              && o.call.value.returned == env.behaviour(o.call.value.handler, o.call.value.head)
              && o.sent == [] && o.wire == [] && !o.closed
              && o.result == Ok(())
    ensures first.EndOfStream? ==>
              o == Outcome(Aborted, [], [], false, None, Err(Status(HandshakeViolation)))
    ensures o.handshake.Rejected? ==> ReplyOf(o) == SendError(env, o.handshake.status)
    ensures o.handshake.Accepted? && o.call.None? ==> ReplyOf(o) == SendError(env, ServiceNotFound)
  {
    var handshake := AwaitHead(first);
    match handshake
    case Aborted => Outcome(handshake, [], [], false, None, Err(Status(HandshakeViolation)))
    case Rejected(status) =>
      var reply := SendError(env, status);
      Outcome(handshake, reply.sent, reply.wire, reply.closed, None, reply.result)
    case Accepted(head) =>
      match Lookup(router, head.serviceId)
      case Some(handler) =>
        var call := Invoke(env.behaviour, handler, head);
        Outcome(handshake, [], [], false, Some(call), Ok(()))
      case None =>
        var reply := SendError(env, ServiceNotFound);
        Outcome(handshake, reply.sent, reply.wire, reply.closed, None, reply.result)
  }

  /** A stream that ends before any frame: nothing is sent or closed, the caller gets the error. */
  lemma RouteEndOfStream(router: Router, env: Env)
    ensures var o := Route(router, EndOfStream, env);
            && o.sent == [] && !o.closed && o.call.None?
            && o.result == Err(Status(HandshakeViolation))
  {
  }

  /** A first frame that is `Data` or `Tail` is answered with a `HandshakeViolation` tail. */
  lemma RouteWrongFirstFrame(router: Router, f: Frame, env: Env)
    requires !f.Head?
    ensures var o := Route(router, ReadFrame(f), env);
            && o.call.None?
            && (o.sent == [] || o.sent == [Tail(TailFrame(3))])
            && (Deliverable(env, HandshakeViolation) ==>
                  o.sent == [Tail(TailFrame(3))] && o.closed && o.result == Ok(()))
  {
  }

  /**
   * A failed first read is answered with `InternalServerError` for an I/O error and with
   * the carried status otherwise.
   */
  lemma RouteReadError(router: Router, e: NetError, env: Env)
    ensures var o := Route(router, ReadError(e), env);
            var status := if e.StdIo? then InternalServerError else e.status;
            && o.call.None?
            && (o.sent == [] || o.sent == [Tail(TailFrame(AsU16(status)))])
            && (Deliverable(env, status) ==>
                  o.sent == [Tail(TailFrame(AsU16(status)))] && o.closed && o.result == Ok(()))
  {
  }

  /** A head frame for a registered service is handed to that service's handler, unchanged. */
  lemma RouteKnownService(router: Router, head: HeadFrame, env: Env)
    requires head.serviceId in router.services
    ensures var o := Route(router, ReadFrame(Head(head)), env);
            && o.call == Some(Call(router.services[head.serviceId], head,
                                   env.behaviour(router.services[head.serviceId], head)))
            && o.sent == [] && !o.closed && o.result == Ok(())
  {
  }

  /** A head frame for an unknown service is answered with a `ServiceNotFound` tail. */
  lemma RouteUnknownService(router: Router, head: HeadFrame, env: Env)
    requires head.serviceId !in router.services
    ensures var o := Route(router, ReadFrame(Head(head)), env);
            && o.call.None?
            && (o.sent == [] || o.sent == [Tail(TailFrame(4))])
            && (Deliverable(env, ServiceNotFound) ==>
                  o.sent == [Tail(TailFrame(4))] && o.closed && o.result == Ok(()))
  {
  }

  /** When the `Tail` cannot be written, the close is skipped and the write error is returned. */
  lemma RouteSendFailure(router: Router, first: FirstRead, env: Env)
    requires env.writeError.Some?
    ensures var o := Route(router, first, env);
            o.call.None? ==> !o.closed && o.sent == [] && o.result.Err?
  {
  }

  /** The router never looks at the method discriminator. */
  lemma RouteIgnoresMethodId(router: Router, service: Id, m1: Id, m2: Id, env: Env)
    ensures var o1 := Route(router, ReadFrame(Head(HeadFrame(service, m1))), env);
            var o2 := Route(router, ReadFrame(Head(HeadFrame(service, m2))), env);
            && o1.sent == o2.sent && o1.wire == o2.wire && o1.closed == o2.closed
            && o1.result == o2.result && o1.call.Some? == o2.call.Some?
            && (o1.call.Some? ==> o1.call.value.handler == o2.call.value.handler)
  {
  }

  /** The router's result does not depend on what the invoked handler returns. */
  lemma RouteIgnoresHandlerStatus(router: Router, first: FirstRead, env: Env, other: Behaviour)
    ensures var o1 := Route(router, first, env);
            var o2 := Route(router, first, env.(behaviour := other));
            && o1.sent == o2.sent && o1.closed == o2.closed && o1.result == o2.result
            && o1.call.Some? == o2.call.Some?
  {
  }

  /** The raw detail of an I/O error while reading never changes what the peer is sent. */
  lemma RouteHidesIoDetail(router: Router, a: IoError, b: IoError, env: Env)
    ensures Route(router, ReadError(StdIo(a)), env) == Route(router, ReadError(StdIo(b)), env)
  {
  }

  /** Whatever `route` sends decodes, on the peer's side, to the frames it reports as sent. */
  lemma RouteReplyDecodes(router: Router, first: FirstRead, env: Env)
    requires RoundTrips(env.serde)
    ensures var o := Route(router, first, env);
            DecodeAll(StreamCodec(env), o.wire) == Drained(o.sent, NeedMore([]))
  {
    var o := Route(router, first, env);
    if o.sent != [] {
      RoundTrip(StreamCodec(env), o.sent[0], []);
      assert o.wire + [] == o.wire;
      assert Decode(StreamCodec(env), o.wire) == Decoded(Ok(Some(o.sent[0])), []);
      assert [o.sent[0]] + [] == o.sent;
    }
  }

  /** A client whose first record encodes frame `f` has `f` as the router's first read. */
  lemma FirstReadOfEncoded(env: Env, f: Frame, more: Bytes)
    requires RoundTrips(env.serde)
    requires Encode(StreamCodec(env), f, []).Ok?
    ensures FirstReadOf(StreamCodec(env), Encode(StreamCodec(env), f, []).value + more) == ReadFrame(f)
  {
  }

  /**
   * End to end: a length prefix above the frame limit fails in the length layer, so the
   * peer is told `InternalServerError` (code 7), not `MalformedFrame`.
   */
  lemma OversizePrefixAnsweredAsInternalError(router: Router, received: Bytes, env: Env)
    requires 4 <= |received| && PrefixLength(received) > DefaultMaxFrameLength
    requires Deliverable(env, InternalServerError)
    ensures Route(router, FirstReadOf(StreamCodec(env), received), env).sent == [Tail(TailFrame(7))]
  {
  }

  /** End to end: a complete record that does not deserialize is answered with code 2. */
  lemma CorruptHeadAnsweredAsMalformed(router: Router, payload: Bytes, more: Bytes, env: Env)
    requires |payload| <= DefaultMaxFrameLength
    requires env.serde.deser(payload).None?
    requires Deliverable(env, MalformedFrame)
    ensures Route(router, FirstReadOf(StreamCodec(env), Record(payload) + more), env).sent
         == [Tail(TailFrame(2))]
  {
  }
}
