/**
 * The `MistyService::handle` capability of `service.rs`. A handler is known to the model by
 * its identity and by the terminal status it returns for a given head frame.
 */
module Service {
  import opened Frames
  import opened Statuses

  /** The identity of a registered service implementation. */
  datatype HandlerId = HandlerId(tag: nat)

  /**
   * What every handler does with a call, as far as the router can observe: it consumes the
   * head frame (and both framed halves of the stream) and returns one terminal status.
   */
  type Behaviour = (HandlerId, HeadFrame) -> Status

  /** One invocation of `handle`: which handler ran, on which head, and what it returned. */
  datatype Call = Call(handler: HandlerId, head: HeadFrame, returned: Status)

  /** Runs `handler` on `head`; the handler receives the very head frame the router read. */
  function Invoke(behaviour: Behaviour, handler: HandlerId, head: HeadFrame): (c: Call)
    ensures c.handler == handler && c.head == head
  {
    Call(handler, head, behaviour(handler, head))
  }
}
