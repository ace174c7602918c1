/** The status taxonomy of `status.rs`: eight named outcomes plus application codes. */
module Statuses {
  import opened Bytes
  import Decimal

  datatype Status =
    | Success
    | ProtocolFailure
    | HandshakeViolation
    | MalformedFrame
    | ServiceNotFound
    | MethodNotFound
    | InvalidDataFrame
    | InternalServerError
    | Custom(code: U16)

  /** The eight outcomes the protocol itself names. */
  predicate IsNamed(s: Status) {
    !s.Custom?
  }

  /** `Status::as_u16`: the one numeric code that goes on the wire. */
  function AsU16(s: Status): (c: U16)
    ensures s.Custom? ==> c == s.code
    ensures IsNamed(s) ==> c < 8 && FromCode(c) == s
  {
    match s
    case Success => 0
    case ProtocolFailure => 1
    case MalformedFrame => 2
    case HandshakeViolation => 3
    case ServiceNotFound => 4
    case MethodNotFound => 5
    case InvalidDataFrame => 6
    case InternalServerError => 7
    case Custom(code) => code
  }

  /** `impl From<Status> for u16`: the conversion delegates to `AsU16`. */
  function IntoU16(s: Status): (c: U16)
    ensures c == AsU16(s)
  {
    AsU16(s)
  }

  /**
   * The discriminants written in the enum declaration. `Custom` carries no explicit one, so
   * it gets the previous discriminant plus one. These numbers never reach the wire.
   */
  function DeclaredDiscriminant(s: Status): (d: U16)
    ensures IsNamed(s) ==> d < 8
    ensures s.Custom? ==> d == 8
  {
    match s
    case Success => 0
    case ProtocolFailure => 1
    case HandshakeViolation => 2
    case MalformedFrame => 3
    case ServiceNotFound => 4
    case MethodNotFound => 5
    case InvalidDataFrame => 6
    case InternalServerError => 7
    case Custom(_) => 8
  }

  /**
   * The declared discriminants agree with `AsU16` on every named variant except
   * `HandshakeViolation` and `MalformedFrame`, whose two codes are swapped.
   */
  lemma DiscriminantsSwapTwoCodes(s: Status)
    requires IsNamed(s)
    ensures DeclaredDiscriminant(s) != AsU16(s) <==> s == HandshakeViolation || s == MalformedFrame
    ensures DeclaredDiscriminant(HandshakeViolation) == AsU16(MalformedFrame)
    ensures DeclaredDiscriminant(MalformedFrame) == AsU16(HandshakeViolation)
  {
  }

  /**
   * The canonical reading of a code: codes below 8 are the named outcomes, the rest are
   * application codes. `status.rs` defines no inverse of `as_u16`; this one is the reference
   * against which the properties of `AsU16` are stated.
   */
  function FromCode(c: U16): (s: Status)
    ensures IsNamed(s) <==> c < 8
  {
    if c == 0 then Success
    else if c == 1 then ProtocolFailure
    else if c == 2 then MalformedFrame
    else if c == 3 then HandshakeViolation
    else if c == 4 then ServiceNotFound
    else if c == 5 then MethodNotFound
    else if c == 6 then InvalidDataFrame
    else if c == 7 then InternalServerError
    else Custom(c)
  }

  /** Every 16-bit code is the code of some status. */
  lemma AsU16FromCode(c: U16)
    ensures AsU16(FromCode(c)) == c
  {
  }

  /**
   * A status is recovered from its code exactly when it is not an application code that
   * shadows one of the named codes.
   */
  lemma FromCodeAsU16(s: Status)
    ensures FromCode(AsU16(s)) == s <==> !(s.Custom? && s.code < 8)
  {
  }

  /** Restricted to the named outcomes, `AsU16` is injective. */
  lemma NamedCodesDistinct(a: Status, b: Status)
    requires IsNamed(a) && IsNamed(b)
    ensures AsU16(a) == AsU16(b) ==> a == b
  {
  }

  /** Over all statuses `AsU16` is not injective: `Custom(c)` with `c < 8` collides. */
  lemma CustomShadowsNamed(c: U16)
    requires c < 8
    ensures FromCode(c) != Custom(c)
    ensures AsU16(FromCode(c)) == AsU16(Custom(c))
  {
  }

  /** `impl Display for Status`. */
  function Display(s: Status): (r: string)
    ensures IsNamed(s) ==> 0 < |r| && r[0] != 'C'
    ensures s.Custom? ==> |r| >= 9 && r[..7] == "CUSTOM(" && r[|r| - 1] == ')'
  {
    match s
    case Success => "SUCCESS"
    case ProtocolFailure => "PROTOCOL_FAILURE"
    case MalformedFrame => "MALFORMED_FRAME"
    case HandshakeViolation => "HANDSHAKE_VIOLATION"
    case ServiceNotFound => "SERVICE_NOT_FOUND"
    case MethodNotFound => "METHOD_NOT_FOUND"
    case InvalidDataFrame => "INVALID_DATA_FRAME"
    case InternalServerError => "INTERNAL_SERVER_ERROR"
    case Custom(code) => "CUSTOM(" + Decimal.Render(code) + ")"
  }

  /** The numeral between the parentheses of `CUSTOM(...)` is the application code. */
  lemma DisplayCustomCode(c: U16)
    ensures Decimal.AllDigits(Display(Custom(c))[7..|Display(Custom(c))| - 1])
    ensures Decimal.Parse(Display(Custom(c))[7..|Display(Custom(c))| - 1]) == c
  {
    var r := Display(Custom(c));
    assert r[7..|r| - 1] == Decimal.Render(c);
    Decimal.ParseRender(c);
  }

  /**
   * Unlike the numeric code, the rendered name tells every status apart, application codes
   * included.
   */
  lemma DisplayInjective(a: Status, b: Status)
    ensures Display(a) == Display(b) ==> a == b
  {
    if Display(a) == Display(b) && a.Custom? && b.Custom? {
      DisplayCustomCode(a.code);
      DisplayCustomCode(b.code);
    }
  }
}
