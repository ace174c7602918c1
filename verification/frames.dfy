/** The three wire frames of `frame.rs` and the order a stream carries them in. */
module Frames {
  import opened Bytes

  /** A 32-byte service or method discriminator; equality is byte-for-byte. */
  type Id = s: Bytes | |s| == 32 witness seq(32, _ => 0)

  /** The routing key that opens a call. */
  datatype HeadFrame = HeadFrame(serviceId: Id, methodId: Id)

  /** The terminal frame; carries a status code already reduced to 16 bits. */
  datatype TailFrame = TailFrame(status: U16)

  /** A frame is exactly one of the three. A `Data` payload may be empty. */
  datatype Frame =
    | Head(head: HeadFrame)
    | Data(payload: Bytes)
    | Tail(tail: TailFrame)

  /** A complete stream: one `Head`, any number of `Data`, one `Tail`. */
  predicate WellFormed(s: seq<Frame>)
    ensures WellFormed(s) ==> 2 <= |s| && s[0].Head? && s[|s| - 1].Tail?
  {
    && 2 <= |s|
    && s[0].Head?
    && s[|s| - 1].Tail?
    && forall i :: 0 < i < |s| - 1 ==> s[i].Data?
  }

  function CountHeads(s: seq<Frame>): nat {
    if |s| == 0 then 0 else (if s[0].Head? then 1 else 0) + CountHeads(s[1..])
  }

  function CountTails(s: seq<Frame>): nat {
    if |s| == 0 then 0 else (if s[0].Tail? then 1 else 0) + CountTails(s[1..])
  }

  /** A run of `Data` frames holds neither a `Head` nor a `Tail`. */
  lemma {:induction false} DataRunCounts(s: seq<Frame>)
    requires forall i :: 0 <= i < |s| ==> s[i].Data?
    ensures CountHeads(s) == 0 && CountTails(s) == 0
  {
    if |s| > 0 {
      DataRunCounts(s[1..]);
    }
  }

  /** A well-formed stream holds exactly one `Head` and exactly one `Tail`. */
  lemma WellFormedCounts(s: seq<Frame>)
    requires WellFormed(s)
    ensures CountHeads(s) == 1 && CountTails(s) == 1
  {
    var body := s[1..|s| - 1];
    DataRunCounts(body);
    assert s[1..] == body + [s[|s| - 1]];
    CountsAppendOne(body, s[|s| - 1]);
  }

  /** Counting distributes over appending one frame. */
  lemma {:induction false} CountsAppendOne(s: seq<Frame>, f: Frame)
    ensures CountHeads(s + [f]) == CountHeads(s) + (if f.Head? then 1 else 0)
    ensures CountTails(s + [f]) == CountTails(s) + (if f.Tail? then 1 else 0)
  {
    if |s| > 0 {
      assert (s + [f])[1..] == s[1..] + [f];
      CountsAppendOne(s[1..], f);
    } else {
      assert (s + [f])[1..] == [];
    }
  }

  /** A sequence that does not open with a `Head` is never a well-formed stream. */
  lemma NotHeadFirstIllFormed(s: seq<Frame>)
    requires |s| == 0 || !s[0].Head?
    ensures !WellFormed(s)
  {
  }

  /** What a frame-by-frame order checker expects next. */
  datatype Expect = ExpectHead | ExpectBody | Finished | Violated

  /** One transition of the order checker. Anything after the `Tail` is a violation. */
  function Step(e: Expect, f: Frame): Expect {
    match e
    case ExpectHead => if f.Head? then ExpectBody else Violated
    case ExpectBody => if f.Data? then ExpectBody else if f.Tail? then Finished else Violated
    case Finished => Violated
    case Violated => Violated
  }

  /** The checker's state after reading `s` from the start of a stream. */
  function Run(s: seq<Frame>): Expect {
    if |s| == 0 then ExpectHead else Step(Run(s[..|s| - 1]), s[|s| - 1])
  }

  /** The prefixes the checker is still happy with: a `Head` followed by `Data` only. */
  predicate OpenPrefix(s: seq<Frame>) {
    && 1 <= |s|
    && s[0].Head?
    && forall i :: 0 < i < |s| ==> s[i].Data?
  }

  /** The checker ends in `Finished` exactly on the well-formed streams. */
  lemma {:induction false} RunCharacterised(s: seq<Frame>)
    ensures Run(s) == ExpectHead <==> |s| == 0
    ensures Run(s) == ExpectBody <==> OpenPrefix(s)
    ensures Run(s) == Finished <==> WellFormed(s)
  {
    if |s| > 0 {
      var p := s[..|s| - 1];
      RunCharacterised(p);
      if OpenPrefix(s) {
        assert OpenPrefix(p) || |p| == 0;
      }
      if WellFormed(s) {
        assert OpenPrefix(p);
      }
      if Run(p) == ExpectBody {
        assert forall i :: 0 < i < |p| ==> s[i] == p[i];
      }
    }
  }

  /** Checks a whole stream frame by frame. */
  method CheckOrder(s: seq<Frame>) returns (ok: bool)
    ensures ok <==> WellFormed(s)
  {
    var e := ExpectHead;
    var i := 0;
    while i < |s|
      invariant 0 <= i <= |s|
      invariant e == Run(s[..i])
    {
      assert s[..i + 1][..i] == s[..i];
      e := Step(e, s[i]);
      i := i + 1;
    }
    assert s[..i] == s;
    RunCharacterised(s);
    ok := e == Finished;
  }
}
