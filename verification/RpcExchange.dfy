/** One method call as two parties running at the same time (source/binding/socket/inc/
  SocketMethodBinding.hpp): caller and responder are joined by a byte stream in either
  direction, every send and every receive moves any non-empty piece, and the steps of the two
  interleave in any order. */
module RpcExchange {
  import opened Serialization
  import opened MethodRpc

  datatype Caller<+Rsp> = Sending(rest: seq<Byte>) | Receiving(got: seq<Byte>) | Returned(result: Result<Rsp>)
  {
    function Unsent(): seq<Byte> { if Sending? then rest else [] }
    function Taken(): seq<Byte> { if Receiving? then got else [] }
  }

  datatype Responder = Listening(got: seq<Byte>) | Answering(rest: seq<Byte>) | Closed
  {
    function Unsent(): seq<Byte> { if Answering? then rest else [] }
  }

  /** `toResponder` and `toCaller` are the bytes under way. */
  datatype State<+Rsp> = State(caller: Caller<Rsp>, responder: Responder, toResponder: seq<Byte>, toCaller: seq<Byte>)

  datatype Step =
    | CallerSends(n: nat)
    | CallerSendFails
    | CallerListens
    | CallerReceives(n: nat)
    | CallerReturns
    | ResponderReceives(n: nat)
    | ResponderDecides
    | ResponderSends(n: nat)
    | ResponderCloses

  function Start<Req, Rsp>(s: Service<Req, Rsp>, request: Req): State<Rsp> {
    match FrameOf(s.reqCodec, request)
    case Err(code) => State(Returned(Err(code)), Listening([]), [], [])
    case Ok(frame) => State(Sending(frame), Listening([]), [], [])
  }

  /** A send fails once the responder has closed; a receive meets the end of the stream once
      the responder has closed and nothing is under way. */
  predicate Enabled<Req, Rsp>(s: Service<Req, Rsp>, st: State<Rsp>, step: Step) {
    match step
    case CallerSends(n) => st.caller.Sending? && 1 <= n <= |st.caller.rest|
    case CallerSendFails => st.caller.Sending? && st.caller.rest != [] && st.responder.Closed?
    case CallerListens => st.caller.Sending? && st.caller.rest == []
    case CallerReceives(n) =>
      st.caller.Receiving? && 1 <= n <= |st.toCaller| && n <= ReplyMissing(s.callerLimit, st.caller.got)
    case CallerReturns =>
      && st.caller.Receiving?
      && (ReplyMissing(s.callerLimit, st.caller.got) == 0 || (st.responder.Closed? && st.toCaller == []))
    case ResponderReceives(n) =>
      st.responder.Listening? && 1 <= n <= |st.toResponder| && n <= RequestMissing(s.responderLimit, st.responder.got)
    case ResponderDecides => st.responder.Listening? && RequestMissing(s.responderLimit, st.responder.got) == 0
    case ResponderSends(n) => st.responder.Answering? && 1 <= n <= |st.responder.rest|
    case ResponderCloses => st.responder.Answering? && st.responder.rest == []
  }

  /** Sends and receives may be cut anywhere: every non-empty piece of what is there, and asked for,
      can move. */
  lemma AnyPieceCanMove<Req, Rsp>(s: Service<Req, Rsp>, st: State<Rsp>, n: nat)
    requires n > 0
    ensures st.caller.Sending? && n <= |st.caller.rest| ==> Enabled(s, st, CallerSends(n))
    ensures st.responder.Answering? && n <= |st.responder.rest| ==> Enabled(s, st, ResponderSends(n))
    ensures st.caller.Receiving? && n <= |st.toCaller| && |st.caller.got| + n <= 4 ==>
              Enabled(s, st, CallerReceives(n))
    ensures st.responder.Listening? && n <= |st.toResponder| && |st.responder.got| + n <= 4 ==>
              Enabled(s, st, ResponderReceives(n))
  {
  }

  function Apply<Req, Rsp>(s: Service<Req, Rsp>, st: State<Rsp>, step: Step): State<Rsp>
    requires s.Valid() && Enabled(s, st, step)
  {
    match step
    case CallerSends(n) =>
      st.(caller := Sending(st.caller.rest[n..]), toResponder := st.toResponder + st.caller.rest[..n])
    case CallerSendFails => st.(caller := Returned(Err(NETWORK_BINDING_FAILURE)))
    case CallerListens => st.(caller := Receiving([]))
    case CallerReceives(n) =>
      st.(caller := Receiving(st.caller.got + st.toCaller[..n]), toCaller := st.toCaller[n..])
    case CallerReturns => st.(caller := Returned(Received(s, st.caller.got)))
    case ResponderReceives(n) =>
      st.(responder := Listening(st.responder.got + st.toResponder[..n]), toResponder := st.toResponder[n..])
    case ResponderDecides => st.(responder := Answering(Reply(s, st.responder.got)))
    case ResponderSends(n) =>
      st.(responder := Answering(st.responder.rest[n..]), toCaller := st.toCaller + st.responder.rest[..n])
    case ResponderCloses => st.(responder := Closed)
  }

  ghost predicate IsStep<Req, Rsp>(s: Service<Req, Rsp>, tr: seq<State<Rsp>>, steps: seq<Step>, i: nat)
    requires s.Valid() && i < |steps| < |tr|
  {
    Enabled(s, tr[i], steps[i]) && tr[i + 1] == Apply(s, tr[i], steps[i])
  }

  ghost predicate IsRun<Req, Rsp>(s: Service<Req, Rsp>, request: Req, tr: seq<State<Rsp>>, steps: seq<Step>)
    requires s.Valid()
  {
    && |tr| == |steps| + 1 && tr[0] == Start(s, request)
    && forall i | 0 <= i < |steps| :: IsStep(s, tr, steps, i)
  }

  // ---- A party decides on what it has consumed --------------------------------------------------

  lemma SizeAtPrefix(got: seq<Byte>, tail: seq<Byte>)
    requires |got| >= 4
    ensures SizeAt(got + tail, 0) == SizeAt(got, 0)
    ensures 4 + SizeAt(got, 0) <= |got| ==> (got + tail)[4..4 + SizeAt(got, 0)] == got[4..4 + SizeAt(got, 0)]
  {
    assert (got + tail)[0..4] == got[0..4];
  }

  lemma ResponderDecidesEarly<Req, Rsp>(s: Service<Req, Rsp>, got: seq<Byte>, tail: seq<Byte>)
    requires s.Valid() && RequestMissing(s.responderLimit, got) == 0
    ensures Reply(s, got) == Reply(s, got + tail)
  {
    SizeAtPrefix(got, tail);
  }

  lemma CallerDecidesEarly<Req, Rsp>(s: Service<Req, Rsp>, got: seq<Byte>, tail: seq<Byte>)
    requires s.Valid() && ReplyMissing(s.callerLimit, got) == 0
    ensures Received(s, got) == Received(s, got + tail)
  {
    SizeAtPrefix(got, tail);
  }

  /** The responder stops listening before the end of the frame only if the message is too long. */
  lemma RequestComplete<Req(!new), Rsp>(s: Service<Req, Rsp>, request: Req, got: seq<Byte>, tail: seq<Byte>)
    requires s.Valid() && Lossless(s.reqCodec) && FrameOf(s.reqCodec, request).Ok?
    requires got + tail == FrameOf(s.reqCodec, request).value
    ensures RequestMissing(s.responderLimit, got) == 0 ==> tail == [] || s.reqCodec.size(request) > s.responderLimit
    ensures RequestMissing(s.responderLimit, got) <= |tail|
  {
    var payload := s.reqCodec.write(request).value;
    SizeOfFrame(payload, Frame(payload), 0);
    if |got| >= 4 {
      SizeAtPrefix(got, tail);
    }
  }

  // ---- The invariant ------------------------------------------------------------------------------

  /** Nothing is lost, duplicated or reordered: what a party has taken, what is under way and
      what is still unsent are together the whole frame, or the whole reply. */
  ghost predicate Inv<Req, Rsp>(s: Service<Req, Rsp>, request: Req, st: State<Rsp>)
    requires s.Valid()
  {
    match FrameOf(s.reqCodec, request)
    case Err(_) => st == Start(s, request)
    case Ok(frame) =>
      if st.responder.Listening? then
        && st.responder.got + (st.toResponder + st.caller.Unsent()) == frame
        && st.toCaller == [] && st.caller.Taken() == [] && !st.caller.Returned?
      else
        && (st.toResponder + st.caller.Unsent() == [] || s.reqCodec.size(request) > s.responderLimit)
        && (if st.caller.Returned? then st.caller.result == Expected(s, request)
            else st.caller.Taken() + (st.toCaller + st.responder.Unsent()) == Reply(s, frame))
  }

  lemma Shift(a: seq<Byte>, b: seq<Byte>, c: seq<Byte>, n: nat)
    ensures n <= |b| ==> (a + b[..n]) + (b[n..] + c) == a + (b + c)
    ensures n <= |c| ==> a + ((b + c[..n]) + c[n..]) == a + (b + c)
  {
    if n <= |b| {
      assert b == b[..n] + b[n..];
    }
  }

  lemma CallerKeepsInv<Req(!new), Rsp(!new)>(s: Service<Req, Rsp>, request: Req, st: State<Rsp>, step: Step)
    requires s.Valid() && Lossless(s.reqCodec) && Lossless(s.rspCodec)
    requires Inv(s, request, st) && Enabled(s, st, step)
    requires step.CallerSends? || step.CallerListens? || step.CallerReceives?
    ensures Inv(s, request, Apply(s, st, step))
  {
    if step.CallerSends? {
      Shift(if st.responder.Listening? then st.responder.got else [], st.toResponder, st.caller.rest, step.n);
    } else if step.CallerReceives? {
      Shift(st.caller.got, st.toCaller, st.responder.Unsent(), step.n);
    }
  }

  lemma ReturnKeepsInv<Req(!new), Rsp(!new)>(s: Service<Req, Rsp>, request: Req, st: State<Rsp>, step: Step)
    requires s.Valid() && Lossless(s.reqCodec) && Lossless(s.rspCodec)
    requires Inv(s, request, st) && Enabled(s, st, step)
    requires step.CallerSendFails? || step.CallerReturns?
    ensures Inv(s, request, Apply(s, st, step))
  {
    if step.CallerReturns? {
      ExchangeGivesExpected(s, request);
      assert !st.responder.Listening?;
      if ReplyMissing(s.callerLimit, st.caller.got) == 0 {
        CallerDecidesEarly(s, st.caller.got, st.toCaller + st.responder.Unsent());
      } else {
        assert st.caller.got == st.caller.Taken() + (st.toCaller + st.responder.Unsent());
      }
    }
  }

  lemma ResponderKeepsInv<Req(!new), Rsp(!new)>(s: Service<Req, Rsp>, request: Req, st: State<Rsp>, step: Step)
    requires s.Valid() && Lossless(s.reqCodec) && Lossless(s.rspCodec)
    requires Inv(s, request, st) && Enabled(s, st, step)
    requires step.ResponderReceives? || step.ResponderDecides? || step.ResponderSends? || step.ResponderCloses?
    ensures Inv(s, request, Apply(s, st, step))
  {
    if step.ResponderReceives? {
      Shift(st.responder.got, st.toResponder, st.caller.Unsent(), step.n);
    } else if step.ResponderDecides? {
      var tail := st.toResponder + st.caller.Unsent();
      RequestComplete(s, request, st.responder.got, tail);
      ResponderDecidesEarly(s, st.responder.got, tail);
    } else if step.ResponderSends? {
      Shift(st.caller.Taken(), st.toCaller, st.responder.rest, step.n);
    }
  }

  lemma StepKeepsInv<Req(!new), Rsp(!new)>(s: Service<Req, Rsp>, request: Req, st: State<Rsp>, step: Step)
    requires s.Valid() && Lossless(s.reqCodec) && Lossless(s.rspCodec)
    requires Inv(s, request, st) && Enabled(s, st, step)
    ensures Inv(s, request, Apply(s, st, step))
  {
    match step
    case CallerSends(_) => CallerKeepsInv(s, request, st, step);
    case CallerListens => CallerKeepsInv(s, request, st, step);
    case CallerReceives(_) => CallerKeepsInv(s, request, st, step);
    case CallerSendFails => ReturnKeepsInv(s, request, st, step);
    case CallerReturns => ReturnKeepsInv(s, request, st, step);
    case _ => ResponderKeepsInv(s, request, st, step);
  }

  lemma {:induction false} InvHolds<Req(!new), Rsp(!new)>(
      s: Service<Req, Rsp>, request: Req, tr: seq<State<Rsp>>, steps: seq<Step>, i: nat)
    requires s.Valid() && Lossless(s.reqCodec) && Lossless(s.rspCodec)
    requires IsRun(s, request, tr, steps) && i < |tr|
    ensures Inv(s, request, tr[i])
  {
    if i > 0 {
      InvHolds(s, request, tr, steps, i - 1);
      assert IsStep(s, tr, steps, i - 1);
      StepKeepsInv(s, request, tr[i - 1], steps[i - 1]);
    }
  }

  // ---- Main results ---------------------------------------------------------------------------------

  /** However the two streams are cut into pieces and however the parties interleave, a call
      that returns, returns what the handler's answer alone determines. */
  lemma CallReturnsExpected<Req(!new), Rsp(!new)>(
      s: Service<Req, Rsp>, request: Req, tr: seq<State<Rsp>>, steps: seq<Step>, i: nat)
    requires s.Valid() && Lossless(s.reqCodec) && Lossless(s.rspCodec)
    requires IsRun(s, request, tr, steps) && i < |tr| && tr[i].caller.Returned?
    ensures tr[i].caller.result == Expected(s, request)
  {
    InvHolds(s, request, tr, steps, i);
  }

  /** Until the call has returned, some step is possible. */
  lemma CallNeverStalls<Req(!new), Rsp(!new)>(
      s: Service<Req, Rsp>, request: Req, tr: seq<State<Rsp>>, steps: seq<Step>, i: nat) returns (next: Step)
    requires s.Valid() && Lossless(s.reqCodec) && Lossless(s.rspCodec)
    requires IsRun(s, request, tr, steps) && i < |tr| && !tr[i].caller.Returned?
    ensures Enabled(s, tr[i], next)
  {
    InvHolds(s, request, tr, steps, i);
    var st := tr[i];
    if st.caller.Sending? {
      next := if st.caller.rest == [] then CallerListens else CallerSends(1);
    } else if st.responder.Listening? {
      RequestComplete(s, request, st.responder.got, st.toResponder + st.caller.Unsent());
      var decided := RequestMissing(s.responderLimit, st.responder.got) == 0;
      next := if decided then ResponderDecides else ResponderReceives(1);
    } else if st.responder.Answering? {
      next := if st.responder.rest == [] then ResponderCloses else ResponderSends(1);
    } else {
      var decided := ReplyMissing(s.callerLimit, st.caller.got) == 0;
      next := if decided || st.toCaller == [] then CallerReturns else CallerReceives(1);
    }
  }

  /** The moves still to come, at most: two for a byte not sent yet, one for a byte under way,
      and one for each change of phase. */
  function MovesLeft<Rsp>(replyLength: nat, st: State<Rsp>): nat {
    var callerPhase := if st.caller.Sending? then 2 else if st.caller.Receiving? then 1 else 0;
    var responderPhase :=
      if st.responder.Listening? then 2 + 2 * replyLength else if st.responder.Answering? then 1 else 0;
    2 * |st.caller.Unsent()| + |st.toResponder| + 2 * |st.responder.Unsent()| + |st.toCaller|
    + callerPhase + responderPhase
  }

  function ReplyLength<Req, Rsp>(s: Service<Req, Rsp>, request: Req): nat
    requires s.Valid()
  {
    match FrameOf(s.reqCodec, request)
    case Err(_) => 0
    case Ok(frame) => |Reply(s, frame)|
  }

  lemma StepMakesProgress<Req(!new), Rsp(!new)>(
      s: Service<Req, Rsp>, request: Req, st: State<Rsp>, step: Step, st': State<Rsp>)
    requires s.Valid() && Lossless(s.reqCodec) && Lossless(s.rspCodec)
    requires Inv(s, request, st) && Enabled(s, st, step) && st' == Apply(s, st, step)
    ensures MovesLeft(ReplyLength(s, request), st') < MovesLeft(ReplyLength(s, request), st)
  {
    if step.ResponderDecides? && FrameOf(s.reqCodec, request).Ok? {
      ResponderDecidesEarly(s, st.responder.got, st.toResponder + st.caller.Unsent());
    }
  }

  lemma RunMakesProgress<Req(!new), Rsp(!new)>(
      s: Service<Req, Rsp>, request: Req, tr: seq<State<Rsp>>, steps: seq<Step>, i: nat)
    requires s.Valid() && Lossless(s.reqCodec) && Lossless(s.rspCodec)
    requires IsRun(s, request, tr, steps) && 0 < i < |tr|
    ensures MovesLeft(ReplyLength(s, request), tr[i]) < MovesLeft(ReplyLength(s, request), tr[i - 1])
  {
    InvHolds(s, request, tr, steps, i - 1);
    assert IsStep(s, tr, steps, i - 1);
    StepMakesProgress(s, request, tr[i - 1], steps[i - 1], tr[i]);
  }

  lemma {:induction false} Descends(left: seq<nat>, i: nat)
    requires i < |left| && forall j | 0 < j < |left| :: left[j] < left[j - 1]
    ensures i + left[i] <= left[0]
  {
    if i > 0 {
      Descends(left, i - 1);
    }
  }

  /** No run goes on for ever: with CallNeverStalls, every call returns. */
  lemma RunsAreBounded<Req(!new), Rsp(!new)>(
      s: Service<Req, Rsp>, request: Req, tr: seq<State<Rsp>>, steps: seq<Step>, i: nat)
    requires s.Valid() && Lossless(s.reqCodec) && Lossless(s.rspCodec)
    requires IsRun(s, request, tr, steps) && i < |tr|
    ensures i + MovesLeft(ReplyLength(s, request), tr[i]) <= MovesLeft(ReplyLength(s, request), tr[0])
  {
    var left := seq(|tr|, j requires 0 <= j < |tr| => MovesLeft(ReplyLength(s, request), tr[j]));
    forall j | 0 < j < |left| ensures left[j] < left[j - 1] {
      RunMakesProgress(s, request, tr, steps, j);
    }
    Descends(left, i);
  }

  /** When a call gives the caller exactly what the handler returned: the request can be written
      and is within the limit of the responder, a value can be written and is within the limit of
      the caller, and an error is not the code 0. (A request that cannot be written or is over the
      limit is never handled; the caller then sees an error of its own.) */
  lemma CallIsFaithfulExactlyIf<Req(!new), Rsp(!new)>(
      s: Service<Req, Rsp>, request: Req, tr: seq<State<Rsp>>, steps: seq<Step>, i: nat)
    requires s.Valid() && Lossless(s.reqCodec) && Lossless(s.rspCodec)
    requires IsRun(s, request, tr, steps) && i < |tr| && tr[i].caller.Returned?
    ensures tr[i].caller.result == s.handler(request) <==>
            if s.reqCodec.size(request) >= 0x1_0000_0000 then s.handler(request) == Err(0x14)
            else if s.reqCodec.write(request).None? then s.handler(request) == Err(0x15)
            else if s.reqCodec.size(request) > s.responderLimit then s.handler(request) == Err(0x03)
            else match s.handler(request)
                 case Err(code) => code != 0
                 case Ok(value) => s.rspCodec.size(value) <= s.callerLimit && s.rspCodec.write(value).Some?
  {
    CallReturnsExpected(s, request, tr, steps, i);
  }

  /** A handler that fails with code 0 makes the call succeed: the caller parses an empty
      payload, which protobuf reads as a message of default values. */
  lemma ErrorCodeZeroBecomesAValue<Req(!new), Rsp(!new)>(
      s: Service<Req, Rsp>, request: Req, tr: seq<State<Rsp>>, steps: seq<Step>, i: nat)
    requires s.Valid() && Lossless(s.reqCodec) && Lossless(s.rspCodec)
    requires IsRun(s, request, tr, steps) && i < |tr| && tr[i].caller.Returned?
    requires s.reqCodec.size(request) <= s.responderLimit && s.reqCodec.write(request).Some?
    requires s.handler(request) == Err(0) && s.rspCodec.parse([]).Some?
    ensures tr[i].caller.result == Ok(s.rspCodec.parse([]).value)
  {
    CallReturnsExpected(s, request, tr, steps, i);
  }
}
