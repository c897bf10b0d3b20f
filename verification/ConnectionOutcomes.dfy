/**
 What the answers of the peer lead to, over every run: which responses open a connection, and how
 a close frame is answered and a connection comes to be closed cleanly.
 */
module ConnectionOutcomes {
  import opened Connection
  import opened ConnectionMachine
  import opened ConnectionLifecycle
  import opened ConnectionCalls

  // ---- Which responses open a connection ----

  /**
   A client reads an acceptable response, or one it only fails to negotiate extensions with, or a
   server has written one with status 101: in the state the handshake leaves it in, and without error.
   */
  predicate ShakesHands(s: State, t: Step) {
    && s.y.l.session == Connecting
    && match t
       case HandshakeRead(e, r) =>
         e == NoError && s.y.l.internal == ReadHttpResponse && (r == Accepted || r == NegotiationFailed)
       case HandshakeWritten(e, upgrade, _) => e == NoError && s.y.l.internal == ProcessHttpRequest && upgrade
       case _ => false
  }

  ghost function Handshakes(s: State, run: seq<Step>): nat
    requires Valid(s, run)
    decreases run
  {
    if run == [] then 0
    else (if ShakesHands(s, run[0]) then 1 else 0) + Handshakes(Apply(s, run[0]), run[1..])
  }

  /** Calls of the open handler, and the one still to come after a failed negotiation. */
  function OpensDue(s: State): nat {
    s.y.opens + if s.strand == Falling then 1 else 0
  }

  lemma OpensStep(s: State, t: Step)
    requires Enabled(s, t)
    ensures OpensDue(Apply(s, t)) == OpensDue(s) + if ShakesHands(s, t) then 1 else 0
    ensures Apply(s, t).y.l.session == Connecting ==> s.y.l.session == Connecting && !ShakesHands(s, t)
  {
    hide WriterAfter, CloseReceived, FrameRead, Take, Final;
  }

  lemma {:induction false} RunOpens(s: State, run: seq<Step>)
    requires Valid(s, run)
    ensures OpensDue(After(s, run)) == OpensDue(s) + Handshakes(s, run)
    ensures Handshakes(s, run) <= if s.y.l.session == Connecting then 1 else 0
    decreases run
  {
    if run != [] {
      hide Apply, Enabled, ShakesHands, OpensDue;
      OpensStep(s, run[0]);
      RunOpens(Apply(s, run[0]), run[1..]);
      ShakesOnlyConnecting(s, run[0]);
    }
  }

  lemma ShakesOnlyConnecting(s: State, t: Step)
    ensures ShakesHands(s, t) ==> s.y.l.session == Connecting
  {
  }

  /**
   Over every run, the open handler has been called exactly if a handshake succeeded, and then once;
   only while handle_read_http_response is past a failed negotiation is that call still to come.
   */
  lemma OpensExactly(start: State, isServer: bool, run: seq<Step>)
    requires start == Start(isServer) && Valid(start, run)
    ensures var s := After(start, run);
      && Handshakes(start, run) <= 1
      && (s.y.opens > 0 <==> Handshakes(start, run) == 1 && s.strand != Falling)
      && (s.strand == Falling ==> Handshakes(start, run) == 1 && s.y.opens == 0)
      && s.y.opens <= 1
  {
    RunOpens(start, run);
  }

  // ---- How a close frame is answered ----

  /** On the way to the push of a close frame, or past it. */
  predicate Answering(s: State) {
    s.strand == Acking || s.strand == AckPushing || HasClose(s.w.pushed)
  }

  /** Only AckDrop, which is taken when no close frame could be prepared, leads away from it. */
  lemma AnsweringStep(s: State, t: Step)
    requires Enabled(s, t) && Answering(s) && !t.AckDrop?
    ensures Answering(Apply(s, t))
  {
    if Pushes(t) {
      HasCloseAppend(s.w.pushed, t.m);
    } else {
      assert Apply(s, t).w.pushed == s.w.pushed;
    }
  }

  lemma {:induction false} AnsweringRun(s: State, run: seq<Step>)
    requires Valid(s, run) && Answering(s) && forall i :: 0 <= i < |run| ==> !run[i].AckDrop?
    ensures Answering(After(s, run))
    decreases run
  {
    if run != [] {
      hide Answering, Apply, Enabled;
      AnsweringStep(s, run[0]);
      AnsweringRun(Apply(s, run[0]), run[1..]);
    }
  }

  /**
   What has to be answered with a close frame: a well-formed one met in the open session, a malformed
   one or any other protocol error where the configuration does not drop the connection for it.
   */
  predicate WantsAnswer(s: State, t: Step) {
    match t
    case GotClose(malformed, drop) => if malformed then !drop && s.y.l.session != Closed else s.y.l.session == Open
    case GotRubbish(drop) => !drop && s.y.l.session == Open
    case _ => false
  }

  /**
   Section 5.5.1 of RFC 6455: whatever happens after such a frame, unless the answer cannot be
   prepared, the strand does nothing else until it has pushed one.
   */
  lemma CloseFrameIsAnswered(s: State, t: Step, more: seq<Step>)
    requires WantsAnswer(s, t)
    requires Valid(s, [t] + more) && forall i :: 0 <= i < |more| ==> !more[i].AckDrop?
    ensures var end := After(s, [t] + more);
      end.strand == Acking || end.strand == AckPushing || HasClose(end.w.pushed)
  {
    assert ([t] + more)[0] == t && ([t] + more)[1..] == more;
    AnsweringRun(Apply(s, t), more);
  }

  /** And uninterrupted it does so at once: the session is closing and clean, and the frame pushed and queued. */
  lemma CloseFrameAnswer(s: State, drop: bool, m: Message)
    requires s.strand == Reading && s.y.l.session == Open && m.kind == Close
    ensures var steps := [GotClose(false, drop), AckMark(true), AckPush(m)];
      && Valid(s, steps)
      && var t := After(s, steps);
        && t.y == s.y.(l := s.y.l.(session := Closing, wasClean := true)) && t.strand == Reading
        && t.w.p.queue == s.w.p.queue + [m] && t.w.pushed == s.w.pushed + [m] && HasClose(t.w.pushed)
  {
    GotCloseInOpen(s, drop);
    AckApplies(s.(strand := Acking), m);
    hide Apply, Enabled, HasClose;
    ThreeSteps(s, GotClose(false, drop), AckMark(true), AckPush(m));
    HasCloseAppend(s.w.pushed, m);
  }

  lemma GotCloseInOpen(s: State, drop: bool)
    requires s.strand == Reading && s.y.l.session == Open
    ensures Enabled(s, GotClose(false, drop)) && Apply(s, GotClose(false, drop)) == s.(strand := Acking)
  {
    GotCloseApplies(s, false, drop);
    hide Apply, Enabled;
  }

  lemma AckApplies(s: State, m: Message)
    requires s.strand == Acking && m.kind == Close
    ensures Enabled(s, AckMark(true)) && Enabled(Apply(s, AckMark(true)), AckPush(m))
    ensures Apply(Apply(s, AckMark(true)), AckPush(m)) ==
      State(Pushed(s.w, m), s.y.(l := s.y.l.(session := Closing, wasClean := true)), Reading)
  {
  }

  // ---- When a close is clean ----

  /** An acknowledgement is marked as such, or a well-formed close frame is met in the closing session. */
  predicate Cleans(s: State, t: Step) {
    (t.AckMark? && t.ack) || (t.GotClose? && !t.malformed && s.y.l.session == Closing)
  }

  ghost predicate Cleaned(s: State, run: seq<Step>)
    requires Valid(s, run)
    decreases run
  {
    run != [] && (Cleans(s, run[0]) || Cleaned(Apply(s, run[0]), run[1..]))
  }

  lemma CleanStep(s: State, t: Step)
    requires Enabled(s, t)
    ensures Apply(s, t).y.l.wasClean <==> s.y.l.wasClean || Cleans(s, t)
  {
    hide WriterAfter;
  }

  lemma {:induction false} RunCleans(s: State, run: seq<Step>)
    requires Valid(s, run)
    ensures After(s, run).y.l.wasClean <==> s.y.l.wasClean || Cleaned(s, run)
    decreases run
  {
    if run != [] {
      hide Apply, Enabled, Cleans;
      CleanStep(s, run[0]);
      RunCleans(Apply(s, run[0]), run[1..]);
    }
  }

  /**
   Over every run, the close is clean exactly if the peer's close frame was acknowledged, or came
   as the acknowledgement.
   */
  lemma CleanExactly(start: State, isServer: bool, run: seq<Step>)
    requires start == Start(isServer) && Valid(start, run)
    ensures After(start, run).y.l.wasClean <==> Cleaned(start, run)
  {
    RunCleans(start, run);
  }
}
