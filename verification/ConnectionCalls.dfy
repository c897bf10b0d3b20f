/**
 The calls and handlers of a connection as the steps of the concurrent protocol they take when
 nothing comes in between, and what a whole call comes to.
 */
module ConnectionCalls {
  import opened Bytes
  import opened Connection
  import opened ConnectionMachine
  import opened ConnectionPipeline
  import opened ConnectionLifecycle

  /** s can take the steps of run, and is s' after them. */
  ghost predicate Takes(s: State, run: seq<Step>, s': State) {
    Valid(s, run) && After(s, run) == s'
  }

  /** Between steps everything proved of reachable states holds. */
  ghost predicate Kept(s: State) {
    Pipeline(s.w, s.strand) && Sane(s)
  }

  /** s is where a run from the start of a connection leads. */
  ghost predicate Reached(isServer: bool, run: seq<Step>, s: State) {
    Takes(Start(isServer), run, s)
  }

  lemma ReachedStart(isServer: bool, start: State)
    requires start == Start(isServer)
    ensures Reached(isServer, [], start)
  {
  }

  lemma ReachedIsKept(isServer: bool, run: seq<Step>, s: State)
    requires Reached(isServer, run, s)
    ensures Kept(s)
  {
    Reachable(isServer, run);
    StartIsSane(isServer);
    RunIsSane(Start(isServer), run);
  }

  lemma ReachedOn(isServer: bool, run: seq<Step>, s: State, steps: seq<Step>, s': State)
    requires Reached(isServer, run, s) && Takes(s, steps, s')
    ensures Reached(isServer, run + steps, s')
  {
    hide Start;
    TakesBoth(Start(isServer), run, s, steps, s');
  }

  lemma OneStep(s: State, t: Step)
    requires Enabled(s, t)
    ensures Takes(s, [t], Apply(s, t))
  {
    assert [t][1..] == [];
  }

  lemma TwoSteps(s: State, t: Step, u: Step)
    requires Enabled(s, t) && Enabled(Apply(s, t), u)
    ensures Takes(s, [t, u], Apply(Apply(s, t), u))
  {
    hide Enabled, Apply;
    OneStep(Apply(s, t), u);
    assert [t, u][1..] == [u];
  }

  lemma ThreeSteps(s: State, t: Step, u: Step, v: Step)
    requires Enabled(s, t) && Enabled(Apply(s, t), u) && Enabled(Apply(Apply(s, t), u), v)
    ensures Takes(s, [t, u, v], Apply(Apply(Apply(s, t), u), v))
  {
    hide Enabled, Apply;
    TwoSteps(Apply(s, t), u, v);
    assert [t, u, v][1..] == [u, v];
  }

  lemma {:induction false} TakesBoth(s: State, a: seq<Step>, s': State, b: seq<Step>, s'': State)
    requires Takes(s, a, s') && Takes(s', b, s'')
    ensures Takes(s, a + b, s'')
    decreases a
  {
    hide Enabled, Apply;
    if a == [] {
      assert a + b == b;
    } else {
      assert (a + b)[1..] == a[1..] + b;
      TakesBoth(Apply(s, a[0]), a[1..], s', b, s'');
    }
  }

  // ---- Waking the writer ----

  /** A push that finds the write flag clear dispatches write_frame. */
  function WakeSteps(w: Writer): seq<Step> {
    if w.p.writeFlag then [] else [Dispatch]
  }

  /** The pipeline once m is pushed and write_frame dispatched if it has to be. */
  function Queued(w: Writer, m: Message): Writer {
    w.(p := Push(w.p, m), pushed := w.pushed + [m], frames := w.frames + if w.p.writeFlag then 0 else 1)
  }

  lemma WakeAfterPush(s: State, m: Message, s': State)
    requires s' == s.(w := Pushed(s.w, m))
    ensures Takes(s', WakeSteps(s'.w), s.(w := Queued(s.w, m)))
    ensures s'.w.dispatchers == s.w.dispatchers + |WakeSteps(s'.w)|
  {
    if !s'.w.p.writeFlag {
      OneStep(s', Dispatch);
    }
  }

  // ---- send, ping and pong ----

  function SendSteps(s: State, m: Message): seq<Step> {
    if s.y.l.session == Open then [SendCheck, SendPush(m)] + WakeSteps(s.w) else []
  }

  /**
   Uninterrupted, a send from the open session queues the message and has the writer woken, and
   changes nothing else.
   */
  lemma SendCall(s: State, m: Message)
    requires s.y.closer == NoCloser && m.kind != Close
    ensures Takes(s, SendSteps(s, m), if s.y.l.session == Open then s.(w := Queued(s.w, m)) else s)
  {
    if s.y.l.session == Open {
      TwoSteps(s, SendCheck, SendPush(m));
      var s' := s.(w := Pushed(s.w, m));
      assert Apply(Apply(s, SendCheck), SendPush(m)) == s';
      WakeAfterPush(s, m, s');
      TakesBoth(s, [SendCheck, SendPush(m)], s', WakeSteps(s'.w), s.(w := Queued(s.w, m)));
    }
  }

  // ---- close ----

  function CloseSteps(s: State, prepared: Option<Message>): seq<Step> {
    if s.y.l.session != Open then []
    else match prepared
      case None => [CloseCheck, CloseDrop]
      case Some(m) => [CloseCheck, CloseMark, ClosePush(m)] + WakeSteps(s.w)
  }

  /** Uninterrupted, a close from the open session marks it closing, queues the frame and has the writer woken. */
  lemma CloseCall(s: State, prepared: Option<Message>)
    requires s.y.closer == NoCloser && (prepared.Some? ==> prepared.value.kind == Close)
    ensures Takes(s, CloseSteps(s, prepared),
      if s.y.l.session == Open && prepared.Some?
      then State(Queued(s.w, prepared.value), s.y.(l := MarkClosing(s.y.l, false)), s.strand)
      else s)
  {
    if s.y.l.session == Open {
      match prepared
      case None => TwoSteps(s, CloseCheck, CloseDrop);
      case Some(m) =>
        ThreeSteps(s, CloseCheck, CloseMark, ClosePush(m));
        var marked := s.(y := s.y.(l := MarkClosing(s.y.l, false)));
        var s' := marked.(w := Pushed(s.w, m));
        assert Apply(Apply(Apply(s, CloseCheck), CloseMark), ClosePush(m)) == s';
        WakeAfterPush(marked, m, s');
        TakesBoth(s, [CloseCheck, CloseMark, ClosePush(m)], s', WakeSteps(s'.w), marked.(w := Queued(s.w, m)));
    }
  }

  // ---- write_frame and handle_write_frame ----

  predicate StartsWrite(w: Writer) {
    !w.p.writeFlag && Take(w.p).writeFlag
  }

  function WriteFrameSteps(s: State): seq<Step> {
    if StartsWrite(s.w) then [RunWriteFrame, HandOver] else [RunWriteFrame]
  }

  /**
   A run of write_frame hands a batch to the transport exactly when the flag was clear and there is
   something to write.
   */
  lemma WriteFrameCall(s: State)
    requires s.strand == Idle && s.w.frames > 0
    ensures var taken := s.w.(p := Take(s.w.p), frames := s.w.frames - 1);
      Takes(s, WriteFrameSteps(s), s.(w :=
        if StartsWrite(s.w) then taken.(outstanding := true, handed := s.w.handed + taken.p.current) else taken))
  {
    hide Take;
    if StartsWrite(s.w) {
      TwoSteps(s, RunWriteFrame, HandOver);
    } else {
      OneStep(s, RunWriteFrame);
    }
  }

  /** The write flag given back, and write_frame dispatched again if anything is queued. */
  function Released(w: Writer): Writer {
    w.(p := w.p.(writeFlag := false), frames := w.frames + if w.p.queue != [] then 1 else 0)
  }

  function CompletionSteps(s: State, failed: bool): seq<Step>
    requires s.w.p.current != []
  {
    if Final(s.w.p, failed) then [WriteDone(failed)]
    else if s.w.p.queue == [] then [WriteDone(failed), ReleaseFlag]
    else [WriteDone(failed), ReleaseFlag, Redispatch]
  }

  function CompletionEnd(s: State, failed: bool): State
    requires s.w.p.current != []
  {
    var done := Settled(s.w, failed);
    if Final(s.w.p, failed) then State(done, Ended(s.y, if failed then OtherError else NoError), Idle)
    else s.(w := Released(done))
  }

  /** What a completion makes of the fields is what the steps of the protocol make of them. */
  lemma CompletionCounts(s: State, failed: bool, l': Life, shutdown: Shutdown)
    requires s.w.p.current != []
    requires var final := Final(s.w.p, failed);
      && l' == (if final then Terminate(s.y.l, if failed then OtherError else NoError) else s.y.l)
      && shutdown == (if final then TerminateShutdown(s.y.l) else NoShutdown)
    ensures var t := CompletionEnd(s, failed); var final := Final(s.w.p, failed);
      && t.y.l == l' && AsksFor(s.y, t.y, shutdown) && t.w.handed == s.w.handed
      && t.w.p == s.w.p.(current := [], writeFlag := if final then s.w.p.writeFlag else false)
      && t.w.frames == s.w.frames + if !final && s.w.p.queue != [] then 1 else 0
  {
  }

  /** A completed write ends the connection, or gives the flag back and has write_frame run again for what is queued. */
  lemma CompletionCall(s: State, failed: bool)
    requires s.strand == Idle && s.w.outstanding && s.w.p.current != []
    ensures Takes(s, CompletionSteps(s, failed), CompletionEnd(s, failed))
  {
    hide Ended;
    if Final(s.w.p, failed) {
      OneStep(s, WriteDone(failed));
    } else if s.w.p.queue == [] {
      TwoSteps(s, WriteDone(failed), ReleaseFlag);
    } else {
      ThreeSteps(s, WriteDone(failed), ReleaseFlag, Redispatch);
    }
  }

  // ---- A received close frame ----

  function ReceivedCloseSteps(s: State, malformed: bool, drop: bool, ack: Option<Message>): seq<Step> {
    if !CloseReceived(s.y.l, malformed, drop).Acknowledge? then [GotClose(malformed, drop)]
    else match ack
      case None => [GotClose(malformed, drop), AckDrop]
      case Some(m) => [GotClose(malformed, drop), AckMark(true), AckPush(m)] + WakeSteps(s.w)
  }

  function ReceivedCloseEnd(s: State, malformed: bool, drop: bool, ack: Option<Message>): State {
    if !CloseReceived(s.y.l, malformed, drop).Acknowledge? then s.(y := AfterClose(s.y, malformed, drop).0)
    else match ack
      case None => s
      case Some(m) => s.(w := Queued(s.w, m), y := s.y.(l := MarkClosing(s.y.l, true)))
  }

  /**
   What a received close frame comes to: an acknowledgement queued with the writer woken, a note, an
   ending, or nothing.
   */
  lemma ReceivedCloseCall(s: State, malformed: bool, drop: bool, ack: Option<Message>)
    requires s.strand == Reading && (ack.Some? ==> ack.value.kind == Close)
    ensures Takes(s, ReceivedCloseSteps(s, malformed, drop, ack), ReceivedCloseEnd(s, malformed, drop, ack))
  {
    hide Ended, CloseReceived;
    GotCloseApplies(s, malformed, drop);
    if !CloseReceived(s.y.l, malformed, drop).Acknowledge? {
      OneStep(s, GotClose(malformed, drop));
    } else {
      AcknowledgeCall(s, malformed, drop, ack);
    }
  }

  lemma GotCloseApplies(s: State, malformed: bool, drop: bool)
    requires s.strand == Reading
    ensures var t := GotClose(malformed, drop);
      && Enabled(s, t)
      && Apply(s, t) == if CloseReceived(s.y.l, malformed, drop).Acknowledge? then s.(strand := Acking)
                        else s.(y := AfterClose(s.y, malformed, drop).0)
  {
    hide Ended;
  }

  lemma AcknowledgeCall(s: State, malformed: bool, drop: bool, ack: Option<Message>)
    requires s.strand == Reading && (ack.Some? ==> ack.value.kind == Close)
    requires CloseReceived(s.y.l, malformed, drop).Acknowledge?
    ensures Takes(s, ReceivedCloseSteps(s, malformed, drop, ack), ReceivedCloseEnd(s, malformed, drop, ack))
  {
    var t, acking := GotClose(malformed, drop), s.(strand := Acking);
    GotCloseApplies(s, malformed, drop);
    hide CloseReceived, AfterClose;
    match ack
    case None =>
      assert Apply(acking, AckDrop) == s;
      TwoSteps(s, t, AckDrop);
    case Some(m) =>
      var marked := s.(y := s.y.(l := MarkClosing(s.y.l, true)));
      var s' := marked.(w := Pushed(s.w, m));
      assert Apply(acking, AckMark(true)) == marked.(strand := AckPushing);
      assert Apply(marked.(strand := AckPushing), AckPush(m)) == s';
      ThreeSteps(s, t, AckMark(true), AckPush(m));
      WakeAfterPush(marked, m, s');
      TakesBoth(s, [t, AckMark(true), AckPush(m)], s', WakeSteps(s'.w), marked.(w := Queued(s.w, m)));
  }

  // ---- The end of the client handshake ----

  function ResponseSteps(s: State, e: Error, r: Response): seq<Step> {
    if ResponseRead(s.y.l, e, r).FallsThrough? then [HandshakeRead(e, r), FallThrough] else [HandshakeRead(e, r)]
  }

  function ResponseEnd(s: State, e: Error, r: Response): State {
    var h := ResponseRead(s.y.l, e, r);
    if h.FallsThrough? then State(s.w, ConnectionMachine.Opened(Ended(s.y, OtherError)), Opening)
    else State(s.w, AfterHandshake(s.y, h).0, AfterHandshake(s.y, h).1)
  }

  /** The response handler as it is written: after a failed negotiation it terminates and then opens. */
  lemma ResponseCall(s: State, e: Error, r: Response)
    requires s.strand == Idle
    ensures Takes(s, ResponseSteps(s, e, r), ResponseEnd(s, e, r))
  {
    hide Ended;
    if ResponseRead(s.y.l, e, r).FallsThrough? {
      TwoSteps(s, HandshakeRead(e, r), FallThrough);
    } else {
      OneStep(s, HandshakeRead(e, r));
    }
  }

  function WrittenEnd(s: State, e: Error, upgrade: bool, outcome: Error): State {
    var (y, strand) := AfterHandshake(s.y, ResponseWritten(s.y.l, e, upgrade, outcome));
    State(s.w, y, strand)
  }

  lemma WrittenCall(s: State, e: Error, upgrade: bool, outcome: Error)
    requires s.strand == Idle
    ensures Takes(s, [HandshakeWritten(e, upgrade, outcome)], WrittenEnd(s, e, upgrade, outcome))
  {
    hide Ended;
    OneStep(s, HandshakeWritten(e, upgrade, outcome));
  }

  /** What a handshake handler makes of the lifecycle l, whether it opens, and the shutdown asked for. */
  predicate HandshakeAnswered(h: Handshake, l: Life, l': Life, nowOpen: bool, shutdown: Shutdown) {
    match h
    case Ignored => l' == l && !nowOpen && shutdown == NoShutdown
    case ReadMore => l' == l && !nowOpen && shutdown == NoShutdown
    case Terminated(e) => l' == Terminate(l, e) && !nowOpen && shutdown == TerminateShutdown(l)
    case Opened => l' == OpenSession(l) && nowOpen && shutdown == NoShutdown
    case FallsThrough =>
      l' == OpenSession(Terminate(l, OtherError)) && nowOpen && shutdown == TerminateShutdown(l)
  }

  /** t is s with the lifecycle l', and with what the protocol counts for it. */
  predicate Counts(s: State, t: State, l': Life, nowOpen: bool, shutdown: Shutdown) {
    t.w == s.w && t.y.l == l' && t.y.opens == s.y.opens + (if nowOpen then 1 else 0) && AsksFor(s.y, t.y, shutdown)
  }

  lemma ResponseCounts(s: State, e: Error, r: Response, l': Life, nowOpen: bool, shutdown: Shutdown)
    requires HandshakeAnswered(ResponseRead(s.y.l, e, r), s.y.l, l', nowOpen, shutdown)
    ensures Counts(s, ResponseEnd(s, e, r), l', nowOpen, shutdown)
  {
    hide ResponseRead;
  }

  lemma WrittenCounts(s: State, e: Error, upgrade: bool, outcome: Error, l': Life, nowOpen: bool, shutdown: Shutdown)
    requires HandshakeAnswered(ResponseWritten(s.y.l, e, upgrade, outcome), s.y.l, l', nowOpen, shutdown)
    requires !ResponseWritten(s.y.l, e, upgrade, outcome).FallsThrough?
    ensures Counts(s, WrittenEnd(s, e, upgrade, outcome), l', nowOpen, shutdown)
  {
    hide ResponseWritten;
  }

  // ---- The beginning of a read ----

  function ReadStep(s: State, e: Error): Step {
    if s.strand == Idle then ReadFrame(e) else OpenReturns
  }

  function ReadEnds(s: State, e: Error): State {
    var (y, strand) := AfterFrameRead(s.y, FrameRead(s.y.l, e));
    State(s.w, y, strand)
  }

  lemma ReadCall(s: State, e: Error)
    requires s.strand == Idle || (s.strand == Opening && e == NoError)
    ensures Takes(s, [ReadStep(s, e)], ReadEnds(s, e))
  {
    hide Ended;
    OneStep(s, ReadStep(s, e));
  }

  /** What the beginning of a read makes of the lifecycle l, whether it reads on, and the shutdown asked for. */
  predicate ReadAnswered(r: ReadStart, l: Life, l': Life, readOn: bool, shutdown: Shutdown) {
    match r
    case ReadOn => l' == l && readOn && shutdown == NoShutdown
    case Drop => l' == l && !readOn && shutdown == NoShutdown
    case EndWith(e) => l' == Terminate(l, e) && !readOn && shutdown == TerminateShutdown(l)
  }

  lemma ReadCounts(s: State, e: Error, l': Life, readOn: bool, shutdown: Shutdown)
    requires ReadAnswered(FrameRead(s.y.l, e), s.y.l, l', readOn, shutdown)
    ensures Counts(s, ReadEnds(s, e), l', false, shutdown)
    ensures ReadEnds(s, e).strand == if readOn then Reading else Idle
  {
    hide FrameRead;
  }

  // ---- The handlers a shutdown calls ----

  /** Which shutdown a handler asks the transport for is what the counters of shutdowns in flight record. */
  predicate AsksFor(y: Cycle, y': Cycle, shutdown: Shutdown) {
    && y'.failedShutdowns == y.failedShutdowns + (if shutdown == AsFailed then 1 else 0)
    && y'.closedShutdowns == y.closedShutdowns + (if shutdown == AsClosed then 1 else 0)
  }

  /** The run so far has neither marked a closed session closing nor gone on after a failed negotiation. */
  ghost predicate OrderlySoFar(isServer: bool, run: seq<Step>) {
    Valid(Start(isServer), run) && OrderlyRun(Start(isServer), run)
  }

  lemma OrderlyIsTidy(isServer: bool, run: seq<Step>, s: State)
    requires Reached(isServer, run, s)
    ensures Tidy(s.y) <==> OrderlySoFar(isServer, run)
  {
    hide Start, Tidy, OrderlyRun;
    TidyExactly(Start(isServer), isServer, run);
  }

  lemma TidyShutdown(s: State, failed: bool)
    requires Kept(s) && Tidy(s.y) && Enabled(s, ShutdownDone(failed))
    ensures var y := AfterShutdown(s.y, failed);
      HandlersInOrder(y) && Over(y) && s.y.fails + s.y.closes == 0 && (failed <==> y.opens == 0)
  {
    StepIsTidy(s, ShutdownDone(failed));
    hide Kept;
    TidyMeansInOrder(AfterShutdown(s.y, failed));
  }

  /**
   While the run is orderly, a completed shutdown fires its handler first and only, close after open
   and fail without it.
   */
  lemma ShutdownFiresOnce(isServer: bool, run: seq<Step>, s: State, failed: bool)
    requires Reached(isServer, run, s) && OrderlySoFar(isServer, run)
    requires Enabled(s, ShutdownDone(failed))
    ensures var y := AfterShutdown(s.y, failed);
      HandlersInOrder(y) && Over(y) && s.y.fails + s.y.closes == 0 && (failed <==> y.opens == 0)
  {
    hide Reached, OrderlySoFar, Tidy, HandlersInOrder, Kept;
    OrderlyIsTidy(isServer, run, s);
    ReachedIsKept(isServer, run, s);
    TidyShutdown(s, failed);
  }

  /**
   What a received close frame makes of the lifecycle l and the pipe p, and the shutdown asked for;
   noted is l with the acknowledgement noted, if it is one.
   */
  predicate CloseAnswered(action: CloseAction, noted: Life, ack: Option<Message>,
                          l: Life, l': Life, p: Pipe, p': Pipe, shutdown: Shutdown) {
    match action
    case Nothing => l' == l && p' == p && shutdown == NoShutdown
    case NoteAck => l' == noted && p' == p && shutdown == NoShutdown
    case EndConnection(e) => l' == Terminate(noted, e) && p' == p && shutdown == TerminateShutdown(noted)
    case Acknowledge =>
      && l' == (if ack.Some? then MarkClosing(l, true) else l)
      && p' == (if ack.Some? then Push(p, ack.value) else p)
      && shutdown == NoShutdown
  }

  /** An object that answers so is where the steps of the protocol lead, and asks for what they count. */
  lemma CloseAnsweredInStep(s: State, malformed: bool, drop: bool, ack: Option<Message>,
                            l': Life, p': Pipe, shutdown: Shutdown)
    requires CloseAnswered(CloseReceived(s.y.l, malformed, drop), NoteClean(s.y.l, malformed), ack,
                           s.y.l, l', s.w.p, p', shutdown)
    ensures var t := ReceivedCloseEnd(s, malformed, drop, ack);
      && t.y.l == l' && t.w.p == p' && t.w.handed == s.w.handed && AsksFor(s.y, t.y, shutdown)
      && t.w.frames == s.w.frames
           + if CloseReceived(s.y.l, malformed, drop).Acknowledge? && ack.Some? && !s.w.p.writeFlag then 1 else 0
  {
    hide CloseReceived;
  }
}
