/** Which user handlers fire, and what may be queued once a close frame is. */
module ConnectionLifecycle {
  import opened Connection
  import opened ConnectionMachine

  predicate ClosedOrClosing(l: Life) {
    l.session == Closing || l.session == Closed
  }

  predicate HasClose(q: seq<Message>) {
    exists i :: 0 <= i < |q| && q[i].kind == Close
  }

  /** Nothing has been called, dispatched or counted yet. */
  predicate Untouched(s: State) {
    && s.y.closer == NoCloser && s.y.senders == 0 && s.y.opens == 0
    && s.w.pushed == [] && s.w.frames == 0 && s.w.dispatchers == 0 && !s.w.outstanding
    && s.y.fails == 0 && s.y.failsDone == 0 && s.y.closes == 0 && s.y.closedShutdowns == 0
  }

  /** What holds in every interleaving, orderly or not. */
  predicate Sane(s: State) {
    && (s.y.l.session == Connecting ==>
          Untouched(s) && s.y.failedShutdowns == 0 && s.strand == Idle && s.y.l.internal != ProcessConnection)
    && (s.strand == Falling ==> Untouched(s) && s.y.failedShutdowns == 1 && s.y.l.session == Closed)
    && (s.strand == Opening || s.strand == Acking ==> s.y.l.session == Open || s.y.l.session == Closing)
    && (s.strand == AckPushing ==> s.y.l.session == Closing)
    && (s.y.closer == CloseMarked ==> ClosedOrClosing(s.y.l))
    && (HasClose(s.w.pushed) ==> ClosedOrClosing(s.y.l))
  }

  predicate Pushes(t: Step) {
    t.SendPush? || t.ClosePush? || t.AckPush?
  }

  lemma HasCloseAppend(q: seq<Message>, m: Message)
    ensures HasClose(q + [m]) <==> HasClose(q) || m.kind == Close
  {
    if HasClose(q) {
      var i :| 0 <= i < |q| && q[i].kind == Close;
      assert (q + [m])[i].kind == Close;
    }
    assert (q + [m])[|q|] == m;
    if HasClose(q + [m]) {
      var i :| 0 <= i < |q + [m]| && (q + [m])[i].kind == Close;
      assert i < |q| ==> q[i].kind == Close;
    }
  }

  lemma StepIsSane(s: State, t: Step)
    requires Sane(s) && Enabled(s, t)
    ensures Sane(Apply(s, t))
  {
    if Pushes(t) {
      HasCloseAppend(s.w.pushed, t.m);
    } else {
      assert Apply(s, t).w.pushed == s.w.pushed;
    }
  }

  // ---- Session state only moves forward, and exactly when ----

  /**
   The two steps that act on a state that is no longer there: close() marking the session closing
   after the strand has terminated it, and handle_read_http_response going on after it has
   terminated a connection whose extension negotiation failed.
   */
  predicate Orderly(s: State, t: Step) {
    && (t.CloseMark? ==> s.y.l.session != Closed)
    && !t.FallThrough?
  }

  lemma ForwardStep(s: State, t: Step)
    requires Sane(s) && Enabled(s, t)
    ensures s.y.l.session.Rank() <= Apply(s, t).y.l.session.Rank() <==> Orderly(s, t)
  {
  }

  ghost predicate Forward(s: State, run: seq<Step>)
    requires Valid(s, run)
    decreases run
  {
    run != [] ==>
      var s' := Apply(s, run[0]);
      s.y.l.session.Rank() <= s'.y.l.session.Rank() && Forward(s', run[1..])
  }

  ghost predicate OrderlyRun(s: State, run: seq<Step>)
    requires Valid(s, run)
    decreases run
  {
    run != [] ==> Orderly(s, run[0]) && OrderlyRun(Apply(s, run[0]), run[1..])
  }

  lemma {:induction false} ForwardExactly(s: State, run: seq<Step>)
    requires Sane(s) && Valid(s, run)
    ensures Forward(s, run) <==> OrderlyRun(s, run)
    decreases run
  {
    if run != [] {
      ForwardStep(s, run[0]);
      StepIsSane(s, run[0]);
      ForwardExactly(Apply(s, run[0]), run[1..]);
    }
  }

  /** Over every run the session state moves forward if and only if no such step is taken. */
  lemma SessionMovesForward(isServer: bool, run: seq<Step>)
    requires Valid(Start(isServer), run)
    ensures Forward(Start(isServer), run) <==> OrderlyRun(Start(isServer), run)
  {
    ForwardExactly(Start(isServer), run);
  }

  // ---- Handlers ----

  /** Shutdowns asked for so far. */
  function Endings(y: Cycle): nat {
    y.failedShutdowns + y.failsDone + y.closedShutdowns + y.closes
  }

  predicate Tidy(y: Cycle) {
    && Endings(y) == (if y.l.session == Closed then 1 else 0)
    && y.fails <= y.failsDone
    && y.opens <= 1
    && (y.l.session == Connecting ==> y.opens == 0)
    && (y.l.session == Open || y.l.session == Closing ==> y.opens == 1)
    && (if y.opens == 1 then y.failedShutdowns + y.failsDone == 0 else y.closedShutdowns + y.closes == 0)
  }

  lemma EndedIsTidy(y: Cycle, e: Error)
    requires Tidy(y)
    ensures Tidy(Ended(y, e))
  {
  }

  lemma TidyHandshake(s: State, t: Step)
    requires Sane(s) && Tidy(s.y) && Enabled(s, t) && Orderly(s, t)
    requires t.HandshakeWritten? || t.HandshakeRead?
    ensures Tidy(Apply(s, t).y)
  {
    hide Ended;
    match t
    case HandshakeWritten(e, upgrade, outcome) =>
      var h := ResponseWritten(s.y.l, e, upgrade, outcome);
      EndedIsTidy(s.y, if h.Terminated? then h.e else NoError);
    case HandshakeRead(e, r) =>
      var h := ResponseRead(s.y.l, e, r);
      EndedIsTidy(s.y, if h.Terminated? then h.e else OtherError);
  }

  lemma TidyReading(s: State, t: Step)
    requires Sane(s) && Tidy(s.y) && Enabled(s, t) && Orderly(s, t)
    requires t.OpenReturns? || t.ReadFrame? || t.GotClose? || t.GotRubbish?
    ensures Tidy(Apply(s, t).y)
  {
    hide Ended;
    match t
    case OpenReturns =>
      var r := FrameRead(s.y.l, NoError);
      EndedIsTidy(s.y, if r.EndWith? then r.e else NoError);
    case ReadFrame(e) =>
      var r := FrameRead(s.y.l, e);
      EndedIsTidy(s.y, if r.EndWith? then r.e else NoError);
    case GotClose(malformed, drop) =>
      var y' := s.y.(l := NoteClean(s.y.l, malformed));
      var c := CloseReceived(s.y.l, malformed, drop);
      EndedIsTidy(y', if c.EndConnection? then c.e else NoError);
    case GotRubbish(_) => EndedIsTidy(s.y, OtherError);
  }

  lemma TidyOther(s: State, t: Step)
    requires Sane(s) && Tidy(s.y) && Enabled(s, t) && Orderly(s, t)
    requires !t.HandshakeWritten? && !t.HandshakeRead? && !t.OpenReturns?
    requires !t.ReadFrame? && !t.GotClose? && !t.GotRubbish?
    ensures Tidy(Apply(s, t).y)
  {
    hide Ended;
    match t
    case WriteDone(failed) => EndedIsTidy(s.y, if failed then OtherError else NoError);
    case EndNow(e) => EndedIsTidy(s.y, e);
    case _ =>
  }

  lemma StepIsTidy(s: State, t: Step)
    requires Sane(s) && Tidy(s.y) && Enabled(s, t) && Orderly(s, t)
    ensures Tidy(Apply(s, t).y)
  {
    hide Sane, Tidy, Enabled, Apply, Orderly;
    if t.HandshakeWritten? || t.HandshakeRead? {
      TidyHandshake(s, t);
    } else if t.OpenReturns? || t.ReadFrame? || t.GotClose? || t.GotRubbish? {
      TidyReading(s, t);
    } else {
      TidyOther(s, t);
    }
  }

  lemma {:induction false} RunIsTidy(s: State, run: seq<Step>)
    requires Sane(s) && Tidy(s.y) && Valid(s, run) && OrderlyRun(s, run)
    ensures Tidy(After(s, run).y) && HandlersInOrder(After(s, run).y)
    decreases run
  {
    if run != [] {
      StepIsTidy(s, run[0]);
      StepIsSane(s, run[0]);
      RunIsTidy(Apply(s, run[0]), run[1..]);
    } else {
      TidyMeansInOrder(s.y);
    }
  }

  /**
   Open fires at most once, at most one of fail and close fires and at most once, close only
   after open, fail only if open never fired, and a completed shutdown of an opened connection
   has fired close exactly once.
   */
  predicate HandlersInOrder(y: Cycle) {
    && y.opens <= 1
    && y.fails + y.closes <= 1
    && (y.closes > 0 ==> y.opens == 1)
    && (y.fails > 0 ==> y.opens == 0)
    && (y.l.session != Closed ==> y.fails + y.closes == 0)
    && (y.l.session == Closed && y.failedShutdowns + y.closedShutdowns == 0 ==>
          if y.opens == 1 then y.closes == 1 else y.failsDone == 1)
  }

  lemma TidyMeansInOrder(y: Cycle)
    requires Tidy(y)
    ensures HandlersInOrder(y)
  {
  }

  lemma UncountedIsTidy(y: Cycle)
    requires y.l.session == Connecting && y.opens == 0 && y.fails == 0 && Endings(y) == 0
    ensures Tidy(y)
  {
  }

  lemma FreshIsTidy(s: State, run: seq<Step>)
    requires s.y.l.session == Connecting && s.y.fails == 0 && Endings(s.y) == 0
    requires Sane(s) && Valid(s, run) && OrderlyRun(s, run)
    ensures HandlersInOrder(After(s, run).y)
  {
    UncountedIsTidy(s.y);
    RunIsTidy(s, run);
  }

  lemma FreshEnds(s: State, run: seq<Step>)
    requires s.y.l.session == Connecting && s.y.fails == 0 && Endings(s.y) == 0
    requires Sane(s) && Valid(s, run)
    ensures var y := After(s, run).y;
      && (Ends(y) == 1 <==> OrderlyRun(s, run))
      && (Over(y) ==> (y.failsDone + y.closes == 1 <==> OrderlyRun(s, run)))
      && (OrderlyRun(s, run) ==> HandlersInOrder(y))
  {
    RunEnds(s, run);
    hide Sane, OrderlyRun, HandlersInOrder;
    if OrderlyRun(s, run) {
      FreshIsTidy(s, run);
    }
  }

  lemma StartIsSane(isServer: bool)
    ensures Sane(Start(isServer))
  {
  }

  lemma StartIsUncounted(isServer: bool)
    ensures Endings(Start(isServer).y) == 0
    ensures Start(isServer).y.opens == 0 && Start(isServer).y.fails == 0 && Start(isServer).y.l.session == Connecting
  {
  }

  /** How often the connection ends: the shutdowns asked for, and the one still to come while it is alive. */
  function Ends(y: Cycle): nat {
    Endings(y) + if y.l.session == Closed then 0 else 1
  }

  lemma EndsHandshake(s: State, t: Step)
    requires Sane(s) && Enabled(s, t)
    requires t.HandshakeWritten? || t.HandshakeRead?
    ensures Ends(Apply(s, t).y) == Ends(s.y) + if Orderly(s, t) then 0 else 1
  {
    hide Ended;
    match t
    case HandshakeWritten(e, upgrade, outcome) =>
      var h := ResponseWritten(s.y.l, e, upgrade, outcome);
      EndedEnds(s.y, if h.Terminated? then h.e else NoError);
    case HandshakeRead(e, r) =>
      var h := ResponseRead(s.y.l, e, r);
      EndedEnds(s.y, if h.Terminated? then h.e else OtherError);
  }

  lemma EndsReading(s: State, t: Step)
    requires Sane(s) && Enabled(s, t)
    requires t.OpenReturns? || t.ReadFrame? || t.GotClose? || t.GotRubbish?
    ensures Ends(Apply(s, t).y) == Ends(s.y) + if Orderly(s, t) then 0 else 1
  {
    hide Ended;
    match t
    case OpenReturns =>
      var r := FrameRead(s.y.l, NoError);
      EndedEnds(s.y, if r.EndWith? then r.e else NoError);
    case ReadFrame(e) =>
      var r := FrameRead(s.y.l, e);
      EndedEnds(s.y, if r.EndWith? then r.e else NoError);
    case GotClose(malformed, drop) =>
      var y' := s.y.(l := NoteClean(s.y.l, malformed));
      var c := CloseReceived(s.y.l, malformed, drop);
      EndedEnds(y', if c.EndConnection? then c.e else NoError);
    case GotRubbish(_) => EndedEnds(s.y, OtherError);
  }

  lemma EndsOther(s: State, t: Step)
    requires Sane(s) && Enabled(s, t)
    requires !t.HandshakeWritten? && !t.HandshakeRead? && !t.OpenReturns?
    requires !t.ReadFrame? && !t.GotClose? && !t.GotRubbish?
    ensures Ends(Apply(s, t).y) == Ends(s.y) + if Orderly(s, t) then 0 else 1
  {
    hide Ended;
    match t
    case WriteDone(failed) => EndedEnds(s.y, if failed then OtherError else NoError);
    case EndNow(e) => EndedEnds(s.y, e);
    case _ =>
  }

  lemma EndsStep(s: State, t: Step)
    requires Sane(s) && Enabled(s, t)
    ensures Ends(Apply(s, t).y) == Ends(s.y) + if Orderly(s, t) then 0 else 1
  {
    hide Sane, Ends, Enabled, Apply, Orderly;
    if t.HandshakeWritten? || t.HandshakeRead? {
      EndsHandshake(s, t);
    } else if t.OpenReturns? || t.ReadFrame? || t.GotClose? || t.GotRubbish? {
      EndsReading(s, t);
    } else {
      EndsOther(s, t);
    }
  }

  /** Terminating counts the ending that was still to come, and only that. */
  lemma EndedEnds(y: Cycle, e: Error)
    ensures Ends(Ended(y, e)) == Ends(y)
  {
  }

  lemma {:induction false} RunEnds(s: State, run: seq<Step>)
    requires Sane(s) && Valid(s, run)
    ensures Ends(After(s, run).y) >= Ends(s.y)
    ensures Ends(After(s, run).y) == Ends(s.y) <==> OrderlyRun(s, run)
    decreases run
  {
    if run != [] {
      EndsStep(s, run[0]);
      StepIsSane(s, run[0]);
      RunEnds(Apply(s, run[0]), run[1..]);
    }
  }

  /** Closed, and every shutdown asked for has completed. */
  predicate Over(y: Cycle) {
    y.l.session == Closed && y.failedShutdowns + y.closedShutdowns == 0
  }

  /**
   Over every run: the connection ends once, counting the ending still to come, if and only if the
   run is orderly; so when it is over, exactly one shutdown has completed, as failed or as closed,
   if and only if the run was orderly. And over every orderly run the handlers fire in order.
   */
  lemma LifecycleHandlers(start: State, isServer: bool, run: seq<Step>)
    requires start == Start(isServer) && Valid(start, run)
    ensures var y := After(start, run).y;
      && (Ends(y) == 1 <==> OrderlyRun(start, run))
      && (Over(y) ==> (y.failsDone + y.closes == 1 <==> OrderlyRun(start, run)))
      && (OrderlyRun(start, run) ==> HandlersInOrder(y))
  {
    hide Sane, Endings, OrderlyRun, HandlersInOrder;
    StartIsSane(isServer);
    StartIsUncounted(isServer);
    FreshEnds(start, run);
  }

  lemma TidyEndsOnce(y: Cycle)
    requires Tidy(y)
    ensures Ends(y) == 1
  {
  }

  lemma FreshTidyExactly(s: State, run: seq<Step>)
    requires s.y.l.session == Connecting && s.y.opens == 0 && s.y.fails == 0 && Endings(s.y) == 0
    requires Sane(s) && Valid(s, run)
    ensures Tidy(After(s, run).y) <==> OrderlyRun(s, run)
  {
    RunEnds(s, run);
    UncountedIsTidy(s.y);
    hide Sane, OrderlyRun, Tidy, HandlersInOrder;
    if OrderlyRun(s, run) {
      RunIsTidy(s, run);
    }
    if Tidy(After(s, run).y) {
      TidyEndsOnce(After(s, run).y);
    }
  }

  /** The counters are tidy exactly when the run that led to them was orderly. */
  lemma TidyExactly(start: State, isServer: bool, run: seq<Step>)
    requires start == Start(isServer) && Valid(start, run)
    ensures Tidy(After(start, run).y) <==> OrderlyRun(start, run)
  {
    hide Sane, Endings, OrderlyRun, Tidy;
    StartIsSane(isServer);
    StartIsUncounted(isServer);
    FreshTidyExactly(start, run);
  }

  // ---- No data after close ----

  /** Nothing but close frames follows a close frame. */
  predicate CloseIsLast(q: seq<Message>) {
    forall i, j :: 0 <= i < j < |q| && q[i].kind == Close ==> q[j].kind == Close
  }

  /** A call of send, ping or pong still finds the session open when it pushes; it does if the call is atomic. */
  predicate Timely(s: State, t: Step) {
    t.SendPush? ==> s.y.l.session == Open
  }

  ghost predicate TimelyRun(s: State, run: seq<Step>)
    requires Valid(s, run)
    decreases run
  {
    run != [] ==> Timely(s, run[0]) && TimelyRun(Apply(s, run[0]), run[1..])
  }

  lemma {:induction false} RunIsSane(s: State, run: seq<Step>)
    requires Sane(s) && Valid(s, run)
    ensures Sane(After(s, run))
    decreases run
  {
    if run != [] {
      StepIsSane(s, run[0]);
      RunIsSane(Apply(s, run[0]), run[1..]);
    }
  }

  /** What a push of send, ping or pong could check under the write lock: no close frame has been pushed. */
  predicate BeforeClose(s: State, t: Step) {
    t.SendPush? ==> !HasClose(s.w.pushed)
  }

  ghost predicate BeforeCloseRun(s: State, run: seq<Step>)
    requires Valid(s, run)
    decreases run
  {
    run != [] ==> BeforeClose(s, run[0]) && BeforeCloseRun(Apply(s, run[0]), run[1..])
  }

  lemma CloseIsLastAppend(q: seq<Message>, m: Message)
    ensures CloseIsLast(q + [m]) <==> CloseIsLast(q) && (HasClose(q) ==> m.kind == Close)
  {
    if CloseIsLast(q + [m]) {
      forall i, j | 0 <= i < j < |q| && q[i].kind == Close ensures q[j].kind == Close {
        assert (q + [m])[i] == q[i] && (q + [m])[j] == q[j];
      }
      if HasClose(q) {
        var i :| 0 <= i < |q| && q[i].kind == Close;
        assert (q + [m])[i] == q[i] && (q + [m])[|q|] == m;
      }
    }
  }

  lemma BeforeCloseStep(s: State, t: Step)
    requires Enabled(s, t)
    ensures CloseIsLast(Apply(s, t).w.pushed) <==> CloseIsLast(s.w.pushed) && BeforeClose(s, t)
  {
    if Pushes(t) {
      CloseIsLastAppend(s.w.pushed, t.m);
    } else {
      assert Apply(s, t).w.pushed == s.w.pushed;
    }
  }

  lemma {:induction false} CloseIsLastExactly(s: State, run: seq<Step>)
    requires Valid(s, run)
    ensures CloseIsLast(After(s, run).w.pushed) <==> CloseIsLast(s.w.pushed) && BeforeCloseRun(s, run)
    decreases run
  {
    if run != [] {
      BeforeCloseStep(s, run[0]);
      CloseIsLastExactly(Apply(s, run[0]), run[1..]);
    }
  }

  /** A push that finds the session open comes before any close frame. */
  lemma {:induction false} TimelyIsBeforeClose(s: State, run: seq<Step>)
    requires Sane(s) && Valid(s, run) && TimelyRun(s, run)
    ensures BeforeCloseRun(s, run)
    decreases run
  {
    if run != [] {
      StepIsSane(s, run[0]);
      TimelyIsBeforeClose(Apply(s, run[0]), run[1..]);
    }
  }

  /**
   Over every run: only close frames follow a close frame if and only if no send, ping or pong
   pushes after one; that is so when each of them still finds the session open; and once a close
   frame is pushed the session is closing or closed.
   */
  lemma NoDataAfterClose(isServer: bool, run: seq<Step>)
    requires Valid(Start(isServer), run)
    ensures var s := After(Start(isServer), run);
      && (CloseIsLast(s.w.pushed) <==> BeforeCloseRun(Start(isServer), run))
      && (TimelyRun(Start(isServer), run) ==> BeforeCloseRun(Start(isServer), run))
      && (HasClose(s.w.pushed) ==> ClosedOrClosing(s.y.l))
  {
    RunIsSane(Start(isServer), run);
    CloseIsLastExactly(Start(isServer), run);
    if TimelyRun(Start(isServer), run) {
      TimelyIsBeforeClose(Start(isServer), run);
    }
  }

  // ---- With public calls atomic ----

  /** What the step after t has to be if the call t belongs to is not interrupted. */
  predicate GoesOn(t: Step, next: Step) {
    && (t.SendCheck? ==> next.SendPush? || next.SendDrop?)
    && (t.CloseCheck? ==> next.CloseMark? || next.CloseDrop?)
    && (t.CloseMark? ==> next.ClosePush?)
  }

  /** Calls of send, ping, pong and close run without another thread in between. */
  predicate Atomic(run: seq<Step>) {
    forall i :: 0 <= i < |run| - 1 ==> GoesOn(run[i], run[i + 1])
  }

  /** negotiate_extensions never reports an error. */
  predicate Negotiated(run: seq<Step>) {
    forall i :: 0 <= i < |run| ==> !(run[i].HandshakeRead? && run[i].r == NegotiationFailed)
  }

  /** Between two steps of an atomic run: no send is open, or the one that is pushes or gives up next. */
  predicate SendGoesOn(s: State, run: seq<Step>) {
    || s.y.senders == 0
    || (s.y.senders == 1 && s.y.l.session == Open && (run == [] || run[0].SendPush? || run[0].SendDrop?))
  }

  lemma SendGoesOnStep(s: State, t: Step, rest: seq<Step>)
    requires SendGoesOn(s, [t] + rest) && Enabled(s, t)
    requires rest != [] ==> GoesOn(t, rest[0])
    ensures Timely(s, t) && SendGoesOn(Apply(s, t), rest)
  {
    assert ([t] + rest)[0] == t;
  }

  lemma {:induction false} AtomicIsTimely(s: State, run: seq<Step>)
    requires SendGoesOn(s, run) && Valid(s, run) && Atomic(run)
    ensures TimelyRun(s, run)
    decreases run
  {
    if run != [] {
      assert run == [run[0]] + run[1..];
      assert |run| > 1 ==> GoesOn(run[0], run[1]);
      SendGoesOnStep(s, run[0], run[1..]);
      AtomicIsTimely(Apply(s, run[0]), run[1..]);
    }
  }

  /** The same for close, where the mark comes while the session is still open. */
  predicate CloseGoesOn(s: State, run: seq<Step>) {
    && s.strand != Falling
    && match s.y.closer
       case NoCloser => true
       case CloseChecked => s.y.l.session == Open && (run == [] || run[0].CloseMark? || run[0].CloseDrop?)
       case CloseMarked => run == [] || run[0].ClosePush?
  }

  lemma CloseGoesOnStep(s: State, t: Step, rest: seq<Step>)
    requires CloseGoesOn(s, [t] + rest) && Enabled(s, t)
    requires !(t.HandshakeRead? && t.r == NegotiationFailed)
    requires rest != [] ==> GoesOn(t, rest[0])
    ensures Orderly(s, t) && CloseGoesOn(Apply(s, t), rest)
  {
    assert ([t] + rest)[0] == t;
  }

  lemma {:induction false} AtomicIsOrderly(s: State, run: seq<Step>)
    requires CloseGoesOn(s, run) && Valid(s, run) && Atomic(run) && Negotiated(run)
    ensures OrderlyRun(s, run)
    decreases run
  {
    if run != [] {
      assert run == [run[0]] + run[1..];
      assert |run| > 1 ==> GoesOn(run[0], run[1]);
      CloseGoesOnStep(s, run[0], run[1..]);
      AtomicIsOrderly(Apply(s, run[0]), run[1..]);
    }
  }

  lemma StartGoesOn(isServer: bool, run: seq<Step>)
    ensures SendGoesOn(Start(isServer), run) && CloseGoesOn(Start(isServer), run)
  {
  }

  /** With public calls atomic, every run queues nothing but close frames behind a close frame. */
  lemma AtomicCallsKeepCloseLast(isServer: bool, run: seq<Step>)
    requires Valid(Start(isServer), run) && Atomic(run)
    ensures CloseIsLast(After(Start(isServer), run).w.pushed)
  {
    StartGoesOn(isServer, run);
    AtomicIsTimely(Start(isServer), run);
    NoDataAfterClose(isServer, run);
  }

  /**
   With public calls atomic and extension negotiation successful, in every run the session moves
   forward and the handlers fire in order.
   */
  lemma AtomicCallsKeepOrder(start: State, isServer: bool, run: seq<Step>)
    requires start == Start(isServer) && Valid(start, run) && Atomic(run) && Negotiated(run)
    ensures Forward(start, run)
    ensures HandlersInOrder(After(start, run).y)
  {
    StartGoesOn(isServer, run);
    AtomicIsOrderly(start, run);
    SessionMovesForward(isServer, run);
    LifecycleHandlers(start, isServer, run);
  }
}
