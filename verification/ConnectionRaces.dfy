/** Interleavings in which the connection does not keep what its handlers' documentation promises. */
module ConnectionRaces {
  import opened Connection
  import opened ConnectionMachine
  import opened ConnectionLifecycle

  /** One more step at the end of a run. */
  lemma {:induction false} Append(s: State, run: seq<Step>, t: Step)
    requires Valid(s, run) && Enabled(After(s, run), t)
    ensures Valid(s, run + [t]) && After(s, run + [t]) == Apply(After(s, run), t)
    decreases run
  {
    if run == [] {
      assert run + [t] == [t];
    } else {
      assert (run + [t])[1..] == run[1..] + [t];
      Append(Apply(s, run[0]), run[1..], t);
    }
  }

  /** A server connection that has just been opened and is waiting for frames. */
  lemma Opened() returns (run: seq<Step>)
    ensures Valid(Start(true), run)
    ensures var s := After(Start(true), run);
      && s == Start(true).(y := s.y) && s.y.opens == 1 && s.y.closes == 0
      && s.y == Start(true).y.(opens := 1, l := s.y.l)
      && s.y.l == Life(true, Open, ProcessConnection, false, NoError)
  {
    var s := Start(true);
    run := [];
    Append(s, run, Advance(ProcessHttpRequest));
    run := run + [Advance(ProcessHttpRequest)];
    Append(s, run, HandshakeWritten(NoError, true, NoError));
    run := run + [HandshakeWritten(NoError, true, NoError)];
    Append(s, run, OpenReturns);
    run := run + [OpenReturns];
    Append(s, run, ReadEnd);
    run := run + [ReadEnd];
  }

  /**
   send checks the state under one lock and pushes under another: a close in between puts the
   data frame behind the close frame.
   */
  lemma DataAfterClose(data: Message, close: Message) returns (run: seq<Step>)
    requires data.kind == Data && close.kind == Close
    ensures Valid(Start(true), run)
    ensures After(Start(true), run).w.pushed == [close, data]
  {
    var s := Start(true);
    run := Opened();
    Append(s, run, SendCheck);
    run := run + [SendCheck];
    Append(s, run, CloseCheck);
    run := run + [CloseCheck];
    Append(s, run, CloseMark);
    run := run + [CloseMark];
    Append(s, run, ClosePush(close));
    run := run + [ClosePush(close)];
    Append(s, run, SendPush(data));
    run := run + [SendPush(data)];
  }

  lemma CloseChecks() returns (run: seq<Step>)
    ensures Valid(Start(true), run)
    ensures var s := After(Start(true), run);
      && s.strand == Idle && s.y.closer == CloseChecked && s.y.closes == 0 && s.y.closedShutdowns == 0
      && s.y.l == Life(true, Open, ProcessConnection, false, NoError)
  {
    run := Opened();
    Append(Start(true), run, CloseCheck);
    run := run + [CloseCheck];
  }

  /** close() has checked the state; then the strand terminates and the close handler fires. */
  lemma ClosedUnderneath() returns (run: seq<Step>)
    ensures Valid(Start(true), run)
    ensures var s := After(Start(true), run);
      && s.strand == Idle && s.y.closer == CloseChecked && s.y.closes == 1
  {
    var s := Start(true);
    run := CloseChecks();
    Append(s, run, ReadFrame(OtherError));
    run := run + [ReadFrame(OtherError)];
    Append(s, run, ShutdownDone(false));
    run := run + [ShutdownDone(false)];
  }

  /**
   terminate takes no lock: when it runs between the check and the assignment of close(), the
   session goes back from closed to closing, is terminated again, and the close handler fires twice.
   */
  lemma CloseHandlerTwice() returns (run: seq<Step>)
    ensures Valid(Start(true), run)
    ensures After(Start(true), run).y.closes == 2
  {
    var s := Start(true);
    run := ClosedUnderneath();
    Append(s, run, CloseMark);
    run := run + [CloseMark];
    Append(s, run, EndNow(OtherError));
    run := run + [EndNow(OtherError)];
    Append(s, run, ShutdownDone(false));
    run := run + [ShutdownDone(false)];
  }

  lemma Fallen() returns (run: seq<Step>)
    ensures Valid(Start(false), run)
    ensures var s := After(Start(false), run);
      && s.strand == Falling && s.y.opens == 0 && s.y.fails == 0
      && s.y.l == Life(false, Closed, ReadHttpResponse, false, OtherError)
      && s.y.failedShutdowns == 1
  {
    var s := Start(false);
    run := [];
    Append(s, run, Advance(ReadHttpResponse));
    run := run + [Advance(ReadHttpResponse)];
    Append(s, run, HandshakeRead(NoError, NegotiationFailed));
    run := run + [HandshakeRead(NoError, NegotiationFailed)];
  }

  /** A client whose extension negotiation fails is terminated and opened: both handlers fire. */
  lemma OpenAndFail() returns (run: seq<Step>)
    ensures Valid(Start(false), run)
    ensures After(Start(false), run).y.opens == 1 && After(Start(false), run).y.fails == 1
  {
    var s := Start(false);
    run := Fallen();
    Append(s, run, FallThrough);
    run := run + [FallThrough];
    Append(s, run, OpenReturns);
    run := run + [OpenReturns];
    Append(s, run, ReadEnd);
    run := run + [ReadEnd];
    Append(s, run, ShutdownDone(true));
    run := run + [ShutdownDone(true)];
  }
}
