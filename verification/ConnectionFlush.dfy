/**
 Progress of the write pipeline. No lost wakeup says that nobody waits for nothing; here the
 schedule that writes everything out is constructed, from any reachable state.
 */
module ConnectionFlush {
  import opened Connection
  import opened ConnectionMachine
  import opened ConnectionPipeline

  /** Steps by which no application thread starts or goes on with a call that pushes. */
  predicate Unprompted(t: Step) {
    !t.SendCheck? && !t.SendPush? && !t.CloseCheck? && !t.CloseMark? && !t.ClosePush?
  }

  function StrandRank(p: Strand): nat {
    match p
    case AckPushing => 300
    case Falling => 70
    case Opening => 60
    case Acking => 55
    case Reading => 50
    case _ => 0
  }

  function WriteRank(w: Writer, p: Strand): nat {
    if p == Handing then 12
    else if w.outstanding then 11
    else if p == Releasing then 10
    else if p == Redispatching then 9
    else if w.frames == 0 then 8
    else 7
  }

  function Distance(s: State): nat {
    100 * |s.w.p.queue| + StrandRank(s.strand) + WriteRank(s.w, s.strand)
  }

  predicate Flushed(s: State) {
    s.w.dead || (s.w.p.queue == [] && s.w.p.current == [])
  }

  const CLOSE_FRAME: Message := Message(Close, [], [], false)

  /** The strand's way back to idle. */
  lemma StrandStep(s: State) returns (t: Step)
    requires Pipeline(s.w, s.strand) && StrandRank(s.strand) > 0
    ensures Unprompted(t) && t != WriteDone(true) && Enabled(s, t) && Distance(Apply(s, t)) < Distance(s)
  {
    match s.strand
    case AckPushing => t := AckPush(CLOSE_FRAME);
    case Falling => t := FallThrough;
    case Opening => t := OpenReturns;
    case Acking => t := AckDrop;
    case Reading => t := ReadEnd;
  }

  lemma WriterStep(s: State) returns (t: Step)
    requires Pipeline(s.w, s.strand) && StrandRank(s.strand) == 0 && !Flushed(s)
    ensures Unprompted(t) && t != WriteDone(true) && Enabled(s, t)
    ensures Distance(Apply(s, t)) < Distance(s) || Flushed(Apply(s, t))
  {
    match s.strand
    case Handing => t := HandOver;
    case Releasing => t := ReleaseFlag;
    case Redispatching => t := Redispatch;
    case Idle =>
      if s.w.outstanding {
        t := WriteDone(false);
      } else if s.w.frames > 0 {
        TakeSplits(s.w.p);
        t := RunWriteFrame;
        assert |Take(s.w.p).queue| < |s.w.p.queue|;
      } else {
        t := Dispatch;
      }
  }

  /**
   From every reachable state there is a schedule, with no further call from the application
   and every write succeeding, after which everything pushed has been written, unless a terminal
   message or a failed write ended the pipeline first.
   */
  lemma {:induction false} Flush(s: State) returns (run: seq<Step>)
    requires Pipeline(s.w, s.strand)
    ensures forall i :: 0 <= i < |run| ==> Unprompted(run[i]) && run[i] != WriteDone(true)
    ensures Valid(s, run)
    ensures After(s, run).w.dead || After(s, run).w.settled == After(s, run).w.pushed
    decreases Distance(s)
  {
    if Flushed(s) {
      run := [];
      assert s.w.settled + [] + [] == s.w.settled;
    } else {
      var t;
      if StrandRank(s.strand) > 0 {
        t := StrandStep(s);
      } else {
        t := WriterStep(s);
      }
      StepKeeps(s, t);
      var s' := Apply(s, t);
      if Flushed(s') {
        assert s'.w.settled + [] + [] == s'.w.settled;
        run := [t];
        assert run[1..] == [];
      } else {
        var rest := Flush(s');
        run := [t] + rest;
        assert run[1..] == rest;
      }
    }
  }

  // ---- Every schedule ----

  function Busy(w: Writer, p: Strand): nat {
    if p == Handing then 5
    else if w.outstanding then 4
    else if p == Releasing then 3
    else if p == Redispatching then 2
    else 0
  }

  /** What the pipeline has left to do. */
  function Work(s: State): nat {
    10 * |s.w.p.queue| + 2 * s.w.dispatchers + s.w.frames + Busy(s.w, s.strand)
  }

  /** A step of the write pipeline that is no push. */
  predicate Writes(t: Step) {
    OnPipeline(t) && !t.SendPush? && !t.ClosePush? && !t.AckPush?
  }

  function WriteSteps(run: seq<Step>): nat {
    if run == [] then 0 else (if Writes(run[0]) then 1 else 0) + WriteSteps(run[1..])
  }

  function PushSteps(run: seq<Step>): nat {
    if run == [] then 0 else (if OnPipeline(run[0]) && !Writes(run[0]) then 1 else 0) + PushSteps(run[1..])
  }

  lemma TakeShortens(p: Pipe)
    requires !p.writeFlag && p.current == []
    ensures Take(p).writeFlag ==> |Take(p).queue| < |p.queue|
    ensures !Take(p).writeFlag ==> Take(p).queue == p.queue
  {
    TakeSplits(p);
  }

  lemma FlagClear(w: Writer)
    requires Pipeline(w, Idle) && !w.p.writeFlag
    ensures w.p.current == [] && !w.outstanding
  {
  }

  lemma RunFromIdle(s: State)
    requires Enabled(s, RunWriteFrame)
    ensures s.strand == Idle
  {
  }

  lemma RunApplies(s: State)
    requires Enabled(s, RunWriteFrame)
    ensures var s' := Apply(s, RunWriteFrame);
      && s'.w == s.w.(p := Take(s.w.p), frames := s.w.frames - 1)
      && s'.strand == if !s.w.p.writeFlag && Take(s.w.p).writeFlag then Handing else Idle
    ensures s.strand == Idle && s.w.frames > 0
  {
    hide Take;
  }

  lemma FlagSet(p: Pipe)
    requires p.writeFlag
    ensures Take(p) == p
  {
  }

  lemma RunWorks(s: State)
    requires Enabled(s, RunWriteFrame) && (!s.w.p.writeFlag ==> s.w.p.current == [] && !s.w.outstanding)
    ensures Work(Apply(s, RunWriteFrame)) < Work(s)
  {
    hide Apply, Enabled, Take, BatchLength, Sizes;
    RunApplies(s);
    if s.w.p.writeFlag {
      FlagSet(s.w.p);
    } else {
      TakeShortens(s.w.p);
    }
    var s' := Apply(s, RunWriteFrame);
    assert s'.w.dispatchers == s.w.dispatchers && s'.w.frames == s.w.frames - 1 && s'.w.outstanding == s.w.outstanding;
  }

  lemma StrandWorks(s: State, t: Step)
    requires Pipeline(s.w, s.strand) && Enabled(s, t)
    requires t.Dispatch? || t.HandOver? || t.WriteDone? || t.ReleaseFlag? || t.Redispatch?
    ensures Work(Apply(s, t)) < Work(s)
  {
    hide Ended;
  }

  lemma PushWorks(s: State, t: Step)
    requires Pipeline(s.w, s.strand) && Enabled(s, t)
    requires t.SendPush? || t.ClosePush? || t.AckPush?
    ensures Work(Apply(s, t)) <= Work(s) + 12
  {
  }

  /** Every write step, failed or not, takes work away; a push adds a bounded amount, and nothing else adds any. */
  lemma WorkStep(s: State, t: Step)
    requires Pipeline(s.w, s.strand) && Enabled(s, t)
    ensures Work(Apply(s, t)) + (if Writes(t) then 1 else 0)
         <= Work(s) + (if OnPipeline(t) && !Writes(t) then 12 else 0)
  {
    hide Enabled, Apply, Pipeline;
    if !OnPipeline(t) {
      OffPipelineKeepsWork(s, t);
    } else if t.RunWriteFrame? {
      assert s.strand == Idle by { RunFromIdle(s); }
      if !s.w.p.writeFlag {
        FlagClear(s.w);
      }
      RunWorks(s);
    } else if Writes(t) {
      StrandWorks(s, t);
    } else {
      PushWorks(s, t);
    }
  }

  lemma OffPipelineKeepsWork(s: State, t: Step)
    requires Enabled(s, t) && !OnPipeline(t)
    ensures Work(Apply(s, t)) == Work(s)
  {
    OffPipeline(s, t);
    hide Enabled, Apply;
  }

  /** So over any run, whatever the schedule, the pipeline takes only as many steps as there is work. */
  lemma {:induction false} WorkBound(s: State, run: seq<Step>)
    requires Pipeline(s.w, s.strand) && Valid(s, run)
    ensures WriteSteps(run) + Work(After(s, run)) <= Work(s) + 12 * PushSteps(run)
    decreases run
  {
    hide Work;
    if run != [] {
      WorkStep(s, run[0]);
      StepKeeps(s, run[0]);
      WorkBound(Apply(s, run[0]), run[1..]);
    }
  }

  /** No write step can be taken, and the strand is free to take one. */
  ghost predicate Stuck(s: State) {
    s.strand == Idle && forall t: Step :: Writes(t) ==> !Enabled(s, t)
  }

  lemma StuckIsFlushed(s: State)
    requires Pipeline(s.w, s.strand) && Stuck(s)
    ensures s.w.dead || s.w.settled == s.w.pushed
  {
    assert !Enabled(s, Dispatch) && !Enabled(s, RunWriteFrame) && !Enabled(s, WriteDone(false));
    assert s.w.p.queue == [] || s.w.dead;
    if !s.w.dead {
      assert s.w.p.current == [];
      assert s.w.settled + [] + [] == s.w.settled;
    }
  }

  /**
   Every maximal schedule flushes: over any run the pipeline takes a bounded number of steps, and
   where it can take no more, everything pushed has been written, unless the pipeline is dead.
   */
  lemma EveryScheduleFlushes(isServer: bool, run: seq<Step>)
    requires Valid(Start(isServer), run)
    ensures WriteSteps(run) <= 12 * PushSteps(run)
    ensures var s := After(Start(isServer), run); Stuck(s) ==> s.w.dead || s.w.settled == s.w.pushed
  {
    Reachable(isServer, run);
    Reachable(isServer, []);
    WorkBound(Start(isServer), run);
    var s := After(Start(isServer), run);
    hide Enabled, Pipeline;
    if Stuck(s) {
      StuckIsFlushed(s);
    }
  }
}
