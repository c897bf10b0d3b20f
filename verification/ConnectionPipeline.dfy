/** What the write pipeline keeps in every interleaving. */
module ConnectionPipeline {
  import opened Bytes
  import opened Connection
  import opened ConnectionMachine

  /** m_send_buffer_size is the payload still queued. */
  ghost predicate Counted(w: Writer) {
    w.p.buffered == Sizes(w.p.queue)
  }

  /** Nothing is lost, duplicated or reordered between a push and the transport. */
  ghost predicate Conserved(w: Writer) {
    && w.settled + w.p.current + w.p.queue == w.pushed
    && w.handed == w.settled + (if w.outstanding then w.p.current else [])
  }

  /** The write flag is held by exactly one of: write_frame, the transport, handle_write_frame, a dead pipeline. */
  ghost predicate OneWriter(w: Writer, strand: Strand) {
    && (w.p.current != [] <==> w.outstanding || strand == Handing)
    && (w.p.writeFlag <==> w.outstanding || strand == Handing || strand == Releasing || w.dead)
    && (w.outstanding ==> strand != Handing && strand != Releasing && !w.dead)
    && (w.dead ==> strand != Handing && strand != Releasing)
    && (strand == Redispatching ==> !w.p.writeFlag)
  }

  /** A terminal message is the last of its batch, and once one is written the pipeline is dead. */
  ghost predicate Terminals(w: Writer) {
    && (forall i :: 0 <= i < |w.p.current| - 1 ==> !w.p.current[i].terminal)
    && (forall i :: 0 <= i < |w.settled| && w.settled[i].terminal ==> i == |w.settled| - 1 && w.dead)
  }

  /** A queue that nobody is writing has somebody on the way to write_frame. */
  ghost predicate Awake(w: Writer, strand: Strand) {
    w.p.queue != [] && !w.p.writeFlag ==> w.frames > 0 || w.dispatchers > 0 || strand == Redispatching
  }

  ghost predicate Pipeline(w: Writer, strand: Strand) {
    Counted(w) && Conserved(w) && OneWriter(w, strand) && Terminals(w) && Awake(w, strand)
  }

  lemma PushKeeps(w: Writer, m: Message, strand: Strand, strand': Strand)
    requires Pipeline(w, strand) && (strand' == strand || (strand == AckPushing && strand' == Reading))
    ensures Pipeline(Pushed(w, m), strand')
  {
    SizesConcat(w.p.queue, [m]);
    assert w.settled + w.p.current + (w.p.queue + [m]) == w.pushed + [m];
  }

  lemma TakeSplits(p: Pipe)
    requires !p.writeFlag && p.current == []
    ensures Take(p).current + Take(p).queue == p.queue
    ensures p.queue == [] <==> Take(p).current == []
    ensures Take(p).queue != [] ==> Take(p).current != []
    ensures forall i :: 0 <= i < |Take(p).current| - 1 ==> !Take(p).current[i].terminal
  {
    var n := BatchLength(p.queue);
    assert p.queue[..n] + p.queue[n..] == p.queue;
    assert Take(p).current == p.queue[..n];
  }

  lemma Regroup<T>(a: seq<T>, b: seq<T>, c: seq<T>)
    ensures a + b + c == a + (b + c)
    ensures a + [] + c == a + c
  {
  }

  lemma TakeConserves(w: Writer)
    requires Conserved(w) && !w.p.writeFlag && w.p.current == []
    ensures w.settled + Take(w.p).current + Take(w.p).queue == w.pushed
  {
    TakeSplits(w.p);
    Regroup(w.settled, Take(w.p).current, Take(w.p).queue);
    Regroup(w.settled, [], w.p.queue);
  }

  lemma TakeKeeps(w: Writer)
    requires Pipeline(w, Idle) && w.frames > 0
    ensures Pipeline(w.(p := Take(w.p), frames := w.frames - 1),
                     if !w.p.writeFlag && Take(w.p).writeFlag then Handing else Idle)
  {
    if !w.p.writeFlag {
      TakeConserves(w);
      TakeSplits(w.p);
      var w' := w.(p := Take(w.p), frames := w.frames - 1);
      assert Counted(w') && Conserved(w') && Terminals(w');
    }
  }

  lemma SettleKeeps(w: Writer, failed: bool)
    requires Pipeline(w, Idle) && w.outstanding
    ensures w.p.current != []
    ensures Pipeline(Settled(w, failed), if Final(w.p, failed) then Idle else Releasing)
  {
    var w' := Settled(w, failed);
    assert w'.settled + [] + w'.p.queue == w.settled + w.p.current + w.p.queue;
    forall i | 0 <= i < |w'.settled| && w'.settled[i].terminal
      ensures i == |w'.settled| - 1 && w'.dead
    {
      if i >= |w.settled| {
        assert w'.settled[i] == w.p.current[i - |w.settled|];
      }
    }
  }

  predicate InPipeline(p: Strand) {
    p == Handing || p == Releasing || p == Redispatching
  }

  predicate OnPipeline(t: Step) {
    || t.SendPush? || t.ClosePush? || t.AckPush? || t.Dispatch?
    || t.RunWriteFrame? || t.HandOver? || t.WriteDone? || t.ReleaseFlag? || t.Redispatch?
  }

  lemma OffPipeline(s: State, t: Step)
    requires Enabled(s, t) && !OnPipeline(t)
    ensures Apply(s, t).w == s.w
    ensures Apply(s, t).strand == s.strand || (!InPipeline(s.strand) && !InPipeline(Apply(s, t).strand))
  {
  }

  /** Every step, of any thread, keeps the pipeline invariant. */
  lemma StepKeeps(s: State, t: Step)
    requires Pipeline(s.w, s.strand) && Enabled(s, t)
    ensures Pipeline(Apply(s, t).w, Apply(s, t).strand)
  {
    if !OnPipeline(t) {
      OffPipeline(s, t);
    } else {
      match t
      case SendPush(m) => PushKeeps(s.w, m, s.strand, s.strand);
      case ClosePush(m) => PushKeeps(s.w, m, s.strand, s.strand);
      case AckPush(m) => PushKeeps(s.w, m, s.strand, Reading);
      case RunWriteFrame => TakeKeeps(s.w);
      case WriteDone(failed) => SettleKeeps(s.w, failed);
      case HandOver =>
      case ReleaseFlag =>
      case Redispatch =>
      case Dispatch =>
    }
  }

  lemma {:induction false} RunKeeps(s: State, run: seq<Step>)
    requires Pipeline(s.w, s.strand) && Valid(s, run)
    ensures Pipeline(After(s, run).w, After(s, run).strand)
    decreases run
  {
    if run != [] {
      StepKeeps(s, run[0]);
      RunKeeps(Apply(s, run[0]), run[1..]);
    }
  }

  lemma Reachable(isServer: bool, run: seq<Step>)
    requires Valid(Start(isServer), run)
    ensures var s := After(Start(isServer), run); Pipeline(s.w, s.strand)
  {
    RunKeeps(Start(isServer), run);
  }

  // ---- The theorems ----

  /**
   No lost wakeup: with no write_frame dispatched or about to be, the strand idle, no write
   outstanding and the pipeline not dead, everything pushed has been written.
   */
  lemma NoLostWakeup(isServer: bool, run: seq<Step>)
    requires Valid(Start(isServer), run)
    ensures var s := After(Start(isServer), run);
      && (s.w.p.queue != [] && !s.w.p.writeFlag ==>
            s.w.frames > 0 || s.w.dispatchers > 0 || s.strand == Redispatching)
      && (s.w.frames == 0 && s.w.dispatchers == 0 && s.strand == Idle && !s.w.outstanding && !s.w.dead ==>
            s.w.p.queue == [] && s.w.settled == s.w.pushed)
  {
    Reachable(isServer, run);
    var s := After(Start(isServer), run);
    if s.w.frames == 0 && s.w.dispatchers == 0 && s.strand == Idle && !s.w.outstanding && !s.w.dead {
      assert s.w.settled + s.w.p.current + s.w.p.queue == s.w.settled;
    }
  }

  /**
   handle_write_frame reads the last message of the batch without asking whether there is one.
   Over every run there is, so a completion of an outstanding write can always be run.
   */
  lemma CompletionHasBatch(isServer: bool, run: seq<Step>, failed: bool)
    requires Valid(Start(isServer), run)
    ensures var s := After(Start(isServer), run);
      s.w.outstanding && s.strand == Idle ==> s.w.p.current != [] && Enabled(s, WriteDone(failed))
  {
    Reachable(isServer, run);
  }

  /** FIFO conservation, and the buffered amount. */
  lemma FifoConservation(isServer: bool, run: seq<Step>)
    requires Valid(Start(isServer), run)
    ensures var w := After(Start(isServer), run).w;
      && w.settled + w.p.current + w.p.queue == w.pushed
      && w.handed <= w.pushed
      && w.p.buffered == Sizes(w.p.queue)
  {
    Reachable(isServer, run);
    var w := After(Start(isServer), run).w;
    assert w.pushed[..|w.handed|] == w.handed;
  }

  /** A step only ever adds at the end of the three histories, and hands over only what a live pipeline holds. */
  lemma HistoryGrows(s: State, t: Step)
    requires Pipeline(s.w, s.strand) && Enabled(s, t)
    ensures var w' := Apply(s, t).w;
      && s.w.pushed <= w'.pushed && s.w.handed <= w'.handed && s.w.settled <= w'.settled
      && (s.w.dead ==> w'.dead && w'.handed == s.w.handed)
  {
  }

  /** Once a write has failed or a terminal message is written, the transport is handed nothing more. */
  lemma {:induction false} DeadIsFinal(s: State, run: seq<Step>)
    requires Pipeline(s.w, s.strand) && s.w.dead && Valid(s, run)
    ensures After(s, run).w.dead && After(s, run).w.handed == s.w.handed
    decreases run
  {
    if run != [] {
      HistoryGrows(s, run[0]);
      StepKeeps(s, run[0]);
      DeadIsFinal(Apply(s, run[0]), run[1..]);
    }
  }

  /** One write at a time; and a terminal message is the last thing the transport is ever handed. */
  lemma SingleWriterAndFinality(isServer: bool, run: seq<Step>, more: seq<Step>)
    requires Valid(Start(isServer), run) && Valid(After(Start(isServer), run), more)
    ensures var s := After(Start(isServer), run);
      && (Enabled(s, HandOver) ==> !s.w.outstanding && s.w.p.current != [] && !s.w.dead)
      && (!s.w.p.writeFlag ==> s.w.p.current == [])
      && (forall i :: 0 <= i < |s.w.handed| && s.w.handed[i].terminal ==> i == |s.w.handed| - 1)
      && (s.w.dead ==> After(s, more).w.handed == s.w.handed)
  {
    Reachable(isServer, run);
    var s := After(Start(isServer), run);
    TerminalIsLast(s.w, s.strand);
    if s.w.dead {
      DeadIsFinal(s, more);
    }
  }

  lemma TerminalIsLast(w: Writer, strand: Strand)
    requires Pipeline(w, strand)
    ensures forall i :: 0 <= i < |w.handed| && w.handed[i].terminal ==> i == |w.handed| - 1
  {
    forall i | 0 <= i < |w.handed| && w.handed[i].terminal ensures i == |w.handed| - 1 {
      if i < |w.settled| {
        assert w.settled[i].terminal;
      } else {
        assert w.handed[i] == w.p.current[i - |w.settled|];
      }
    }
  }
}
