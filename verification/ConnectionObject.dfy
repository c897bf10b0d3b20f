/**
 The connection object itself: its calls and handlers over its own fields. Every public one moves
 the object along a run of the concurrent protocol, so what is proved of all runs holds of every
 object, in whatever order its methods are called.
 */
module ConnectionObject {
  import opened Bytes
  import opened Connection
  import opened ConnectionMachine
  import opened ConnectionPipeline
  import opened ConnectionLifecycle
  import opened ConnectionCalls

  lemma {:induction false} BatchLengthIs(q: seq<Message>, n: nat)
    requires n <= |q| && (n == 0 ==> q == [])
    requires forall i :: 0 <= i < n - 1 ==> !q[i].terminal
    requires n == |q| || q[n - 1].terminal
    ensures n == BatchLength(q)
  {
    if n > 0 {
      if q[0].terminal {
        assert n == 1;
      } else {
        forall i | 0 <= i < n - 2 ensures !q[1..][i].terminal {
          assert q[1..][i] == q[i + 1];
        }
        if n - 1 < |q[1..]| {
          assert q[1..][n - 2] == q[n - 1];
        }
        BatchLengthIs(q[1..], n - 1);
      }
    }
  }

  /** A batch stops at the first terminal message, and there only: what is left behind comes after one. */
  predicate UpToTerminal(batch: seq<Message>, left: seq<Message>) {
    && (forall i :: 0 <= i < |batch| - 1 ==> !batch[i].terminal)
    && (left != [] ==> batch != [] && batch[|batch| - 1].terminal)
  }

  lemma TakeWaits(p: Pipe)
    requires p.writeFlag
    ensures Take(p) == p
  {
  }

  /** What draining the queue into an empty batch comes to. */
  lemma DrainedIsTaken(p: Pipe, batch: seq<Message>, left: seq<Message>)
    requires !p.writeFlag && p.current == []
    requires var n := BatchLength(p.queue); batch == p.queue[..n] && left == p.queue[n..]
    ensures Take(p) == Pipe(batch != [], left, batch, Sizes(left))
    ensures batch + left == p.queue && UpToTerminal(batch, left) && (batch == [] <==> p.queue == [])
  {
    hide BatchLength, Sizes, UpToTerminal;
    assert p.current + batch == batch;
    BatchUpToTerminal(p.queue, batch, left);
  }

  lemma BatchUpToTerminal(q: seq<Message>, batch: seq<Message>, left: seq<Message>)
    requires var n := BatchLength(q); batch == q[..n] && left == q[n..]
    ensures UpToTerminal(batch, left)
  {
    hide BatchLength;
    forall i | 0 <= i < |batch| - 1 ensures !batch[i].terminal {
      assert batch[i] == q[i];
    }
    if left != [] {
      assert batch[|batch| - 1] == q[|batch| - 1];
    }
  }

  class WsConnection {
    const isServer: bool
    var session: Session
    var internal: Internal
    var wasClean: bool
    var lastError: Error
    var writeFlag: bool
    var sendQueue: seq<Message>
    var currentMsgs: seq<Message>
    var sendBuffer: seq<seq<byte>>
    var sendBufferSize: nat

    ghost var run: seq<Step>    // the steps taken since the connection was made
    ghost var machine: State    // where they lead
    ghost var given: seq<byte>  // the bytes async_write has been called with

    ghost function PipeOf(): Pipe
      reads this
    {
      Pipe(writeFlag, sendQueue, currentMsgs, sendBufferSize)
    }

    ghost function LifeOf(): Life
      reads this
    {
      Life(isServer, session, internal, wasClean, lastError)
    }

    /** The fields are those of a reachable state of the protocol. */
    ghost predicate Valid()
      reads this
    {
      && Reached(isServer, run, machine)
      && machine.w.p == PipeOf() && machine.y.l == LifeOf()
      && (!writeFlag ==> sendBuffer == [])
      && given == Spelled(machine.w.handed)
    }

    constructor (isServer: bool)
      ensures Valid() && run == [] && machine == Start(isServer)
      ensures PipeOf() == Pipe(false, [], [], 0)
      ensures LifeOf() == Life(isServer, Connecting, UserInit, false, NoError)
    {
      this.isServer := isServer;
      session, internal, wasClean, lastError := Connecting, UserInit, false, NoError;
      writeFlag, sendQueue, currentMsgs, sendBuffer, sendBufferSize := false, [], [], [], 0;
      run, machine, given := [], Start(isServer), [];
      new;
      hide Reached;
      ReachedStart(isServer, machine);
    }

    /**
     What every object keeps, whatever was called before: the buffered size, nothing lost or
     reordered, no batch without the write flag, a writer awake over a non-empty queue, and the
     session over or ending once a close frame is queued. The transport has been given the headers
     and payloads of the messages pushed, in the order of the pushes.
     */
    lemma ObjectKeepsPromises()
      requires Valid()
      ensures sendBufferSize == Sizes(sendQueue)
      ensures machine.w.settled + currentMsgs + sendQueue == machine.w.pushed
      ensures !writeFlag ==> currentMsgs == []
      ensures machine.w.outstanding ==> writeFlag && currentMsgs != []
      ensures sendQueue != [] && !writeFlag ==>
          machine.w.frames > 0 || machine.w.dispatchers > 0 || machine.strand == Redispatching
      ensures HasClose(machine.w.pushed) ==> session == Closing || session == Closed
      ensures given == Spelled(machine.w.handed) && machine.w.handed <= machine.w.pushed
    {
      hide Reached, Spelled;
      ReachedIsKept(isServer, run, machine);
      assert machine.w.pushed[..|machine.w.handed|] == machine.w.handed;
    }

    /** The object after steps that lead to s. */
    ghost method Record(steps: seq<Step>, s: State)
      requires Reached(isServer, run, machine) && Takes(machine, steps, s)
      modifies this`run, this`machine
      ensures Reached(isServer, run, machine) && run == old(run) + steps && machine == s
    {
      hide Reached, Takes;
      ReachedOn(isServer, run, machine, steps, s);
      run, machine := run + steps, s;
    }

    // ---- Queue and batch ----

    method WritePush(msg: Message)
      requires sendBufferSize == Sizes(sendQueue)
      modifies this`sendQueue, this`sendBufferSize
      ensures sendBufferSize == Sizes(sendQueue) && PipeOf() == Push(old(PipeOf()), msg)
      ensures sendQueue == old(sendQueue) + [msg] && sendBufferSize == old(sendBufferSize) + |msg.payload|
    {
      SizesConcat(sendQueue, [msg]);
      sendBufferSize := sendBufferSize + |msg.payload|;
      sendQueue := sendQueue + [msg];
    }

    method WritePop() returns (msg: Option<Message>)
      requires sendBufferSize == Sizes(sendQueue)
      modifies this`sendQueue, this`sendBufferSize
      ensures sendBufferSize == Sizes(sendQueue)
      ensures old(sendQueue) == [] ==> msg == None && sendQueue == []
      ensures old(sendQueue) != [] ==> msg == Some(old(sendQueue)[0]) && sendQueue == old(sendQueue)[1..]
    {
      if sendQueue == [] {
        return None;
      }
      msg := Some(sendQueue[0]);
      sendBufferSize := sendBufferSize - |sendQueue[0].payload|;
      sendQueue := sendQueue[1..];
    }

    /** One buffer for the header and one for the payload of every message of the batch. */
    method Gather()
      requires sendBuffer == []
      modifies this`sendBuffer
      ensures sendBuffer == Buffers(currentMsgs)
      ensures HeaderThenPayload(sendBuffer, currentMsgs)
    {
      BuffersExactly(currentMsgs);
      var i := 0;
      while i < |currentMsgs|
        invariant 0 <= i <= |currentMsgs|
        invariant sendBuffer == Buffers(currentMsgs[..i])
      {
        assert currentMsgs[..i + 1][..i] == currentMsgs[..i];
        sendBuffer := sendBuffer + [currentMsgs[i].header, currentMsgs[i].payload];
        i := i + 1;
      }
      assert currentMsgs[..i] == currentMsgs;
    }

    /** Everything up to and including the first terminal message moves to the current batch. */
    method DrainQueue()
      requires sendBufferSize == Sizes(sendQueue) && currentMsgs == []
      modifies this`sendQueue, this`sendBufferSize, this`currentMsgs
      ensures sendBufferSize == Sizes(sendQueue)
      ensures var n := BatchLength(old(sendQueue));
        currentMsgs == old(sendQueue)[..n] && sendQueue == old(sendQueue)[n..]
    {
      hide Sizes, BatchLength;
      ghost var q := sendQueue;
      var next := WritePop();
      while next.Some?
        invariant sendBufferSize == Sizes(sendQueue)
        invariant next.Some? ==> |currentMsgs| < |q|
        invariant next.Some? ==> currentMsgs + [next.value] == q[..|currentMsgs| + 1]
        invariant next.Some? ==> sendQueue == q[|currentMsgs| + 1..]
        invariant next.Some? ==> forall i :: 0 <= i < |currentMsgs| ==> !q[i].terminal
        invariant next.None? ==> Drained(q)
        decreases |sendQueue|, next.Some?
      {
        var msg := next.value;
        currentMsgs := currentMsgs + [msg];
        ghost var n := |currentMsgs|;
        assert msg == q[n - 1];
        if !msg.terminal {
          assert sendQueue != [] ==> q[..n] + [q[n]] == q[..n + 1];
          next := WritePop();
        } else {
          next := None;
        }
      }
      BatchLengthIs(q, |currentMsgs|);
    }

    ghost predicate Drained(q: seq<Message>)
      reads this
    {
      && |currentMsgs| <= |q| && currentMsgs == q[..|currentMsgs|] && sendQueue == q[|currentMsgs|..]
      && (currentMsgs == [] ==> q == [])
      && (forall i :: 0 <= i < |currentMsgs| - 1 ==> !q[i].terminal)
      && (|currentMsgs| == |q| || q[|currentMsgs| - 1].terminal)
    }

    /**
     write_frame: drain the queue under the lock, then gather what was drained into one transport write.
     With no write outstanding it writes exactly if anything is queued: everything up to the first
     terminal message, header before payload.
     */
    method WriteFrame() returns (write: Option<seq<seq<byte>>>)
      requires Valid() && machine.strand == Idle && machine.w.frames > 0
      modifies this`writeFlag, this`sendQueue, this`sendBufferSize, this`currentMsgs, this`sendBuffer
      modifies this`run, this`machine, this`given
      ensures Valid() && run == old(run) + WriteFrameSteps(old(machine))
      ensures PipeOf() == Take(old(PipeOf()))
      ensures old(writeFlag) ==> write == None && PipeOf() == old(PipeOf())
      ensures !old(writeFlag) ==>
          && writeFlag == write.Some? == (old(sendQueue) != [])
          && currentMsgs + sendQueue == old(sendQueue)
          && UpToTerminal(currentMsgs, sendQueue)
      ensures write.Some? ==> HeaderThenPayload(write.value, currentMsgs)
      ensures given == old(given) + if write.Some? then Flatten(write.value) else []
      ensures machine.w.handed == old(machine).w.handed + if write.Some? then currentMsgs else []
    {
      hide Reached, Takes, Take, Buffers, Spelled, Flatten, HeaderThenPayload, UpToTerminal;
      ObjectKeepsPromises();
      WriteFrameCall(machine);
      assert machine.w.handed + [] == machine.w.handed;
      ghost var taken := machine.w.(p := Take(machine.w.p), frames := machine.w.frames - 1);
      ghost var handed := machine.w.handed + taken.p.current;
      ghost var w := if StartsWrite(machine.w) then taken.(outstanding := true, handed := handed) else taken;
      SpelledAppend(machine.w.handed, taken.p.current);
      FlattenBuffers(taken.p.current);
      Record(WriteFrameSteps(machine), machine.(w := w));
      write := TakeBatch();
      assert given + [] == given;
      given := given + if write.Some? then Flatten(write.value) else [];
    }

    /** The fields of write_frame. */
    method TakeBatch() returns (write: Option<seq<seq<byte>>>)
      requires sendBufferSize == Sizes(sendQueue) && (!writeFlag ==> currentMsgs == [] && sendBuffer == [])
      modifies this`writeFlag, this`sendQueue, this`sendBufferSize, this`currentMsgs, this`sendBuffer
      ensures PipeOf() == Take(old(PipeOf())) && (!writeFlag ==> sendBuffer == [])
      ensures write == if !old(writeFlag) && writeFlag then Some(Buffers(currentMsgs)) else None
      ensures old(writeFlag) ==> write == None && PipeOf() == old(PipeOf())
      ensures write.Some? ==> HeaderThenPayload(write.value, currentMsgs)
      ensures !old(writeFlag) ==>
          && writeFlag == write.Some? == (old(sendQueue) != [])
          && currentMsgs + sendQueue == old(sendQueue)
          && UpToTerminal(currentMsgs, sendQueue)
    {
      hide HeaderThenPayload, Buffers, BatchLength, UpToTerminal, Take, Sizes;
      if writeFlag {
        TakeWaits(PipeOf());
        return None;
      }
      ghost var was := PipeOf();
      DrainQueue();
      DrainedIsTaken(was, currentMsgs, sendQueue);
      if currentMsgs == [] {
        return None;
      }
      writeFlag := true;
      Gather();
      write := Some(sendBuffer);
    }

    /** handle_write_frame: the batch is done; end the connection or let the next write start. */
    method HandleWriteFrame(failed: bool) returns (dispatch: bool, shutdown: Shutdown)
      requires Valid() && machine.strand == Idle && machine.w.outstanding
      modifies this`writeFlag, this`currentMsgs, this`sendBuffer, this`session, this`lastError, this`run, this`machine
      ensures old(machine).w.p.current != [] && old(currentMsgs) != []
      ensures Valid() && run == old(run) + CompletionSteps(old(machine), failed)
      ensures currentMsgs == [] && sendQueue == old(sendQueue)
      ensures var ends := failed || old(currentMsgs)[|old(currentMsgs)| - 1].terminal;
        && writeFlag == ends && dispatch == (!ends && sendQueue != [])
        && session == (if ends then Closed else old(session))
        && lastError == (if failed then OtherError else old(lastError))
        && (shutdown == NoShutdown <==> !ends || old(session) == Closed)
      ensures var final := old(Final(PipeOf(), failed));
        && writeFlag == final
        && dispatch == (!final && sendQueue != [])
        && LifeOf() ==
            (if final then Terminate(old(LifeOf()), if failed then OtherError else NoError) else old(LifeOf()))
        && shutdown == (if final then TerminateShutdown(old(LifeOf())) else NoShutdown)
      ensures machine.w.frames == old(machine).w.frames + if dispatch then 1 else 0
      ensures AsksFor(old(machine).y, machine.y, shutdown)
    {
      hide Reached, Takes, CompletionSteps, CompletionEnd, AsksFor, Spelled;
      ObjectKeepsPromises();
      CompletionCall(machine, failed);
      ghost var start := machine;
      CompletionCounts(start, failed,
        if Final(PipeOf(), failed) then Terminate(LifeOf(), if failed then OtherError else NoError) else LifeOf(),
        if Final(PipeOf(), failed) then TerminateShutdown(LifeOf()) else NoShutdown);
      Record(CompletionSteps(machine, failed), CompletionEnd(machine, failed));
      dispatch, shutdown := FinishBatch(failed);
    }

    /** The fields of handle_write_frame. */
    method FinishBatch(failed: bool) returns (dispatch: bool, shutdown: Shutdown)
      requires currentMsgs != []
      modifies this`writeFlag, this`currentMsgs, this`sendBuffer, this`session, this`lastError
      ensures currentMsgs == [] && sendBuffer == []
      ensures var ends := failed || old(currentMsgs)[|old(currentMsgs)| - 1].terminal;
        && writeFlag == (ends && old(writeFlag)) && dispatch == (!ends && sendQueue != [])
        && session == (if ends then Closed else old(session))
        && lastError == (if failed then OtherError else old(lastError))
        && shutdown == (if ends then TerminateShutdown(old(LifeOf())) else NoShutdown)
    {
      var terminal := currentMsgs[|currentMsgs| - 1].terminal;
      sendBuffer := [];
      currentMsgs := [];
      dispatch, shutdown := false, NoShutdown;
      if failed {
        shutdown := End(OtherError);
        return;
      }
      if terminal {
        shutdown := End(NoError);
        return;
      }
      writeFlag := false;
      dispatch := sendQueue != [];
    }

    /** terminate. */
    method End(ec: Error) returns (shutdown: Shutdown)
      modifies this`session, this`lastError
      ensures LifeOf() == Terminate(old(LifeOf()), ec) && shutdown == TerminateShutdown(old(LifeOf()))
      ensures session == Closed && lastError == if ec == NoError then old(lastError) else ec
      ensures shutdown == AsFailed <==> old(session) == Connecting
      ensures shutdown == NoShutdown <==> old(session) == Closed
    {
      if ec != NoError {
        lastError := ec;
      }
      if session == Connecting {
        session := Closed;
        shutdown := AsFailed;
      } else if session != Closed {
        session := Closed;
        shutdown := AsClosed;
      } else {
        shutdown := NoShutdown;
      }
    }

    // ---- send, ping and pong ----

    /** The part under the connection state lock. */
    method CheckOpen() returns (isOpen: bool)
      requires Valid() && machine.y.closer == NoCloser
      modifies this`run, this`machine
      ensures Valid() && isOpen == (session == Open)
      ensures run == old(run) + if isOpen then [SendCheck] else []
      ensures isOpen ==> machine == old(machine).(y := old(machine).y.(senders := old(machine).y.senders + 1))
      ensures !isOpen ==> machine == old(machine)
    {
      hide Reached, Takes;
      isOpen := session == Open;
      if isOpen {
        OneStep(machine, SendCheck);
        Record([SendCheck], machine.(y := machine.y.(senders := machine.y.senders + 1)));
      } else {
        assert run + [] == run;
      }
    }

    /** The part under the write lock, which other threads can come before. */
    method PushChecked(msg: Message) returns (dispatch: bool)
      requires Valid() && machine.y.senders > 0 && msg.kind != Close
      modifies this`sendQueue, this`sendBufferSize, this`run, this`machine
      ensures Valid() && run == old(run) + [SendPush(msg)] && PipeOf() == Push(old(PipeOf()), msg)
      ensures machine.w.dispatchers == old(machine).w.dispatchers + (if dispatch then 1 else 0)
      ensures machine == old(machine).(w := Pushed(old(machine).w, msg), y := machine.y)
      ensures machine.y == old(machine).y.(senders := old(machine).y.senders - 1)
    {
      hide Reached, Takes;
      ObjectKeepsPromises();
      OneStep(machine, SendPush(msg));
      Record([SendPush(msg)], Apply(machine, SendPush(msg)));
      WritePush(msg);
      dispatch := !writeFlag && sendQueue != [];
    }

    /** The dispatch of write_frame through the transport. */
    method DispatchWriteFrame()
      requires Valid() && machine.w.dispatchers > 0
      modifies this`run, this`machine
      ensures Valid() && run == old(run) + [Dispatch]
      ensures var w := old(machine).w;
        machine == old(machine).(w := w.(dispatchers := w.dispatchers - 1, frames := w.frames + 1))
    {
      hide Reached, Takes;
      OneStep(machine, Dispatch);
      Record([Dispatch], Apply(machine, Dispatch));
    }

    /** send, ping and pong once the message is prepared, with nothing in between. */
    method Send(msg: Message) returns (sent: bool, dispatch: bool)
      requires Valid() && machine.y.closer == NoCloser && msg.kind != Close
      modifies this`sendQueue, this`sendBufferSize, this`run, this`machine
      ensures Valid() && run == old(run) + SendSteps(old(machine), msg)
      ensures sent == (session == Open) && dispatch == (sent && !writeFlag)
      ensures PipeOf() == if sent then Push(old(PipeOf()), msg) else old(PipeOf())
      ensures sendQueue == old(sendQueue) + if sent then [msg] else []
      ensures machine == if sent then old(machine).(w := Queued(old(machine).w, msg)) else old(machine)
      ensures machine.w.frames == old(machine).w.frames + if dispatch then 1 else 0
    {
      hide Reached;
      assert sendQueue + [] == sendQueue;
      dispatch := false;
      sent := CheckOpen();
      if sent {
        dispatch := PushChecked(msg);
        assert run == old(run) + [SendCheck, SendPush(msg)];
        if dispatch {
          DispatchWriteFrame();
        }
        assert WakeSteps(old(machine).w) == if dispatch then [Dispatch] else [];
        assert run == old(run) + ([SendCheck, SendPush(msg)] + WakeSteps(old(machine).w));
      }
    }

    // ---- close ----

    /** close: only from the open session; prepared is the close frame, or None if it could not be made. */
    method CloseConnection(prepared: Option<Message>) returns (sent: bool, dispatch: bool)
      requires Valid() && machine.y.closer == NoCloser && (prepared.Some? ==> prepared.value.kind == Close)
      modifies this`sendQueue, this`sendBufferSize, this`session, this`wasClean, this`run, this`machine
      ensures Valid() && run == old(run) + CloseSteps(old(machine), prepared)
      ensures sent == (old(session) == Open && prepared.Some?) && dispatch == (sent && !writeFlag)
      ensures LifeOf() == if sent then MarkClosing(old(LifeOf()), false) else old(LifeOf())
      ensures PipeOf() == if sent then Push(old(PipeOf()), prepared.value) else old(PipeOf())
      ensures sent ==> session == Closing && wasClean == old(wasClean) && sendQueue == old(sendQueue) + [prepared.value]
      ensures !sent ==> session == old(session) && wasClean == old(wasClean) && sendQueue == old(sendQueue)
      ensures machine.w.frames == old(machine).w.frames + if dispatch then 1 else 0
    {
      hide Reached, Takes;
      ObjectKeepsPromises();
      CloseCall(machine, prepared);
      Record(CloseSteps(machine, prepared),
        if session == Open && prepared.Some?
        then State(Queued(machine.w, prepared.value), machine.y.(l := MarkClosing(machine.y.l, false)), machine.strand)
        else machine);
      if session != Open {
        return false, false;
      }
      sent, dispatch := SendCloseFrame(prepared, false);
    }

    method SendCloseFrame(prepared: Option<Message>, ack: bool) returns (sent: bool, dispatch: bool)
      requires sendBufferSize == Sizes(sendQueue)
      modifies this`sendQueue, this`sendBufferSize, this`session, this`wasClean
      ensures sendBufferSize == Sizes(sendQueue) && sent == prepared.Some?
      ensures LifeOf() == if sent then MarkClosing(old(LifeOf()), ack) else old(LifeOf())
      ensures PipeOf() == if sent then Push(old(PipeOf()), prepared.value) else old(PipeOf())
      ensures dispatch == (sent && !writeFlag)
      ensures sent ==> session == Closing && wasClean == (old(wasClean) || ack) &&
                       sendQueue == old(sendQueue) + [prepared.value]
      ensures !sent ==> session == old(session) && wasClean == old(wasClean) && sendQueue == old(sendQueue)
    {
      if prepared.None? {
        return false, false;
      }
      session := Closing;
      if ack {
        wasClean := true;
      }
      WritePush(prepared.value);
      return true, !writeFlag && sendQueue != [];
    }

    /** process_control_frame for a close frame. */
    method ProcessClose(malformed: bool, drop: bool, ack: Option<Message>)
      returns (dispatch: bool, shutdown: Shutdown)
      requires Valid() && machine.strand == Reading && (ack.Some? ==> ack.value.kind == Close)
      modifies this`sendQueue, this`sendBufferSize, this`session, this`wasClean, this`lastError, this`run, this`machine
      ensures Valid() && run == old(run) + ReceivedCloseSteps(old(machine), malformed, drop, ack)
      ensures CloseAnswered(CloseReceived(old(LifeOf()), malformed, drop), NoteClean(old(LifeOf()), malformed), ack,
                            old(LifeOf()), LifeOf(), old(PipeOf()), PipeOf(), shutdown)
      ensures (if malformed then !drop && old(session) != Closed else old(session) == Open) && ack.Some? ==>
          && session == Closing && wasClean && lastError == old(lastError) && sendQueue == old(sendQueue) + [ack.value]
          && dispatch == !writeFlag && shutdown == NoShutdown
      ensures !malformed && old(session) == Closing && !old(wasClean) ==>
          && wasClean && lastError == old(lastError) && sendQueue == old(sendQueue) && !dispatch
          && (if isServer then session == Closed && shutdown == AsClosed
              else session == Closing && shutdown == NoShutdown)
      ensures malformed && drop && old(session) != Closed ==>
          && session == Closed && lastError == OtherError && wasClean == old(wasClean)
          && sendQueue == old(sendQueue) && !dispatch
          && shutdown == if old(session) == Connecting then AsFailed else AsClosed
      ensures (if malformed then !drop else old(session) == Open) && ack.None? ==>
          LifeOf() == old(LifeOf()) && PipeOf() == old(PipeOf()) && !dispatch && shutdown == NoShutdown
      ensures old(session) == Closed ==>
          LifeOf() == old(LifeOf()) && PipeOf() == old(PipeOf()) && !dispatch && shutdown == NoShutdown
      ensures !malformed && (old(session) == Connecting || (old(session) == Closing && old(wasClean))) ==>
          LifeOf() == old(LifeOf()) && PipeOf() == old(PipeOf()) && !dispatch && shutdown == NoShutdown
      ensures dispatch == (CloseReceived(old(LifeOf()), malformed, drop).Acknowledge? && ack.Some? && !writeFlag)
      ensures machine.w.frames == old(machine).w.frames + if dispatch then 1 else 0
      ensures AsksFor(old(machine).y, machine.y, shutdown)
    {
      hide Reached, Takes, CloseReceived, CloseAnswered, ReceivedCloseEnd;
      ObjectKeepsPromises();
      ghost var start := machine;
      ReceivedCloseCall(machine, malformed, drop, ack);
      Record(ReceivedCloseSteps(machine, malformed, drop, ack), ReceivedCloseEnd(machine, malformed, drop, ack));
      dispatch, shutdown := AnswerClose(malformed, drop, ack);
      CloseAnsweredInStep(start, malformed, drop, ack, LifeOf(), PipeOf(), shutdown);
    }

    /** The fields of process_control_frame for a close frame. */
    method AnswerClose(malformed: bool, drop: bool, ack: Option<Message>) returns (dispatch: bool, shutdown: Shutdown)
      requires sendBufferSize == Sizes(sendQueue)
      modifies this`sendQueue, this`sendBufferSize, this`session, this`wasClean, this`lastError
      ensures CloseAnswered(CloseReceived(old(LifeOf()), malformed, drop), NoteClean(old(LifeOf()), malformed), ack,
                            old(LifeOf()), LifeOf(), old(PipeOf()), PipeOf(), shutdown)
      ensures (if malformed then !drop && old(session) != Closed else old(session) == Open) && ack.Some? ==>
          && session == Closing && wasClean && lastError == old(lastError) && sendQueue == old(sendQueue) + [ack.value]
          && dispatch == !writeFlag && shutdown == NoShutdown
      ensures !malformed && old(session) == Closing && !old(wasClean) ==>
          && wasClean && lastError == old(lastError) && sendQueue == old(sendQueue) && !dispatch
          && (if isServer then session == Closed && shutdown == AsClosed
              else session == Closing && shutdown == NoShutdown)
      ensures malformed && drop && old(session) != Closed ==>
          && session == Closed && lastError == OtherError && wasClean == old(wasClean)
          && sendQueue == old(sendQueue) && !dispatch
          && shutdown == if old(session) == Connecting then AsFailed else AsClosed
      ensures (if malformed then !drop else old(session) == Open) && ack.None? ==>
          LifeOf() == old(LifeOf()) && PipeOf() == old(PipeOf()) && !dispatch && shutdown == NoShutdown
      ensures old(session) == Closed ==>
          LifeOf() == old(LifeOf()) && PipeOf() == old(PipeOf()) && !dispatch && shutdown == NoShutdown
      ensures !malformed && (old(session) == Connecting || (old(session) == Closing && old(wasClean))) ==>
          LifeOf() == old(LifeOf()) && PipeOf() == old(PipeOf()) && !dispatch && shutdown == NoShutdown
      ensures dispatch == (CloseReceived(old(LifeOf()), malformed, drop).Acknowledge? && ack.Some? && !writeFlag)
    {
      dispatch, shutdown := false, NoShutdown;
      var sent;
      if session == Closed {
        return;
      }
      if malformed {
        if drop {
          shutdown := End(OtherError);
        } else {
          sent, dispatch := SendCloseFrame(ack, true);
        }
        return;
      }
      if session == Open {
        sent, dispatch := SendCloseFrame(ack, true);
      } else if session == Closing && !wasClean {
        wasClean := true;
        if isServer {
          shutdown := End(NoError);
        }
      }
    }

    // ---- Handshakes and reads ----

    /** handle_read_http_response, up to the first frame read. */
    method HandleReadHttpResponse(ec: Error, r: Response) returns (nowOpen: bool, shutdown: Shutdown)
      requires Valid() && machine.strand == Idle
      modifies this`session, this`lastError, this`internal, this`run, this`machine
      ensures Valid() && run == old(run) + ResponseSteps(old(machine), ec, r)
      ensures HandshakeAnswered(ResponseRead(old(LifeOf()), ec, r), old(LifeOf()), LifeOf(), nowOpen, shutdown)
      ensures nowOpen <==>
          && ec == NoError && old(session) == Connecting && old(internal) == ReadHttpResponse
          && (r == Accepted || r == NegotiationFailed)
      ensures nowOpen ==> session == Open && internal == ProcessConnection
      ensures ec == NoError && old(session) == Connecting && old(internal) == ReadHttpResponse ==>
          && (r == Malformed || r == Rejected ==> session == Closed && internal == old(internal))
          && (r == Incomplete ==> session == Connecting && internal == old(internal))
          && (shutdown == if r == Accepted || r == Incomplete then NoShutdown else AsFailed)
          && (lastError == if r == Accepted || r == Incomplete then old(lastError) else OtherError)
      ensures var expected := old(session) == Connecting && old(internal) == ReadHttpResponse;
        ec == NoError && old(session) != Closed && !expected ==>
          && session == Closed && internal == old(internal) && lastError == InvalidState
          && shutdown == if old(session) == Connecting then AsFailed else AsClosed
      ensures ec != NoError && (ec != Eof || old(session) != Closed) ==>
          && session == Closed && internal == old(internal) && lastError == ec
          && (shutdown == AsFailed <==> old(session) == Connecting)
          && (shutdown == NoShutdown <==> old(session) == Closed)
      ensures old(session) == Closed && (ec == NoError || ec == Eof) ==>
          LifeOf() == old(LifeOf()) && shutdown == NoShutdown
      ensures machine.y.opens == old(machine).y.opens + if nowOpen then 1 else 0
      ensures AsksFor(old(machine).y, machine.y, shutdown)
    {
      hide Reached, Takes, ResponseSteps, ResponseEnd, AsksFor, Spelled;
      ghost var start := machine;
      ResponseCall(machine, ec, r);
      Record(ResponseSteps(machine, ec, r), ResponseEnd(machine, ec, r));
      nowOpen, shutdown := ReadResponse(ec, r);
      ResponseCounts(start, ec, r, LifeOf(), nowOpen, shutdown);
    }

    /** The fields of handle_read_http_response. */
    method ReadResponse(ec: Error, r: Response) returns (nowOpen: bool, shutdown: Shutdown)
      modifies this`session, this`lastError, this`internal
      ensures HandshakeAnswered(ResponseRead(old(LifeOf()), ec, r), old(LifeOf()), LifeOf(), nowOpen, shutdown)
      ensures nowOpen <==>
          && ec == NoError && old(session) == Connecting && old(internal) == ReadHttpResponse
          && (r == Accepted || r == NegotiationFailed)
      ensures nowOpen ==> session == Open && internal == ProcessConnection
      ensures ec == NoError && old(session) == Connecting && old(internal) == ReadHttpResponse ==>
          && (r == Malformed || r == Rejected ==> session == Closed && internal == old(internal))
          && (r == Incomplete ==> session == Connecting && internal == old(internal))
          && (shutdown == if r == Accepted || r == Incomplete then NoShutdown else AsFailed)
          && (lastError == if r == Accepted || r == Incomplete then old(lastError) else OtherError)
      ensures var expected := old(session) == Connecting && old(internal) == ReadHttpResponse;
        ec == NoError && old(session) != Closed && !expected ==>
          && session == Closed && internal == old(internal) && lastError == InvalidState
          && shutdown == if old(session) == Connecting then AsFailed else AsClosed
      ensures ec != NoError && (ec != Eof || old(session) != Closed) ==>
          && session == Closed && internal == old(internal) && lastError == ec
          && (shutdown == AsFailed <==> old(session) == Connecting)
          && (shutdown == NoShutdown <==> old(session) == Closed)
      ensures old(session) == Closed && (ec == NoError || ec == Eof) ==>
          LifeOf() == old(LifeOf()) && shutdown == NoShutdown
    {
      nowOpen, shutdown := false, NoShutdown;
      var ecm := ec;
      if ecm == NoError {
        if session == Connecting {
          if internal != ReadHttpResponse {
            ecm := InvalidState;
          }
        } else if session == Closed {
          return;
        } else {
          ecm := InvalidState;
        }
      }
      if ecm != NoError {
        if ecm == Eof && session == Closed {
          return;
        }
        shutdown := End(ecm);
        return;
      }
      match r
      case Malformed => shutdown := End(OtherError);
      case Incomplete =>
      case Rejected => shutdown := End(OtherError);
      case NegotiationFailed =>
        shutdown := End(OtherError);
        internal, session, nowOpen := ProcessConnection, Open, true;
      case Accepted =>
        internal, session, nowOpen := ProcessConnection, Open, true;
    }

    /** handle_write_http_response, up to the open handler; m_ec is what lastError stands for. */
    method HandleWriteHttpResponse(ec: Error, upgrade: bool, outcome: Error) returns (nowOpen: bool, shutdown: Shutdown)
      requires Valid() && machine.strand == Idle
      modifies this`session, this`lastError, this`internal, this`run, this`machine
      ensures Valid() && run == old(run) + [HandshakeWritten(ec, upgrade, outcome)]
      ensures HandshakeAnswered(ResponseWritten(old(LifeOf()), ec, upgrade, outcome),
                                old(LifeOf()), LifeOf(), nowOpen, shutdown)
      ensures nowOpen <==> ec == NoError && old(session) == Connecting && old(internal) == ProcessHttpRequest && upgrade
      ensures nowOpen ==>
          session == Open && internal == ProcessConnection && lastError == old(lastError) && shutdown == NoShutdown
      ensures ec == NoError && old(session) == Connecting && old(internal) == ProcessHttpRequest && !upgrade ==>
          && session == Closed && internal == old(internal) && shutdown == AsFailed
          && lastError == if outcome == NoError then old(lastError) else outcome
      ensures var expected := old(session) == Connecting && old(internal) == ProcessHttpRequest;
        ec == NoError && old(session) != Closed && !expected ==>
          && session == Closed && internal == old(internal) && lastError == InvalidState
          && shutdown == if old(session) == Connecting then AsFailed else AsClosed
      ensures ec != NoError && (ec != Eof || old(session) != Closed) ==>
          && session == Closed && internal == old(internal) && lastError == ec
          && (shutdown == AsFailed <==> old(session) == Connecting)
          && (shutdown == NoShutdown <==> old(session) == Closed)
      ensures old(session) == Closed && (ec == NoError || ec == Eof) ==>
          LifeOf() == old(LifeOf()) && shutdown == NoShutdown
      ensures machine.y.opens == old(machine).y.opens + if nowOpen then 1 else 0
      ensures AsksFor(old(machine).y, machine.y, shutdown)
    {
      hide Reached, Takes, WrittenEnd, AsksFor, Spelled;
      ghost var start := machine;
      WrittenCall(machine, ec, upgrade, outcome);
      Record([HandshakeWritten(ec, upgrade, outcome)], WrittenEnd(machine, ec, upgrade, outcome));
      nowOpen, shutdown := WroteResponse(ec, upgrade, outcome);
      WrittenCounts(start, ec, upgrade, outcome, LifeOf(), nowOpen, shutdown);
    }

    /** The fields of handle_write_http_response. */
    method WroteResponse(ec: Error, upgrade: bool, outcome: Error) returns (nowOpen: bool, shutdown: Shutdown)
      modifies this`session, this`lastError, this`internal
      ensures HandshakeAnswered(ResponseWritten(old(LifeOf()), ec, upgrade, outcome),
                                old(LifeOf()), LifeOf(), nowOpen, shutdown)
      ensures nowOpen <==> ec == NoError && old(session) == Connecting && old(internal) == ProcessHttpRequest && upgrade
      ensures nowOpen ==>
          session == Open && internal == ProcessConnection && lastError == old(lastError) && shutdown == NoShutdown
      ensures ec == NoError && old(session) == Connecting && old(internal) == ProcessHttpRequest && !upgrade ==>
          && session == Closed && internal == old(internal) && shutdown == AsFailed
          && lastError == if outcome == NoError then old(lastError) else outcome
      ensures var expected := old(session) == Connecting && old(internal) == ProcessHttpRequest;
        ec == NoError && old(session) != Closed && !expected ==>
          && session == Closed && internal == old(internal) && lastError == InvalidState
          && shutdown == if old(session) == Connecting then AsFailed else AsClosed
      ensures ec != NoError && (ec != Eof || old(session) != Closed) ==>
          && session == Closed && internal == old(internal) && lastError == ec
          && (shutdown == AsFailed <==> old(session) == Connecting)
          && (shutdown == NoShutdown <==> old(session) == Closed)
      ensures old(session) == Closed && (ec == NoError || ec == Eof) ==>
          LifeOf() == old(LifeOf()) && shutdown == NoShutdown
    {
      nowOpen, shutdown := false, NoShutdown;
      var ecm := ec;
      if ecm == NoError {
        if session == Connecting {
          if internal != ProcessHttpRequest {
            ecm := InvalidState;
          }
        } else if session == Closed {
          return;
        } else {
          ecm := InvalidState;
        }
      }
      if ecm != NoError {
        if ecm == Eof && session == Closed {
          return;
        }
        shutdown := End(ecm);
        return;
      }
      if !upgrade {
        shutdown := End(outcome);
        return;
      }
      internal, session, nowOpen := ProcessConnection, Open, true;
    }

    /** The beginning of handle_read_frame: go on to the bytes read, give up quietly, or end the connection.
     It runs as a completion of the transport, or right after the open handler.  */
    method StartReadFrame(ec: Error) returns (readOn: bool, shutdown: Shutdown)
      requires Valid() && (machine.strand == Idle || (machine.strand == Opening && ec == NoError))
      modifies this`session, this`lastError, this`run, this`machine
      ensures Valid() && run == old(run) + [if old(machine).strand == Idle then ReadFrame(ec) else OpenReturns]
      ensures ReadAnswered(FrameRead(old(LifeOf()), ec), old(LifeOf()), LifeOf(), readOn, shutdown)
      ensures readOn <==> ec == NoError && internal == ProcessConnection
      ensures internal == old(internal) && (readOn ==> session == old(session) && shutdown == NoShutdown)
      ensures ec == Eof && old(session) == Closing && !isServer ==>
          session == Closed && lastError == old(lastError) && shutdown == AsClosed
      ensures old(session) == Closed && (ec == Eof || ec == InvalidState || (ec == NoError && !readOn)) ==>
          LifeOf() == old(LifeOf()) && shutdown == NoShutdown
      ensures old(session) == Closed && (ec == HttpEnded || ec == OtherError) ==>
          session == Closed && lastError == ec && shutdown == NoShutdown
      ensures old(session) != Closed && !readOn && !(ec == Eof && old(session) == Closing && !isServer) ==>
          && session == Closed && lastError == (if ec == NoError then InvalidState else ec)
          && shutdown == if old(session) == Connecting then AsFailed else AsClosed
      ensures machine.strand == if readOn then Reading else Idle
      ensures AsksFor(old(machine).y, machine.y, shutdown)
    {
      hide Reached, Takes, ReadEnds, AsksFor, Spelled;
      ghost var start := machine;
      ReadCall(machine, ec);
      Record([ReadStep(machine, ec)], ReadEnds(machine, ec));
      readOn, shutdown := StartRead(ec);
      ReadCounts(start, ec, LifeOf(), readOn, shutdown);
    }

    /** The fields of the beginning of handle_read_frame. */
    method StartRead(ec: Error) returns (readOn: bool, shutdown: Shutdown)
      modifies this`session, this`lastError
      ensures ReadAnswered(FrameRead(old(LifeOf()), ec), old(LifeOf()), LifeOf(), readOn, shutdown)
      ensures readOn <==> ec == NoError && internal == ProcessConnection
      ensures internal == old(internal) && (readOn ==> session == old(session) && shutdown == NoShutdown)
      ensures ec == Eof && old(session) == Closing && !isServer ==>
          session == Closed && lastError == old(lastError) && shutdown == AsClosed
      ensures old(session) == Closed && (ec == Eof || ec == InvalidState || (ec == NoError && !readOn)) ==>
          LifeOf() == old(LifeOf()) && shutdown == NoShutdown
      ensures old(session) == Closed && (ec == HttpEnded || ec == OtherError) ==>
          session == Closed && lastError == ec && shutdown == NoShutdown
      ensures old(session) != Closed && !readOn && !(ec == Eof && old(session) == Closing && !isServer) ==>
          && session == Closed && lastError == (if ec == NoError then InvalidState else ec)
          && shutdown == if old(session) == Connecting then AsFailed else AsClosed
    {
      readOn, shutdown := false, NoShutdown;
      var ecm := ec;
      if ecm == NoError && internal != ProcessConnection {
        ecm := InvalidState;
      }
      if ecm != NoError {
        if ecm == Eof {
          if session == Closed {
            return;
          } else if session == Closing && !isServer {
            shutdown := End(NoError);
            return;
          }
        } else if ecm == InvalidState {
          if session == Closed {
            return;
          }
        }
        shutdown := End(ecm);
        return;
      }
      readOn := true;
    }

    /** handle_terminate: a completed shutdown, and the user handler it calls. */
    method HandleTerminate(failed: bool) returns (fail: bool, close: bool)
      requires Valid() && machine.strand == Idle
      requires if failed then machine.y.failedShutdowns > 0 else machine.y.closedShutdowns > 0
      modifies this`run, this`machine
      ensures Valid() && run == old(run) + [ShutdownDone(failed)]
      ensures machine.y.fails == old(machine).y.fails + (if fail then 1 else 0)
      ensures machine.y.closes == old(machine).y.closes + (if close then 1 else 0)
      ensures close == !failed && fail == (failed && lastError != HttpEnded)
      ensures OrderlySoFar(isServer, old(run)) ==>
          && HandlersInOrder(machine.y) && old(machine).y.fails + old(machine).y.closes == 0
          && (close <==> machine.y.opens == 1)
          && (fail <==> machine.y.opens == 0 && lastError != HttpEnded)
    {
      hide Reached, Takes, OrderlySoFar;
      ghost var t := ShutdownDone(failed);
      OneStep(machine, t);
      if OrderlySoFar(isServer, run) {
        ShutdownFiresOnce(isServer, run, machine, failed);
      }
      Record([t], Apply(machine, t));
      fail, close := false, false;
      if failed {
        if lastError != HttpEnded {
          fail := true;
        }
      } else {
        close := true;
      }
    }
  }
}
