/**
 The connection as a concurrent protocol. Application threads call send, ping, pong and close;
 one strand runs the transport's completions. A step is what happens between two points at
 which another thread can step in, so a run of steps is an interleaving.

 The processor, the transport and the timers are left free: a handler may run whenever the
 strand is idle, with any outcome. Only two things are taken from the transport: a gather write
 completes once, and a shutdown completes once.
 */
module ConnectionMachine {
  import opened Bytes
  import opened Connection

  /** Where the strand is between two steps. */
  datatype Strand =
    | Idle
    | Handing        // write_frame has let go of the write lock and not reached async_write
    | Releasing      // handle_write_frame has cleared the batch and not taken the write lock
    | Redispatching  // handle_write_frame has seen a non-empty queue and not dispatched
    | Opening        // the open handler is running
    | Reading        // handle_read_frame is between two messages
    | Acking         // about to mark the session closing
    | AckPushing     // marked closing, the close frame not pushed
    | Falling        // handle_read_http_response has terminated and goes on

  /** An application thread inside close(), which holds the connection state lock. */
  datatype Closer = NoCloser | CloseChecked | CloseMarked

  /** The write pipeline with everything around it that can be in flight, and its history. */
  datatype Writer = Writer(
    p: Pipe,
    dispatchers: nat,        // threads past a push that found the write flag clear
    frames: nat,             // write_frame calls dispatched and not yet run
    outstanding: bool,       // a gather write is with the transport
    pushed: seq<Message>,    // every message ever pushed
    handed: seq<Message>,    // every message ever handed to the transport
    settled: seq<Message>,   // every message whose write completed, in success or failure
    dead: bool)              // a write failed or a terminal message was written

  /** The lifecycle with the calls and shutdowns in flight, and how often each user handler has run. */
  datatype Cycle = Cycle(
    l: Life,
    senders: nat,            // threads in send, ping or pong past the state check
    closer: Closer,
    failedShutdowns: nat,    // shutdowns with the transport, by how they will end
    closedShutdowns: nat,
    opens: nat,
    fails: nat,
    failsDone: nat,          // completed shutdowns of a failed connection, reported or not
    closes: nat)

  datatype State = State(w: Writer, y: Cycle, strand: Strand)

  function Start(isServer: bool): State {
    State(
      Writer(Pipe(false, [], [], 0), 0, 0, false, [], [], [], false),
      Cycle(Life(isServer, Connecting, UserInit, false, NoError), 0, NoCloser, 0, 0, 0, 0, 0, 0),
      Idle)
  }

  datatype Step =
    // application threads
    | SendCheck | SendDrop | SendPush(m: Message) | Dispatch
    | CloseCheck | CloseDrop | CloseMark | ClosePush(m: Message)
    // the write pipeline on the strand
    | RunWriteFrame | HandOver | WriteDone(failed: bool) | ReleaseFlag | Redispatch
    // the lifecycle on the strand
    | Advance(to: Internal)
    | HandshakeWritten(e: Error, upgrade: bool, outcome: Error)
    | HandshakeRead(e: Error, r: Response)
    | FallThrough
    | OpenReturns
    | ReadFrame(e: Error)
    | GotClose(malformed: bool, drop: bool)
    | GotRubbish(drop: bool)
    | AckMark(ack: bool) | AckDrop | AckPush(m: Message)
    | ReadEnd
    | EndNow(e: Error)
    | ShutdownDone(failed: bool)

  predicate Enabled(s: State, t: Step) {
    match t
    case SendCheck => s.y.l.session == Open && s.y.closer == NoCloser
    case SendDrop => s.y.senders > 0
    case SendPush(m) => s.y.senders > 0 && m.kind != Close
    case Dispatch => s.w.dispatchers > 0
    case CloseCheck => s.y.l.session == Open && s.y.closer == NoCloser
    case CloseDrop => s.y.closer == CloseChecked
    case CloseMark => s.y.closer == CloseChecked
    case ClosePush(m) => s.y.closer == CloseMarked && m.kind == Close
    case RunWriteFrame => s.strand == Idle && s.w.frames > 0
    case HandOver => s.strand == Handing
    case WriteDone(_) => s.strand == Idle && s.w.outstanding && s.w.p.current != []
    case ReleaseFlag => s.strand == Releasing
    case Redispatch => s.strand == Redispatching
    case Advance(to) =>
      s.strand == Idle && to != ProcessConnection && (s.y.l.session == Connecting || s.y.l.session == Closed)
    case HandshakeWritten(_, _, _) => s.strand == Idle
    case HandshakeRead(_, _) => s.strand == Idle
    case FallThrough => s.strand == Falling
    case OpenReturns => s.strand == Opening
    case ReadFrame(_) => s.strand == Idle
    case GotClose(_, _) => s.strand == Reading
    case GotRubbish(_) => s.strand == Reading
    case AckMark(_) => s.strand == Acking
    case AckDrop => s.strand == Acking
    case AckPush(m) => s.strand == AckPushing && m.kind == Close
    case ReadEnd => s.strand == Reading
    case EndNow(_) => s.strand == Idle
    case ShutdownDone(failed) =>
      s.strand == Idle && (if failed then s.y.failedShutdowns > 0 else s.y.closedShutdowns > 0)
  }

  // ---- The write pipeline ----

  /** write_push under the write lock, and the check whether write_frame has to be dispatched. */
  function Pushed(w: Writer, m: Message): Writer {
    var p := Push(w.p, m);
    w.(p := p, pushed := w.pushed + [m],
       dispatchers := w.dispatchers + (if !p.writeFlag && p.queue != [] then 1 else 0))
  }

  function Settled(w: Writer, failed: bool): Writer
    requires w.p.current != []
  {
    w.(p := w.p.(current := []), outstanding := false, settled := w.settled + w.p.current,
       dead := w.dead || Final(w.p, failed))
  }

  // ---- The lifecycle ----

  /** terminate, with the shutdown it asks the transport for. */
  function Ended(y: Cycle, e: Error): Cycle {
    var shutdown := TerminateShutdown(y.l);
    y.(l := Terminate(y.l, e),
       failedShutdowns := y.failedShutdowns + (if shutdown == AsFailed then 1 else 0),
       closedShutdowns := y.closedShutdowns + (if shutdown == AsClosed then 1 else 0))
  }

  function Opened(y: Cycle): Cycle {
    y.(l := OpenSession(y.l), opens := y.opens + 1)
  }

  function AfterHandshake(y: Cycle, h: Handshake): (Cycle, Strand) {
    match h
    case Ignored => (y, Idle)
    case Terminated(e) => (Ended(y, e), Idle)
    case ReadMore => (y, Idle)
    case Opened => (Opened(y), Opening)
    case FallsThrough => (Ended(y, OtherError), Falling)
  }

  function AfterFrameRead(y: Cycle, r: ReadStart): (Cycle, Strand) {
    match r
    case ReadOn => (y, Reading)
    case Drop => (y, Idle)
    case EndWith(e) => (Ended(y, e), Idle)
  }

  function AfterClose(y: Cycle, malformed: bool, drop: bool): (Cycle, Strand) {
    var y' := y.(l := NoteClean(y.l, malformed));
    match CloseReceived(y.l, malformed, drop)
    case Nothing => (y, Reading)
    case Acknowledge => (y, Acking)
    case NoteAck => (y', Reading)
    case EndConnection(e) => (Ended(y', e), Reading)
  }

  function AfterShutdown(y: Cycle, failed: bool): Cycle
    requires if failed then y.failedShutdowns > 0 else y.closedShutdowns > 0
  {
    if failed then
      y.(failedShutdowns := y.failedShutdowns - 1, failsDone := y.failsDone + 1,
         fails := y.fails + (if y.l.lastError != HttpEnded then 1 else 0))
    else
      y.(closedShutdowns := y.closedShutdowns - 1, closes := y.closes + 1)
  }

  /** What a step does to the pipeline. */
  function WriterAfter(s: State, t: Step): Writer
    requires Enabled(s, t)
  {
    var w := s.w;
    match t
    case SendPush(m) => Pushed(w, m)
    case ClosePush(m) => Pushed(w, m)
    case AckPush(m) => Pushed(w, m)
    case Dispatch => w.(dispatchers := w.dispatchers - 1, frames := w.frames + 1)
    case RunWriteFrame => w.(p := Take(w.p), frames := w.frames - 1)
    case HandOver => w.(outstanding := true, handed := w.handed + w.p.current)
    case WriteDone(failed) => Settled(w, failed)
    case ReleaseFlag => w.(p := w.p.(writeFlag := false))
    case Redispatch => w.(frames := w.frames + 1)
    case _ => w
  }

  /** What a step does to the lifecycle, and where it leaves the strand. */
  function CycleAfter(s: State, t: Step): (Cycle, Strand)
    requires Enabled(s, t)
  {
    var (y, strand) := (s.y, s.strand);
    match t
    case SendCheck => (y.(senders := y.senders + 1), strand)
    case SendDrop => (y.(senders := y.senders - 1), strand)
    case SendPush(_) => (y.(senders := y.senders - 1), strand)
    case Dispatch => (y, strand)
    case CloseCheck => (y.(closer := CloseChecked), strand)
    case CloseDrop => (y.(closer := NoCloser), strand)
    case CloseMark => (y.(l := MarkClosing(y.l, false), closer := CloseMarked), strand)
    case ClosePush(_) => (y.(closer := NoCloser), strand)
    case RunWriteFrame => (y, if !s.w.p.writeFlag && Take(s.w.p).writeFlag then Handing else Idle)
    case HandOver => (y, Idle)
    case WriteDone(failed) =>
      if Final(s.w.p, failed) then (Ended(y, if failed then OtherError else NoError), Idle) else (y, Releasing)
    case ReleaseFlag => (y, if s.w.p.queue != [] then Redispatching else Idle)
    case Redispatch => (y, Idle)
    case Advance(to) => (y.(l := y.l.(internal := to)), strand)
    case HandshakeWritten(e, upgrade, outcome) => AfterHandshake(y, ResponseWritten(y.l, e, upgrade, outcome))
    case HandshakeRead(e, r) => AfterHandshake(y, ResponseRead(y.l, e, r))
    case FallThrough => (Opened(y), Opening)
    case OpenReturns => AfterFrameRead(y, FrameRead(y.l, NoError))
    case ReadFrame(e) => AfterFrameRead(y, FrameRead(y.l, e))
    case GotClose(malformed, drop) => AfterClose(y, malformed, drop)
    case GotRubbish(drop) =>
      if drop || y.l.session != Open then (Ended(y, OtherError), Idle) else (y, Acking)
    case AckMark(ack) => (y.(l := MarkClosing(y.l, ack)), AckPushing)
    case AckDrop => (y, Reading)
    case AckPush(_) => (y, Reading)
    case ReadEnd => (y, Idle)
    case EndNow(e) => (Ended(y, e), Idle)
    case ShutdownDone(failed) => (AfterShutdown(y, failed), Idle)
  }

  function Apply(s: State, t: Step): State
    requires Enabled(s, t)
  {
    var (y, strand) := CycleAfter(s, t);
    State(WriterAfter(s, t), y, strand)
  }

  // ---- Runs ----

  ghost predicate Valid(s: State, run: seq<Step>)
    decreases run
  {
    run == [] || (Enabled(s, run[0]) && Valid(Apply(s, run[0]), run[1..]))
  }

  ghost function After(s: State, run: seq<Step>): State
    requires Valid(s, run)
    decreases run
  {
    if run == [] then s else After(Apply(s, run[0]), run[1..])
  }
}
