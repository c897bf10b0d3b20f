/**
 The client of cloudGame/include/easywsclient.cpp over whole runs of its public operations:
 what it has written and will write, when it stops, and what it has read.
 */
module EasySocket {
  import opened Bytes
  import opened Masking
  import opened FrameHeader
  import opened EasyFrames

  const KEY: Key := [0x12, 0x34, 0x56, 0x78]
  const CLOSE_BYTES: seq<byte> := [0x88, 0x80, 0x00, 0x00, 0x00, 0x00]
  const ZERO_KEY: Key := [0, 0, 0, 0]
  const CLOSE_FRAME: Frame := Frame(true, false, false, false, 8, Some(ZERO_KEY), [])

  datatype ReadyState = OPEN | CLOSING | CLOSED

  /** txbuf, readyState and useMask, and the bytes the socket has accepted. */
  datatype Outbox = Outbox(tx: seq<byte>, ready: ReadyState, useMask: bool, wire: seq<byte>)

  /** The opcodes sendData is called with: TEXT_FRAME, BINARY_FRAME, PING and PONG. */
  type SendType = n: nat | n == 1 || n == 2 || n == 9 || n == 10 witness 1

  function FrameOf(opcode: SendType, payload: Payload, useMask: bool): Frame {
    Frame(true, false, false, false, opcode, if useMask then Some(KEY) else None, payload)
  }

  /** The bytes sendData appends. */
  function Encoded(opcode: SendType, payload: Payload, useMask: bool): seq<byte> {
    EasyHeader(opcode, |payload|, useMask, KEY) + if useMask then Masked(payload, KEY, 0) else payload
  }

  function SendData(o: Outbox, opcode: SendType, payload: Payload): Outbox {
    if o.ready != OPEN then o else o.(tx := o.tx + Encoded(opcode, payload, o.useMask))
  }

  function Close(o: Outbox): Outbox {
    if o.ready != OPEN then o else o.(ready := CLOSING, tx := o.tx + CLOSE_BYTES)
  }

  function ObeyOne(o: Outbox, e: Event): Outbox {
    match e
    case Call(_) => o
    case Pong(payload) => SendData(o, 10, payload)
    case Quit => Close(o)
  }

  /** What dispatching does to the sending side. */
  function Obey(o: Outbox, events: seq<Event>): Outbox
    decreases |events|
  {
    if events == [] then o else Obey(ObeyOne(o, events[0]), events[1..])
  }

  function Calls(events: seq<Event>): seq<seq<byte>> {
    if events == [] then []
    else (if events[0].Call? then [events[0].message] else []) + Calls(events[1..])
  }

  // ---- poll ----

  /** What one recv returned: bytes (none at end of stream), nothing yet, or an error. */
  datatype Received = Data(bytes: seq<byte>) | RecvBlocked | RecvFailed

  /** What one send returned: how much it took (zero closes), nothing yet, or an error. */
  datatype Accepted = Took(n: nat) | SendBlocked | SendFailed

  /** The bytes the receive loop appends to rxbuf; when recv has nothing scripted left it blocks. */
  function Taken(recvs: seq<Received>): seq<byte> {
    if recvs == [] || !recvs[0].Data? || recvs[0].bytes == [] then [] else recvs[0].bytes + Taken(recvs[1..])
  }

  function Hangup(recvs: seq<Received>): bool {
    recvs != [] && (recvs[0].RecvFailed? || (recvs[0].Data? && (recvs[0].bytes == [] || Hangup(recvs[1..]))))
  }

  function Take(o: Outbox, n: nat): Outbox {
    var k := if n < |o.tx| then n else |o.tx|;
    o.(tx := o.tx[k..], wire := o.wire + o.tx[..k])
  }

  /** The send loop. */
  function Transmit(o: Outbox, sends: seq<Accepted>): Outbox
    decreases |sends|
  {
    if o.tx == [] || sends == [] || sends[0].SendBlocked? then o
    else if sends[0].SendFailed? || sends[0].n == 0 then o.(ready := CLOSED)
    else Transmit(Take(o, sends[0].n), sends[1..])
  }

  predicate Fails(sends: seq<Accepted>) {
    exists i :: 0 <= i < |sends| && (sends[i].SendFailed? || sends[i] == Took(0))
  }

  /** The send loop gets as far as a send that fails. */
  predicate Breaks(o: Outbox, sends: seq<Accepted>)
    decreases |sends|
  {
    && o.tx != [] && sends != [] && !sends[0].SendBlocked?
    && (sends[0].SendFailed? || sends[0].n == 0 || Breaks(Take(o, sends[0].n), sends[1..]))
  }

  function Finish(o: Outbox): Outbox {
    if o.tx == [] && o.ready == CLOSING then o.(ready := CLOSED) else o
  }

  function PollOut(o: Outbox, recvs: seq<Received>, sends: seq<Accepted>): Outbox {
    if o.ready == CLOSED then o
    else Finish(Transmit(if Hangup(recvs) then o.(ready := CLOSED) else o, sends))
  }

  function PollIn(o: Outbox, recvs: seq<Received>): seq<byte> {
    if o.ready == CLOSED then [] else Taken(recvs)
  }

  // ---- What a poll moves, from the scripts alone ----

  /** How many results at the front of a script of recv bring bytes. */
  function Reads(recvs: seq<Received>): (k: nat)
    ensures k <= |recvs|
    ensures forall i :: 0 <= i < k ==> recvs[i].Data? && recvs[i].bytes != []
    ensures k < |recvs| ==> !(recvs[k].Data? && recvs[k].bytes != [])
  {
    if recvs == [] || !recvs[0].Data? || recvs[0].bytes == [] then 0 else 1 + Reads(recvs[1..])
  }

  function Chunks(recvs: seq<Received>): seq<seq<byte>>
    requires forall i :: 0 <= i < |recvs| ==> recvs[i].Data?
  {
    seq(|recvs|, i requires 0 <= i < |recvs| => recvs[i].bytes)
  }

  /** The bytes a script of recv brings. */
  function Brought(recvs: seq<Received>): seq<byte> {
    Flatten(Chunks(recvs[..Reads(recvs)]))
  }

  /** How many results at the front of a script of send take bytes. */
  function Writes(sends: seq<Accepted>): (k: nat)
    ensures k <= |sends|
    ensures forall i :: 0 <= i < k ==> sends[i].Took? && sends[i].n > 0
    ensures k < |sends| ==> !(sends[k].Took? && sends[k].n > 0)
  {
    if sends == [] || !sends[0].Took? || sends[0].n == 0 then 0 else 1 + Writes(sends[1..])
  }

  function Total(sends: seq<Accepted>): nat
    requires forall i :: 0 <= i < |sends| ==> sends[i].Took?
  {
    if sends == [] then 0 else sends[0].n + Total(sends[1..])
  }

  function Min(a: nat, b: nat): (m: nat)
    ensures m <= a && m <= b && (m == a || m == b)
  {
    if a < b then a else b
  }

  /** How many of the waiting bytes a script of send takes. */
  function Moved(waiting: nat, sends: seq<Accepted>): (n: nat)
    ensures n <= waiting
  {
    Min(waiting, Total(sends[..Writes(sends)]))
  }

  /** The connection is gone where the reads stop: at an error or at the end of the stream. */
  predicate ReadsEndIt(recvs: seq<Received>) {
    Reads(recvs) < |recvs| && !recvs[Reads(recvs)].RecvBlocked?
  }

  /** The connection is gone where the writes stop, and bytes were still waiting. */
  predicate WritesEndIt(waiting: nat, sends: seq<Accepted>) {
    Moved(waiting, sends) < waiting && Writes(sends) < |sends| && !sends[Writes(sends)].SendBlocked?
  }

  lemma {:induction false} TakenExactly(recvs: seq<Received>)
    ensures Taken(recvs) == Brought(recvs)
    ensures Hangup(recvs) <==> ReadsEndIt(recvs)
    decreases |recvs|
  {
    if recvs != [] && recvs[0].Data? && recvs[0].bytes != [] {
      TakenExactly(recvs[1..]);
      var k := Reads(recvs);
      assert recvs[..k][1..] == recvs[1..][..k - 1];
      assert Chunks(recvs[..k])[1..] == Chunks(recvs[1..][..k - 1]);
      assert Chunks(recvs[..k])[0] == recvs[0].bytes;
    }
  }

  /** A send that takes bytes leaves the rest of the script the rest of the bytes. */
  lemma MovedStep(waiting: nat, sends: seq<Accepted>)
    requires sends != [] && sends[0].Took? && sends[0].n > 0
    ensures var k := Min(waiting, sends[0].n);
      && Moved(waiting, sends) == k + Moved(waiting - k, sends[1..])
      && (WritesEndIt(waiting, sends) <==> WritesEndIt(waiting - k, sends[1..]))
  {
    var j := Writes(sends[1..]);
    assert Writes(sends) == 1 + j;
    assert sends[..1 + j][1..] == sends[1..][..j];
    assert Total(sends[..1 + j]) == sends[0].n + Total(sends[1..][..j]);
  }

  lemma MovedStops(waiting: nat, sends: seq<Accepted>)
    requires waiting == 0 || sends == [] || !sends[0].Took? || sends[0].n == 0
    ensures Moved(waiting, sends) == 0
    ensures WritesEndIt(waiting, sends) <==> waiting > 0 && sends != [] && !sends[0].SendBlocked?
  {
  }

  /** Taking k bytes and then m more is taking k + m. */
  lemma TakeMore(o: Outbox, n: nat, m: nat)
    ensures var k := Min(|o.tx|, n); var next := Take(o, n);
      && |next.tx| == |o.tx| - k
      && (k + m <= |o.tx| ==>
            next.tx[m..] == o.tx[k + m..] && next.wire + next.tx[..m] == o.wire + o.tx[..k + m])
  {
    var k := Min(|o.tx|, n);
    if k + m <= |o.tx| {
      assert o.tx[..k] + o.tx[k..][..m] == o.tx[..k + m];
      Associate(o.wire, o.tx[..k], o.tx[k..][..m]);
    }
  }

  lemma {:induction false} TransmitExactly(o: Outbox, sends: seq<Accepted>)
    ensures var t := Transmit(o, sends); var n := Moved(|o.tx|, sends);
      t.tx == o.tx[n..] && t.wire == o.wire + o.tx[..n]
    decreases |sends|
  {
    hide Moved, WritesEndIt, Take, Min;
    if o.tx != [] && sends != [] && sends[0].Took? && sends[0].n > 0 {
      var next := Take(o, sends[0].n);
      MovedStep(|o.tx|, sends);
      TransmitExactly(next, sends[1..]);
      TakeMore(o, sends[0].n, Moved(|o.tx| - Min(|o.tx|, sends[0].n), sends[1..]));
    } else {
      MovedStops(|o.tx|, sends);
      assert o.wire + [] == o.wire;
    }
  }

  lemma {:induction false} BreaksExactly(o: Outbox, sends: seq<Accepted>)
    ensures Breaks(o, sends) <==> WritesEndIt(|o.tx|, sends)
    decreases |sends|
  {
    hide Moved, WritesEndIt;
    if o.tx != [] && sends != [] && sends[0].Took? && sends[0].n > 0 {
      MovedStep(|o.tx|, sends);
      BreaksExactly(Take(o, sends[0].n), sends[1..]);
    } else {
      MovedStops(|o.tx|, sends);
    }
  }

  /**
   A poll of a client that is not closed moves exactly as many bytes as the leading sends take, at
   most all, from the front of txbuf to the socket, and the bytes of the leading reads, all of them,
   to the end of rxbuf.
   */
  lemma PollMoves(s: Session, recvs: seq<Received>, sends: seq<Accepted>)
    requires s.out.ready != CLOSED
    ensures var t := Step(s, Poll(recvs, sends)); var n := Moved(|s.out.tx|, sends);
      && t.out.tx == s.out.tx[n..] && t.out.wire == s.out.wire + s.out.tx[..n]
      && t.inbox.rx == s.inbox.rx + Brought(recvs)
  {
    hide Taken, Brought, Hangup, Transmit, Moved;
    TakenExactly(recvs);
    TransmitExactly(if Hangup(recvs) then s.out.(ready := CLOSED) else s.out, sends);
  }

  // ---- Runs ----

  datatype Op =
    | Send(opcode: SendType, payload: Payload)
    | CloseCall
    | Poll(recvs: seq<Received>, sends: seq<Accepted>)
    | Dispatch

  datatype Session = Session(inbox: Inbox, out: Outbox, calls: seq<seq<byte>>)

  function Start(useMask: bool): Session {
    Session(EMPTY, Outbox([], OPEN, useMask, []), [])
  }

  function Step(s: Session, op: Op): Session {
    match op
    case Send(opcode, payload) => s.(out := SendData(s.out, opcode, payload))
    case CloseCall => s.(out := Close(s.out))
    case Poll(recvs, sends) =>
      Session(More(s.inbox, PollIn(s.out, recvs)), PollOut(s.out, recvs, sends), s.calls)
    case Dispatch =>
      var (inbox, events) := Receive(s.inbox);
      Session(inbox, Obey(s.out, events), s.calls + Calls(events))
  }

  function Run(s: Session, ops: seq<Op>): Session
    decreases |ops|
  {
    if ops == [] then s else Run(Step(s, ops[0]), ops[1..])
  }

  // ---- The frames a run appends ----

  function SendLog(o: Outbox, opcode: SendType, payload: Payload): seq<Frame> {
    if o.ready == OPEN then [FrameOf(opcode, payload, o.useMask)] else []
  }

  function CloseLog(o: Outbox): seq<Frame> {
    if o.ready == OPEN then [CLOSE_FRAME] else []
  }

  function ObeyOneLog(o: Outbox, e: Event): seq<Frame> {
    match e
    case Call(_) => []
    case Pong(payload) => SendLog(o, 10, payload)
    case Quit => CloseLog(o)
  }

  function ObeyLog(o: Outbox, events: seq<Event>): seq<Frame>
    decreases |events|
  {
    if events == [] then [] else ObeyOneLog(o, events[0]) + ObeyLog(ObeyOne(o, events[0]), events[1..])
  }

  function StepLog(s: Session, op: Op): seq<Frame> {
    match op
    case Send(opcode, payload) => SendLog(s.out, opcode, payload)
    case CloseCall => CloseLog(s.out)
    case Poll(_, _) => []
    case Dispatch => ObeyLog(s.out, Receive(s.inbox).1)
  }

  function Log(s: Session, ops: seq<Op>): seq<Frame>
    decreases |ops|
  {
    if ops == [] then [] else StepLog(s, ops[0]) + Log(Step(s, ops[0]), ops[1..])
  }

  // ---- Every byte is accounted for ----

  /** Everything ever appended and not lost: what the socket took, then what waits. */
  function Stream(o: Outbox): seq<byte> {
    o.wire + o.tx
  }

  lemma EncodedIsFrame(opcode: SendType, payload: Payload, useMask: bool)
    ensures Encoded(opcode, payload, useMask) == WireFrame(FrameOf(opcode, payload, useMask))
  {
    hide EasyHeader, Header, Masked;
    HeadersAgree(opcode, |payload|, useMask, KEY);
    if !useMask {
      HeaderLayout(Fields(true, false, false, false, opcode, |payload|), false, KEY);
      HeaderLayout(Fields(true, false, false, false, opcode, |payload|), false, [0, 0, 0, 0]);
    }
  }

  lemma CloseBytesAreFrame()
    ensures CLOSE_BYTES == WireFrame(CLOSE_FRAME)
  {
    hide Header, MakeBasic, BigEndian;
    var f := Fields(true, false, false, false, 8, 0);
    HeaderLayout(f, true, [0, 0, 0, 0]);
    FirstByteOr(f, true);
    SecondByteOr(f, true);
    assert Masked([], [0, 0, 0, 0], 0) == [];
  }

  lemma {:induction false} OneFrame(f: Frame)
    ensures WireFrames([f]) == WireFrame(f) && WireFrames([]) == []
  {
    hide WireFrame;
    assert [f][1..] == [];
    assert WireFrame(f) + [] == WireFrame(f);
  }

  lemma SendStream(o: Outbox, opcode: SendType, payload: Payload)
    ensures Stream(SendData(o, opcode, payload)) == Stream(o) + WireFrames(SendLog(o, opcode, payload))
  {
    hide Encoded, WireFrame, WireFrames;
    EncodedIsFrame(opcode, payload, o.useMask);
    OneFrame(FrameOf(opcode, payload, o.useMask));
    Associate(o.wire, o.tx, Encoded(opcode, payload, o.useMask));
    assert Stream(o) + [] == Stream(o);
  }

  lemma CloseStream(o: Outbox)
    ensures Stream(Close(o)) == Stream(o) + WireFrames(CloseLog(o))
  {
    hide WireFrame, WireFrames;
    CloseBytesAreFrame();
    OneFrame(CLOSE_FRAME);
    Associate(o.wire, o.tx, CLOSE_BYTES);
    assert Stream(o) + [] == Stream(o);
  }

  lemma ObeyOneStream(o: Outbox, e: Event)
    ensures Stream(ObeyOne(o, e)) == Stream(o) + WireFrames(ObeyOneLog(o, e))
  {
    hide WireFrame, WireFrames, Stream, SendLog, CloseLog, SendData, Close;
    match e
    case Call(_) =>
      OneFrame(CLOSE_FRAME);
      assert Stream(o) + [] == Stream(o);
    case Pong(payload) => SendStream(o, 10, payload);
    case Quit => CloseStream(o);
  }

  lemma {:induction false} ObeyStream(o: Outbox, events: seq<Event>)
    ensures Stream(Obey(o, events)) == Stream(o) + WireFrames(ObeyLog(o, events))
    decreases |events|
  {
    hide WireFrame, WireFrames, Stream, ObeyOne, ObeyOneLog;
    if events == [] {
      OneFrame(CLOSE_FRAME);
      assert Stream(o) + [] == Stream(o);
    } else {
      var next := ObeyOne(o, events[0]);
      ObeyOneStream(o, events[0]);
      ObeyStream(next, events[1..]);
      WireFramesAppend(ObeyOneLog(o, events[0]), ObeyLog(next, events[1..]));
      Associate(Stream(o), WireFrames(ObeyOneLog(o, events[0])), WireFrames(ObeyLog(next, events[1..])));
    }
  }

  lemma TakeStream(o: Outbox, n: nat)
    ensures Stream(Take(o, n)) == Stream(o)
  {
    var k := if n < |o.tx| then n else |o.tx|;
    assert o.tx[..k] + o.tx[k..] == o.tx;
    Associate(o.wire, o.tx[..k], o.tx[k..]);
  }

  lemma {:induction false} TransmitStream(o: Outbox, sends: seq<Accepted>)
    ensures Stream(Transmit(o, sends)) == Stream(o)
    decreases |sends|
  {
    if !(o.tx == [] || sends == [] || sends[0].SendBlocked?) && sends[0].Took? && sends[0].n != 0 {
      TakeStream(o, sends[0].n);
      TransmitStream(Take(o, sends[0].n), sends[1..]);
    }
  }

  /** How many bytes the polls of a run move. */
  function MovedIn(s: Session, ops: seq<Op>): nat
    decreases |ops|
  {
    if ops == [] then 0
    else
      (if ops[0].Poll? && s.out.ready != CLOSED then Moved(|s.out.tx|, ops[0].sends) else 0)
        + MovedIn(Step(s, ops[0]), ops[1..])
  }

  lemma {:induction false} ObeyWire(o: Outbox, events: seq<Event>)
    ensures Obey(o, events).wire == o.wire
    decreases |events|
  {
    hide Encoded;
    if events != [] {
      ObeyWire(ObeyOne(o, events[0]), events[1..]);
    }
  }

  lemma StepWire(s: Session, op: Op)
    ensures |Step(s, op).out.wire| == |s.out.wire| + MovedIn(s, [op])
  {
    assert [op][1..] == [];
    hide Receive, PollIn, PollOut, Obey, Moved, Encoded;
    match op
    case Poll(recvs, sends) =>
      if s.out.ready != CLOSED {
        PollMoves(s, recvs, sends);
      } else {
        ClosedIsLeftAlone(s.out, recvs, sends);
      }
    case Dispatch => ObeyWire(s.out, Receive(s.inbox).1);
    case _ =>
  }

  lemma ClosedIsLeftAlone(o: Outbox, recvs: seq<Received>, sends: seq<Accepted>)
    requires o.ready == CLOSED
    ensures PollOut(o, recvs, sends) == o && PollIn(o, recvs) == []
  {
  }

  lemma StepStream(s: Session, op: Op)
    ensures Stream(Step(s, op).out) == Stream(s.out) + WireFrames(StepLog(s, op))
  {
    hide WireFrame, WireFrames, SendLog, CloseLog, SendData, Close, ObeyLog, Obey, Receive;
    match op
    case Send(opcode, payload) => SendStream(s.out, opcode, payload);
    case CloseCall => CloseStream(s.out);
    case Poll(recvs, sends) =>
      var o := if Hangup(recvs) then s.out.(ready := CLOSED) else s.out;
      TransmitStream(o, sends);
      OneFrame(CLOSE_FRAME);
      assert Stream(s.out) + [] == Stream(s.out);
    case Dispatch => ObeyStream(s.out, Receive(s.inbox).1);
  }

  /**
   In every run, what the socket has taken followed by txbuf is exactly the bytes of the frames
   appended, in the order they were appended, whatever the socket accepts and when; and it has taken
   exactly as many of them as its polls moved.
   */
  lemma {:induction false} BytesConserved(s: Session, ops: seq<Op>)
    ensures Stream(Run(s, ops).out) == Stream(s.out) + WireFrames(Log(s, ops))
    ensures |Run(s, ops).out.wire| == |s.out.wire| + MovedIn(s, ops)
    decreases |ops|
  {
    hide WireFrame, WireFrames, Stream, Step, StepLog;
    if ops == [] {
      OneFrame(CLOSE_FRAME);
      assert Stream(s.out) + [] == Stream(s.out);
    } else {
      var next := Step(s, ops[0]);
      StepStream(s, ops[0]);
      StepWire(s, ops[0]);
      assert [ops[0]][1..] == [];
      BytesConserved(next, ops[1..]);
      WireFramesAppend(StepLog(s, ops[0]), Log(next, ops[1..]));
      Associate(Stream(s.out), WireFrames(StepLog(s, ops[0])), WireFrames(Log(next, ops[1..])));
    }
  }

  // ---- The close discipline ----

  function Rank(r: ReadyState): nat {
    match r case OPEN => 0 case CLOSING => 1 case CLOSED => 2
  }

  /** Data first, then at most one close frame, which is last. */
  predicate Disciplined(frames: seq<Frame>) {
    forall i :: 0 <= i < |frames| ==>
      if frames[i].opcode == 8 then i == |frames| - 1 && frames[i] == CLOSE_FRAME
      else frames[i].opcode == 1 || frames[i].opcode == 2 || frames[i].opcode == 9 || frames[i].opcode == 10
  }

  predicate Closes(frames: seq<Frame>) {
    frames != [] && frames[|frames| - 1].opcode == 8
  }

  /** What a stretch of a run from o to p appends. */
  predicate Stretch(o: Outbox, p: Outbox, frames: seq<Frame>) {
    && Disciplined(frames)
    && Rank(o.ready) <= Rank(p.ready)
    && (o.ready != OPEN ==> frames == [])
    && (Closes(frames) ==> p.ready != OPEN)
  }

  lemma StretchesCompose(o: Outbox, p: Outbox, q: Outbox, a: seq<Frame>, b: seq<Frame>)
    requires Stretch(o, p, a) && Stretch(p, q, b)
    ensures Stretch(o, q, a + b)
  {
    if Closes(a) {
      assert a + b == a;
    } else {
      forall i | 0 <= i < |a + b|
        ensures var f := (a + b)[i];
          if f.opcode == 8 then i == |a + b| - 1 && f == CLOSE_FRAME
          else f.opcode == 1 || f.opcode == 2 || f.opcode == 9 || f.opcode == 10
      {
        if i < |a| {
          assert a[i].opcode == 8 ==> Closes(a);
        } else {
          assert (a + b)[i] == b[i - |a|];
        }
      }
    }
  }

  lemma {:induction false} ObeyDisciplined(o: Outbox, events: seq<Event>)
    ensures Stretch(o, Obey(o, events), ObeyLog(o, events))
    decreases |events|
  {
    if events != [] {
      var next := ObeyOne(o, events[0]);
      ObeyDisciplined(next, events[1..]);
      StretchesCompose(o, next, Obey(next, events[1..]), ObeyOneLog(o, events[0]), ObeyLog(next, events[1..]));
    }
  }

  lemma {:induction false} TransmitRank(o: Outbox, sends: seq<Accepted>)
    ensures Rank(o.ready) <= Rank(Transmit(o, sends).ready)
    decreases |sends|
  {
    if !(o.tx == [] || sends == [] || sends[0].SendBlocked?) && sends[0].Took? && sends[0].n != 0 {
      TransmitRank(Take(o, sends[0].n), sends[1..]);
    }
  }

  lemma StepDisciplined(s: Session, op: Op)
    ensures Stretch(s.out, Step(s, op).out, StepLog(s, op))
  {
    hide Obey, ObeyLog, Receive, Transmit;
    match op
    case Poll(recvs, sends) => TransmitRank(if Hangup(recvs) then s.out.(ready := CLOSED) else s.out, sends);
    case Dispatch => ObeyDisciplined(s.out, Receive(s.inbox).1);
    case _ =>
  }

  /**
   Section 5.5.1 of RFC 6455, over every run: readyState never moves back, at most one close
   frame is appended, nothing follows it, and once it is appended the state is CLOSING or CLOSED.
   */
  lemma {:induction false} CloseDiscipline(s: Session, ops: seq<Op>)
    ensures Disciplined(Log(s, ops))
    ensures Rank(s.out.ready) <= Rank(Run(s, ops).out.ready)
    ensures s.out.ready != OPEN ==> Log(s, ops) == []
    ensures Closes(Log(s, ops)) ==> Run(s, ops).out.ready != OPEN
    decreases |ops|
  {
    if ops != [] {
      hide Step, StepLog;
      var next := Step(s, ops[0]);
      StepDisciplined(s, ops[0]);
      CloseDiscipline(next, ops[1..]);
      StretchesCompose(s.out, next.out, Run(s, ops).out, StepLog(s, ops[0]), Log(next, ops[1..]));
    }
  }

  lemma {:induction false} TransmitReady(o: Outbox, sends: seq<Accepted>)
    ensures Transmit(o, sends).ready == if Breaks(o, sends) then CLOSED else o.ready
    ensures Breaks(o, sends) ==> Fails(sends)
    decreases |sends|
  {
    if !(o.tx == [] || sends == [] || sends[0].SendBlocked?) {
      assert sends[0].SendFailed? || sends[0] == Took(0) ==> Fails(sends);
      if sends[0].Took? && sends[0].n != 0 {
        TransmitReady(Take(o, sends[0].n), sends[1..]);
        if Fails(sends[1..]) {
          var i :| 0 <= i < |sends| - 1 && (sends[1..][i].SendFailed? || sends[1..][i] == Took(0));
          assert sends[i + 1] == sends[1..][i];
        }
      }
    }
  }

  lemma {:induction false} BreaksAnyway(o: Outbox, sends: seq<Accepted>, ready: ReadyState)
    ensures Breaks(o.(ready := ready), sends) == Breaks(o, sends)
    decreases |sends|
  {
    if o.tx != [] && sends != [] && sends[0].Took? {
      BreaksAnyway(Take(o, sends[0].n), sends[1..], ready);
    }
  }

  /**
   What a poll does to readyState: it is closed afterwards exactly if it was, or the peer hung up,
   or a send failed, or a closing client has written everything; otherwise it is what it was. A
   closed client is left alone altogether.
   */
  lemma PollEffect(s: Session, recvs: seq<Received>, sends: seq<Accepted>)
    ensures var t := Step(s, Poll(recvs, sends));
      && (s.out.ready == CLOSED ==> t == s)
      && (t.out.ready == CLOSED <==>
            || s.out.ready == CLOSED || ReadsEndIt(recvs) || WritesEndIt(|s.out.tx|, sends)
            || (s.out.ready == CLOSING && t.out.tx == []))
      && (t.out.ready != CLOSED ==> t.out.ready == s.out.ready)
      && (s.out.ready == CLOSING && t.out.tx == [] ==> t.out.wire == Stream(s.out))
      && (WritesEndIt(|s.out.tx|, sends) ==> Fails(sends))
  {
    hide Hangup, Fails, Transmit, Breaks, ReadsEndIt, WritesEndIt;
    TakenExactly(recvs);
    BreaksExactly(s.out, sends);
    var o := if Hangup(recvs) then s.out.(ready := CLOSED) else s.out;
    TransmitReady(o, sends);
    TransmitReady(s.out, sends);
    BreaksAnyway(s.out, sends, CLOSED);
    TransmitStream(o, sends);
    assert s.inbox.rx + [] == s.inbox.rx;
    assert Transmit(o, sends).wire + [] == Transmit(o, sends).wire;
  }

  // ---- What a run reads ----

  /** All the bytes a run takes from the socket. */
  function Heard(s: Session, ops: seq<Op>): seq<byte>
    decreases |ops|
  {
    if ops == [] then []
    else (if ops[0].Poll? then PollIn(s.out, ops[0].recvs) else []) + Heard(Step(s, ops[0]), ops[1..])
  }

  lemma {:induction false} CallsAppend(a: seq<Event>, b: seq<Event>)
    ensures Calls(a + b) == Calls(a) + Calls(b)
  {
    if a == [] {
      assert a + b == b;
    } else {
      assert (a + b)[1..] == a[1..] + b;
      CallsAppend(a[1..], b);
    }
  }

  /**
   What a run calls back with, and the input state it leaves, after a last dispatch, are those of
   one dispatch of all the bytes it took: neither the cuts, nor when dispatch was called, nor
   anything sent in between matters.
   */
  lemma {:induction false} ReadingIsOneDispatch(s: Session, ops: seq<Op>)
    ensures var all := Receive(More(s.inbox, Heard(s, ops)));
      var end := Step(Run(s, ops), Dispatch);
      end.inbox == all.0 && end.calls == s.calls + Calls(all.1)
    decreases |ops|
  {
    hide Receive, Calls, SendData, Close, PollOut, PollIn, Obey;
    if ops == [] {
      assert More(s.inbox, []) == s.inbox;
    } else {
      var op := ops[0];
      var next := Step(s, op);
      var rest := Heard(next, ops[1..]);
      ReadingIsOneDispatch(next, ops[1..]);
      match op
      case Poll(recvs, _) =>
        Associate(s.inbox.rx, PollIn(s.out, recvs), rest);
      case Dispatch =>
        assert [] + rest == rest;
        ReceiveMore(s.inbox, rest);
        CallsAppend(Receive(s.inbox).1, Receive(More(Receive(s.inbox).0, rest)).1);
        Associate(s.calls, Calls(Receive(s.inbox).1), Calls(Receive(More(Receive(s.inbox).0, rest)).1));
      case _ =>
        assert [] + rest == rest;
    }
  }

  // ---- What a client answers ----

  /**
   A pong with the same payload for every ping, and a close frame for the first close or unknown
   frame, and then nothing.
   */
  function Answers(frames: seq<Frame>, useMask: bool): seq<Frame> {
    if frames == [] then []
    else if frames[0].opcode == 9 then [FrameOf(10, frames[0].payload, useMask)] + Answers(frames[1..], useMask)
    else if frames[0].opcode <= 2 || frames[0].opcode == 10 then Answers(frames[1..], useMask)
    else [CLOSE_FRAME]
  }

  lemma {:induction false} SilentUnlessOpen(o: Outbox, events: seq<Event>)
    requires o.ready != OPEN
    ensures ObeyLog(o, events) == []
    decreases |events|
  {
    if events != [] {
      SilentUnlessOpen(ObeyOne(o, events[0]), events[1..]);
    }
  }

  lemma {:induction false} ObeyLogAppend(o: Outbox, a: seq<Event>, b: seq<Event>)
    ensures ObeyLog(o, a + b) == ObeyLog(o, a) + ObeyLog(Obey(o, a), b)
    decreases |a|
  {
    hide ObeyOne, ObeyOneLog;
    if a == [] {
      assert a + b == b;
    } else {
      assert (a + b)[0] == a[0] && (a + b)[1..] == a[1..] + b;
      ObeyLogAppend(ObeyOne(o, a[0]), a[1..], b);
      Associate(ObeyOneLog(o, a[0]), ObeyLog(ObeyOne(o, a[0]), a[1..]), ObeyLog(Obey(o, a), b));
    }
  }

  lemma ReactAnswers(o: Outbox, fragments: seq<byte>, f: Frame)
    ensures var r := React(fragments, f.fin, f.opcode, f.payload);
      && ObeyLog(o, r.1) == (if o.ready == OPEN then Answers([f], o.useMask) else [])
      && Obey(o, r.1).useMask == o.useMask
      && (Obey(o, r.1).ready == OPEN <==> o.ready == OPEN && (f.opcode <= 2 || f.opcode == 9 || f.opcode == 10))
  {
    hide Encoded;
    var r := React(fragments, f.fin, f.opcode, f.payload);
    assert [f][1..] == [];
    if r.1 != [] {
      assert r.1[1..] == [];
    }
  }

  /**
   Sections 5.5.1 to 5.5.3: any frames at all are answered by exactly these, while the client is
   open, and by none otherwise.
   */
  lemma {:induction false} AnswersExactly(o: Outbox, fragments: seq<byte>, frames: seq<Frame>)
    ensures ObeyLog(o, Meaning(fragments, frames).1) == if o.ready == OPEN then Answers(frames, o.useMask) else []
    decreases |frames|
  {
    hide React, Obey, ObeyLog, FrameOf, Answers, Meaning;
    if frames == [] {
      NothingToObey(o);
      NoAnswers(fragments, o.useMask);
    } else {
      var f := frames[0];
      var (next, events) := React(fragments, f.fin, f.opcode, f.payload);
      assert frames == [f] + frames[1..];
      MeaningStep(fragments, f, frames[1..]);
      ObeyLogAppend(o, events, Meaning(next, frames[1..]).1);
      ReactAnswers(o, fragments, f);
      AnswersExactly(Obey(o, events), next, frames[1..]);
      AnswersStep(f, frames[1..], o.useMask);
      var none: seq<Frame> := [];
      assert none + none == none;
    }
  }

  lemma NoAnswers(fragments: seq<byte>, useMask: bool)
    ensures Answers([], useMask) == [] && Meaning(fragments, []).1 == []
  {
  }

  lemma AnswersStep(f: Frame, more: seq<Frame>, useMask: bool)
    ensures Answers([f] + more, useMask) == Answers([f], useMask)
      + if f.opcode <= 2 || f.opcode == 9 || f.opcode == 10 then Answers(more, useMask) else []
  {
    assert ([f] + more)[1..] == more && [f][1..] == [];
  }

  /** And so a dispatch of whole frames appends exactly the answers to them. */
  lemma DispatchAnswers(s: Session, frames: seq<Frame>)
    requires s.inbox.rx == WireFrames(frames) && !s.inbox.bad
    ensures StepLog(s, Dispatch) == if s.out.ready == OPEN then Answers(frames, s.out.useMask) else []
  {
    hide WireFrames, Meaning, Answers, ObeyLog;
    ReceiveFrames(frames, s.inbox.fragments, []);
    var m := Meaning(s.inbox.fragments, frames);
    assert WireFrames(frames) + [] == WireFrames(frames) && s.inbox == Inbox(s.inbox.rx, s.inbox.fragments, false);
    ReceiveNothing(m.0);
    assert m.1 + [] == m.1;
    AnswersExactly(s.out, s.inbox.fragments, frames);
  }

  /** A header that announces 2^63 bytes or more makes an open client close, with its close frame, and call nobody. */
  lemma OversizedCloses(s: Session, f: Fields, mask: bool, key: Key, rest: seq<byte>)
    requires s.inbox.rx == Header(f, mask, key) + rest && !s.inbox.bad && f.size >= LONG
    ensures var t := Step(s, Dispatch);
      && t.inbox == s.inbox.(bad := true) && t.calls == s.calls
      && t.out == (if s.out.ready == OPEN then s.out.(ready := CLOSING, tx := s.out.tx + CLOSE_BYTES) else s.out)
      && StepLog(s, Dispatch) == if s.out.ready == OPEN then [CLOSE_FRAME] else []
  {
    hide Header, Receive;
    ReceiveOversized(s.inbox.fragments, f, mask, key, rest);
    assert s.inbox == Inbox(s.inbox.rx, s.inbox.fragments, false);
    OneEvent(s.out, Quit);
    assert [Quit][1..] == [];
    assert s.calls + [] == s.calls;
    assert [CLOSE_FRAME] + [] == [CLOSE_FRAME];
  }

  lemma ReceiveNothing(fragments: seq<byte>)
    ensures Receive(Inbox([], fragments, false)).1 == []
  {
  }

  lemma NothingToObey(o: Outbox)
    ensures ObeyLog(o, []) == []
  {
  }

  // ---- Two clients ----

  /** The messages among frames. */
  function Messages(frames: seq<Frame>): seq<seq<byte>> {
    if frames == [] then []
    else (if frames[0].opcode <= 2 then [frames[0].payload] else []) + Messages(frames[1..])
  }

  lemma ReactFinal(f: Frame)
    requires f.fin
    ensures var r := React([], f.fin, f.opcode, f.payload);
      r.0 == [] && Calls(r.1) == if f.opcode <= 2 then [f.payload] else []
  {
    var events := React([], f.fin, f.opcode, f.payload).1;
    assert [] + f.payload == f.payload;
    assert events != [] ==> events[1..] == [];
  }

  lemma {:induction false} MeaningOfDisciplined(frames: seq<Frame>)
    requires forall i :: 0 <= i < |frames| ==> frames[i].fin && frames[i].opcode != 0
    ensures Meaning([], frames).0 == []
    ensures Calls(Meaning([], frames).1) == Messages(frames)
    decreases |frames|
  {
    if frames != [] {
      MeaningOfDisciplined(frames[1..]);
      hide React, Calls;
      var f := frames[0];
      ReactFinal(f);
      var (_, events) := React([], f.fin, f.opcode, f.payload);
      CallsAppend(events, Meaning([], frames[1..]).1);
    }
  }

  lemma {:induction false} ObeyFinal(o: Outbox, events: seq<Event>)
    ensures forall i :: 0 <= i < |ObeyLog(o, events)| ==> ObeyLog(o, events)[i].fin && ObeyLog(o, events)[i].opcode != 0
    decreases |events|
  {
    if events != [] {
      ObeyFinal(ObeyOne(o, events[0]), events[1..]);
    }
  }

  lemma {:induction false} LogFinal(s: Session, ops: seq<Op>)
    ensures forall i :: 0 <= i < |Log(s, ops)| ==> Log(s, ops)[i].fin && Log(s, ops)[i].opcode != 0
    decreases |ops|
  {
    if ops != [] {
      ObeyFinal(s.out, Receive(s.inbox).1);
      LogFinal(Step(s, ops[0]), ops[1..]);
    }
  }

  /** The text and binary messages a run is asked to send while the client is open. */
  function Said(s: Session, ops: seq<Op>): seq<seq<byte>>
    decreases |ops|
  {
    if ops == [] then []
    else
      (if ops[0].Send? && ops[0].opcode <= 2 && s.out.ready == OPEN then [ops[0].payload] else [])
        + Said(Step(s, ops[0]), ops[1..])
  }

  lemma {:induction false} MessagesAppend(a: seq<Frame>, b: seq<Frame>)
    ensures Messages(a + b) == Messages(a) + Messages(b)
  {
    if a == [] {
      assert a + b == b;
    } else {
      assert (a + b)[1..] == a[1..] + b;
      MessagesAppend(a[1..], b);
    }
  }

  /** Answers carry no messages. */
  lemma {:induction false} ObeySaysNothing(o: Outbox, events: seq<Event>)
    ensures Messages(ObeyLog(o, events)) == []
    decreases |events|
  {
    hide Encoded;
    if events != [] {
      ObeySaysNothing(ObeyOne(o, events[0]), events[1..]);
      MessagesAppend(ObeyOneLog(o, events[0]), ObeyLog(ObeyOne(o, events[0]), events[1..]));
    }
  }

  lemma {:induction false} SaidIsLogged(s: Session, ops: seq<Op>)
    ensures Messages(Log(s, ops)) == Said(s, ops)
    decreases |ops|
  {
    hide Step, ObeyLog;
    if ops != [] {
      var next := Step(s, ops[0]);
      SaidIsLogged(next, ops[1..]);
      MessagesAppend(StepLog(s, ops[0]), Log(next, ops[1..]));
      ObeySaysNothing(s.out, Receive(s.inbox).1);
      var log := StepLog(s, ops[0]);
      assert log != [] ==> log[1..] == [] || ops[0].Dispatch?;
    }
  }

  /**
   One client sends, masked or not, in any run at all; another takes exactly the bytes the first
   appended, in any run of its own. The second calls back with exactly the messages the first
   sent while open, in order and unchanged, and keeps no byte back.
   */
  lemma EndToEnd(useMask: bool, ops: seq<Op>, useMask': bool, ops': seq<Op>)
    requires Heard(Start(useMask'), ops') == Stream(Run(Start(useMask), ops).out)
    ensures var end := Step(Run(Start(useMask'), ops'), Dispatch);
      end.inbox == EMPTY && end.calls == Said(Start(useMask), ops)
  {
    hide Run, Log, Step, Receive, Meaning, Calls, Messages, WireFrames, Heard, Said;
    var frames := Log(Start(useMask), ops);
    SaidIsLogged(Start(useMask), ops);
    BytesConserved(Start(useMask), ops);
    assert [] + [] + WireFrames(frames) == WireFrames(frames);
    ReadingIsOneDispatch(Start(useMask'), ops');
    ReceiveFrames(frames, [], []);
    assert WireFrames(frames) + [] == [] + WireFrames(frames);
    LogFinal(Start(useMask), ops);
    MeaningOfDisciplined(frames);
    ReceiveEmpty();
    assert Meaning([], frames).1 + [] == Meaning([], frames).1;
    assert [] + Calls(Meaning([], frames).1) == Calls(Meaning([], frames).1);
  }

  /** At any moment before that, the second client has called back with a prefix of those messages. */
  lemma NothingOutOfOrder(useMask: bool, ops: seq<Op>, useMask': bool, ops': seq<Op>)
    requires Heard(Start(useMask'), ops') <= Stream(Run(Start(useMask), ops).out)
    ensures Step(Run(Start(useMask'), ops'), Dispatch).calls <= Said(Start(useMask), ops)
  {
    hide Run, Log, Step, Receive, Meaning, Calls, Messages, WireFrames, Heard, Said;
    var frames := Log(Start(useMask), ops);
    SaidIsLogged(Start(useMask), ops);
    var heard := Heard(Start(useMask'), ops');
    BytesConserved(Start(useMask), ops);
    assert [] + [] + WireFrames(frames) == WireFrames(frames);
    var coming := WireFrames(frames)[|heard|..];
    assert heard + coming == WireFrames(frames);
    ReadingIsOneDispatch(Start(useMask'), ops');
    assert [] + heard == heard;
    ReceiveMore(Inbox(heard, [], false), coming);
    CallsAppend(Receive(Inbox(heard, [], false)).1, Receive(More(Receive(Inbox(heard, [], false)).0, coming)).1);
    ReceiveFrames(frames, [], []);
    assert WireFrames(frames) + [] == WireFrames(frames);
    LogFinal(Start(useMask), ops);
    MeaningOfDisciplined(frames);
    ReceiveEmpty();
    assert Meaning([], frames).1 + [] == Meaning([], frames).1;
    assert [] + Calls(Receive(Inbox(heard, [], false)).1) == Calls(Receive(Inbox(heard, [], false)).1);
  }

  lemma ReceiveEmpty()
    ensures Receive(EMPTY) == (EMPTY, [])
  {
  }

  lemma NextFrameCases(buf: seq<byte>)
    ensures var p := ParseHeader(buf);
      && (p.Short? ==> NextFrame(buf) == Need)
      && (p.BadLength? ==> NextFrame(buf) == Bad)
      && (p.Parsed? ==> (NextFrame(buf).Got? <==> |buf| >= p.length + p.size))
      && (p.Parsed? ==> (NextFrame(buf).Need? <==> |buf| < p.length + p.size))
  {
    hide ParseHeader;
  }

  lemma {:induction false} ObeyAppend(o: Outbox, a: seq<Event>, b: seq<Event>)
    ensures Obey(o, a + b) == Obey(Obey(o, a), b)
    decreases |a|
  {
    hide ObeyOne;
    if a == [] {
      assert a + b == b;
    } else {
      assert (a + b)[0] == a[0] && (a + b)[1..] == a[1..] + b;
      ObeyAppend(ObeyOne(o, a[0]), a[1..], b);
    }
  }

  lemma OneEvent(o: Outbox, e: Event)
    ensures Obey(o, [e]) == ObeyOne(o, e)
    ensures Calls([e]) == if e.Call? then [e.message] else []
  {
    assert [e][1..] == [];
  }

  // ---- The class ----

  /** The switch of sendData over the three forms of the size. */
  method BuildHeader(opcode: SendType, size: Size, useMask: bool) returns (header: seq<byte>)
    ensures header == EasyHeader(opcode, size, useMask, KEY)
  {
    hide Or, ByteOf;
    header := Zeros(2 + (if size >= 126 then 2 else 0) + (if size >= 65536 then 6 else 0) + (if useMask then 4 else 0));
    var mask: byte := if useMask then 0x80 else 0;
    header := header[0 := Or(0x80, opcode)];
    var at := 2;
    if size < 126 {
      header := header[1 := Or(size % 256, mask)];
    } else if size < 65536 {
      header := header[1 := Or(126, mask)][2 := ByteOf(size, 1)][3 := ByteOf(size, 0)];
      at := 4;
    } else {
      header := header[1 := Or(127, mask)][2 := ByteOf(size, 7)][3 := ByteOf(size, 6)][4 := ByteOf(size, 5)];
      header := header[5 := ByteOf(size, 4)][6 := ByteOf(size, 3)][7 := ByteOf(size, 2)];
      header := header[8 := ByteOf(size, 1)][9 := ByteOf(size, 0)];
      at := 10;
    }
    if useMask {
      header := header[at := KEY[0]][at + 1 := KEY[1]][at + 2 := KEY[2]][at + 3 := KEY[3]];
    }
  }

  /** The masking loop of both directions, over n bytes from the index from on. */
  method MaskInPlace(buf: seq<byte>, from: nat, n: nat, key: Key) returns (out: seq<byte>)
    requires from + n <= |buf|
    ensures out == buf[..from] + Masked(buf[from..from + n], key, 0) + buf[from + n..]
  {
    out := buf;
    var i := 0;
    while i != n
      invariant 0 <= i <= n && |out| == |buf|
      invariant forall j :: 0 <= j < |buf| ==>
        out[j] == if from <= j < from + i then Xor(buf[j], Cyclic(key, j - from)) else buf[j]
    {
      CyclicIsMod(key, i);
      out := out[from + i := Xor(out[from + i], key[i % 4])];
      i := i + 1;
    }
  }

  class WebSocket {
    var rxbuf: seq<byte>
    var txbuf: seq<byte>
    var receivedData: seq<byte>
    var readyState: ReadyState
    const useMask: bool
    var isRxBad: bool
    var wire: seq<byte>          // what the socket has accepted
    var calls: seq<seq<byte>>    // what the callback has been called with

    ghost function In(): Inbox
      reads this
    {
      Inbox(rxbuf, receivedData, isRxBad)
    }

    ghost function Out(): Outbox
      reads this
    {
      Outbox(txbuf, readyState, useMask, wire)
    }

    ghost function Value(): Session
      reads this
    {
      Session(In(), Out(), calls)
    }

    constructor (useMask: bool)
      ensures Value() == Start(useMask)
    {
      rxbuf, txbuf, receivedData, readyState := [], [], [], OPEN;
      this.useMask := useMask;
      isRxBad, wire, calls := false, [], [];
    }

    method SendData(opcode: SendType, message: Payload)
      modifies this`txbuf
      ensures Value() == Step(old(Value()), Send(opcode, message))
      ensures var f := Frame(true, false, false, false, opcode, if useMask then Some(KEY) else None, message);
        readyState == OPEN ==> txbuf == old(txbuf) + WireFrame(f)
      ensures readyState != OPEN ==> txbuf == old(txbuf)
    {
      hide Encoded, WireFrame;
      EncodedIsFrame(opcode, message, useMask);
      if readyState == CLOSING || readyState == CLOSED {
        return;
      }
      AppendFrame(opcode, message);
    }

    /** The header, the message, and the mask over the message where it lies in txbuf. */
    method AppendFrame(opcode: SendType, message: Payload)
      modifies this`txbuf
      ensures txbuf == old(txbuf) + Encoded(opcode, message, useMask)
    {
      hide EasyHeader;
      var header := BuildHeader(opcode, |message|, useMask);
      txbuf := txbuf + header;
      txbuf := txbuf + message;
      if useMask {
        txbuf := MaskInPlace(txbuf, |txbuf| - |message|, |message|, KEY);
      }
      assert txbuf == old(txbuf) + (header + if useMask then Masked(message, KEY, 0) else message);
    }

    method Close()
      modifies this`txbuf, this`readyState
      ensures Value() == Step(old(Value()), CloseCall)
      ensures old(readyState) == OPEN ==>
          readyState == CLOSING && txbuf == old(txbuf) + [0x88, 0x80, 0x00, 0x00, 0x00, 0x00]
      ensures old(readyState) != OPEN ==> readyState == old(readyState) && txbuf == old(txbuf)
    {
      if readyState == CLOSING || readyState == CLOSED {
        return;
      }
      readyState := CLOSING;
      txbuf := txbuf + [0x88, 0x80, 0x00, 0x00, 0x00, 0x00];
    }

    /** Unmask the payload where it lies, and copy it out. */
    method TakePayload(p: Parsed) returns (payload: Payload)
      requires p == ParseHeader(rxbuf) && p.Parsed? && |rxbuf| >= p.length + p.size
      modifies this`rxbuf
      ensures payload == NextFrame(old(rxbuf)).payload
      ensures |rxbuf| == |old(rxbuf)| && rxbuf[p.length + p.size..] == old(rxbuf)[p.length + p.size..]
    {
      hide ParseHeader;
      var end := p.length + p.size;
      if p.masked {
        rxbuf := MaskInPlace(rxbuf, p.length, p.size, p.key);
      }
      payload := rxbuf[p.length..end];
    }

    /** What a frame makes the client do, and what is left in receivedData. */
    method Handle(p: Parsed, ghost n: Next)
      requires !isRxBad && p == ParseHeader(rxbuf) && p.Parsed? && |rxbuf| >= p.length + p.size
      requires n == NextFrame(rxbuf)
      modifies this
      ensures var r := React(old(receivedData), n.fin, n.opcode, n.payload);
        && receivedData == r.0 && Out() == Obey(old(Out()), r.1) && calls == old(calls) + Calls(r.1)
      ensures |rxbuf| == |old(rxbuf)| && rxbuf[p.length + p.size..] == old(rxbuf)[p.length + p.size..]
      ensures isRxBad == old(isRxBad)
    {
      hide ParseHeader, EasyHeader;
      assert calls + [] == calls;
      if p.opcode == 1 || p.opcode == 2 || p.opcode == 0 {
        var payload := TakePayload(p);
        receivedData := receivedData + payload;
        if p.fin {
          OneEvent(Out(), Call(receivedData));
          calls := calls + [receivedData];
          receivedData := [];
        }
      } else if p.opcode == 9 {
        var data := TakePayload(p);
        OneEvent(Out(), Pong(data));
        SendData(10, data);
      } else if p.opcode == 10 {
      } else {
        OneEvent(Out(), Quit);
        Close();
      }
    }

    /** One complete frame at the front of rxbuf. */
    method HandleFrame(p: Parsed)
      requires !isRxBad && p == ParseHeader(rxbuf) && p.Parsed? && |rxbuf| >= p.length + p.size
      modifies this
      ensures var n := NextFrame(old(rxbuf));
        var r := React(old(receivedData), n.fin, n.opcode, n.payload);
        && In() == Inbox(old(rxbuf)[n.total..], r.0, false)
        && Out() == Obey(old(Out()), r.1)
        && calls == old(calls) + Calls(r.1)
      ensures |rxbuf| < |old(rxbuf)|
    {
      hide ParseHeader, React, Obey, Calls;
      ghost var n := NextFrame(rxbuf);
      Handle(p, n);
      rxbuf := rxbuf[p.length + p.size..];
    }

    method DispatchBinary()
      modifies this
      ensures Value() == Step(old(Value()), Dispatch)
    {
      hide NextFrame, React, ParseHeader;
      if isRxBad {
        return;
      }
      ghost var start := Value();
      ghost var done: seq<Event> := [];
      while true
        invariant !isRxBad
        invariant Receive(In()).0 == Receive(start.inbox).0
        invariant done + Receive(In()).1 == Receive(start.inbox).1
        invariant Out() == Obey(start.out, done)
        invariant calls == start.calls + Calls(done)
        decreases |rxbuf|
      {
        var p := ParseHeader(rxbuf);
        NextFrameCases(rxbuf);
        if p.Short? {
          assert done + [] == done;
          return;
        }
        if p.BadLength? {
          isRxBad := true;
          Close();
          ObeyAppend(start.out, done, [Quit]);
          CallsAppend(done, [Quit]);
          assert Calls([Quit]) == [];
          assert calls + [] == calls;
          return;
        }
        if |rxbuf| < p.length + p.size {
          assert done + [] == done;
          return;
        }
        ReceiveOne(In());
        ghost var n := NextFrame(rxbuf);
        ghost var r := React(receivedData, n.fin, n.opcode, n.payload);
        HandleFrame(p);
        ObeyAppend(start.out, done, r.1);
        CallsAppend(done, r.1);
        Associate(start.calls, Calls(done), Calls(r.1));
        Associate(done, r.1, Receive(In()).1);
        done := done + r.1;
      }
    }

    /** recv and send return what the scripts say, and block when a script is at its end. */
    method Poll(recvs: seq<Received>, sends: seq<Accepted>)
      modifies this
      ensures Value() == Step(old(Value()), Op.Poll(recvs, sends))
      ensures old(readyState) == CLOSED ==> Value() == old(Value())
      ensures old(readyState) != CLOSED ==>
          var n := Moved(|old(txbuf)|, sends);
          && txbuf == old(txbuf)[n..] && wire == old(wire) + old(txbuf)[..n]
          && rxbuf == old(rxbuf) + Brought(recvs)
      ensures readyState == CLOSED <==>
          || old(readyState) == CLOSED || ReadsEndIt(recvs) || WritesEndIt(|old(txbuf)|, sends)
          || (old(readyState) == CLOSING && txbuf == [])
      ensures readyState == old(readyState) || readyState == CLOSED
    {
      hide Reads, Writes, Total, Moved, Brought, ReadsEndIt, WritesEndIt, Taken, Hangup, Transmit;
      TakenExactly(recvs);
      if readyState == CLOSED {
        assert rxbuf + [] == rxbuf;
        return;
      }
      PollRecv(recvs);
      PollSend(sends);
      if |txbuf| == 0 && readyState == CLOSING {
        readyState := CLOSED;
      }
    }

    method PollRecv(recvs: seq<Received>)
      modifies this`rxbuf, this`readyState
      ensures rxbuf == old(rxbuf) + Taken(recvs) == old(rxbuf) + Brought(recvs)
      ensures readyState == if Hangup(recvs) then CLOSED else old(readyState)
      ensures Hangup(recvs) <==> ReadsEndIt(recvs)
    {
      TakenExactly(recvs);
      hide Reads, Brought, ReadsEndIt;
      var k := 0;
      assert rxbuf + Taken(recvs[0..]) == old(rxbuf) + Taken(recvs);
      while k < |recvs|
        invariant 0 <= k <= |recvs|
        invariant rxbuf + Taken(recvs[k..]) == old(rxbuf) + Taken(recvs)
        invariant Hangup(recvs[k..]) == Hangup(recvs)
        invariant readyState == old(readyState)
      {
        assert recvs[k..][0] == recvs[k] && recvs[k..][1..] == recvs[k + 1..];
        match recvs[k]
        case RecvBlocked =>
          assert rxbuf + [] == rxbuf;
          return;
        case RecvFailed =>
          assert rxbuf + [] == rxbuf;
          readyState := CLOSED;
          return;
        case Data(bytes) =>
          if bytes == [] {
            assert rxbuf + [] == rxbuf;
            readyState := CLOSED;
            return;
          }
          Associate(rxbuf, bytes, Taken(recvs[k + 1..]));
          rxbuf := rxbuf + bytes;
          k := k + 1;
      }
      assert rxbuf + [] == rxbuf;
    }

    method PollSend(sends: seq<Accepted>)
      modifies this`txbuf, this`readyState, this`wire
      ensures Out() == Transmit(old(Out()), sends)
      ensures var n := Moved(|old(txbuf)|, sends); txbuf == old(txbuf)[n..] && wire == old(wire) + old(txbuf)[..n]
      ensures readyState == if WritesEndIt(|old(txbuf)|, sends) then CLOSED else old(readyState)
    {
      TransmitExactly(Out(), sends);
      BreaksExactly(Out(), sends);
      TransmitReady(Out(), sends);
      hide Breaks, Moved, WritesEndIt;
      var k := 0;
      assert sends[0..] == sends;
      while |txbuf| > 0 && k < |sends|
        invariant 0 <= k <= |sends|
        invariant Transmit(Out(), sends[k..]) == Transmit(old(Out()), sends)
        decreases |sends| - k
      {
        assert sends[k..][0] == sends[k] && sends[k..][1..] == sends[k + 1..];
        match sends[k]
        case SendBlocked => return;
        case SendFailed =>
          readyState := CLOSED;
          return;
        case Took(n) =>
          if n == 0 {
            readyState := CLOSED;
            return;
          }
          var ret := if n < |txbuf| then n else |txbuf|;
          wire := wire + txbuf[..ret];
          txbuf := txbuf[ret..];
          k := k + 1;
      }
    }
  }
}
