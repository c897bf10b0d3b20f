/**
 The fields of a websocketpp connection that its write pipeline and its lifecycle run on, and
 what each handler does to them between two points at which another thread can step in.
 */
module Connection {
  import opened Bytes

  datatype Kind = Data | Ping | Pong | Close

  /** A prepared message. A terminal one ends the connection once it is written. */
  datatype Message = Message(kind: Kind, header: seq<byte>, payload: seq<byte>, terminal: bool)

  datatype Session = Connecting | Open | Closing | Closed {
    function Rank(): nat {
      match this case Connecting => 0 case Open => 1 case Closing => 2 case Closed => 3
    }
  }

  datatype Internal =
    | UserInit | TransportInit | ReadHttpRequest | WriteHttpRequest
    | ReadHttpResponse | ProcessHttpRequest | ProcessConnection

  /** The error codes the handlers tell apart. HttpEnded is error::http_connection_ended. */
  datatype Error = NoError | Eof | InvalidState | HttpEnded | OtherError

  /** What terminate asks the transport for: nothing, or a shutdown that ends in one of two ways. */
  datatype Shutdown = NoShutdown | AsFailed | AsClosed

  /** The fields the write pipeline runs on. */
  datatype Pipe = Pipe(writeFlag: bool, queue: seq<Message>, current: seq<Message>, buffered: nat)

  /** The fields the lifecycle runs on. */
  datatype Life = Life(isServer: bool, session: Session, internal: Internal, wasClean: bool, lastError: Error)

  function Sizes(q: seq<Message>): nat {
    if q == [] then 0 else |q[0].payload| + Sizes(q[1..])
  }

  lemma {:induction false} SizesConcat(a: seq<Message>, b: seq<Message>)
    ensures Sizes(a + b) == Sizes(a) + Sizes(b)
  {
    if a == [] {
      assert a + b == b;
    } else {
      assert (a + b)[1..] == a[1..] + b;
      SizesConcat(a[1..], b);
    }
  }

  /** m_send_buffer_size counts payload bytes, and no header bytes. */
  lemma {:induction false} SizesExactly(q: seq<Message>)
    ensures Sizes(q) == |Flatten(seq(|q|, i requires 0 <= i < |q| => q[i].payload))|
  {
    if q != [] {
      SizesExactly(q[1..]);
      var payloads := seq(|q|, i requires 0 <= i < |q| => q[i].payload);
      var rest := q[1..];
      assert payloads[1..] == seq(|rest|, i requires 0 <= i < |rest| => rest[i].payload);
    }
  }

  /** The buffers of a gather write: header and payload of every message, in order. */
  function Buffers(msgs: seq<Message>): seq<seq<byte>> {
    if msgs == [] then [] else Buffers(msgs[..|msgs| - 1]) + [msgs[|msgs| - 1].header, msgs[|msgs| - 1].payload]
  }

  /** Buffer 2 * i is the header of message i and buffer 2 * i + 1 its payload, and there are no more. */
  predicate HeaderThenPayload(buffers: seq<seq<byte>>, msgs: seq<Message>) {
    && |buffers| == 2 * |msgs|
    && forall i :: 0 <= i < |msgs| ==> buffers[2 * i] == msgs[i].header && buffers[2 * i + 1] == msgs[i].payload
  }

  lemma {:induction false} BuffersExactly(msgs: seq<Message>)
    ensures HeaderThenPayload(Buffers(msgs), msgs)
  {
    if msgs != [] {
      BuffersExactly(msgs[..|msgs| - 1]);
    }
  }

  /** The bytes of messages on the wire, message after message, each header before its payload. */
  function Spelled(msgs: seq<Message>): seq<byte> {
    if msgs == [] then [] else msgs[0].header + msgs[0].payload + Spelled(msgs[1..])
  }

  lemma {:induction false} SpelledAppend(a: seq<Message>, b: seq<Message>)
    ensures Spelled(a + b) == Spelled(a) + Spelled(b)
  {
    if a == [] {
      assert a + b == b;
    } else {
      assert (a + b)[1..] == a[1..] + b;
      SpelledAppend(a[1..], b);
      Associate(a[0].header + a[0].payload, Spelled(a[1..]), Spelled(b));
    }
  }

  lemma FlattenTwo(a: seq<byte>, b: seq<byte>)
    ensures Flatten([a, b]) == a + b
  {
    assert [a, b][1..] == [b] && [b][1..] == [];
    assert Flatten([b]) == b + [] == b;
  }

  /** A gather write gives the transport the headers and payloads of its messages, and nothing else. */
  lemma {:induction false} FlattenBuffers(msgs: seq<Message>)
    ensures Flatten(Buffers(msgs)) == Spelled(msgs)
  {
    if msgs != [] {
      var n := |msgs| - 1;
      var last := msgs[n];
      FlattenBuffers(msgs[..n]);
      FlattenAppend(Buffers(msgs[..n]), [last.header, last.payload]);
      FlattenTwo(last.header, last.payload);
      assert msgs == msgs[..n] + [last] && [last][1..] == [];
      SpelledAppend(msgs[..n], [last]);
      assert Spelled([last]) == last.header + last.payload + [];
    }
  }

  // ---- The write pipeline ----

  /** write_push. */
  function Push(p: Pipe, m: Message): Pipe {
    p.(queue := p.queue + [m], buffered := p.buffered + |m.payload|)
  }

  /** How many messages one write takes off the queue: up to and including the first terminal one. */
  function BatchLength(q: seq<Message>): (n: nat)
    ensures n <= |q| && (q != [] ==> n > 0)
    ensures forall i :: 0 <= i < n - 1 ==> !q[i].terminal
    ensures n < |q| ==> n > 0 && q[n - 1].terminal
  {
    if q == [] then 0
    else if q[0].terminal then 1
    else 1 + BatchLength(q[1..])
  }

  /** The part of write_frame under the write lock. */
  function Take(p: Pipe): Pipe {
    if p.writeFlag then p
    else
      var n := BatchLength(p.queue);
      var taken := p.current + p.queue[..n];
      Pipe(taken != [], p.queue[n..], taken, Sizes(p.queue[n..]))
  }

  /** handle_write_frame: is the completed write the last one this connection makes? */
  predicate Final(p: Pipe, failed: bool)
    requires p.current != []
  {
    failed || p.current[|p.current| - 1].terminal
  }

  // ---- The lifecycle ----

  /** terminate. */
  function Terminate(l: Life, e: Error): Life {
    l.(lastError := if e == NoError then l.lastError else e, session := Closed)
  }

  function TerminateShutdown(l: Life): Shutdown {
    match l.session
    case Connecting => AsFailed
    case Open => AsClosed
    case Closing => AsClosed
    case Closed => NoShutdown
  }

  /** send_close_frame once the close frame is prepared, up to the push. */
  function MarkClosing(l: Life, ack: bool): Life {
    l.(session := Closing, wasClean := l.wasClean || ack)
  }

  /** The state check that opens handle_write_http_response and handle_read_http_response. */
  function HandshakeError(l: Life, e: Error, expected: Internal): Error {
    if e != NoError then e
    else if l.session == Connecting then (if l.internal != expected then InvalidState else NoError)
    else InvalidState
  }

  /** Such a handler gives up quietly on a connection that is already closed. */
  predicate HandshakeIgnored(l: Life, e: Error) {
    l.session == Closed && (e == NoError || e == Eof)
  }

  function OpenSession(l: Life): Life {
    l.(internal := ProcessConnection, session := Open)
  }

  /** How handle_write_http_response and handle_read_http_response can leave the handshake. */
  datatype Handshake =
    | Ignored
    | Terminated(e: Error)
    | ReadMore
    | Opened
    | FallsThrough     // terminate, and then on to Opened all the same

  /** handle_write_http_response; upgrade: the status is 101, outcome: m_ec when it is not. */
  function ResponseWritten(l: Life, e: Error, upgrade: bool, outcome: Error): Handshake {
    if HandshakeIgnored(l, e) then Ignored
    else
      var ecm := HandshakeError(l, e, ProcessHttpRequest);
      if ecm != NoError then Terminated(ecm)
      else if !upgrade then Terminated(outcome)
      else Opened
  }

  /** What consuming and validating the response came to in handle_read_http_response. */
  datatype Response = Malformed | Incomplete | Rejected | NegotiationFailed | Accepted

  /** handle_read_http_response. */
  function ResponseRead(l: Life, e: Error, r: Response): Handshake {
    if HandshakeIgnored(l, e) then Ignored
    else
      var ecm := HandshakeError(l, e, ReadHttpResponse);
      if ecm != NoError then Terminated(ecm)
      else match r
        case Malformed => Terminated(OtherError)
        case Incomplete => ReadMore
        case Rejected => Terminated(OtherError)
        case NegotiationFailed => FallsThrough
        case Accepted => Opened
  }

  /** The error path of handle_read_frame: what it terminates with, if it does. */
  datatype ReadStart = ReadOn | Drop | EndWith(e: Error)

  function FrameRead(l: Life, e: Error): ReadStart {
    var ecm := if e == NoError && l.internal != ProcessConnection then InvalidState else e;
    if ecm == NoError then ReadOn
    else if ecm == Eof && l.session == Closed then Drop
    else if ecm == Eof && l.session == Closing && !l.isServer then EndWith(NoError)
    else if ecm == InvalidState && l.session == Closed then Drop
    else EndWith(ecm)
  }

  /** What a received close frame leads to in process_control_frame. */
  datatype CloseAction = Nothing | Acknowledge | NoteAck | EndConnection(e: Error)

  /** malformed: the close code or reason is invalid; drop: config::drop_on_protocol_error. */
  function CloseReceived(l: Life, malformed: bool, drop: bool): CloseAction {
    if l.session == Closed then Nothing
    else if malformed then (if drop then EndConnection(OtherError) else Acknowledge)
    else if l.session == Open then Acknowledge
    else if l.session == Closing && !l.wasClean then (if l.isServer then EndConnection(NoError) else NoteAck)
    else Nothing
  }

  /** m_was_clean is set before the terminate that a server answers an acknowledgement with. */
  function NoteClean(l: Life, malformed: bool): Life {
    if !malformed && l.session == Closing then l.(wasClean := true) else l
  }
}
