/**
 The framing of draft-ietf-hybi-thewebsocketprotocol-00, sections 4.2 and 5.3: 0x00, text, 0xFF.
 It is unambiguous because the text is valid UTF-8, and that never contains 0xFF.
 */
module Hybi00 {
  import opened Bytes
  import opened Utf8

  // ---- The byte stream, one byte at a time ----

  /** What the receiver knows between two bytes: before a frame, inside one, or past a broken one. */
  datatype Receiver = Header | Payload(text: seq<byte>) | Fatal

  /** The receiver after one more byte, and the message the byte completes, if it does. */
  function Next(r: Receiver, b: byte): (Receiver, seq<seq<byte>>) {
    match r
    case Header => (if b == 0x00 then Payload([]) else Fatal, [])
    case Payload(text) => if b == 0xFF then (Header, [text]) else (Payload(text + [b]), [])
    case Fatal => (Fatal, [])
  }

  function Feed(r: Receiver, s: seq<byte>): (Receiver, seq<seq<byte>>)
    decreases |s|
  {
    if s == [] then (r, [])
    else
      var (r1, first) := Next(r, s[0]);
      var (r2, rest) := Feed(r1, s[1..]);
      (r2, first + rest)
  }

  /** The stream cut into reads. */
  function FeedAll(r: Receiver, cuts: seq<seq<byte>>): (Receiver, seq<seq<byte>>)
    decreases |cuts|
  {
    if cuts == [] then (r, [])
    else
      var (r1, first) := Feed(r, cuts[0]);
      var (r2, rest) := FeedAll(r1, cuts[1..]);
      (r2, first + rest)
  }

  lemma {:induction false} FeedConcat(r: Receiver, a: seq<byte>, b: seq<byte>)
    ensures Feed(r, a + b).0 == Feed(Feed(r, a).0, b).0
    ensures Feed(r, a + b).1 == Feed(r, a).1 + Feed(Feed(r, a).0, b).1
    decreases |a|
  {
    if a == [] {
      assert a + b == b;
    } else {
      assert (a + b)[1..] == a[1..] + b;
      var (r1, first) := Next(r, a[0]);
      FeedConcat(r1, a[1..], b);
      assert first + Feed(r1, a[1..] + b).1 == first + Feed(r1, a[1..]).1 + Feed(Feed(r1, a[1..]).0, b).1;
    }
  }

  /** What is delivered, and the state left behind, do not depend on how the stream is cut, whatever its bytes. */
  lemma {:induction false} CutsDoNotMatter(r: Receiver, cuts: seq<seq<byte>>)
    ensures FeedAll(r, cuts) == Feed(r, Flatten(cuts))
    decreases |cuts|
  {
    if cuts != [] {
      FeedConcat(r, cuts[0], Flatten(cuts[1..]));
      CutsDoNotMatter(Feed(r, cuts[0]).0, cuts[1..]);
    }
  }

  lemma FeedOne(r: Receiver, b: byte)
    ensures Feed(r, [b]).0 == Next(r, b).0
    ensures Feed(r, [b]).1 == Next(r, b).1
  {
    assert [b][1..] == [];
    assert Feed(r, [b]).1 == Next(r, b).1 + [];
  }

  lemma {:induction false} FatalAbsorbs(s: seq<byte>)
    ensures Feed(Fatal, s) == (Fatal, [])
  {
    if s != [] {
      FatalAbsorbs(s[1..]);
      assert Feed(Fatal, s).1 == [] + [];
    }
  }

  lemma {:induction false} FeedText(text: seq<byte>, s: seq<byte>)
    requires 0xFF !in s
    ensures Feed(Payload(text), s) == (Payload(text + s), [])
    decreases |s|
  {
    if s == [] {
      assert text + s == text;
    } else {
      FeedText(text + [s[0]], s[1..]);
      assert Feed(Payload(text), s).1 == [] + [];
      assert text + [s[0]] + s[1..] == text + s;
    }
  }

  // ---- The processor ----

  datatype State = HEADER | PAYLOAD | READY | FATAL_ERROR

  /** The messages that find the session open, where isOpen(i) says so of the i-th: the others are dropped. */
  function Dispatched(msgs: seq<seq<byte>>, isOpen: nat -> bool): seq<seq<byte>> {
    if msgs == [] then []
    else
      var n := |msgs| - 1;
      Dispatched(msgs[..n], isOpen) + if isOpen(n) then [msgs[n]] else []
  }

  /** A session that stays open for k messages lets exactly the first k through. */
  lemma {:induction false} OpenForPrefix(msgs: seq<seq<byte>>, isOpen: nat -> bool, k: nat)
    requires forall i: nat :: i < |msgs| ==> (isOpen(i) <==> i < k)
    ensures Dispatched(msgs, isOpen) == msgs[..if k < |msgs| then k else |msgs|]
  {
    if msgs != [] {
      var n := |msgs| - 1;
      OpenForPrefix(msgs[..n], isOpen, k);
      assert msgs[..n] + [msgs[n]] == msgs;
    }
  }

  function ReceiverIn(state: State, msg: seq<byte>): Receiver {
    if state == HEADER then Header else if state == PAYLOAD then Payload(msg) else Fatal
  }

  /** What consume does to the bytes themselves, from what it makes of the byte-by-byte receiver. */
  lemma ConsumedExactly(was: State, before: seq<byte>, buf: seq<byte>, p: nat, violation: bool,
                        state: State, msg: seq<byte>)
    requires p <= |buf|
    requires was == READY || was == FATAL_ERROR || buf == [] ==> !violation && state == was
    requires was == HEADER || was == PAYLOAD ==> (violation <==> state == FATAL_ERROR)
    requires var r := ReceiverIn(was, before);
      && (violation ==> Feed(r, buf) == (Fatal, []))
      && (was != READY && state == READY ==> Feed(r, buf[..p]) == (Header, [msg]))
      && (state == HEADER || state == PAYLOAD ==> Feed(r, buf).0 == ReceiverIn(state, msg))
    ensures violation <==> was == HEADER && buf != [] && buf[0] != 0x00
    ensures was == HEADER && state == READY ==> 0xFF !in msg && buf[..p] == [0x00] + msg + [0xFF]
    ensures was == PAYLOAD && state == READY ==>
        exists more :: 0xFF !in more && msg == before + more && buf[..p] == more + [0xFF]
  {
    hide Feed;
    if violation {
      NoMessage(ReceiverIn(was, before), buf);
    }
    if was == HEADER && buf != [] && buf[0] != 0x00 {
      FeedHeader(buf);
      FeedNothing(Header);
      if p > 0 {
        FeedHeader(buf[..p]);
      }
    }
    if state == READY && was == HEADER {
      OneFrame(buf[..p], msg);
    }
    if state == READY && was == PAYLOAD {
      OneMessage(before, buf[..p], msg);
    }
  }

  /** hybi00 together with the loop of handle_read_frame that drives it. */
  class Processor {
    const isOpen: nat -> bool         // whether the session is open when message i is dispatched
    var state: State
    var msg: seq<byte>                // the payload of the message being read
    var taken: seq<seq<byte>>         // what get_message has returned
    var delivered: seq<seq<byte>>     // what the message handler has been called with
    var reading: bool                 // handle_read_frame asks for another read

    ghost function Value(): Receiver
      reads this
    {
      ReceiverIn(state, msg)
    }

    ghost predicate Valid()
      reads this
    {
      state != READY && (reading <==> state != FATAL_ERROR) && delivered == Dispatched(taken, isOpen)
    }

    constructor (isOpen: nat -> bool)
      ensures Valid() && Value() == Header && taken == [] && reading && this.isOpen == isOpen
    {
      this.isOpen := isOpen;
      state, msg, taken, delivered, reading := HEADER, [], [], [], true;
    }

    /** std::find for the end of the frame. */
    method FindFooter(buf: seq<byte>, p: nat) returns (it: nat)
      requires p <= |buf|
      ensures p <= it <= |buf| && 0xFF !in buf[p..it] && (it < |buf| ==> buf[it] == 0xFF)
    {
      it := p;
      while it < |buf| && buf[it] != 0xFF
        invariant p <= it <= |buf| && 0xFF !in buf[p..it]
      {
        assert buf[p..it + 1] == buf[p..it] + [buf[it]];
        it := it + 1;
      }
    }

    /**
     consume: returns how many bytes it took and whether it met a protocol violation. With a
     message ready, or past a violation, or given nothing, it takes nothing and changes nothing.
     */
    method Consume(buf: seq<byte>) returns (p: nat, violation: bool)
      modifies this`state, this`msg
      ensures p <= |buf|
      ensures old(state) == READY || old(state) == FATAL_ERROR || buf == [] ==>
          p == 0 && !violation && state == old(state) && msg == old(msg)
      ensures old(state) == HEADER || old(state) == PAYLOAD ==> (violation <==> state == FATAL_ERROR)
      ensures violation <==> old(state) == HEADER && buf != [] && buf[0] != 0x00
      ensures old(state) == HEADER && state == READY ==>
          0xFF !in msg && buf[..p] == [0x00] + msg + [0xFF]
      ensures old(state) == PAYLOAD && state == READY ==>
          exists more :: 0xFF !in more && msg == old(msg) + more && buf[..p] == more + [0xFF]
      ensures violation ==> Feed(old(Value()), buf).0 == Fatal && Feed(old(Value()), buf).1 == []
      ensures old(state) != READY && state == READY ==>
          p > 0 && Feed(old(Value()), buf[..p]).0 == Header && Feed(old(Value()), buf[..p]).1 == [msg]
      ensures state == HEADER || state == PAYLOAD ==>
          p == |buf| && Feed(old(Value()), buf).0 == Value() && Feed(old(Value()), buf).1 == []
    {
      p, violation := 0, false;
      ghost var start := Value();
      assert buf[..0] == [];
      while p < |buf|
        invariant p <= |buf|
        invariant old(state) == READY || old(state) == FATAL_ERROR || buf == [] ==>
            p == 0 && !violation && state == old(state) && msg == old(msg)
        invariant old(state) == HEADER || old(state) == PAYLOAD ==> (violation <==> state == FATAL_ERROR)
        invariant violation ==> Feed(start, buf).0 == Fatal && Feed(start, buf).1 == []
        invariant old(state) != READY && state == READY ==>
            p > 0 && Feed(start, buf[..p]).0 == Header && Feed(start, buf[..p]).1 == [msg]
        invariant state == HEADER || state == PAYLOAD ==>
            Feed(start, buf[..p]).0 == Value() && Feed(start, buf[..p]).1 == []
        invariant state == HEADER ==> p == 0
        decreases |buf| - p, if state == HEADER || state == PAYLOAD then 1 else 0
      {
        if state == HEADER {
          if buf[p] == 0x00 {
            assert buf[..1] == [buf[0]];
            FeedOne(start, buf[0]);
            p := p + 1;
            state, msg := PAYLOAD, [];
          } else {
            FatalAbsorbs(buf[1..]);
            assert Feed(start, buf).1 == [] + [];
            state, violation := FATAL_ERROR, true;
          }
        } else if state == PAYLOAD {
          var it := FindFooter(buf, p);
          FeedConcat(start, buf[..p], buf[p..it]);
          assert buf[..p] + buf[p..it] == buf[..it];
          FeedText(msg, buf[p..it]);
          msg := msg + buf[p..it];
          p := it;
          if it != |buf| {
            FeedConcat(start, buf[..it], [buf[it]]);
            FeedOne(Payload(msg), buf[it]);
            assert buf[..it] + [buf[it]] == buf[..it + 1];
            p := p + 1;
            state := READY;
          }
        } else {
          break;
        }
      }
      assert buf[..|buf|] == buf;
      ConsumedExactly(old(state), old(msg), buf, p, violation, state, msg);
    }

    /** One turn of the loop of handle_read_frame: consume, and dispatch a message that is ready. */
    method Turn(buf: seq<byte>) returns (n: nat)
      requires Valid() && reading && buf != []
      modifies this
      ensures Valid() && n <= |buf| && (reading ==> n > 0)
      ensures !reading ==>
          Feed(old(Value()), buf).0 == Value() && taken == old(taken) && Feed(old(Value()), buf).1 == []
      ensures reading ==>
          Feed(old(Value()), buf[..n]).0 == Value() && taken == old(taken) + Feed(old(Value()), buf[..n]).1
    {
      var violation;
      n, violation := Consume(buf);
      if violation {
        reading := false;
      } else if state == READY {
        if isOpen(|taken|) {
          delivered := delivered + [msg];
        }
        taken := taken + [msg];
        assert taken[..|taken| - 1] == old(taken);
        state, msg := HEADER, [];
      } else {
        assert buf[..n] == buf;
      }
    }

    /** handle_read_frame on a successful read, its control flow around the processor. */
    method Receive(buf: seq<byte>)
      requires Valid() && reading
      modifies this
      ensures Valid()
      ensures Value() == Feed(old(Value()), buf).0
      ensures taken == old(taken) + Feed(old(Value()), buf).1
      ensures delivered == Dispatched(taken, isOpen)
    {
      var p := 0;
      ghost var start := Value();
      while p < |buf| && reading
        invariant p <= |buf| && Valid()
        invariant reading ==>
            Feed(start, buf[..p]).0 == Value() && taken == old(taken) + Feed(start, buf[..p]).1
        invariant !reading ==>
            Feed(start, buf).0 == Value() && taken == old(taken) + Feed(start, buf).1
        decreases |buf| - p, reading
      {
        ghost var here := Value();
        ghost var was := taken;
        var n := Turn(buf[p..]);
        if reading {
          Advance(start, here, buf, p, p + n, old(taken), was, taken);
        } else {
          assert buf[p..][..|buf| - p] == buf[p..];
          assert was + [] == was;
          Advance(start, here, buf, p, |buf|, old(taken), was, taken);
        }
        p := p + n;
      }
      assert buf[..|buf|] == buf;
    }
  }

  /** Feeding buf up to p and then up to q is feeding it up to q. */
  lemma Advance(start: Receiver, here: Receiver, buf: seq<byte>, p: nat, q: nat,
      d0: seq<seq<byte>>, d1: seq<seq<byte>>, d2: seq<seq<byte>>)
    requires p <= q <= |buf|
    requires Feed(start, buf[..p]).0 == here && d1 == d0 + Feed(start, buf[..p]).1
    requires d2 == d1 + Feed(here, buf[p..][..q - p]).1
    ensures Feed(start, buf[..q]).0 == Feed(here, buf[p..][..q - p]).0
    ensures d2 == d0 + Feed(start, buf[..q]).1
    ensures q == |buf| ==> buf[..q] == buf && buf[p..][..q - p] == buf[p..]
  {
    FeedConcat(start, buf[..p], buf[p..][..q - p]);
    assert buf[..p] + buf[p..][..q - p] == buf[..q];
  }

  // ---- Sending ----

  datatype Prepared = Prepared(header: seq<byte>, payload: seq<byte>) | InvalidOpcode | InvalidPayload

  /** prepare_data_frame: only text messages, only valid UTF-8, and the bytes that go out are the frame. */
  method PrepareDataFrame(opcode: nat, payload: seq<byte>) returns (out: Prepared)
    ensures out.InvalidOpcode? <==> opcode != 1
    ensures out.InvalidPayload? <==> opcode == 1 && !Octets(payload)
    ensures out.Prepared? ==> out.header + out.payload == Frame(payload)
  {
    if opcode != 1 {
      return InvalidOpcode;
    }
    var valid := Validate(payload);
    if !valid {
      return InvalidPayload;
    }
    out := Prepared([0x00], payload);
    out := out.(payload := out.payload + [0xFF]);
  }

  function Frame(payload: seq<byte>): seq<byte> {
    [0x00] + (payload + [0xFF])
  }

  function Wire(msgs: seq<seq<byte>>): seq<byte> {
    if msgs == [] then [] else Frame(msgs[0]) + Wire(msgs[1..])
  }

  lemma {:induction false} FlattenedCharsHaveNoFF(cs: seq<seq<byte>>)
    requires AllChars(cs)
    ensures 0xFF !in Flatten(cs)
  {
    if cs != [] {
      assert Char(cs[0]);
      FlattenedCharsHaveNoFF(cs[1..]);
    }
  }

  /** Why the framing works at all. */
  lemma TextHasNoFF(s: seq<byte>)
    requires Octets(s)
    ensures 0xFF !in s
  {
    var cs: seq<seq<byte>> :| AllChars(cs) && Flatten(cs) == s;
    FlattenedCharsHaveNoFF(cs);
  }

  lemma FeedFrame(payload: seq<byte>, more: seq<byte>)
    requires 0xFF !in payload
    ensures Feed(Header, Frame(payload) + more).0 == Feed(Header, more).0
    ensures Feed(Header, Frame(payload) + more).1 == [payload] + Feed(Header, more).1
  {
    var s := Frame(payload) + more;
    assert s[0] == 0x00 && s[1..] == payload + ([0xFF] + more);
    FeedConcat(Payload([]), payload, [0xFF] + more);
    FeedText([], payload);
    assert [] + payload == payload;
    assert ([0xFF] + more)[1..] == more;
  }

  /** A frame comes out as the payload it was made of exactly when the payload has no 0xFF. */
  lemma FramingExactly(payload: seq<byte>)
    ensures Feed(Header, Frame(payload)) == (Header, [payload]) <==> 0xFF !in payload
  {
    if 0xFF !in payload {
      FeedFrame(payload, []);
      assert Frame(payload) + [] == Frame(payload);
      assert [payload] + [] == [payload];
    } else {
      var n := FirstFF(payload);
      FeedFrame(payload[..n], payload[n + 1..] + [0xFF]);
      assert payload == payload[..n] + [0xFF] + payload[n + 1..];
      assert Frame(payload[..n]) + (payload[n + 1..] + [0xFF]) == Frame(payload);
      assert Feed(Header, Frame(payload)).1[0] == payload[..n] != payload;
    }
  }

  lemma FirstFF(s: seq<byte>) returns (n: nat)
    requires 0xFF in s
    ensures n < |s| && s[n] == 0xFF && 0xFF !in s[..n]
  {
    if s[0] == 0xFF {
      n := 0;
    } else {
      n := FirstFF(s[1..]);
      n := n + 1;
      assert s[..n] == [s[0]] + s[1..][..n - 1];
    }
  }

  /** Bytes after an open frame end in a message exactly at their first footer. */
  lemma FeedPayload(text: seq<byte>, s: seq<byte>)
    ensures 0xFF !in s ==> Feed(Payload(text), s) == (Payload(text + s), [])
    ensures 0xFF in s ==>
      exists n :: 0 <= n < |s| && s[n] == 0xFF && 0xFF !in s[..n]
        && Feed(Payload(text), s).0 == Feed(Header, s[n + 1..]).0
        && Feed(Payload(text), s).1 == [text + s[..n]] + Feed(Header, s[n + 1..]).1
  {
    if 0xFF !in s {
      FeedText(text, s);
    } else {
      var n := FirstFF(s);
      FeedText(text, s[..n]);
      FeedConcat(Payload(text), s[..n], s[n..]);
      assert s[..n] + s[n..] == s && s[n..][1..] == s[n + 1..];
      var none: seq<seq<byte>> := [];
      assert none + Feed(Payload(text + s[..n]), s[n..]).1 == Feed(Payload(text + s[..n]), s[n..]).1;
    }
  }

  /** Before a frame: the first byte decides, and any but 0x00 is fatal, whatever follows. */
  lemma FeedHeader(s: seq<byte>)
    requires s != []
    ensures s[0] != 0x00 ==> Feed(Header, s) == (Fatal, [])
    ensures s[0] == 0x00 ==> Feed(Header, s) == Feed(Payload([]), s[1..])
  {
    if s[0] != 0x00 {
      FatalAbsorbs(s[1..]);
    }
    var none: seq<seq<byte>>, rest := [], Feed(Next(Header, s[0]).0, s[1..]);
    assert Feed(Header, s) == (rest.0, none + rest.1) && none + rest.1 == rest.1;
  }

  /** No message and no open frame: nothing was read, or the first byte was wrong. */
  lemma NoMessage(r: Receiver, s: seq<byte>)
    requires r != Fatal && Feed(r, s).1 == [] && !Feed(r, s).0.Payload?
    ensures r == Header && (s == [] || s[0] != 0x00)
  {
    hide Feed;
    if r.Payload? {
      FeedNothing(r);
      FeedPayload(r.text, s);
    } else if s != [] {
      FeedHeader(s);
      FeedPayload([], s[1..]);
    }
  }

  /** One message and nothing after it: the bytes are the rest of one frame. */
  lemma OneMessage(text: seq<byte>, s: seq<byte>, m: seq<byte>)
    requires Feed(Payload(text), s) == (Header, [m])
    ensures exists more :: 0xFF !in more && m == text + more && s == more + [0xFF]
  {
    hide Feed;
    FeedPayload(text, s);
    var n :| 0 <= n < |s| && s[n] == 0xFF && 0xFF !in s[..n]
      && Feed(Payload(text), s).0 == Feed(Header, s[n + 1..]).0
      && Feed(Payload(text), s).1 == [text + s[..n]] + Feed(Header, s[n + 1..]).1;
    assert |[m]| == 1 + |Feed(Header, s[n + 1..]).1|;
    NoMessage(Header, s[n + 1..]);
    if s[n + 1..] != [] {
      FeedHeader(s[n + 1..]);
    }
    assert s == s[..n] + [0xFF];
    assert [m][0] == text + s[..n];
  }

  lemma OneFrame(s: seq<byte>, m: seq<byte>)
    requires Feed(Header, s) == (Header, [m])
    ensures 0xFF !in m && s == [0x00] + m + [0xFF]
  {
    hide Feed;
    FeedNothing(Header);
    FeedHeader(s);
    OneMessage([], s[1..], m);
    var more :| 0xFF !in more && m == [] + more && s[1..] == more + [0xFF];
    assert m == more && s == [s[0]] + s[1..];
  }

  lemma {:induction false} FeedWire(msgs: seq<seq<byte>>)
    requires forall i :: 0 <= i < |msgs| ==> 0xFF !in msgs[i]
    ensures Feed(Header, Wire(msgs)).0 == Header
    ensures Feed(Header, Wire(msgs)).1 == msgs
  {
    if msgs != [] {
      FeedFrame(msgs[0], Wire(msgs[1..]));
      FeedWire(msgs[1..]);
      assert [msgs[0]] + msgs[1..] == msgs;
    }
  }

  /**
   Any messages prepare_data_frame accepts, one after another on the wire and cut into any
   reads, are delivered unchanged and in order, and leave the receiver before the next frame.
   */
  lemma RoundTrip(msgs: seq<seq<byte>>, cuts: seq<seq<byte>>)
    requires forall i :: 0 <= i < |msgs| ==> Octets(msgs[i])
    requires Flatten(cuts) == Wire(msgs)
    ensures FeedAll(Header, cuts) == (Header, msgs)
  {
    forall i | 0 <= i < |msgs| ensures 0xFF !in msgs[i] {
      TextHasNoFF(msgs[i]);
    }
    FeedWire(msgs);
    CutsDoNotMatter(Header, cuts);
  }

  /**
   Every stream is whole frames and a rest without one, and that decides: the messages are those of
   the frames, and the rest leaves the receiver before a frame, inside one, or past a violation.
   */
  lemma StreamExactly(msgs: seq<seq<byte>>, rest: seq<byte>, cuts: seq<seq<byte>>)
    requires forall i :: 0 <= i < |msgs| ==> 0xFF !in msgs[i]
    requires Flatten(cuts) == Wire(msgs) + rest
    requires rest == [] || rest[0] != 0x00 || 0xFF !in rest
    ensures FeedAll(Header, cuts).1 == msgs
    ensures FeedAll(Header, cuts).0 ==
      if rest == [] then Header else if rest[0] != 0x00 then Fatal else Payload(rest[1..])
  {
    CutsDoNotMatter(Header, cuts);
    FeedWire(msgs);
    FeedConcat(Header, Wire(msgs), rest);
    if rest != [] {
      FeedHeader(rest);
      FeedPayload([], rest[1..]);
      assert [] + rest[1..] == rest[1..];
    }
    hide Feed;
    FeedNothing(Header);
    assert msgs + [] == msgs;
  }

  lemma SplitStream(s: seq<byte>) returns (msgs: seq<seq<byte>>, rest: seq<byte>)
    ensures s == Wire(msgs) + rest && (forall i :: 0 <= i < |msgs| ==> 0xFF !in msgs[i])
    ensures rest == [] || rest[0] != 0x00 || 0xFF !in rest
    decreases |s|
  {
    if s == [] || s[0] != 0x00 || 0xFF !in s {
      msgs, rest := [], s;
      assert Wire([]) + s == s;
    } else {
      var n := FirstFF(s[1..]);
      var m := s[1..][..n];
      msgs, rest := SplitStream(s[n + 2..]);
      assert ([m] + msgs)[1..] == msgs;
      assert s == Frame(m) + s[n + 2..];
      assert Frame(m) + (Wire(msgs) + rest) == Frame(m) + Wire(msgs) + rest;
      msgs := [m] + msgs;
    }
  }

  lemma FatalIsForGood(r: Receiver, a: seq<byte>, b: seq<byte>)
    requires Feed(r, a + b).0 != Fatal
    ensures Feed(r, a).0 != Fatal
  {
    FeedConcat(r, a, b);
    if Feed(r, a).0 == Fatal {
      FatalAbsorbs(b);
    }
  }

  /**
   The receiving side itself, a new processor given the reads one after another: it goes on reading
   to the end, takes exactly the messages sent, and calls the handler with those that find the
   session open.
   */
  method ReceiveAll(ghost msgs: seq<seq<byte>>, cuts: seq<seq<byte>>, isOpen: nat -> bool)
    returns (processor: Processor)
    requires forall i :: 0 <= i < |msgs| ==> Octets(msgs[i])
    requires Flatten(cuts) == Wire(msgs)
    ensures fresh(processor) && processor.Valid() && processor.isOpen == isOpen
    ensures processor.reading && processor.Value() == Header
    ensures processor.taken == msgs && processor.delivered == Dispatched(msgs, isOpen)
  {
    hide Feed, Wire, Dispatched;
    RoundTrip(msgs, cuts);
    CutsDoNotMatter(Header, cuts);
    FeedNothing(Header);
    processor := new Processor(isOpen);
    var k := 0;
    while k < |cuts|
      invariant 0 <= k <= |cuts|
      invariant fresh(processor) && processor.Valid() && processor.isOpen == isOpen && processor.reading
      invariant processor.Value() == Feed(Header, Flatten(cuts[..k])).0
      invariant processor.taken == Feed(Header, Flatten(cuts[..k])).1
    {
      var before, after := cuts[..k + 1], cuts[k + 1..];
      FlattenAppend(cuts[..k], [cuts[k]]);
      assert before == cuts[..k] + [cuts[k]];
      assert Flatten([cuts[k]]) == cuts[k] + [] == cuts[k];
      FeedConcat(Header, Flatten(cuts[..k]), cuts[k]);
      FlattenAppend(before, after);
      assert cuts == before + after;
      FatalIsForGood(Header, Flatten(before), Flatten(after));
      processor.Receive(cuts[k]);
      k := k + 1;
    }
    assert cuts[..k] == cuts;
  }

  lemma FeedNothing(r: Receiver)
    ensures Feed(r, []) == (r, [])
  {
  }
}
