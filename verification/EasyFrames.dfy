/**
 The framing of cloudGame/include/easywsclient.cpp: the header sendData builds and the parser
 inside _dispatchBinary, against the header websocketpp builds and against each other.
 */
module EasyFrames {
  import opened Bytes
  import opened Masking
  import opened FrameHeader

  const LONG: nat := 0x8000_0000_0000_0000

  /** What one std::string or std::vector can hold. */
  type Payload = s: seq<byte> | |s| < LONG witness []

  // ---- sendData's header ----

  /** The low byte of size >> (8 * k). */
  function ByteOf(size: Size, k: nat): byte
    requires k < 8
  {
    (if k == 0 then size else if k == 1 then size / 0x100 else if k == 2 then size / 0x1_0000
    else if k == 3 then size / 0x100_0000 else if k == 4 then size / 0x1_0000_0000
    else if k == 5 then size / 0x100_0000_0000 else if k == 6 then size / 0x1_0000_0000_0000
    else size / 0x100_0000_0000_0000) % 256
  }

  function EasyHeader(opcode: Opcode, size: Size, useMask: bool, key: Key): seq<byte> {
    var mask: byte := if useMask then 0x80 else 0;
    [Or(0x80, opcode)]
    + (if size < 126 then [Or(size % 256, mask)]
       else if size < 65536 then [Or(126, mask), ByteOf(size, 1), ByteOf(size, 0)]
       else [Or(127, mask), ByteOf(size, 7), ByteOf(size, 6), ByteOf(size, 5), ByteOf(size, 4),
             ByteOf(size, 3), ByteOf(size, 2), ByteOf(size, 1), ByteOf(size, 0)])
    + (if useMask then key else [])
  }

  lemma {:induction false} OrCommutes(a: nat, b: nat)
    ensures OrNat(a, b) == OrNat(b, a)
  {
    if a != 0 || b != 0 {
      OrCommutes(a / 2, b / 2);
    }
  }

  lemma SizeByte(code: nat, useMask: bool)
    requires code < 0x80
    ensures Or(code, if useMask then 0x80 else 0) == code + 0x80 * Bit(useMask)
  {
    hide OrNat;
    OrCommutes(code, 0x80);
    OrAbove(1, code);
    ZeroIsNeutral(code);
  }

  lemma BigEndianBytes(size: Size)
    ensures BigEndian(size, 2) == [ByteOf(size, 1), ByteOf(size, 0)]
    ensures BigEndian(size, 8) == [ByteOf(size, 7), ByteOf(size, 6), ByteOf(size, 5), ByteOf(size, 4),
                                   ByteOf(size, 3), ByteOf(size, 2), ByteOf(size, 1), ByteOf(size, 0)]
  {
    var n1 := size / 0x100;
    var n2 := n1 / 256;
    var n3 := n2 / 256;
    var n4 := n3 / 256;
    var n5 := n4 / 256;
    var n6 := n5 / 256;
    var n7 := n6 / 256;
    assert n2 == size / 0x1_0000 && n3 == size / 0x100_0000 && n4 == size / 0x1_0000_0000;
    assert n5 == size / 0x100_0000_0000 && n6 == size / 0x1_0000_0000_0000 && n7 == size / 0x100_0000_0000_0000;
    hide ByteOf;
    assert BigEndian(n7, 1) == [n7 % 256];
    assert BigEndian(n6, 2) == [n7 % 256, n6 % 256];
    assert BigEndian(n5, 3) == [n7 % 256, n6 % 256, n5 % 256];
    assert BigEndian(n4, 4) == [n7 % 256, n6 % 256, n5 % 256, n4 % 256];
    assert BigEndian(n3, 5) == [n7 % 256, n6 % 256, n5 % 256, n4 % 256, n3 % 256];
    assert BigEndian(n2, 6) == [n7 % 256, n6 % 256, n5 % 256, n4 % 256, n3 % 256, n2 % 256];
    assert BigEndian(n1, 7) == [n7 % 256, n6 % 256, n5 % 256, n4 % 256, n3 % 256, n2 % 256, n1 % 256];
    assert BigEndian(n1, 1) == [n1 % 256];
    BytesOf(size, n1, n2, n3, n4, n5, n6, n7);
  }

  lemma BytesOf(size: Size, n1: nat, n2: nat, n3: nat, n4: nat, n5: nat, n6: nat, n7: nat)
    requires n1 == size / 0x100 && n2 == size / 0x1_0000 && n3 == size / 0x100_0000 && n4 == size / 0x1_0000_0000
    requires n5 == size / 0x100_0000_0000 && n6 == size / 0x1_0000_0000_0000 && n7 == size / 0x100_0000_0000_0000
    ensures [ByteOf(size, 7), ByteOf(size, 6), ByteOf(size, 5), ByteOf(size, 4),
             ByteOf(size, 3), ByteOf(size, 2), ByteOf(size, 1), ByteOf(size, 0)]
      == [n7 % 256, n6 % 256, n5 % 256, n4 % 256, n3 % 256, n2 % 256, n1 % 256, size % 256]
  {
  }

  /** The two implementations agree, byte for byte, on every final frame with the reserved bits clear. */
  lemma HeadersAgree(opcode: Opcode, size: Size, useMask: bool, key: Key)
    ensures EasyHeader(opcode, size, useMask, key)
         == Header(Fields(true, false, false, false, opcode, size), useMask, key)
  {
    hide Or, ByteOf, BigEndian;
    var f := Fields(true, false, false, false, opcode, size);
    FirstByteOr(f, useMask);
    SecondByteOr(f, useMask);
    HeaderLayout(f, useMask, key);
    OpcodeOr(8, opcode);
    SizeByte(SizeCode(size), useMask);
    BigEndianBytes(size);
    hide Header, MakeBasic;
  }

  // ---- _dispatchBinary's parser ----

  function ShortSize(s: seq<byte>): (n: nat)
    requires |s| == 2
    ensures n == Value(s) < 0x1_0000
  {
    ValueOfTwo(s);
    Value(s)
  }

  /** What the first bytes of rxbuf say; length is header_size and size is N. */
  datatype Parsed = Short | BadLength
    | Parsed(fin: bool, opcode: Opcode, masked: bool, length: nat, size: nat, key: Key)

  /** The addition header_size + N that the source hopes cannot overflow does not, in 64 bits. */
  function ParseHeader(buf: seq<byte>): (p: Parsed)
    ensures p.Parsed? ==> p.size < LONG && p.length <= 14 && p.length + p.size < 0x1_0000_0000_0000_0000
  {
    if |buf| < 2 then Short
    else
      var n0 := buf[1] % 0x80;
      var masked := buf[1] >= 0x80;
      var length := 2 + (if n0 == 126 then 2 else 0) + (if n0 == 127 then 8 else 0) + (if masked then 4 else 0);
      if |buf| < length then Short
      else
        var size := if n0 < 126 then n0 else if n0 == 126 then ShortSize(buf[2..4]) else Value(buf[2..10]);
        if n0 == 127 && size >= LONG then BadLength
        else Parsed(buf[0] >= 0x80, buf[0] % 0x10, masked, length, size,
                    if masked then buf[length - 4..length] else [0, 0, 0, 0])
  }

  lemma SliceOfFront(a: seq<byte>, b: seq<byte>, i: nat, j: nat)
    requires i <= j <= |a|
    ensures (a + b)[i..j] == a[i..j]
  {
  }

  lemma ParseExtends(a: seq<byte>, b: seq<byte>)
    requires !ParseHeader(a).Short?
    ensures ParseHeader(a + b) == ParseHeader(a)
  {
    hide Value;
    var n0 := a[1] % 0x80;
    assert (a + b)[0] == a[0] && (a + b)[1] == a[1];
    var length := 2 + (if n0 == 126 then 2 else 0) + (if n0 == 127 then 8 else 0) + (if a[1] >= 0x80 then 4 else 0);
    assert |a| >= length;
    if n0 == 126 {
      SliceOfFront(a, b, 2, 4);
    } else if n0 == 127 {
      SliceOfFront(a, b, 2, 10);
    }
    if a[1] >= 0x80 {
      SliceOfFront(a, b, length - 4, length);
    }
  }

  /** A header in its parts: two bytes, the long form of the size, the key. */
  lemma ParseParts(b0: byte, b1: byte, long: seq<byte>, key: seq<byte>, rest: seq<byte>)
    requires |long| == if b1 % 0x80 == 126 then 2 else if b1 % 0x80 == 127 then 8 else 0
    requires |key| == if b1 >= 0x80 then 4 else 0
    ensures ParseHeader([b0, b1] + long + key + rest) ==
      if b1 % 0x80 == 127 && Value(long) >= LONG then BadLength
      else Parsed(b0 >= 0x80, b0 % 0x10, b1 >= 0x80, 2 + |long| + |key|,
                  if b1 % 0x80 < 126 then b1 % 0x80 else Value(long), if b1 >= 0x80 then key else [0, 0, 0, 0])
  {
    hide Value;
    var buf := [b0, b1] + long + key + rest;
    assert buf[0] == b0 && buf[1] == b1;
    if b1 % 0x80 == 126 {
      assert buf[2..4] == long;
    } else if b1 % 0x80 == 127 {
      assert buf[2..10] == long;
    }
    if b1 >= 0x80 {
      assert buf[2 + |long|..2 + |long| + 4] == key;
    }
  }

  /**
   The parser against websocketpp's writer: it reads back every header announcing less than
   2^63 bytes, and refuses every longer one.
   */
  lemma ParseHeaderRoundTrip(f: Fields, mask: bool, key: Key, rest: seq<byte>)
    ensures ParseHeader(Header(f, mask, key) + rest) ==
      if f.size >= LONG then BadLength
      else Parsed(f.fin, f.opcode, mask, |Header(f, mask, key)|, f.size, if mask then key else [0, 0, 0, 0])
  {
    hide ParseHeader, Value, BigEndian, Header, MakeBasic;
    HeaderLayout(f, mask, key);
    FirstByteOr(f, mask);
    SecondByteOr(f, mask);
    var long := if f.size <= 125 then [] else if f.size <= 0xFFFF then BigEndian(f.size, 2) else BigEndian(f.size, 8);
    ParseParts(MakeBasic(f, mask).b0, MakeBasic(f, mask).b1, long, if mask then key else [], rest);
    PlaceIsProduct(1);
    ShortPlace();
    if 125 < f.size <= 0xFFFF {
      ValueOfBigEndian(f.size, 2);
    } else if f.size > 0xFFFF {
      ValueOfBigEndian(f.size, 8);
    }
  }

  lemma ShortPlace()
    ensures Place(1, 2) == 0x1_0000
  {
    assert Place(1, 1) == 0x100;
  }

  // ---- Frames ----

  /** A frame of section 5.2 of RFC 6455. */
  datatype Frame = Frame(fin: bool, rsv1: bool, rsv2: bool, rsv3: bool, opcode: Opcode,
                         key: Option<Key>, payload: Payload)

  function KeyOf(f: Frame): Key {
    if f.key.Some? then f.key.value else [0, 0, 0, 0]
  }

  /** The frame on the wire. */
  function WireFrame(f: Frame): seq<byte> {
    Header(Fields(f.fin, f.rsv1, f.rsv2, f.rsv3, f.opcode, |f.payload|), f.key.Some?, KeyOf(f))
    + if f.key.Some? then Masked(f.payload, f.key.value, 0) else f.payload
  }

  function WireFrames(frames: seq<Frame>): seq<byte> {
    if frames == [] then [] else WireFrame(frames[0]) + WireFrames(frames[1..])
  }

  lemma {:induction false} WireFramesAppend(a: seq<Frame>, b: seq<Frame>)
    ensures WireFrames(a + b) == WireFrames(a) + WireFrames(b)
  {
    hide WireFrame;
    if a == [] {
      assert a + b == b;
    } else {
      assert (a + b)[1..] == a[1..] + b;
      WireFramesAppend(a[1..], b);
    }
  }

  // ---- Receiving ----

  /** The frame at the front of rxbuf, unmasked, and how many bytes it takes. */
  datatype Next = Need | Bad | Got(fin: bool, opcode: Opcode, payload: Payload, total: nat)

  function NextFrame(buf: seq<byte>): (n: Next)
    ensures n.Got? ==> 2 <= n.total <= |buf|
  {
    match ParseHeader(buf)
    case Short => Need
    case BadLength => Bad
    case Parsed(fin, opcode, masked, length, size, key) =>
      if |buf| < length + size then Need
      else
        var raw := buf[length..length + size];
        Got(fin, opcode, if masked then Masked(raw, key, 0) else raw, length + size)
  }

  /** What one received frame makes the client do: call back, answer a ping, or close. */
  datatype Event = Call(message: seq<byte>) | Pong(payload: Payload) | Quit

  function React(fragments: seq<byte>, fin: bool, opcode: Opcode, payload: Payload): (seq<byte>, seq<Event>) {
    if opcode == 1 || opcode == 2 || opcode == 0 then
      if fin then ([], [Call(fragments + payload)]) else (fragments + payload, [])
    else if opcode == 9 then (fragments, [Pong(payload)])
    else if opcode == 10 then (fragments, [])
    else (fragments, [Quit])
  }

  /** rxbuf, receivedData and isRxBad. */
  datatype Inbox = Inbox(rx: seq<byte>, fragments: seq<byte>, bad: bool)

  const EMPTY: Inbox := Inbox([], [], false)

  /** _dispatchBinary: the state it leaves and what it does on the way. */
  function Receive(i: Inbox): (Inbox, seq<Event>)
    decreases |i.rx|
  {
    if i.bad then (i, [])
    else
      match NextFrame(i.rx)
      case Need => (i, [])
      case Bad => (i.(bad := true), [Quit])
      case Got(fin, opcode, payload, total) =>
        var (fragments, events) := React(i.fragments, fin, opcode, payload);
        var (last, more) := Receive(Inbox(i.rx[total..], fragments, false));
        (last, events + more)
  }

  lemma ReceiveOne(i: Inbox)
    requires !i.bad && NextFrame(i.rx).Got?
    ensures var n := NextFrame(i.rx);
      var r := React(i.fragments, n.fin, n.opcode, n.payload);
      && Receive(i).0 == Receive(Inbox(i.rx[n.total..], r.0, false)).0
      && Receive(i).1 == r.1 + Receive(Inbox(i.rx[n.total..], r.0, false)).1
  {
  }

  function More(i: Inbox, chunk: seq<byte>): Inbox {
    i.(rx := i.rx + chunk)
  }

  lemma NextFrameExtends(a: seq<byte>, b: seq<byte>)
    requires !NextFrame(a).Need?
    ensures NextFrame(a + b) == NextFrame(a)
  {
    ParseExtends(a, b);
    match ParseHeader(a)
    case Parsed(fin, opcode, masked, length, size, key) =>
      SliceOfFront(a, b, length, length + size);
    case _ =>
  }

  /** Dispatching before more bytes arrive changes nothing about the outcome, for any bytes whatever. */
  lemma {:induction false} ReceiveMore(i: Inbox, chunk: seq<byte>)
    ensures Receive(More(i, chunk)).0 == Receive(More(Receive(i).0, chunk)).0
    ensures Receive(More(i, chunk)).1 == Receive(i).1 + Receive(More(Receive(i).0, chunk)).1
    decreases |i.rx|
  {
    hide NextFrame, React;
    if i.bad || NextFrame(i.rx).Need? {
      assert [] + Receive(More(i, chunk)).1 == Receive(More(i, chunk)).1;
    } else {
      NextFrameExtends(i.rx, chunk);
      if NextFrame(i.rx).Got? {
        var n := NextFrame(i.rx);
        var (fragments, events) := React(i.fragments, n.fin, n.opcode, n.payload);
        var rest := Inbox(i.rx[n.total..], fragments, false);
        ReceiveMore(rest, chunk);
        assert (i.rx + chunk)[n.total..] == rest.rx + chunk;
        assert events + (Receive(rest).1 + Receive(More(Receive(rest).0, chunk)).1)
            == events + Receive(rest).1 + Receive(More(Receive(rest).0, chunk)).1;
      } else {
        assert [Quit] + [] == [Quit];
      }
    }
  }

  /** A second dispatch with nothing new to read does nothing. */
  lemma {:induction false} ReceiveSettles(i: Inbox)
    ensures Receive(Receive(i).0) == (Receive(i).0, [])
    decreases |i.rx|
  {
    if !i.bad && NextFrame(i.rx).Got? {
      var n := NextFrame(i.rx);
      ReceiveSettles(Inbox(i.rx[n.total..], React(i.fragments, n.fin, n.opcode, n.payload).0, false));
    }
  }

  /** Bytes arriving chunk by chunk, with a dispatch after each. */
  function ReceiveAll(i: Inbox, chunks: seq<seq<byte>>): (Inbox, seq<Event>)
    decreases |chunks|
  {
    if chunks == [] then (i, [])
    else
      var (next, events) := Receive(More(i, chunks[0]));
      var (last, more) := ReceiveAll(next, chunks[1..]);
      (last, events + more)
  }

  lemma {:induction false} ChunksDoNotMatter(i: Inbox, chunks: seq<seq<byte>>)
    requires Receive(i) == (i, [])
    ensures ReceiveAll(i, chunks).0 == Receive(More(i, Flatten(chunks))).0
    ensures ReceiveAll(i, chunks).1 == Receive(More(i, Flatten(chunks))).1
    decreases |chunks|
  {
    hide Receive;
    if chunks == [] {
      assert More(i, []) == i;
    } else {
      var first := More(i, chunks[0]);
      ReceiveMore(first, Flatten(chunks[1..]));
      assert More(first, Flatten(chunks[1..])) == More(i, Flatten(chunks)) by {
        assert i.rx + chunks[0] + Flatten(chunks[1..]) == i.rx + (chunks[0] + Flatten(chunks[1..]));
      }
      ReceiveSettles(first);
      ChunksDoNotMatter(Receive(first).0, chunks[1..]);
    }
  }

  // ---- Frames in, frames out ----

  lemma NextFrameRoundTrip(f: Frame, rest: seq<byte>)
    ensures NextFrame(WireFrame(f) + rest) == Got(f.fin, f.opcode, f.payload, |WireFrame(f)|)
  {
    hide Header, ParseHeader, Masked, NextFrame;
    var fields := Fields(f.fin, f.rsv1, f.rsv2, f.rsv3, f.opcode, |f.payload|);
    var header := Header(fields, f.key.Some?, KeyOf(f));
    var body := if f.key.Some? then Masked(f.payload, f.key.value, 0) else f.payload;
    ParseHeaderRoundTrip(fields, f.key.Some?, KeyOf(f), body + rest);
    assert WireFrame(f) == header + body;
    assert header + body + rest == header + (body + rest);
    NextFrameOf(header, body, rest);
    if f.key.Some? {
      MaskedTwice(f.payload, f.key.value, 0);
    }
  }

  lemma NextFrameOf(header: seq<byte>, body: seq<byte>, rest: seq<byte>)
    requires var p := ParseHeader(header + (body + rest)); p.Parsed? && p.length == |header| && p.size == |body|
    ensures var p := ParseHeader(header + (body + rest));
      NextFrame(header + (body + rest)) ==
        Got(p.fin, p.opcode, if p.masked then Masked(body, p.key, 0) else body, |header| + |body|)
  {
    hide ParseHeader, Masked;
    var buf := header + (body + rest);
    assert buf[|header|..|header| + |body|] == body;
  }

  /** What a list of frames means to the client, frame by frame and without bytes. */
  function Meaning(fragments: seq<byte>, frames: seq<Frame>): (seq<byte>, seq<Event>)
    decreases |frames|
  {
    if frames == [] then (fragments, [])
    else
      var (next, events) := React(fragments, frames[0].fin, frames[0].opcode, frames[0].payload);
      var (last, more) := Meaning(next, frames[1..]);
      (last, events + more)
  }

  lemma {:induction false} ReceiveFrames(frames: seq<Frame>, fragments: seq<byte>, rest: seq<byte>)
    ensures var m := Meaning(fragments, frames);
      && Receive(Inbox(WireFrames(frames) + rest, fragments, false)).0 == Receive(Inbox(rest, m.0, false)).0
      && Receive(Inbox(WireFrames(frames) + rest, fragments, false)).1 == m.1 + Receive(Inbox(rest, m.0, false)).1
    decreases |frames|
  {
    hide WireFrame, NextFrame, React, Receive;
    if frames == [] {
      assert [] + rest == rest;
      assert [] + Receive(Inbox(rest, fragments, false)).1 == Receive(Inbox(rest, fragments, false)).1;
    } else {
      var f := frames[0];
      var tail := WireFrames(frames[1..]) + rest;
      NextFrameRoundTrip(f, tail);
      assert WireFrames(frames) + rest == WireFrame(f) + tail;
      assert (WireFrame(f) + tail)[|WireFrame(f)|..] == tail;
      ReceiveFrames(frames[1..], React(fragments, f.fin, f.opcode, f.payload).0, rest);
      ReceiveOne(Inbox(WireFrame(f) + tail, fragments, false));
      var (next, events) := React(fragments, f.fin, f.opcode, f.payload);
      var m := Meaning(next, frames[1..]);
      assert events + (m.1 + Receive(Inbox(rest, m.0, false)).1) == events + m.1 + Receive(Inbox(rest, m.0, false)).1;
    }
  }

  function DataOf(f: Frame): Payload {
    if f.opcode <= 2 then f.payload else []
  }

  function PongsFor(f: Frame): seq<Event> {
    if f.opcode == 9 then [Pong(f.payload)] else []
  }

  /** The payloads of the data frames among frames, joined. */
  function Joined(frames: seq<Frame>): seq<byte> {
    if frames == [] then [] else DataOf(frames[0]) + Joined(frames[1..])
  }

  function Pongs(frames: seq<Frame>): seq<Event> {
    if frames == [] then [] else PongsFor(frames[0]) + Pongs(frames[1..])
  }

  predicate Held(f: Frame) {
    f.opcode == 9 || f.opcode == 10 || (f.opcode <= 2 && !f.fin)
  }

  lemma ReactHeld(fragments: seq<byte>, f: Frame)
    requires Held(f)
    ensures React(fragments, f.fin, f.opcode, f.payload).0 == fragments + DataOf(f)
    ensures React(fragments, f.fin, f.opcode, f.payload).1 == PongsFor(f)
  {
    assert fragments + [] == fragments;
  }

  /**
   Section 5.4: data frames are held back and joined until one is final, and pings and pongs may
   come between them.
   */
  lemma {:induction false} FragmentsJoined(fragments: seq<byte>, frames: seq<Frame>, last: Frame)
    requires forall i :: 0 <= i < |frames| ==> Held(frames[i])
    requires last.opcode <= 2 && last.fin
    ensures Meaning(fragments, frames + [last]).0 == []
    ensures Meaning(fragments, frames + [last]).1 ==
        Pongs(frames) + [Call(fragments + Joined(frames) + last.payload)]
    decreases |frames|
  {
    hide React, DataOf, PongsFor, Held, Meaning;
    if frames == [] {
      FinalFrame(fragments, last);
      assert frames + [last] == [last];
      assert fragments + [] == fragments;
    } else {
      var f := frames[0];
      ReactHeld(fragments, f);
      FragmentsJoined(fragments + DataOf(f), frames[1..], last);
      MeaningStep(fragments, f, frames[1..] + [last]);
      assert frames + [last] == [f] + (frames[1..] + [last]);
      Associate(fragments, DataOf(f), Joined(frames[1..]));
      Associate(PongsFor(f), Pongs(frames[1..]), [Call(fragments + Joined(frames) + last.payload)]);
    }
  }

  lemma FinalFrame(fragments: seq<byte>, last: Frame)
    requires last.opcode <= 2 && last.fin
    ensures Meaning(fragments, [last]).0 == []
    ensures Meaning(fragments, [last]).1 == [Call(fragments + last.payload)]
  {
    assert [last][1..] == [];
  }

  lemma MeaningStep(fragments: seq<byte>, f: Frame, more: seq<Frame>)
    ensures var r := React(fragments, f.fin, f.opcode, f.payload);
      && Meaning(fragments, [f] + more).0 == Meaning(r.0, more).0
      && Meaning(fragments, [f] + more).1 == r.1 + Meaning(r.0, more).1
  {
    assert ([f] + more)[1..] == more;
  }

  /**
   Any frames below 2^63 bytes, masked or not, with any header bits, cut into any chunks with a
   dispatch after each: the client does exactly what the frames mean, and is left as one
   dispatch of the whole would leave it.
   */
  lemma FramesRoundTrip(frames: seq<Frame>, chunks: seq<seq<byte>>)
    requires Flatten(chunks) == WireFrames(frames)
    ensures ReceiveAll(EMPTY, chunks).0 == Inbox([], Meaning([], frames).0, false)
    ensures ReceiveAll(EMPTY, chunks).1 == Meaning([], frames).1
  {
    assert Receive(EMPTY) == (EMPTY, []);
    ChunksDoNotMatter(EMPTY, chunks);
    ReceiveFrames(frames, [], []);
    assert WireFrames(frames) + [] == [] + WireFrames(frames);
    var last := Inbox([], Meaning([], frames).0, false);
    assert Receive(last) == (last, []);
    assert Meaning([], frames).1 + [] == Meaning([], frames).1;
  }

  // ---- A header that announces too much ----

  lemma {:induction false} BadIsDeaf(i: Inbox, chunks: seq<seq<byte>>)
    requires i.bad
    ensures ReceiveAll(i, chunks).0.bad && ReceiveAll(i, chunks).1 == []
    decreases |chunks|
  {
    if chunks != [] {
      BadIsDeaf(More(i, chunks[0]), chunks[1..]);
      var none: seq<Event> := [];
      assert none + none == none;
    }
  }

  /**
   Whole frames, then a header that announces 2^63 bytes or more, then anything, in any chunks: the
   frames mean what they mean, the client is told to close once, and hears nothing more.
   */
  lemma OversizedEndsIt(frames: seq<Frame>, f: Fields, mask: bool, key: Key, rest: seq<byte>,
                        chunks: seq<seq<byte>>, more: seq<seq<byte>>)
    requires f.size >= LONG && Flatten(chunks) == WireFrames(frames) + (Header(f, mask, key) + rest)
    ensures ReceiveAll(EMPTY, chunks).1 == Meaning([], frames).1 + [Quit]
    ensures ReceiveAll(EMPTY, chunks).0.bad && ReceiveAll(ReceiveAll(EMPTY, chunks).0, more).1 == []
  {
    hide WireFrames, Header, Meaning, ReceiveAll;
    var tail := Header(f, mask, key) + rest;
    NothingYet();
    ChunksDoNotMatter(EMPTY, chunks);
    assert EMPTY.rx + Flatten(chunks) == WireFrames(frames) + tail;
    ReceiveFrames(frames, [], tail);
    ReceiveOversized(Meaning([], frames).0, f, mask, key, rest);
    BadIsDeaf(ReceiveAll(EMPTY, chunks).0, more);
  }

  lemma NothingYet()
    ensures Receive(EMPTY) == (EMPTY, [])
  {
  }

  lemma ReceiveOversized(fragments: seq<byte>, f: Fields, mask: bool, key: Key, rest: seq<byte>)
    requires f.size >= LONG
    ensures var i := Inbox(Header(f, mask, key) + rest, fragments, false);
      Receive(i) == (i.(bad := true), [Quit])
  {
    hide Header, ParseHeader;
    ParseHeaderRoundTrip(f, mask, key, rest);
  }
}
