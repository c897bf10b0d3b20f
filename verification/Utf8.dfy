/**
 The table-driven UTF-8 validator of websocketpp/utf8_validator.hpp against two definitions it
 does not mention: the grammar of section 4 of RFC 3629 and the encoding of section 3.
 */
module Utf8 {
  import opened Bytes

  // ---- RFC 3629, section 4 ----

  predicate Tail(b: byte) { 0x80 <= b <= 0xBF }

  /** UTF8-char. */
  predicate Char(c: seq<byte>) {
    || (|c| == 1 && c[0] <= 0x7F)
    || (|c| == 2 && 0xC2 <= c[0] <= 0xDF && Tail(c[1]))
    || (|c| == 3 && Tail(c[2]) &&
        (|| (c[0] == 0xE0 && 0xA0 <= c[1] <= 0xBF)
         || (0xE1 <= c[0] <= 0xEC && Tail(c[1]))
         || (c[0] == 0xED && 0x80 <= c[1] <= 0x9F)
         || (0xEE <= c[0] <= 0xEF && Tail(c[1]))))
    || (|c| == 4 && Tail(c[2]) && Tail(c[3]) &&
        (|| (c[0] == 0xF0 && 0x90 <= c[1] <= 0xBF)
         || (0xF1 <= c[0] <= 0xF3 && Tail(c[1]))
         || (c[0] == 0xF4 && 0x80 <= c[1] <= 0x8F)))
  }

  ghost predicate AllChars(cs: seq<seq<byte>>) {
    forall i :: 0 <= i < |cs| ==> Char(cs[i])
  }

  /** UTF8-octets: a concatenation of UTF8-chars. */
  ghost predicate Octets(s: seq<byte>) {
    exists cs: seq<seq<byte>> :: AllChars(cs) && Flatten(cs) == s
  }

  // ---- RFC 3629, section 3 ----

  predicate Scalar(v: nat) { v < 0xD800 || 0xE000 <= v < 0x11_0000 }

  function Encode(v: nat): (c: seq<byte>)
    requires Scalar(v)
  {
    if v < 0x80 then [v]
    else if v < 0x800 then [0xC0 + v / 0x40, 0x80 + v % 0x40]
    else if v < 0x1_0000 then [0xE0 + v / 0x1000, 0x80 + v / 0x40 % 0x40, 0x80 + v % 0x40]
    else [0xF0 + v / 0x4_0000, 0x80 + v / 0x1000 % 0x40, 0x80 + v / 0x40 % 0x40, 0x80 + v % 0x40]
  }

  // ---- The table ----

  const ACCEPT: nat := 0
  const REJECT: nat := 1

  /** The class of a byte: the first half of utf8d, whose first 128 entries are zero. */
  const CLASS_80: seq<nat> := [1,1,1,1,1,1,1,1,1,1,1,1,1,1,1,1, 9,9,9,9,9,9,9,9,9,9,9,9,9,9,9,9]
  const CLASS_A0: seq<nat> := [7,7,7,7,7,7,7,7,7,7,7,7,7,7,7,7, 7,7,7,7,7,7,7,7,7,7,7,7,7,7,7,7]
  const CLASS_C0: seq<nat> := [8,8,2,2,2,2,2,2,2,2,2,2,2,2,2,2, 2,2,2,2,2,2,2,2,2,2,2,2,2,2,2,2]
  const CLASS_E0: seq<nat> := [0xa,3,3,3,3,3,3,3,3,3,3,3,3,4,3,3]
  const CLASS_F0: seq<nat> := [0xb,6,6,6,5,8,8,8,8,8,8,8,8,8,8,8]

  function Class(b: byte): nat {
    if b < 0x80 then 0
    else if b < 0xA0 then CLASS_80[b - 0x80]
    else if b < 0xC0 then CLASS_A0[b - 0xA0]
    else if b < 0xE0 then CLASS_C0[b - 0xC0]
    else if b < 0xF0 then CLASS_E0[b - 0xE0]
    else CLASS_F0[b - 0xF0]
  }

  /** The transitions: the second half of utf8d, sixteen entries a state. */
  const NEXT: seq<seq<nat>> := [
    [0,1,2,3,5,8,7,1,1,1,4,6,1,1,1,1],
    [1,1,1,1,1,1,1,1,1,1,1,1,1,1,1,1],
    [1,0,1,1,1,1,1,0,1,0,1,1,1,1,1,1],
    [1,2,1,1,1,1,1,2,1,2,1,1,1,1,1,1],
    [1,1,1,1,1,1,1,2,1,1,1,1,1,1,1,1],
    [1,2,1,1,1,1,1,1,1,2,1,1,1,1,1,1],
    [1,1,1,1,1,1,1,3,1,3,1,1,1,1,1,1],
    [1,3,1,1,1,1,1,3,1,3,1,1,1,1,1,1],
    [1,3,1,1,1,1,1,1,1,1,1,1,1,1,1,1]]

  /** What the table says of the bytes, range by range. */
  lemma ClassRanges(b: byte)
    ensures Class(b) ==
      if b < 0x80 then 0 else if b < 0x90 then 1 else if b < 0xA0 then 9 else if b < 0xC0 then 7
      else if b < 0xC2 then 8 else if b < 0xE0 then 2
      else if b == 0xE0 then 0xa else if b == 0xED then 4 else if b < 0xF0 then 3
      else if b == 0xF0 then 0xb else if b < 0xF4 then 6 else if b == 0xF4 then 5 else 8
  {
  }

  type Q = q: nat | q < 9 witness 0

  function Step(q: Q, b: byte): (q': Q)
  {
    ClassRanges(b);
    StepBound(q, Class(b));
    NEXT[q][Class(b)]
  }

  lemma StepBound(q: Q, class_: nat)
    requires class_ < 12
    ensures |NEXT| == 9 && |NEXT[q]| == 16 && NEXT[q][class_] < 9
  {
  }

  /** 0xff >> class, as the number of values it lets through. */
  function LeadMask(class_: nat): nat
    requires class_ < 12
  {
    if class_ >= 8 then 1 else [256, 128, 64, 32, 16, 8, 4, 2][class_]
  }

  datatype Decoder = Decoder(state: Q, codep: nat)

  /** decode, on one byte; the code point is a uint32_t. */
  function DecodeByte(d: Decoder, b: byte): Decoder {
    ClassRanges(b);
    Decoder(
      Step(d.state, b),
      if d.state != ACCEPT then b % 0x40 + (d.codep * 0x40) % 0x1_0000_0000 else b % LeadMask(Class(b)))
  }

  function Run(d: Decoder, s: seq<byte>): Decoder
    decreases |s|
  {
    if s == [] then d else Run(DecodeByte(d, s[0]), s[1..])
  }

  lemma {:induction false} RunConcat(d: Decoder, a: seq<byte>, b: seq<byte>)
    ensures Run(d, a + b) == Run(Run(d, a), b)
    decreases |a|
  {
    if a == [] {
      assert a + b == b;
    } else {
      assert (a + b)[1..] == a[1..] + b;
      RunConcat(DecodeByte(d, a[0]), a[1..], b);
    }
  }

  lemma {:induction false} RejectAbsorbs(d: Decoder, s: seq<byte>)
    requires d.state == REJECT
    ensures Run(d, s).state == REJECT
    decreases |s|
  {
    if s != [] {
      ClassRanges(s[0]);
      RejectAbsorbs(DecodeByte(d, s[0]), s[1..]);
    }
  }

  // ---- The validator ----

  class Validator {
    var state: Q
    var codepoint: nat

    ghost function Value(): Decoder
      reads this
    {
      Decoder(state, codepoint)
    }

    constructor ()
      ensures Value() == Decoder(ACCEPT, 0)
    {
      state, codepoint := ACCEPT, 0;
    }

    method Consume(b: byte) returns (ok: bool)
      modifies this
      ensures Value() == DecodeByte(old(Value()), b) && ok == (state != REJECT)
    {
      var d := DecodeByte(Decoder(state, codepoint), b);
      state, codepoint := d.state, d.codep;
      ok := state != REJECT;
    }

    /** decode over a range; it stops at the first byte that leads to reject. */
    method Decode(s: seq<byte>) returns (ok: bool)
      modifies this
      ensures state == Run(old(Value()), s).state && ok == (state != REJECT || s == [])
      ensures ok ==> Value() == Run(old(Value()), s)
    {
      var i := 0;
      while i < |s|
        invariant 0 <= i <= |s|
        invariant Run(Value(), s[i..]) == Run(old(Value()), s)
        invariant i > 0 ==> state != REJECT
      {
        assert s[i..][1..] == s[i + 1..];
        var good := Consume(s[i]);
        if !good {
          RejectAbsorbs(Value(), s[i + 1..]);
          return false;
        }
        i := i + 1;
      }
      ok := true;
    }

    method Complete() returns (done: bool)
      ensures done == (state == ACCEPT)
    {
      done := state == ACCEPT;
    }
  }

  method Validate(s: seq<byte>) returns (valid: bool)
    ensures valid <==> Octets(s)
  {
    var v := new Validator();
    var ok := v.Decode(s);
    AcceptsExactly(s, 0);
    if !ok {
      return false;
    }
    valid := v.Complete();
  }

  // ---- Exactness ----

  /** How many bytes a state still wants before it can accept, and which ones. */
  function Need(q: Q): nat {
    if q == 0 then 0 else if q == 2 then 1 else if q == 3 || q == 4 || q == 5 then 2 else 3
  }

  /** The bytes a state inside a character goes on with. */
  predicate Takes(q: Q, b: byte) {
    match q
    case 4 => 0xA0 <= b <= 0xBF
    case 5 => 0x80 <= b <= 0x9F
    case 6 => 0x90 <= b <= 0xBF
    case 8 => 0x80 <= b <= 0x8F
    case _ => Tail(b)
  }

  predicate Rest(q: Q, r: seq<byte>) {
    && q != REJECT && |r| == Need(q)
    && (r != [] ==> Takes(q, r[0]))
    && (forall i :: 0 < i < |r| ==> Tail(r[i]))
  }

  /** A character is a lead byte and what the state it leads to wants. */
  lemma CharIsLeadAndRest(c: seq<byte>)
    requires c != []
    ensures Char(c) <==> Rest(Step(0, c[0]), c[1..])
  {
    hide Class;
    ClassRanges(c[0]);
  }

  lemma RestUnfolds(q: Q, r: seq<byte>)
    requires q != ACCEPT && r != []
    ensures Rest(q, r) <==> Rest(Step(q, r[0]), r[1..])
  {
    hide Class;
    ClassRanges(r[0]);
  }

  lemma OctetsEmpty()
    ensures Octets([])
  {
    var none: seq<seq<byte>> := [];
    assert AllChars(none) && Flatten(none) == [];
  }

  lemma OctetsCons(c: seq<byte>, s: seq<byte>)
    requires Char(c) && Octets(s)
    ensures Octets(c + s)
  {
    var cs: seq<seq<byte>> :| AllChars(cs) && Flatten(cs) == s;
    assert AllChars([c] + cs) && ([c] + cs)[1..] == cs;
  }

  lemma OctetsSplit(s: seq<byte>) returns (n: nat)
    requires Octets(s) && s != []
    ensures 0 < n <= |s| && Char(s[..n]) && Octets(s[n..])
  {
    var cs: seq<seq<byte>> :| AllChars(cs) && Flatten(cs) == s;
    n := |cs[0]|;
    assert s[..n] == cs[0] && s[n..] == Flatten(cs[1..]);
    assert AllChars(cs[1..]);
  }

  ghost predicate Completes(q: Q, s: seq<byte>) {
    Need(q) <= |s| && Rest(q, s[..Need(q)]) && Octets(s[Need(q)..])
  }

  lemma AcceptGoesOn(s: seq<byte>)
    requires s != [] && Octets(s)
    ensures Completes(Step(0, s[0]), s[1..])
  {
    hide Step, Class, Char, Octets;
    var m := OctetsSplit(s);
    CharIsLeadAndRest(s[..m]);
    assert s[..m][1..] == s[1..][..m - 1] && s[m..] == s[1..][m - 1..];
  }

  lemma AcceptComesFrom(s: seq<byte>)
    requires s != [] && Completes(Step(0, s[0]), s[1..])
    ensures Octets(s)
  {
    hide Step, Class, Char, Octets;
    var n := 1 + Need(Step(0, s[0]));
    CharIsLeadAndRest(s[..n]);
    assert s[..n][1..] == s[1..][..n - 1] && s[n..] == s[1..][n - 1..];
    OctetsCons(s[..n], s[n..]);
    assert s[..n] + s[n..] == s;
  }

  lemma CompletesFromAccept(s: seq<byte>)
    requires s != []
    ensures Octets(s) <==> Completes(Step(0, s[0]), s[1..])
  {
    hide Step, Octets, Completes;
    if Octets(s) {
      AcceptGoesOn(s);
    }
    if Completes(Step(0, s[0]), s[1..]) {
      AcceptComesFrom(s);
    }
  }

  lemma CompletesInside(q: Q, s: seq<byte>)
    requires q != ACCEPT && s != []
    ensures Completes(q, s) <==> Completes(Step(q, s[0]), s[1..])
  {
    var n := Need(q);
    var q' := Step(q, s[0]);
    if n <= |s| {
      assert s[..n][1..] == s[1..][..n - 1] && s[n..] == s[1..][n - 1..];
      RestUnfolds(q, s[..n]);
    }
    if Need(q') + 1 <= |s| && Rest(q', s[1..][..Need(q')]) {
      RestUnfolds(q, s[..Need(q') + 1]);
      assert s[..Need(q') + 1][1..] == s[1..][..Need(q')];
    }
  }

  /** From every state, acceptance is exactly what the grammar asks of the bytes still to come. */
  lemma {:induction false} CompletesExactly(d: Decoder, s: seq<byte>)
    ensures Run(d, s).state == ACCEPT <==> Completes(d.state, s)
    decreases |s|
  {
    if s == [] {
      OctetsEmpty();
    } else {
      CompletesExactly(DecodeByte(d, s[0]), s[1..]);
      if d.state == ACCEPT {
        CompletesFromAccept(s);
        assert s[0..] == s;
      } else {
        CompletesInside(d.state, s);
      }
    }
  }

  /** The automaton accepts exactly the grammar. */
  lemma AcceptsExactly(s: seq<byte>, codep: nat)
    ensures Run(Decoder(ACCEPT, codep), s).state == ACCEPT <==> Octets(s)
  {
    CompletesExactly(Decoder(ACCEPT, codep), s);
    assert s[0..] == s;
  }

  // ---- Code points ----

  /** The code points the decoder holds each time it comes back to accept. */
  function CodePoints(d: Decoder, s: seq<byte>): seq<nat>
    decreases |s|
  {
    if s == [] then []
    else
      var d' := DecodeByte(d, s[0]);
      (if d'.state == ACCEPT then [d'.codep] else []) + CodePoints(d', s[1..])
  }

  ghost predicate AllScalars(vs: seq<nat>) {
    forall i :: 0 <= i < |vs| ==> Scalar(vs[i])
  }

  function EncodeAll(vs: seq<nat>): seq<byte>
    requires forall i :: 0 <= i < |vs| ==> Scalar(vs[i])
  {
    if vs == [] then [] else Encode(vs[0]) + EncodeAll(vs[1..])
  }

  /** The six bits a tail byte carries, and a number continued by them. */
  function Six(t: byte): (n: nat)
    ensures n < 0x40 && (Tail(t) ==> t == 0x80 + n)
  {
    if Tail(t) then t - 0x80 else 0
  }

  /** The number the bits of a character spell. */
  function ScalarOf(c: seq<byte>): nat
    requires Char(c)
  {
    var lead: nat := c[0];
    if |c| == 1 then lead
    else if |c| == 2 then (lead - 0xC0) * 0x40 + Six(c[1])
    else if |c| == 3 then ((lead - 0xE0) * 0x40 + Six(c[1])) * 0x40 + Six(c[2])
    else (((lead - 0xF0) * 0x40 + Six(c[1])) * 0x40 + Six(c[2])) * 0x40 + Six(c[3])
  }

  lemma SixBitGroups(x: nat, a: nat, b: nat, c: nat)
    requires a < 0x40 && b < 0x40 && c < 0x40
    ensures var v := x * 0x40 + a; v / 0x40 == x && v % 0x40 == a
    ensures var v := (x * 0x40 + a) * 0x40 + b; v / 0x1000 == x && v / 0x40 == x * 0x40 + a && v % 0x40 == b
    ensures var v := ((x * 0x40 + a) * 0x40 + b) * 0x40 + c;
      v / 0x4_0000 == x && v / 0x1000 == x * 0x40 + a && v / 0x40 == (x * 0x40 + a) * 0x40 + b && v % 0x40 == c
  {
  }

  lemma TwoByteChar(c: seq<byte>)
    requires Char(c) && |c| == 2
    ensures Scalar(ScalarOf(c)) && Encode(ScalarOf(c)) == c
  {
    SixBitGroups(c[0] as nat - 0xC0, Six(c[1]), 0, 0);
  }

  lemma ThreeByteChar(c: seq<byte>)
    requires Char(c) && |c| == 3
    ensures Scalar(ScalarOf(c)) && Encode(ScalarOf(c)) == c
  {
    SixBitGroups(c[0] as nat - 0xE0, Six(c[1]), Six(c[2]), 0);
  }

  lemma FourByteChar(c: seq<byte>)
    requires Char(c) && |c| == 4
    ensures Scalar(ScalarOf(c)) && Encode(ScalarOf(c)) == c
  {
    SixBitGroups(c[0] as nat - 0xF0, Six(c[1]), Six(c[2]), Six(c[3]));
  }

  /** The grammar and the encoding agree: the characters are the encoded scalar values, one to one. */
  lemma CharIsEncode(c: seq<byte>)
    requires Char(c)
    ensures Scalar(ScalarOf(c)) && Encode(ScalarOf(c)) == c
  {
    if |c| == 2 {
      TwoByteChar(c);
    } else if |c| == 3 {
      ThreeByteChar(c);
    } else if |c| == 4 {
      FourByteChar(c);
    }
  }

  lemma EncodesInTwo(v: nat)
    requires 0x80 <= v < 0x800
    ensures Char(Encode(v)) && ScalarOf(Encode(v)) == v
  {
  }

  lemma EncodesInThree(v: nat)
    requires Scalar(v) && 0x800 <= v < 0x1_0000
    ensures Char(Encode(v)) && ScalarOf(Encode(v)) == v
  {
    var a, b := v / 0x40, v / 0x1000;
    assert v == a * 0x40 + v % 0x40 && a == b * 0x40 + a % 0x40;
    assert Encode(v) == [0xE0 + b, 0x80 + a % 0x40, 0x80 + v % 0x40];
  }

  lemma EncodesInFour(v: nat)
    requires Scalar(v) && 0x1_0000 <= v
    ensures Char(Encode(v)) && ScalarOf(Encode(v)) == v
  {
    var a, b, c := v / 0x40, v / 0x1000, v / 0x4_0000;
    assert v == a * 0x40 + v % 0x40 && a == b * 0x40 + a % 0x40 && b == c * 0x40 + b % 0x40;
    assert Encode(v) == [0xF0 + c, 0x80 + b % 0x40, 0x80 + a % 0x40, 0x80 + v % 0x40];
  }

  lemma EncodeIsChar(v: nat)
    requires Scalar(v)
    ensures Char(Encode(v)) && ScalarOf(Encode(v)) == v
  {
    hide Char, ScalarOf, Encode;
    if v < 0x80 {
      EncodesInOne(v);
    } else if v < 0x800 {
      EncodesInTwo(v);
    } else if v < 0x1_0000 {
      EncodesInThree(v);
    } else {
      EncodesInFour(v);
    }
  }

  lemma EncodesInOne(v: nat)
    requires v < 0x80
    ensures Char(Encode(v)) && ScalarOf(Encode(v)) == v
  {
  }

  lemma CodePointsCons(d: Decoder, b: byte, more: seq<byte>)
    ensures CodePoints(d, [b] + more)
         == (if DecodeByte(d, b).state == ACCEPT then [DecodeByte(d, b).codep] else [])
          + CodePoints(DecodeByte(d, b), more)
  {
    assert ([b] + more)[1..] == more;
  }

  lemma DecodesLead(d: Decoder, b: byte)
    requires d.state == ACCEPT && 0xC2 <= b <= 0xF4
    ensures DecodeByte(d, b) ==
      if b < 0xE0 then Decoder(2, b - 0xC0)
      else if b < 0xF0 then Decoder(if b == 0xE0 then 4 else if b == 0xED then 5 else 3, b - 0xE0)
      else Decoder(if b == 0xF0 then 6 else if b == 0xF4 then 8 else 7, b - 0xF0)
  {
    hide Class;
    ClassRanges(b);
    LeadMasks(b);
  }

  lemma LeadMasks(b: byte)
    requires 0xC2 <= b <= 0xF4
    ensures (if b < 0xE0 then b - 0xC0 else if b < 0xF0 then b - 0xE0 else b - 0xF0) == b % LeadMask(Class(b))
  {
    ClassRanges(b);
    hide Class;
  }

  /** A byte the state takes adds its six bits to the code point. */
  lemma DecodesNext(d: Decoder, t: byte)
    requires d.state > 1 && Takes(d.state, t) && d.codep < 0x100_0000
    ensures DecodeByte(d, t) ==
      Decoder(if d.state == 2 then 0 else if d.state <= 5 then 2 else 3, d.codep * 0x40 + Six(t))
  {
    hide Class;
    ClassRanges(t);
  }

  lemma FinishOne(d: Decoder, t: byte, more: seq<byte>)
    requires d.state == 2 && Tail(t) && d.codep < 0x10_0000
    ensures var v := d.codep * 0x40 + Six(t); CodePoints(d, [t] + more) == [v] + CodePoints(Decoder(ACCEPT, v), more)
  {
    hide DecodeByte, Class, CodePoints;
    DecodesNext(d, t);
    CodePointsCons(d, t, more);
  }

  lemma FinishTwo(d: Decoder, t: byte, u: byte, more: seq<byte>)
    requires 3 <= d.state <= 5 && Takes(d.state, t) && Tail(u) && d.codep < 0x1000
    ensures var v := (d.codep * 0x40 + Six(t)) * 0x40 + Six(u);
      CodePoints(d, [t] + ([u] + more)) == [v] + CodePoints(Decoder(ACCEPT, v), more)
  {
    hide DecodeByte, Class, CodePoints;
    DecodesNext(d, t);
    CodePointsCons(d, t, [u] + more);
    FinishOne(DecodeByte(d, t), u, more);
  }

  lemma FinishThree(d: Decoder, t: byte, u: byte, w: byte, more: seq<byte>)
    requires 6 <= d.state && Takes(d.state, t) && Tail(u) && Tail(w) && d.codep < 0x10
    ensures var v := ((d.codep * 0x40 + Six(t)) * 0x40 + Six(u)) * 0x40 + Six(w);
      CodePoints(d, [t] + ([u] + ([w] + more))) == [v] + CodePoints(Decoder(ACCEPT, v), more)
  {
    hide DecodeByte, Class, CodePoints;
    DecodesNext(d, t);
    CodePointsCons(d, t, [u] + ([w] + more));
    FinishTwo(DecodeByte(d, t), u, w, more);
  }

  lemma AsciiByte(d: Decoder, b: byte)
    requires d.state == ACCEPT && b < 0x80
    ensures DecodeByte(d, b) == Decoder(ACCEPT, b)
  {
    hide Class;
    ClassRanges(b);
  }

  lemma DecodesAscii(d: Decoder, b: byte, more: seq<byte>)
    requires d.state == ACCEPT && b < 0x80
    ensures CodePoints(d, [b] + more) == [b] + CodePoints(Decoder(ACCEPT, b), more)
  {
    hide DecodeByte, Class, CodePoints;
    AsciiByte(d, b);
    CodePointsCons(d, b, more);
  }

  /** One character brings the decoder back to accept exactly at its end, holding the scalar it encodes. */
  lemma DecodesChar(d: Decoder, c: seq<byte>, more: seq<byte>)
    requires d.state == ACCEPT && Char(c)
    ensures CodePoints(d, c + more) == [ScalarOf(c)] + CodePoints(Decoder(ACCEPT, ScalarOf(c)), more)
  {
    hide DecodeByte, Class, CodePoints;
    if |c| == 1 {
      assert c == [c[0]];
      DecodesAscii(d, c[0], more);
    } else {
      DecodesLead(d, c[0]);
      var d' := DecodeByte(d, c[0]);
      if |c| == 2 {
        assert c + more == [c[0]] + ([c[1]] + more);
        CodePointsCons(d, c[0], [c[1]] + more);
        FinishOne(d', c[1], more);
      } else if |c| == 3 {
        assert c + more == [c[0]] + ([c[1]] + ([c[2]] + more));
        CodePointsCons(d, c[0], [c[1]] + ([c[2]] + more));
        FinishTwo(d', c[1], c[2], more);
      } else {
        assert c + more == [c[0]] + ([c[1]] + ([c[2]] + ([c[3]] + more)));
        CodePointsCons(d, c[0], [c[1]] + ([c[2]] + ([c[3]] + more)));
        FinishThree(d', c[1], c[2], c[3], more);
      }
    }
  }

  lemma {:induction false} DecodesAll(d: Decoder, vs: seq<nat>)
    requires d.state == ACCEPT && AllScalars(vs)
    ensures CodePoints(d, EncodeAll(vs)) == vs
    decreases |vs|
  {
    if vs != [] {
      EncodeIsChar(vs[0]);
      DecodesChar(d, Encode(vs[0]), EncodeAll(vs[1..]));
      DecodesAll(Decoder(ACCEPT, vs[0]), vs[1..]);
    }
  }

  lemma {:induction false} CharsAreEncodings(cs: seq<seq<byte>>) returns (vs: seq<nat>)
    requires AllChars(cs)
    ensures AllScalars(vs) && EncodeAll(vs) == Flatten(cs)
  {
    hide Char, Encode, Scalar;
    if cs == [] {
      vs := [];
    } else {
      CharIsEncode(cs[0]);
      var rest := CharsAreEncodings(cs[1..]);
      vs := [ScalarOf(cs[0])] + rest;
      assert vs[1..] == rest;
    }
  }

  lemma {:induction false} EncodingsAreOctets(vs: seq<nat>)
    requires AllScalars(vs)
    ensures Octets(EncodeAll(vs))
  {
    hide Char, Encode, Scalar;
    if vs == [] {
      OctetsEmpty();
    } else {
      EncodeIsChar(vs[0]);
      EncodingsAreOctets(vs[1..]);
      OctetsCons(Encode(vs[0]), EncodeAll(vs[1..]));
    }
  }

  /**
   The grammar of section 4 describes exactly the encodings of section 3, and what is read from them
   is what was encoded.
   */
  lemma ValidIsEncoded(s: seq<byte>, codep: nat)
    ensures Run(Decoder(ACCEPT, codep), s).state == ACCEPT <==> exists vs :: AllScalars(vs) && EncodeAll(vs) == s
    ensures var vs := CodePoints(Decoder(ACCEPT, codep), s); Octets(s) ==> AllScalars(vs) && EncodeAll(vs) == s
  {
    hide Run, CodePoints;
    AcceptsExactly(s, codep);
    if Octets(s) {
      var cs: seq<seq<byte>> :| AllChars(cs) && Flatten(cs) == s;
      var vs := CharsAreEncodings(cs);
      DecodesAll(Decoder(ACCEPT, codep), vs);
    }
    forall vs | AllScalars(vs) && EncodeAll(vs) == s ensures Octets(s) {
      EncodingsAreOctets(vs);
    }
  }

  /** A message validated piece by piece, as it arrives, is valid exactly when the whole of it is. */
  method ValidatePieces(pieces: seq<seq<byte>>) returns (valid: bool)
    ensures valid <==> Octets(Flatten(pieces))
  {
    hide Run;
    var v := new Validator();
    var k := 0;
    AcceptsExactly(Flatten(pieces), 0);
    RunNothing(Decoder(ACCEPT, 0));
    while k < |pieces|
      invariant 0 <= k <= |pieces| && fresh(v)
      invariant v.Value() == Run(Decoder(ACCEPT, 0), Flatten(pieces[..k]))
    {
      FlattenAppend(pieces[..k], [pieces[k]]);
      assert pieces[..k + 1] == pieces[..k] + [pieces[k]] && Flatten([pieces[k]]) == pieces[k];
      RunConcat(Decoder(ACCEPT, 0), Flatten(pieces[..k]), pieces[k]);
      var ok := v.Decode(pieces[k]);
      if !ok {
        FlattenAppend(pieces[..k + 1], pieces[k + 1..]);
        assert pieces[..k + 1] + pieces[k + 1..] == pieces;
        RunConcat(Decoder(ACCEPT, 0), Flatten(pieces[..k + 1]), Flatten(pieces[k + 1..]));
        RejectAbsorbs(Run(Decoder(ACCEPT, 0), Flatten(pieces[..k + 1])), Flatten(pieces[k + 1..]));
        return false;
      }
      k := k + 1;
    }
    assert pieces[..k] == pieces;
    valid := v.Complete();
  }

  lemma RunNothing(d: Decoder)
    ensures Run(d, []) == d
  {
  }
}
