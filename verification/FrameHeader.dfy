/**
 The frame headers of section 5.2 of RFC 6455 as websocketpp/frame.hpp writes and reads them:
 two fixed bytes and an extended block of twelve that holds the long forms of the size and
 then the masking key.
 */
module FrameHeader {
  import opened Bytes
  import opened Masking

  // ---- Network byte order ----

  /** The low k bytes of n, most significant first. */
  function BigEndian(n: nat, k: nat): (s: seq<byte>)
    ensures |s| == k
  {
    if k == 0 then [] else BigEndian(n / 256, k - 1) + [n % 256]
  }

  function Value(s: seq<byte>): nat {
    if s == [] then 0
    else
      var low: nat := s[|s| - 1];
      256 * Value(s[..|s| - 1]) + low
  }

  lemma {:induction false} ValueOfBigEndian(n: nat, k: nat)
    requires n < Place(1, k)
    ensures Value(BigEndian(n, k)) == n
  {
    if k > 0 {
      ValueOfBigEndian(n / 256, k - 1);
      assert BigEndian(n, k)[..k - 1] == BigEndian(n / 256, k - 1);
    }
  }

  lemma ValueOfTwo(s: seq<byte>)
    requires |s| == 2
    ensures Value(s) == 256 * s[0] as nat + s[1] as nat
  {
    assert s[..1][..0] == [];
    assert Value(s[..1]) == s[0];
  }

  lemma {:induction false} BigEndianSuffix(n: nat, k: nat, j: nat)
    requires j <= k
    ensures BigEndian(n, k)[k - j..] == BigEndian(n, j)
  {
    if j > 0 {
      BigEndianSuffix(n / 256, k - 1, j - 1);
      assert BigEndian(n, k)[k - j..] == BigEndian(n / 256, k - 1)[k - j..] + [n % 256];
    }
  }

  // ---- Writing ----

  const PAYLOAD_SIZE_BASIC: nat := 125
  const PAYLOAD_SIZE_EXTENDED: nat := 0xFFFF
  const MAX_EXTENDED_HEADER_LENGTH: nat := 12

  type Size = n: nat | n < 0x1_0000_0000_0000_0000
  type Opcode = n: nat | n < 16

  datatype BasicHeader = BasicHeader(b0: byte, b1: byte)

  /** The fields a header carries. */
  datatype Fields = Fields(fin: bool, rsv1: bool, rsv2: bool, rsv3: bool, opcode: Opcode, size: Size)

  function SizeCode(size: Size): nat {
    if size <= PAYLOAD_SIZE_BASIC then size else if size <= PAYLOAD_SIZE_EXTENDED then 126 else 127
  }

  /** if (on) b |= flag. */
  function With(b: byte, on: bool, flag: byte): byte {
    if on then Or(b, flag) else b
  }

  /** basic_header. */
  function MakeBasic(f: Fields, mask: bool): BasicHeader {
    var flags := With(With(With(With(0, f.fin, 0x80), f.rsv1, 0x40), f.rsv2, 0x20), f.rsv3, 0x10);
    BasicHeader(Or(flags, f.opcode % 16), Or(With(0, mask, 0x80), SizeCode(f.size)))
  }

  /** Where copy_payload starts in the eight bytes of the size. */
  function PayloadOffset(size: Size): nat {
    if size <= PAYLOAD_SIZE_BASIC then 8 else if size <= PAYLOAD_SIZE_EXTENDED then 6 else 0
  }

  /** What extended_header leaves in its twelve bytes. */
  function Extended(size: Size, key: seq<byte>): (e: seq<byte>)
    requires |key| <= 4
    ensures |e| == MAX_EXTENDED_HEADER_LENGTH
  {
    var used := BigEndian(size, 8)[PayloadOffset(size)..] + key;
    used + Zeros(MAX_EXTENDED_HEADER_LENGTH - |used|)
  }

  /** Twelve bytes that hold the size, then the key, then zeros. */
  lemma Assembled(bytes: seq<byte>, size: Size, key: seq<byte>)
    requires |bytes| == 12 && |key| <= 4
    requires var from := PayloadOffset(size); var n := 8 - from;
      && (forall j :: 0 <= j < n ==> bytes[j] == BigEndian(size, 8)[from + j])
      && (forall j :: 0 <= j < |key| ==> bytes[n + j] == key[j])
      && (forall j :: n + |key| <= j < 12 ==> bytes[j] == 0)
    ensures bytes == Extended(size, key)
  {
    hide BigEndian;
    var used := BigEndian(size, 8)[PayloadOffset(size)..] + key;
    forall j | 0 <= j < 12 ensures bytes[j] == (used + Zeros(12 - |used|))[j] {
    }
  }

  class ExtendedHeader {
    const bytes: array<byte>

    /** The constructor without a key. */
    constructor (size: Size)
      ensures fresh(bytes) && bytes[..] == Extended(size, [])
    {
      hide Extended, BigEndian;
      bytes := new byte[MAX_EXTENDED_HEADER_LENGTH](_ => 0);
      new;
      var offset := CopyPayload(size);
      Assembled(bytes[..], size, []);
    }

    /** The constructor with a key. */
    constructor Masked(size: Size, key: Key)
      ensures fresh(bytes) && bytes[..] == Extended(size, key)
    {
      hide Extended, BigEndian;
      bytes := new byte[MAX_EXTENDED_HEADER_LENGTH](_ => 0);
      new;
      var offset := CopyPayload(size);
      var i := 0;
      while i < 4
        invariant 0 <= i <= 4
        invariant forall j :: 0 <= j < offset ==> bytes[j] == BigEndian(size, 8)[PayloadOffset(size) + j]
        invariant forall j :: 0 <= j < i ==> bytes[offset + j] == key[j]
        invariant forall j :: offset + i <= j < 12 ==> bytes[j] == 0
      {
        bytes[offset + i] := key[i];
        i := i + 1;
      }
      Assembled(bytes[..], size, key);
    }

    /** copy_payload: the size in network order at the front, in its shortest form. */
    method CopyPayload(size: Size) returns (length: nat)
      requires bytes.Length == 12 && forall j :: 0 <= j < 12 ==> bytes[j] == 0
      modifies bytes
      ensures length == 8 - PayloadOffset(size)
      ensures forall j :: 0 <= j < length ==> bytes[j] == BigEndian(size, 8)[PayloadOffset(size) + j]
      ensures forall j :: length <= j < 12 ==> bytes[j] == 0
    {
      hide BigEndian;
      var offset := PayloadOffset(size);
      var temp := BigEndian(size, 8);
      length := 8 - offset;
      var i := 0;
      while i < length
        invariant 0 <= i <= length
        invariant forall j :: 0 <= j < i ==> bytes[j] == temp[offset + j]
        invariant forall j :: i <= j < 12 ==> bytes[j] == 0
      {
        bytes[i] := temp[offset + i];
        i := i + 1;
      }
    }
  }

  // ---- Reading ----

  function GetFin(h: BasicHeader): bool { h.b0 / 0x80 % 2 == 1 }
  function GetRsv1(h: BasicHeader): bool { h.b0 / 0x40 % 2 == 1 }
  function GetRsv2(h: BasicHeader): bool { h.b0 / 0x20 % 2 == 1 }
  function GetRsv3(h: BasicHeader): bool { h.b0 / 0x10 % 2 == 1 }
  function GetOpcode(h: BasicHeader): Opcode { h.b0 % 0x10 }
  function GetMasked(h: BasicHeader): bool { h.b1 / 0x80 % 2 == 1 }
  function GetBasicSize(h: BasicHeader): nat { h.b1 % 0x80 }

  function GetMaskingKeyOffset(h: BasicHeader): nat {
    if GetBasicSize(h) == 126 then 2 else if GetBasicSize(h) == 127 then 8 else 0
  }

  function GetHeaderLen(h: BasicHeader): nat {
    2 + GetMaskingKeyOffset(h) + if GetMasked(h) then 4 else 0
  }

  function GetMaskingKey(h: BasicHeader, e: seq<byte>): Key
    requires |e| == MAX_EXTENDED_HEADER_LENGTH
  {
    if !GetMasked(h) then [0, 0, 0, 0]
    else e[GetMaskingKeyOffset(h)..GetMaskingKeyOffset(h) + 4]
  }

  function GetPayloadSize(h: BasicHeader, e: seq<byte>): nat
    requires |e| == MAX_EXTENDED_HEADER_LENGTH
  {
    if GetBasicSize(h) <= PAYLOAD_SIZE_BASIC then GetBasicSize(h)
    else if GetBasicSize(h) == 126 then Value(e[..2])
    else Value(e[..8])
  }

  function PrepareHeader(h: BasicHeader, e: seq<byte>): seq<byte>
    requires |e| == MAX_EXTENDED_HEADER_LENGTH
  {
    [h.b0, h.b1] + e[..GetHeaderLen(h) - 2]
  }

  // ---- What is written is what is read ----

  /** n, doubled k times. */
  function Doubled(n: nat, k: nat): nat {
    if k == 0 then n else 2 * Doubled(n, k - 1)
  }

  /** Disjoint bits: or is addition. */
  lemma {:induction false} OrDisjoint(high: nat, low: nat, k: nat)
    requires low < Doubled(1, k)
    ensures OrNat(Doubled(high, k), low) == Doubled(high, k) + low
  {
    if k == 0 {
      OrNatZero(high);
    } else {
      OrDisjoint(high, low / 2, k - 1);
    }
  }

  lemma OrAbove(high: nat, low: nat)
    ensures low < 0x80 ==> OrNat(0x80 * high, low) == 0x80 * high + low
    ensures low < 0x40 ==> OrNat(0x40 * high, low) == 0x40 * high + low
    ensures low < 0x20 ==> OrNat(0x20 * high, low) == 0x20 * high + low
    ensures low < 0x10 ==> OrNat(0x10 * high, low) == 0x10 * high + low
  {
    hide OrNat;
    DoubledIsProduct(high);
    DoubledIsProduct(1);
    if low < 0x80 { OrDisjoint(high, low, 7); }
    if low < 0x40 { OrDisjoint(high, low, 6); }
    if low < 0x20 { OrDisjoint(high, low, 5); }
    if low < 0x10 { OrDisjoint(high, low, 4); }
  }

  lemma DoubledIsProduct(n: nat)
    ensures Doubled(n, 4) == 0x10 * n && Doubled(n, 5) == 0x20 * n
    ensures Doubled(n, 6) == 0x40 * n && Doubled(n, 7) == 0x80 * n
  {
    assert Doubled(n, 1) == 2 * n;
    assert Doubled(n, 2) == 4 * n;
    assert Doubled(n, 3) == 8 * n;
    assert Doubled(n, 4) == 16 * n;
    assert Doubled(n, 5) == 32 * n;
    assert Doubled(n, 6) == 64 * n;
  }

  function Bit(b: bool): nat {
    if b then 1 else 0
  }

  /** The flags and the opcode, each at its place. */
  function FirstByte(f: Fields): nat {
    0x80 * Bit(f.fin) + 0x40 * Bit(f.rsv1) + 0x20 * Bit(f.rsv2) + 0x10 * Bit(f.rsv3) + f.opcode
  }

  lemma WithAbove(high: nat, on: bool)
    requires high < 8
    ensures With(0, on, 0x80) == 0x80 * Bit(on)
    ensures high < 2 ==> With(0x80 * high, on, 0x40) == 0x80 * high + 0x40 * Bit(on)
    ensures high < 4 ==> With(0x40 * high, on, 0x20) == 0x40 * high + 0x20 * Bit(on)
    ensures With(0x20 * high, on, 0x10) == 0x20 * high + 0x10 * Bit(on)
  {
    hide OrNat;
    OrAbove(high, 0x40);
    OrAbove(high, 0x20);
    OrAbove(high, 0x10);
    OrNatZero(0x80);
  }

  lemma FirstByteOr(f: Fields, mask: bool)
    ensures MakeBasic(f, mask).b0 == FirstByte(f)
  {
    hide Or, With;
    var fin, rsv1, rsv2, rsv3 := Bit(f.fin), Bit(f.rsv1), Bit(f.rsv2), Bit(f.rsv3);
    WithAbove(0, f.fin);
    WithAbove(fin, f.rsv1);
    WithAbove(2 * fin + rsv1, f.rsv2);
    WithAbove(4 * fin + 2 * rsv1 + rsv2, f.rsv3);
    OpcodeOr(8 * fin + 4 * rsv1 + 2 * rsv2 + rsv3, f.opcode);
  }

  lemma OpcodeOr(flags: nat, opcode: Opcode)
    requires flags < 16
    ensures Or(0x10 * flags, opcode) == 0x10 * flags + opcode
  {
    hide OrNat;
    OrAbove(flags, opcode);
  }

  lemma SecondByteOr(f: Fields, mask: bool)
    ensures MakeBasic(f, mask).b1 == 0x80 * Bit(mask) + SizeCode(f.size)
  {
    hide OrNat;
    ZeroIsNeutral(0x80);
    OrAbove(Bit(mask), SizeCode(f.size));
  }

  lemma BasicFields(f: Fields, mask: bool)
    ensures var h := MakeBasic(f, mask);
      && GetFin(h) == f.fin && GetRsv1(h) == f.rsv1 && GetRsv2(h) == f.rsv2 && GetRsv3(h) == f.rsv3
      && GetOpcode(h) == f.opcode && GetMasked(h) == mask && GetBasicSize(h) == SizeCode(f.size)
  {
    FirstByteOr(f, mask);
    SecondByteOr(f, mask);
    hide MakeBasic;
    var b0: nat := MakeBasic(f, mask).b0;
    var fin, rsv1, rsv2, rsv3 := Bit(f.fin), Bit(f.rsv1), Bit(f.rsv2), Bit(f.rsv3);
    assert b0 / 0x80 == fin;
    assert b0 / 0x40 == 2 * fin + rsv1;
    assert b0 / 0x20 == 4 * fin + 2 * rsv1 + rsv2;
    assert b0 / 0x10 == 8 * fin + 4 * rsv1 + 2 * rsv2 + rsv3;
  }

  /** A header with its key, or without one, in the bytes that go out. */
  function Header(f: Fields, mask: bool, key: Key): seq<byte> {
    PrepareHeader(MakeBasic(f, mask), Extended(f.size, if mask then key else []))
  }

  /** The layout of section 5.2: two bytes, the size in its shortest form, the key if there is one. */
  lemma HeaderLayout(f: Fields, mask: bool, key: Key)
    ensures Header(f, mask, key) ==
      [MakeBasic(f, mask).b0, MakeBasic(f, mask).b1]
      + (if f.size <= 125 then [] else if f.size <= 0xFFFF then BigEndian(f.size, 2) else BigEndian(f.size, 8))
      + (if mask then key else [])
  {
    BasicFields(f, mask);
    BigEndianSuffix(f.size, 8, 8 - PayloadOffset(f.size));
    var used := BigEndian(f.size, 8)[PayloadOffset(f.size)..] + (if mask then key else []);
    assert Extended(f.size, if mask then key else [])[..|used|] == used;
  }

  /**
   Every reader recovers its field from the bytes that were sent, whatever fills the rest of
   the extended block, and the bytes are exactly as many as get_header_len announces.
   */
  lemma HeaderRoundTrip(f: Fields, mask: bool, key: Key, e: seq<byte>)
    requires |e| == MAX_EXTENDED_HEADER_LENGTH
    requires Header(f, mask, key)[2..] <= e
    ensures |Header(f, mask, key)| == GetHeaderLen(BasicHeader(Header(f, mask, key)[0], Header(f, mask, key)[1]))
    ensures var h := BasicHeader(Header(f, mask, key)[0], Header(f, mask, key)[1]);
      && Fields(GetFin(h), GetRsv1(h), GetRsv2(h), GetRsv3(h), GetOpcode(h), f.size) == f
      && GetMasked(h) == mask
      && GetPayloadSize(h, e) == f.size
      && GetMaskingKey(h, e) == if mask then key else [0, 0, 0, 0]
  {
    BasicFields(f, mask);
    HeaderLayout(f, mask, key);
    hide MakeBasic, Header, Or, Extended;
    PlaceIsProduct(1);
    var wire := Header(f, mask, key)[2..];
    assert e[..|wire|] == wire;
    if 125 < f.size <= 0xFFFF {
      assert Place(1, 1) == 256 && Place(1, 2) == 0x1_0000;
      ValueOfBigEndian(f.size, 2);
      assert e[..2] == wire[..2] == BigEndian(f.size, 2);
    } else if f.size > 0xFFFF {
      ValueOfBigEndian(f.size, 8);
      assert e[..8] == wire[..8] == BigEndian(f.size, 8);
    }
  }
}
