/**
 The buffering, length arithmetic and padding of websocketpp/common/md5.hpp, for any compression
 function: what it compresses is the padded message of RFC 1321, however the message arrives.
 */
module Md5 {
  import opened Bytes

  /** Four 32-bit words. */
  type Digest = d: seq<nat> | |d| == 4 && forall i :: 0 <= i < 4 ==> d[i] < WORD witness [0, 0, 0, 0]

  /** md5_process, whose sixty-four rounds are left open. */
  type Process = (Digest, seq<byte>) -> Digest

  const INITIAL: Digest := [0x67452301, 0xefcdab89, 0x98badcfe, 0x10325476]
  const WORD: nat := 0x1_0000_0000
  const BITS: nat := 0x1_0000_0000_0000_0000

  // ---- RFC 1321 ----

  /** Whole blocks compressed one after another, and what is left over. */
  function Absorb(f: Process, d: Digest, s: seq<byte>): (Digest, seq<byte>)
    decreases |s|
  {
    if |s| < 64 then (d, s) else Absorb(f, f(d, s[..64]), s[64..])
  }

  /** Low-order byte first. */
  function LittleEndian(n: nat, k: nat): (s: seq<byte>)
    ensures |s| == k
  {
    if k == 0 then [] else [n % 256] + LittleEndian(n / 256, k - 1)
  }

  /** How many zeros section 3.1 puts after the 0x80. */
  function ZeroCount(length: nat): (k: nat)
    ensures k < 64 && (length + 1 + k) % 64 == 56
  {
    (119 - length % 64) % 64
  }

  /** Sections 3.1 and 3.2: a one bit, zeros, and the length in bits modulo 2^64. */
  function Padded(m: seq<byte>): seq<byte> {
    m + ([0x80] + Zeros(ZeroCount(|m|))) + LittleEndian(8 * |m| % BITS, 8)
  }

  /** Section 3.5: the four words, low-order byte first. */
  function Output(d: Digest): (s: seq<byte>)
    ensures |s| == 16
  {
    LittleEndian(d[0], 4) + LittleEndian(d[1], 4) + LittleEndian(d[2], 4) + LittleEndian(d[3], 4)
  }

  /** The message digest. */
  function Hash(f: Process, m: seq<byte>): seq<byte> {
    Output(Absorb(f, INITIAL, Padded(m)).0)
  }

  lemma {:induction false} AbsorbConcat(f: Process, d: Digest, a: seq<byte>, b: seq<byte>)
    ensures Absorb(f, Absorb(f, d, a).0, Absorb(f, d, a).1 + b) == Absorb(f, d, a + b)
    decreases |a|
  {
    if |a| >= 64 {
      assert (a + b)[..64] == a[..64] && (a + b)[64..] == a[64..] + b;
      AbsorbConcat(f, f(d, a[..64]), a[64..], b);
    }
  }

  lemma {:induction false} AbsorbLeftover(f: Process, d: Digest, s: seq<byte>)
    ensures |Absorb(f, d, s).1| == |s| % 64
    decreases |s|
  {
    if |s| >= 64 {
      AbsorbLeftover(f, f(d, s[..64]), s[64..]);
    }
  }

  lemma AbsorbShort(f: Process, d: Digest, s: seq<byte>)
    requires |s| < 64
    ensures Absorb(f, d, s) == (d, s)
  {
  }

  lemma AbsorbBlock(f: Process, d: Digest, s: seq<byte>)
    requires |s| >= 64
    ensures Absorb(f, d, s) == Absorb(f, f(d, s[..64]), s[64..])
  {
  }

  lemma PaddedIsWholeBlocks(m: seq<byte>)
    ensures |Padded(m)| % 64 == 0
    ensures |m| + 9 <= |Padded(m)| < |m| + 73
  {
    var n, k := |m|, ZeroCount(|m|);
    hide ZeroCount;
    Modulo(n + 9 + k, 64, 0, (n + 1 + k) / 64 + 1);
  }

  lemma FourBytes(n: nat)
    ensures LittleEndian(n, 4) == [n % 256, n / 0x100 % 256, n / 0x1_0000 % 256, n / 0x100_0000 % 256]
  {
    assert n / 256 / 256 == n / 0x1_0000 && n / 0x1_0000 / 256 == n / 0x100_0000;
    assert LittleEndian(n / 0x100_0000, 1) == [n / 0x100_0000 % 256];
    assert LittleEndian(n / 0x1_0000, 2) == [n / 0x1_0000 % 256, n / 0x100_0000 % 256];
    assert LittleEndian(n / 0x100, 3) == [n / 0x100 % 256, n / 0x1_0000 % 256, n / 0x100_0000 % 256];
  }

  /** Section 3.3 gives the initial words as bytes, low-order first. */
  lemma InitialBytes()
    ensures Output(INITIAL) == [0x01, 0x23, 0x45, 0x67, 0x89, 0xab, 0xcd, 0xef,
                                0xfe, 0xdc, 0xba, 0x98, 0x76, 0x54, 0x32, 0x10]
  {
    hide LittleEndian;
    FourBytes(INITIAL[0]);
    FourBytes(INITIAL[1]);
    FourBytes(INITIAL[2]);
    FourBytes(INITIAL[3]);
  }

  /** The padded message, byte for byte: 0x80 behind it, zeros, and the length in bits in the last eight bytes. */
  lemma PaddedLayout(m: seq<byte>)
    ensures var p := Padded(m);
      && |p| % 64 == 0 && |m| + 9 <= |p| < |m| + 73
      && p[..|m|] == m && p[|m|] == 0x80 && (forall i :: |m| < i < |p| - 8 ==> p[i] == 0)
      && forall j: nat :: j < 8 ==> p[|p| - 8 + j] == Digit(8 * |m| % BITS, j)
  {
    PaddedIsWholeBlocks(m);
    hide LittleEndian, ZeroCount;
    forall j: nat | j < 8 ensures LittleEndian(8 * |m| % BITS, 8)[j] == Digit(8 * |m| % BITS, j) {
      LittleEndianDigit(8 * |m| % BITS, 8, j);
    }
  }

  /** Blocks are compressed in order, each into what the one before it left. */
  lemma BlocksInOrder(f: Process, d: Digest, a: seq<byte>, b: seq<byte>)
    requires |a| == |b| == 64
    ensures Absorb(f, d, a + b) == (f(f(d, a), b), [])
  {
    assert (a + b)[..64] == a && (a + b)[64..] == b;
    AbsorbBlock(f, d, a + b);
    AbsorbBlock(f, f(d, a), b);
    assert b[..64] == b;
  }

  // ---- The streaming state ----

  /** abcd, the used part of buf, and the sixty-four bit count. */
  datatype State = State(abcd: Digest, tail: seq<byte>, bits: nat)

  const START: State := State(INITIAL, [], 0)

  /** The state is what one pass over m leaves. */
  ghost predicate After(f: Process, s: State, m: seq<byte>) {
    (s.abcd, s.tail) == Absorb(f, INITIAL, m) && s.bits == 8 * |m| % BITS
  }

  function Appended(f: Process, s: State, data: seq<byte>): State {
    var (abcd, tail) := Absorb(f, s.abcd, s.tail + data);
    State(abcd, tail, (s.bits + 8 * |data|) % BITS)
  }

  function AppendedAll(f: Process, s: State, parts: seq<seq<byte>>): State
    decreases |parts|
  {
    if parts == [] then s else AppendedAll(f, Appended(f, s, parts[0]), parts[1..])
  }

  lemma BitsAdd(a: nat, b: nat)
    ensures (8 * a % BITS + 8 * b) % BITS == 8 * (a + b) % BITS
  {
    var x, q := 8 * a % BITS, 8 * a / BITS;
    Modulo(8 * (a + b), BITS, (x + 8 * b) % BITS, q + (x + 8 * b) / BITS);
  }

  /** Quotient and remainder are what they are. */
  lemma Modulo(x: int, m: nat, r: nat, q: int)
    requires m == 8 || m == 64 || m == WORD || m == BITS
    requires r < m
    requires x == r + if m == 8 then 8 * q else if m == 64 then 64 * q else if m == WORD then WORD * q else BITS * q
    ensures x % m == r && x / m == q
  {
  }

  /** One append moves from one message to the longer one. */
  lemma AppendExtends(f: Process, s: State, m: seq<byte>, data: seq<byte>)
    requires After(f, s, m)
    ensures After(f, Appended(f, s, data), m + data)
  {
    AbsorbConcat(f, INITIAL, m, data);
    BitsAdd(|m|, |data|);
  }

  /** However a message is cut, the digest words, the buffered tail and the bit count are those of one append. */
  lemma {:induction false} StreamingIsOneShot(f: Process, s: State, m: seq<byte>, parts: seq<seq<byte>>)
    requires After(f, s, m)
    ensures After(f, AppendedAll(f, s, parts), m + Flatten(parts))
    ensures AppendedAll(f, s, parts) == Appended(f, s, Flatten(parts))
    decreases |parts|
  {
    hide Absorb;
    AppendExtends(f, s, m, Flatten(parts));
    if parts == [] {
      assert m + [] == m;
    } else {
      AppendExtends(f, s, m, parts[0]);
      StreamingIsOneShot(f, Appended(f, s, parts[0]), m + parts[0], parts[1..]);
      assert m + parts[0] + Flatten(parts[1..]) == m + Flatten(parts);
    }
  }

  /** The length of the padding as md5_finish computes it from the low word of the count. */
  function PadLength(bits: nat): nat {
    var low := bits % WORD / 8;
    (55 - low) % WORD % 64 + 1
  }

  lemma LowWord(n: nat)
    ensures 8 * n % BITS % WORD / 8 % 64 == n % 64
  {
    var bits, q := 8 * n % BITS, 8 * n / BITS;
    var low, k := bits % WORD, bits / WORD;
    var l := n - 0x2000_0000 * (k + WORD * q);
    assert low == 8 * l;
    Modulo(low, 8, 0, l);
    Modulo(l, 64, n % 64, n / 64 - 0x80_0000 * (k + WORD * q));
  }

  lemma PadLengthIsRfc(n: nat)
    ensures PadLength(8 * n % BITS) == 1 + ZeroCount(n)
  {
    LowWord(n);
    PadMod(8 * n % BITS % WORD / 8, n);
  }

  lemma PadMod(low: nat, n: nat)
    requires low % 64 == n % 64 && low < WORD
    ensures (55 - low) % WORD % 64 == (119 - n % 64) % 64
  {
    var w, k := (55 - low) % WORD, (55 - low) / WORD;
    var a, b := (119 - n % 64) % 64, (119 - n % 64) / 64;
    Modulo(w, 64, a, b - 1 - low / 64 - 0x400_0000 * k);
  }

  const PAD: seq<byte> := [0x80] + Zeros(63)

  function Finished(f: Process, s: State): State {
    Appended(f, Appended(f, s, PAD[..PadLength(s.bits)]), LittleEndian(s.bits, 8))
  }

  /** md5_finish compresses exactly the padding of the whole message and ends on a block boundary. */
  lemma FinishIsPadding(f: Process, s: State, m: seq<byte>)
    requires After(f, s, m)
    ensures Output(Finished(f, s).abcd) == Hash(f, m)
    ensures Finished(f, s).tail == []
  {
    PadLengthIsRfc(|m|);
    var pad := PAD[..PadLength(s.bits)];
    assert pad == [0x80] + Zeros(ZeroCount(|m|));
    AppendExtends(f, s, m, pad);
    AppendExtends(f, Appended(f, s, pad), m + pad, LittleEndian(s.bits, 8));
    AbsorbLeftover(f, INITIAL, Padded(m));
    PaddedIsWholeBlocks(m);
  }

  // ---- md5_state_t ----

  class Md5State {
    const process: Process
    var count0: nat
    var count1: nat
    var abcd: Digest
    const buf: array<byte>

    ghost predicate Valid()
      reads this
    {
      count0 < WORD && count1 < WORD && count0 % 8 == 0 && buf.Length == 64
    }

    function Offset(): nat
      reads this
    {
      count0 / 8 % 64
    }

    ghost function Value(): State
      requires Valid()
      reads this, buf
    {
      State(abcd, buf[..Offset()], count0 + WORD * count1)
    }

    /** md5_init. */
    constructor (process: Process)
      ensures Valid() && fresh(buf) && Value() == START && this.process == process
    {
      this.process := process;
      count0, count1, abcd := 0, 0, INITIAL;
      buf := new byte[64](_ => 0);
    }

    /** std::memcpy into buf. */
    method CopyToBuf(at: nat, data: seq<byte>)
      requires Valid() && at + |data| <= 64
      modifies buf
      ensures buf[..at] == old(buf[..at]) && buf[at..at + |data|] == data
    {
      var i := 0;
      while i < |data|
        invariant 0 <= i <= |data|
        invariant buf[..at] == old(buf[..at])
        invariant buf[at..at + i] == data[..i]
      {
        buf[at + i] := data[i];
        i := i + 1;
      }
    }

    /** The two words of the count, with the carry between them. */
    method UpdateLength(nbytes: nat)
      requires Valid()
      modifies this`count0, this`count1
      ensures Valid()
      ensures count0 + WORD * count1 == (old(count0 + WORD * count1) + 8 * nbytes) % BITS
      ensures Offset() == (old(Offset()) + nbytes) % 64
    {
      var nbits := nbytes * 8 % WORD;
      LengthArithmetic(count0, count1, nbytes);
      OffsetArithmetic(count0, nbytes);
      count1 := (count1 + nbytes / 0x2000_0000) % WORD;
      count0 := (count0 + nbits) % WORD;
      if count0 < nbits {
        count1 := (count1 + 1) % WORD;
      }
    }

    /** md5_append. */
    method Append(data: seq<byte>)
      requires Valid()
      modifies this`count0, this`count1, this`abcd, buf
      ensures Valid() && Value() == Appended(process, old(Value()), data)
    {
      hide Absorb;
      var offset := Offset();
      ghost var tail := buf[..offset];
      if |data| == 0 {
        assert tail + data == tail;
        AbsorbShort(process, abcd, tail);
        return;
      }
      UpdateLength(|data|);
      Consume(offset, data);
    }

    /** The three stages of md5_append, with buf[..offset] in use. */
    method Consume(offset: nat, data: seq<byte>)
      requires Valid() && offset < 64 && data != []
      modifies this`abcd, buf
      ensures (abcd, buf[..(offset + |data|) % 64]) == Absorb(process, old(abcd), old(buf[..offset]) + data)
    {
      hide Absorb;
      ghost var d0, tail := abcd, buf[..offset];
      AbsorbLeftover(process, d0, tail + data);
      var p := 0;
      if offset != 0 {
        var copy := if offset + |data| > 64 then 64 - offset else |data|;
        CopyToBuf(offset, data[..copy]);
        assert buf[..offset + copy] == tail + data[..copy];
        if offset + copy < 64 {
          assert data[..copy] == data;
          AbsorbShort(process, abcd, tail + data);
          return;
        }
        p := copy;
        assert (tail + data)[..64] == buf[..] && (tail + data)[64..] == data[p..];
        AbsorbBlock(process, abcd, tail + data);
        abcd := process(abcd, buf[..]);
      } else {
        assert tail + data == data[p..];
      }
      p := FullBlocks(data, p);
      AbsorbShort(process, abcd, data[p..]);
      if |data| - p != 0 {
        CopyToBuf(0, data[p..]);
      }
    }

    /** Process full blocks. */
    method FullBlocks(data: seq<byte>, from: nat) returns (p: nat)
      requires from <= |data|
      modifies this`abcd
      ensures from <= p <= |data| < p + 64
      ensures Absorb(process, abcd, data[p..]) == Absorb(process, old(abcd), data[from..])
    {
      hide Absorb;
      p := from;
      while |data| - p >= 64
        invariant from <= p <= |data|
        invariant Absorb(process, abcd, data[p..]) == Absorb(process, old(abcd), data[from..])
      {
        assert data[p..][..64] == data[p..p + 64] && data[p..][64..] == data[p + 64..];
        AbsorbBlock(process, abcd, data[p..]);
        abcd := process(abcd, data[p..p + 64]);
        p := p + 64;
      }
    }

    /** md5_finish: pad, append the length, and write out the digest. */
    method Finish() returns (digest: seq<byte>)
      requires Valid()
      modifies this`count0, this`count1, this`abcd, buf
      ensures Valid() && Value() == Finished(process, old(Value()))
      ensures digest == Output(Finished(process, old(Value())).abcd)
    {
      hide Finished, Output;
      AppendPadding();
      digest := SerializeDigest();
    }

    method AppendPadding()
      requires Valid()
      modifies this`count0, this`count1, this`abcd, buf
      ensures Valid() && Value() == Finished(process, old(Value()))
    {
      hide Absorb, LittleEndian, Appended, PadLength;
      PadLengthOfWords(count0, count1);
      var data := SerializeLength();
      var padLength := (55 - count0 / 8) % WORD % 64 + 1;
      Append(PAD[..padLength]);
      Append(data);
    }

    /** The eight bytes of the length, out of the two words. */
    method SerializeLength() returns (data: seq<byte>)
      requires Valid()
      ensures data == LittleEndian(count0 + WORD * count1, 8)
    {
      data := [];
      var i := 0;
      while i < 8
        invariant 0 <= i <= 8 && data == (LittleEndian(count0, 4) + LittleEndian(count1, 4))[..i]
      {
        LittleEndianDigit(if i < 4 then count0 else count1, 4, i % 4);
        assert (LittleEndian(count0, 4) + LittleEndian(count1, 4))[i]
            == LittleEndian(if i < 4 then count0 else count1, 4)[i % 4];
        data := data + [Digit(if i / 4 == 0 then count0 else count1, i % 4)];
        i := i + 1;
      }
      LittleEndianWords(count0, count1);
    }

    /** The sixteen bytes of the digest, out of the four words. */
    method SerializeDigest() returns (digest: seq<byte>)
      ensures digest == Output(abcd)
    {
      hide LittleEndian;
      digest := [];
      var i := 0;
      while i < 16
        invariant 0 <= i <= 16 && digest == Output(abcd)[..i]
      {
        LittleEndianDigit(abcd[i / 4], 4, i % 4);
        OutputAt(abcd, i);
        digest := digest + [Digit(abcd[i / 4], i % 4)];
        i := i + 1;
      }
    }
  }

  lemma OutputAt(d: Digest, i: nat)
    requires i < 16
    ensures Output(d)[i] == LittleEndian(d[i / 4], 4)[i % 4]
  {
  }

  /** The low byte of n >> (8 * j). */
  function Digit(n: nat, j: nat): byte {
    if j == 0 then n % 256 else Digit(n / 256, j - 1)
  }

  lemma {:induction false} LittleEndianDigit(n: nat, k: nat, j: nat)
    requires j < k
    ensures LittleEndian(n, k)[j] == Digit(n, j)
  {
    if j > 0 {
      LittleEndianDigit(n / 256, k - 1, j - 1);
    }
  }

  /** n moved up by k bytes. */
  function Up(n: nat, k: nat): nat {
    if k == 0 then n else 256 * Up(n, k - 1)
  }

  lemma {:induction false} LittleEndianSplit(low: nat, high: nat, k: nat)
    requires low < Up(1, k)
    ensures LittleEndian(low + Up(high, k), k + 4) == LittleEndian(low, k) + LittleEndian(high, 4)
  {
    if k > 0 {
      assert (low + Up(high, k)) % 256 == low % 256 && (low + Up(high, k)) / 256 == low / 256 + Up(high, k - 1);
      LittleEndianSplit(low / 256, high, k - 1);
    }
  }

  lemma LittleEndianWords(low: nat, high: nat)
    requires low < WORD
    ensures LittleEndian(low + WORD * high, 8) == LittleEndian(low, 4) + LittleEndian(high, 4)
  {
    UpFour(1);
    UpFour(high);
    LittleEndianSplit(low, high, 4);
  }

  lemma UpFour(n: nat)
    ensures Up(n, 4) == WORD * n
  {
    assert Up(n, 1) == 0x100 * n;
    assert Up(n, 2) == 0x1_0000 * n;
    assert Up(n, 3) == 0x100_0000 * n;
  }

  lemma PadLengthOfWords(low: nat, high: nat)
    requires low < WORD
    ensures PadLength(low + WORD * high) == (55 - low / 8) % WORD % 64 + 1 <= 64
  {
    Modulo(low + WORD * high, WORD, low, high);
  }

  lemma LengthArithmetic(count0: nat, count1: nat, nbytes: nat)
    requires count0 < WORD && count1 < WORD
    ensures var nbits := nbytes * 8 % WORD;
      var low := (count0 + nbits) % WORD;
      var high := (count1 + nbytes / 0x2000_0000) % WORD;
      low + WORD * (if low < nbits then (high + 1) % WORD else high) == (count0 + WORD * count1 + 8 * nbytes) % BITS
  {
    var q, rest := nbytes / 0x2000_0000, nbytes % 0x2000_0000;
    Modulo(8 * nbytes, WORD, 8 * rest, q);
    var nbits := nbytes * 8 % WORD;
    var carry := if count0 + nbits >= WORD then 1 else 0;
    var low := count0 + nbits - WORD * carry;
    Modulo(count0 + nbits, WORD, low, carry);
    var k, high := (count1 + q) / WORD, (count1 + q) % WORD;
    var wrap := if high + carry >= WORD then 1 else 0;
    Modulo(high + carry, WORD, high + carry - WORD * wrap, wrap);
    Modulo(count0 + WORD * count1 + 8 * nbytes, BITS, low + WORD * (high + carry - WORD * wrap), k + wrap);
  }

  lemma OffsetArithmetic(count0: nat, nbytes: nat)
    requires count0 < WORD && count0 % 8 == 0
    ensures var low := (count0 + nbytes * 8 % WORD) % WORD;
      low % 8 == 0 && low / 8 % 64 == (count0 / 8 % 64 + nbytes) % 64
  {
    var sum := count0 + nbytes * 8 % WORD;
    var q := nbytes * 8 / WORD + sum / WORD;
    var low := sum % WORD;
    var c := count0 / 8;
    var l := c + nbytes - 0x2000_0000 * q;
    assert low == 8 * l;
    Modulo(low, 8, 0, l);
    Modulo(c % 64 + nbytes, 64, l % 64, l / 64 + 0x80_0000 * q - c / 64);
  }

  /** md5_hash_string, for any cut of the message into appends. */
  method HashString(process: Process, parts: seq<seq<byte>>) returns (digest: seq<byte>)
    ensures digest == Hash(process, Flatten(parts))
  {
    var state := new Md5State(process);
    var k := 0;
    assert After(process, START, []);
    while k < |parts|
      invariant 0 <= k <= |parts| && state.Valid() && state.process == process && fresh(state) && fresh(state.buf)
      invariant After(process, state.Value(), Flatten(parts[..k]))
    {
      AppendExtends(process, state.Value(), Flatten(parts[..k]), parts[k]);
      FlattenAppend(parts[..k], [parts[k]]);
      assert parts[..k + 1] == parts[..k] + [parts[k]] && Flatten([parts[k]]) == parts[k];
      state.Append(parts[k]);
      k := k + 1;
    }
    assert parts[..k] == parts;
    FinishIsPadding(process, state.Value(), Flatten(parts));
    digest := state.Finish();
  }
}
