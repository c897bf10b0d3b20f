/**
 Payload masking of section 5.3 of RFC 6455, as websocketpp/frame.hpp does it: byte by byte,
 word by word over a complete buffer, and word by word or byte by byte over a stream of
 buffers with a key that is rotated from one buffer to the next.

 A machine is a word width (four or eight bytes) and a byte order. Every statement below is
 for both widths and both orders.
 */
module Masking {
  import opened Bytes

  /** A size_t or uint32_t: its base-256 digits, least significant first. */
  type Word = w: seq<byte> | |w| == 4 || |w| == 8 witness [0, 0, 0, 0]

  /** A four-byte masking key in memory order: the member c of uint32_converter. */
  type Key = k: seq<byte> | |k| == 4 witness [0, 0, 0, 0]

  // ---- Words: shifts by whole bytes, and what they mean as arithmetic ----

  function Reverse(s: seq<byte>): (r: seq<byte>)
    ensures |r| == |s| && forall j :: 0 <= j < |s| ==> r[j] == s[|s| - 1 - j]
  {
    seq(|s|, j requires 0 <= j < |s| => s[|s| - 1 - j])
  }

  /** The bytes of a word in the order they lie in memory, and back again. */
  function Memory(w: Word, little: bool): (m: Word)
    ensures |m| == |w|
  {
    if little then w else Reverse(w)
  }

  function Shr(w: Word, n: nat): (r: Word)
    requires n < |w|
    ensures |r| == |w|
  {
    w[n..] + Zeros(n)
  }

  function Shl(w: Word, n: nat): (r: Word)
    requires n < |w|
    ensures |r| == |w|
  {
    Zeros(n) + w[..|w| - n]
  }

  function WordOr(a: Word, b: Word): (r: Word)
    requires |a| == |b|
    ensures |r| == |a| && forall j :: 0 <= j < |a| ==> r[j] == Or(a[j], b[j])
  {
    seq(|a|, j requires 0 <= j < |a| => Or(a[j], b[j]))
  }

  function WordXor(a: Word, b: Word): (r: Word)
    requires |a| == |b|
    ensures |r| == |a| && forall j :: 0 <= j < |a| ==> r[j] == Xor(a[j], b[j])
  {
    seq(|a|, j requires 0 <= j < |a| => Xor(a[j], b[j]))
  }

  /** The number the digits of d stand for, from digit i on. */
  function Number(d: seq<byte>, i: nat): nat
    requires i <= |d|
    decreases |d| - i
  {
    if i == |d| then 0 else d[i] + 256 * Number(d, i + 1)
  }

  /** digit moved up by m places. */
  function Place(digit: nat, m: nat): nat {
    if m == 0 then digit else 256 * Place(digit, m - 1)
  }

  lemma {:induction false} NumberShr(w: Word, i: nat)
    requires i < |w|
    ensures Number(Shr(w, 1), i) == Number(w, i + 1)
    decreases |w| - i
  {
    if i + 1 < |w| {
      NumberShr(w, i + 1);
    } else {
      assert Shr(w, 1)[i] == 0;
    }
  }

  lemma {:induction false} NumberShl(w: Word, i: nat)
    requires i < |w|
    ensures Number(w, i) == Number(Shl(w, 1), i + 1) + Place(w[|w| - 1], |w| - 1 - i)
    decreases |w| - i
  {
    if i + 1 < |w| {
      NumberShl(w, i + 1);
      assert Shl(w, 1)[i + 1] == w[i];
    }
  }

  lemma {:induction false} NumberBound(d: seq<byte>, i: nat)
    requires i <= |d|
    ensures Number(d, i) < Place(1, |d| - i)
    decreases |d| - i
  {
    if i < |d| {
      NumberBound(d, i + 1);
    }
  }

  /** One past the largest value of a word. */
  function Modulus(w: Word): nat {
    if |w| == 4 then 0x1_0000_0000 else 0x1_0000_0000_0000_0000
  }

  lemma PlaceIsProduct(digit: nat)
    ensures Place(digit, 4) == digit * 0x1_0000_0000
    ensures Place(digit, 8) == digit * 0x1_0000_0000_0000_0000
  {
    assert Place(digit, 1) == 0x100 * digit;
    assert Place(digit, 2) == 0x1_0000 * digit;
    assert Place(digit, 3) == 0x100_0000 * digit;
    assert Place(digit, 4) == 0x1_0000_0000 * digit;
    assert Place(digit, 5) == 0x100_0000_0000 * digit;
    assert Place(digit, 6) == 0x1_0000_0000_0000 * digit;
    assert Place(digit, 7) == 0x100_0000_0000_0000 * digit;
  }

  lemma ByteShrIsArithmetic(w: Word)
    ensures Number(Shr(w, 1), 0) == Number(w, 0) / 256
  {
    NumberShr(w, 0);
    assert Number(w, 0) == w[0] + 256 * Number(w, 1);
  }

  lemma ByteShlIsArithmetic(w: Word)
    ensures Number(Shl(w, 1), 0) == (256 * Number(w, 0)) % Modulus(w)
  {
    var top: nat, shifted := w[|w| - 1], Shl(w, 1);
    NumberShl(w, 0);
    NumberBound(shifted, 0);
    PlaceIsProduct(top);
    PlaceIsProduct(1);
    assert Number(shifted, 0) == 256 * Number(shifted, 1) by { assert shifted[0] == 0; }
    assert 256 * Place(top, |w| - 1) == Place(top, |w|);
    Wrap(256 * Number(w, 0), Number(shifted, 0), top, Modulus(w));
  }

  lemma Wrap(x: nat, y: nat, times: nat, modulus: nat)
    requires x == y + times * modulus && y < modulus
    requires modulus == 0x1_0000_0000 || modulus == 0x1_0000_0000_0000_0000
    ensures x % modulus == y
  {
    if modulus == 0x1_0000_0000 {
      assert x == y + times * 0x1_0000_0000;
    } else {
      assert x == y + times * 0x1_0000_0000_0000_0000;
    }
  }

  /** Longer shifts are one-byte shifts repeated. */
  lemma ShiftsCompose(w: Word, n: nat)
    requires 0 < n < |w|
    ensures Shr(w, n) == Shr(Shr(w, n - 1), 1)
    ensures Shl(w, n) == Shl(Shl(w, n - 1), 1)
  {
  }

  /** Dividing by one more factor of 256. */
  lemma DivideOnce(x: nat, n: nat)
    requires n < 8
    ensures Place(1, n) > 0 && x / Place(1, n) / 256 == x / Place(1, n + 1)
  {
    Places(1);
    var y := x / Place(1, n);
    assert n == 0 || n == 1 || n == 2 || n == 3 || n == 4 || n == 5 || n == 6 || n == 7;
  }

  /** 256 to the n, spelled out. */
  lemma Places(digit: nat)
    ensures Place(digit, 0) == digit && Place(digit, 1) == 0x100 * digit && Place(digit, 2) == 0x1_0000 * digit
    ensures Place(digit, 3) == 0x100_0000 * digit && Place(digit, 4) == 0x1_0000_0000 * digit
    ensures Place(digit, 5) == 0x100_0000_0000 * digit && Place(digit, 6) == 0x1_0000_0000_0000 * digit
    ensures Place(digit, 7) == 0x100_0000_0000_0000 * digit && Place(digit, 8) == 0x1_0000_0000_0000_0000 * digit
  {
    PlaceIsProduct(digit);
    assert Place(digit, 1) == 256 * Place(digit, 0);
    assert Place(digit, 2) == 256 * Place(digit, 1);
    assert Place(digit, 3) == 256 * Place(digit, 2);
    assert Place(digit, 5) == 256 * Place(digit, 4);
    assert Place(digit, 6) == 256 * Place(digit, 5);
    assert Place(digit, 7) == 256 * Place(digit, 6);
  }

  /** Wrapping around before a multiplication makes no difference to wrapping around after it. */
  lemma WrapOnce(x: nat, modulus: nat)
    requires modulus == 0x1_0000_0000 || modulus == 0x1_0000_0000_0000_0000
    ensures 256 * (x % modulus) % modulus == 256 * x % modulus
  {
    var r, q := x % modulus, x / modulus;
    var r', q' := 256 * r % modulus, 256 * r / modulus;
    if modulus == 0x1_0000_0000 {
      assert 256 * x == r' + (q' + 256 * q) * 0x1_0000_0000;
    } else {
      assert 256 * x == r' + (q' + 256 * q) * 0x1_0000_0000_0000_0000;
    }
    Wrap(256 * x, r', q' + 256 * q, modulus);
  }

  /**
   Shifting a word by any number of bytes, as the source does with offset * 8 bits: to the right it
   is division by 256 to the n, to the left multiplication by it that wraps around.
   */
  lemma {:induction false} ByteShiftIsArithmetic(w: Word, n: nat)
    requires n < |w|
    ensures Place(1, n) > 0
    ensures Number(Shr(w, n), 0) == Number(w, 0) / Place(1, n)
    ensures Number(Shl(w, n), 0) == Place(Number(w, 0), n) % Modulus(w)
    decreases n
  {
    if n == 0 {
      assert Shr(w, 0) == w && Shl(w, 0) == w;
      NumberBound(w, 0);
      PlaceIsProduct(1);
    } else {
      ByteShiftIsArithmetic(w, n - 1);
      ShiftsCompose(w, n);
      hide Number, Shr, Shl;
      ByteShrIsArithmetic(Shr(w, n - 1));
      ByteShlIsArithmetic(Shl(w, n - 1));
      DivideOnce(Number(w, 0), n - 1);
      WrapOnce(Place(Number(w, 0), n - 1), Modulus(w));
    }
  }

  // ---- Prepared keys ----

  /** prepare_masking_key: the key once in a four-byte word, twice in an eight-byte one. */
  function Prepare(key: Key, width: nat, little: bool): (w: Word)
    requires width == 4 || width == 8
    ensures |w| == width
  {
    var i := Memory(key, little);
    if width == 8 then
      var high := i + Zeros(4);
      WordOr(Shl(high, 4), i + Zeros(4))
    else
      i
  }

  /** circshift_prepared_key. */
  function Circshift(w: Word, offset: nat, little: bool): (r: Word)
    requires offset < |w|
    ensures |r| == |w|
  {
    if offset == 0 then w
    else if little then WordOr(Shr(w, offset), Shl(w, |w| - offset))
    else WordOr(Shl(w, offset), Shr(w, |w| - offset))
  }

  /** In memory the prepared word w is the key repeated, read from position p on. */
  ghost predicate Holds(w: Word, little: bool, key: Key, p: nat) {
    forall j {:trigger Memory(w, little)[j]} :: 0 <= j < |w| ==> Memory(w, little)[j] == Cyclic(key, p + j)
  }

  lemma PrepareTwice(key: Key, little: bool)
    ensures Prepare(key, 8, little) == Memory(key, little) + Memory(key, little)
  {
    var i := Memory(key, little);
    forall j | 0 <= j < 8 ensures Prepare(key, 8, little)[j] == (i + i)[j] {
      ZeroIsNeutral((i + i)[j]);
    }
  }

  lemma PrepareHolds(key: Key, width: nat, little: bool)
    requires width == 4 || width == 8
    ensures Holds(Prepare(key, width, little), little, key, 0)
  {
    var m := Memory(Prepare(key, width, little), little);
    if width == 8 {
      PrepareTwice(key, little);
    }
    forall j | 0 <= j < width ensures m[j] == Cyclic(key, j) {
      CyclicIsMod(key, j);
    }
  }

  /** The shift-and-or code is a rotation of the bytes in memory, in either byte order. */
  lemma CircshiftRotates(w: Word, offset: nat, little: bool)
    requires offset < |w|
    ensures Memory(Circshift(w, offset, little), little)
         == Memory(w, little)[offset..] + Memory(w, little)[..offset]
  {
    var m, r := Memory(w, little), Memory(Circshift(w, offset, little), little);
    var want := m[offset..] + m[..offset];
    forall j | 0 <= j < |w| ensures r[j] == want[j] {
      if offset == 0 {
      } else if little {
        CircshiftLittle(w, offset, j);
      } else {
        CircshiftBig(w, offset, j);
      }
    }
  }

  lemma CircshiftLittle(w: Word, offset: nat, j: nat)
    requires 0 < offset < |w| && j < |w|
    ensures Memory(Circshift(w, offset, true), true)[j]
         == Memory(w, true)[if j + offset < |w| then j + offset else j + offset - |w|]
  {
    hide Shr, Shl, WordOr, Reverse, Or;
    OneSideIsZero(w, offset, |w| - offset, j);
  }

  lemma CircshiftBig(w: Word, offset: nat, j: nat)
    requires 0 < offset < |w| && j < |w|
    ensures Memory(Circshift(w, offset, false), false)[j]
         == Memory(w, false)[if j + offset < |w| then j + offset else j + offset - |w|]
  {
    hide Shr, Shl, WordOr, Reverse, Or;
    var d, to := |w| - 1 - j, if j + offset < |w| then j + offset else j + offset - |w|;
    OneSideIsZero(w, |w| - offset, offset, d);
    assert Reverse(Circshift(w, offset, false))[j] == Circshift(w, offset, false)[d];
    assert Reverse(w)[to] == w[|w| - 1 - to];
  }

  lemma OneSideIsZero(w: Word, right: nat, left: nat, d: nat)
    requires 0 < right && 0 < left && right + left == |w| && d < |w|
    ensures WordOr(Shr(w, right), Shl(w, left))[d] == w[if d + right < |w| then d + right else d - left]
    ensures WordOr(Shl(w, left), Shr(w, right))[d] == w[if d + right < |w| then d + right else d - left]
  {
    var digit := w[if d + right < |w| then d + right else d - left];
    assert Shr(w, right)[d] == if d + right < |w| then digit else 0;
    assert Shl(w, left)[d] == if d + right < |w| then 0 else digit;
    ZeroIsNeutral(digit);
  }

  lemma SameInNextWord(key: Key, width: nat, i: nat)
    requires width == 4 || width == 8
    ensures Cyclic(key, i + width) == Cyclic(key, i)
  {
    if width == 8 {
      assert Cyclic(key, i + 8) == Cyclic(key, i + 4);
    }
  }

  /** Advancing by n bytes and rotating by n modulo the word, or modulo four, keep step. */
  lemma CircshiftHolds(w: Word, offset: nat, little: bool, key: Key, p: nat, n: nat, k: nat)
    requires Holds(w, little, key, p)
    requires offset < |w| && n == offset + Times(4, k)
    ensures Holds(Circshift(w, offset, little), little, key, p + n)
  {
    CircshiftRotates(w, offset, little);
    var m, r := Memory(w, little), Memory(Circshift(w, offset, little), little);
    forall j | 0 <= j < |w| ensures r[j] == Cyclic(key, p + n + j) {
      CyclicAdd(key, k, p + offset + j);
      if j + offset < |w| {
        assert r[j] == m[j + offset] == Cyclic(key, p + (j + offset));
      } else {
        assert r[j] == m[j + offset - |w|] == Cyclic(key, p + (j + offset - |w|));
        SameInNextWord(key, |w|, p + (j + offset - |w|));
      }
    }
  }

  // ---- What masking means ----

  /** Section 5.3 of RFC 6455: octet i of the payload against octet i modulo 4 of the key, from position p on. */
  function Masked(s: seq<byte>, key: Key, p: nat): (r: seq<byte>)
    ensures |r| == |s|
  {
    seq(|s|, i requires 0 <= i < |s| => Xor(s[i], Cyclic(key, p + i)))
  }

  /** Bit by bit: octet i is flipped where octet (p + i) modulo 4 of the key has a one. */
  lemma MaskedBits(s: seq<byte>, key: Key, p: nat, i: nat, bit: nat)
    requires i < |s|
    ensures BitAt(Masked(s, key, p)[i], bit) <==> BitAt(s[i], bit) != BitAt(key[(p + i) % 4], bit)
  {
    CyclicIsMod(key, p + i);
    BitwiseExactly(s[i], key[(p + i) % 4], bit);
  }

  lemma MaskedTwice(s: seq<byte>, key: Key, p: nat)
    ensures Masked(Masked(s, key, p), key, p) == s
  {
    forall i | 0 <= i < |s| ensures Masked(Masked(s, key, p), key, p)[i] == s[i] {
      XorTwice(s[i], Cyclic(key, p + i));
    }
  }

  lemma MaskedConcat(a: seq<byte>, b: seq<byte>, key: Key, p: nat)
    ensures Masked(a + b, key, p) == Masked(a, key, p) + Masked(b, key, p + |a|)
  {
    forall i | 0 <= i < |a + b|
      ensures Masked(a + b, key, p)[i] == (Masked(a, key, p) + Masked(b, key, p + |a|))[i]
    {
      if i >= |a| {
        assert p + |a| + (i - |a|) == p + i;
      }
    }
  }

  /** The buffer s against the bytes of m over and over. */
  function Against(s: seq<byte>, m: seq<byte>): (r: seq<byte>)
    requires |m| > 0
    ensures |r| == |s|
  {
    seq(|s|, i requires 0 <= i < |s| => Xor(s[i], Cyclic(m, i)))
  }

  /** The key byte_mask_circ uses: the prepared word cut down to its low 32 bits, in memory order. */
  function LowKey(prepared: Word, little: bool): Key {
    Memory(prepared[..4], little)
  }

  /** One buffer of a stream, and which of the two circular routines masks it. */
  datatype Chunk = Chunk(bytes: seq<byte>, byWord: bool)

  /** One call of word_mask_circ or byte_mask_circ: its output and the key it returns. */
  function MaskChunk(c: Chunk, prepared: Word, little: bool): (seq<byte>, Word) {
    if c.byWord then
      (Against(c.bytes, Memory(prepared, little)), Circshift(prepared, |c.bytes| % |prepared|, little))
    else
      (Against(c.bytes, LowKey(prepared, little)), Circshift(prepared, |c.bytes| % 4, little))
  }

  // ---- The four masking routines ----

  /** byte_mask; first == last at entry leaves everything alone. input and output may be one array. */
  method ByteMask(input: array<byte>, output: array<byte>, length: nat, key: Key, keyOffset: nat)
    requires length <= input.Length && length <= output.Length
    modifies output
    ensures output[..length] == Masked(old(input[..length]), key, keyOffset)
    ensures forall j :: length <= j < output.Length ==> output[j] == old(output[j])
  {
    var keyIndex := keyOffset % 4;
    var i := 0;
    while i < length
      invariant 0 <= i <= length
      invariant keyIndex == (keyOffset + i) % 4
      invariant forall j :: 0 <= j < i ==> output[j] == Xor(old(input[j]), Cyclic(key, keyOffset + j))
      invariant forall j :: i <= j < input.Length ==> input[j] == old(input[j])
      invariant forall j :: i <= j < output.Length ==> output[j] == old(output[j])
    {
      CyclicIsMod(key, keyOffset + i);
      output[i] := Xor(input[i], key[keyIndex]);
      keyIndex := (keyIndex + 1) % 4;
      i := i + 1;
    }
  }

  /** One whole word read, xored and stored as a word. */
  method MaskWord(input: array<byte>, output: array<byte>, at: nat, prepared: Word, little: bool)
    requires at + |prepared| <= input.Length && at + |prepared| <= output.Length
    modifies output
    ensures forall j :: 0 <= j < |prepared| ==>
              output[at + j] == Xor(old(input[at + j]), Memory(prepared, little)[j])
    ensures forall j :: 0 <= j < output.Length && !(at <= j < at + |prepared|) ==> output[j] == old(output[j])
  {
    var bytes: Word := input[at..at + |prepared|];
    var stored: Word := Memory(WordXor(Memory(bytes, little), prepared), little);
    MemoryXor(bytes, prepared, little);
    forall j | 0 <= j < |prepared| {
      output[at + j] := stored[j];
    }
  }

  /** The loop word_mask_exact and word_mask_circ share. */
  method MaskWords(input: array<byte>, output: array<byte>, words: nat, prepared: Word, little: bool)
    returns (done: nat)
    requires Times(|prepared|, words) <= input.Length && Times(|prepared|, words) <= output.Length
    modifies output
    ensures done == Times(|prepared|, words)
    ensures forall j :: 0 <= j < done ==> output[j] == Xor(old(input[j]), Cyclic(Memory(prepared, little), j))
    ensures forall j :: done <= j < input.Length ==> input[j] == old(input[j])
    ensures forall j :: done <= j < output.Length ==> output[j] == old(output[j])
  {
    hide Xor, Memory;
    var size := |prepared|;
    ghost var m := Memory(prepared, little);
    ghost var source := input[..];
    var i := 0;
    done := 0;
    while i < words
      invariant 0 <= i <= words && done == Times(size, i) <= Times(size, words)
      invariant forall j :: 0 <= j < done ==> output[j] == Xor(source[j], Cyclic(m, j))
      invariant forall j :: done <= j < input.Length ==> input[j] == source[j]
      invariant forall j :: done <= j < output.Length ==> output[j] == old(output[j])
    {
      TimesMonotone(size, i, words);
      ghost var before := output[..];
      MaskWord(input, output, done, prepared, little);
      forall j | done <= j < done + size ensures output[j] == Xor(source[j], Cyclic(m, j)) {
        CyclicAdd(m, i, j - done);
        assert output[done + (j - done)] == Xor(source[j], m[j - done]);
      }
      assert forall j :: 0 <= j < done ==> output[j] == before[j];
      i, done := i + 1, done + size;
    }
  }

  lemma ReverseXor(bytes: Word, w: Word)
    requires |bytes| == |w|
    ensures Reverse(WordXor(Reverse(bytes), w)) == WordXor(bytes, Reverse(w))
  {
    hide Xor, Reverse, WordXor;
    var r, want := Reverse(WordXor(Reverse(bytes), w)), WordXor(bytes, Reverse(w));
    forall j | 0 <= j < |w| ensures r[j] == want[j] {
      assert r[j] == WordXor(Reverse(bytes), w)[|w| - 1 - j] == Xor(bytes[j], w[|w| - 1 - j]);
      assert want[j] == Xor(bytes[j], w[|w| - 1 - j]);
    }
  }

  lemma MemoryXor(bytes: Word, w: Word, little: bool)
    requires |bytes| == |w|
    ensures Memory(WordXor(Memory(bytes, little), w), little) == WordXor(bytes, Memory(w, little))
  {
    hide Xor, Reverse, WordXor;
    if !little {
      ReverseXor(bytes, w);
    }
  }

  lemma KeyHolds(w: Word, little: bool, key: Key, n: nat)
    requires Holds(w, little, key, 0)
    ensures forall j :: 0 <= j < n ==> Cyclic(Memory(w, little), j) == Cyclic(key, j)
  {
    forall j | 0 <= j < n ensures Cyclic(Memory(w, little), j) == Cyclic(key, j) {
      CyclicHolds(w, little, key, 0, j);
    }
  }

  /** word_mask_exact. */
  method WordMaskExact(input: array<byte>, output: array<byte>, length: nat, key: Key, width: nat, little: bool)
    requires width == 4 || width == 8
    requires length <= input.Length && length <= output.Length
    modifies output
    ensures output[..length] == Masked(old(input[..length]), key, 0)
    ensures forall j :: length <= j < output.Length ==> output[j] == old(output[j])
  {
    var prepared := Prepare(key, width, little);
    PrepareHolds(key, width, little);
    var n := length / width;
    WholeWords(length, width);
    var start := MaskWords(input, output, n, prepared, little);
    KeyHolds(prepared, little, key, start);
    var i := start;
    while i < length
      invariant start <= i <= length
      invariant forall j :: 0 <= j < i ==> output[j] == Xor(old(input[j]), Cyclic(key, j))
      invariant forall j :: i <= j < input.Length ==> input[j] == old(input[j])
      invariant forall j :: i <= j < output.Length ==> output[j] == old(output[j])
    {
      CyclicIsMod(key, i);
      output[i] := Xor(input[i], key[i % 4]);
      i := i + 1;
    }
  }

  /** The partial word at the end, byte by byte against the bytes of the prepared key. */
  method MaskTail(input: array<byte>, output: array<byte>, start: nat, length: nat, byteKey: Word, ghost words: nat)
    requires start == Times(|byteKey|, words) && start <= length < start + |byteKey|
    requires length <= input.Length && length <= output.Length
    modifies output
    ensures forall j :: start <= j < length ==> output[j] == Xor(old(input[j]), Cyclic(byteKey, j))
    ensures forall j :: 0 <= j < output.Length && !(start <= j < length) ==> output[j] == old(output[j])
  {
    var l := length - start;
    var i := 0;
    while i < l
      invariant 0 <= i <= l
      invariant forall j :: start <= j < start + i ==> output[j] == Xor(old(input[j]), Cyclic(byteKey, j))
      invariant forall j :: start + i <= j < length ==> input[j] == old(input[j])
      invariant forall j :: 0 <= j < output.Length && !(start <= j < start + i) ==> output[j] == old(output[j])
    {
      CyclicAdd(byteKey, words, i);
      output[start + i] := Xor(input[start + i], byteKey[i]);
      i := i + 1;
    }
  }

  /** word_mask_circ. */
  method WordMaskCirc(input: array<byte>, output: array<byte>, length: nat, prepared: Word, little: bool)
    returns (next: Word)
    requires length <= input.Length && length <= output.Length
    modifies output
    ensures (output[..length], next) == MaskChunk(Chunk(old(input[..length]), true), prepared, little)
    ensures forall j :: length <= j < output.Length ==> output[j] == old(output[j])
  {
    var n := length / |prepared|;
    WholeWords(length, |prepared|);
    ghost var source := input[..length];
    var byteKey := Memory(prepared, little);
    var start := MaskWords(input, output, n, prepared, little);
    ghost var half := output[..];
    MaskTail(input, output, start, length, byteKey, n);
    next := Circshift(prepared, length - start, little);
    forall j | 0 <= j < length ensures output[j] == Xor(source[j], Cyclic(byteKey, j)) {
      if j < start {
        assert output[j] == half[j];
      }
    }
    assert output[..length] == Against(source, byteKey);
  }

  /** byte_mask_circ. */
  method ByteMaskCirc(input: array<byte>, output: array<byte>, length: nat, prepared: Word, little: bool)
    returns (next: Word)
    requires length <= input.Length && length <= output.Length
    modifies output
    ensures (output[..length], next) == MaskChunk(Chunk(old(input[..length]), false), prepared, little)
    ensures forall j :: length <= j < output.Length ==> output[j] == old(output[j])
  {
    var key := LowKey(prepared, little);
    ghost var source := input[..length];
    var i := 0;
    while i < length
      invariant 0 <= i <= length
      invariant forall j :: 0 <= j < i ==> output[j] == Xor(source[j], Cyclic(key, j))
      invariant forall j :: i <= j < length ==> input[j] == source[j]
      invariant forall j :: i <= j < output.Length ==> output[j] == old(output[j])
    {
      CyclicIsMod(key, i);
      output[i] := Xor(input[i], key[i % 4]);
      i := i + 1;
    }
    next := Circshift(prepared, length % 4, little);
    assert output[..length] == Against(source, key);
  }

  // ---- Streams ----

  /** A stream masked chunk by chunk, each returned key fed to the next call. */
  function Stream(chunks: seq<Chunk>, prepared: Word, little: bool): (seq<byte>, Word) {
    if chunks == [] then ([], prepared)
    else
      var (out, next) := MaskChunk(chunks[0], prepared, little);
      var (rest, last) := Stream(chunks[1..], next, little);
      (out + rest, last)
  }

  function Payload(chunks: seq<Chunk>): seq<byte> {
    if chunks == [] then [] else chunks[0].bytes + Payload(chunks[1..])
  }

  lemma {:induction false} CyclicHolds(w: Word, little: bool, key: Key, p: nat, i: nat)
    requires Holds(w, little, key, p)
    ensures Cyclic(Memory(w, little), i) == Cyclic(key, p + i)
  {
    if i < |w| {
      assert Memory(w, little)[i] == Cyclic(key, p + i);
    } else {
      CyclicHolds(w, little, key, p, i - |w|);
      SameInNextWord(key, |w|, p + (i - |w|));
    }
  }

  /** The low 32 bits of a prepared word hold the key at the same position. */
  lemma LowKeyHolds(w: Word, little: bool, key: Key, p: nat)
    requires Holds(w, little, key, p)
    ensures Holds(w[..4], little, key, p)
  {
    var m, low := Memory(w, little), LowKey(w, little);
    forall j | 0 <= j < 4 ensures low[j] == Cyclic(key, p + j) {
      if little {
        assert low[j] == m[j];
      } else {
        assert low[j] == w[3 - j] == m[|w| - 4 + j];
        if |w| == 8 {
          CyclicAdd(key, 1, p + j);
        }
      }
    }
  }

  lemma AgainstHolds(s: seq<byte>, w: Word, little: bool, key: Key, p: nat)
    requires Holds(w, little, key, p)
    ensures Against(s, Memory(w, little)) == Masked(s, key, p)
  {
    forall i | 0 <= i < |s| ensures Cyclic(Memory(w, little), i) == Cyclic(key, p + i) {
      CyclicHolds(w, little, key, p, i);
    }
  }

  lemma {:induction false} EightsAreFours(k: nat)
    ensures Times(8, k) == Times(4, 2 * k)
  {
    if k > 0 {
      EightsAreFours(k - 1);
      assert Times(4, 2 * k) == 4 + Times(4, 2 * k - 1);
    }
  }

  lemma WholeFours(n: nat, width: nat) returns (k: nat)
    requires width == 4 || width == 8
    ensures n == n % width + Times(4, k)
  {
    if width == 4 {
      WholeWords(n, 4);
      k := n / 4;
    } else {
      WholeWords(n, 8);
      EightsAreFours(n / 8);
      k := 2 * (n / 8);
    }
  }

  lemma ChunkHolds(c: Chunk, prepared: Word, little: bool, key: Key, p: nat)
    requires Holds(prepared, little, key, p)
    ensures MaskChunk(c, prepared, little).0 == Masked(c.bytes, key, p)
    ensures Holds(MaskChunk(c, prepared, little).1, little, key, p + |c.bytes|)
  {
    var n := |c.bytes|;
    if c.byWord {
      AgainstHolds(c.bytes, prepared, little, key, p);
      var k := WholeFours(n, |prepared|);
      CircshiftHolds(prepared, n % |prepared|, little, key, p, n, k);
    } else {
      LowKeyHolds(prepared, little, key, p);
      AgainstHolds(c.bytes, prepared[..4], little, key, p);
      var k := WholeFours(n, 4);
      CircshiftHolds(prepared, n % 4, little, key, p, n, k);
    }
  }

  /** A stream cut anywhere and masked by either routine is the payload masked in one go. */
  lemma {:induction false} StreamHolds(chunks: seq<Chunk>, prepared: Word, little: bool, key: Key, p: nat)
    requires Holds(prepared, little, key, p)
    ensures Stream(chunks, prepared, little).0 == Masked(Payload(chunks), key, p)
  {
    if chunks == [] {
      assert Masked(Payload(chunks), key, p) == [];
    } else {
      var c := chunks[0];
      ChunkHolds(c, prepared, little, key, p);
      StreamHolds(chunks[1..], MaskChunk(c, prepared, little).1, little, key, p + |c.bytes|);
      MaskedConcat(c.bytes, Payload(chunks[1..]), key, p);
    }
  }

  lemma StreamingRefinesByteMask(chunks: seq<Chunk>, key: Key, width: nat, little: bool)
    requires width == 4 || width == 8
    ensures Stream(chunks, Prepare(key, width, little), little).0 == Masked(Payload(chunks), key, 0)
  {
    PrepareHolds(key, width, little);
    StreamHolds(chunks, Prepare(key, width, little), little, key, 0);
  }

  /**
   Sender and receiver may cut the stream differently and run on different machines: the receiver
   gets the payload.
   */
  lemma StreamRoundTrip(sent: seq<Chunk>, received: seq<Chunk>, key: Key,
                        width: nat, little: bool, width': nat, little': bool)
    requires (width == 4 || width == 8) && (width' == 4 || width' == 8)
    requires Payload(received) == Stream(sent, Prepare(key, width, little), little).0
    ensures Stream(received, Prepare(key, width', little'), little').0 == Payload(sent)
  {
    StreamingRefinesByteMask(sent, key, width, little);
    StreamingRefinesByteMask(received, key, width', little');
    MaskedTwice(Payload(sent), key, 0);
  }
}
