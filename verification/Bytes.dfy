/**
 Octets as numbers below 256, the bitwise operations on them, one binary digit at a time, and the
 sequences the other modules share.
 */
module Bytes {

  type byte = n: int | 0 <= n < 256

  datatype Option<+T> = None | Some(value: T)

  function XorNat(a: nat, b: nat): nat {
    if a == 0 && b == 0 then 0 else (if a % 2 == b % 2 then 0 else 1) + 2 * XorNat(a / 2, b / 2)
  }

  function OrNat(a: nat, b: nat): nat {
    if a == 0 && b == 0 then 0
    else (if a % 2 == 1 || b % 2 == 1 then 1 else 0) + 2 * OrNat(a / 2, b / 2)
  }

  lemma {:induction false} BitwiseBound(a: nat, b: nat, limit: nat)
    requires a < limit && b < limit
    requires limit == 1 || limit == 2 || limit == 4 || limit == 8 || limit == 16 || limit == 32
          || limit == 64 || limit == 128 || limit == 256
    ensures XorNat(a, b) < limit && OrNat(a, b) < limit
  {
    if limit > 1 {
      BitwiseBound(a / 2, b / 2, limit / 2);
    }
  }

  function Xor(a: byte, b: byte): byte {
    BitwiseBound(a, b, 256);
    XorNat(a, b)
  }

  function Or(a: byte, b: byte): byte {
    BitwiseBound(a, b, 256);
    OrNat(a, b)
  }

  /** Binary digit i of n. */
  predicate BitAt(n: nat, i: nat) {
    if i == 0 then n % 2 == 1 else BitAt(n / 2, i - 1)
  }

  lemma LowDigit(a: nat, b: nat)
    ensures XorNat(a, b) % 2 == 1 <==> (a % 2 == 1) != (b % 2 == 1)
    ensures OrNat(a, b) % 2 == 1 <==> a % 2 == 1 || b % 2 == 1
  {
  }

  lemma HalfOfBitwise(a: nat, b: nat)
    ensures XorNat(a, b) / 2 == XorNat(a / 2, b / 2) && OrNat(a, b) / 2 == OrNat(a / 2, b / 2)
  {
  }

  /** Digit by digit, xor says where two numbers differ and or where either has a one. */
  lemma {:induction false} BitwiseExactly(a: nat, b: nat, i: nat)
    ensures BitAt(XorNat(a, b), i) <==> BitAt(a, i) != BitAt(b, i)
    ensures BitAt(OrNat(a, b), i) <==> BitAt(a, i) || BitAt(b, i)
    decreases i
  {
    hide XorNat, OrNat;
    if i == 0 {
      LowDigit(a, b);
    } else {
      BitwiseExactly(a / 2, b / 2, i - 1);
      HalfOfBitwise(a, b);
    }
  }

  lemma XorNatStep(a: nat, bitA: nat, k: nat, bitK: nat)
    requires bitA < 2 && bitK < 2
    ensures XorNat(2 * a + bitA, 2 * k + bitK) == 2 * XorNat(a, k) + (if bitA == bitK then 0 else 1)
  {
    var x, y := 2 * a + bitA, 2 * k + bitK;
    assert x / 2 == a && x % 2 == bitA && y / 2 == k && y % 2 == bitK;
    if x == 0 && y == 0 {
      assert XorNat(a, k) == 0;
    }
  }

  lemma {:induction false} XorNatTwice(a: nat, k: nat)
    ensures XorNat(XorNat(a, k), k) == a
  {
    if a != 0 || k != 0 {
      var bitA, bitK := a % 2, k % 2;
      XorNatTwice(a / 2, k / 2);
      XorNatStep(a / 2, bitA, k / 2, bitK);
      XorNatStep(XorNat(a / 2, k / 2), if bitA == bitK then 0 else 1, k / 2, bitK);
    }
  }

  lemma {:induction false} OrNatZero(a: nat)
    ensures OrNat(a, 0) == a && OrNat(0, a) == a
    ensures XorNat(a, 0) == a
  {
    if a != 0 {
      OrNatZero(a / 2);
    }
  }

  lemma XorTwice(a: byte, k: byte)
    ensures Xor(Xor(a, k), k) == a
  {
    XorNatTwice(a, k);
  }

  lemma ZeroIsNeutral(a: byte)
    ensures Or(a, 0) == a && Or(0, a) == a && Xor(a, 0) == a
  {
    OrNatZero(a);
  }

  function Zeros(n: nat): (z: seq<byte>)
    ensures |z| == n && forall j :: 0 <= j < n ==> z[j] == 0
  {
    seq(n, _ => 0 as byte)
  }

  /** All the pieces of ss, one after another. */
  function Flatten<T>(ss: seq<seq<T>>): seq<T> {
    if ss == [] then [] else ss[0] + Flatten(ss[1..])
  }

  lemma {:induction false} FlattenAppend<T>(a: seq<seq<T>>, b: seq<seq<T>>)
    ensures Flatten(a + b) == Flatten(a) + Flatten(b)
  {
    if a == [] {
      assert a + b == b;
    } else {
      assert (a + b)[1..] == a[1..] + b;
      FlattenAppend(a[1..], b);
    }
  }

  lemma Associate<T>(a: seq<T>, b: seq<T>, c: seq<T>)
    ensures a + (b + c) == a + b + c
  {
  }

  /** The sequence m repeated for ever. */
  function Cyclic<T>(m: seq<T>, i: nat): T
    requires |m| > 0
  {
    if i < |m| then m[i] else Cyclic(m, i - |m|)
  }

  /** n, k times over. */
  function Times(n: nat, k: nat): nat {
    if k == 0 then 0 else n + Times(n, k - 1)
  }

  lemma {:induction false} CyclicAdd<T>(m: seq<T>, k: nat, i: nat)
    requires |m| > 0
    ensures Cyclic(m, Times(|m|, k) + i) == Cyclic(m, i)
  {
    if k > 0 {
      CyclicAdd(m, k - 1, i);
    }
  }

  lemma {:induction false} WholeWords(n: nat, width: nat)
    requires width == 4 || width == 8
    ensures Times(width, n / width) == n - n % width == n / width * width
  {
    if n >= width {
      WholeWords(n - width, width);
      assert (n - width) / width == n / width - 1 && (n - width) % width == n % width;
    }
  }

  lemma {:induction false} TimesMonotone(width: nat, i: nat, n: nat)
    requires i < n
    ensures Times(width, i) + width == Times(width, i + 1) <= Times(width, n)
  {
    if i + 1 < n {
      TimesMonotone(width, i, n - 1);
    }
  }

  lemma {:induction false} CyclicIsMod<T>(m: seq<T>, i: nat)
    requires |m| == 4
    ensures Cyclic(m, i) == m[i % 4]
  {
    if i >= 4 {
      CyclicIsMod(m, i - 4);
    }
  }
}
