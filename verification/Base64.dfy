/**
 websocketpp/base64/base64.hpp against section 4 of RFC 4648: twenty-four bits as four symbols of
 six, and back.
 */
module Base64 {
  import opened Bytes

  // ---- The alphabet ----

  const UPPER: string := "ABCDEFGHIJKLMNOPQRSTUVWXYZ"
  const LOWER: string := "abcdefghijklmnopqrstuvwxyz"
  const OTHER: string := "0123456789+/"
  const ALPHABET: string := UPPER + LOWER + OTHER

  type Sextet = n: nat | n < 64

  predicate IsBase64(c: char) {
    var n := c as int;
    n == 43 || 47 <= n <= 57 || 65 <= n <= 90 || 97 <= n <= 122
  }

  /** The code of symbol v, range by range. */
  function Code(v: Sextet): nat {
    if v < 26 then 65 + v else if v < 52 then 97 + (v - 26) else if v < 62 then 48 + (v - 52)
    else if v == 62 then 43 else 47
  }

  lemma UpperCodes(i: nat)
    requires i < 26
    ensures |UPPER| == 26 && UPPER[i] as int == 65 + i
  {
  }

  lemma LowerCodes(i: nat)
    requires i < 26
    ensures |LOWER| == 26 && LOWER[i] as int == 97 + i
  {
  }

  lemma OtherCodes(i: nat)
    requires i < 12
    ensures |OTHER| == 12 && OTHER[i] as int == if i < 10 then 48 + i else if i == 10 then 43 else 47
  {
  }

  lemma AlphabetCodes(v: Sextet)
    ensures |ALPHABET| == 64 && ALPHABET[v] as int == Code(v)
  {
    hide UPPER, LOWER, OTHER;
    UpperCodes(if v < 26 then v else 0);
    LowerCodes(if 26 <= v < 52 then v - 26 else 0);
    OtherCodes(if v >= 52 then v - 52 else 0);
  }

  function Symbol(v: Sextet): char {
    AlphabetCodes(v);
    ALPHABET[v]
  }

  /** base64_chars.find, from position i on; npos where there is none. */
  const NPOS: nat := 0xFFFF_FFFF_FFFF_FFFF

  function Find(c: char, i: nat): nat
    requires i <= 64
    decreases 64 - i
  {
    if i == 64 then NPOS else if Symbol(i) == c then i else Find(c, i + 1)
  }

  /** static_cast<unsigned char>(base64_chars.find(c)). */
  function ValueOf(c: char): byte {
    Find(c, 0) % 256
  }

  lemma {:induction false} FindSymbol(v: Sextet, i: nat)
    requires i <= v
    ensures Find(Symbol(v), i) == v
    decreases v - i
  {
    AlphabetCodes(v);
    AlphabetCodes(i);
    if i < v {
      FindSymbol(v, i + 1);
    }
  }

  lemma {:induction false} FindNothing(c: char, i: nat)
    requires !IsBase64(c) && i <= 64
    ensures Find(c, i) == NPOS
    decreases 64 - i
  {
    if i < 64 {
      AlphabetCodes(i);
      FindNothing(c, i + 1);
    }
  }

  /** The index a character of the alphabet has. */
  function Index(c: char): Sextet
    requires IsBase64(c)
  {
    var n := c as int;
    if n >= 97 then n - 97 + 26 else if n >= 65 then n - 65 else if n >= 48 then n - 48 + 52
    else if n == 43 then 62 else 63
  }

  /** is_base64 accepts the alphabet and nothing else, and find inverts the alphabet. */
  lemma AlphabetExactly(c: char)
    ensures IsBase64(c) <==> exists v: Sextet :: Symbol(v) == c
    ensures IsBase64(c) ==> ValueOf(c) == Index(c) && Symbol(Index(c)) == c
    ensures !IsBase64(c) ==> ValueOf(c) == 255
  {
    hide ALPHABET, UPPER, LOWER, OTHER;
    if IsBase64(c) {
      AlphabetCodes(Index(c));
      FindSymbol(Index(c), 0);
    } else {
      FindNothing(c, 0);
      forall v: Sextet ensures Symbol(v) != c {
        AlphabetCodes(v);
      }
    }
  }

  /** Table 1 of RFC 4648: the letters, the digits, plus and slash. */
  lemma SymbolCodes(v: Sextet)
    ensures v < 26 ==> Symbol(v) as int == 'A' as int + v
    ensures 26 <= v < 52 ==> Symbol(v) as int == 'a' as int + (v - 26)
    ensures 52 <= v < 62 ==> Symbol(v) as int == '0' as int + (v - 52)
    ensures Symbol(62) == '+' && Symbol(63) == '/'
  {
    hide ALPHABET, UPPER, LOWER, OTHER;
    AlphabetCodes(v);
    AlphabetCodes(62);
    AlphabetCodes(63);
  }

  lemma SymbolIsBase64(v: Sextet)
    ensures IsBase64(Symbol(v)) && Index(Symbol(v)) == v
  {
    AlphabetCodes(v);
  }

  // ---- RFC 4648, section 4 ----

  /** Three octets as one number of twenty-four bits. */
  function Joined(a: byte, b: byte, c: byte): nat {
    65536 * a as nat + 256 * b as nat + c as nat
  }

  function Quad(a: byte, b: byte, c: byte): (q: string)
    ensures |q| == 4
  {
    var n := Joined(a, b, c);
    [Symbol(n / 262144), Symbol(n / 4096 % 64), Symbol(n / 64 % 64), Symbol(n % 64)]
  }

  function Encode(s: seq<byte>): string
    decreases |s|
  {
    if |s| == 0 then []
    else if |s| == 1 then Quad(s[0], 0, 0)[..2] + "=="
    else if |s| == 2 then Quad(s[0], s[1], 0)[..3] + "="
    else Quad(s[0], s[1], s[2]) + Encode(s[3..])
  }

  function Triple(w: Sextet, x: Sextet, y: Sextet, z: Sextet): (t: seq<byte>)
    ensures |t| == 3
  {
    var n := 262144 * w + 4096 * x + 64 * y + z;
    [n / 65536, n / 256 % 256, n % 256]
  }

  /** A run of symbols: whole groups, then what the last partial group determines. */
  function DecodeSymbols(s: string): seq<byte>
    requires forall i :: 0 <= i < |s| ==> IsBase64(s[i])
    decreases |s|
  {
    if |s| <= 1 then []
    else if |s| == 2 then Triple(Index(s[0]), Index(s[1]), 0, 0)[..1]
    else if |s| == 3 then Triple(Index(s[0]), Index(s[1]), Index(s[2]), 0)[..2]
    else Triple(Index(s[0]), Index(s[1]), Index(s[2]), Index(s[3])) + DecodeSymbols(s[4..])
  }

  /** The symbols before the first character that is not one. */
  function Prefix(s: string): (p: string)
    ensures p <= s && (forall i :: 0 <= i < |p| ==> IsBase64(p[i]))
    ensures |p| < |s| ==> !IsBase64(s[|p|])
  {
    if s == [] || !IsBase64(s[0]) then [] else [s[0]] + Prefix(s[1..])
  }

  function Decode(s: string): seq<byte> {
    DecodeSymbols(Prefix(s))
  }

  // ---- Round trips ----

  lemma Octets(n: nat, t0: nat, t1: nat, t2: nat)
    requires t0 < 256 && t1 < 256 && t2 < 256 && n == 65536 * t0 + 256 * t1 + t2
    ensures n / 65536 == t0 && n / 256 % 256 == t1 && n % 256 == t2
  {
    assert n / 256 == 256 * t0 + t1;
  }

  lemma Sextets(n: nat)
    ensures n == 262144 * (n / 262144) + 4096 * (n / 4096 % 64) + 64 * (n / 64 % 64) + n % 64
  {
    var n1 := n / 64;
    var n2 := n1 / 64;
    assert n2 == n / 4096;
    assert n2 / 64 == n / 262144;
  }

  lemma TripleIs(w: Sextet, x: Sextet, y: Sextet, z: Sextet, t0: byte, t1: byte, t2: byte)
    requires 262144 * w + 4096 * x + 64 * y + z == 65536 * t0 as nat + 256 * t1 as nat + t2 as nat
    ensures Triple(w, x, y, z) == [t0, t1, t2]
  {
    Octets(262144 * w + 4096 * x + 64 * y + z, t0, t1, t2);
  }

  lemma TripleOfQuad(a: byte, b: byte, c: byte)
    ensures var n := Joined(a, b, c); Triple(n / 262144, n / 4096 % 64, n / 64 % 64, n % 64) == [a, b, c]
  {
    hide Triple;
    var n := Joined(a, b, c);
    Sextets(n);
    TripleIs(n / 262144, n / 4096 % 64, n / 64 % 64, n % 64, a, b, c);
  }

  /** The symbols of a group of one or two octets do not carry the missing octets. */
  lemma PartialGroups(a: byte, b: byte)
    ensures Joined(a, 0, 0) / 64 % 64 == 0 && Joined(a, 0, 0) % 64 == 0
    ensures Joined(a, b, 0) % 64 == 0
  {
    var x: nat := a;
    var y: nat := b;
    assert Joined(a, 0, 0) == 65536 * x + 256 * 0 + 0;
    assert Joined(a, b, 0) == 65536 * x + 256 * y + 0;
    SplitGroup(x, 0, 0);
    SplitGroup(x, y, 0);
  }

  lemma {:induction false} PrefixAppend(a: string, b: string)
    requires forall i :: 0 <= i < |a| ==> IsBase64(a[i])
    ensures Prefix(a + b) == a + Prefix(b)
  {
    if a == [] {
      assert a + b == b;
    } else {
      assert (a + b)[1..] == a[1..] + b;
      PrefixAppend(a[1..], b);
    }
  }

  lemma QuadSymbols(a: byte, b: byte, c: byte)
    ensures var q := Quad(a, b, c); var n := Joined(a, b, c);
      && (forall i :: 0 <= i < 4 ==> IsBase64(q[i]))
      && Index(q[0]) == n / 262144 && Index(q[1]) == n / 4096 % 64
      && Index(q[2]) == n / 64 % 64 && Index(q[3]) == n % 64
  {
    hide Symbol, Index, IsBase64;
    var n := Joined(a, b, c);
    SymbolIsBase64(n / 262144);
    SymbolIsBase64(n / 4096 % 64);
    SymbolIsBase64(n / 64 % 64);
    SymbolIsBase64(n % 64);
  }

  /** Four symbols, as digits to base 64, are the same number as the three octets, as digits to base 256. */
  lemma GroupIsNumber(a: byte, b: byte, c: byte)
    ensures var q := Quad(a, b, c);
      && (forall i :: 0 <= i < 4 ==> IsBase64(q[i]))
      && 262144 * Index(q[0]) + 4096 * Index(q[1]) + 64 * Index(q[2]) + Index(q[3])
           == 65536 * a as nat + 256 * b as nat + c as nat
  {
    QuadSymbols(a, b, c);
    hide Quad, Index, IsBase64;
    Sextets(Joined(a, b, c));
  }

  /** Group by group: the last one is padded for the octets it lacks. */
  lemma {:induction false} EncodeAt(s: seq<byte>, k: nat)
    requires 3 * k < |s|
    ensures 4 * k + 4 <= |Encode(s)|
    ensures var rest := s[3 * k..];
      Encode(s)[4 * k..4 * k + 4] ==
        if |rest| == 1 then Quad(rest[0], 0, 0)[..2] + "=="
        else if |rest| == 2 then Quad(rest[0], rest[1], 0)[..3] + "="
        else Quad(rest[0], rest[1], rest[2])
    decreases k
  {
    hide Quad, Encode;
    assert s[0..] == s;
    if k == 0 {
      FirstSymbols(s);
    } else {
      WholeGroup(s);
      EncodeAt(s[3..], k - 1);
      assert s[3..][3 * (k - 1)..] == s[3 * k..];
      SliceBehind(Quad(s[0], s[1], s[2]), Encode(s[3..]), 4 * k, 4 * k + 4);
    }
  }

  lemma WholeGroup(s: seq<byte>)
    requires |s| >= 3
    ensures Encode(s) == Quad(s[0], s[1], s[2]) + Encode(s[3..])
  {
    hide Quad;
  }

  lemma FirstSymbols(s: seq<byte>)
    requires s != []
    ensures 4 <= |Encode(s)|
    ensures Encode(s)[..4] ==
      if |s| == 1 then Quad(s[0], 0, 0)[..2] + "=="
      else if |s| == 2 then Quad(s[0], s[1], 0)[..3] + "="
      else Quad(s[0], s[1], s[2])
  {
    hide Quad;
  }

  lemma SliceBehind<T>(a: seq<T>, b: seq<T>, i: nat, j: nat)
    requires |a| <= i <= j <= |a| + |b|
    ensures (a + b)[i..j] == b[i - |a|..j - |a|]
  {
  }

  lemma SymbolIs(v: Sextet, c: char)
    requires c as int == Code(v)
    ensures Symbol(v) == c
  {
    AlphabetCodes(v);
  }

  lemma QuadIs(a: byte, b: byte, c: byte, w: Sextet, x: Sextet, y: Sextet, z: Sextet)
    requires 262144 * w + 4096 * x + 64 * y + z == 65536 * a as nat + 256 * b as nat + c as nat
    ensures Quad(a, b, c) == [Symbol(w), Symbol(x), Symbol(y), Symbol(z)]
  {
    hide Symbol;
    Digits(Joined(a, b, c), w, x, y, z);
  }

  /** Section 10 of RFC 4648: "foobar", "fooba" and "foob". */
  lemma TestVectors()
    ensures Encode([102, 111, 111, 98, 97, 114]) == "Zm9vYmFy"
    ensures Encode([102, 111, 111, 98, 97]) == "Zm9vYmE="
    ensures Encode([102, 111, 111, 98]) == "Zm9vYg=="
  {
    FirstGroup();
    LastThree();
    LastTwo();
    LastOne();
    hide Quad;
    assert [102, 111, 111, 98, 97, 114][3..] == [98, 97, 114] && [98, 97, 114][3..] == [];
    assert [102, 111, 111, 98, 97][3..] == [98, 97] && [102, 111, 111, 98][3..] == [98];
    assert Encode([98, 97, 114]) == "YmFy" + [];
  }

  lemma FirstGroup()
    ensures Quad(102, 111, 111) == "Zm9v"
  {
    hide Quad, Symbol;
    QuadIs(102, 111, 111, 25, 38, 61, 47);
    SymbolIs(25, 'Z');
    SymbolIs(38, 'm');
    SymbolIs(61, '9');
    SymbolIs(47, 'v');
  }

  lemma LastThree()
    ensures Quad(98, 97, 114) == "YmFy"
  {
    hide Quad, Symbol;
    QuadIs(98, 97, 114, 24, 38, 5, 50);
    SymbolIs(24, 'Y');
    SymbolIs(38, 'm');
    SymbolIs(5, 'F');
    SymbolIs(50, 'y');
  }

  lemma LastTwo()
    ensures Quad(98, 97, 0)[..3] == "YmE"
  {
    hide Quad, Symbol;
    QuadIs(98, 97, 0, 24, 38, 4, 0);
    SymbolIs(24, 'Y');
    SymbolIs(38, 'm');
    SymbolIs(4, 'E');
    SymbolIs(0, 'A');
  }

  lemma LastOne()
    ensures Quad(98, 0, 0)[..2] == "Yg"
  {
    hide Quad, Symbol;
    QuadIs(98, 0, 0, 24, 32, 0, 0);
    SymbolIs(24, 'Y');
    SymbolIs(32, 'g');
    SymbolIs(0, 'A');
  }

  lemma {:induction false} EncodeLength(s: seq<byte>)
    ensures |Encode(s)| == 4 * ((|s| + 2) / 3)
    decreases |s|
  {
    hide Quad;
    if |s| >= 3 {
      EncodeLength(s[3..]);
      assert (|s| + 2) / 3 == (|s| - 3 + 2) / 3 + 1;
    }
  }

  lemma {:induction false} RoundTrip(s: seq<byte>)
    ensures Decode(Encode(s)) == s
    decreases |s|
  {
    hide Quad, Triple, Index, IsBase64;
    if |s| == 0 {
    } else {
      var a := s[0];
      var b: byte := if |s| > 1 then s[1] else 0;
      var c: byte := if |s| > 2 then s[2] else 0;
      var q := Quad(a, b, c);
      QuadSymbols(a, b, c);
      TripleOfQuad(a, b, c);
      PartialGroups(a, b);
      EqualsIsNotASymbol();
      if |s| == 1 {
        PrefixAppend(q[..2], "==");
        assert q[..2] + [] == q[..2];
        assert s == [a];
      } else if |s| == 2 {
        PrefixAppend(q[..3], "=");
        assert q[..3] + [] == q[..3];
        assert s == [a, b];
      } else {
        PrefixAppend(q, Encode(s[3..]));
        RoundTrip(s[3..]);
        assert Prefix(Encode(s))[4..] == Prefix(Encode(s[3..]));
        assert s == [a, b, c] + s[3..];
      }
    }
  }

  lemma EqualsIsNotASymbol()
    ensures !IsBase64('=') && Prefix("=") == [] && Prefix("==") == []
  {
  }

  // ---- base64_encode ----

  method EncodeGroup(a: byte, b: byte, c: byte) returns (q: seq<Sextet>)
    ensures |q| == 4
    ensures [Symbol(q[0]), Symbol(q[1]), Symbol(q[2]), Symbol(q[3])] == Quad(a, b, c)
  {
    hide Symbol;
    var x, y, z: nat := a, b, c;
    SplitGroup(x, y, z);
    q := [x / 4, x % 4 * 16 + y / 16, y % 16 * 4 + z / 64, z % 64];
  }

  /** The masks and shifts of the source cut the twenty-four bits into sixes. */
  lemma SplitGroup(x: nat, y: nat, z: nat)
    requires x < 256 && y < 256 && z < 256
    ensures var n := 65536 * x + 256 * y + z;
      && x / 4 == n / 262144 && x % 4 * 16 + y / 16 == n / 4096 % 64
      && y % 16 * 4 + z / 64 == n / 64 % 64 && z % 64 == n % 64
  {
    var n := 65536 * x + 256 * y + z;
    var q0, q1, q2, q3 := x / 4, x % 4 * 16 + y / 16, y % 16 * 4 + z / 64, z % 64;
    assert n == 262144 * q0 + 4096 * q1 + 64 * q2 + q3;
    Digits(n, q0, q1, q2, q3);
  }

  lemma Digits(n: nat, q0: Sextet, q1: Sextet, q2: Sextet, q3: Sextet)
    requires n == 262144 * q0 + 4096 * q1 + 64 * q2 + q3
    ensures n / 262144 == q0 && n / 4096 % 64 == q1 && n / 64 % 64 == q2 && n % 64 == q3
  {
    assert n / 64 == 4096 * q0 + 64 * q1 + q2;
    assert n / 4096 == 64 * q0 + q1;
  }

  /** The inner loop: the first count characters of a group. */
  method AppendSymbols(before: string, three: array<byte>, count: nat) returns (ret: string)
    requires three.Length == 3 && count <= 4
    ensures ret == before + Quad(three[0], three[1], three[2])[..count]
  {
    hide Quad, Symbol;
    var q := EncodeGroup(three[0], three[1], three[2]);
    ret := before;
    var j := 0;
    while j < count
      invariant 0 <= j <= count && ret == before + Quad(three[0], three[1], three[2])[..j]
    {
      ret := ret + [Symbol(q[j])];
      j := j + 1;
    }
  }

  lemma EncodeStep(s: seq<byte>, ret: string)
    requires |s| >= 3
    ensures ret + Encode(s) == ret + Quad(s[0], s[1], s[2])[..4] + Encode(s[3..])
  {
    hide Quad;
    assert Quad(s[0], s[1], s[2])[..4] == Quad(s[0], s[1], s[2]);
    assert ret + (Quad(s[0], s[1], s[2]) + Encode(s[3..])) == ret + Quad(s[0], s[1], s[2]) + Encode(s[3..]);
  }

  /** A group of three: rest is the text from its first octet on. */
  method AppendGroup(before: string, three: array<byte>, ghost rest: seq<byte>) returns (ret: string)
    requires three.Length == 3 && |rest| >= 3 && rest[0] == three[0] && rest[1] == three[1] && rest[2] == three[2]
    ensures ret + Encode(rest[3..]) == before + Encode(rest)
  {
    hide Quad, Encode, Symbol;
    EncodeStep(rest, before);
    ret := AppendSymbols(before, three, 4);
  }

  method EncodeBuffer(input: array<byte>, length: nat) returns (ret: string)
    requires length <= input.Length
    ensures ret == Encode(input[..length])
  {
    hide Quad, Encode, Symbol;
    ret := [];
    var three := new byte[3](_ => 0);
    var i := 0;
    var n := 0;
    ghost var text := input[..length];
    ghost var rest := text;
    while n < length
      invariant 0 <= i < 3 && i <= n <= length
      invariant |rest| == length - n + i && forall j :: 0 <= j < |rest| ==> rest[j] == input[n - i + j]
      invariant forall j :: 0 <= j < i ==> three[j] == rest[j]
      invariant ret + Encode(rest) == Encode(text)
    {
      three[i] := input[n];
      assert rest[i] == input[n];
      n := n + 1;
      i := i + 1;
      if i == 3 {
        ret := AppendGroup(ret, three, rest);
        rest := rest[3..];
        i := 0;
      }
    }
    if i != 0 {
      ret := EncodeTail(three, i, ret, rest);
    } else {
      assert rest == [];
      EncodeNothing();
      assert ret + [] == ret;
    }
  }

  lemma EncodeNothing()
    ensures Encode([]) == []
  {
  }

  method EncodeTail(three: array<byte>, count: nat, before: string, ghost rest: seq<byte>) returns (ret: string)
    requires three.Length == 3 && 0 < count < 3
    requires |rest| == count && forall j :: 0 <= j < count ==> three[j] == rest[j]
    modifies three
    ensures ret == before + Encode(rest)
  {
    hide Quad, Symbol;
    var i := count;
    var j := i;
    while j < 3
      invariant i <= j <= 3
      invariant forall k :: 0 <= k < j ==> three[k] == if k < i then rest[k] else 0
    {
      three[j] := 0;
      j := j + 1;
    }
    ret := AppendSymbols(before, three, i + 1);
    ghost var symbols := Quad(three[0], three[1], three[2])[..count + 1];
    while i < 3
      invariant count <= i <= 3 && ret == before + symbols + seq(i - count, _ => '=')
    {
      ret := ret + "=";
      i := i + 1;
    }
    assert seq(3 - count, _ => '=') == if count == 1 then "==" else "=";
    assert before + symbols + seq(3 - count, _ => '=') == before + (symbols + seq(3 - count, _ => '='));
  }

  // ---- base64_decode ----

  /** The three octets of a group, for any four bytes, cut down to unsigned char. */
  function DecodeGroup(w: byte, x: byte, y: byte, z: byte): (t: seq<byte>)
    ensures |t| == 3
  {
    var c0, c1, c2, c3: nat := w, x, y, z;
    [(c0 * 4 + c1 / 16 % 4) % 256, (c1 % 16 * 16 + c2 / 4 % 16) % 256, (c2 % 4 * 64 + c3) % 256]
  }

  /**
   Whatever stands for the missing symbols of a last group, the octets that are kept do not
   depend on it: two symbols determine the first octet and three the first two.
   */
  lemma FillerNeverReachesOutput(w: Sextet, x: Sextet, y: Sextet, z: Sextet, filler: byte, filler': byte)
    ensures DecodeGroup(w, x, y, z) == Triple(w, x, y, z)
    ensures DecodeGroup(w, x, filler, filler')[..1] == Triple(w, x, 0, 0)[..1]
    ensures DecodeGroup(w, x, y, filler)[..2] == Triple(w, x, y, 0)[..2]
  {
    JoinGroup(w, x, y, z);
    JoinGroup(w, x, y, 0);
    JoinGroup(w, x, 0, 0);
  }

  lemma SmallSextets(w: Sextet, x: Sextet, y: Sextet, z: Sextet)
    ensures x / 16 % 4 == x / 16 && y / 4 % 16 == y / 4
    ensures w * 4 + x / 16 < 256 && x % 16 * 16 + y / 4 < 256 && y % 4 * 64 + z < 256
    ensures x == 16 * (x / 16) + x % 16 && y == 4 * (y / 4) + y % 4
  {
  }

  lemma JoinGroup(w: Sextet, x: Sextet, y: Sextet, z: Sextet)
    ensures DecodeGroup(w, x, y, z) == Triple(w, x, y, z)
  {
    JoinedOctets(w, x, y, z);
    SixesAreEights(w, x, y, z);
    hide DecodeGroup, Triple;
    TripleIs(w, x, y, z, w * 4 + x / 16, x % 16 * 16 + y / 4, y % 4 * 64 + z);
  }

  /** The masks of the source take nothing away from sextets. */
  lemma JoinedOctets(w: Sextet, x: Sextet, y: Sextet, z: Sextet)
    ensures w * 4 + x / 16 < 256 && x % 16 * 16 + y / 4 < 256 && y % 4 * 64 + z < 256
    ensures DecodeGroup(w, x, y, z) == [w * 4 + x / 16, x % 16 * 16 + y / 4, y % 4 * 64 + z]
  {
    SmallSextets(w, x, y, z);
    Kept(w * 4 + x / 16);
    Kept(x % 16 * 16 + y / 4);
    Kept(y % 4 * 64 + z);
  }

  lemma Kept(n: nat)
    requires n < 256
    ensures n % 256 == n
  {
  }

  lemma SixesAreEights(w: Sextet, x: Sextet, y: Sextet, z: Sextet)
    ensures 262144 * w + 4096 * x + 64 * y + z
         == 65536 * (w * 4 + x / 16) + 256 * (x % 16 * 16 + y / 4) + (y % 4 * 64 + z)
  {
    SmallSextets(w, x, y, z);
  }

  method AppendOctets(before: seq<byte>, four: string, ghost rest: string) returns (ret: seq<byte>)
    requires |four| == 4 && |rest| >= 4 && rest[..4] == four && forall i :: 0 <= i < |rest| ==> IsBase64(rest[i])
    ensures ret + DecodeSymbols(rest[4..]) == before + DecodeSymbols(rest)
  {
    hide Triple, Index, IsBase64, DecodeSymbols;
    assert four[0] == rest[0] && four[1] == rest[1] && four[2] == rest[2] && four[3] == rest[3];
    DecodeStep(rest);
    var three := DecodeFour(four);
    Associate(before, three, DecodeSymbols(rest[4..]));
    ret := before + three;
  }

  method DecodeString(input: string) returns (ret: seq<byte>)
    ensures ret == Decode(input)
  {
    hide Triple, Index, IsBase64, DecodeSymbols;
    ret := [];
    var four: string := [];
    var at := 0;
    ghost var p := Prefix(input);
    EqualsIsNotASymbol();
    while at < |input| && input[at] != '=' && IsBase64(input[at])
      invariant 0 <= at <= |p| && |four| < 4 && |four| <= at && four == p[at - |four|..at]
      invariant ret + DecodeSymbols(p[at - |four|..]) == DecodeSymbols(p)
    {
      assert at < |p| && p[at] == input[at];
      ghost var rest := p[at - |four|..];
      four := four + [input[at]];
      at := at + 1;
      if |four| == 4 {
        assert rest[..4] == four && rest[4..] == p[at..];
        ret := AppendOctets(ret, four, rest);
        four := [];
      }
    }
    assert at == |p|;
    if |four| != 0 {
      assert p[at - |four|..] == four;
      var three := DecodeRest(four);
      ret := ret + three;
    } else {
      assert p[at..] == [];
      DecodeNothing();
      assert ret + [] == ret;
    }
  }

  lemma DecodeStep(s: string)
    requires |s| >= 4 && forall i :: 0 <= i < |s| ==> IsBase64(s[i])
    ensures DecodeSymbols(s) == Triple(Index(s[0]), Index(s[1]), Index(s[2]), Index(s[3])) + DecodeSymbols(s[4..])
  {
    hide Triple, Index, IsBase64;
  }

  lemma DecodeNothing()
    ensures DecodeSymbols([]) == []
  {
  }

  method DecodeFour(four: string) returns (three: seq<byte>)
    requires |four| == 4 && forall i :: 0 <= i < 4 ==> IsBase64(four[i])
    ensures three == Triple(Index(four[0]), Index(four[1]), Index(four[2]), Index(four[3]))
  {
    hide ValueOf, IsBase64, Index, Triple, DecodeGroup, Symbol;
    AlphabetExactly(four[0]);
    AlphabetExactly(four[1]);
    AlphabetExactly(four[2]);
    AlphabetExactly(four[3]);
    FillerNeverReachesOutput(Index(four[0]), Index(four[1]), Index(four[2]), Index(four[3]), 0, 0);
    three := DecodeGroup(ValueOf(four[0]), ValueOf(four[1]), ValueOf(four[2]), ValueOf(four[3]));
  }

  /** The last group: the missing symbols become NULs, and those become whatever find makes of them. */
  method DecodeRest(group: string) returns (octets: seq<byte>)
    requires 0 < |group| < 4 && forall i :: 0 <= i < |group| ==> IsBase64(group[i])
    ensures octets == DecodeSymbols(group)
  {
    hide ValueOf, IsBase64, Index, Triple, DecodeGroup, Symbol;
    var four := group;
    while |four| < 4
      invariant |group| <= |four| <= 4 && group == four[..|group|]
    {
      four := four + ['\0'];
    }
    assert four[0] == group[0];
    AlphabetExactly(four[0]);
    AlphabetExactly(four[1]);
    AlphabetExactly(four[2]);
    var three := DecodeGroup(ValueOf(four[0]), ValueOf(four[1]), ValueOf(four[2]), ValueOf(four[3]));
    if |group| >= 2 {
      assert four[1] == group[1];
      FillerNeverReachesOutput(Index(group[0]), Index(group[1]), 0, 0, ValueOf(four[2]), ValueOf(four[3]));
    }
    if |group| == 3 {
      assert four[2] == group[2];
      FillerNeverReachesOutput(Index(group[0]), Index(group[1]), Index(group[2]), 0, ValueOf(four[3]), 0);
    }
    octets := three[..|group| - 1];
  }

  // ---- Which strings come back ----

  /** Section 3.5 of RFC 4648: whole groups of symbols, padding only at the end, and pad bits zero. */
  predicate Canonical(s: string)
    decreases |s|
  {
    || s == []
    || (|s| == 4 && IsBase64(s[0]) && IsBase64(s[1]) && s[2] == '=' && s[3] == '=' && Index(s[1]) % 16 == 0)
    || (|s| == 4 && IsBase64(s[0]) && IsBase64(s[1]) && IsBase64(s[2]) && s[3] == '=' && Index(s[2]) % 4 == 0)
    || (|s| >= 4 && IsBase64(s[0]) && IsBase64(s[1]) && IsBase64(s[2]) && IsBase64(s[3]) && Canonical(s[4..]))
  }

  lemma {:induction false} EncodeIsCanonical(s: seq<byte>)
    ensures Canonical(Encode(s))
    decreases |s|
  {
    hide Quad, Index, IsBase64;
    if |s| > 0 {
      var a := s[0];
      var b: byte := if |s| > 1 then s[1] else 0;
      var c: byte := if |s| > 2 then s[2] else 0;
      QuadSymbols(a, b, c);
      if |s| == 1 {
        PadBits(a, 0);
      } else if |s| == 2 {
        PadBits(a, b);
      } else {
        EncodeIsCanonical(s[3..]);
        assert Encode(s)[4..] == Encode(s[3..]);
      }
    }
  }

  lemma PadBits(a: byte, b: byte)
    ensures Joined(a, 0, 0) / 4096 % 64 % 16 == 0
    ensures Joined(a, b, 0) / 64 % 64 % 4 == 0
  {
    var x: nat := a;
    var y: nat := b;
    assert Joined(a, 0, 0) == 65536 * x + 256 * 0 + 0;
    assert Joined(a, b, 0) == 65536 * x + 256 * y + 0;
    hide Joined;
    SplitGroup(x, 0, 0);
    SplitGroup(x, y, 0);
    Multiples(x % 4, y % 16);
  }

  lemma Multiples(i: int, j: int)
    ensures 16 * i % 16 == 0 && 4 * j % 4 == 0
  {
  }

  lemma WholeOctets(n: nat)
    ensures n == 65536 * (n / 65536) + 256 * (n / 256 % 256) + n % 256
  {
    var n1 := n / 256;
    assert n1 / 256 == n / 65536;
  }

  lemma QuadOfTriple(w: Sextet, x: Sextet, y: Sextet, z: Sextet)
    ensures var t := Triple(w, x, y, z); Quad(t[0], t[1], t[2]) == [Symbol(w), Symbol(x), Symbol(y), Symbol(z)]
  {
    hide Symbol;
    var n := 262144 * w + 4096 * x + 64 * y + z;
    WholeOctets(n);
    Digits(n, w, x, y, z);
  }

  /** Decoding loses nothing of a string, and encoding gives it back, exactly when it is canonical. */
  lemma {:induction false} EncodeOfDecodeExactly(s: string)
    ensures Encode(Decode(s)) == s <==> Canonical(s)
  {
    if Canonical(s) {
      CanonicalComesBack(s);
    } else {
      EncodeIsCanonical(Decode(s));
    }
  }

  lemma TwoSymbolsComeBack(s: string)
    requires |s| == 4 && IsBase64(s[0]) && IsBase64(s[1]) && s[2] == '=' && s[3] == '=' && Index(s[1]) % 16 == 0
    ensures Encode(Decode(s)) == s
  {
    hide Quad, Triple, Index, IsBase64, Symbol;
    EqualsIsNotASymbol();
    PrefixAppend(s[..2], "==");
    assert s == s[..2] + "==" && s[..2] + [] == s[..2];
    AlphabetExactly(s[0]);
    AlphabetExactly(s[1]);
    var w, x := Index(s[0]), Index(s[1]);
    QuadOfTriple(w, x, 0, 0);
    LastOctets(w, x, 0);
  }

  lemma ThreeSymbolsComeBack(s: string)
    requires |s| == 4 && IsBase64(s[0]) && IsBase64(s[1]) && IsBase64(s[2]) && s[3] == '=' && Index(s[2]) % 4 == 0
    ensures Encode(Decode(s)) == s
  {
    hide Quad, Triple, Index, IsBase64, Symbol;
    EqualsIsNotASymbol();
    PrefixAppend(s[..3], "=");
    assert s == s[..3] + "=" && s[..3] + [] == s[..3];
    AlphabetExactly(s[0]);
    AlphabetExactly(s[1]);
    AlphabetExactly(s[2]);
    var w, x, y := Index(s[0]), Index(s[1]), Index(s[2]);
    QuadOfTriple(w, x, y, 0);
    LastOctets(w, x, y);
  }

  lemma {:induction false} CanonicalComesBack(s: string)
    requires Canonical(s)
    ensures Encode(Decode(s)) == s
    decreases |s|
  {
    hide Quad, Triple, Index, IsBase64, Symbol;
    EqualsIsNotASymbol();
    if s == [] {
    } else if s[2] == '=' {
      TwoSymbolsComeBack(s);
    } else if s[3] == '=' {
      ThreeSymbolsComeBack(s);
    } else {
      PrefixAppend(s[..4], s[4..]);
      assert s == s[..4] + s[4..];
      AlphabetExactly(s[0]);
      AlphabetExactly(s[1]);
      AlphabetExactly(s[2]);
      AlphabetExactly(s[3]);
      QuadOfTriple(Index(s[0]), Index(s[1]), Index(s[2]), Index(s[3]));
      CanonicalComesBack(s[4..]);
      var t := Triple(Index(s[0]), Index(s[1]), Index(s[2]), Index(s[3]));
      assert Prefix(s)[4..] == Prefix(s[4..]);
      assert Decode(s) == t + Decode(s[4..]);
      assert Decode(s)[3..] == Decode(s[4..]);
    }
  }

  lemma LastOctets(w: Sextet, x: Sextet, y: Sextet)
    ensures x % 16 == 0 ==> Triple(w, x, 0, 0)[1] == 0 && Triple(w, x, 0, 0)[2] == 0
    ensures y % 4 == 0 ==> Triple(w, x, y, 0)[2] == 0
  {
    hide Triple;
    JoinGroup(w, x, 0, 0);
    JoinGroup(w, x, y, 0);
  }
}
