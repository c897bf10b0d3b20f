/**
 The key rollover table of cloudGame/include/libGetrtpcmd_copy.cpp: five slots for held keys, one
 for a modifier, and the report the HID driver is sent after each event.
 */
module Keys {
  import opened Bytes

  // ---- The tables of KeyCodeInit ----

  type Entry = (int, byte)

  const DIGITS: seq<Entry> := [
    (0, 0), (48, 39), (49, 30), (50, 31), (51, 32), (52, 33), (53, 34), (54, 35), (55, 36), (56, 37), (57, 38)]
  const LETTERS_A: seq<Entry> := [
    (65, 4), (66, 5), (67, 6), (68, 7), (69, 8), (70, 9), (71, 10), (72, 11), (73, 12), (74, 13), (75, 14),
    (76, 15), (77, 16)]
  const LETTERS_N: seq<Entry> := [
    (78, 17), (79, 18), (80, 19), (81, 20), (82, 21), (83, 22), (84, 23), (85, 24), (86, 25), (87, 26), (88, 27),
    (89, 28), (90, 29)]
  const KEYPAD: seq<Entry> := [
    (96, 98), (97, 89), (98, 90), (99, 91), (100, 92), (101, 93), (102, 94), (103, 95), (104, 96), (105, 97)]
  const OPERATORS: seq<Entry> := [(106, 85), (107, 87), (108, 88), (109, 86), (110, 99), (111, 84)]
  const FUNCTIONS: seq<Entry> := [
    (112, 58), (113, 59), (114, 60), (115, 61), (116, 62), (117, 63), (118, 64), (119, 65), (120, 66), (121, 67),
    (122, 68), (123, 69)]
  const EDITING: seq<Entry> := [(8, 42), (9, 43), (13, 40), (20, 57), (27, 41), (32, 44), (33, 75), (34, 78), (35, 77)]
  const ARROWS: seq<Entry> := [(36, 74), (37, 80), (38, 82), (39, 79), (40, 81), (45, 73), (46, 76), (144, 83)]
  const SYMBOLS: seq<Entry> := [
    (186, 51), (187, 46), (188, 54), (189, 45), (190, 55), (191, 56), (192, 53), (219, 47), (220, 49), (221, 48),
    (222, 50)]
  const MODIFIERS: seq<Entry> := [
    (0, 0), (17, 1), (16, 2), (18, 4), (91, 8), (317, 16), (316, 32), (318, 64), (391, 128)]

  /** std::map::insert: a key that is there keeps its value. */
  function Insert(m: map<int, byte>, e: Entry): map<int, byte> {
    if e.0 in m then m else m[e.0 := e.1]
  }

  function InsertAll(m: map<int, byte>, t: seq<Entry>): map<int, byte>
    decreases |t|
  {
    if t == [] then m else InsertAll(Insert(m, t[0]), t[1..])
  }

  const ROWS: seq<seq<Entry>> := [DIGITS, LETTERS_A, LETTERS_N, KEYPAD, OPERATORS, FUNCTIONS, EDITING, ARROWS, SYMBOLS]

  function InsertRows(m: map<int, byte>, rows: seq<seq<Entry>>): map<int, byte>
    decreases |rows|
  {
    if rows == [] then m else InsertRows(InsertAll(m, rows[0]), rows[1..])
  }

  function KeyCodes(): map<int, byte> {
    InsertRows(map[], ROWS)
  }

  function ModifierCodes(): map<int, byte> {
    InsertAll(map[], MODIFIERS)
  }

  /** The key a HID usage belongs to, and a number that is no key for Print Screen, Scroll Lock and Pause. */
  function KeyOf(b: byte): int {
    var v: int := b;
    if v == 0 then 0 else if v <= 29 then v + 61 else if v <= 38 then v + 19 else if v == 39 then 48
    else if v == 40 then 13 else if v == 41 then 27 else if v == 42 then 8 else if v == 43 then 9
    else if v == 44 then 32 else if v == 45 then 189 else if v == 46 then 187 else if v == 47 then 219
    else if v == 48 then 221 else if v == 49 then 220 else if v == 50 then 222 else if v == 51 then 186
    else if v == 53 then 192 else if v == 54 then 188 else if v == 55 then 190 else if v == 56 then 191
    else if v == 57 then 20 else if v <= 69 then v + 54 else if v <= 72 then -v else if v == 73 then 45
    else if v == 74 then 36
    else if v == 75 then 33 else if v == 76 then 46 else if v == 77 then 35 else if v == 78 then 34
    else if v == 79 then 39 else if v == 80 then 37 else if v == 81 then 40 else if v == 82 then 38
    else if v == 83 then 144 else if v == 84 then 111 else if v == 85 then 106 else if v == 86 then 109
    else if v == 87 then 107 else if v == 88 then 108 else if v <= 97 then v + 8 else if v == 98 then 96
    else 110
  }

  predicate Inverted(t: seq<Entry>) {
    forall i :: 0 <= i < |t| ==> KeyOf(t[i].1) == t[i].0
  }

  predicate InvertedMap(m: map<int, byte>) {
    forall k :: k in m ==> KeyOf(m[k]) == k
  }

  predicate Injective(codes: map<int, byte>) {
    && 0 in codes && codes[0] == 0
    && forall j, k :: j in codes && k in codes && codes[j] == codes[k] ==> j == k
  }

  lemma MainRowsInverted()
    ensures Inverted(DIGITS) && Inverted(LETTERS_A) && Inverted(LETTERS_N)
  {
  }

  lemma KeypadInverted()
    ensures Inverted(KEYPAD)
  {
  }

  lemma FunctionsInverted()
    ensures Inverted(OPERATORS) && Inverted(FUNCTIONS)
  {
  }

  lemma OtherRowsInverted()
    ensures Inverted(EDITING) && Inverted(ARROWS) && Inverted(SYMBOLS)
  {
  }

  lemma RowsInverted()
    ensures forall i :: 0 <= i < |ROWS| ==> Inverted(ROWS[i])
  {
    MainRowsInverted();
    KeypadInverted();
    FunctionsInverted();
    OtherRowsInverted();
    hide Inverted, DIGITS, LETTERS_A, LETTERS_N, KEYPAD, OPERATORS, FUNCTIONS, EDITING, ARROWS, SYMBOLS;
  }

  lemma {:induction false} InsertAllInverted(m: map<int, byte>, t: seq<Entry>)
    requires InvertedMap(m) && Inverted(t)
    ensures InvertedMap(InsertAll(m, t))
    ensures forall k :: k in m ==> k in InsertAll(m, t) && InsertAll(m, t)[k] == m[k]
    decreases |t|
  {
    hide KeyOf;
    if t != [] {
      assert KeyOf(t[0].1) == t[0].0;
      InsertAllInverted(Insert(m, t[0]), t[1..]);
    }
  }

  lemma {:induction false} InsertRowsInverted(m: map<int, byte>, rows: seq<seq<Entry>>)
    requires InvertedMap(m) && forall i :: 0 <= i < |rows| ==> Inverted(rows[i])
    ensures InvertedMap(InsertRows(m, rows))
    ensures forall k :: k in m ==> k in InsertRows(m, rows) && InsertRows(m, rows)[k] == m[k]
    decreases |rows|
  {
    hide Inverted, InvertedMap;
    if rows != [] {
      InsertAllInverted(m, rows[0]);
      InsertRowsInverted(InsertAll(m, rows[0]), rows[1..]);
    }
  }

  /** No two keys have the same usage, and the absent key 0 has usage 0. */
  lemma KeyCodesInjective()
    ensures Injective(KeyCodes())
  {
    hide InsertAll, InsertRows, KeyOf, Inverted, DIGITS, LETTERS_A, LETTERS_N, KEYPAD, OPERATORS, FUNCTIONS,
         EDITING, ARROWS, SYMBOLS;
    RowsInverted();
    InsertRowsInverted(map[], ROWS);
    ZeroFirst();
    FirstRow();
    InsertAllInverted(map[], ROWS[0]);
    InsertRowsInverted(InsertAll(map[], ROWS[0]), ROWS[1..]);
    InversesAreInjective(KeyCodes());
  }

  lemma FirstRow()
    ensures ROWS[0] == DIGITS
    ensures KeyCodes() == InsertRows(InsertAll(map[], ROWS[0]), ROWS[1..])
  {
    hide InsertAll, DIGITS, LETTERS_A, LETTERS_N, KEYPAD, OPERATORS, FUNCTIONS, EDITING, ARROWS, SYMBOLS;
  }

  lemma InversesAreInjective(m: map<int, byte>)
    requires InvertedMap(m)
    ensures forall j, k :: j in m && k in m && m[j] == m[k] ==> j == k
  {
    hide KeyOf;
    forall j, k | j in m && k in m && m[j] == m[k] ensures j == k {
      assert KeyOf(m[j]) == j && KeyOf(m[k]) == k;
    }
  }

  lemma {:induction false} InsertAllKeeps(m: map<int, byte>, t: seq<Entry>, k: int)
    requires k in m
    ensures k in InsertAll(m, t) && InsertAll(m, t)[k] == m[k]
    decreases |t|
  {
    if t != [] {
      InsertAllKeeps(Insert(m, t[0]), t[1..], k);
    }
  }

  lemma ZeroFirst()
    ensures 0 in InsertAll(map[], DIGITS) && InsertAll(map[], DIGITS)[0] == 0
  {
    InsertAllKeeps(Insert(map[], DIGITS[0]), DIGITS[1..], 0);
  }

  // ---- What the tables say, apart from the tables ----

  lemma {:induction false} InsertAllHas(m: map<int, byte>, t: seq<Entry>, i: nat)
    requires i < |t|
    ensures t[i].0 in InsertAll(m, t)
    decreases |t|
  {
    if i == 0 {
      InsertAllKeeps(Insert(m, t[0]), t[1..], t[0].0);
    } else {
      InsertAllHas(Insert(m, t[0]), t[1..], i - 1);
    }
  }

  lemma {:induction false} InsertRowsKeeps(m: map<int, byte>, rows: seq<seq<Entry>>, k: int)
    requires k in m
    ensures k in InsertRows(m, rows)
    decreases |rows|
  {
    hide InsertAll;
    if rows != [] {
      InsertAllKeeps(m, rows[0], k);
      InsertRowsKeeps(InsertAll(m, rows[0]), rows[1..], k);
    }
  }

  lemma {:induction false} InsertRowsHas(m: map<int, byte>, rows: seq<seq<Entry>>, r: nat, i: nat)
    requires r < |rows| && i < |rows[r]|
    ensures rows[r][i].0 in InsertRows(m, rows)
    decreases |rows|
  {
    hide InsertAll;
    if r == 0 {
      InsertAllHas(m, rows[0], i);
      InsertRowsKeeps(InsertAll(m, rows[0]), rows[1..], rows[0][i].0);
    } else {
      InsertRowsHas(InsertAll(m, rows[0]), rows[1..], r - 1, i);
    }
  }

  /** From index from on, the entries are for the keys first, first + 1 and so on. */
  predicate Consecutive(t: seq<Entry>, from: nat, first: int) {
    forall i :: from <= i < |t| ==> t[i].0 == first + (i - from)
  }

  lemma TypewriterRows()
    ensures |DIGITS| == 11 && |LETTERS_A| == 13 && |LETTERS_N| == 13
    ensures DIGITS[1].0 == 48 && Consecutive(DIGITS, 2, 49)
    ensures Consecutive(LETTERS_A, 0, 65) && Consecutive(LETTERS_N, 0, 78)
  {
  }

  lemma OtherRows()
    ensures |KEYPAD| == 10 && |FUNCTIONS| == 12
    ensures Consecutive(KEYPAD, 0, 96) && Consecutive(FUNCTIONS, 0, 112)
  {
  }

  lemma RowsInOrder()
    ensures |ROWS| == 9
    ensures ROWS[0] == DIGITS && ROWS[1] == LETTERS_A && ROWS[2] == LETTERS_N && ROWS[3] == KEYPAD
    ensures ROWS[5] == FUNCTIONS
  {
    hide DIGITS, LETTERS_A, LETTERS_N, KEYPAD, OPERATORS, FUNCTIONS, EDITING, ARROWS, SYMBOLS;
  }

  /** Digits, letters, function keys and the digits of the keypad. */
  predicate Common(k: int) {
    48 <= k <= 57 || 65 <= k <= 90 || 96 <= k <= 105 || 112 <= k <= 123
  }

  lemma CommonHasRow(k: int) returns (r: nat, i: nat)
    requires Common(k)
    ensures r < |ROWS| && i < |ROWS[r]| && ROWS[r][i].0 == k
  {
    TypewriterRows();
    OtherRows();
    RowsInOrder();
    hide ROWS, DIGITS, LETTERS_A, LETTERS_N, KEYPAD, FUNCTIONS;
    r, i :=
      if k <= 57 then 0 else if k <= 77 then 1 else if k <= 90 then 2
      else if k <= 105 then 3 else 5,
      if k == 48 then 1 else if k <= 57 then k - 47 else if k <= 77 then k - 65 else if k <= 90 then k - 78
      else if k <= 105 then k - 96 else k - 112;
  }

  /**
   The usages of the HID keyboard page for the common keys: letters from 4 on, the digits 1 to 9 from
   30 on and 0 after them, F1 to F12 from 58 on, the keypad's 1 to 9 from 89 on and 0 after them.
   */
  lemma CommonUsages(k: int)
    requires Common(k)
    ensures k in KeyCodes()
    ensures 65 <= k <= 90 ==> KeyCodes()[k] == 4 + (k - 65)
    ensures 49 <= k <= 57 ==> KeyCodes()[k] == 30 + (k - 49)
    ensures k == 48 ==> KeyCodes()[k] == 39
    ensures 112 <= k <= 123 ==> KeyCodes()[k] == 58 + (k - 112)
    ensures 97 <= k <= 105 ==> KeyCodes()[k] == 89 + (k - 97)
    ensures k == 96 ==> KeyCodes()[k] == 98
  {
    hide KeyOf, Inverted, InsertRows, InsertAll, ROWS, Common;
    RowsInverted();
    InsertRowsInverted(map[], ROWS);
    var r, i := CommonHasRow(k);
    InsertRowsHas(map[], ROWS, r, i);
    UsageOfCommon(k, KeyCodes()[k]);
  }

  lemma UsageOfCommon(k: int, b: byte)
    requires Common(k) && KeyOf(b) == k
    ensures 65 <= k <= 90 ==> b == 4 + (k - 65)
    ensures 49 <= k <= 57 ==> b == 30 + (k - 49)
    ensures k == 48 ==> b == 39
    ensures 112 <= k <= 123 ==> b == 58 + (k - 112)
    ensures 97 <= k <= 105 ==> b == 89 + (k - 97)
    ensures k == 96 ==> b == 98
  {
  }

  lemma InsertNew(m: map<int, byte>, t: seq<Entry>, i: nat, key: int, code: byte)
    requires i < |t| && t[i] == (key, code) && key !in m
    ensures InsertAll(m, t[i..]) == InsertAll(m[key := code], t[i + 1..])
  {
    assert t[i..][0] == t[i] && t[i..][1..] == t[i + 1..];
  }

  lemma LeftModifiers(t: seq<Entry>)
    requires |t| == 9 && t[0] == (0, 0) && t[1] == (17, 1) && t[2] == (16, 2) && t[3] == (18, 4) && t[4] == (91, 8)
    ensures InsertAll(map[], t) == InsertAll(map[0 := 0, 17 := 1, 16 := 2, 18 := 4, 91 := 8], t[5..])
  {
    hide InsertAll;
    assert t[0..] == t;
    InsertNew(map[], t, 0, 0, 0);
    InsertNew(map[0 := 0], t, 1, 17, 1);
    InsertNew(map[0 := 0, 17 := 1], t, 2, 16, 2);
    InsertNew(map[0 := 0, 17 := 1, 16 := 2], t, 3, 18, 4);
    InsertNew(map[0 := 0, 17 := 1, 16 := 2, 18 := 4], t, 4, 91, 8);
  }

  lemma RightModifiers(m: map<int, byte>, t: seq<Entry>)
    requires |t| == 9 && t[5] == (317, 16) && t[6] == (316, 32) && t[7] == (318, 64) && t[8] == (391, 128)
    requires 317 !in m && 316 !in m && 318 !in m && 391 !in m
    ensures InsertAll(m, t[5..]) == m[317 := 16][316 := 32][318 := 64][391 := 128]
  {
    InsertNone(m[317 := 16][316 := 32][318 := 64][391 := 128], t);
    hide InsertAll;
    InsertNew(m, t, 5, 317, 16);
    InsertNew(m[317 := 16], t, 6, 316, 32);
    InsertNew(m[317 := 16][316 := 32], t, 7, 318, 64);
    InsertNew(m[317 := 16][316 := 32][318 := 64], t, 8, 391, 128);
  }

  lemma InsertNone(m: map<int, byte>, t: seq<Entry>)
    ensures InsertAll(m, t[|t|..]) == m
  {
  }

  /**
   The modifier byte of the HID boot keyboard: Control, Shift, Alt and GUI are its bits, those of the
   left hand first, and there is no other modifier.
   */
  lemma ModifierBits()
    ensures ModifierCodes() ==
      map[0 := 0, 17 := 1, 16 := 2, 18 := 4, 91 := 8, 317 := 16, 316 := 32, 318 := 64, 391 := 128]
  {
    hide InsertAll;
    LeftModifiers(MODIFIERS);
    RightModifiers(map[0 := 0, 17 := 1, 16 := 2, 18 := 4, 91 := 8], MODIFIERS);
  }

  lemma ModifiersInjective()
    ensures Injective(ModifierCodes())
  {
    ModifierBits();
    hide ModifierCodes;
    var m := ModifierCodes();
    var back: map<byte, int> :=
      map[0 := 0, 1 := 17, 2 := 16, 4 := 18, 8 := 91, 16 := 317, 32 := 316, 64 := 318, 128 := 391];
    assert forall k :: k in m ==> m[k] in back && back[m[k]] == k;
  }

  /** KeyCode and ModifiersKeyCodes. */
  datatype Maps = Maps(keys: map<int, byte>, modifiers: map<int, byte>)

  /** What the slots and reports rely on: no two keys share a usage or a code, and key 0 stands for no key. */
  predicate Sound(m: Maps) {
    Injective(m.keys) && Injective(m.modifiers)
  }

  lemma TablesAreSound()
    ensures Sound(Maps(KeyCodes(), ModifierCodes()))
  {
    hide Injective, KeyCodes, ModifierCodes;
    KeyCodesInjective();
    ModifiersInjective();
  }

  // ---- Slots, and the set they stand for ----

  /** The first empty slot takes the key. */
  function Fill(slots: seq<int>, key: int): (r: seq<int>)
    ensures |r| == |slots|
  {
    if slots == [] then []
    else if slots[0] == 0 then [key] + slots[1..]
    else [slots[0]] + Fill(slots[1..], key)
  }

  function PressSlots(m: Maps, slots: seq<int>, key: int): (r: seq<int>)
    ensures |r| == |slots|
  {
    if key !in m.keys || key in slots then slots else Fill(slots, key)
  }

  function ReleaseSlots(slots: seq<int>, key: int): (r: seq<int>)
    ensures |r| == |slots|
  {
    seq(|slots|, i requires 0 <= i < |slots| => if slots[i] == key then 0 else slots[i])
  }

  function Held(slots: seq<int>): set<int> {
    set k | k in slots && k != 0
  }

  predicate Distinct(slots: seq<int>) {
    forall i, j :: 0 <= i < j < |slots| && slots[i] == slots[j] ==> slots[i] == 0
  }

  /** The slots hold different mapped keys, or nothing. */
  predicate Table(m: Maps, slots: seq<int>) {
    |slots| == 5 && Distinct(slots) && forall i :: 0 <= i < |slots| ==> slots[i] in m.keys
  }

  const CAPACITY: nat := 5

  /** Pressing on a set of at most five keys: an unmapped key and a sixth key are dropped. */
  function Press(m: Maps, held: set<int>, key: int): set<int> {
    if key in m.keys && key != 0 && (key in held || |held| < CAPACITY) then held + {key} else held
  }

  function Release(held: set<int>, key: int): set<int> {
    held - {key}
  }

  lemma {:induction false} HeldSize(slots: seq<int>)
    requires Distinct(slots)
    ensures |Held(slots)| <= |slots|
    ensures |Held(slots)| == |slots| <==> 0 !in slots
    decreases |slots|
  {
    if slots != [] {
      HeldSize(slots[1..]);
      if slots[0] == 0 {
        assert Held(slots) == Held(slots[1..]);
      } else {
        assert slots[0] !in slots[1..];
        assert Held(slots) == Held(slots[1..]) + {slots[0]};
        assert 0 in slots <==> 0 in slots[1..];
      }
    }
  }

  lemma {:induction false} FillAdds(slots: seq<int>, key: int)
    requires key != 0
    ensures 0 in slots ==> Held(Fill(slots, key)) == Held(slots) + {key}
    ensures 0 !in slots ==> Fill(slots, key) == slots
  {
    if slots != [] {
      var rest := slots[1..];
      if slots[0] == 0 {
        assert Held(slots) == Held(rest);
        assert Held([key] + rest) == {key} + Held(rest);
      } else {
        FillAdds(rest, key);
        assert Held([slots[0]] + Fill(rest, key)) == {slots[0]} + Held(Fill(rest, key));
        assert Held(slots) == {slots[0]} + Held(rest);
        assert 0 in slots <==> 0 in rest;
        assert [slots[0]] + rest == slots;
      }
    }
  }

  /** Only the first empty slot is filled. */
  lemma {:induction false} FillExactly(slots: seq<int>, key: int)
    ensures 0 !in slots ==> Fill(slots, key) == slots
    ensures forall i :: 0 <= i < |slots| && slots[i] == 0 && 0 !in slots[..i] ==> Fill(slots, key) == slots[i := key]
  {
    if slots != [] && slots[0] != 0 {
      var rest := slots[1..];
      FillExactly(rest, key);
      assert slots == [slots[0]] + rest;
      forall i | 0 <= i < |slots| && slots[i] == 0 && 0 !in slots[..i] ensures Fill(slots, key) == slots[i := key] {
        assert slots[..i] == [slots[0]] + rest[..i - 1];
        assert slots[i := key] == [slots[0]] + rest[i - 1 := key];
      }
    }
  }

  lemma {:induction false} FillDistinct(slots: seq<int>, key: int)
    requires Distinct(slots) && key !in slots
    ensures Distinct(Fill(slots, key))
    ensures forall k :: k in Fill(slots, key) ==> k == key || k in slots
  {
    if slots != [] && slots[0] != 0 {
      FillDistinct(slots[1..], key);
      assert slots[0] !in slots[1..];
    }
  }

  lemma PressRefines(m: Maps, slots: seq<int>, key: int)
    requires Sound(m) && Table(m, slots)
    ensures Table(m, PressSlots(m, slots, key))
    ensures Held(PressSlots(m, slots, key)) == Press(m, Held(slots), key)
  {
    HeldSize(slots);
    if key in m.keys && key !in slots {
      if key == 0 {
        FillZero(slots);
      } else {
        FillAdds(slots, key);
        FillDistinct(slots, key);
        var r := Fill(slots, key);
        forall i | 0 <= i < |r| ensures r[i] in m.keys {
          assert r[i] in r;
        }
      }
    } else {
      assert key in slots && key != 0 ==> Held(slots) + {key} == Held(slots);
    }
  }

  lemma {:induction false} FillZero(slots: seq<int>)
    requires 0 !in slots
    ensures Fill(slots, 0) == slots
  {
    if slots != [] {
      FillZero(slots[1..]);
    }
  }

  lemma ReleaseRefines(m: Maps, slots: seq<int>, key: int)
    requires Sound(m) && Table(m, slots)
    ensures Table(m, ReleaseSlots(slots, key))
    ensures Held(ReleaseSlots(slots, key)) == Release(Held(slots), key)
  {
    var r := ReleaseSlots(slots, key);
    forall k ensures k in Held(r) <==> k in Release(Held(slots), key) {
      if k in Held(slots) && k != key {
        var i :| 0 <= i < |slots| && slots[i] == k;
        assert r[i] == k;
      }
      if k in Held(r) {
        var i :| 0 <= i < |r| && r[i] == k;
        assert slots[i] == k;
      }
    }
  }

  // ---- Runs ----

  datatype Event = Down(key: int) | Up(key: int)

  /** keycodelist and Modkeycodelist. */
  datatype State = State(slots: seq<int>, modifier: int)

  const START: State := State([0, 0, 0, 0, 0], 0)

  function Step(m: Maps, s: State, e: Event): State {
    match e
    case Down(key) => State(PressSlots(m, s.slots, key), if key in m.modifiers then key else s.modifier)
    case Up(key) => State(ReleaseSlots(s.slots, key), if s.modifier == key then 0 else s.modifier)
  }

  function Run(m: Maps, s: State, events: seq<Event>): State
    decreases |events|
  {
    if events == [] then s else Run(m, Step(m, s, events[0]), events[1..])
  }

  function HeldStep(m: Maps, held: set<int>, e: Event): set<int> {
    match e
    case Down(key) => Press(m, held, key)
    case Up(key) => Release(held, key)
  }

  /** The bounded set a run of events stands for. */
  function HeldAfter(m: Maps, held: set<int>, events: seq<Event>): set<int>
    decreases |events|
  {
    if events == [] then held
    else HeldAfter(m, HeldStep(m, held, events[0]), events[1..])
  }

  predicate Good(m: Maps, s: State) {
    Table(m, s.slots) && s.modifier in m.modifiers
  }

  lemma StepGood(m: Maps, s: State, e: Event)
    requires Sound(m) && Good(m, s)
    ensures Good(m, Step(m, s, e))
    ensures Held(Step(m, s, e).slots) == HeldStep(m, Held(s.slots), e)
  {
    hide Table, PressSlots, ReleaseSlots, Press, Release, Held;
    match e
    case Down(key) => PressRefines(m, s.slots, key);
    case Up(key) => ReleaseRefines(m, s.slots, key);
  }

  /** Over any run of key events the five slots are a set of at most five keys that drops presses when full. */
  lemma {:induction false} SlotsRefineBoundedSet(m: Maps, s: State, events: seq<Event>)
    requires Sound(m) && Good(m, s)
    ensures Good(m, Run(m, s, events))
    ensures Held(Run(m, s, events).slots) == HeldAfter(m, Held(s.slots), events)
    ensures |HeldAfter(m, Held(s.slots), events)| <= CAPACITY
    decreases |events|
  {
    hide Step, Held, Press, Release;
    if events == [] {
      HeldSize(s.slots);
    } else {
      StepGood(m, s, events[0]);
      SlotsRefineBoundedSet(m, Step(m, s, events[0]), events[1..]);
    }
  }

  lemma StartGood(m: Maps)
    requires Sound(m)
    ensures Good(m, START) && Held(START.slots) == {}
  {
  }

  lemma {:induction false} RunAppend(m: Maps, s: State, events: seq<Event>, e: Event)
    ensures Run(m, s, events + [e]) == Step(m, Run(m, s, events), e)
    decreases |events|
  {
    if events == [] {
      assert [e][1..] == [] && events + [e] == [e];
    } else {
      assert (events + [e])[1..] == events[1..] + [e];
      RunAppend(m, Step(m, s, events[0]), events[1..], e);
    }
  }

  /** Event i pressed modifier k, and since then no modifier has been pressed and k not released. */
  predicate StillDown(m: Maps, events: seq<Event>, k: int, i: nat) {
    && i < |events| && events[i] == Down(k)
    && forall j :: i < j < |events| ==> events[j] != Up(k) && !(events[j].Down? && events[j].key in m.modifiers)
  }

  lemma StillDownStep(m: Maps, events: seq<Event>, k: int, i: nat, e: Event)
    requires i < |events|
    ensures StillDown(m, events + [e], k, i)
      <==> StillDown(m, events, k, i) && e != Up(k) && !(e.Down? && e.key in m.modifiers)
  {
    var all := events + [e];
    assert all[|events|] == e;
    assert forall j :: 0 <= j < |events| ==> all[j] == events[j];
  }

  /** The one modifier reported is the last one pressed, until it is released or another, or key 0, is pressed. */
  lemma {:induction false} ModifierExactly(m: Maps, events: seq<Event>, k: int)
    requires k in m.modifiers && k != 0
    ensures Run(m, START, events).modifier == k <==> exists i :: StillDown(m, events, k, i)
    decreases |events|
  {
    if events != [] {
      var n := |events| - 1;
      var before, e := events[..n], events[n];
      assert events == before + [e];
      RunAppend(m, START, before, e);
      ModifierExactly(m, before, k);
      forall i: nat | i < n
        ensures StillDown(m, events, k, i)
          <==> StillDown(m, before, k, i) && e != Up(k) && !(e.Down? && e.key in m.modifiers)
      {
        StillDownStep(m, before, k, i, e);
      }
      assert StillDown(m, events, k, n) <==> e == Down(k);
    }
  }

  // ---- Reports ----

  datatype Report = Report(modifier: byte, keys: seq<byte>)

  function Images(codes: map<int, byte>, slots: seq<int>): (r: seq<byte>)
    requires forall i :: 0 <= i < |slots| ==> slots[i] in codes
    ensures |r| == |slots|
  {
    seq(|slots|, i requires 0 <= i < |slots| => codes[slots[i]])
  }

  /** What the driver is sent after an event that leads to s. */
  function ReportOf(m: Maps, e: Event, s: State): Report
    requires Good(m, s)
  {
    Report(m.modifiers[s.modifier],
           if e.Down? && e.key !in m.keys then [0, 0, 0, 0, 0] else Images(m.keys, s.slots))
  }

  /**
   Over any run from the start, the report after its last event carries the code of a modifier exactly
   when that modifier was pressed, and since then it was not released and no other modifier and no
   key 0 was pressed; and it carries none exactly when there is no such modifier.
   */
  lemma ModifierReported(m: Maps, events: seq<Event>, k: int)
    requires Sound(m) && events != [] && k in m.modifiers && k != 0
    ensures Good(m, Run(m, START, events))
    ensures var r := ReportOf(m, events[|events| - 1], Run(m, START, events));
      && (r.modifier == m.modifiers[k] <==> exists i :: StillDown(m, events, k, i))
      && (r.modifier == 0 <==> NoneDown(m, events))
  {
    hide Step, StillDown, Table;
    StartGood(m);
    SlotsRefineBoundedSet(m, START, events);
    ModifierExactly(m, events, k);
    var down := Run(m, START, events).modifier;
    if down != 0 {
      ModifierExactly(m, events, down);
    } else {
      forall j: int | j in m.modifiers && j != 0 ensures !exists i :: StillDown(m, events, j, i) {
        ModifierExactly(m, events, j);
      }
    }
  }

  /** No modifier is still down. */
  ghost predicate NoneDown(m: Maps, events: seq<Event>) {
    forall j: int, i: nat :: j in m.modifiers && j != 0 ==> !StillDown(m, events, j, i)
  }

  /** With the tables of the source: the report after Shift, and whatever else, is pressed or released. */
  lemma ShiftReported(events: seq<Event>)
    requires events != []
    ensures var m := Maps(KeyCodes(), ModifierCodes());
      && Good(m, Run(m, START, events))
      && var r := ReportOf(m, events[|events| - 1], Run(m, START, events));
        r.modifier == 2 <==> exists i :: StillDown(m, events, 16, i)
  {
    hide KeyCodes, ModifierCodes, Sound, ReportOf, StillDown;
    TablesAreSound();
    ModifierBits();
    ModifierReported(Maps(KeyCodes(), ModifierCodes()), events, 16);
  }

  /** The usages in a report that are not empty. */
  function Usages(r: Report): set<byte> {
    set b | b in r.keys && b != 0
  }

  function ImageSet(codes: map<int, byte>, held: set<int>): set<byte>
    requires forall k :: k in held ==> k in codes
  {
    set k | k in held :: codes[k]
  }

  lemma ImagesOfHeld(codes: map<int, byte>, slots: seq<int>)
    requires Injective(codes) && Distinct(slots) && forall i :: 0 <= i < |slots| ==> slots[i] in codes
    ensures (set b | b in Images(codes, slots) && b != 0) == ImageSet(codes, Held(slots))
    ensures var images := Images(codes, slots);
      forall i, j :: 0 <= i < j < |slots| && images[i] == images[j] ==> images[i] == 0
  {
    var images := Images(codes, slots);
    forall b ensures (b in images && b != 0) <==> b in ImageSet(codes, Held(slots)) {
      if b in images && b != 0 {
        var i :| 0 <= i < |slots| && images[i] == b;
        assert slots[i] in Held(slots);
      }
      if b in ImageSet(codes, Held(slots)) {
        var k :| k in Held(slots) && codes[k] == b;
        var i :| 0 <= i < |slots| && slots[i] == k;
        assert images[i] == b;
      }
    }
  }

  /**
   In any run, the report after an event carries the usages of exactly the held keys, each once,
   except after the press of a key that is not in the table: then it carries none, and that is
   right only when no key is held.
   */
  lemma ReportsExactly(m: Maps, s: State, e: Event)
    requires Sound(m) && Good(m, s)
    ensures Good(m, Step(m, s, e))
    ensures var t := Step(m, s, e); var r := ReportOf(m, e, t);
      && (forall k :: k in Held(t.slots) ==> k in m.keys)
      && (Usages(r) == ImageSet(m.keys, Held(t.slots)) <==> !(e.Down? && e.key !in m.keys) || Held(t.slots) == {})
      && (forall i, j :: 0 <= i < j < 5 && r.keys[i] == r.keys[j] ==> r.keys[i] == 0)
  {
    hide Step, Held, Images, ImageSet;
    StepGood(m, s, e);
    var t := Step(m, s, e);
    HeldMapped(m, t.slots);
    ImagesOfHeld(m.keys, t.slots);
    if e.Down? && e.key !in m.keys {
      NoUsages(ReportOf(m, e, t));
      NoImages(m.keys, Held(t.slots));
    }
  }

  lemma HeldMapped(m: Maps, slots: seq<int>)
    requires Sound(m) && Table(m, slots)
    ensures forall k :: k in Held(slots) ==> k in m.keys
  {
  }

  lemma NoUsages(r: Report)
    requires r.keys == [0, 0, 0, 0, 0]
    ensures Usages(r) == {}
  {
  }

  lemma NoImages(codes: map<int, byte>, held: set<int>)
    requires forall k :: k in held ==> k in codes
    ensures ImageSet(codes, held) == {} <==> held == {}
  {
    if k: int :| k in held {
      assert codes[k] in ImageSet(codes, held);
    } else {
      assert forall k: int :: k !in held;
      assert held == {};
    }
  }

  /** A key is held, and the press of one outside the table makes the report claim that none is. */
  lemma UnmappedPressReportsNothing(m: Maps, k: int, x: int)
    requires Sound(m) && k in m.keys && k != 0 && x !in m.keys
    ensures var s := Run(m, START, [Down(k)]); var t := Step(m, s, Down(x));
      && Good(m, s) && Good(m, t) && Held(t.slots) == {k} && m.keys[k] != 0
      && ReportOf(m, Down(k), s).keys[0] == m.keys[k]
      && Usages(ReportOf(m, Down(x), t)) == {}
  {
    StartGood(m);
    var s := Step(m, START, Down(k));
    assert [Down(k)][1..] == [];
    FirstPress(m, k);
    StepGood(m, START, Down(k));
    StepGood(m, s, Down(x));
    hide Good;
    NoUsages(ReportOf(m, Down(x), Step(m, s, Down(x))));
  }

  lemma FirstPress(m: Maps, k: int)
    requires Sound(m) && k in m.keys && k != 0
    ensures PressSlots(m, START.slots, k) == [k, 0, 0, 0, 0]
    ensures Held([k, 0, 0, 0, 0]) == {k}
    ensures m.keys[k] != 0
  {
    assert [k] + [0, 0, 0, 0] == [k, 0, 0, 0, 0];
    assert k in [k, 0, 0, 0, 0];
  }

  /** With the tables of the source: while A is held, pressing Control reports that no key is. */
  lemma ControlHidesA()
    ensures var m := Maps(KeyCodes(), ModifierCodes());
      && Good(m, Run(m, START, [Down(65), Down(17)])) && Held(Run(m, START, [Down(65), Down(17)]).slots) == {65}
      && Usages(ReportOf(m, Down(17), Run(m, START, [Down(65), Down(17)]))) == {}
  {
    AIsMapped();
    ControlIsUnmapped();
    TablesAreSound();
    hide KeyCodes, ModifierCodes, Sound, Good, ReportOf, Usages, Held;
    var m := Maps(KeyCodes(), ModifierCodes());
    UnmappedPressReportsNothing(m, 65, 17);
    RunAppend(m, START, [Down(65)], Down(17));
    assert [Down(65)] + [Down(17)] == [Down(65), Down(17)];
  }

  lemma AIsMapped()
    ensures 65 in KeyCodes()
  {
    hide InsertAll, InsertRows, KeyCodes, KeyOf, Inverted, DIGITS, LETTERS_A, LETTERS_N, KEYPAD, OPERATORS,
         FUNCTIONS, EDITING, ARROWS, SYMBOLS;
    RowsInverted();
    SecondRow();
    var m0 := InsertAll(map[], ROWS[0]);
    LettersHaveA(m0);
    InsertAllInverted(map[], ROWS[0]);
    InsertAllInverted(m0, ROWS[1]);
    InsertRowsInverted(InsertAll(m0, ROWS[1]), ROWS[2..]);
  }

  lemma SecondRow()
    ensures ROWS[1] == LETTERS_A
    ensures KeyCodes() == InsertRows(InsertAll(InsertAll(map[], ROWS[0]), ROWS[1]), ROWS[2..])
  {
    hide InsertAll, DIGITS, LETTERS_A, LETTERS_N, KEYPAD, OPERATORS, FUNCTIONS, EDITING, ARROWS, SYMBOLS;
    FirstRow();
    RowsUnfold(InsertAll(map[], ROWS[0]), ROWS[1..]);
    assert ROWS[1..][1..] == ROWS[2..] && ROWS[1..][0] == ROWS[1];
  }

  lemma RowsUnfold(m: map<int, byte>, rows: seq<seq<Entry>>)
    requires rows != []
    ensures InsertRows(m, rows) == InsertRows(InsertAll(m, rows[0]), rows[1..])
  {
    hide InsertAll;
  }

  lemma LettersHaveA(m: map<int, byte>)
    ensures 65 in InsertAll(m, LETTERS_A)
  {
    InsertAllKeeps(Insert(m, LETTERS_A[0]), LETTERS_A[1..], 65);
  }

  lemma ControlIsUnmapped()
    ensures 17 !in KeyCodes()
  {
    RowsInverted();
    InsertRowsInverted(map[], ROWS);
    hide KeyCodes, InsertRows, InsertAll;
    if 17 in KeyCodes() {
      NoUsageOfControl(KeyCodes()[17]);
    }
  }

  lemma NoUsageOfControl(b: byte)
    ensures KeyOf(b) != 17
  {
  }

  // ---- libGetrtpcmd ----

  class Keyboard {
    const keycodelist: array<int>
    var modkeycodelist: int
    var keyCode: map<int, byte>
    var modifiersKeyCodes: map<int, byte>
    var sent: seq<Report>     // what HidD_SetFeature has been given

    ghost predicate Valid()
      reads this, keycodelist
    {
      keycodelist.Length == 5 && Sound(Tables()) && Good(Tables(), Value())
    }

    ghost function Tables(): Maps
      reads this
    {
      Maps(keyCode, modifiersKeyCodes)
    }

    ghost function Value(): State
      reads this, keycodelist
    {
      State(keycodelist[..], modkeycodelist)
    }

    /** KeyCodeInit. */
    constructor ()
      ensures Valid() && fresh(keycodelist) && Value() == START && sent == []
      ensures Tables() == Maps(KeyCodes(), ModifierCodes())
    {
      hide InsertAll, InsertRows, Good, Table;
      keycodelist := new int[5](_ => 0);
      modkeycodelist := 0;
      sent := [];
      var keys := InsertTable(ROWS);
      keyCode := keys;
      var modifiers := InsertRow(map[], MODIFIERS);
      modifiersKeyCodes := modifiers;
      new;
      TablesAreSound();
      StartGood(Maps(KeyCodes(), ModifierCodes()));
      assert keycodelist[..] == [0, 0, 0, 0, 0];
    }

    static method InsertTable(rows: seq<seq<Entry>>) returns (r: map<int, byte>)
      ensures r == InsertRows(map[], rows)
    {
      r := map[];
      var i := 0;
      assert rows[0..] == rows;
      while i < |rows|
        invariant 0 <= i <= |rows| && InsertRows(r, rows[i..]) == InsertRows(map[], rows)
      {
        assert rows[i..][1..] == rows[i + 1..];
        r := InsertRow(r, rows[i]);
        i := i + 1;
      }
    }

    static method InsertRow(m: map<int, byte>, row: seq<Entry>) returns (r: map<int, byte>)
      ensures r == InsertAll(m, row)
    {
      r := m;
      var i := 0;
      assert row[0..] == row;
      while i < |row|
        invariant 0 <= i <= |row| && InsertAll(r, row[i..]) == InsertAll(m, row)
      {
        assert row[i..][1..] == row[i + 1..];
        r := Insert(r, row[i]);
        i := i + 1;
      }
    }

    /** KeyCode[key]: operator[] adds a key that is not there. */
    method KeyCodeAt(key: int) returns (b: byte)
      modifies this`keyCode
      ensures key in old(keyCode) ==> keyCode == old(keyCode) && b == keyCode[key]
    {
      if key !in keyCode {
        keyCode := keyCode[key := 0];
      }
      b := keyCode[key];
    }

    method ModifierAt(key: int) returns (b: byte)
      modifies this`modifiersKeyCodes
      ensures key in old(modifiersKeyCodes) ==>
          modifiersKeyCodes == old(modifiersKeyCodes) && b == modifiersKeyCodes[key]
    {
      if key !in modifiersKeyCodes {
        modifiersKeyCodes := modifiersKeyCodes[key := 0];
      }
      b := modifiersKeyCodes[key];
    }

    /** The five lookups of a report. */
    method ReportKeys() returns (keys: seq<byte>)
      requires keycodelist.Length == 5 && forall i :: 0 <= i < 5 ==> keycodelist[i] in keyCode
      modifies this`keyCode
      ensures keyCode == old(keyCode) && (forall i :: 0 <= i < 5 ==> keycodelist[i] in keyCode)
      ensures keys == Images(keyCode, keycodelist[..])
    {
      keys := [];
      var i := 0;
      while i < 5
        invariant 0 <= i <= 5 && keyCode == old(keyCode) && keys == Images(keyCode, keycodelist[..])[..i]
      {
        var b := KeyCodeAt(keycodelist[i]);
        keys := keys + [b];
        i := i + 1;
      }
    }

    /** Search, and then the first empty slot. */
    method Press(key: int)
      requires keycodelist.Length == 5 && key in keyCode
      modifies keycodelist
      ensures keycodelist[..] == PressSlots(Tables(), old(keycodelist[..]), key)
      ensures key in old(keycodelist[..]) || 0 !in old(keycodelist[..]) ==> keycodelist[..] == old(keycodelist[..])
      ensures key !in old(keycodelist[..]) ==>
        forall i :: 0 <= i < 5 && old(keycodelist[i]) == 0 && 0 !in old(keycodelist[..i]) ==>
          keycodelist[..] == old(keycodelist[..])[i := key]
    {
      FillExactly(keycodelist[..], key);
      assert forall i :: 0 <= i < 5 ==> keycodelist[..][..i] == keycodelist[..i];
      hide Fill;
      var found := Search(key);
      if !found {
        FillFirst(key);
      }
    }

    method Search(key: int) returns (found: bool)
      requires keycodelist.Length == 5
      ensures found <==> key in keycodelist[..]
    {
      found := false;
      var i := 0;
      while i < 5
        invariant 0 <= i <= 5 && (found <==> key in keycodelist[..i])
      {
        assert keycodelist[..i + 1] == keycodelist[..i] + [keycodelist[i]];
        if keycodelist[i] == key {
          found := true;
        }
        i := i + 1;
      }
      assert keycodelist[..5] == keycodelist[..];
    }

    method FillFirst(key: int)
      requires keycodelist.Length == 5
      modifies keycodelist
      ensures keycodelist[..] == Fill(old(keycodelist[..]), key)
    {
      hide Fill;
      ghost var was := keycodelist[..];
      FillFrom(was, 0, key);
      assert was[0..] == was && was[..0] == [];
      var i := 0;
      while i < 5
        invariant 0 <= i <= 5 && keycodelist[..] == was
        invariant was[..i] + Fill(was[i..], key) == Fill(was, key)
      {
        FillFrom(was, i, key);
        if keycodelist[i] == 0 {
          keycodelist[i] := key;
          return;
        }
        i := i + 1;
      }
      FillFrom(was, 5, key);
    }

    method KeyDown(key: int)
      requires Valid()
      modifies this`modkeycodelist, this`keyCode, this`modifiersKeyCodes, this`sent, keycodelist
      ensures Valid() && Tables() == old(Tables()) && Value() == Step(Tables(), old(Value()), Down(key))
      ensures sent == old(sent) + [ReportOf(Tables(), Down(key), Value())]
      ensures modkeycodelist == if key in modifiersKeyCodes then key else old(modkeycodelist)
      ensures modkeycodelist in modifiersKeyCodes && (forall i :: 0 <= i < 5 ==> keycodelist[i] in keyCode)
      ensures var r := sent[|sent| - 1];
        && r.modifier == modifiersKeyCodes[modkeycodelist] && |r.keys| == 5
        && forall i :: 0 <= i < 5 ==> r.keys[i] == if key in keyCode then keyCode[keycodelist[i]] else 0
    {
      hide PressSlots, Table;
      StepGood(Tables(), Value(), Down(key));
      var keys: seq<byte> := [0, 0, 0, 0, 0];
      if key in keyCode {
        Press(key);
        TableMapped(Tables(), keycodelist[..]);
        assert forall i :: 0 <= i < 5 ==> keycodelist[i] == keycodelist[..][i];
        keys := ReportKeys();
      } else {
        UnmappedPress(Tables(), keycodelist[..], key);
      }
      TableMapped(Tables(), keycodelist[..]);
      if key in modifiersKeyCodes {
        modkeycodelist := key;
      }
      var modifier := ModifierAt(modkeycodelist);
      sent := sent + [Report(modifier, keys)];
    }

    method KeyUp(key: int)
      requires Valid()
      modifies this`modkeycodelist, this`keyCode, this`modifiersKeyCodes, this`sent, keycodelist
      ensures Valid() && Tables() == old(Tables()) && Value() == Step(Tables(), old(Value()), Up(key))
      ensures sent == old(sent) + [ReportOf(Tables(), Up(key), Value())]
      ensures modkeycodelist == if old(modkeycodelist) == key then 0 else old(modkeycodelist)
      ensures forall i :: 0 <= i < 5 ==> keycodelist[i] == if old(keycodelist[i]) == key then 0 else old(keycodelist[i])
      ensures modkeycodelist in modifiersKeyCodes && (forall i :: 0 <= i < 5 ==> keycodelist[i] in keyCode)
      ensures var r := sent[|sent| - 1];
        && r.modifier == modifiersKeyCodes[modkeycodelist] && |r.keys| == 5
        && forall i :: 0 <= i < 5 ==> r.keys[i] == keyCode[keycodelist[i]]
    {
      hide Table;
      StepGood(Tables(), Value(), Up(key));
      ghost var was := keycodelist[..];
      var i := 0;
      while i < 5
        modifies keycodelist
        invariant 0 <= i <= 5
        invariant forall j :: 0 <= j < 5 ==> keycodelist[j] == if j < i && was[j] == key then 0 else was[j]
      {
        if keycodelist[i] == key {
          keycodelist[i] := 0;
        }
        i := i + 1;
      }
      assert keycodelist[..] == ReleaseSlots(was, key);
      if modkeycodelist == key {
        modkeycodelist := 0;
      }
      var modifier := ModifierAt(modkeycodelist);
      TableMapped(Tables(), keycodelist[..]);
      assert forall i :: 0 <= i < 5 ==> keycodelist[i] == keycodelist[..][i];
      var keys := ReportKeys();
      sent := sent + [Report(modifier, keys)];
    }
  }

  /** Filling past the first i slots, one slot further. */
  lemma FillFrom(slots: seq<int>, i: nat, key: int)
    requires i <= |slots|
    ensures i == |slots| ==> slots[..i] + Fill(slots[i..], key) == slots
    ensures i < |slots| && slots[i] == 0 ==> slots[..i] + Fill(slots[i..], key) == slots[i := key]
    ensures i < |slots| && slots[i] != 0 ==>
        slots[..i] + Fill(slots[i..], key) == slots[..i + 1] + Fill(slots[i + 1..], key)
  {
    if i < |slots| {
      assert slots[i..][1..] == slots[i + 1..];
    }
  }

  lemma TableMapped(m: Maps, slots: seq<int>)
    requires Table(m, slots)
    ensures |slots| == 5 && forall i :: 0 <= i < 5 ==> slots[i] in m.keys
  {
  }

  lemma UnmappedPress(m: Maps, slots: seq<int>, key: int)
    requires key !in m.keys
    ensures PressSlots(m, slots, key) == slots
  {
  }
}
