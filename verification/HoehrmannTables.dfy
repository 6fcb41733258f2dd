/** The three constant tables of benchmarks/hoehrmann.h, proved to be the
    byte-range automaton. No other module looks inside them. */
module HoehrmannTables {
  import opened Utf8
  import opened Automaton

  // utf8d, thirty-two bytes to a row
  const CLASSES_00: seq<nat> :=
    [0, 0, 0, 0, 0, 0, 0, 0, 0, 0, 0, 0, 0, 0, 0, 0, 0, 0, 0, 0, 0, 0, 0, 0, 0, 0, 0, 0, 0, 0, 0, 0]
  const CLASSES_20: seq<nat> :=
    [0, 0, 0, 0, 0, 0, 0, 0, 0, 0, 0, 0, 0, 0, 0, 0, 0, 0, 0, 0, 0, 0, 0, 0, 0, 0, 0, 0, 0, 0, 0, 0]
  const CLASSES_40: seq<nat> :=
    [0, 0, 0, 0, 0, 0, 0, 0, 0, 0, 0, 0, 0, 0, 0, 0, 0, 0, 0, 0, 0, 0, 0, 0, 0, 0, 0, 0, 0, 0, 0, 0]
  const CLASSES_60: seq<nat> :=
    [0, 0, 0, 0, 0, 0, 0, 0, 0, 0, 0, 0, 0, 0, 0, 0, 0, 0, 0, 0, 0, 0, 0, 0, 0, 0, 0, 0, 0, 0, 0, 0]
  const CLASSES_80: seq<nat> :=
    [1, 1, 1, 1, 1, 1, 1, 1, 1, 1, 1, 1, 1, 1, 1, 1, 9, 9, 9, 9, 9, 9, 9, 9, 9, 9, 9, 9, 9, 9, 9, 9]
  const CLASSES_A0: seq<nat> :=
    [7, 7, 7, 7, 7, 7, 7, 7, 7, 7, 7, 7, 7, 7, 7, 7, 7, 7, 7, 7, 7, 7, 7, 7, 7, 7, 7, 7, 7, 7, 7, 7]
  const CLASSES_C0: seq<nat> :=
    [8, 8, 2, 2, 2, 2, 2, 2, 2, 2, 2, 2, 2, 2, 2, 2, 2, 2, 2, 2, 2, 2, 2, 2, 2, 2, 2, 2, 2, 2, 2, 2]
  const CLASSES_E0: seq<nat> :=
    [10, 3, 3, 3, 3, 3, 3, 3, 3, 3, 3, 3, 3, 4, 3, 3, 11, 6, 6, 6, 5, 8, 8, 8, 8, 8, 8, 8, 8, 8, 8, 8]

  function Utf8d(i: nat): nat
    requires i < 256
  {
    match i / 32
    case 0 => CLASSES_00[i % 32]
    case 1 => CLASSES_20[i % 32]
    case 2 => CLASSES_40[i % 32]
    case 3 => CLASSES_60[i % 32]
    case 4 => CLASSES_80[i % 32]
    case 5 => CLASSES_A0[i % 32]
    case 6 => CLASSES_C0[i % 32]
    case _ => CLASSES_E0[i % 32]
  }

  // utf8d_transition, one state to a row
  const FROM_0: seq<nat> := [0, 1, 2, 3, 5, 8, 7, 1, 1, 1, 4, 6, 1, 1, 1, 1]
  const FROM_1: seq<nat> := [1, 1, 1, 1, 1, 1, 1, 1, 1, 1, 1, 1, 1, 1, 1, 1]
  const FROM_2: seq<nat> := [1, 0, 1, 1, 1, 1, 1, 0, 1, 0, 1, 1, 1, 1, 1, 1]
  const FROM_3: seq<nat> := [1, 2, 1, 1, 1, 1, 1, 2, 1, 2, 1, 1, 1, 1, 1, 1]
  const FROM_4: seq<nat> := [1, 1, 1, 1, 1, 1, 1, 2, 1, 1, 1, 1, 1, 1, 1, 1]
  const FROM_5: seq<nat> := [1, 2, 1, 1, 1, 1, 1, 1, 1, 2, 1, 1, 1, 1, 1, 1]
  const FROM_6: seq<nat> := [1, 1, 1, 1, 1, 1, 1, 3, 1, 3, 1, 1, 1, 1, 1, 1]
  const FROM_7: seq<nat> := [1, 3, 1, 1, 1, 1, 1, 3, 1, 3, 1, 1, 1, 1, 1, 1]
  const FROM_8: seq<nat> := [1, 3, 1, 1, 1, 1, 1, 1, 1, 1, 1, 1, 1, 1, 1, 1]

  function Transition(i: nat): nat
    requires i < 144
  {
    match i / 16
    case 0 => FROM_0[i % 16]
    case 1 => FROM_1[i % 16]
    case 2 => FROM_2[i % 16]
    case 3 => FROM_3[i % 16]
    case 4 => FROM_4[i % 16]
    case 5 => FROM_5[i % 16]
    case 6 => FROM_6[i % 16]
    case 7 => FROM_7[i % 16]
    case _ => FROM_8[i % 16]
  }

  // shifted_utf8d_transition, one state to a row
  const SHIFTED_FROM_0: seq<nat> :=
    [0x00, 0x10, 0x20, 0x30, 0x50, 0x80, 0x70, 0x10, 0x10, 0x10, 0x40, 0x60, 0x10, 0x10, 0x10, 0x10]
  const SHIFTED_FROM_1: seq<nat> :=
    [0x10, 0x10, 0x10, 0x10, 0x10, 0x10, 0x10, 0x10, 0x10, 0x10, 0x10, 0x10, 0x10, 0x10, 0x10, 0x10]
  const SHIFTED_FROM_2: seq<nat> :=
    [0x10, 0x00, 0x10, 0x10, 0x10, 0x10, 0x10, 0x00, 0x10, 0x00, 0x10, 0x10, 0x10, 0x10, 0x10, 0x10]
  const SHIFTED_FROM_3: seq<nat> :=
    [0x10, 0x20, 0x10, 0x10, 0x10, 0x10, 0x10, 0x20, 0x10, 0x20, 0x10, 0x10, 0x10, 0x10, 0x10, 0x10]
  const SHIFTED_FROM_4: seq<nat> :=
    [0x10, 0x10, 0x10, 0x10, 0x10, 0x10, 0x10, 0x20, 0x10, 0x10, 0x10, 0x10, 0x10, 0x10, 0x10, 0x10]
  const SHIFTED_FROM_5: seq<nat> :=
    [0x10, 0x20, 0x10, 0x10, 0x10, 0x10, 0x10, 0x10, 0x10, 0x20, 0x10, 0x10, 0x10, 0x10, 0x10, 0x10]
  const SHIFTED_FROM_6: seq<nat> :=
    [0x10, 0x10, 0x10, 0x10, 0x10, 0x10, 0x10, 0x30, 0x10, 0x30, 0x10, 0x10, 0x10, 0x10, 0x10, 0x10]
  const SHIFTED_FROM_7: seq<nat> :=
    [0x10, 0x30, 0x10, 0x10, 0x10, 0x10, 0x10, 0x30, 0x10, 0x30, 0x10, 0x10, 0x10, 0x10, 0x10, 0x10]
  const SHIFTED_FROM_8: seq<nat> :=
    [0x10, 0x30, 0x10, 0x10, 0x10, 0x10, 0x10, 0x10, 0x10, 0x10, 0x10, 0x10, 0x10, 0x10, 0x10, 0x10]

  function ShiftedTransition(i: nat): nat
    requires i < 144
  {
    match i / 16
    case 0 => SHIFTED_FROM_0[i % 16]
    case 1 => SHIFTED_FROM_1[i % 16]
    case 2 => SHIFTED_FROM_2[i % 16]
    case 3 => SHIFTED_FROM_3[i % 16]
    case 4 => SHIFTED_FROM_4[i % 16]
    case 5 => SHIFTED_FROM_5[i % 16]
    case 6 => SHIFTED_FROM_6[i % 16]
    case 7 => SHIFTED_FROM_7[i % 16]
    case _ => SHIFTED_FROM_8[i % 16]
  }

  /** The class of a byte, by ranges. */
  function Class(b: Byte): nat {
    if b <= 0x7F then 0
    else if b <= 0x8F then 1
    else if b <= 0x9F then 9
    else if b <= 0xBF then 7
    else if b <= 0xC1 then 8
    else if b <= 0xDF then 2
    else if b == 0xE0 then 10
    else if b == 0xED then 4
    else if b <= 0xEF then 3
    else if b == 0xF0 then 11
    else if b <= 0xF3 then 6
    else if b == 0xF4 then 5
    else 8
  }

  lemma {:induction false} ClassRow00(b: Byte)
    requires 0x00 <= b < 0x00 + 32
    ensures Utf8d(b) == Class(b)
  {
  }

  lemma {:induction false} ClassRow20(b: Byte)
    requires 0x20 <= b < 0x20 + 32
    ensures Utf8d(b) == Class(b)
  {
  }

  lemma {:induction false} ClassRow40(b: Byte)
    requires 0x40 <= b < 0x40 + 32
    ensures Utf8d(b) == Class(b)
  {
  }

  lemma {:induction false} ClassRow60(b: Byte)
    requires 0x60 <= b < 0x60 + 32
    ensures Utf8d(b) == Class(b)
  {
  }

  lemma {:induction false} ClassRow80(b: Byte)
    requires 0x80 <= b < 0x80 + 32
    ensures Utf8d(b) == Class(b)
  {
  }

  lemma {:induction false} ClassRowA0(b: Byte)
    requires 0xA0 <= b < 0xA0 + 32
    ensures Utf8d(b) == Class(b)
  {
  }

  lemma {:induction false} ClassRowC0(b: Byte)
    requires 0xC0 <= b < 0xC0 + 32
    ensures Utf8d(b) == Class(b)
  {
  }

  lemma {:induction false} ClassRowE0(b: Byte)
    requires 0xE0 <= b < 0xE0 + 32
    ensures Utf8d(b) == Class(b)
  {
  }

  lemma {:induction false} ClassTable(b: Byte)
    ensures Utf8d(b) == Class(b)
  {
    if b < 0x20 { ClassRow00(b); }
    else if b < 0x40 { ClassRow20(b); }
    else if b < 0x60 { ClassRow40(b); }
    else if b < 0x80 { ClassRow60(b); }
    else if b < 0xA0 { ClassRow80(b); }
    else if b < 0xC0 { ClassRowA0(b); }
    else if b < 0xE0 { ClassRowC0(b); }
    else { ClassRowE0(b); }
  }

  lemma {:induction false} From0(c: nat, b: Byte)
    requires c == Class(b)
    ensures Transition(0 + c) == Next(0, b) && ShiftedTransition(0 + c) == 16 * Next(0, b)
  {
  }

  lemma {:induction false} From1(c: nat, b: Byte)
    requires c == Class(b)
    ensures Transition(16 + c) == Next(1, b) && ShiftedTransition(16 + c) == 16 * Next(1, b)
  {
  }

  lemma {:induction false} From2(c: nat, b: Byte)
    requires c == Class(b)
    ensures Transition(32 + c) == Next(2, b) && ShiftedTransition(32 + c) == 16 * Next(2, b)
  {
  }

  lemma {:induction false} From3(c: nat, b: Byte)
    requires c == Class(b)
    ensures Transition(48 + c) == Next(3, b) && ShiftedTransition(48 + c) == 16 * Next(3, b)
  {
  }

  lemma {:induction false} From4(c: nat, b: Byte)
    requires c == Class(b)
    ensures Transition(64 + c) == Next(4, b) && ShiftedTransition(64 + c) == 16 * Next(4, b)
  {
  }

  lemma {:induction false} From5(c: nat, b: Byte)
    requires c == Class(b)
    ensures Transition(80 + c) == Next(5, b) && ShiftedTransition(80 + c) == 16 * Next(5, b)
  {
  }

  lemma {:induction false} From6(c: nat, b: Byte)
    requires c == Class(b)
    ensures Transition(96 + c) == Next(6, b) && ShiftedTransition(96 + c) == 16 * Next(6, b)
  {
  }

  lemma {:induction false} From7(c: nat, b: Byte)
    requires c == Class(b)
    ensures Transition(112 + c) == Next(7, b) && ShiftedTransition(112 + c) == 16 * Next(7, b)
  {
  }

  lemma {:induction false} From8(c: nat, b: Byte)
    requires c == Class(b)
    ensures Transition(128 + c) == Next(8, b) && ShiftedTransition(128 + c) == 16 * Next(8, b)
  {
  }

  /** A table transition is an automaton step, and the pre-multiplied table
      makes the same step on sixteen times the state; no index reaches 144. */
  lemma {:induction false} TransitionTables(q: State, b: Byte)
    ensures Utf8d(b) <= 11
    ensures Transition(16 * q + Utf8d(b)) == Next(q, b)
    ensures ShiftedTransition(16 * q + Utf8d(b)) == 16 * Next(q, b)
  {
    ClassTable(b);
    var c := Class(b);
    match q
    case 0 => From0(c, b);
    case 1 => From1(c, b);
    case 2 => From2(c, b);
    case 3 => From3(c, b);
    case 4 => From4(c, b);
    case 5 => From5(c, b);
    case 6 => From6(c, b);
    case 7 => From7(c, b);
    case _ => From8(c, b);
  }

  // ----- array reads, as the loops see them

  method ReadClass(byte: Byte) returns (kind: nat)
    ensures kind == Class(byte)
  {
    ClassTable(byte);
    kind := Utf8d(byte);
  }

  method ReadTransition(index: nat, ghost q: State, ghost byte: Byte) returns (next: nat)
    requires index == 16 * q + Class(byte)
    ensures index < 144 && next == Next(q, byte)
  {
    TransitionTables(q, byte);
    ClassTable(byte);
    next := Transition(index);
  }

  method ReadShiftedTransition(index: nat, ghost q: State, ghost byte: Byte) returns (next: nat)
    requires index == 16 * q + Class(byte)
    ensures index < 144 && next == 16 * Next(q, byte)
  {
    TransitionTables(q, byte);
    ClassTable(byte);
    next := ShiftedTransition(index);
  }
}
