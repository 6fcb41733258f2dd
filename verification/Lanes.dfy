/** The vector instructions the validators are written in, lane by lane, for the
    three instruction sets: 16 lanes (SSE), 32 lanes (AVX2, whose byte shuffles
    stay inside each half) and 64 lanes (AVX-512, whose comparisons give bit
    masks). */
module Lanes {
  import opened Utf8
  import opened Bits
  import opened Kernel

  datatype Isa = Sse | Avx2 | Avx512

  function Width(isa: Isa): (w: nat)
    ensures w == 16 || w == 32 || w == 64
  {
    match isa case Sse => 16 case Avx2 => 32 case Avx512 => 64
  }

  // ----- lane-wise instructions

  function Set1(w: nat, x: Byte): (r: Vec)
    ensures |r| == w && forall k {:trigger r[k]} :: 0 <= k < w ==> r[k] == x
  {
    seq(w, _ => x)
  }

  /** subs_epu8: unsigned, saturates at 0. */
  function Subs(a: Vec, b: Vec): (r: Vec)
    requires |a| == |b|
    ensures |r| == |a| && forall k {:trigger r[k]} :: 0 <= k < |a| ==> r[k] == if a[k] < b[k] then 0 else a[k] - b[k]
  {
    seq(|a|, k requires 0 <= k < |a| => if a[k] < b[k] then 0 else a[k] - b[k])
  }

  /** add_epi8: wraps at 256. */
  function Add(a: Vec, b: Vec): (r: Vec)
    requires |a| == |b|
    ensures |r| == |a| && forall k {:trigger r[k]} :: 0 <= k < |a| ==> r[k] == (a[k] as int + b[k]) % 0x100
  {
    seq(|a|, k requires 0 <= k < |a| => (a[k] as int + b[k]) % 0x100)
  }

  function OrLanes(a: Vec, b: Vec): (r: Vec)
    requires |a| == |b|
    ensures |r| == |a| && forall k {:trigger r[k]} :: 0 <= k < |a| ==> r[k] == OrByte(a[k], b[k])
  {
    seq(|a|, k requires 0 <= k < |a| => OrByte(a[k], b[k]))
  }

  function AndLanes(a: Vec, b: Vec): (r: Vec)
    requires |a| == |b|
    ensures |r| == |a| && forall k {:trigger r[k]} :: 0 <= k < |a| ==> r[k] == And(a[k], b[k])
  {
    seq(|a|, k requires 0 <= k < |a| => And(a[k], b[k]))
  }

  function Signed(b: Byte): int { if b < 0x80 then b else b - 0x100 }

  /** A true lane: all ones in a byte, or the one bit of a mask. */
  function Flag(isa: Isa, b: bool): Byte {
    if !b then 0 else if isa.Avx512? then 1 else 0xFF
  }

  /** cmpgt_epi8 and cmpgt_epi8_mask compare signed bytes. */
  function CmpGt(isa: Isa, a: Vec, b: Vec): (r: Vec)
    requires |a| == |b|
    ensures |r| == |a| && forall k {:trigger r[k]} :: 0 <= k < |a| ==> r[k] == Flag(isa, Signed(a[k]) > Signed(b[k]))
  {
    seq(|a|, k requires 0 <= k < |a| => Flag(isa, Signed(a[k]) > Signed(b[k])))
  }

  /** cmpgt_epu8_mask compares unsigned bytes. */
  function CmpGtUnsigned(isa: Isa, a: Vec, b: Vec): (r: Vec)
    requires |a| == |b|
    ensures |r| == |a| && forall k {:trigger r[k]} :: 0 <= k < |a| ==> r[k] == Flag(isa, a[k] > b[k])
  {
    seq(|a|, k requires 0 <= k < |a| => Flag(isa, a[k] > b[k]))
  }

  /** cmpeq_epi8, cmpeq_epi8_mask, and xnor of two masks. */
  function CmpEq(isa: Isa, a: Vec, b: Vec): (r: Vec)
    requires |a| == |b|
    ensures |r| == |a| && forall k {:trigger r[k]} :: 0 <= k < |a| ==> r[k] == Flag(isa, a[k] == b[k])
  {
    seq(|a|, k requires 0 <= k < |a| => Flag(isa, a[k] == b[k]))
  }

  /** cmpge_epu8_mask */
  function CmpGeUnsigned(isa: Isa, a: Vec, b: Vec): (r: Vec)
    requires |a| == |b|
    ensures |r| == |a| && forall k {:trigger r[k]} :: 0 <= k < |a| ==> r[k] == Flag(isa, a[k] >= b[k])
  {
    seq(|a|, k requires 0 <= k < |a| => Flag(isa, a[k] >= b[k]))
  }

  lemma {:induction false} AndFlags(isa: Isa, p: bool, q: bool)
    ensures And(Flag(isa, p), Flag(isa, q)) == Flag(isa, p && q)
  {
    Pow2Values();
    LowMask(8, Flag(isa, q));
    LowMask(1, Flag(isa, q));
  }

  /** srli_epi16 by 4: the 16-bit lane of bytes 2j and 2j + 1, low byte first. */
  function ShiftRight4(v: Vec): (r: Vec)
    requires |v| % 2 == 0
    ensures |r| == |v| && forall k {:trigger r[k]} :: 0 <= k < |v| ==>
      r[k] == if k % 2 == 0 then (v[k + 1] as int * 0x100 + v[k]) / 16 % 0x100 else v[k] / 16
  {
    seq(|v|, k requires 0 <= k < |v| =>
      if k % 2 == 0 then (v[k + 1] as int * 0x100 + v[k]) / 16 % 0x100 else v[k] / 16)
  }

  lemma {:induction false} Quotient16(n: nat, q: nat, r: nat)
    requires n == 16 * q + r && r < 16
    ensures n / 16 == q && n % 16 == r
  {
  }

  lemma {:induction false} Remainder256(n: nat, q: nat, r: nat)
    requires n == 0x100 * q + r && r < 0x100
    ensures n % 0x100 == r
  {
  }

  lemma {:induction false} DropNeighbour(lo: int, hi: int)
    requires 0 <= lo < 0x100 && 0 <= hi < 0x100
    ensures (hi * 0x100 + lo) / 16 % 0x100 % 16 == lo / 16
  {
    var q, r, a, b := lo / 16, lo % 16, hi / 16, hi % 16;
    Quotient16(hi * 0x100 + lo, hi * 16 + q, r);
    Remainder256(hi * 16 + q, a, b * 16 + q);
    Quotient16(b * 16 + q, b, q);
  }

  /** The shift drags four bits of the neighbour in, and the mask drops them ... */
  lemma {:induction false} HighNibble(lo: Byte, hi: Byte)
    ensures And(0x0F, (hi as int * 0x100 + lo) / 16 % 0x100) == lo / 16
  {
    DropNeighbour(lo, hi);
    Pow2Values();
    LowMask(4, (hi as int * 0x100 + lo) / 16 % 0x100);
  }

  /** ... while the high byte of a lane has no neighbour above it. */
  lemma {:induction false} HighNibbleAbove(hi: Byte)
    ensures And(0x0F, hi / 16) == hi / 16
  {
    Pow2Values();
    LowMask(4, hi / 16);
  }

  // ----- table lookups

  /** shuffle_epi8: each lane of 16 looks up in its own part of the table. */
  function Shuffle(table: Vec, index: Vec): (r: Vec)
    requires |table| == |index| && |table| % 16 == 0
    ensures |r| == |index| && forall k {:trigger r[k]} :: 0 <= k < |index| ==>
      r[k] == if index[k] >= 0x80 then 0 else table[k / 16 * 16 + index[k] % 16]
  {
    seq(|index|, k requires 0 <= k < |index| =>
      if index[k] >= 0x80 then 0 else table[k / 16 * 16 + index[k] % 16])
  }

  function BytesOf32(w: nat): (r: Vec)
    ensures |r| == 4
  {
    [w % 0x100, w / 0x100 % 0x100, w / 0x1_0000 % 0x100, w / 0x100_0000 % 0x100]
  }

  /** Four 32-bit words, low byte first, in every lane of 16 of the 64. */
  function Setr4Epi32(w0: nat, w1: nat, w2: nat, w3: nat): (r: Vec)
    ensures |r| == 64
  {
    var row := BytesOf32(w0) + BytesOf32(w1) + BytesOf32(w2) + BytesOf32(w3);
    row + row + row + row
  }

  const LENGTHS: Vec := [1, 1, 1, 1, 1, 1, 1, 1, 0, 0, 0, 0, 2, 2, 3, 4]

  const INITIAL_MINS: Vec :=
    [0x80, 0x80, 0x80, 0x80, 0x80, 0x80, 0x80, 0x80, 0x80, 0x80, 0x80, 0x80, 0xC2, 0x80, 0xE1, 0xF1]

  const SECOND_MINS: Vec :=
    [0x80, 0x80, 0x80, 0x80, 0x80, 0x80, 0x80, 0x80, 0x80, 0x80, 0x80, 0x80, 127, 127, 0xA0, 0x90]

  /** continuationLengths */
  function LengthTable(isa: Isa): Vec {
    match isa
    case Sse => LENGTHS
    case Avx2 => LENGTHS + LENGTHS
    case Avx512 => Setr4Epi32(0x01010101, 0x01010101, 0x00000000, 0x04030202)
  }

  /** checkOverlong, initial_mins; -128 is 0x80 */
  function InitialMinTable(isa: Isa): Vec {
    match isa
    case Sse => INITIAL_MINS
    case Avx2 => INITIAL_MINS + INITIAL_MINS
    case Avx512 => Setr4Epi32(0x80808080, 0x80808080, 0x80808080, 0xF1E180C2)
  }

  /** checkOverlong, second_mins */
  function SecondMinTable(isa: Isa): Vec {
    match isa
    case Sse => SECOND_MINS
    case Avx2 => SECOND_MINS + SECOND_MINS
    case Avx512 => Setr4Epi32(0x80808080, 0x80808080, 0x80808080, 0x90A07F7F)
  }

  /** A row of 16 repeated over the width of a vector. */
  function Repeat(isa: Isa, row: Vec): (r: Vec)
    requires |row| == 16
    ensures |r| == Width(isa)
  {
    match isa case Sse => row case Avx2 => row + row case Avx512 => row + row + row + row
  }

  /** The packed words of the 64-lane tables spell the rows of the others. */
  lemma {:induction false} PackedLengths()
    ensures Setr4Epi32(0x01010101, 0x01010101, 0x00000000, 0x04030202) == Repeat(Avx512, LENGTHS)
  {
    assert BytesOf32(0x01010101) == [1, 1, 1, 1];
    assert BytesOf32(0x00000000) == [0, 0, 0, 0];
    assert BytesOf32(0x04030202) == [2, 2, 3, 4];
    assert LENGTHS == [1, 1, 1, 1] + [1, 1, 1, 1] + [0, 0, 0, 0] + [2, 2, 3, 4];
  }

  lemma {:induction false} PackedInitialMins()
    ensures Setr4Epi32(0x80808080, 0x80808080, 0x80808080, 0xF1E180C2) == Repeat(Avx512, INITIAL_MINS)
  {
    assert BytesOf32(0x80808080) == [0x80, 0x80, 0x80, 0x80];
    assert BytesOf32(0xF1E180C2) == [0xC2, 0x80, 0xE1, 0xF1];
    var low: Vec := [0x80, 0x80, 0x80, 0x80];
    assert INITIAL_MINS == low + low + low + [0xC2, 0x80, 0xE1, 0xF1];
  }

  lemma {:induction false} PackedSecondMins()
    ensures Setr4Epi32(0x80808080, 0x80808080, 0x80808080, 0x90A07F7F) == Repeat(Avx512, SECOND_MINS)
  {
    assert BytesOf32(0x80808080) == [0x80, 0x80, 0x80, 0x80];
    assert BytesOf32(0x90A07F7F) == [127, 127, 0xA0, 0x90];
    var low: Vec := [0x80, 0x80, 0x80, 0x80];
    assert SECOND_MINS == low + low + low + [127, 127, 0xA0, 0x90];
  }

  lemma {:induction false} TablesRepeat(isa: Isa)
    ensures LengthTable(isa) == Repeat(isa, LENGTHS)
    ensures InitialMinTable(isa) == Repeat(isa, INITIAL_MINS)
    ensures SecondMinTable(isa) == Repeat(isa, SECOND_MINS)
  {
    PackedLengths();
    PackedInitialMins();
    PackedSecondMins();
  }

  /** The limits of the end-of-input test: 1 in the last lane, 9 in the others. */
  function EndLimits(isa: Isa): (r: Vec)
    ensures |r| == Width(isa)
    ensures forall k {:trigger r[k]} :: 0 <= k < Width(isa) ==> r[k] == if k == Width(isa) - 1 then 1 else 9
  {
    match isa
    case Sse => Set1(15, 9) + [1]
    case Avx2 => Set1(31, 9) + [1]
    case Avx512 =>
      var nines := BytesOf32(0x09090909);
      assert nines == [9, 9, 9, 9] && BytesOf32(0x01090909) == [9, 9, 9, 1];
      seq(60, k requires 0 <= k < 60 => nines[k % 4]) + BytesOf32(0x01090909)
  }

  // ----- lookups by high nibble

  predicate NibbleLanes(index: Vec) {
    forall k :: 0 <= k < |index| ==> index[k] < 16
  }

  lemma {:induction false} ShuffleRow(isa: Isa, row: Vec, index: Vec, k: nat)
    requires |row| == 16 && |index| == Width(isa) && k < Width(isa) && index[k] < 16
    ensures Shuffle(Repeat(isa, row), index)[k] == row[index[k]]
  {
  }

  /** Every lane looks up in the same row of 16. */
  method LookUp(isa: Isa, table: Vec, ghost row: Vec, index: Vec) returns (r: Vec)
    requires |row| == 16 && table == Repeat(isa, row) && |index| == Width(isa) && NibbleLanes(index)
    ensures |r| == |index| && forall k {:trigger r[k]} :: 0 <= k < |index| ==> r[k] == row[index[k]]
  {
    r := Shuffle(table, index);
    forall k | 0 <= k < |index| ensures r[k] == row[index[k]] { ShuffleRow(isa, row, index, k); }
  }
}
