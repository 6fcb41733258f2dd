/** The shift of a block by one or two lanes, with the end of the block before
    coming in at the bottom. The three instruction sets have no such instruction
    in common: SSE has a byte-wise align of two registers, AVX2 has that only
    inside each half, AVX-512 has a permutation by an index table. All three
    are proved to be the same shift. */
module LaneShifts {
  import opened Utf8
  import opened Kernel
  import opened Lanes

  /** alignr_epi8 on 16 lanes: drop n bytes of lo, continue with hi. */
  function Alignr128(hi: Vec, lo: Vec, n: nat): (r: Vec)
    requires |hi| == |lo| == 16 && n <= 16
    ensures |r| == 16
  {
    (lo + hi)[n..n + 16]
  }

  /** permute2x128 with control 0x21: the high half of a, the low half of b. */
  function Permute2x128(a: Vec, b: Vec): (r: Vec)
    requires |a| == |b| == 32
    ensures |r| == 32
  {
    a[16..] + b[..16]
  }

  /** alignr_epi8 on 32 lanes works on each half by itself. */
  function Alignr256(hi: Vec, lo: Vec, n: nat): (r: Vec)
    requires |hi| == |lo| == 32 && n <= 16
    ensures |r| == 32
  {
    Alignr128(hi[..16], lo[..16], n) + Alignr128(hi[16..], lo[16..], n)
  }

  function BytesOf64(w: nat): (r: Vec)
    ensures |r| == 8
  {
    BytesOf32(w % 0x1_0000_0000) + BytesOf32(w / 0x1_0000_0000)
  }

  /** set_epi64 names the most significant word first. */
  function SetEpi64(e7: nat, e6: nat, e5: nat, e4: nat, e3: nat, e2: nat, e1: nat, e0: nat): (r: Vec)
    ensures |r| == 64
  {
    BytesOf64(e0) + BytesOf64(e1) + BytesOf64(e2) + BytesOf64(e3) +
    BytesOf64(e4) + BytesOf64(e5) + BytesOf64(e6) + BytesOf64(e7)
  }

  /** permutex2var_epi8: bit 6 of an index chooses between x and y. */
  function Permutex2var(x: Vec, index: Vec, y: Vec): (r: Vec)
    requires |x| == |y| == |index| == 64
    ensures |r| == 64
  {
    seq(64, k requires 0 <= k < 64 =>
      var i := index[k] % 0x80; if i < 64 then x[i] else y[i - 64])
  }

  function IndexBy1(): Vec {
    SetEpi64(0x3E3D3C3B3A393837, 0x363534333231302F, 0x2E2D2C2B2A292827, 0x262524232221201F,
             0x1E1D1C1B1A191817, 0x161514131211100F, 0x0E0D0C0B0A090807, 0x060504030201007F)
  }

  function IndexBy2(): Vec {
    SetEpi64(0x3D3C3B3A39383736, 0x3534333231302F2E, 0x2D2C2B2A29282726, 0x2524232221201F1E,
             0x1D1C1B1A19181716, 0x1514131211100F0E, 0x0D0C0B0A09080706, 0x0504030201007F7E)
  }

  // ----- the three shifts are one

  /** Vectors of eight lanes end to end. */
  lemma {:induction false} EightByEight(e: seq<Vec>, k: nat)
    requires |e| == 8 && (forall j :: 0 <= j < 8 ==> |e[j]| == 8) && k < 64
    ensures (e[0] + e[1] + e[2] + e[3] + e[4] + e[5] + e[6] + e[7])[k] == e[k / 8][k % 8]
  {
  }

  /** A 32-bit word written in bytes, most significant last. */
  lemma {:induction false} Spell32(w: nat, b0: Byte, b1: Byte, b2: Byte, b3: Byte)
    requires w == 0x100_0000 * (b3 as int) + 0x1_0000 * (b2 as int) + 0x100 * (b1 as int) + b0
    ensures BytesOf32(w) == [b0, b1, b2, b3]
  {
    assert w / 0x100 == 0x1_0000 * (b3 as int) + 0x100 * (b2 as int) + b1;
    assert w / 0x1_0000 == 0x100 * (b3 as int) + b2;
    assert w / 0x100_0000 == b3;
  }

  /** A word whose bytes count up from `first`. */
  lemma {:induction false} CountingWord(w: nat, first: nat, i: nat)
    requires w == first * 0x0101010101010101 + 0x0706050403020100 && first <= 0x100 - 8 && i < 8
    ensures BytesOf64(w)[i] == first + i
  {
    var lo, hi := first * 0x01010101 + 0x03020100, (first + 4) * 0x01010101 + 0x03020100;
    assert w % 0x1_0000_0000 == lo && w / 0x1_0000_0000 == hi;
    Spell32(lo, first, first + 1, first + 2, first + 3);
    Spell32(hi, first + 4, first + 5, first + 6, first + 7);
  }

  lemma {:induction false} LowestWord1(i: nat)
    requires i < 8
    ensures BytesOf64(0x060504030201007F)[i] == if i < 1 then 0x7F + i else i - 1
  {
    assert 0x060504030201007F % 0x1_0000_0000 == 0x0201007F && 0x060504030201007F / 0x1_0000_0000 == 0x06050403;
    Spell32(0x0201007F, 0x7F, 0x00, 0x01, 0x02);
    Spell32(0x06050403, 0x03, 0x04, 0x05, 0x06);
  }

  lemma {:induction false} Index1(k: nat)
    requires k < 64
    ensures IndexBy1()[k] == if k < 1 then 0x7F + k else k - 1
  {
    var e := [BytesOf64(0x060504030201007F), BytesOf64(0x0E0D0C0B0A090807),
              BytesOf64(0x161514131211100F), BytesOf64(0x1E1D1C1B1A191817),
              BytesOf64(0x262524232221201F), BytesOf64(0x2E2D2C2B2A292827),
              BytesOf64(0x363534333231302F), BytesOf64(0x3E3D3C3B3A393837)];
    EightByEight(e, k);
    var i := k % 8;
    match k / 8
    case 0 => LowestWord1(i);
    case 1 => CountingWord(0x0E0D0C0B0A090807, 7, i);
    case 2 => CountingWord(0x161514131211100F, 15, i);
    case 3 => CountingWord(0x1E1D1C1B1A191817, 23, i);
    case 4 => CountingWord(0x262524232221201F, 31, i);
    case 5 => CountingWord(0x2E2D2C2B2A292827, 39, i);
    case 6 => CountingWord(0x363534333231302F, 47, i);
    case _ => CountingWord(0x3E3D3C3B3A393837, 55, i);
  }

  lemma {:induction false} LowestWord2(i: nat)
    requires i < 8
    ensures BytesOf64(0x0504030201007F7E)[i] == if i < 2 then 0x7E + i else i - 2
  {
    assert 0x0504030201007F7E % 0x1_0000_0000 == 0x01007F7E && 0x0504030201007F7E / 0x1_0000_0000 == 0x05040302;
    Spell32(0x01007F7E, 0x7E, 0x7F, 0x00, 0x01);
    Spell32(0x05040302, 0x02, 0x03, 0x04, 0x05);
  }

  lemma {:induction false} Index2(k: nat)
    requires k < 64
    ensures IndexBy2()[k] == if k < 2 then 0x7E + k else k - 2
  {
    var e := [BytesOf64(0x0504030201007F7E), BytesOf64(0x0D0C0B0A09080706),
              BytesOf64(0x1514131211100F0E), BytesOf64(0x1D1C1B1A19181716),
              BytesOf64(0x2524232221201F1E), BytesOf64(0x2D2C2B2A29282726),
              BytesOf64(0x3534333231302F2E), BytesOf64(0x3D3C3B3A39383736)];
    EightByEight(e, k);
    var i := k % 8;
    match k / 8
    case 0 => LowestWord2(i);
    case 1 => CountingWord(0x0D0C0B0A09080706, 6, i);
    case 2 => CountingWord(0x1514131211100F0E, 14, i);
    case 3 => CountingWord(0x1D1C1B1A19181716, 22, i);
    case 4 => CountingWord(0x2524232221201F1E, 30, i);
    case 5 => CountingWord(0x2D2C2B2A29282726, 38, i);
    case 6 => CountingWord(0x3534333231302F2E, 46, i);
    case _ => CountingWord(0x3D3C3B3A39383736, 54, i);
  }

  lemma {:induction false} AlignrAt(hi: Vec, lo: Vec, n: nat, k: nat)
    requires |hi| == |lo| == 16 && n <= 16 && k < 16
    ensures Alignr128(hi, lo, n)[k] == if n + k < 16 then lo[n + k] else hi[n + k - 16]
  {
  }

  /** Across the two halves, by n <= 2 lanes. */
  lemma {:induction false} HalvesShift(a: Vec, b: Vec, n: nat, k: nat)
    requires |a| == |b| == 32 && n <= 2 && k < 32
    ensures Alignr256(b, Permute2x128(a, b), 16 - n)[k] == if k < n then a[32 - n + k] else b[k - n]
  {
    var lo := Permute2x128(a, b);
    if k < 16 {
      AlignrAt(b[..16], lo[..16], 16 - n, k);
    } else {
      AlignrAt(b[16..], lo[16..], 16 - n, k - 16);
    }
  }

  lemma {:induction false} PermuteShifts(a: Vec, b: Vec, index: Vec, n: nat, k: nat)
    requires |a| == |b| == |index| == 64 && n <= 2 && k < 64
    requires index[k] == if k < n then 0x80 - n + k else k - n
    ensures Permutex2var(b, index, a)[k] == if k < n then a[64 - n + k] else b[k - n]
  {
  }

  /** The last n lanes of a, then b without its last n lanes. */
  predicate ShiftedIn(a: Vec, b: Vec, n: nat, r: Vec)
    requires |a| == |b| && n <= |a|
  {
    |r| == |b| && forall k {:trigger r[k]} :: 0 <= k < |b| ==> r[k] == if k < n then a[|a| - n + k] else b[k - n]
  }

  method SsePush(a: Vec, b: Vec, n: nat) returns (r: Vec)
    requires |a| == |b| == 16 && n <= 2
    ensures ShiftedIn(a, b, n, r)
  {
    r := Alignr128(b, a, 16 - n);
    forall k | 0 <= k < 16 ensures r[k] == if k < n then a[16 - n + k] else b[k - n] { AlignrAt(b, a, 16 - n, k); }
  }

  method Avx2Push(a: Vec, b: Vec, n: nat) returns (r: Vec)
    requires |a| == |b| == 32 && n <= 2
    ensures ShiftedIn(a, b, n, r)
  {
    r := Alignr256(b, Permute2x128(a, b), 16 - n);
    forall k | 0 <= k < 32 ensures r[k] == if k < n then a[32 - n + k] else b[k - n] { HalvesShift(a, b, n, k); }
  }

  method Avx512PushLastByte(a: Vec, b: Vec) returns (r: Vec)
    requires |a| == |b| == 64
    ensures ShiftedIn(a, b, 1, r)
  {
    var index := IndexBy1();
    r := Permutex2var(b, index, a);
    forall k | 0 <= k < 64 ensures r[k] == if k < 1 then a[64 - 1 + k] else b[k - 1] {
      Index1(k);
      PermuteShifts(a, b, index, 1, k);
    }
  }

  method Avx512PushLast2Bytes(a: Vec, b: Vec) returns (r: Vec)
    requires |a| == |b| == 64
    ensures ShiftedIn(a, b, 2, r)
  {
    var index := IndexBy2();
    r := Permutex2var(b, index, a);
    forall k | 0 <= k < 64 ensures r[k] == if k < 2 then a[64 - 2 + k] else b[k - 2] {
      Index2(k);
      PermuteShifts(a, b, index, 2, k);
    }
  }

  /** push_last_byte_of_a_to_b: whatever the instruction set, the block moves one
      lane up and the last byte of the block before comes in at the bottom. */
  method PushLastByte(isa: Isa, a: Vec, b: Vec) returns (r: Vec)
    requires |a| == |b| == Width(isa)
    ensures ShiftedIn(a, b, 1, r)
  {
    match isa {
      case Sse => r := SsePush(a, b, 1);
      case Avx2 => r := Avx2Push(a, b, 1);
      case Avx512 => r := Avx512PushLastByte(a, b);
    }
  }

  /** push_last_2bytes_of_a_to_b */
  method PushLast2Bytes(isa: Isa, a: Vec, b: Vec) returns (r: Vec)
    requires |a| == |b| == Width(isa)
    ensures ShiftedIn(a, b, 2, r)
  {
    match isa {
      case Sse => r := SsePush(a, b, 2);
      case Avx2 => r := Avx2Push(a, b, 2);
      case Avx512 => r := Avx512PushLast2Bytes(a, b);
    }
  }
}
