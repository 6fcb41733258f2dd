/** The SIMD validators as written: has_error and `previous` are updated in
    place, block after block, by vector instructions. Each method is proved
    against the lane-level specification of Kernel and BlockRun. */
module Simd {
  import opened Utf8
  import opened Bits
  import opened LazyAutomaton
  import opened PrefixSum
  import opened Kernel
  import opened BlockRun
  import opened Lanes
  import opened LaneShifts

  /** Row contents and signed comparisons of checkOverlong, for one lane. */
  lemma {:induction false} OverlongLane(before: Byte, b: Byte)
    ensures
      Signed(INITIAL_MINS[before / 16]) > Signed(before) && Signed(SECOND_MINS[before / 16]) > Signed(b)
      <==> BelowMin(before, b)
  {
  }

  lemma {:induction false} LengthLane(b: Byte)
    ensures LENGTHS[b / 16] == InitialLength(b)
  {
  }

  /** An 8-bit lane of the sum: with bounded carries coming in it never wraps. */
  lemma {:induction false} SumLane(c1: nat, len: seq<nat>, k: nat, left: nat)
    requires Lengths(len) && k < |len| && c1 <= 12
    requires left == if k == 0 then c1 else len[k - 1]
    ensures (len[k] + Minus(left, 1)) % 0x100 == Sum(c1, len, k)
  {
  }

  /** An 8-bit lane of the carries. */
  lemma {:induction false} CarryLane(c1: nat, c2: nat, len: seq<nat>, k: nat, left2: nat)
    requires Lengths(len) && k < |len| && c1 <= 12 && c2 <= 12
    requires left2 == if k == 0 then c2 else if k == 1 then c1 else Sum(c1, len, k - 2)
    ensures (Sum(c1, len, k) + Minus(left2, 2)) % 0x100 == Carry(c1, c2, len, k)
  {
  }

  /** The four checks leave a lane of has_error zero exactly when it was zero and
      the lane has no error. */
  lemma {:induction false} FourChecks(prev: Processed, cur: Vec, off1: Vec, lengths: Vec, carries: Vec,
                                      h0: Vec, h1: Vec, h2: Vec, h3: Vec, h4: Vec)
    requires Kernel.Valid(prev, |cur|) && |h0| == |h1| == |h2| == |h3| == |h4| == |cur|
    requires lengths == InitialLengths(cur) && carries == Carries(prev.carries, cur)
    requires ShiftedIn(prev.rawBytes, cur, 1, off1)
    requires forall k {:trigger h1[k]} :: 0 <= k < |cur| ==> (h1[k] == 0 <==> h0[k] == 0 && !TooLarge(cur[k]))
    requires forall k {:trigger h2[k]} :: 0 <= k < |cur| ==>
      (h2[k] == 0 <==> h1[k] == 0 && !(carries[k] > lengths[k] <==> lengths[k] > 0))
    requires forall k {:trigger h3[k]} :: 0 <= k < |cur| ==>
      (h3[k] == 0 <==> h2[k] == 0 && !AboveMax(off1[k], cur[k]))
    requires forall k {:trigger h4[k]} :: 0 <= k < |cur| ==>
      (h4[k] == 0 <==> h3[k] == 0 && !BelowMin(off1[k], cur[k]))
    ensures (forall k :: 0 <= k < |cur| ==> h4[k] == 0) <==>
      (forall k :: 0 <= k < |cur| ==> h0[k] == 0) && BlockClean(prev, cur)
    ensures forall k {:trigger h4[k]} :: 0 <= k < |cur| ==> (h4[k] == 0 <==> h0[k] == 0 && !BadLane(prev, cur, k))
  {
    forall k {:trigger h4[k]} | 0 <= k < |cur| ensures h4[k] == 0 <==> h0[k] == 0 && !BadLane(prev, cur, k) {
      assert carries[k] == LaneCarry(prev.carries, cur, k) && lengths[k] == InitialLength(cur[k]);
      assert off1[k] == Before(prev.rawBytes[|cur| - 1], cur, k);
      assert h3[k] == 0 <==> h2[k] == 0 && !AboveMax(off1[k], cur[k]);
      assert h1[k] == 0 <==> h0[k] == 0 && !TooLarge(cur[k]);
    }
    if forall k :: 0 <= k < |cur| ==> h4[k] == 0 {
      forall k {:trigger BadLane(prev, cur, k)} {:trigger h0[k]} | 0 <= k < |cur|
        ensures h0[k] == 0 && !BadLane(prev, cur, k) { assert h4[k] == 0; }
    }
  }

  /** The end-of-input test leaves has_error zero exactly when it was zero and no
      carry is over its limit. */
  lemma {:induction false} LimitCheck(h0: Vec, errors: Vec, h1: Vec, carries: Vec)
    requires |h0| == |errors| == |h1| == |carries|
    requires forall k {:trigger errors[k]} :: 0 <= k < |h0| ==>
      (errors[k] != 0 <==> carries[k] > (if k == |h0| - 1 then 1 else 9))
    requires forall k {:trigger h1[k]} :: 0 <= k < |h0| ==> (h1[k] == 0 <==> h0[k] == 0 && errors[k] == 0)
    ensures (forall k :: 0 <= k < |h1| ==> h1[k] == 0) <==>
      (forall k :: 0 <= k < |h0| ==> h0[k] == 0) && !Unfinished(carries)
  {
    if forall k :: 0 <= k < |h1| ==> h1[k] == 0 {
      forall k | 0 <= k < |h0|
        ensures h0[k] == 0 && !(carries[k] > (if k == |carries| - 1 then 1 else 9)) { assert h1[k] == 0; }
    }
    if (forall k :: 0 <= k < |h0| ==> h0[k] == 0) && !Unfinished(carries) {
      forall k | 0 <= k < |h1| ensures h1[k] == 0 {
        assert !(carries[k] > (if k == |carries| - 1 then 1 else 9));
        assert errors[k] == 0;
      }
    }
  }

  class Checker {
    const isa: Isa
    var previous: Processed
    var hasError: Vec

    ghost predicate Valid() reads this {
      |hasError| == Width(isa) && Kernel.Valid(previous, Width(isa))
    }

    ghost predicate Clean() reads this {
      forall k :: 0 <= k < |hasError| ==> hasError[k] == 0
    }

    ghost function State(): RunState
      reads this
    {
      RunState(previous, Clean())
    }

    constructor (isa: Isa)
      ensures Valid() && this.isa == isa && State() == Start(Width(isa))
      ensures previous.rawBytes == previous.highNibbles == previous.carries == hasError == Zeros(Width(isa))
    {
      this.isa := isa;
      previous := Start(Width(isa)).previous;
      hasError := Zeros(Width(isa));
    }

    /** has_error |= errors */
    method Raise(errors: Vec)
      requires |errors| == |hasError|
      modifies this`hasError
      ensures |hasError| == |old(hasError)|
      ensures forall k {:trigger hasError[k]} :: 0 <= k < |hasError| ==>
        (hasError[k] == 0 <==> old(hasError)[k] == 0 && errors[k] == 0)
    {
      hasError := OrLanes(hasError, errors);
    }

    method CheckSmallerThan0xF4(current: Vec)
      requires Valid() && |current| == Width(isa)
      modifies this`hasError
      ensures Valid()
      ensures forall k {:trigger hasError[k]} :: 0 <= k < Width(isa) ==>
        (hasError[k] == 0 <==> old(hasError)[k] == 0 && !TooLarge(current[k]))
    {
      var max := Set1(Width(isa), 0xF4);
      if isa.Avx512? {
        Raise(CmpGtUnsigned(isa, current, max));
      } else {
        Raise(Subs(current, max));
      }
    }

    method ContinuationLengths(highNibbles: Vec, ghost current: Vec) returns (lengths: Vec)
      requires |current| == Width(isa) && highNibbles == Nibbles(current)
      ensures lengths == InitialLengths(current)
    {
      TablesRepeat(isa);
      lengths := LookUp(isa, LengthTable(isa), LENGTHS, highNibbles);
      forall k | 0 <= k < Width(isa) ensures lengths[k] == InitialLength(current[k]) { LengthLane(current[k]); }
    }

    method FirstSum(lengths: Vec, previousCarries: Vec) returns (sum: Vec)
      requires |lengths| == |previousCarries| == Width(isa) && Lengths(lengths) && Bounded(previousCarries)
      ensures |sum| == Width(isa)
      ensures forall k {:trigger sum[k]} :: 0 <= k < Width(isa) ==>
        sum[k] == Sum(previousCarries[Width(isa) - 1], lengths, k)
    {
      ghost var c1 := previousCarries[Width(isa) - 1];
      var left := PushLastByte(isa, previousCarries, lengths);
      var right1 := Subs(left, Set1(Width(isa), 1));
      sum := Add(lengths, right1);
      forall k {:trigger sum[k]} | 0 <= k < Width(isa) ensures sum[k] == Sum(c1, lengths, k) {
        SumLane(c1, lengths, k, left[k]);
      }
    }

    /** Whatever the lengths, with bounded carries coming in no 8-bit sum wraps. */
    method CarryContinuations(lengths: Vec, previousCarries: Vec) returns (carries: Vec)
      requires |lengths| == |previousCarries| == Width(isa) && Lengths(lengths) && Bounded(previousCarries)
      ensures |carries| == Width(isa)
      ensures var c1, c2 := previousCarries[Width(isa) - 1], previousCarries[Width(isa) - 2];
        forall k {:trigger carries[k]} :: 0 <= k < Width(isa) ==> carries[k] == Carry(c1, c2, lengths, k)
    {
      ghost var c1, c2 := previousCarries[Width(isa) - 1], previousCarries[Width(isa) - 2];
      var sum := FirstSum(lengths, previousCarries);
      var left2 := PushLast2Bytes(isa, previousCarries, sum);
      var right2 := Subs(left2, Set1(Width(isa), 2));
      carries := Add(sum, right2);
      forall k {:trigger carries[k]} | 0 <= k < Width(isa) ensures carries[k] == Carry(c1, c2, lengths, k) {
        CarryLane(c1, c2, lengths, k, left2[k]);
      }
    }

    method CheckContinuations(lengths: Vec, carries: Vec)
      requires Valid() && |lengths| == |carries| == Width(isa)
      requires forall k :: 0 <= k < Width(isa) ==> lengths[k] < 0x80 && carries[k] < 0x80
      modifies this`hasError
      ensures Valid()
      ensures forall k {:trigger hasError[k]} :: 0 <= k < Width(isa) ==>
        (hasError[k] == 0 <==> old(hasError)[k] == 0 && !(carries[k] > lengths[k] <==> lengths[k] > 0))
    {
      var over := CmpGt(isa, carries, lengths);
      var initial := CmpGt(isa, lengths, Set1(Width(isa), 0));
      Raise(CmpEq(isa, over, initial));
    }

    method CheckFirstContinuationMax(current: Vec, off1Current: Vec)
      requires Valid() && |current| == |off1Current| == Width(isa)
      modifies this`hasError
      ensures Valid()
      ensures forall k {:trigger hasError[k]} :: 0 <= k < Width(isa) ==>
        (hasError[k] == 0 <==> old(hasError)[k] == 0 && !AboveMax(off1Current[k], current[k]))
    {
      var maskED := CmpEq(isa, off1Current, Set1(Width(isa), 0xED));
      var maskF4 := CmpEq(isa, off1Current, Set1(Width(isa), 0xF4));
      var badFollowED := AndLanes(CmpGt(isa, current, Set1(Width(isa), 0x9F)), maskED);
      var badFollowF4 := AndLanes(CmpGt(isa, current, Set1(Width(isa), 0x8F)), maskF4);
      forall k | 0 <= k < Width(isa)
        ensures badFollowED[k] == 0 && badFollowF4[k] == 0 <==> !AboveMax(off1Current[k], current[k])
      {
        AndFlags(isa, Signed(current[k]) > Signed(0x9F), off1Current[k] == 0xED);
        AndFlags(isa, Signed(current[k]) > Signed(0x8F), off1Current[k] == 0xF4);
      }
      Raise(OrLanes(badFollowED, badFollowF4));
    }

    method CheckOverlong(current: Vec, off1Current: Vec, hibits: Vec, previousHibits: Vec, ghost previousBytes: Vec)
      requires Valid() && |current| == |previousBytes| == Width(isa)
      requires hibits == Nibbles(current) && previousHibits == Nibbles(previousBytes)
      requires ShiftedIn(previousBytes, current, 1, off1Current)
      modifies this`hasError
      ensures Valid()
      ensures forall k {:trigger hasError[k]} :: 0 <= k < Width(isa) ==>
        (hasError[k] == 0 <==> old(hasError)[k] == 0 && !BelowMin(off1Current[k], current[k]))
    {
      var off1Hibits := PushLastByte(isa, previousHibits, hibits);
      assert off1Hibits == Nibbles(off1Current);
      TablesRepeat(isa);
      var initialMins := LookUp(isa, InitialMinTable(isa), INITIAL_MINS, off1Hibits);
      var initialUnder := CmpGt(isa, initialMins, off1Current);
      var secondMins := LookUp(isa, SecondMinTable(isa), SECOND_MINS, off1Hibits);
      var secondUnder := CmpGt(isa, secondMins, current);
      var under := AndLanes(initialUnder, secondUnder);
      forall k | 0 <= k < Width(isa) ensures under[k] == 0 <==> !BelowMin(off1Current[k], current[k]) {
        AndFlags(isa, Signed(initialMins[k]) > Signed(off1Current[k]), Signed(secondMins[k]) > Signed(current[k]));
        OverlongLane(off1Current[k], current[k]);
      }
      Raise(under);
    }

    /** count_nibbles */
    method CountNibbles(bytes: Vec) returns (highNibbles: Vec)
      requires |bytes| == Width(isa)
      ensures highNibbles == Nibbles(bytes)
    {
      var shifted := ShiftRight4(bytes);
      highNibbles := AndLanes(Set1(Width(isa), 0x0F), shifted);
      forall k | 0 <= k < Width(isa) ensures highNibbles[k] == bytes[k] / 16 {
        if k % 2 == 0 { HighNibble(bytes[k], bytes[k + 1]); } else { HighNibbleAbove(bytes[k]); }
      }
    }

    /** checkUTF8Bytes, which also replaces `previous` in place of the caller. */
    method CheckUtf8Bytes(current: Vec)
      requires Valid() && |current| == Width(isa)
      modifies this
      ensures Valid() && State() == Block(Plain, old(State()), current)
      ensures previous.rawBytes == current
      ensures forall k {:trigger hasError[k]} :: 0 <= k < Width(isa) ==>
        (hasError[k] == 0 <==> old(hasError)[k] == 0 && !BadLane(old(previous), current, k))
    {
      ghost var h0 := hasError;
      var highNibbles := CountNibbles(current);
      CheckSmallerThan0xF4(current);
      ghost var h1 := hasError;
      var lengths := ContinuationLengths(highNibbles, current);
      var carries := CarryContinuations(lengths, previous.carries);
      assert carries == Carries(previous.carries, current);
      CheckContinuations(lengths, carries);
      ghost var h2 := hasError;
      var off1Current := PushLastByte(isa, previous.rawBytes, current);
      CheckFirstContinuationMax(current, off1Current);
      ghost var h3 := hasError;
      CheckOverlong(current, off1Current, highNibbles, previous.highNibbles, previous.rawBytes);
      FourChecks(previous, current, off1Current, lengths, carries, h0, h1, h2, h3, hasError);
      previous := Processed(current, highNibbles, carries);
    }

    /** has_error |= carried_continuations > (9, ..., 9, 1) */
    method RaiseUnfinished()
      requires Valid()
      modifies this`hasError
      ensures Valid() && (Clean() <==> old(Clean()) && !Unfinished(previous.carries))
      ensures forall k {:trigger hasError[k]} :: 0 <= k < Width(isa) ==>
        (hasError[k] == 0 <==> old(hasError)[k] == 0 && previous.carries[k] <= (if k == Width(isa) - 1 then 1 else 9))
    {
      ghost var h0 := hasError;
      var errors := CmpGt(isa, previous.carries, EndLimits(isa));
      assert forall k {:trigger errors[k]} :: 0 <= k < |h0| ==>
        (errors[k] != 0 <==> previous.carries[k] > (if k == |h0| - 1 then 1 else 9));
      Raise(errors);
      LimitCheck(h0, errors, hasError, previous.carries);
    }

    /** The fast-path test: no byte has its high bit set. */
    method HasOnlyAscii(current: Vec) returns (ascii: bool)
      requires |current| == Width(isa)
      ensures ascii <==> AllAscii(current)
    {
      if isa.Avx512? {
        var high := CmpGeUnsigned(isa, current, Set1(Width(isa), 0x80));
        ascii := forall k :: 0 <= k < |high| ==> high[k] == 0;
        assert forall k {:trigger current[k]} :: 0 <= k < |high| ==> (high[k] == 0 <==> Ascii(current[k]));
      } else {
        var high := AndLanes(Set1(Width(isa), 0x80), current);
        ascii := forall k :: 0 <= k < |high| ==> high[k] == 0;
        forall k {:trigger current[k]} | 0 <= k < |high| ensures high[k] == 0 <==> Ascii(current[k]) {
          Pow2Values();
          TopBit(7, current[k]);
        }
      }
    }

    /** checkUTF8Bytes_asciipath */
    method CheckUtf8BytesAsciiPath(current: Vec)
      requires Valid() && |current| == Width(isa)
      modifies this
      ensures Valid() && State() == Block(AsciiPath, old(State()), current)
      ensures if AllAscii(current) then previous == old(previous) else previous.rawBytes == current
    {
      var ascii := HasOnlyAscii(current);
      if ascii {
        RaiseUnfinished();
      } else {
        CheckUtf8Bytes(current);
      }
    }

    /** testz(has_error, has_error), or !has_error for a mask */
    method HasNoError() returns (ok: bool)
      requires Valid()
      ensures ok == Clean()
    {
      if isa.Avx512? {
        ok := forall k :: 0 <= k < |hasError| ==> hasError[k] == 0;
      } else {
        var both := AndLanes(hasError, hasError);
        ok := forall k :: 0 <= k < |both| ==> both[k] == 0;
        forall k {:trigger hasError[k]} | 0 <= k < |both| ensures both[k] == hasError[k] { AndSelf(hasError[k]); }
      }
    }

    /** The last part of every validator: a tail in a zeroed buffer, or the
        end-of-input test when nothing is left over. */
    method FinishInput(src: array<Byte>, i: nat) returns (ok: bool)
      requires Valid() && i <= src.Length < i + Width(isa)
      modifies this
      ensures var st, rest := old(State()), src[i..];
        ok == if rest == [] then st.clean && !Unfinished(st.previous.carries)
              else Block(Plain, st, Pad(Width(isa), rest)).clean
    {
      if i < src.Length {
        var buffer := new Byte[Width(isa)](_ => 0);
        forall j | 0 <= j < src.Length - i { buffer[j] := src[i + j]; }
        assert buffer[..] == Pad(Width(isa), src[i..]);
        CheckUtf8Bytes(buffer[..]);
      } else {
        RaiseUnfinished();
      }
      ok := HasNoError();
    }
  }

  lemma {:induction false} SplitAnother(w: nat, s: seq<Byte>, i: nat)
    requires w >= 5 && i + w <= |s|
    ensures WholeBlocks(w, s[i..]) == [s[i..i + w]] + WholeBlocks(w, s[i + w..])
    ensures Rest(w, s[i..]) == Rest(w, s[i + w..])
  {
    assert s[i..][w..] == s[i + w..] && s[i..][..w] == s[i..i + w];
  }

  /** `blocks` are the whole blocks of the first i bytes. */
  ghost predicate Split(w: nat, s: seq<Byte>, i: nat, blocks: seq<Vec>) {
    && i <= |s| && Blocks(w, blocks)
    && WholeBlocks(w, s) == blocks + WholeBlocks(w, s[i..]) && Rest(w, s) == Rest(w, s[i..])
  }

  lemma {:induction false} SplitAdvances(w: nat, s: seq<Byte>, i: nat, blocks: seq<Vec>)
    requires Split(w, s, i, blocks) && i + w <= |s|
    ensures Split(w, s, i + w, blocks + [s[i..i + w]])
  {
    var cur, later := s[i..i + w], WholeBlocks(w, s[i + w..]);
    SplitAnother(w, s, i);
    assert blocks + ([cur] + later) == (blocks + [cur]) + later;
  }

  /** They are, and `st` is the state of the run after them. */
  ghost predicate Progress(path: Path, w: nat, s: seq<Byte>, i: nat, blocks: seq<Vec>, st: RunState) {
    Split(w, s, i, blocks) && st == RunBlocks(path, w, blocks)
  }

  lemma {:induction false} AnotherBlock(path: Path, w: nat, s: seq<Byte>, i: nat, blocks: seq<Vec>, st: RunState)
    requires Progress(path, w, s, i, blocks, st) && i + w <= |s|
    ensures Progress(path, w, s, i + w, blocks + [s[i..i + w]], Block(path, st, s[i..i + w]))
  {
    SplitAdvances(w, s, i, blocks);
    RunAnother(path, w, blocks, s[i..i + w]);
  }

  lemma {:induction false} AllBlocks(path: Path, w: nat, s: seq<Byte>, i: nat, blocks: seq<Vec>, st: RunState)
    requires Progress(path, w, s, i, blocks, st) && |s| < i + w
    ensures Verdict(path, w, s) ==
      if s[i..] == [] then st.clean && !Unfinished(st.previous.carries)
      else Block(Plain, st, Pad(w, s[i..])).clean
  {
    assert WholeBlocks(w, s[i..]) == [] && Rest(w, s[i..]) == s[i..];
    assert blocks + [] == blocks;
    assert WholeBlocks(w, s) == blocks && Rest(w, s) == s[i..];
  }

  /** validate_utf8_fast, validate_utf8_fast_avx, validate_utf8_fast_avx512 */
  method ValidateUtf8Fast(isa: Isa, src: array<Byte>) returns (ok: bool)
    ensures ok == Verdict(Plain, Width(isa), src[..])
    ensures ok <==> WellFormed(src[..])
  {
    ghost var s, blocks := src[..], [];
    var w, i := Width(isa), 0;
    var checker := new Checker(isa);
    if src.Length >= w {
      while i <= src.Length - w
        invariant fresh(checker) && checker.isa == isa && checker.Valid()
        invariant 0 <= i && Progress(Plain, w, s, i, blocks, checker.State())
      {
        AnotherBlock(Plain, w, s, i, blocks, checker.State());
        checker.CheckUtf8Bytes(src[i..i + w]);
        blocks := blocks + [s[i..i + w]];
        i := i + w;
      }
    }
    AllBlocks(Plain, w, s, i, blocks, checker.State());
    ok := checker.FinishInput(src, i);
    VerdictIsWellFormed(Plain, w, s);
  }

  /** validate_utf8_fast_avx_asciipath, validate_utf8_fast_avx512_asciipath */
  method ValidateUtf8FastAsciiPath(isa: Isa, src: array<Byte>) returns (ok: bool)
    ensures ok == Verdict(AsciiPath, Width(isa), src[..])
    ensures ok <==> WellFormed(src[..])
  {
    ghost var s, blocks := src[..], [];
    var w, i := Width(isa), 0;
    var checker := new Checker(isa);
    if src.Length >= w {
      while i <= src.Length - w
        invariant fresh(checker) && checker.isa == isa && checker.Valid()
        invariant 0 <= i && Progress(AsciiPath, w, s, i, blocks, checker.State())
      {
        AnotherBlock(AsciiPath, w, s, i, blocks, checker.State());
        checker.CheckUtf8BytesAsciiPath(src[i..i + w]);
        blocks := blocks + [s[i..i + w]];
        i := i + w;
      }
    }
    AllBlocks(AsciiPath, w, s, i, blocks, checker.State());
    ok := checker.FinishInput(src, i);
    VerdictIsWellFormed(AsciiPath, w, s);
  }
}
