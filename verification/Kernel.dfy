/** What one block step of the SIMD validators means, lane by lane, and why the
    lanes decide Table 3-7 without parsing a character.

    This is the lane-level specification: plain integers, no saturation, no
    wrap-around, no signed bytes, no lookup tables. The intrinsics are in Lanes
    and the code in Simd implements this specification with them. A block has
    any width of five lanes or more. */
module Kernel {
  import opened Utf8
  import opened Automaton
  import opened LazyAutomaton
  import opened PrefixSum

  type Vec = seq<Byte>

  /** What a block leaves behind for the next one. */
  datatype Processed = Processed(rawBytes: Vec, highNibbles: Vec, carries: Vec)

  function InitialLengths(cur: Vec): (len: seq<nat>)
    ensures |len| == |cur| && Lengths(len)
    ensures forall k {:trigger len[k]} :: 0 <= k < |cur| ==> len[k] == InitialLength(cur[k])
  {
    seq(|cur|, k requires 0 <= k < |cur| => InitialLength(cur[k]))
  }

  /** The carries that reach the next block leave room in its 8-bit lanes. */
  predicate Bounded(carries: Vec) {
    && |carries| >= 5
    && carries[|carries| - 1] <= 12 && carries[|carries| - 2] <= 12
    && forall k :: 0 <= k < |carries| ==> carries[k] <= 25
  }

  function LaneCarry(p: Vec, cur: Vec, k: nat): nat
    requires |p| >= 5 && k < |cur|
  {
    Carry(p[|p| - 1], p[|p| - 2], InitialLengths(cur), k)
  }

  function Carries(p: Vec, cur: Vec): (c: Vec)
    requires |p| == |cur| && Bounded(p)
    ensures |c| == |cur| && Bounded(c)
    ensures forall k {:trigger c[k]} :: 0 <= k < |cur| ==> c[k] == LaneCarry(p, cur, k)
  {
    var c1, c2, len := p[|p| - 1], p[|p| - 2], InitialLengths(cur);
    assert forall k :: 0 <= k < |len| ==> Carry(c1, c2, len, k) <= (if k < 3 then 25 else 12) by {
      forall k | 0 <= k < |len| ensures Carry(c1, c2, len, k) <= (if k < 3 then 25 else 12) {
        CarryBounds(c1, c2, len, k);
      }
    }
    seq(|cur|, k requires 0 <= k < |cur| => Carry(c1, c2, len, k))
  }

  /** The carry of a lane that the block before does not reach, from the lengths
      announced in four lanes. */
  function Reach(cur: Vec, k: nat): nat
    requires 3 <= k < |cur|
  {
    var n0, n1, n2, n3 :=
      InitialLength(cur[k]), InitialLength(cur[k - 1]), InitialLength(cur[k - 2]), InitialLength(cur[k - 3]);
    n0 + Minus(n1, 1) + Minus(n2, 2) + Minus(n3, 3) + Minus(AtMost(n2, 2) + AtMost(n3, 3), 3)
  }

  function Nibbles(cur: Vec): (n: Vec)
    ensures |n| == |cur| && forall k {:trigger n[k]} :: 0 <= k < |cur| ==> n[k] == cur[k] / 16
  {
    seq(|cur|, k requires 0 <= k < |cur| => cur[k] / 16)
  }

  /** Kept by every block, on any input whatsoever. */
  predicate Valid(prev: Processed, w: nat) {
    && |prev.rawBytes| == |prev.carries| == w
    && prev.highNibbles == Nibbles(prev.rawBytes)
    && Bounded(prev.carries)
  }

  function Process(prev: Processed, cur: Vec): (next: Processed)
    requires Valid(prev, |cur|)
    ensures Valid(next, |cur|)
  {
    Processed(cur, Nibbles(cur), Carries(prev.carries, cur))
  }

  /** The byte before lane k, when `last` is the byte before the block. */
  function Before(last: Byte, cur: Vec, k: nat): Byte
    requires k <= |cur|
  {
    if k == 0 then last else cur[k - 1]
  }

  /** The error of lane k. */
  predicate BadLane(prev: Processed, cur: Vec, k: nat)
    requires Valid(prev, |cur|) && k < |cur|
  {
    LaneError(Before(prev.rawBytes[|cur| - 1], cur, k), cur[k], LaneCarry(prev.carries, cur, k))
  }

  predicate BlockClean(prev: Processed, cur: Vec)
    requires Valid(prev, |cur|)
  {
    forall k {:trigger BadLane(prev, cur, k)} :: 0 <= k < |cur| ==> !BadLane(prev, cur, k)
  }

  /** The end-of-input test: a character is unfinished. */
  predicate Unfinished(carries: Vec) {
    exists k :: 0 <= k < |carries| && carries[k] > (if k == |carries| - 1 then 1 else 9)
  }

  /** While nothing is wrong, `previous` describes state q. It may be as old as
      it likes, as long as only ASCII came after it. */
  predicate Describes(prev: Processed, w: nat, q: LazyState) {
    Valid(prev, w) && Fits(prev.carries, prev.rawBytes[w - 1], q)
  }

  predicate Fits(carries: Vec, lastByte: Byte, q: LazyState) {
    && |carries| >= 5
    && Incoming(carries[|carries| - 1], carries[|carries| - 2])
    && Coherent(carries[|carries| - 1], lastByte)
    && (forall k :: 0 <= k < |carries| ==> carries[k] <= 9)
    && q == StateOf(carries[|carries| - 1], lastByte)
  }

  /** The first k lanes are clean, and the automaton is in state `state`. */
  predicate Simulated(c1: nat, last: Byte, cur: Vec, len: seq<nat>, k: nat, state: LazyState)
    requires |len| == |cur| && k <= |cur|
  {
    var owed := Owed(c1, len, k);
    && Matched(c1, len, k)
    && owed >= 0 && Coherent(owed, Before(last, cur, k))
    && state == StateOf(owed, Before(last, cur, k))
  }

  lemma {:induction false} LaneSimulates(c1: nat, c2: nat, last: Byte, cur: Vec, len: seq<nat>, k: nat,
                                         state: LazyState)
    requires |len| == |cur| && k < |cur| && Lengths(len) && len[k] == InitialLength(cur[k])
    requires Incoming(c1, c2) && Simulated(c1, last, cur, len, k, state)
    ensures var next := LazyNext(state, cur[k]);
      && (LaneError(Before(last, cur, k), cur[k], Carry(c1, c2, len, k)) <==> next == REJECT)
      && (next != REJECT ==> Simulated(c1, last, cur, len, k + 1, next))
  {
    CarryExact(c1, c2, len, k);
    LaneDecides(Owed(c1, len, k), Before(last, cur, k), cur[k], Carry(c1, c2, len, k));
    MatchedNext(c1, len, k);
  }

  predicate LaneStep(state: LazyState, inv: bool, bad: bool, state': LazyState, inv': bool) {
    && (state == REJECT ==> state' == REJECT)
    && (inv ==> (bad <==> state' == REJECT) && (!bad ==> inv'))
  }

  /** The induction over lanes, on plain data: states[k] is reached before lane
      k, bad[k] is its error, inv[k] is what holds while no error was seen. */
  lemma {:induction false} FirstError(states: seq<LazyState>, bad: seq<bool>, inv: seq<bool>, k: nat)
    requires |states| == |inv| == |bad| + 1 && k <= |bad|
    requires states[0] != REJECT && inv[0]
    requires forall j {:trigger bad[j]} :: 0 <= j < |bad| ==>
      LaneStep(states[j], inv[j], bad[j], states[j + 1], inv[j + 1])
    ensures (forall j :: 0 <= j < k ==> !bad[j]) <==> states[k] != REJECT
    ensures (forall j :: 0 <= j < k ==> !bad[j]) ==> inv[k]
  {
    if k > 0 {
      FirstError(states, bad, inv, k - 1);
      assert LaneStep(states[k - 1], inv[k - 1], bad[k - 1], states[k], inv[k]);
    }
  }

  lemma {:induction false} StateTrace(q: LazyState, cur: Vec) returns (states: seq<LazyState>)
    ensures |states| == |cur| + 1 && states[0] == q
    ensures forall k {:trigger cur[..k]} :: 0 <= k <= |cur| ==> states[k] == LazyRun(q, cur[..k])
    ensures forall j {:trigger cur[j]} :: 0 <= j < |cur| ==> states[j + 1] == LazyNext(states[j], cur[j])
  {
    states := seq(|cur| + 1, k requires 0 <= k <= |cur| => LazyRun(q, cur[..k]));
    forall j | 0 <= j < |cur| ensures states[j + 1] == LazyNext(states[j], cur[j]) { LazySnoc(q, cur, j); }
  }

  lemma {:induction false} SimulatedTrace(c1: nat, last: Byte, cur: Vec, len: seq<nat>, states: seq<LazyState>)
    returns (inv: seq<bool>)
    requires |len| == |cur| && |states| == |cur| + 1
    ensures |inv| == |cur| + 1
    ensures forall k {:trigger inv[k]} :: 0 <= k <= |cur| ==> inv[k] == Simulated(c1, last, cur, len, k, states[k])
  {
    inv := seq(|cur| + 1, k requires 0 <= k <= |cur| => Simulated(c1, last, cur, len, k, states[k]));
  }

  /** The first n lanes flag what the automaton rejects. Here bad[j] is the error
      of lane j. */
  lemma {:induction false} LanesSimulate(c1: nat, c2: nat, last: Byte, cur: Vec, len: seq<nat>, bad: seq<bool>,
                                         q: LazyState, n: nat)
    requires |len| == |bad| == |cur| && n <= |cur| && Lengths(len)
    requires forall j {:trigger len[j]} :: 0 <= j < |cur| ==> len[j] == InitialLength(cur[j])
    requires forall j {:trigger bad[j]} :: 0 <= j < |cur| ==>
      bad[j] == LaneError(Before(last, cur, j), cur[j], Carry(c1, c2, len, j))
    requires Incoming(c1, c2) && Coherent(c1, last) && q == StateOf(c1, last)
    ensures (forall j :: 0 <= j < n ==> !bad[j]) <==> LazyRun(q, cur[..n]) != REJECT
    ensures (forall j :: 0 <= j < n ==> !bad[j]) ==>
      Simulated(c1, last, cur, len, n, LazyRun(q, cur[..n]))
  {
    var states := StateTrace(q, cur);
    var inv := SimulatedTrace(c1, last, cur, len, states);
    forall j {:trigger bad[j]} | 0 <= j < |cur|
      ensures LaneStep(states[j], inv[j], bad[j], states[j + 1], inv[j + 1])
    {
      var _ := cur[j];
      if inv[j] { LaneSimulates(c1, c2, last, cur, len, j, states[j]); }
    }
    FirstError(states, bad, inv, n);
    assert states[n] == LazyRun(q, cur[..n]);
  }

  lemma {:induction false} LeavesFit(c1: nat, c2: nat, len: seq<nat>, last: Byte, c: Vec, q: LazyState)
    requires |len| == |c| >= 5 && Lengths(len) && Incoming(c1, c2) && Matched(c1, len, |len|)
    requires forall k {:trigger c[k]} :: 0 <= k < |len| ==> c[k] == Carry(c1, c2, len, k)
    requires var owed := Owed(c1, len, |len|); owed >= 0 && Coherent(owed, last) && q == StateOf(owed, last)
    ensures Fits(c, last, q)
  {
    CarriesHandedOn(c1, c2, len);
    forall k | 0 <= k < |c| ensures c[k] <= 9 { CarrySmall(c1, c2, len, k); }
  }

  /** The lanes of a block as plain data: lengths, errors and carries out. */
  lemma {:induction false} LaneData(prev: Processed, cur: Vec) returns (len: seq<nat>, bad: seq<bool>, c: Vec)
    requires Valid(prev, |cur|)
    ensures |len| == |bad| == |c| == |cur| && Lengths(len)
    ensures forall k {:trigger len[k]} :: 0 <= k < |cur| ==> len[k] == InitialLength(cur[k])
    ensures forall k {:trigger bad[k]} :: 0 <= k < |cur| ==>
      bad[k] == LaneError(Before(prev.rawBytes[|cur| - 1], cur, k), cur[k],
                          Carry(prev.carries[|cur| - 1], prev.carries[|cur| - 2], len, k))
    ensures forall k {:trigger c[k]} :: 0 <= k < |cur| ==>
      c[k] == Carry(prev.carries[|cur| - 1], prev.carries[|cur| - 2], len, k)
    ensures forall k {:trigger bad[k]} :: 0 <= k < |cur| ==> bad[k] == BadLane(prev, cur, k)
    ensures BlockClean(prev, cur) <==> forall k :: 0 <= k < |cur| ==> !bad[k]
    ensures c == Process(prev, cur).carries
  {
    len, c := InitialLengths(cur), Process(prev, cur).carries;
    bad := seq(|cur|, k requires 0 <= k < |cur| => BadLane(prev, cur, k));
    assert forall k {:trigger bad[k]} :: 0 <= k < |cur| ==> bad[k] == BadLane(prev, cur, k);
    assert forall k {:trigger BadLane(prev, cur, k)} :: 0 <= k < |cur| ==> bad[k] == BadLane(prev, cur, k);
    assert forall k {:trigger c[k]} :: 0 <= k < |cur| ==> c[k] == LaneCarry(prev.carries, cur, k);
  }

  /** One block on plain data. */
  lemma {:induction false} BlockDecides(c1: nat, c2: nat, last: Byte, cur: Vec, len: seq<nat>, bad: seq<bool>,
                                        c: Vec, q: LazyState)
    requires |len| == |bad| == |c| == |cur| >= 5 && Lengths(len)
    requires forall j {:trigger len[j]} :: 0 <= j < |cur| ==> len[j] == InitialLength(cur[j])
    requires forall j {:trigger bad[j]} :: 0 <= j < |cur| ==>
      bad[j] == LaneError(Before(last, cur, j), cur[j], Carry(c1, c2, len, j))
    requires forall k {:trigger c[k]} :: 0 <= k < |cur| ==> c[k] == Carry(c1, c2, len, k)
    requires Incoming(c1, c2) && Coherent(c1, last) && q == StateOf(c1, last)
    ensures (forall j :: 0 <= j < |cur| ==> !bad[j]) <==> LazyRun(q, cur) != REJECT
    ensures (forall j :: 0 <= j < |cur| ==> !bad[j]) ==> Fits(c, cur[|cur| - 1], LazyRun(q, cur))
  {
    assert cur[..|cur|] == cur;
    LanesSimulate(c1, c2, last, cur, len, bad, q, |cur|);
    if forall j :: 0 <= j < |cur| ==> !bad[j] {
      LeavesFit(c1, c2, len, cur[|cur| - 1], c, LazyRun(q, cur));
    }
  }

  /** One block simulates the lazy automaton on its bytes: it flags an error in
      some lane exactly when the automaton rejects ... */
  lemma {:induction false} BlockFlags(prev: Processed, cur: Vec, q: LazyState)
    requires Describes(prev, |cur|, q)
    ensures BlockClean(prev, cur) <==> LazyRun(q, cur) != REJECT
  {
    var len, bad, c := LaneData(prev, cur);
    var c1, c2, last := prev.carries[|cur| - 1], prev.carries[|cur| - 2], prev.rawBytes[|cur| - 1];
    BlockDecides(c1, c2, last, cur, len, bad, c, q);
  }

  /** ... and otherwise leaves behind a description of the automaton's state. */
  lemma {:induction false} BlockSimulates(prev: Processed, cur: Vec, q: LazyState)
    requires Describes(prev, |cur|, q) && BlockClean(prev, cur)
    ensures Describes(Process(prev, cur), |cur|, LazyRun(q, cur))
  {
    var len, bad, c := LaneData(prev, cur);
    var c1, c2, last := prev.carries[|cur| - 1], prev.carries[|cur| - 2], prev.rawBytes[|cur| - 1];
    BlockDecides(c1, c2, last, cur, len, bad, c, q);
  }

  lemma {:induction false} StateOfMissing(owed: nat, last: Byte)
    requires Coherent(owed, last)
    ensures LazyMissing(StateOf(owed, last)) == Beyond(owed)
  {
  }

  lemma {:induction false} SimulatedCarry(c1: nat, c2: nat, last: Byte, cur: Vec, len: seq<nat>, k: nat, q: LazyState)
    requires |len| == |cur| && 1 <= k < |cur| && Lengths(len) && Incoming(c1, c2)
    requires Simulated(c1, last, cur, len, k + 1, q)
    ensures Carry(c1, c2, len, k) == 1 + LazyMissing(q)
  {
    CarryIsOwed(c1, c2, len, k);
    OwedRange(c1, len, k + 1);
    StateOfMissing(Owed(c1, len, k + 1), cur[k]);
  }

  /** Carry correctness of a block. While no lane up to k is flagged, the carry of
      lane k >= 1 is one more than what the text up to its byte is missing ... */
  lemma {:induction false} CarryCounts(prev: Processed, cur: Vec, q: LazyState, k: nat)
    requires Describes(prev, |cur|, q) && 1 <= k < |cur|
    requires forall j :: 0 <= j <= k ==> !BadLane(prev, cur, j)
    ensures Process(prev, cur).carries[k] == 1 + LazyMissing(LazyRun(q, cur[..k + 1]))
  {
    var len, bad, c := LaneData(prev, cur);
    var c1, c2, last := prev.carries[|cur| - 1], prev.carries[|cur| - 2], prev.rawBytes[|cur| - 1];
    LanesSimulate(c1, c2, last, cur, len, bad, q, k + 1);
    SimulatedCarry(c1, c2, last, cur, len, k, LazyRun(q, cur[..k + 1]));
    assert c[k] == Carry(c1, c2, len, k);
  }

  /** ... while the carry of lane 0 exceeds the length announced there by what the
      text before the block is missing, and overcounts by what the last lane but
      one of the block before owes. */
  lemma {:induction false} LaneZeroCounts(prev: Processed, cur: Vec, q: LazyState)
    requires Describes(prev, |cur|, q)
    ensures Process(prev, cur).carries[0] ==
      InitialLength(cur[0]) + LazyMissing(q) + Minus(prev.carries[|cur| - 2], 2)
  {
    var len, bad, c := LaneData(prev, cur);
    var c1, c2, last := prev.carries[|cur| - 1], prev.carries[|cur| - 2], prev.rawBytes[|cur| - 1];
    CarryExact(c1, c2, len, 0);
    StateOfMissing(c1, last);
    assert c[0] == Carry(c1, c2, len, 0);
  }

  lemma {:induction false} UnfinishedIffOwed(prev: Processed, w: nat, q: LazyState)
    requires Describes(prev, w, q)
    ensures Unfinished(prev.carries) <==> q != 0
  {
    var k := w - 1;
    assert prev.carries[k] > 1 <==> q != 0;
  }
}
