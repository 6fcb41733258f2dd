/** The arithmetic of carryContinuations, on plain integers: a two-step prefix
    sum of character lengths that stands for counting down from each lead byte.

    `len` holds one number per lane, 0 for a continuation byte and otherwise the
    length of the character that starts there; c1 and c2 are the last and the
    last but one carry of the block before. */
module PrefixSum {

  function Minus(a: nat, b: nat): nat { if a > b then a - b else 0 }

  /** First step: add what the lane to the left still owes. */
  function Sum(c1: nat, len: seq<nat>, k: nat): nat
    requires k < |len|
  {
    len[k] + Minus(if k == 0 then c1 else len[k - 1], 1)
  }

  /** Second step: add what the sum two lanes to the left still owes. */
  function Carry(c1: nat, c2: nat, len: seq<nat>, k: nat): nat
    requires k < |len|
  {
    Sum(c1, len, k) + Minus(if k == 0 then c2 else if k == 1 then c1 else Sum(c1, len, k - 2), 2)
  }

  function AtMost(a: nat, b: nat): nat { if a < b then a else b }

  /** What the two steps compute for any lengths, matched or not: how far the
      characters announced in four lanes reach beyond lane k - 1, and in addition
      what two of them, two and three lanes back, cover twice. */
  lemma {:induction false} CarryReach(c1: nat, c2: nat, len: seq<nat>, k: nat)
    requires 3 <= k < |len|
    ensures Carry(c1, c2, len, k) ==
      len[k] + Minus(len[k - 1], 1) + Minus(len[k - 2], 2) + Minus(len[k - 3], 3)
      + Minus(AtMost(len[k - 2], 2) + AtMost(len[k - 3], 3), 3)
  {
  }

  /** In the first three lanes the carries of the block before stand for the
      characters that reach across. */
  lemma {:induction false} CarryReachesIn(c1: nat, c2: nat, len: seq<nat>, k: nat)
    requires k < |len| && k < 3
    ensures Carry(c1, c2, len, k) == len[k] +
      if k == 0 then Minus(c1, 1) + Minus(c2, 2)
      else if k == 1 then Minus(len[0], 1) + Minus(c1, 2)
      else Minus(len[1], 1) + Minus(len[0], 2) + Minus(c1, 3) + Minus(AtMost(len[0], 2) + AtMost(c1, 3), 3)
  {
  }

  predicate Lengths(len: seq<nat>) {
    forall k :: 0 <= k < |len| ==> len[k] <= 4
  }

  /** With bounded carries coming in, no sum exceeds 15 and no carry 25, and
      from lane 3 on no carry exceeds 12, so that in a block of five lanes or
      more the two carries going out are bounded again. */
  lemma {:induction false} CarryBounds(c1: nat, c2: nat, len: seq<nat>, k: nat)
    requires Lengths(len) && k < |len| && c1 <= 12 && c2 <= 12
    ensures Sum(c1, len, k) <= 15 && Carry(c1, c2, len, k) <= 25
    ensures k >= 3 ==> Carry(c1, c2, len, k) <= 12
  {
  }

  // ----- counting down

  function Owing(owed: int, length: nat): int {
    if length > 0 then length else owed - 1
  }

  /** The bytes owed after the first k lanes, counting the last of them. */
  function Owed(c1: nat, len: seq<nat>, k: nat): int
    requires k <= |len|
  {
    if k == 0 then c1 else Owing(Owed(c1, len, k - 1), len[k - 1])
  }

  /** In the first k lanes a character begins where nothing more is owed, and
      only there. */
  predicate Matched(c1: nat, len: seq<nat>, k: nat)
    requires k <= |len|
  {
    forall j {:trigger Owed(c1, len, j)} :: 0 <= j < k ==> (Owed(c1, len, j) >= 2 <==> len[j] == 0)
  }

  lemma {:induction false} MatchedAt(c1: nat, len: seq<nat>, k: nat, j: nat)
    requires j < k <= |len| && Matched(c1, len, k)
    ensures Owed(c1, len, j) >= 2 <==> len[j] == 0
    ensures Owed(c1, len, j + 1) == Owing(Owed(c1, len, j), len[j])
  {
  }

  lemma {:induction false} MatchedNext(c1: nat, len: seq<nat>, k: nat)
    requires k < |len|
    ensures Matched(c1, len, k + 1) <==> Matched(c1, len, k) && (Owed(c1, len, k) >= 2 <==> len[k] == 0)
  {
  }

  /** The carries a clean block hands on. */
  predicate Incoming(c1: nat, c2: nat) {
    c1 <= 4 && c2 <= 4 && (c2 <= 2 || c2 == c1 + 1)
  }

  lemma {:induction false} OwedRange(c1: nat, len: seq<nat>, k: nat)
    requires Lengths(len) && k <= |len| && c1 <= 4 && Matched(c1, len, k)
    ensures 0 <= Owed(c1, len, k) <= 4
    ensures k >= 1 ==> 1 <= Owed(c1, len, k)
  {
    if k > 0 { OwedRange(c1, len, k - 1); }
  }

  function Beyond(owed: int): nat { if owed > 1 then owed - 1 else 0 }

  /** Three lanes decide what is owed, since a character has at most four bytes:
      x, y, z are their lengths and `owed` is owed after the first of them. */
  lemma {:induction false} ThreeLanes(owed: int, x: nat, y: nat, z: nat)
    requires x <= 4 && y <= 4 && z <= 4
    requires owed == x || (x == 0 && 1 <= owed <= 3)
    requires owed >= 2 <==> y == 0
    requires Owing(owed, y) >= 2 <==> z == 0
    ensures Minus(z, 1) + Minus(y + Minus(x, 1), 2) == Beyond(Owing(Owing(owed, y), z))
  {
  }

  /** How far the carry of a lane exceeds the length announced there. */
  function Excess(c1: nat, c2: nat, len: seq<nat>, k: nat): int
    requires k < |len|
  {
    Carry(c1, c2, len, k) - len[k]
  }

  lemma {:induction false} ExcessLater(c1: nat, c2: nat, len: seq<nat>, k: nat)
    requires Lengths(len) && 3 <= k < |len| && c1 <= 4 && Matched(c1, len, k)
    ensures Excess(c1, c2, len, k) == Beyond(Owed(c1, len, k))
  {
    OwedRange(c1, len, k - 3);
    MatchedAt(c1, len, k, k - 3);
    MatchedAt(c1, len, k, k - 2);
    MatchedAt(c1, len, k, k - 1);
    ThreeLanes(Owed(c1, len, k - 2), len[k - 3], len[k - 2], len[k - 1]);
  }

  lemma {:induction false} ExcessEarly(c1: nat, c2: nat, len: seq<nat>, k: nat)
    requires Lengths(len) && 1 <= k <= 2 && k < |len| && c1 <= 4 && Matched(c1, len, k)
    ensures Excess(c1, c2, len, k) == Beyond(Owed(c1, len, k))
  {
    MatchedAt(c1, len, k, 0);
    MatchedAt(c1, len, k, k - 1);
    if k == 2 { ThreeLanes(c1, c1, len[0], len[1]); }
  }

  /** Carry correctness. After matched lanes the prefix sum is exact in every
      lane but lane 0: it exceeds the announced length by the bytes owed beyond
      the lane before. In lane 0 only the sign of the excess is exact; the value
      overcounts by what c2 owes. */
  lemma {:induction false} CarryExact(c1: nat, c2: nat, len: seq<nat>, k: nat)
    requires Lengths(len) && k < |len| && Incoming(c1, c2) && Matched(c1, len, k)
    ensures Carry(c1, c2, len, k) > len[k] <==> Owed(c1, len, k) >= 2
    ensures Excess(c1, c2, len, k) == Beyond(Owed(c1, len, k)) + (if k == 0 then Minus(c2, 2) else 0)
  {
    if k >= 3 {
      ExcessLater(c1, c2, len, k);
    } else if k >= 1 {
      ExcessEarly(c1, c2, len, k);
    }
  }

  /** A four-byte lead in the last lane but one leaves carries 4 and 3; in lane 0
      of the next block the carry is then 4 where two bytes are owed. */
  lemma {:induction false} LaneZeroOvercounts()
    ensures Incoming(3, 4) && Carry(3, 4, [0], 0) == 4 && Owed(3, [0], 1) == 2
  {
  }

  /** Every carry but that of lane 0 is the number of bytes owed, counting the
      byte of the lane. */
  lemma {:induction false} CarryIsOwed(c1: nat, c2: nat, len: seq<nat>, k: nat)
    requires Lengths(len) && 1 <= k < |len| && Incoming(c1, c2) && Matched(c1, len, k + 1)
    ensures Carry(c1, c2, len, k) == Owed(c1, len, k + 1)
  {
    CarryExact(c1, c2, len, k);
    MatchedAt(c1, len, k + 1, k);
  }

  /** No carry of matched lanes exceeds the length of a character. */
  lemma {:induction false} CarrySmall(c1: nat, c2: nat, len: seq<nat>, k: nat)
    requires Lengths(len) && k < |len| && Incoming(c1, c2) && Matched(c1, len, |len|)
    ensures Carry(c1, c2, len, k) <= 4
  {
    CarryExact(c1, c2, len, k);
    MatchedAt(c1, len, |len|, k);
    OwedRange(c1, len, k);
  }

  /** A matched block hands on carries that the next one can use. */
  lemma {:induction false} CarriesHandedOn(c1: nat, c2: nat, len: seq<nat>)
    requires Lengths(len) && |len| >= 3 && Incoming(c1, c2) && Matched(c1, len, |len|)
    ensures var w := |len|;
      && Carry(c1, c2, len, w - 1) == Owed(c1, len, w)
      && Incoming(Carry(c1, c2, len, w - 1), Carry(c1, c2, len, w - 2))
  {
    var w := |len|;
    CarryIsOwed(c1, c2, len, w - 1);
    CarryIsOwed(c1, c2, len, w - 2);
    OwedRange(c1, len, w);
    OwedRange(c1, len, w - 1);
    MatchedAt(c1, len, w, w - 1);
  }
}
