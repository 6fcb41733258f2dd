/** The automaton the SIMD lanes run: that of Table 3-7, except that C0 and C1
    are noticed one byte late. Its state can be read off the bytes owed and the
    last byte, and the four local checks of a lane are one step of it. */
module LazyAutomaton {
  import opened Utf8
  import opened Automaton

  /** The automaton of Table 3-7, except that C0 and C1 between characters are
      noticed one byte late, in state PENDING. */
  type LazyState = q: int | 0 <= q <= 9

  const PENDING: LazyState := 9

  function LazyNext(q: LazyState, b: Byte): LazyState {
    if q == PENDING then REJECT
    else if q == ACCEPT && 0xC0 <= b <= 0xC1 then PENDING
    else Next(q, b)
  }

  function LazyRun(q: LazyState, s: seq<Byte>): LazyState {
    if s == [] then q else LazyNext(LazyRun(q, s[..|s| - 1]), s[|s| - 1])
  }

  lemma {:induction false} LazySnoc(q: LazyState, s: seq<Byte>, k: nat)
    requires k < |s|
    ensures LazyRun(q, s[..k + 1]) == LazyNext(LazyRun(q, s[..k]), s[k])
    ensures LazyRun(q, s[..k]) == REJECT ==> LazyRun(q, s[..k + 1]) == REJECT
  {
    assert s[..k + 1][..k] == s[..k];
  }

  lemma {:induction false} LazyConcat(q: LazyState, a: seq<Byte>, b: seq<Byte>)
    ensures LazyRun(q, a + b) == LazyRun(LazyRun(q, a), b)
  {
    if b == [] {
      assert a + b == a;
    } else {
      LazyConcat(q, a, b[..|b| - 1]);
      assert (a + b)[..|a + b| - 1] == a + b[..|b| - 1];
    }
  }

  /** A well-formed string followed by a single C0 or C1. */
  predicate EndsPending(s: seq<Byte>) {
    s != [] && 0xC0 <= s[|s| - 1] <= 0xC1 && WellFormed(s[..|s| - 1])
  }

  /** The lazy automaton differs from the eager one on those strings only. */
  lemma {:induction false} LazyIsEager(s: seq<Byte>)
    ensures LazyRun(0, s) == if EndsPending(s) then PENDING else Run(0, s)
  {
    if s != [] {
      var t := s[..|s| - 1];
      LazyIsEager(t);
      AcceptsWellFormed(t);
      if EndsPending(t) { AcceptsWellFormed(t[..|t| - 1]); }
    }
  }

  lemma {:induction false} LazyRejectAbsorbs(s: seq<Byte>)
    ensures LazyRun(REJECT, s) == REJECT
  {
    if s != [] { LazyRejectAbsorbs(s[..|s| - 1]); }
  }

  lemma {:induction false} LazyAscii(q: LazyState, a: seq<Byte>)
    requires a != [] && AllAscii(a)
    ensures LazyRun(q, a) == if q == 0 then 0 else REJECT
  {
    var t := a[..|a| - 1];
    if t == [] { assert LazyRun(q, t) == q; } else { LazyAscii(q, t); }
  }

  /** What the lazy state says about the string and about the eager state. */
  lemma {:induction false} LazyStates(s: seq<Byte>)
    ensures LazyRun(0, s) == ACCEPT <==> WellFormed(s)
    ensures LazyRun(0, s) == PENDING <==> EndsPending(s)
    ensures Run(0, s) == if EndsPending(s) then REJECT else LazyRun(0, s)
  {
    LazyIsEager(s);
    AcceptsWellFormed(s);
    if EndsPending(s) { AcceptsWellFormed(s[..|s| - 1]); }
  }

  /** Non-empty ASCII passes exactly after a well-formed string. */
  lemma {:induction false} LazyAsciiTail(s: seq<Byte>, a: seq<Byte>)
    requires a != [] && AllAscii(a)
    ensures LazyRun(0, s + a) != REJECT <==> WellFormed(s)
  {
    LazyConcat(0, s, a);
    LazyAscii(LazyRun(0, s), a);
    LazyStates(s);
  }

  /** How many continuation bytes a lazy state still owes; C0 and C1 announce one. */
  function LazyMissing(q: LazyState): nat {
    if q == PENDING then 1 else Missing(q)
  }

  /** On viable strings that is the number of bytes that are really missing. */
  lemma {:induction false} LazyMissingIsShortest(s: seq<Byte>)
    requires Viable(s)
    ensures exists t :: |t| == LazyMissing(LazyRun(0, s)) && WellFormed(s + t)
    ensures forall t :: WellFormed(s + t) ==> |t| >= LazyMissing(LazyRun(0, s))
  {
    NotRejectedIffViable(s);
    LazyStates(s);
    MissingIsShortest(s);
  }

  // ----- the local checks

  /** The length a byte announces for its character; 0 for a continuation. */
  function InitialLength(b: Byte): Byte {
    if b < 0x80 then 1 else if b < 0xC0 then 0 else if b < 0xE0 then 2 else if b < 0xF0 then 3 else 4
  }

  predicate TooLarge(b: Byte) { b > 0xF4 }

  /** After ED only 80..9F, after F4 only 80..8F. */
  predicate AboveMax(before: Byte, b: Byte) {
    || (before == 0xED && !(0x80 <= b <= 0x9F))
    || (before == 0xF4 && !(0x80 <= b <= 0x8F))
  }

  /** Overlong: after C0 and C1 anything but 7F, after E0 80..9F, after F0 80..8F. */
  predicate BelowMin(before: Byte, b: Byte) {
    || (0xC0 <= before <= 0xC1 && b != 0x7F)
    || (before == 0xE0 && 0x80 <= b < 0xA0)
    || (before == 0xF0 && 0x80 <= b < 0x90)
  }

  /** The maximum check, against Table 3-7: it flags after ED and F4 the bytes that
      no row has there. */
  lemma {:induction false} AboveMaxIsIllegal(before: Byte, b: Byte)
    ensures AboveMax(before, b) <==>
      (before == 0xED || before == 0xF4) && forall c :: Legal(c) && |c| > 1 && c[0] == before ==> c[1] != b
  {
    if before == 0xED && 0x80 <= b <= 0x9F { assert Legal([0xED, b, 0x80]); }
    if before == 0xF4 && 0x80 <= b <= 0x8F { assert Legal([0xF4, b, 0x80, 0x80]); }
  }

  /** The least number that the bit pattern of a lead byte and a second byte can
      stand for, and the least that needs a character of that length. */
  function LeastValue(before: Byte, b: Byte): int
    requires before >= 0xC0 && Continuation(b)
  {
    if before < 0xE0 then Digits(0, 0, before - 0xC0, b - 0x80)
    else if before < 0xF0 then Digits(0, before - 0xE0, b - 0x80, 0)
    else Digits(before - 0xF0, b - 0x80, 0, 0)
  }

  function LeastOfLength(n: nat): nat {
    if n <= 1 then 0 else if n == 2 then 0x80 else if n == 3 then 0x800 else 0x10000
  }

  /** The minimum check, against the encoding: on a continuation byte it flags
      exactly the overlong forms; on any other byte only after C0 and C1, and
      there not 7F. */
  lemma {:induction false} BelowMinIsOverlong(before: Byte, b: Byte)
    ensures Continuation(b) ==>
      (BelowMin(before, b) <==> before >= 0xC0 && LeastValue(before, b) < LeastOfLength(InitialLength(before)))
    ensures !Continuation(b) ==> (BelowMin(before, b) <==> 0xC0 <= before <= 0xC1 && b != 0x7F)
  {
  }

  /** The size check flags the leads of four bytes that start no row. */
  lemma {:induction false} TooLargeStartsNothing(b: Byte)
    ensures TooLarge(b) <==> InitialLength(b) == 4 && forall c :: Legal(c) ==> c[0] != b
  {
    if 0xF0 <= b <= 0xF4 { assert Legal([b, if b == 0xF4 then 0x80 else 0x90, 0x80, 0x80]); }
  }

  /** The state is a function of the bytes still owed, counting the last one
      read, and of the last byte itself. */
  function StateOf(owed: nat, last: Byte): LazyState {
    if owed <= 1 then 0
    else if owed == 2 then (if 0xC0 <= last <= 0xC1 then PENDING else 2)
    else if owed == 3 then (if last == 0xE0 then 4 else if last == 0xED then 5 else 3)
    else (if last == 0xF0 then 6 else if last == 0xF4 then 8 else 7)
  }

  /** The last byte is one that can leave `owed` bytes owed. */
  predicate Coherent(owed: nat, last: Byte) {
    match owed
    case 0 => last < 0xC0
    case 1 => last < 0xC0
    case 2 => 0x80 <= last < 0xE0
    case 3 => 0x80 <= last < 0xC0 || 0xE0 <= last < 0xF0
    case 4 => 0xF0 <= last <= 0xF4
    case _ => false
  }

  /** The error lane of a byte: a character begins where one is unfinished, or
      a byte continues nothing, or one of the local checks fails. */
  predicate LaneError(before: Byte, b: Byte, carry: nat) {
    || TooLarge(b)
    || (carry > InitialLength(b) <==> InitialLength(b) > 0)
    || AboveMax(before, b)
    || BelowMin(before, b)
  }

  /** The four local checks together are one step of the automaton. They see
      only two neighbouring bytes and whether the carry exceeds the length. */
  lemma {:induction false} LaneDecides(owed: nat, before: Byte, b: Byte, carry: nat)
    requires Coherent(owed, before) && (carry > InitialLength(b) <==> owed >= 2)
    ensures
      var q := LazyNext(StateOf(owed, before), b);
      var owed' := if InitialLength(b) > 0 then InitialLength(b) else owed - 1;
      && (LaneError(before, b, carry) <==> q == REJECT)
      && (q != REJECT ==>
            && (owed >= 2 <==> InitialLength(b) == 0)
            && owed' >= 1 && Coherent(owed', b) && q == StateOf(owed', b))
  {
  }
}
