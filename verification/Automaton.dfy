/** A nine-state automaton for Table 3-7, written by byte ranges, and what it
    decides. State 0 is between characters, state 1 rejects, every other state
    says which continuation bytes are still owed. The states carry the numbers
    of the table-driven machine in benchmarks/hoehrmann.h. */
module Automaton {
  import opened Utf8

  type State = q: int | 0 <= q <= 8

  const ACCEPT: State := 0
  const REJECT: State := 1

  function Next(q: State, b: Byte): State {
    match q
    case 0 =>
      if Ascii(b) then 0
      else if 0xC2 <= b <= 0xDF then 2
      else if b == 0xE0 then 4
      else if b == 0xED then 5
      else if 0xE0 < b <= 0xEF then 3
      else if b == 0xF0 then 6
      else if 0xF1 <= b <= 0xF3 then 7
      else if b == 0xF4 then 8
      else REJECT
    case 1 => REJECT
    case 2 => if Continuation(b) then 0 else REJECT
    case 3 => if Continuation(b) then 2 else REJECT
    case 4 => if 0xA0 <= b <= 0xBF then 2 else REJECT
    case 5 => if 0x80 <= b <= 0x9F then 2 else REJECT
    case 6 => if 0x90 <= b <= 0xBF then 3 else REJECT
    case 7 => if Continuation(b) then 3 else REJECT
    case _ => if 0x80 <= b <= 0x8F then 3 else REJECT
  }

  /** The state after reading all of `s`, last byte last. */
  function Run(q: State, s: seq<Byte>): State {
    if s == [] then q else Next(Run(q, s[..|s| - 1]), s[|s| - 1])
  }

  lemma {:induction false} RunSnoc(q: State, s: seq<Byte>, b: Byte)
    ensures Run(q, s + [b]) == Next(Run(q, s), b)
  {
    assert (s + [b])[..|s|] == s;
  }

  lemma {:induction false} RunConcat(q: State, a: seq<Byte>, b: seq<Byte>)
    ensures Run(q, a + b) == Run(Run(q, a), b)
  {
    if b == [] {
      assert a + b == a;
    } else {
      var b', x := b[..|b| - 1], b[|b| - 1];
      assert a + b == (a + b') + [x];
      RunConcat(q, a, b');
      RunSnoc(q, a + b', x);
    }
  }

  lemma {:induction false} RunCons(q: State, s: seq<Byte>)
    requires s != []
    ensures Run(q, s) == Run(Next(q, s[0]), s[1..])
  {
    assert s == [s[0]] + s[1..];
    RunConcat(q, [s[0]], s[1..]);
    RunSnoc(q, [], s[0]);
    assert [] + [s[0]] == [s[0]];
  }

  lemma {:induction false} RejectAbsorbs(s: seq<Byte>)
    ensures Run(REJECT, s) == REJECT
  {
    if s != [] { RejectAbsorbs(s[..|s| - 1]); }
  }

  /** From state 0, a legal character leads back to state 0 ... */
  lemma {:induction false} LegalAccepted(c: seq<Byte>)
    requires Legal(c)
    ensures Run(0, c) == 0
  {
    RunCons(0, c);
    if |c| > 1 { RunCons(Next(0, c[0]), c[1..]); }
    if |c| > 2 { RunCons(Next(Next(0, c[0]), c[1]), c[2..]); }
    if |c| > 3 { RunCons(Next(Next(Next(0, c[0]), c[1]), c[2]), c[3..]); }
  }

  /** ... and nothing else does: an accepted string starts with one. */
  lemma {:induction false} AcceptedStartsLegal(s: seq<Byte>)
    requires s != [] && Run(0, s) == 0
    ensures StartsLegal(s)
  {
    RunCons(0, s);
    var q1 := Next(0, s[0]);
    if q1 == REJECT { RejectAbsorbs(s[1..]); }
    if q1 != 0 {
      RunCons(q1, s[1..]);
      var q2 := Next(q1, s[1]);
      if q2 == REJECT { RejectAbsorbs(s[1..][1..]); }
      if q2 != 0 {
        RunCons(q2, s[1..][1..]);
        var q3 := Next(q2, s[2]);
        if q3 == REJECT { RejectAbsorbs(s[1..][1..][1..]); }
        if q3 != 0 {
          RunCons(q3, s[1..][1..][1..]);
          if Next(q3, s[3]) == REJECT { RejectAbsorbs(s[1..][1..][1..][1..]); }
        }
      }
    }
  }

  /** The automaton ends in state 0 exactly on the well-formed strings. */
  lemma {:induction false} AcceptsWellFormed(s: seq<Byte>)
    ensures Run(0, s) == 0 <==> WellFormed(s)
  {
    if s != [] {
      if Run(0, s) == 0 { AcceptedStartsLegal(s); }
      if StartsLegal(s) {
        var n := LeadLength(s[0]);
        assert s == s[..n] + s[n..];
        RunConcat(0, s[..n], s[n..]);
        LegalAccepted(s[..n]);
        AcceptsWellFormed(s[n..]);
      }
    }
  }

  /** Bytes that finish the pending character of a state. */
  function Completion(q: State): seq<Byte>
    requires q != REJECT
  {
    match q
    case 0 => []
    case 2 => [0x80]
    case 3 => [0x80, 0x80]
    case 4 => [0xA0, 0x80]
    case 5 => [0x80, 0x80]
    case 6 => [0x90, 0x80, 0x80]
    case _ => [0x80, 0x80, 0x80]
  }

  lemma {:induction false} CompletionCompletes(q: State)
    requires q != REJECT
    ensures Run(q, Completion(q)) == 0
  {
    var t := Completion(q);
    if |t| > 0 { RunCons(q, t); }
    if |t| > 1 { RunCons(Next(q, t[0]), t[1..]); }
    if |t| > 2 { RunCons(Next(Next(q, t[0]), t[1]), t[2..]); }
  }

  /** Not rejected means exactly: a prefix of some well-formed string. */
  lemma {:induction false} NotRejectedIffViable(s: seq<Byte>)
    ensures Run(0, s) != REJECT <==> Viable(s)
  {
    var q := Run(0, s);
    if q != REJECT {
      var t := Completion(q);
      CompletionCompletes(q);
      RunConcat(0, s, t);
      AcceptsWellFormed(s + t);
    }
    forall t | WellFormed(s + t)
      ensures q != REJECT
    {
      AcceptsWellFormed(s + t);
      RunConcat(0, s, t);
      RejectAbsorbs(t);
    }
  }

  // ----- bytes that are missing

  /** How many continuation bytes a state still owes. */
  function Missing(q: State): nat {
    match q
    case 0 => 0
    case 1 => 0
    case 2 => 1
    case 3 => 2
    case 4 => 2
    case 5 => 2
    case _ => 3
  }

  lemma {:induction false} MissingSteps(q: State, b: Byte)
    requires Next(q, b) != REJECT
    ensures LeadLength(b) > 0 <==> q == ACCEPT
    ensures Missing(Next(q, b)) == if q == ACCEPT then LeadLength(b) - 1 else Missing(q) - 1
  {
  }

  lemma {:induction false} NeedsMissing(q: State, t: seq<Byte>)
    requires Run(q, t) == ACCEPT
    ensures |t| >= Missing(q)
    decreases |t|
  {
    if t != [] {
      RunCons(q, t);
      if Next(q, t[0]) == REJECT { RejectAbsorbs(t[1..]); } else { MissingSteps(q, t[0]); }
      NeedsMissing(Next(q, t[0]), t[1..]);
    }
  }

  /** A viable string becomes well-formed by that many bytes, and by no fewer. */
  lemma {:induction false} MissingIsShortest(s: seq<Byte>)
    requires Viable(s)
    ensures exists t :: |t| == Missing(Run(0, s)) && WellFormed(s + t)
    ensures forall t :: WellFormed(s + t) ==> |t| >= Missing(Run(0, s))
  {
    NotRejectedIffViable(s);
    var q := Run(0, s);
    var c := Completion(q);
    CompletionCompletes(q);
    RunConcat(0, s, c);
    AcceptsWellFormed(s + c);
    assert |c| == Missing(q);
    forall t | WellFormed(s + t) ensures |t| >= Missing(q) {
      AcceptsWellFormed(s + t);
      RunConcat(0, s, t);
      NeedsMissing(q, t);
    }
  }

  /** The length announced by the k-th byte from the end. */
  function Announced(t: seq<Byte>, k: nat): nat
    requires 1 <= k <= |t|
  {
    LeadLength(t[|t| - k])
  }

  /** One of the last three bytes starts a character that does not end in `t`. */
  predicate Cut(t: seq<Byte>) {
    exists k :: 1 <= k <= 3 && k <= |t| && Announced(t, k) > k
  }

  lemma {:induction false} AnnouncedBefore(t: seq<Byte>, k: nat)
    requires 2 <= k <= |t|
    ensures Announced(t, k) == Announced(t[..|t| - 1], k - 1)
  {
  }

  /** The lead byte that is owed to is found by looking back, and no other byte
      announces more than what is owed. */
  lemma {:induction false} LookBack(t: seq<Byte>) returns (lead: nat)
    requires Run(0, t) != REJECT
    ensures forall k :: 1 <= k <= |t| ==> Announced(t, k) <= k + Missing(Run(0, t))
    ensures Run(0, t) != ACCEPT ==> 1 <= lead <= |t| && Announced(t, lead) == lead + Missing(Run(0, t))
  {
    lead := 0;
    if t != [] {
      var t', b := t[..|t| - 1], t[|t| - 1];
      var q := Run(0, t');
      MissingSteps(q, b);
      var before := LookBack(t');
      forall k | 1 <= k <= |t| ensures Announced(t, k) <= k + Missing(Run(0, t)) {
        if k > 1 {
          AnnouncedBefore(t, k);
          assert Announced(t', k - 1) <= k - 1 + Missing(q);
        }
      }
      if q == ACCEPT {
        lead := 1;
      } else {
        lead := before + 1;
        AnnouncedBefore(t, lead);
      }
    }
  }

  /** A viable string is well-formed exactly when its last three bytes do not cut
      a character. */
  lemma {:induction false} WellFormedUnlessCut(t: seq<Byte>)
    requires Viable(t)
    ensures WellFormed(t) <==> !Cut(t)
  {
    NotRejectedIffViable(t);
    AcceptsWellFormed(t);
    var lead := LookBack(t);
    if Run(0, t) != ACCEPT { assert Announced(t, lead) > lead; }
  }

  lemma {:induction false} AsciiFromAccept(a: seq<Byte>)
    requires AllAscii(a)
    ensures Run(0, a) == 0
  {
    if a != [] { AsciiFromAccept(a[..|a| - 1]); }
  }

  /** A non-empty ASCII string after `s` is tolerated only between characters. */
  lemma {:induction false} AsciiTail(s: seq<Byte>, a: seq<Byte>)
    requires a != [] && AllAscii(a)
    ensures WellFormed(s) <==> Run(0, s + a) == 0
    ensures WellFormed(s) <==> Run(0, s + a) != REJECT
  {
    AcceptsWellFormed(s);
    RunConcat(0, s, a);
    var q := Run(0, s);
    if q == 0 {
      AsciiFromAccept(a);
    } else {
      RunCons(q, a);
      RejectAbsorbs(a[1..]);
    }
  }

  /** ASCII text on either side of a string leaves its well-formedness alone. */
  lemma {:induction false} AsciiSurroundings(a: seq<Byte>, s: seq<Byte>, b: seq<Byte>)
    requires AllAscii(a) && AllAscii(b)
    ensures WellFormed(a + s + b) <==> WellFormed(s)
  {
    AsciiFromAccept(a);
    RunConcat(0, a, s);
    RunConcat(0, a + s, b);
    RunConcat(0, s, b);
    AcceptsWellFormed(a + s + b);
    AcceptsWellFormed(s);
    if b == [] {
      assert s + b == s;
    } else {
      AsciiTail(s, b);
    }
  }
}
