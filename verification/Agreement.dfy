/** The independent deciders agree, whatever the width, the path, the alignment
    of the text in the buffer, or the machine. */
module Agreement {
  import opened Utf8
  import opened Automaton
  import opened BlockRun

  lemma {:induction false} WidthIndependence(p: Path, w: nat, p': Path, w': nat, s: seq<Byte>)
    requires w >= 5 && w' >= 5
    ensures Verdict(p, w, s) == Verdict(p', w', s)
  {
    VerdictIsWellFormed(p, w, s);
    VerdictIsWellFormed(p', w', s);
  }

  /** Where a string stands between ASCII text never changes its verdict. */
  lemma {:induction false} PlacementInvariance(p: Path, w: nat, a: seq<Byte>, s: seq<Byte>, b: seq<Byte>)
    requires w >= 5 && AllAscii(a) && AllAscii(b)
    ensures Verdict(p, w, a + s + b) == Verdict(p, w, s)
  {
    AsciiSurroundings(a, s, b);
    VerdictIsWellFormed(p, w, a + s + b);
    VerdictIsWellFormed(p, w, s);
  }

  /** The DFA validators accept what is viable, so on a string followed by the
      NUL that callers include they agree with the SIMD validators. */
  lemma {:induction false} DfaWithNulAgrees(p: Path, w: nat, s: seq<Byte>)
    requires w >= 5
    ensures Viable(s + [0]) <==> WellFormed(s)
    ensures Viable(s + [0]) == Verdict(p, w, s)
  {
    AsciiTail(s, [0]);
    NotRejectedIffViable(s + [0]);
    VerdictIsWellFormed(p, w, s);
  }

  lemma {:induction false} CompletedByContinuation(s: seq<Byte>, t: seq<Byte>)
    requires t != [] && Continuation(t[0]) && WellFormed(s + t)
    ensures Viable(s) && !WellFormed(s)
  {
    AcceptsWellFormed(s + t);
    AcceptsWellFormed(s);
    RunConcat(0, s, t);
    RunCons(Run(0, s), t);
    RejectAbsorbs(t[1..]);
  }

  lemma {:induction false} TruncationCompleted(s: seq<Byte>) returns (t: seq<Byte>)
    requires Viable(s) && !WellFormed(s)
    ensures t != [] && Continuation(t[0]) && WellFormed(s + t)
  {
    AcceptsWellFormed(s);
    NotRejectedIffViable(s);
    var q := Run(0, s);
    t := Completion(q);
    assert Continuation(t[0]);
    CompletionCompletes(q);
    assert Run(0, s + t) == 0 by { RunConcat(0, s, t); }
    AcceptsWellFormed(s + t);
  }

  /** Without the NUL they also accept truncated text, and nothing else: a string
      they accept is accepted by the SIMD validators exactly when its last three
      bytes do not cut a character. What they accept beyond that becomes
      well-formed by appending bytes that begin with a continuation byte. */
  lemma {:induction false} DfaAloneAcceptsTruncation(p: Path, w: nat, s: seq<Byte>)
    requires w >= 5
    ensures Viable(s) ==> (Verdict(p, w, s) <==> !Cut(s))
    ensures Viable(s) && !Verdict(p, w, s) <==>
      (exists t :: t != [] && Continuation(t[0]) && WellFormed(s + t))
  {
    VerdictIsWellFormed(p, w, s);
    if Viable(s) {
      WellFormedUnlessCut(s);
      if !WellFormed(s) { var t := TruncationCompleted(s); }
    }
    forall t | t != [] && Continuation(t[0]) && WellFormed(s + t) ensures Viable(s) && !WellFormed(s) {
      CompletedByContinuation(s, t);
    }
  }
}
