/** The experimental two-cursor loops of benchmarks/hoehrmann.h, which run the
    automaton over two parts of the input at once, and exactly when their
    verdict is the one-cursor verdict. */
module TwoCursor {
  import opened Utf8
  import opened Automaton
  import opened Hoehrmann

  /** Where the backward scan stops: it steps over 0x81..0xBF, but not 0x80. */
  ghost function SplitPoint(s: seq<Byte>, half: nat): (h: nat)
    requires half <= |s|
    ensures h <= half
    ensures h == 0 || h == |s| || !(0x80 < s[h] <= 0xBF)
    ensures forall k :: h < k <= half && k < |s| ==> 0x80 < s[k] <= 0xBF
  {
    if half < |s| && s[half] <= 0xBF && s[half] > 0x80 && half > 0 then SplitPoint(s, half - 1) else half
  }

  lemma {:induction false} RunExtends(s: seq<Byte>, lo: nat, hi: nat)
    requires lo <= hi < |s|
    ensures Run(0, s[lo..hi + 1]) == Next(Run(0, s[lo..hi]), s[hi])
  {
    assert s[lo..hi + 1] == s[lo..hi] + [s[hi]];
    RunSnoc(0, s[lo..hi], s[hi]);
  }

  /** The verdict both methods return for a split at `h`. */
  ghost predicate DoubleVerdict(s: seq<Byte>, h: nat)
    requires h <= |s|
  {
    Viable(s[..h]) && Viable(s[h..])
  }

  lemma {:induction false} DoubleVerdictByRuns(s: seq<Byte>, h: nat)
    requires h <= |s|
    ensures DoubleVerdict(s, h) <==> Run(0, s[0..h]) != REJECT && Run(0, s[h..|s|]) != REJECT
  {
    assert s[0..h] == s[..h] && s[h..|s|] == s[h..];
    NotRejectedIffViable(s[..h]);
    NotRejectedIffViable(s[h..]);
  }

  /** Where it stops is determined by what it steps over and what it does not. */
  lemma {:induction false} SplitPointUnique(s: seq<Byte>, half: nat, h: nat)
    requires h <= half < |s| && (h > 0 ==> !(0x80 < s[h] <= 0xBF))
    requires forall k :: h < k <= half ==> 0x80 < s[k] <= 0xBF
    ensures h == SplitPoint(s, half)
  {
    if h < half { SplitPointUnique(s, half - 1, h); }
  }

  /** The scan both loops begin with. Even when len is 0 it reads c[0]. */
  method ScanBack(c: array<Byte>, len: nat) returns (half: nat)
    requires len <= c.Length && len / 2 < c.Length
    ensures half <= len / 2 && (half > 0 ==> !(0x80 < c[half] <= 0xBF))
    ensures forall k :: half < k <= len / 2 ==> 0x80 < c[k] <= 0xBF
    ensures half == SplitPoint(c[..len], len / 2)
  {
    ghost var s := c[..len];
    half := len / 2;
    while c[half] <= 0xBF && c[half] > 0x80 && half > 0
      invariant 0 <= half <= len / 2 && SplitPoint(s, half) == SplitPoint(s, len / 2)
      invariant forall k :: half < k <= len / 2 ==> 0x80 < c[k] <= 0xBF
      decreases half
    {
      half := half - 1;
    }
  }

  /** The interleaved loop: both cursors advance by the length of the first part. */
  method InterleaveDfa(c: array<Byte>, len: nat, s1: Dfa, s2: Dfa, half: nat)
    requires half * 2 <= len <= c.Length && s1 != s2
    requires s1.Valid() && s2.Valid() && s1.Current() == s2.Current() == ACCEPT
    modifies s1`state, s2`state
    ensures s1.Valid() && s1.Current() == Run(0, c[..len][0..half])
    ensures s2.Valid() && s2.Current() == Run(0, c[..len][half..half * 2])
  {
    ghost var s := c[..len];
    var i, j := 0, half;
    while i < half
      invariant 0 <= i <= half && j == half + i && s1.Valid() && s2.Valid()
      invariant s1.Current() == Run(0, s[0..i]) && s2.Current() == Run(0, s[half..j])
    {
      RunExtends(s, 0, i);
      RunExtends(s, half, j);
      var _ := s1.UpdateState(c[i]);
      var _ := s2.UpdateState(c[j]);
      i, j := i + 1, j + 1;
    }
  }

  /** The second cursor alone, over what the interleaved loop left. */
  method FinishDfa(c: array<Byte>, len: nat, s2: Dfa, ghost half: nat, from: nat)
    requires half <= from <= len <= c.Length
    requires s2.Valid() && s2.Current() == Run(0, c[..len][half..from])
    modifies s2`state
    ensures s2.Valid() && s2.Current() == Run(0, c[..len][half..len])
  {
    ghost var s := c[..len];
    for j := from to len
      invariant s2.Valid() && s2.Current() == Run(0, s[half..j])
    {
      RunExtends(s, half, j);
      var _ := s2.UpdateState(c[j]);
    }
  }

  method ValidateDouble(c: array<Byte>, len: nat) returns (ok: bool)
    requires len <= c.Length && len / 2 < c.Length && len <= 0x7FFF_FFFF
    ensures var s := c[..len]; ok <==> DoubleVerdict(s, SplitPoint(s, len / 2))
  {
    ghost var s := c[..len];
    var half := ScanBack(c, len);
    var s1 := new Dfa();
    var s2 := new Dfa();
    InterleaveDfa(c, len, s1, s2, half);
    FinishDfa(c, len, s2, half, half * 2);
    DoubleVerdictByRuns(s, half);
    ok := s1.state != REJECT && s2.state != REJECT;
  }

  /** The interleaved loop: both cursors advance by the length of the first part. */
  method InterleaveShiftlessDfa(c: array<Byte>, len: nat, s1: ShiftlessDfa, s2: ShiftlessDfa, half: nat)
    requires half * 2 <= len <= c.Length && s1 != s2
    requires s1.Valid() && s2.Valid() && s1.Current() == s2.Current() == ACCEPT
    modifies s1`state, s2`state
    ensures s1.Valid() && s1.Current() == Run(0, c[..len][0..half])
    ensures s2.Valid() && s2.Current() == Run(0, c[..len][half..half * 2])
  {
    ghost var s := c[..len];
    var i, j := 0, half;
    while i < half
      invariant 0 <= i <= half && j == half + i && s1.Valid() && s2.Valid()
      invariant s1.Current() == Run(0, s[0..i]) && s2.Current() == Run(0, s[half..j])
    {
      RunExtends(s, 0, i);
      RunExtends(s, half, j);
      var _ := s1.UpdateState(c[i]);
      var _ := s2.UpdateState(c[j]);
      i, j := i + 1, j + 1;
    }
  }

  /** The second cursor alone, over what the interleaved loop left. */
  method FinishShiftlessDfa(c: array<Byte>, len: nat, s2: ShiftlessDfa, ghost half: nat, from: nat)
    requires half <= from <= len <= c.Length
    requires s2.Valid() && s2.Current() == Run(0, c[..len][half..from])
    modifies s2`state
    ensures s2.Valid() && s2.Current() == Run(0, c[..len][half..len])
  {
    ghost var s := c[..len];
    for j := from to len
      invariant s2.Valid() && s2.Current() == Run(0, s[half..j])
    {
      RunExtends(s, half, j);
      var _ := s2.UpdateState(c[j]);
    }
  }

  method ValidateDoubleShiftless(c: array<Byte>, len: nat) returns (ok: bool)
    requires len <= c.Length && len / 2 < c.Length && len <= 0x7FFF_FFFF
    ensures var s := c[..len]; ok <==> DoubleVerdict(s, SplitPoint(s, len / 2))
  {
    ghost var s := c[..len];
    var half := ScanBack(c, len);
    var s1 := new ShiftlessDfa();
    var s2 := new ShiftlessDfa();
    InterleaveShiftlessDfa(c, len, s1, s2, half);
    FinishShiftlessDfa(c, len, s2, half, half * 2);
    DoubleVerdictByRuns(s, half);
    ok := s1.state != SHIFTLESS_REJECT && s2.state != SHIFTLESS_REJECT;
  }

  // ----- when the two verdicts differ

  lemma {:induction false} Split(s: seq<Byte>, h: nat)
    requires h < |s|
    ensures Viable(s) <==> Run(Next(Run(0, s[..h]), s[h]), s[h + 1..]) != REJECT
    ensures Viable(s[h..]) <==> Run(Next(0, s[h]), s[h + 1..]) != REJECT
    ensures Viable(s[..h]) <==> Run(0, s[..h]) != REJECT
    ensures WellFormed(s[..h]) <==> Run(0, s[..h]) == ACCEPT
  {
    NotRejectedIffViable(s);
    NotRejectedIffViable(s[h..]);
    NotRejectedIffViable(s[..h]);
    AcceptsWellFormed(s[..h]);
    assert s == s[..h] + s[h..] && s[h..][1..] == s[h + 1..];
    RunConcat(0, s[..h], s[h..]);
    RunCons(Run(0, s[..h]), s[h..]);
    RunCons(0, s[h..]);
    RejectAbsorbs(s[h + 1..]);
  }

  /** Splitting between characters changes nothing. */
  lemma {:induction false} SoundBetweenCharacters(s: seq<Byte>, h: nat)
    requires h < |s| && WellFormed(s[..h])
    ensures DoubleVerdict(s, h) <==> Viable(s)
  {
    Split(s, h);
  }

  /** The two cursors accept a bad string exactly when the first part stops
      inside a character and the second part starts a new one. Once they have
      accepted, the last three bytes of the first part tell. */
  lemma {:induction false} WronglyAccepts(s: seq<Byte>, h: nat)
    requires h < |s|
    ensures DoubleVerdict(s, h) && !Viable(s) <==>
      Viable(s[..h]) && !WellFormed(s[..h]) && Viable(s[h..])
    ensures DoubleVerdict(s, h) ==> (Viable(s) <==> !Cut(s[..h]))
  {
    Split(s, h);
    RejectAbsorbs(s[h + 1..]);
    if DoubleVerdict(s, h) { WellFormedUnlessCut(s[..h]); }
  }

  /** A state owes a continuation byte, or takes none. */
  lemma {:induction false} ContinuationOwed(q: State, b: Byte)
    requires Next(q, b) != REJECT
    ensures Continuation(b) <==> q != ACCEPT
  {
  }

  /** Inside a character of a viable string there is always a continuation byte. */
  lemma {:induction false} ViableSplit(s: seq<Byte>, h: nat)
    requires h < |s| && Viable(s)
    ensures Viable(s[..h]) && (DoubleVerdict(s, h) <==> WellFormed(s[..h]))
    ensures WellFormed(s[..h]) <==> !Continuation(s[h])
  {
    Split(s, h);
    RejectAbsorbs(s[h + 1..]);
    ContinuationOwed(Run(0, s[..h]), s[h]);
  }

  /** They reject a good string exactly when the scan stops on a 0x80. */
  lemma {:induction false} WronglyRejects(s: seq<Byte>)
    ensures var h := SplitPoint(s, |s| / 2);
      Viable(s) && !DoubleVerdict(s, h) <==> Viable(s) && h > 0 && s[h] == 0x80
  {
    var h := SplitPoint(s, |s| / 2);
    if s == [] {
      assert s[..h] == s && s[h..] == s;
    } else if Viable(s) {
      ViableSplit(s, h);
      if h == 0 { assert s[..h] == []; }
    }
  }

  /** Where the first part does not cut a character, the verdict is right. */
  lemma {:induction false} RightUnlessCut(s: seq<Byte>, h: nat)
    requires h <= |s| && !Cut(s[..h])
    ensures DoubleVerdict(s, h) <==> Viable(s)
  {
    if h == |s| {
      assert s[..h] == s && s[h..] == [];
      assert WellFormed([] + []);
    } else {
      if DoubleVerdict(s, h) { WronglyAccepts(s, h); }
      if Viable(s) {
        ViableSplit(s, h);
        WellFormedUnlessCut(s[..h]);
      }
    }
  }

  lemma {:induction false} ContinuationStartsNothing(s: seq<Byte>, h: nat)
    requires h < |s| && Continuation(s[h])
    ensures !DoubleVerdict(s, h)
  {
    Split(s, h);
    RejectAbsorbs(s[h + 1..]);
  }

  lemma {:induction false} CutNeedsContinuation(s: seq<Byte>, h: nat)
    requires h < |s| && Cut(s[..h]) && !Continuation(s[h])
    ensures !Viable(s)
  {
    if Viable(s) {
      ViableSplit(s, h);
      WellFormedUnlessCut(s[..h]);
    }
  }

  /** When the verdict is right. Where the scan stops decides it, unless the last
      three bytes of the first part cut a character: then the answer yes is
      always wrong, and the answer no is wrong only on a 0x80. */
  lemma {:induction false} RightExactly(s: seq<Byte>)
    ensures var h := SplitPoint(s, |s| / 2);
      (DoubleVerdict(s, h) <==> Viable(s)) <==>
        (Cut(s[..h]) ==> if s[h] == 0x80 then !Viable(s) else !DoubleVerdict(s, h))
  {
    var h := SplitPoint(s, |s| / 2);
    if Cut(s[..h]) {
      if s[h] == 0x80 {
        ContinuationStartsNothing(s, h);
      } else {
        CutNeedsContinuation(s, h);
      }
    } else {
      RightUnlessCut(s, h);
    }
  }

  /** Both kinds of failure occur: "C3 41" is accepted, "C2 80" is rejected. */
  lemma {:induction false} BothFail()
    ensures var s: seq<Byte> := [0xC3, 0x41]; DoubleVerdict(s, SplitPoint(s, 1)) && !Viable(s)
    ensures var s: seq<Byte> := [0xC2, 0x80]; !DoubleVerdict(s, SplitPoint(s, 1)) && WellFormed(s)
  {
    var s: seq<Byte> := [0xC3, 0x41];
    assert s[..1] == [0xC3] && s[1..] == [0x41] && s[2..] == [];
    Split(s, 1);
    RunCons(0, s[..1]);
    var t: seq<Byte> := [0xC2, 0x80];
    assert t[..1] == [0xC2] && t[1..] == [0x80] && t[2..] == [] && t[..2] == t;
    Split(t, 1);
  }
}
