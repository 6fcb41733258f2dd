/** The random generator of well-formed text in benchmarks/benchmark.c. The
    calls to rand() are a sequence of draws; the loop may ask for more of them
    than any given number, since some draws write nothing. */
module Generator {
  import opened Utf8
  import opened BlockRun
  import opened Guava
  import opened Agreement

  // ----- one turn of the loop

  /** The range of the second byte in the rows of Table 3-7 for a lead byte. */
  function SecondMin(lead: Byte): Byte {
    if lead == 0xE0 then 0xA0 else if lead == 0xF0 then 0x90 else 0x80
  }

  function SecondMax(lead: Byte): Byte {
    if lead == 0xED then 0x9F else if lead == 0xF4 then 0x8F else 0xBF
  }

  /** How many more draws a turn makes after its first one gave w. */
  function Draws(w: Byte): nat {
    if w < 0x80 then 0
    else if w < 0xF0 then 2
    else if w == 0xF0 || w == 0xF4 then 3
    else if w <= 0xF3 then 4
    else 0
  }

  function Trail(draw: nat): Byte { 0x80 + draw % 0x40 }

  /** A lead byte and a draw for each of its trailing bytes. */
  function Compose(lead: Byte, d: seq<nat>): (c: seq<Byte>)
    requires 0xC2 <= lead <= 0xF4 && |d| == LeadLength(lead) - 1
  {
    var second := SecondMin(lead) + d[0] % (SecondMax(lead) - SecondMin(lead) + 1);
    if |d| == 1 then [lead, second]
    else if |d| == 2 then [lead, second, Trail(d[1])]
    else [lead, second, Trail(d[1]), Trail(d[2])]
  }

  /** What a turn writes: only two-byte leads and F1..F3 are drawn anew. */
  function Turn(w: Byte, d: seq<nat>): (c: seq<Byte>)
    requires |d| == Draws(w)
  {
    if w < 0x80 then [0x20]
    else if w < 0xE0 then Compose(0xC2 + d[0] % 30, d[1..])
    else if w <= 0xF0 || w == 0xF4 then Compose(w, d)
    else if w <= 0xF3 then Compose(0xF1 + d[0] % 3, d[1..])
    else []
  }

  /** A turn writes one legal character, or nothing for a first draw above F4. */
  lemma {:induction false} TurnLegal(w: Byte, d: seq<nat>)
    requires |d| == Draws(w)
    ensures if w <= 0xF4 then Legal(Turn(w, d)) && |Turn(w, d)| <= 4 else Turn(w, d) == []
  {
  }

  lemma {:induction false} TwoByteTurn(w: Byte, d: seq<nat>)
    requires 0x80 <= w < 0xE0 && |d| == 2
    ensures Turn(w, d) == [0xC2 + d[0] % 30, 0x80 + d[1] % 64]
  {
  }

  lemma {:induction false} ThreeByteTurn(w: Byte, d: seq<nat>)
    requires 0xE0 <= w < 0xF0 && |d| == 2
    ensures Turn(w, d) ==
      [w,
       if w == 0xE0 then 0xA0 + d[0] % 32 else if w == 0xED then 0x80 + d[0] % 32 else 0x80 + d[0] % 64,
       0x80 + d[1] % 64]
  {
  }

  lemma {:induction false} FourByteTurn(w: Byte, d: seq<nat>)
    requires 0xF0 <= w <= 0xF4 && |d| == Draws(w)
    ensures Turn(w, d) ==
      if w == 0xF0 then [w, 0x90 + d[0] % 48, 0x80 + d[1] % 64, 0x80 + d[2] % 64]
      else if w == 0xF4 then [w, 0x80 + d[0] % 16, 0x80 + d[1] % 64, 0x80 + d[2] % 64]
      else [0xF1 + d[0] % 3, 0x80 + d[1] % 64, 0x80 + d[2] % 64, 0x80 + d[3] % 64]
  {
  }

  // ----- the whole text

  /** What has been written when the loop ends or the draws do. */
  datatype Outcome = Outcome(bytes: seq<Byte>, finished: bool)

  /** The draws suffice for another turn. */
  predicate CanTurn(rand: seq<nat>) {
    rand != [] && 1 + Draws(rand[0] % 0x100) <= |rand|
  }

  function NextTurn(rand: seq<nat>): (c: seq<Byte>)
    requires CanTurn(rand)
  {
    var w := rand[0] % 0x100;
    Turn(w, rand[1..1 + Draws(w)])
  }

  function Later(rand: seq<nat>): (later: seq<nat>)
    requires CanTurn(rand)
    ensures |later| < |rand|
  {
    rand[1 + Draws(rand[0] % 0x100)..]
  }

  /** The text for at least n bytes, as far as the draws suffice. */
  function Generate(n: int, rand: seq<nat>): Outcome
    decreases |rand|
  {
    if n <= 0 then Outcome([], true)
    else if !CanTurn(rand) then Outcome([], false)
    else
      Prepend(NextTurn(rand), Generate(n - |NextTurn(rand)|, Later(rand)))
  }

  function Prepend(c: seq<Byte>, later: Outcome): Outcome {
    Outcome(c + later.bytes, later.finished)
  }

  lemma {:induction false} NextTurnLegal(rand: seq<nat>)
    requires CanTurn(rand)
    ensures NextTurn(rand) == [] || (Legal(NextTurn(rand)) && |NextTurn(rand)| <= 4)
  {
    var w := rand[0] % 0x100;
    TurnLegal(w, rand[1..1 + Draws(w)]);
  }

  /** Well-formed, and if finished at most three bytes longer than asked for. */
  predicate Fits(n: int, r: Outcome) {
    && WellFormed(r.bytes)
    && if n <= 0 then r == Outcome([], true) else if r.finished then n <= |r.bytes| <= n + 3 else |r.bytes| < n
  }

  lemma {:induction false} PrependTurn(n: int, c: seq<Byte>, later: Outcome)
    requires n > 0 && (c == [] || (Legal(c) && |c| <= 4)) && Fits(n - |c|, later)
    ensures Fits(n, Prepend(c, later))
  {
    if c == [] { assert c + later.bytes == later.bytes; } else { PrependLegal(c, later.bytes); }
  }

  lemma {:induction false} FitsWithoutTurn(n: int, rand: seq<nat>)
    requires n <= 0 || !CanTurn(rand)
    ensures Fits(n, Generate(n, rand))
  {
  }

  function AfterTurn(n: int, rand: seq<nat>): Outcome
    requires CanTurn(rand)
  {
    Generate(n - |NextTurn(rand)|, Later(rand))
  }

  lemma {:induction false} FitsAfterTurn(n: int, rand: seq<nat>)
    requires n > 0 && CanTurn(rand) && Fits(n - |NextTurn(rand)|, AfterTurn(n, rand))
    ensures Fits(n, Generate(n, rand))
  {
    NextTurnLegal(rand);
    PrependTurn(n, NextTurn(rand), AfterTurn(n, rand));
  }

  /** Whatever the draws, what is written is well-formed at the end of every turn,
      and a finished text exceeds the length asked for by at most three bytes. */
  lemma {:induction false} GeneratesWellFormed(n: int, rand: seq<nat>)
    ensures Fits(n, Generate(n, rand))
    decreases |rand|
  {
    if n > 0 && CanTurn(rand) {
      GeneratesWellFormed(n - |NextTurn(rand)|, Later(rand));
      FitsAfterTurn(n, rand);
    } else {
      FitsWithoutTurn(n, rand);
    }
  }

  /** Every decider of the repository accepts it: the SIMD validators, the DFA
      with the trailing NUL, and the Guava loop. */
  lemma {:induction false} GeneratedTextAccepted(n: int, rand: seq<nat>, p: Path, w: nat)
    requires w >= 5
    ensures var s := Generate(n, rand).bytes; Verdict(p, w, s) && Viable(s + [0]) && LaxForm(s)
  {
    var s := Generate(n, rand).bytes;
    GeneratesWellFormed(n, rand);
    DfaWithNulAgrees(p, w, s);
    WellFormedIffLaxWithoutAscii(s);
  }

  // ----- how the draws are used

  lemma {:induction false} DrawnFirst(n: int, x: nat, d: seq<nat>, rand: seq<nat>)
    requires n > 0 && |d| == Draws(x % 0x100)
    ensures var c := Turn(x % 0x100, d); Generate(n, [x] + d + rand) == Prepend(c, Generate(n - |c|, rand))
  {
    var draws := [x] + d + rand;
    assert draws[1..1 + |d|] == d && draws[1 + |d|..] == rand;
  }

  /** A first draw below 80 writes a space, and a first draw above F4 writes
      nothing; neither uses another draw. */
  lemma {:induction false} SingleDraw(n: int, x: nat, rand: seq<nat>)
    requires n > 0
    ensures x % 0x100 < 0x80 ==> Generate(n, [x] + rand) == Prepend([0x20], Generate(n - 1, rand))
    ensures x % 0x100 > 0xF4 ==> Generate(n, [x] + rand) == Generate(n, rand)
  {
    assert [x] + [] + rand == [x] + rand;
    if x % 0x100 < 0x80 || x % 0x100 > 0xF4 { DrawnFirst(n, x, [], rand); }
    assert [] + Generate(n, rand).bytes == Generate(n, rand).bytes;
  }

  /** Every other first draw asks for one draw a trailing byte, and for one more
      where the lead byte is drawn anew. */
  lemma {:induction false} SeveralDraws(n: int, x: nat, d: seq<nat>, rand: seq<nat>)
    requires n > 0 && 0x80 <= x % 0x100 <= 0xF4
    requires var w := x % 0x100;
      |d| == (if w < 0xE0 then 1 else if w < 0xF0 then 2 else 3) + (if w < 0xE0 || 0xF1 <= w <= 0xF3 then 1 else 0)
    ensures |d| == Draws(x % 0x100)
    ensures var c := Turn(x % 0x100, d); Generate(n, [x] + d + rand) == Prepend(c, Generate(n - |c|, rand))
  {
    DrawnFirst(n, x, d, rand);
  }

  /** The only ASCII bytes are spaces. */
  predicate OnlySpaces(s: seq<Byte>) {
    forall k :: 0 <= k < |s| && Ascii(s[k]) ==> s[k] == 0x20
  }

  lemma {:induction false} TurnSpaces(w: Byte, d: seq<nat>)
    requires |d| == Draws(w)
    ensures OnlySpaces(Turn(w, d))
  {
  }

  lemma {:induction false} GeneratesOnlySpaces(n: int, rand: seq<nat>)
    ensures OnlySpaces(Generate(n, rand).bytes)
    decreases |rand|
  {
    if n > 0 && CanTurn(rand) {
      var w := rand[0] % 0x100;
      TurnSpaces(w, rand[1..1 + Draws(w)]);
      GeneratesOnlySpaces(n - |NextTurn(rand)|, Later(rand));
    }
  }

  lemma {:induction false} ThreeBytesDrawn(c: seq<Byte>) returns (d: seq<nat>)
    requires Legal(c) && |c| == 3
    ensures |d| == 2 && Turn(c[0], d) == c
  {
    d := [c[1] - SecondMin(c[0]), c[2] - 0x80];
    ThreeByteTurn(c[0], d);
  }

  lemma {:induction false} FourBytesDrawn(c: seq<Byte>) returns (d: seq<nat>)
    requires Legal(c) && |c| == 4 && !(0xF1 <= c[0] <= 0xF3)
    ensures |d| == 3 && Turn(c[0], d) == c
  {
    d := [c[1] - SecondMin(c[0]), c[2] - 0x80, c[3] - 0x80];
    FourByteTurn(c[0], d);
  }

  lemma {:induction false} LeadDrawnToo(c: seq<Byte>) returns (d: seq<nat>)
    requires Legal(c) && |c| == 4 && 0xF1 <= c[0] <= 0xF3
    ensures |d| == 4 && Turn(0xF1, d) == c
  {
    d := [c[0] - 0xF1, c[1] - 0x80, c[2] - 0x80, c[3] - 0x80];
    FourByteTurn(0xF1, d);
  }

  /** Draws that make a turn write a given character. */
  lemma {:induction false} CharacterDrawn(c: seq<Byte>) returns (w: Byte, d: seq<nat>)
    requires Legal(c) && OnlySpaces(c)
    ensures |d| == Draws(w) && Turn(w, d) == c
  {
    w, d := c[0], [];
    if |c| == 1 {
      w := 0;
    } else if |c| == 2 {
      w, d := 0x80, [c[0] - 0xC2, c[1] - 0x80];
      TwoByteTurn(w, d);
    } else if |c| == 3 {
      d := ThreeBytesDrawn(c);
    } else if 0xF1 <= w <= 0xF3 {
      w := 0xF1;
      d := LeadDrawnToo(c);
    } else {
      d := FourBytesDrawn(c);
    }
  }

  lemma {:induction false} DrawnInFront(c: seq<Byte>, s: seq<Byte>, rand: seq<nat>) returns (rand': seq<nat>)
    requires Legal(c) && OnlySpaces(c) && Generate(|s|, rand) == Outcome(s, true)
    ensures Generate(|c| + |s|, rand') == Outcome(c + s, true)
  {
    var w, d := CharacterDrawn(c);
    assert w % 0x100 == w;
    DrawnFirst(|c| + |s|, w, d, rand);
    rand' := [w] + d + rand;
  }

  lemma {:induction false} FirstSpaces(c: seq<Byte>, s: seq<Byte>)
    requires OnlySpaces(c + s)
    ensures OnlySpaces(c) && OnlySpaces(s)
  {
    forall k | 0 <= k < |c| && Ascii(c[k]) ensures c[k] == 0x20 { assert (c + s)[k] == c[k]; }
    forall k | 0 <= k < |s| && Ascii(s[k]) ensures s[k] == 0x20 { assert (c + s)[|c| + k] == s[k]; }
  }

  /** Every well-formed text in which only spaces are ASCII can be drawn ... */
  lemma {:induction false} TextDrawn(s: seq<Byte>) returns (rand: seq<nat>)
    requires WellFormed(s) && OnlySpaces(s)
    ensures Generate(|s|, rand) == Outcome(s, true)
    decreases |s|
  {
    rand := [];
    if s != [] {
      var n := LeadLength(s[0]);
      var c, later := s[..n], s[n..];
      assert s == c + later;
      FirstSpaces(c, later);
      rand := TextDrawn(later);
      rand := DrawnInFront(c, later, rand);
    }
  }

  /** ... and no other text is. */
  lemma {:induction false} DrawnExactly(s: seq<Byte>)
    ensures WellFormed(s) && OnlySpaces(s) <==> exists n, rand :: Generate(n, rand) == Outcome(s, true)
  {
    if WellFormed(s) && OnlySpaces(s) { var rand := TextDrawn(s); }
    forall n, rand | Generate(n, rand) == Outcome(s, true) ensures WellFormed(s) && OnlySpaces(s) {
      GeneratesWellFormed(n, rand);
      GeneratesOnlySpaces(n, rand);
    }
  }

  // ----- the loop

  /** Writing c at i appends it to the first i bytes. */
  twostate predicate Appended(data: array<Byte>, i: nat, c: seq<Byte>)
    requires i + |c| <= data.Length
    reads data
  {
    && data[..i + |c|] == old(data[..i]) + c
    && (forall k {:trigger data[k]} :: i + |c| <= k < data.Length ==> data[k] == old(data[k]))
  }

  method Write2(data: array<Byte>, i: nat, a: Byte, b: Byte) returns (next: nat)
    requires i + 2 <= data.Length
    modifies data
    ensures next == i + 2 && Appended(data, i, [a, b])
  {
    next := i;
    data[next] := a; next := next + 1;
    data[next] := b; next := next + 1;
  }

  method Write3(data: array<Byte>, i: nat, a: Byte, b: Byte, c: Byte) returns (next: nat)
    requires i + 3 <= data.Length
    modifies data
    ensures next == i + 3 && Appended(data, i, [a, b, c])
  {
    next := i;
    data[next] := a; next := next + 1;
    data[next] := b; next := next + 1;
    data[next] := c; next := next + 1;
  }

  method Write4(data: array<Byte>, i: nat, a: Byte, b: Byte, c: Byte, d: Byte) returns (next: nat)
    requires i + 4 <= data.Length
    modifies data
    ensures next == i + 4 && Appended(data, i, [a, b, c, d])
  {
    next := i;
    data[next] := a; next := next + 1;
    data[next] := b; next := next + 1;
    data[next] := c; next := next + 1;
    data[next] := d; next := next + 1;
  }

  /** The branches for three-byte leads. */
  method WriteThreeBytes(data: array<Byte>, i: nat, w: Byte, d: seq<nat>) returns (next: nat)
    requires 0xE0 <= w < 0xF0 && |d| == 2 && i + |Turn(w, d)| <= data.Length
    modifies data
    ensures |Turn(w, d)| == 3 && next == i + 3 && Appended(data, i, Turn(w, d))
  {
    ThreeByteTurn(w, d);
    if w == 0xE0 {
      next := Write3(data, i, w, 0xA0 + d[0] % (0xBF - 0xA0 + 1), 0x80 + d[1] % (0xBF - 0x80 + 1));
    } else if w <= 0xEC {
      next := Write3(data, i, w, 0x80 + d[0] % (0xBF - 0x80 + 1), 0x80 + d[1] % (0xBF - 0x80 + 1));
    } else if w == 0xED {
      next := Write3(data, i, w, 0x80 + d[0] % (0x9F - 0x80 + 1), 0x80 + d[1] % (0xBF - 0x80 + 1));
    } else {
      next := Write3(data, i, w, 0x80 + d[0] % (0xBF - 0x80 + 1), 0x80 + d[1] % (0xBF - 0x80 + 1));
    }
  }

  /** The branches for four-byte leads. */
  method WriteFourBytes(data: array<Byte>, i: nat, w: Byte, d: seq<nat>) returns (next: nat)
    requires 0xF0 <= w <= 0xF4 && |d| == Draws(w) && i + |Turn(w, d)| <= data.Length
    modifies data
    ensures |Turn(w, d)| == 4 && next == i + 4 && Appended(data, i, Turn(w, d))
  {
    FourByteTurn(w, d);
    if w == 0xF0 {
      next := Write4(data, i, w, 0x90 + d[0] % (0xBF - 0x90 + 1), 0x80 + d[1] % (0xBF - 0x80 + 1),
                     0x80 + d[2] % (0xBF - 0x80 + 1));
    } else if w <= 0xF3 {
      next := Write4(data, i, 0xF1 + d[0] % (0xF3 - 0xF1 + 1), 0x80 + d[1] % (0xBF - 0x80 + 1),
                     0x80 + d[2] % (0xBF - 0x80 + 1), 0x80 + d[3] % (0xBF - 0x80 + 1));
    } else {
      next := Write4(data, i, w, 0x80 + d[0] % (0x8F - 0x80 + 1), 0x80 + d[1] % (0xBF - 0x80 + 1),
                     0x80 + d[2] % (0xBF - 0x80 + 1));
    }
  }

  /** The loop body. Its branch for w < 0xF0 after w <= 0xEF can never be taken
      and is not repeated here. */
  method WriteTurn(data: array<Byte>, i: nat, w: Byte, d: seq<nat>) returns (next: nat)
    requires |d| == Draws(w) && i + |Turn(w, d)| <= data.Length
    modifies data
    ensures next == i + |Turn(w, d)| && Appended(data, i, Turn(w, d))
  {
    if w < 0x80 {
      data[i] := 0x20;
      next := i + 1;
    } else if w < 0xE0 {
      TwoByteTurn(w, d);
      next := Write2(data, i, 0xC2 + d[0] % (0xDF - 0xC2 + 1), 0x80 + d[1] % (0xBF - 0x80 + 1));
    } else if w < 0xF0 {
      next := WriteThreeBytes(data, i, w, d);
    } else if w <= 0xF4 {
      next := WriteFourBytes(data, i, w, d);
    } else {
      next := i;
    }
  }

  /** The whole outcome is what was written followed by what is still to come. */
  predicate Continues(whole: Outcome, written: seq<Byte>, n: int, rand: seq<nat>) {
    whole == Prepend(written, Generate(n - |written|, rand))
  }

  lemma {:induction false} PrependTwice(written: seq<Byte>, c: seq<Byte>, later: Outcome)
    ensures Prepend(written, Prepend(c, later)) == Prepend(written + c, later)
  {
    assert written + (c + later.bytes) == (written + c) + later.bytes;
  }

  lemma {:induction false} AnotherTurn(whole: Outcome, written: seq<Byte>, n: int, rand: seq<nat>)
    requires |written| < n && CanTurn(rand) && Continues(whole, written, n, rand)
    ensures var more := written + NextTurn(rand);
      Continues(whole, more, n, Later(rand)) && |more| <= |whole.bytes|
  {
    PrependTwice(written, NextTurn(rand), Generate(n - |written| - |NextTurn(rand)|, Later(rand)));
  }

  lemma {:induction false} NoMoreTurns(whole: Outcome, written: seq<Byte>, n: int, rand: seq<nat>)
    requires (n <= |written| || !CanTurn(rand)) && Continues(whole, written, n, rand)
    ensures whole == Outcome(written, n <= |written|)
  {
    assert written + [] == written;
  }

  /** One turn of the loop, with the draws it leaves. */
  method TakeTurn(data: array<Byte>, i: nat, rand: seq<nat>) returns (next: nat, later: seq<nat>)
    requires CanTurn(rand) && i + |NextTurn(rand)| <= data.Length
    modifies data
    ensures later == Later(rand)
    ensures next == i + |NextTurn(rand)| && Appended(data, i, NextTurn(rand))
  {
    var w := rand[0] % 0x100;
    next := WriteTurn(data, i, w, rand[1..1 + Draws(w)]);
    later := rand[1 + Draws(w)..];
  }

  /** The loop. When the draws run out before it ends, so does this model of it,
      with `finished` false. */
  method WriteText(data: array<Byte>, n: nat, rand: seq<nat>) returns (i: nat, finished: bool)
    requires |Generate(n, rand).bytes| <= data.Length
    modifies data
    ensures i <= data.Length && Outcome(data[..i], finished) == Generate(n, rand)
    ensures forall k {:trigger data[k]} :: i <= k < data.Length ==> data[k] == old(data[k])
  {
    i := 0;
    var later := rand;
    ghost var whole := Generate(n, rand);
    while i < n
      invariant 0 <= i <= data.Length && Continues(whole, data[..i], n, later)
      invariant forall k {:trigger data[k]} :: i <= k < data.Length ==> data[k] == old(data[k])
      decreases |later|
    {
      if !CanTurn(later) {
        NoMoreTurns(whole, data[..i], n, later);
        return i, false;
      }
      AnotherTurn(whole, data[..i], n, later);
      i, later := TakeTurn(data, i, later);
    }
    NoMoreTurns(whole, data[..i], n, later);
    finished := true;
  }

  /** populate_utf8. The buffer need only hold what the draws make it write. */
  method PopulateUtf8(data: array<Byte>, n: nat, rand: seq<nat>) returns (i: nat, finished: bool)
    requires var r := Generate(n, rand); |r.bytes| + (if r.finished then 1 else 0) <= data.Length
    modifies data
    ensures i <= data.Length && Outcome(data[..i], finished) == Generate(n, rand)
    ensures WellFormed(data[..i]) && OnlySpaces(data[..i])
    ensures finished ==> i < data.Length && data[i] == 0
    ensures forall k {:trigger data[k]} ::
      i + (if finished then 1 else 0) <= k < data.Length ==> data[k] == old(data[k])
  {
    GeneratesWellFormed(n, rand);
    GeneratesOnlySpaces(n, rand);
    i, finished := WriteText(data, n, rand);
    if finished {
      data[i] := 0;
    }
  }
}
