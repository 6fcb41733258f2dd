/** The decoder of benchmarks/hoehrmann.h over whole strings: it inverts the
    encoding of RFC 3629 in both directions. */
module Decoder {
  import opened Utf8
  import opened Automaton
  import opened Bits
  import opened Hoehrmann

  /** The two variables of the decoder, and the code points seen at ACCEPT. */
  datatype Progress = Progress(state: State, codep: nat, emitted: seq<nat>)

  function DecodeByte(d: Progress, b: Byte): Progress {
    var state := Next(d.state, b);
    var codep := NextCodePoint(d.state, d.codep, b);
    Progress(state, codep, if state == ACCEPT then d.emitted + [codep] else d.emitted)
  }

  function DecodeAll(d: Progress, s: seq<Byte>): Progress {
    if s == [] then d else DecodeByte(DecodeAll(d, s[..|s| - 1]), s[|s| - 1])
  }

  lemma {:induction false} DecodeConcat(d: Progress, a: seq<Byte>, b: seq<Byte>)
    ensures DecodeAll(d, a + b) == DecodeAll(DecodeAll(d, a), b)
  {
    if b == [] {
      assert a + b == a;
    } else {
      DecodeConcat(d, a, b[..|b| - 1]);
      assert (a + b)[..|a + b| - 1] == a + b[..|b| - 1];
    }
  }

  lemma {:induction false} DecodeState(d: Progress, s: seq<Byte>)
    ensures DecodeAll(d, s).state == Run(d.state, s)
  {
    if s != [] { DecodeState(d, s[..|s| - 1]); }
  }

  /** The scalar value a row of Table 3-7 stands for. */
  function Value(c: seq<Byte>): int
    requires Legal(c)
  {
    match |c|
    case 1 => c[0]
    case 2 => Digits(0, 0, c[0] - 0xC0, c[1] - 0x80)
    case 3 => Digits(0, c[0] - 0xE0, c[1] - 0x80, c[2] - 0x80)
    case _ => Digits(c[0] - 0xF0, c[1] - 0x80, c[2] - 0x80, c[3] - 0x80)
  }

  lemma {:induction false} EncodeInvertsDigits(a: int, b: int, c: int, d: int)
    requires 0 <= a <= 4 && 0 <= b < 0x40 && 0 <= c < 0x40 && 0 <= d < 0x40
    requires Scalar(Digits(a, b, c, d))
    ensures var v := Digits(a, b, c, d);
      Encode(v) ==
        if v < 0x80 then [v]
        else if v < 0x800 then [0xC0 + c, 0x80 + d]
        else if v < 0x10000 then [0xE0 + b, 0x80 + c, 0x80 + d]
        else [0xF0 + a, 0x80 + b, 0x80 + c, 0x80 + d]
  {
    DigitsUnique(a, b, c, d);
  }

  lemma {:induction false} EncodeInvertsThree(c: seq<Byte>)
    requires Legal(c) && |c| == 3
    ensures Scalar(Value(c)) && Encode(Value(c)) == c
  {
    assert 0x800 <= Value(c) < 0x10000;
    EncodeInvertsDigits(0, c[0] - 0xE0, c[1] - 0x80, c[2] - 0x80);
  }

  lemma {:induction false} EncodeInvertsFour(c: seq<Byte>)
    requires Legal(c) && |c| == 4
    ensures Scalar(Value(c)) && Encode(Value(c)) == c
  {
    assert 0x10000 <= Value(c) <= 0x10FFFF;
    EncodeInvertsDigits(c[0] - 0xF0, c[1] - 0x80, c[2] - 0x80, c[3] - 0x80);
  }

  lemma {:induction false} EncodeInvertsValue(c: seq<Byte>)
    requires Legal(c)
    ensures Scalar(Value(c)) && Encode(Value(c)) == c
  {
    match |c|
    case 1 =>
    case 2 => EncodeInvertsDigits(0, 0, c[0] - 0xC0, c[1] - 0x80);
    case 3 => EncodeInvertsThree(c);
    case _ => EncodeInvertsFour(c);
  }

  lemma {:induction false} ValueInvertsEncode(v: int)
    requires Scalar(v)
    ensures Legal(Encode(v)) && Value(Encode(v)) == v
  {
    DigitsOf(v);
    EncodeLegal(v);
  }

  lemma {:induction false} LeadByte(b: Byte)
    requires LeadLength(b) > 0
    ensures NextCodePoint(ACCEPT, 0, b) == b - [0, 0, 0xC0, 0xE0, 0xF0][LeadLength(b)]
  {
    Pow2Values();
  }

  /** What any byte leaves as the code point at the start of a character, the
      bytes that start none included. */
  lemma {:induction false} StartByte(codep: nat, b: Byte)
    ensures NextCodePoint(ACCEPT, codep, b) ==
      if b < 0x90 then b % 0x80
      else if b < 0xA0 then 0
      else if b < 0xC0 then b % 2
      else if LeadLength(b) == 0 then 0
      else b - [0, 0, 0xC0, 0xE0, 0xF0][LeadLength(b)]
  {
    Pow2Values();
  }

  lemma {:induction false} TrailByte(q: State, codep: nat, b: Byte)
    requires q != ACCEPT && Continuation(b) && codep < 0x400_0000
    ensures NextCodePoint(q, codep, b) == codep * 0x40 + (b - 0x80)
  {
  }

  lemma {:induction false} DecodeSnoc(d: Progress, s: seq<Byte>, k: nat)
    requires k < |s|
    ensures DecodeAll(d, s[..k + 1]) == DecodeByte(DecodeAll(d, s[..k]), s[k])
  {
    assert s[..k + 1][..k] == s[..k];
  }

  /** One more byte of a character that is not finished by it ... */
  lemma {:induction false} DecodesInside(d: Progress, c: seq<Byte>, k: nat)
    requires Legal(c) && d.state == ACCEPT && 0 < k < |c|
    ensures var r := DecodeAll(d, c[..k]);
      && r.state > REJECT && r.emitted == d.emitted
      && (k == |c| - 1 ==> r.state == 2)
      && (k == 1 ==> r.state == Next(0, c[0]))
      && (k == 2 && |c| == 4 ==> r.state == 3)
      && var lead: int := c[0] - [0, 0, 0xC0, 0xE0, 0xF0][|c|];
      && r.codep == if k == 1 then lead
                    else if k == 2 then Digits(0, 0, lead, c[1] - 0x80)
                    else Digits(0, lead, c[1] - 0x80, c[2] - 0x80)
  {
    assert LeadLength(c[0]) == |c|;
    DecodeSnoc(d, c, k - 1);
    if k == 1 {
      LeadByte(c[0]);
    } else {
      DecodesInside(d, c, k - 1);
      var r := DecodeAll(d, c[..k - 1]);
      TrailByte(r.state, r.codep, c[k - 1]);
    }
  }

  lemma {:induction false} DecodesLastByte(d: Progress, c: seq<Byte>)
    requires Legal(c) && d.state == ACCEPT
    ensures DecodeAll(d, c) == Progress(ACCEPT, Value(c), d.emitted + [Value(c)])
  {
    var k := |c| - 1;
    assert LeadLength(c[0]) == |c|;
    assert c[..k + 1] == c;
    DecodeSnoc(d, c, k);
    if k == 0 {
      assert DecodeAll(d, c[..0]) == d;
      LeadByte(c[0]);
    } else {
      DecodesInside(d, c, k);
      var r := DecodeAll(d, c[..k]);
      TrailByte(r.state, r.codep, c[k]);
      assert NextCodePoint(r.state, r.codep, c[k]) == Value(c);
    }
  }

  /** Over one character the decoder stays between ACCEPT and REJECT until the
      last byte, and then emits exactly the value of the character. */
  lemma {:induction false} DecodesLegal(d: Progress, c: seq<Byte>)
    requires Legal(c) && d.state == ACCEPT
    ensures forall k :: 0 < k < |c| ==> DecodeAll(d, c[..k]).state > REJECT
    ensures DecodeAll(d, c) == Progress(ACCEPT, Value(c), d.emitted + [Value(c)])
  {
    forall k | 0 < k < |c| ensures DecodeAll(d, c[..k]).state > REJECT { DecodesInside(d, c, k); }
    DecodesLastByte(d, c);
  }

  /** The other direction of the round trip starts from any scalar value. */
  lemma {:induction false} DecodesEncoding(d: Progress, v: int)
    requires Scalar(v) && d.state == ACCEPT
    ensures forall k :: 0 < k < |Encode(v)| ==> DecodeAll(d, Encode(v)[..k]).state > REJECT
    ensures DecodeAll(d, Encode(v)) == Progress(ACCEPT, v, d.emitted + [v])
  {
    ValueInvertsEncode(v);
    DecodesLegal(d, Encode(v));
  }

  lemma {:induction false} DecodesLegalThen(d: Progress, c: seq<Byte>, s: seq<Byte>) returns (d': Progress)
    requires Legal(c) && d.state == ACCEPT
    ensures d' == Progress(ACCEPT, Value(c), d.emitted + [Value(c)])
    ensures DecodeAll(d, c + s) == DecodeAll(d', s)
  {
    DecodesLegal(d, c);
    DecodeConcat(d, c, s);
    d' := DecodeAll(d, c);
  }

  lemma {:induction false} DecodesEncodingThen(d: Progress, v: int, s: seq<Byte>) returns (d': Progress)
    requires Scalar(v) && d.state == ACCEPT
    ensures d' == Progress(ACCEPT, v, d.emitted + [v])
    ensures DecodeAll(d, Encode(v) + s) == DecodeAll(d', s)
  {
    ValueInvertsEncode(v);
    d' := DecodesLegalThen(d, Encode(v), s);
  }

  lemma {:induction false} DecodesEncodings(d: Progress, vs: seq<int>)
    requires AllScalar(vs) && d.state == ACCEPT
    ensures var r := DecodeAll(d, EncodeAll(vs)); r.state == ACCEPT && r.emitted == d.emitted + vs
    decreases |vs|
  {
    if vs != [] {
      var v, vs' := vs[0], vs[1..];
      var d' := DecodesEncodingThen(d, v, EncodeAll(vs'));
      DecodesEncodings(d', vs');
      assert d'.emitted + vs' == d.emitted + vs;
    }
  }

  lemma {:induction false} FirstCharacter(s: seq<Byte>) returns (c: seq<Byte>, rest: seq<Byte>)
    requires s != [] && Run(0, s) == 0
    ensures Legal(c) && s == c + rest && |rest| < |s|
  {
    AcceptedStartsLegal(s);
    var n := LeadLength(s[0]);
    c, rest := s[..n], s[n..];
  }

  lemma {:induction false} EncodeAllPrepends(v: int, vs: seq<int>)
    requires Scalar(v) && AllScalar(vs)
    ensures AllScalar([v] + vs) && EncodeAll([v] + vs) == Encode(v) + EncodeAll(vs)
  {
    assert ([v] + vs)[1..] == vs;
  }

  /** What is emitted between two ACCEPT states re-encodes to the input; it
      never contains a surrogate or anything above 0x10FFFF. */
  lemma {:induction false} ReencodesInput(d: Progress, s: seq<Byte>) returns (vs: seq<int>)
    requires d.state == ACCEPT && DecodeAll(d, s).state == ACCEPT
    ensures DecodeAll(d, s).emitted == d.emitted + vs
    ensures AllScalar(vs) && EncodeAll(vs) == s
    decreases |s|
  {
    if s == [] {
      vs := [];
    } else {
      DecodeState(d, s);
      var c, rest := FirstCharacter(s);
      var d' := DecodesLegalThen(d, c, rest);
      var vs' := ReencodesInput(d', rest);
      EncodeInvertsValue(c);
      EncodeAllPrepends(Value(c), vs');
      vs := [Value(c)] + vs';
    }
  }

  lemma {:induction false} AtAccept(d: Progress, s: seq<Byte>)
    requires d.state == ACCEPT
    ensures DecodeAll(d, s).state == ACCEPT <==> WellFormed(s)
  {
    DecodeState(d, s);
    AcceptsWellFormed(s);
  }

  /** On any input whatsoever, from ACCEPT, only scalar values are emitted, and
      they re-encode to the longest well-formed prefix of the input. */
  lemma {:induction false} EmitsScalars(d: Progress, s: seq<Byte>) returns (vs: seq<int>, n: nat)
    requires d.state == ACCEPT
    ensures DecodeAll(d, s).emitted == d.emitted + vs
    ensures AllScalar(vs) && n <= |s| && EncodeAll(vs) == s[..n]
    ensures DecodeAll(d, s).state == ACCEPT ==> n == |s|
    ensures WellFormed(s[..n]) && forall m :: n < m <= |s| ==> !WellFormed(s[..m])
  {
    AtAccept(d, s);
    assert s[..|s|] == s;
    if DecodeAll(d, s).state == ACCEPT {
      vs := ReencodesInput(d, s);
      n := |s|;
    } else {
      vs, n := EmitsScalars(d, s[..|s| - 1]);
      assert forall m {:trigger s[..m]} :: 0 <= m < |s| ==> s[..|s| - 1][..m] == s[..m];
    }
  }

  // ----- outside ACCEPT

  /** Six bits of every byte after what was there before, in as many bits as it
      takes. */
  function Gathered(codep: nat, s: seq<Byte>): nat {
    if s == [] then codep else Gathered(codep, s[..|s| - 1]) * 0x40 + s[|s| - 1] % 0x40
  }

  lemma {:induction false} AppendsModulo(x: nat, b: nat)
    requires b < 0x40
    ensures b + x % 0x1_0000_0000 % 0x400_0000 * 0x40 == (x * 0x40 + b) % 0x1_0000_0000
  {
    var q, r := x / 0x400_0000, x % 0x400_0000;
    assert x == q * 0x400_0000 + r;
    RemainderUnique(x * 0x40 + b, 0x1_0000_0000, q, r * 0x40 + b);
    var q', r' := x / 0x1_0000_0000, x % 0x1_0000_0000;
    RemainderUnique(r', 0x400_0000, r' / 0x400_0000, r' % 0x400_0000);
    RemainderUnique(x, 0x400_0000, q' * 0x40 + r' / 0x400_0000, r' % 0x400_0000);
  }

  /** Between two bytes read in ACCEPT, valid or not, the code point gathers six
      bits a byte and drops what does not fit in 32. */
  lemma {:induction false} GathersOutsideAccept(d: Progress, s: seq<Byte>)
    requires d.codep < 0x1_0000_0000
    requires forall j :: 0 <= j < |s| ==> Run(d.state, s[..j]) != ACCEPT
    ensures DecodeAll(d, s).codep == Gathered(d.codep, s) % 0x1_0000_0000
  {
    if s != [] {
      var init, b := s[..|s| - 1], s[|s| - 1];
      forall j | 0 <= j < |init| ensures Run(d.state, init[..j]) != ACCEPT { assert init[..j] == s[..j]; }
      GathersOutsideAccept(d, init);
      DecodeState(d, init);
      AppendsModulo(Gathered(d.codep, init), b % 0x40);
    }
  }

  lemma {:induction false} GatheredConcat(codep: nat, a: seq<Byte>, b: seq<Byte>)
    ensures Gathered(codep, a + b) == Gathered(Gathered(codep, a), b)
  {
    if b == [] {
      assert a + b == a;
    } else {
      GatheredConcat(codep, a, b[..|b| - 1]);
      assert (a + b)[..|a + b| - 1] == a + b[..|b| - 1];
    }
  }

  /** A code point is shifted up by as many digits as are gathered. */
  lemma {:induction false} GatheredShifts(codep: nat, s: seq<Byte>)
    ensures Gathered(codep, s) == Pow2(6 * |s|) * codep + Gathered(0, s)
  {
    if s != [] {
      var init := s[..|s| - 1];
      GatheredShifts(codep, init);
      SixMore(6 * |init|);
      assert 6 * |s| == 6 * |init| + 6;
      assert Pow2(6 * |s|) * codep == 0x40 * (Pow2(6 * |init|) * codep);
    }
  }

  lemma {:induction false} SixMore(k: nat)
    ensures Pow2(k + 6) == 0x40 * Pow2(k)
  {
    assert Pow2(k + 1) == 2 * Pow2(k) && Pow2(k + 2) == 2 * Pow2(k + 1) && Pow2(k + 3) == 2 * Pow2(k + 2);
    assert Pow2(k + 4) == 2 * Pow2(k + 3) && Pow2(k + 5) == 2 * Pow2(k + 4) && Pow2(k + 6) == 2 * Pow2(k + 5);
  }

  /** After an error, or anywhere outside ACCEPT, six bytes leave nothing of the
      code point there was. */
  lemma {:induction false} SixBytesForget(d: Progress, s: seq<Byte>)
    requires d.codep < 0x1_0000_0000 && |s| >= 6
    requires forall j :: 0 <= j < |s| ==> Run(d.state, s[..j]) != ACCEPT
    ensures DecodeAll(d, s).codep == Gathered(0, s[|s| - 6..]) % 0x1_0000_0000
  {
    var a, t := s[..|s| - 6], s[|s| - 6..];
    assert s == a + t;
    GathersOutsideAccept(d, s);
    GatheredConcat(d.codep, a, t);
    var x, low := Gathered(d.codep, a), Gathered(0, t);
    GatheredShifts(x, t);
    Pow2Values();
    SixMore(30); SixMore(24); SixMore(18); SixMore(12); SixMore(6); SixMore(0);
    assert Pow2(36) == 0x10 * 0x1_0000_0000;
    RemainderUnique(Gathered(x, t), 0x1_0000_0000, 0x10 * x + low / 0x1_0000_0000, low % 0x1_0000_0000);
  }

  /** Well-formed means: the encoding of some sequence of scalar values. */
  lemma {:induction false} WellFormedIffEncoding(s: seq<Byte>)
    ensures WellFormed(s) <==> exists vs :: AllScalar(vs) && EncodeAll(vs) == s
  {
    if WellFormed(s) {
      AcceptsWellFormed(s);
      var d := Progress(ACCEPT, 0, []);
      DecodeState(d, s);
      var vs := ReencodesInput(d, s);
    }
    forall vs | AllScalar(vs) && EncodeAll(vs) == s ensures WellFormed(s) {
      EncodeAllWellFormed(vs);
    }
  }
}
