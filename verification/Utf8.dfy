/** The legal UTF-8 byte sequences: Table 3-7 of Unicode 6.0, which is also
    section 4 of RFC 3629. Everything else in the project is measured against
    this module. */
module Utf8 {

  type Byte = b: int | 0 <= b < 0x100

  predicate Ascii(b: Byte) { b < 0x80 }

  predicate Continuation(b: Byte) { 0x80 <= b <= 0xBF }

  predicate AllAscii(s: seq<Byte>) {
    forall i :: 0 <= i < |s| ==> Ascii(s[i])
  }

  /** `c` is one row of Table 3-7. */
  predicate Legal(c: seq<Byte>) {
    match |c|
    case 1 => c[0] <= 0x7F
    case 2 => 0xC2 <= c[0] <= 0xDF && Continuation(c[1])
    case 3 =>
      && (|| (c[0] == 0xE0 && 0xA0 <= c[1] <= 0xBF)
          || (0xE1 <= c[0] <= 0xEC && Continuation(c[1]))
          || (c[0] == 0xED && 0x80 <= c[1] <= 0x9F)
          || (0xEE <= c[0] <= 0xEF && Continuation(c[1])))
      && Continuation(c[2])
    case 4 =>
      && (|| (c[0] == 0xF0 && 0x90 <= c[1] <= 0xBF)
          || (0xF1 <= c[0] <= 0xF3 && Continuation(c[1]))
          || (c[0] == 0xF4 && 0x80 <= c[1] <= 0x8F))
      && Continuation(c[2]) && Continuation(c[3])
    case _ => false
  }

  /** The length of the rows that start with `b`; 0 when no row does. */
  function LeadLength(b: Byte): (n: nat)
    ensures n <= 4
  {
    if b <= 0x7F then 1
    else if 0xC2 <= b <= 0xDF then 2
    else if 0xE0 <= b <= 0xEF then 3
    else if 0xF0 <= b <= 0xF4 then 4
    else 0
  }

  predicate StartsLegal(s: seq<Byte>)
    requires s != []
  {
    var n := LeadLength(s[0]);
    0 < n <= |s| && Legal(s[..n])
  }

  predicate WellFormed(s: seq<Byte>) {
    s == [] || (StartsLegal(s) && WellFormed(s[LeadLength(s[0])..]))
  }

  /** A prefix of some well-formed string. */
  ghost predicate Viable(s: seq<Byte>) {
    exists t :: WellFormed(s + t)
  }

  /** A legal character in front neither helps nor harms what follows. */
  lemma {:induction false} PrependLegal(c: seq<Byte>, s: seq<Byte>)
    requires Legal(c)
    ensures WellFormed(c + s) <==> WellFormed(s)
  {
    var n := LeadLength(c[0]);
    assert n == |c|;
    assert (c + s)[0] == c[0] && (c + s)[..n] == c && (c + s)[n..] == s;
  }

  /** Unicode scalar values: code points without the surrogates. */
  predicate Scalar(v: int) {
    0 <= v <= 0x10FFFF && !(0xD800 <= v <= 0xDFFF)
  }

  /** A number from its base-64 digits. */
  function Digits(a: int, b: int, c: int, d: int): int {
    a * 0x40000 + b * 0x1000 + c * 0x40 + d
  }

  lemma {:induction false} DigitsOf(v: int)
    ensures v == Digits(v / 0x40000, v / 0x1000 % 0x40, v / 0x40 % 0x40, v % 0x40)
  {
    assert v / 0x1000 / 0x40 == v / 0x40000;
    assert v / 0x40 / 0x40 == v / 0x1000;
  }

  lemma {:induction false} DigitsUnique(a: int, b: int, c: int, d: int)
    requires 0 <= b < 0x40 && 0 <= c < 0x40 && 0 <= d < 0x40
    ensures var v := Digits(a, b, c, d);
      v / 0x40000 == a && v / 0x1000 % 0x40 == b && v / 0x40 % 0x40 == c && v % 0x40 == d
  {
    var v := Digits(a, b, c, d);
    assert v / 0x40 == a * 0x1000 + b * 0x40 + c;
    assert v / 0x1000 == a * 0x40 + b;
  }

  /** The encoding of section 3 of RFC 3629: the base-64 digits of the scalar
      value, most significant first, behind the marks of lead and trail bytes. */
  function Encode(v: int): (s: seq<Byte>)
    requires Scalar(v)
  {
    DigitsOf(v);
    var a, b, c, d := v / 0x40000, v / 0x1000 % 0x40, v / 0x40 % 0x40, v % 0x40;
    if v < 0x80 then [v]
    else if v < 0x800 then [0xC0 + c, 0x80 + d]
    else if v < 0x10000 then [0xE0 + b, 0x80 + c, 0x80 + d]
    else [0xF0 + a, 0x80 + b, 0x80 + c, 0x80 + d]
  }

  lemma {:induction false} EncodeLegal(v: int)
    requires Scalar(v)
    ensures Legal(Encode(v))
  {
  }

  predicate AllScalar(vs: seq<int>) {
    forall i :: 0 <= i < |vs| ==> Scalar(vs[i])
  }

  function EncodeAll(vs: seq<int>): (s: seq<Byte>)
    requires AllScalar(vs)
  {
    if vs == [] then [] else Encode(vs[0]) + EncodeAll(vs[1..])
  }

  lemma {:induction false} EncodeAllWellFormed(vs: seq<int>)
    requires AllScalar(vs)
    ensures WellFormed(EncodeAll(vs))
  {
    if vs != [] {
      EncodeAllWellFormed(vs[1..]);
      EncodeLegal(vs[0]);
      PrependLegal(Encode(vs[0]), EncodeAll(vs[1..]));
    }
  }
}
