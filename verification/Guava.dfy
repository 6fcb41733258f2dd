/** The scalar loop of benchmarks/benchmark.c that was copied in part from Guava.
    There the bytes were signed; here they are not, so a trailing byte is only
    tested against 0xBF, and ASCII in its place goes unnoticed. */
module Guava {
  import opened Utf8

  // ----- the plane test in 32-bit arithmetic

  /** A 32-bit int after wrap-around. */
  function Wrap32(x: int): int {
    (x + 0x8000_0000) % 0x1_0000_0000 - 0x8000_0000
  }

  /** ((byte1 << 28) + (byte2 - 0x90)) >> 30, the shift to the right arithmetic:
      Dafny's division by a positive number rounds down. */
  function PlaneBits(byte1: Byte, byte2: Byte): int {
    Wrap32(Wrap32(byte1 as int * 0x1000_0000) + (byte2 as int - 0x90)) / 0x4000_0000
  }

  /** The trick is zero exactly for the lead and second bytes of planes 1 to 16. */
  lemma {:induction false} PlaneTest(byte1: Byte, byte2: Byte)
    requires byte1 >= 0xF0
    ensures PlaneBits(byte1, byte2) == 0 <==>
      || (byte1 == 0xF0 && byte2 >= 0x90)
      || 0xF1 <= byte1 <= 0xF3
      || (byte1 == 0xF4 && byte2 <= 0x8F)
  {
  }

  // ----- what the loop accepts

  /** Table 3-7 without the lower bound 80 of trailing bytes. */
  predicate LaxLegal(c: seq<Byte>) {
    match |c|
    case 1 => c[0] <= 0x7F
    case 2 => 0xC2 <= c[0] <= 0xDF && c[1] <= 0xBF
    case 3 =>
      && (|| (c[0] == 0xE0 && 0xA0 <= c[1] <= 0xBF)
          || (0xE1 <= c[0] <= 0xEC && c[1] <= 0xBF)
          || (c[0] == 0xED && c[1] <= 0x9F)
          || (0xEE <= c[0] <= 0xEF && c[1] <= 0xBF))
      && c[2] <= 0xBF
    case 4 =>
      && (|| (c[0] == 0xF0 && 0x90 <= c[1] <= 0xBF)
          || (0xF1 <= c[0] <= 0xF3 && c[1] <= 0xBF)
          || (c[0] == 0xF4 && c[1] <= 0x8F))
      && c[2] <= 0xBF && c[3] <= 0xBF
    case _ => false
  }

  predicate LaxForm(s: seq<Byte>) {
    s == [] ||
    (var n := LeadLength(s[0]); 0 < n <= |s| && LaxLegal(s[..n]) && LaxForm(s[n..]))
  }

  lemma {:induction false} LaxSuffix(s: seq<Byte>, i: nat)
    requires i < |s|
    ensures var n := LeadLength(s[i]);
      LaxForm(s[i..]) <==> 0 < n <= |s| - i && LaxLegal(s[i..i + n]) && LaxForm(s[i + n..])
  {
    var n := LeadLength(s[i]);
    if n <= |s| - i {
      assert s[i..][..n] == s[i..i + n] && s[i..][n..] == s[i + n..];
    }
  }

  /** What the byte at i demands, branch by branch; after[k] says whether what
      follows from k on is accepted. */
  predicate Branches(s: seq<Byte>, after: seq<bool>, i: nat)
    requires |after| == |s| + 1 && i < |s|
  {
    var b := s[i];
    after[i] <==>
      if b < 0x80 then after[i + 1]
      else if b < 0xE0 then 0xC2 <= b && i + 1 < |s| && s[i + 1] <= 0xBF && after[i + 2]
      else if b < 0xF0 then
        && i + 2 < |s| && s[i + 1] <= 0xBF
        && !(b == 0xE0 && s[i + 1] < 0xA0) && !(b == 0xED && 0xA0 <= s[i + 1])
        && s[i + 2] <= 0xBF && after[i + 3]
      else
        && i + 3 < |s| && s[i + 1] <= 0xBF && PlaneBits(b, s[i + 1]) == 0
        && s[i + 2] <= 0xBF && s[i + 3] <= 0xBF && after[i + 4]
  }

  lemma {:induction false} BranchesDecide(s: seq<Byte>, after: seq<bool>, i: nat)
    requires |after| == |s| + 1 && i < |s|
    requires forall k {:trigger after[k]} :: 0 <= k <= |s| ==> after[k] == LaxForm(s[k..])
    ensures Branches(s, after, i)
  {
    LaxSuffix(s, i);
    if s[i] >= 0xF0 && i + 1 < |s| { PlaneTest(s[i], s[i + 1]); }
  }

  lemma {:induction false} Suffixes(s: seq<Byte>) returns (after: seq<bool>)
    ensures |after| == |s| + 1 && after[0] == LaxForm(s) && after[|s|]
    ensures forall i {:trigger Branches(s, after, i)} :: 0 <= i < |s| ==> Branches(s, after, i)
  {
    after := seq(|s| + 1, k requires 0 <= k <= |s| => LaxForm(s[k..]));
    assert s[0..] == s && s[|s|..] == [];
    forall i {:trigger Branches(s, after, i)} | 0 <= i < |s| ensures Branches(s, after, i) {
      BranchesDecide(s, after, i);
    }
  }

  /** validate_utf8; every byte read lies inside the array. */
  method ValidateUtf8(bytes: array<Byte>) returns (ok: bool)
    ensures ok <==> LaxForm(bytes[..])
    ensures ok <==> WellFormed(Raised(bytes[..]))
  {
    ghost var s := bytes[..];
    LaxIffRaisedWellFormed(s);
    ghost var after := Suffixes(s);
    var index := 0;
    while true
      invariant 0 <= index <= |s| && after[index] == after[0]
      decreases |s| - index
    {
      ghost var start := index;
      if index >= bytes.Length { return true; }
      var byte1 := bytes[index];
      index := index + 1;
      while byte1 < 0x80
        invariant start < index <= |s| && byte1 == s[index - 1]
        invariant after[index - 1] == after[0]
        decreases |s| - index
      {
        assert Branches(s, after, index - 1);
        if index >= bytes.Length { return true; }
        byte1 := bytes[index];
        index := index + 1;
      }
      assert Branches(s, after, index - 1);
      if byte1 < 0xE0 {
        if index == bytes.Length { return false; }
        if byte1 < 0xC2 { return false; }
        var byte2 := bytes[index];
        index := index + 1;
        if byte2 > 0xBF { return false; }
      } else if byte1 < 0xF0 {
        if index + 1 >= bytes.Length { return false; }
        var byte2 := bytes[index];
        index := index + 1;
        if byte2 > 0xBF || (byte1 == 0xE0 && byte2 < 0xA0) || (byte1 == 0xED && 0xA0 <= byte2) { return false; }
        var byte3 := bytes[index];
        index := index + 1;
        if byte3 > 0xBF { return false; }
      } else {
        if index + 2 >= bytes.Length { return false; }
        var byte2 := bytes[index];
        index := index + 1;
        if byte2 > 0xBF || PlaneBits(byte1, byte2) != 0 { return false; }
        var byte3 := bytes[index];
        index := index + 1;
        if byte3 > 0xBF { return false; }
        var byte4 := bytes[index];
        index := index + 1;
        if byte4 > 0xBF { return false; }
      }
    }
  }

  // ----- against Table 3-7

  /** No ASCII byte within the length that a lead byte announces. */
  predicate NoAsciiInside(s: seq<Byte>) {
    forall i, j :: 0 <= i < j < |s| && s[i] >= 0xC0 && j < i + LeadLength(s[i]) ==> s[j] >= 0x80
  }

  lemma {:induction false} LaxButNoAscii(c: seq<Byte>)
    requires |c| <= 4
    ensures Legal(c) <==> LaxLegal(c) && NoAsciiInside(c)
  {
    if LaxLegal(c) && NoAsciiInside(c) && |c| > 1 {
      assert LeadLength(c[0]) == |c|;
      assert c[1] >= 0x80;
      if |c| > 2 { assert c[2] >= 0x80; }
      if |c| > 3 { assert c[3] >= 0x80; }
    }
  }

  lemma {:induction false} NoAsciiSplits(c: seq<Byte>, s: seq<Byte>)
    requires LaxLegal(c)
    ensures NoAsciiInside(c + s) ==> NoAsciiInside(c) && NoAsciiInside(s)
    ensures Legal(c) && NoAsciiInside(s) ==> NoAsciiInside(c + s)
  {
    var cs := c + s;
    if NoAsciiInside(cs) {
      forall i, j | 0 <= i < j < |c| && c[i] >= 0xC0 && j < i + LeadLength(c[i]) ensures c[j] >= 0x80 {
        assert cs[i] == c[i] && cs[j] == c[j];
      }
      forall i, j | 0 <= i < j < |s| && s[i] >= 0xC0 && j < i + LeadLength(s[i]) ensures s[j] >= 0x80 {
        assert cs[|c| + i] == s[i] && cs[|c| + j] == s[j];
      }
    }
    if Legal(c) && NoAsciiInside(s) {
      forall i, j | 0 <= i < j < |cs| && cs[i] >= 0xC0 && j < i + LeadLength(cs[i]) ensures cs[j] >= 0x80 {
        if i < |c| {
          assert i == 0 && LeadLength(c[0]) == |c|;
        } else {
          assert s[i - |c|] == cs[i] && s[j - |c|] == cs[j];
        }
      }
    }
  }

  /** A string is well-formed exactly when the loop accepts it and no character
      of it has ASCII inside. In particular the loop accepts every well-formed
      string. */
  lemma {:induction false} WellFormedIffLaxWithoutAscii(s: seq<Byte>)
    ensures WellFormed(s) <==> LaxForm(s) && NoAsciiInside(s)
    decreases |s|
  {
    if s != [] {
      var n := LeadLength(s[0]);
      if 0 < n <= |s| {
        var c, rest := s[..n], s[n..];
        assert s == c + rest;
        WellFormedIffLaxWithoutAscii(rest);
        if LaxLegal(c) { NoAsciiSplits(c, rest); }
        LaxButNoAscii(c);
      }
    }
  }

  // ----- on every string

  /** Byte j lies within the length that a lead byte before it announces. */
  predicate Inside(s: seq<Byte>, j: nat)
    requires j < |s|
  {
    exists i :: 0 <= i < j && s[i] >= 0xC0 && j < i + LeadLength(s[i])
  }

  /** The string with 80 in place of the ASCII bytes inside characters. */
  ghost function Raised(s: seq<Byte>): (r: seq<Byte>)
    ensures |r| == |s|
    ensures forall j {:trigger r[j]} :: 0 <= j < |s| ==> r[j] == if Ascii(s[j]) && Inside(s, j) then 0x80 else s[j]
  {
    seq(|s|, j requires 0 <= j < |s| => if Ascii(s[j]) && Inside(s, j) then 0x80 else s[j])
  }

  /** One character: the loop is exact up to ASCII in place of trailing bytes. */
  lemma {:induction false} LaxIfRaisedLegal(c: seq<Byte>)
    requires c != [] && LeadLength(c[0]) == |c|
    ensures LaxLegal(c) <==> Legal(Raised(c))
  {
    var r := Raised(c);
    assert r[0] == c[0];
    forall k | 1 <= k < |c| ensures r[k] == if Ascii(c[k]) then 0x80 else c[k] {
      assert c[0] >= 0xC0 && k < 0 + LeadLength(c[0]);
    }
  }

  lemma {:induction false} InsideFirst(c: seq<Byte>, s: seq<Byte>, j: nat)
    requires j < |c|
    ensures Inside(c + s, j) <==> Inside(c, j)
  {
    var cs := c + s;
    if i :| 0 <= i < j && cs[i] >= 0xC0 && j < i + LeadLength(cs[i]) { assert c[i] == cs[i]; }
    if i :| 0 <= i < j && c[i] >= 0xC0 && j < i + LeadLength(c[i]) { assert c[i] == cs[i]; }
  }

  lemma {:induction false} InsideLater(c: seq<Byte>, s: seq<Byte>, j: nat)
    requires LaxLegal(c) && j < |s|
    ensures Inside(c + s, |c| + j) <==> Inside(s, j)
  {
    var cs := c + s;
    if i :| 0 <= i < |c| + j && cs[i] >= 0xC0 && |c| + j < i + LeadLength(cs[i]) {
      assert LeadLength(c[0]) == |c|;
      assert i >= |c|;
      assert s[i - |c|] == cs[i];
    }
    if i :| 0 <= i < j && s[i] >= 0xC0 && j < i + LeadLength(s[i]) { assert cs[|c| + i] == s[i]; }
  }

  lemma {:induction false} RaisedFirst(c: seq<Byte>, s: seq<Byte>)
    ensures Raised(c + s)[..|c|] == Raised(c)
  {
    forall j | 0 <= j < |c| ensures Raised(c + s)[j] == Raised(c)[j] { InsideFirst(c, s, j); }
  }

  lemma {:induction false} RaisedLater(c: seq<Byte>, s: seq<Byte>)
    requires LaxLegal(c)
    ensures Raised(c + s)[|c|..] == Raised(s)
  {
    forall j | 0 <= j < |s| ensures Raised(c + s)[|c| + j] == Raised(s)[j] { InsideLater(c, s, j); }
  }

  /** What the loop accepts, whatever the string: exactly what becomes well-formed
      when 80 takes the place of every ASCII byte inside a character. */
  lemma {:induction false} LaxIffRaisedWellFormed(s: seq<Byte>)
    ensures LaxForm(s) <==> WellFormed(Raised(s))
    decreases |s|
  {
    if s != [] {
      var n := LeadLength(s[0]);
      assert Raised(s)[0] == s[0];
      if 0 < n <= |s| {
        var c, rest := s[..n], s[n..];
        assert s == c + rest;
        LaxIffRaisedWellFormed(rest);
        LaxIfRaisedLegal(c);
        RaisedFirst(c, rest);
        if LaxLegal(c) { RaisedLater(c, rest); }
      }
    }
  }

  /** The converse fails: C2 41 is accepted and is not well-formed. */
  lemma {:induction false} AcceptsAsciiInside()
    ensures LaxForm([0xC2, 0x41]) && !WellFormed([0xC2, 0x41])
  {
    var s: seq<Byte> := [0xC2, 0x41];
    assert s[..2] == s && s[2..] == [];
  }
}
