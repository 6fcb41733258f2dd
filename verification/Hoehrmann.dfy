/** The table-driven machine of benchmarks/hoehrmann.h: its single steps, which
    update a state and a code point in place, and the validating loops. */
module Hoehrmann {
  import opened Utf8
  import opened Automaton
  import opened Bits
  import opened HoehrmannTables

  const SHIFTLESS_REJECT := 16

  // ----- bit operations of the decoder

  /** What is left of a lead byte under the mask 0xff >> kind. */
  function LeadPayload(kind: nat, byte: Byte): (bits: Byte)
    ensures bits <= byte
  {
    if kind >= 8 then 0
    else
      LowMask(8 - kind, byte);
      byte % Pow2(8 - kind)
  }

  lemma {:induction false} Pow2Grows(j: nat, k: nat)
    requires j <= k
    ensures Pow2(j) <= Pow2(k)
  {
    if j < k { Pow2Grows(j, k - 1); }
  }

  /** 0xff >> kind is a run of ones, or nothing. */
  lemma {:induction false} ShiftedOnes(kind: nat)
    ensures 0xFF / Pow2(kind) == if kind >= 8 then 0 else Pow2(8 - kind) - 1
  {
    Pow2Values();
    if kind >= 8 {
      Pow2Grows(8, kind);
    } else {
      match kind
      case 0 =>
      case 1 =>
      case 2 =>
      case 3 =>
      case 4 =>
      case 5 =>
      case 6 =>
      case 7 =>
    }
  }

  /** (0xff >> kind) & byte */
  method MaskLead(kind: nat, byte: Byte) returns (bits: Byte)
    ensures bits == LeadPayload(kind, byte)
  {
    ShiftedOnes(kind);
    if kind < 8 { LowMask(8 - kind, byte); }
    bits := And(0xFF / Pow2(kind), byte);
  }

  /** byte & 0x3f */
  method MaskTrail(byte: Byte) returns (bits: Byte)
    ensures bits == byte % 0x40
  {
    Pow2Values();
    LowMask(6, byte);
    bits := And(0x3F, byte);
  }

  /** bits | (codep << 6), in 32 bits */
  method AppendBits(bits: nat, codep: nat) returns (next: nat)
    requires bits < 0x40
    ensures next == bits + codep % 0x400_0000 * 0x40
  {
    var shifted := codep * 0x40 % 0x1_0000_0000;
    RemainderUnique(codep * 0x40, 0x1_0000_0000, codep / 0x400_0000, 0x40 * (codep % 0x400_0000));
    Pow2Values();
    OrDisjoint(6, bits, codep % 0x400_0000);
    next := Or(bits, shifted);
  }

  /** The 32-bit code point after reading `byte` in state `q`: six more bits on
      top of what survives the shift, or the payload of a lead byte. */
  function NextCodePoint(q: State, codep: nat, byte: Byte): (cp: nat)
    ensures cp < 0x1_0000_0000
  {
    if q != ACCEPT then byte % 0x40 + codep % 0x400_0000 * 0x40 else LeadPayload(Class(byte), byte)
  }

  // ----- single steps

  class Dfa {
    var state: nat
    var codep: nat

    ghost predicate Valid() reads this { state <= 8 && codep < 0x1_0000_0000 }

    ghost function Current(): State
      requires Valid()
      reads this
    {
      state
    }

    constructor ()
      ensures Valid() && Current() == ACCEPT
    {
      state, codep := 0, 0;
    }

    method UpdateState(byte: Byte) returns (next: nat)
      requires Valid()
      modifies this`state
      ensures Valid() && state == next && Current() == Next(old(Current()), byte)
    {
      var kind := ReadClass(byte);
      state := ReadTransition(16 * state + kind, state, byte);
      next := state;
    }

    method Decode(byte: Byte) returns (next: nat)
      requires Valid()
      modifies this
      ensures Valid() && state == next && Current() == Next(old(Current()), byte)
      ensures codep == NextCodePoint(old(Current()), old(codep), byte)
    {
      var kind := ReadClass(byte);
      if state != ACCEPT {
        var trail := MaskTrail(byte);
        codep := AppendBits(trail, codep);
      } else {
        codep := MaskLead(kind, byte);
      }
      state := ReadTransition(16 * state + kind, state, byte);
      next := state;
    }
  }

  /** The same machine with every state held multiplied by sixteen. */
  class ShiftlessDfa {
    var state: nat
    var codep: nat

    ghost predicate Valid() reads this {
      state % 16 == 0 && state <= 128 && codep < 0x1_0000_0000
    }

    ghost function Current(): State
      requires Valid()
      reads this
    {
      state / 16
    }

    constructor ()
      ensures Valid() && Current() == ACCEPT
    {
      state, codep := 0, 0;
    }

    method UpdateState(byte: Byte) returns (next: nat)
      requires Valid()
      modifies this`state
      ensures Valid() && state == next && Current() == Next(old(Current()), byte)
    {
      var kind := ReadClass(byte);
      state := ReadShiftedTransition(state + kind, state / 16, byte);
      next := state;
    }

    method Decode(byte: Byte) returns (next: nat)
      requires Valid()
      modifies this
      ensures Valid() && state == next && Current() == Next(old(Current()), byte)
      ensures codep == NextCodePoint(old(Current()), old(codep), byte)
    {
      var kind := ReadClass(byte);
      if state != ACCEPT {
        var trail := MaskTrail(byte);
        codep := AppendBits(trail, codep);
      } else {
        codep := MaskLead(kind, byte);
      }
      state := ReadShiftedTransition(state + kind, state / 16, byte);
      next := state;
    }
  }

  // ----- the validating loops

  lemma {:induction false} RejectedPrefix(s: seq<Byte>, i: nat)
    requires i <= |s| && Run(0, s[..i]) == REJECT
    ensures Run(0, s) == REJECT
  {
    assert s == s[..i] + s[i..];
    RunConcat(0, s[..i], s[i..]);
    RejectAbsorbs(s[i..]);
  }

  method ValidateBranchless(c: array<Byte>) returns (ok: bool)
    ensures ok <==> Viable(c[..])
  {
    var dfa := new Dfa();
    for i := 0 to c.Length
      invariant fresh(dfa) && dfa.Valid() && dfa.Current() == Run(0, c[..i])
    {
      var _ := dfa.UpdateState(c[i]);
      assert c[..i + 1][..i] == c[..i];
    }
    assert c[..] == c[..c.Length];
    NotRejectedIffViable(c[..]);
    ok := dfa.state != REJECT;
  }

  method ValidateBranchlessShiftless(c: array<Byte>) returns (ok: bool)
    ensures ok <==> Viable(c[..])
  {
    var dfa := new ShiftlessDfa();
    for i := 0 to c.Length
      invariant fresh(dfa) && dfa.Valid() && dfa.Current() == Run(0, c[..i])
    {
      var _ := dfa.UpdateState(c[i]);
      assert c[..i + 1][..i] == c[..i];
    }
    assert c[..] == c[..c.Length];
    NotRejectedIffViable(c[..]);
    ok := dfa.state != SHIFTLESS_REJECT;
  }

  method Validate(c: array<Byte>) returns (ok: bool)
    ensures ok <==> Viable(c[..])
  {
    NotRejectedIffViable(c[..]);
    var dfa := new Dfa();
    for i := 0 to c.Length
      invariant fresh(dfa) && dfa.Valid() && dfa.Current() == Run(0, c[..i]) != REJECT
    {
      var next := dfa.UpdateState(c[i]);
      assert c[..i + 1][..i] == c[..i];
      if next == REJECT {
        assert c[..][..i + 1] == c[..i + 1];
        RejectedPrefix(c[..], i + 1);
        return false;
      }
    }
    assert c[..] == c[..c.Length];
    ok := true;
  }

  method ValidateShiftless(c: array<Byte>) returns (ok: bool)
    ensures ok <==> Viable(c[..])
  {
    NotRejectedIffViable(c[..]);
    var dfa := new ShiftlessDfa();
    for i := 0 to c.Length
      invariant fresh(dfa) && dfa.Valid() && dfa.Current() == Run(0, c[..i]) != REJECT
    {
      var next := dfa.UpdateState(c[i]);
      assert c[..i + 1][..i] == c[..i];
      if next == SHIFTLESS_REJECT {
        assert c[..][..i + 1] == c[..i + 1];
        RejectedPrefix(c[..], i + 1);
        return false;
      }
    }
    assert c[..] == c[..c.Length];
    ok := true;
  }
}
