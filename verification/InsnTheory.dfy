/** What the decoder promises: it stays inside its window, accounts for every byte it
passes, and looks at nothing beyond the instruction. */
module InsnTheory {
  import opened Bytes
  import opened InsnSpec

  // ---- conservation ----

  lemma EmulateInside(t: Tables, b: seq<byte>, at: nat)
    requires at <= |b|
    ensures at + EmulateSize(t, b, at) <= |b|
  {
  }

  lemma RexAccount(t: Tables, b: seq<byte>, s: Insn)
    requires s.next <= |b| && s.rex.nbytes == 0 && RexPrefix(t, b, s).Ok?
    ensures var r := RexPrefix(t, b, s).value.0;
            && s.next <= r.next <= |b| && r.rex.nbytes == r.next - s.next
            && r == s.(rex := r.rex, opnd := r.opnd, next := r.next)
  {
  }

  lemma VexAccount(b: seq<byte>, s: Insn, a: Attr)
    requires s.next <= |b| && s.vex.nbytes == 0 && VexPrefix(b, s, a).Ok?
    ensures var r := VexPrefix(b, s, a).value;
            && s.next <= r.next <= |b| && r.vex.nbytes == r.next - s.next
            && r == s.(vex := r.vex, opnd := r.opnd, next := r.next)
  {
  }

  lemma RexAndVexAccount(t: Tables, b: seq<byte>, s: Insn)
    requires s.next < |b| && RexAndVex(t, b, s).Ok? && s.rex.nbytes == 0 && s.vex.nbytes == 0
    ensures var r := RexAndVex(t, b, s).value;
            && s.next <= r.next <= |b|
            && r.next - s.next == r.rex.nbytes + r.vex.nbytes
            && r == s.(prefixes := s.prefixes.(got := true), rex := r.rex, vex := r.vex, opnd := r.opnd, next := r.next)
  {
    RexAccount(t, b, s);
    var (s1, skip) := RexPrefix(t, b, s).value;
    if !skip {
      VexAccount(b, s1, t.primary(b[s.next]));
    }
  }

  lemma PrefixesAccount(t: Tables, b: seq<byte>, s: Insn)
    requires s.next <= |b| && Prefixes(t, b, s).Ok?
    requires s.emulate == 0 && s.prefixes.nbytes == 0 && s.rex.nbytes == 0 && s.vex.nbytes == 0
    ensures var r := Prefixes(t, b, s).value;
            && s.next <= r.next <= |b|
            && r.next - s.next == r.emulate + r.prefixes.nbytes + r.rex.nbytes + r.vex.nbytes
            && r == s.(prefixes := r.prefixes, rex := r.rex, vex := r.vex, emulate := r.emulate,
                       addr := r.addr, opnd := r.opnd, next := r.next)
            && r.prefixes.got
  {
    EmulateInside(t, b, s.next);
    var s1 := AfterEmulate(t, b, s);
    RexAndVexAccount(t, b, AfterScan(s1, Legacy(t, b, s.x64, StartScan(s1)).value));
  }

  lemma OpcodeAccount(t: Tables, b: seq<byte>, s: Insn)
    requires t.Valid() && s.next <= |b| && Opcode(t, b, s).Ok?
    ensures var r := Opcode(t, b, s).value;
            && s.next < r.next <= |b|
            && r.opcode.nbytes == r.next - s.next
            && r == s.(opcode := r.opcode, attr := r.attr, opnd := r.opnd, next := r.next)
            && r.opcode.got
  {
  }

  lemma {:induction false} EscapesSecond(t: Tables, b: seq<byte>, s: Insn)
    requires t.Valid() && s.attr.esc <= 3 && (s.attr.esc == 0 || s.opcode.nbytes <= s.attr.esc)
    requires Tables.SecondImmediate(s.attr) && Escapes(t, b, s).Ok?
    ensures Tables.SecondImmediate(Escapes(t, b, s).value.attr)
    decreases if s.attr.esc == 0 then 0 else 4 - s.attr.esc
  {
    if s.attr.esc != 0 {
      EscapesSecond(t, b, EscapeOne(t, s, b[s.next]));
    }
  }

  lemma OpcodeSecond(t: Tables, b: seq<byte>, s: Insn)
    requires t.Valid() && Opcode(t, b, s).Ok?
    ensures Tables.SecondImmediate(Opcode(t, b, s).value.attr)
  {
    var op := b[s.next];
    var s1 := s.(opcode := s.opcode.(bytes := s.opcode.bytes[0 := op], nbytes := 1), next := s.next + 1);
    if !s1.Avx() && s1.rex.nbytes != 2 {
      EscapesSecond(t, b, s1.(attr := LegacyAttr(t, s1, op)));
    }
  }

  lemma ModrmAccount(t: Tables, b: seq<byte>, s: Insn)
    requires t.Valid() && s.next <= |b| && s.modrm.nbytes == 0 && Modrm(t, b, s).Ok?
    ensures var r := Modrm(t, b, s).value;
            && s.next <= r.next <= |b|
            && r.modrm.nbytes == r.next - s.next
            && r == s.(modrm := r.modrm, attr := r.attr, opnd := r.opnd, next := r.next)
            && r.modrm.got
            && (Tables.SecondImmediate(s.attr) ==> Tables.SecondImmediate(r.attr))
  {
  }

  lemma SibAccount(b: seq<byte>, s: Insn)
    requires s.next <= |b| && s.sib.nbytes == 0 && Sib(b, s).Ok?
    ensures var r := Sib(b, s).value;
            && s.next <= r.next <= |b| && r.sib.nbytes == r.next - s.next
            && r == s.(sib := r.sib, next := r.next) && r.sib.got
  {
  }

  lemma DisplacementAccount(b: seq<byte>, s: Insn)
    requires s.next <= |b| && s.disp.nbytes == 0 && Displacement(b, s).Ok?
    ensures var r := Displacement(b, s).value;
            && s.next <= r.next <= |b| && r.disp.nbytes == r.next - s.next
            && r == s.(disp := r.disp, next := r.next) && r.disp.got
  {
  }

  /** Both immediate slots are shared by several layouts; a second immediate never overwrites
      a slot that already holds instruction bytes. */
  lemma ImmediateAccount(b: seq<byte>, s: Insn)
    requires s.next <= |b| && s.imm1.nbytes == 0 && s.imm2.nbytes == 0 && Immediate(b, s).Ok?
    requires Tables.SecondImmediate(s.attr)
    ensures var r := Immediate(b, s).value;
            && s.next <= r.next <= |b| && r.imm1.nbytes + r.imm2.nbytes == r.next - s.next
            && r == s.(imm1 := r.imm1, imm2 := r.imm2, next := r.next) && r.imm1.got
  {
  }

  /** The states a successful decode passes through. */
  datatype Trail = Trail(s1: Insn, s2: Insn, s3: Insn, s4: Insn, s5: Insn, s6: Insn) {
    ghost predicate Follows(t: Tables, b: seq<byte>, s0: Insn)
      requires t.Valid()
    {
      && Prefixes(t, b, s0) == Ok(s1)
      && Opcode(t, b, s1) == Ok(s2)
      && Modrm(t, b, s2) == Ok(s3)
      && Sib(b, s3) == Ok(s4)
      && Displacement(b, s4) == Ok(s5)
      && Immediate(b, s5) == Ok(s6)
    }
  }

  lemma TrailAccounts(t: Tables, b: seq<byte>, x64: bool, tr: Trail)
    requires t.Valid() && tr.Follows(t, b, Init(x64))
    ensures tr.s1.next < tr.s2.next <= tr.s3.next <= tr.s4.next <= tr.s5.next <= tr.s6.next <= |b|
    ensures tr.s6.next == tr.s6.Accounted()
    ensures tr.s1.prefixes.got && IsComplete(tr.s6) && tr.s6.length == 0
    ensures tr.s6.emulate == tr.s1.emulate
  {
    PrefixesAccount(t, b, Init(x64));
    OpcodeAccount(t, b, tr.s1);
    OpcodeSecond(t, b, tr.s1);
    ModrmAccount(t, b, tr.s2);
    SibAccount(b, tr.s3);
    DisplacementAccount(b, tr.s4);
    ImmediateAccount(b, tr.s5);
  }

  // Each stage that has not run yet is its body after the stage before it.

  lemma OpcodeUnfolds(t: Tables, b: seq<byte>, s: Insn)
    requires t.Valid() && !s.opcode.got && !s.prefixes.got
    ensures GetOpcode(t, b, s) == if Prefixes(t, b, s).Ok? then Opcode(t, b, Prefixes(t, b, s).value)
                                  else Error(Prefixes(t, b, s).code)
  {
  }

  lemma ModrmUnfolds(t: Tables, b: seq<byte>, s: Insn)
    requires t.Valid() && !s.modrm.got
    ensures GetModrm(t, b, s) == if GetOpcode(t, b, s).Ok? then Modrm(t, b, GetOpcode(t, b, s).value)
                                 else Error(GetOpcode(t, b, s).code)
  {
  }

  lemma SibUnfolds(t: Tables, b: seq<byte>, s: Insn)
    requires t.Valid() && !s.sib.got
    ensures GetSib(t, b, s) == if GetModrm(t, b, s).Ok? then Sib(b, GetModrm(t, b, s).value)
                               else Error(GetModrm(t, b, s).code)
  {
  }

  lemma DisplacementUnfolds(t: Tables, b: seq<byte>, s: Insn)
    requires t.Valid() && !s.disp.got
    ensures GetDisplacement(t, b, s) == if GetSib(t, b, s).Ok? then Displacement(b, GetSib(t, b, s).value)
                                        else Error(GetSib(t, b, s).code)
  {
  }

  lemma ImmediateUnfolds(t: Tables, b: seq<byte>, s: Insn)
    requires t.Valid() && !s.imm1.got
    ensures GetImmediate(t, b, s) == if GetDisplacement(t, b, s).Ok? then Immediate(b, GetDisplacement(t, b, s).value)
                                     else Error(GetDisplacement(t, b, s).code)
  {
  }

  lemma DecodeUnfolds(t: Tables, buf: seq<byte>, x64: bool)
    requires t.Valid()
    ensures Decode(t, buf, x64) == IfComplete(SetLength(GetImmediate(t, Window(buf), Init(x64))))
  {
  }

  /** The outcomes of the stages, each from the one before it. */
  datatype Outcomes = Outcomes(r1: Outcome<Insn>, r2: Outcome<Insn>, r3: Outcome<Insn>, r4: Outcome<Insn>,
                               r5: Outcome<Insn>, r6: Outcome<Insn>)
  {
    ghost predicate Chained(t: Tables, b: seq<byte>, s: Insn)
      requires t.Valid()
    {
      && r1 == Prefixes(t, b, s)
      && r2 == (if r1.Ok? then Opcode(t, b, r1.value) else Error(r1.code))
      && r3 == (if r2.Ok? then Modrm(t, b, r2.value) else Error(r2.code))
      && r4 == (if r3.Ok? then Sib(b, r3.value) else Error(r3.code))
      && r5 == (if r4.Ok? then Displacement(b, r4.value) else Error(r4.code))
      && r6 == (if r5.Ok? then Immediate(b, r5.value) else Error(r5.code))
    }
  }

  lemma StagesChain(t: Tables, b: seq<byte>, x64: bool) returns (o: Outcomes)
    requires t.Valid()
    ensures o.Chained(t, b, Init(x64)) && o.r6 == GetImmediate(t, b, Init(x64))
  {
    var s := Init(x64);
    o := Outcomes(Prefixes(t, b, s), GetOpcode(t, b, s), GetModrm(t, b, s), GetSib(t, b, s),
                  GetDisplacement(t, b, s), GetImmediate(t, b, s));
    OpcodeUnfolds(t, b, s);
    ModrmUnfolds(t, b, s);
    SibUnfolds(t, b, s);
    DisplacementUnfolds(t, b, s);
    ImmediateUnfolds(t, b, s);
  }

  lemma ChainedTrail(t: Tables, b: seq<byte>, x64: bool, o: Outcomes) returns (tr: Trail)
    requires t.Valid() && o.Chained(t, b, Init(x64)) && o.r6.Ok?
    ensures tr.Follows(t, b, Init(x64)) && o.r6 == Ok(tr.s6)
  {
    tr := Trail(o.r1.value, o.r2.value, o.r3.value, o.r4.value, o.r5.value, o.r6.value);
  }

  lemma TrailChained(t: Tables, b: seq<byte>, x64: bool, tr: Trail, o: Outcomes)
    requires t.Valid() && tr.Follows(t, b, Init(x64)) && o.Chained(t, b, Init(x64))
    ensures o.r6 == Ok(tr.s6)
  {
  }

  lemma TrailFinishes(t: Tables, b: seq<byte>, x64: bool, tr: Trail, r: Outcome<Insn>)
    requires t.Valid() && |b| <= MAX_INSN_SIZE && tr.Follows(t, b, Init(x64)) && r == Ok(tr.s6)
    ensures IfComplete(SetLength(r)) == Ok(tr.s6.(length := tr.s6.next))
  {
    TrailAccounts(t, b, x64, tr);
    CompleteFinishes(tr.s6);
  }

  lemma CompleteFinishes(s: Insn)
    requires IsComplete(s) && s.next < 256
    ensures IfComplete(SetLength(Ok(s))) == Ok(s.(length := s.next))
  {
  }

  /** Decoding succeeds exactly when a trail exists, and yields its last state. */
  lemma DecodeTrail(t: Tables, buf: seq<byte>, x64: bool) returns (tr: Trail)
    requires t.Valid() && Decode(t, buf, x64).Ok?
    ensures tr.Follows(t, Window(buf), Init(x64))
    ensures Decode(t, buf, x64) == Ok(tr.s6.(length := tr.s6.next))
  {
    DecodeUnfolds(t, buf, x64);
    var o := StagesChain(t, Window(buf), x64);
    tr := ChainedTrail(t, Window(buf), x64, o);
    TrailFinishes(t, Window(buf), x64, tr, o.r6);
  }

  lemma TrailDecodes(t: Tables, buf: seq<byte>, x64: bool, tr: Trail)
    requires t.Valid() && tr.Follows(t, Window(buf), Init(x64))
    ensures Decode(t, buf, x64) == Ok(tr.s6.(length := tr.s6.next))
  {
    DecodeUnfolds(t, buf, x64);
    var o := StagesChain(t, Window(buf), x64);
    TrailChained(t, Window(buf), x64, tr, o);
    TrailFinishes(t, Window(buf), x64, tr, o.r6);
  }

  /** Conservation: the length of a decoded instruction is at most fifteen, lies inside the
      buffer, and is the sum of what its fields account for. */
  lemma LengthIsConserved(t: Tables, buf: seq<byte>, x64: bool)
    requires t.Valid() && Decode(t, buf, x64).Ok?
    ensures var s := Decode(t, buf, x64).value;
            && 0 < s.length <= MAX_INSN_SIZE && s.length <= |buf|
            && s.length == s.next == s.Accounted()
  {
    var tr := DecodeTrail(t, buf, x64);
    TrailAccounts(t, Window(buf), x64, tr);
  }
}
