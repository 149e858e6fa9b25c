/** Locality of the decoder: what it reports about an instruction depends on the bytes of that
instruction alone, apart from the look-ahead for an emulate prefix. */
module InsnLocality {
  import opened Bytes
  import opened InsnSpec
  import opened InsnTheory

  ghost predicate Agree(a: seq<byte>, b: seq<byte>, n: nat) {
    n <= |a| && n <= |b| && forall i :: 0 <= i < n ==> a[i] == b[i]
  }

  lemma {:induction false} LegacyLocal(t: Tables, a: seq<byte>, b: seq<byte>, x64: bool, c: Scan)
    requires c.nb <= 4 && Legacy(t, a, x64, c).Ok?
    requires Agree(a, b, Legacy(t, a, x64, c).value.next + 1)
    ensures Legacy(t, b, x64, c) == Legacy(t, a, x64, c)
    decreases |a| - c.next
  {
    assert a[c.next] == b[c.next];
    if !ScanStops(t, c, a[c.next]) {
      LegacyLocal(t, a, b, x64, ScanOne(t, x64, c, a[c.next]));
    }
  }

  lemma RexLocal(t: Tables, a: seq<byte>, b: seq<byte>, s: Insn)
    requires RexPrefix(t, a, s).Ok? && Agree(a, b, s.next + 1) && Agree(a, b, RexPrefix(t, a, s).value.0.next)
    ensures RexPrefix(t, b, s) == RexPrefix(t, a, s)
  {
  }

  lemma VexLocal(a: seq<byte>, b: seq<byte>, s: Insn, attr: Attr)
    requires VexPrefix(a, s, attr).Ok? && Agree(a, b, s.next + 1) && Agree(a, b, VexPrefix(a, s, attr).value.next)
    requires attr.Vex() || attr.Xop() ==> Agree(a, b, s.next + 2)
    ensures VexPrefix(b, s, attr) == VexPrefix(a, s, attr)
  {
  }

  /** The prefix stage has looked one byte past what it consumed, or two when it found a VEX
      or XOP byte that is an opcode after all. */
  predicate LookedTwoAhead(t: Tables, b: seq<byte>, r: Insn)
    requires r.next < |b|
  {
    r.vex == BLANK.(got := true) && r.rex.nbytes != 2 && (t.primary(b[r.next]).Vex() || t.primary(b[r.next]).Xop())
  }

  lemma RexAndVexLocal(t: Tables, a: seq<byte>, b: seq<byte>, s: Insn)
    requires s.next < |a| && RexAndVex(t, a, s).Ok? && s.rex == BLANK && s.vex == BLANK
    requires Agree(a, b, s.next + 1) && Agree(a, b, RexAndVex(t, a, s).value.next + 1)
    requires LookedTwoAhead(t, a, RexAndVex(t, a, s).value) ==> Agree(a, b, RexAndVex(t, a, s).value.next + 2)
    ensures RexAndVex(t, b, s) == RexAndVex(t, a, s)
  {
    RexAccount(t, a, s);
    var (s1, skip) := RexPrefix(t, a, s).value;
    if !skip {
      VexAccount(a, s1, t.primary(a[s.next]));
    }
    RexLocal(t, a, b, s);
    if !skip {
      VexLocal(a, b, s1, t.primary(a[s.next]));
    }
  }

  lemma PrefixesLocal(t: Tables, a: seq<byte>, b: seq<byte>, s: Insn)
    requires Prefixes(t, a, s).Ok? && s.next <= |a| && s.rex == BLANK && s.vex == BLANK
    requires EmulateSize(t, b, s.next) == EmulateSize(t, a, s.next)
    requires Agree(a, b, Prefixes(t, a, s).value.next + 1)
    requires LookedTwoAhead(t, a, Prefixes(t, a, s).value) ==> Agree(a, b, Prefixes(t, a, s).value.next + 2)
    ensures Prefixes(t, b, s) == Prefixes(t, a, s)
  {
    var s1 := AfterEmulate(t, a, s);
    var c := Legacy(t, a, s.x64, StartScan(s1)).value;
    RexAndVexAccount(t, a, AfterScan(s1, c));
    LegacyLocal(t, a, b, s.x64, StartScan(s1));
    RexAndVexLocal(t, a, b, AfterScan(s1, c));
    SamePrefixes(t, a, b, s, s1, c);
  }

  lemma SamePrefixes(t: Tables, a: seq<byte>, b: seq<byte>, s: Insn, s1: Insn, c: Scan)
    requires AfterEmulate(t, a, s) == AfterEmulate(t, b, s) == s1 && c.nb <= 4
    requires Legacy(t, a, s.x64, StartScan(s1)) == Legacy(t, b, s.x64, StartScan(s1)) == Ok(c)
    requires AfterScan(s1, c).next < |a| && AfterScan(s1, c).next < |b|
    requires RexAndVex(t, a, AfterScan(s1, c)) == RexAndVex(t, b, AfterScan(s1, c))
    ensures Prefixes(t, a, s) == Prefixes(t, b, s)
  {
  }

  lemma {:induction false} EscapesLocal(t: Tables, a: seq<byte>, b: seq<byte>, s: Insn)
    requires t.Valid() && s.attr.esc <= 3 && (s.attr.esc == 0 || s.opcode.nbytes <= s.attr.esc)
    requires Escapes(t, a, s).Ok? && Agree(a, b, Escapes(t, a, s).value.next)
    ensures Escapes(t, b, s) == Escapes(t, a, s)
    decreases if s.attr.esc == 0 then 0 else 4 - s.attr.esc
  {
    if s.attr.esc != 0 {
      EscapesLocal(t, a, b, EscapeOne(t, s, a[s.next]));
    }
  }

  lemma OpcodeLocal(t: Tables, a: seq<byte>, b: seq<byte>, s: Insn)
    requires t.Valid() && Opcode(t, a, s).Ok? && Agree(a, b, Opcode(t, a, s).value.next)
    ensures Opcode(t, b, s) == Opcode(t, a, s)
  {
    var op := a[s.next];
    var s1 := s.(opcode := s.opcode.(bytes := s.opcode.bytes[0 := op], nbytes := 1), next := s.next + 1);
    if !s1.Avx() && s1.rex.nbytes != 2 {
      EscapesLocal(t, a, b, s1.(attr := LegacyAttr(t, s1, op)));
    }
  }

  lemma ModrmLocal(t: Tables, a: seq<byte>, b: seq<byte>, s: Insn)
    requires Modrm(t, a, s).Ok? && Agree(a, b, Modrm(t, a, s).value.next)
    ensures Modrm(t, b, s) == Modrm(t, a, s)
  {
  }

  lemma SibLocal(a: seq<byte>, b: seq<byte>, s: Insn)
    requires Sib(a, s).Ok? && Agree(a, b, Sib(a, s).value.next)
    ensures Sib(b, s) == Sib(a, s)
  {
  }

  lemma DisplacementLocal(a: seq<byte>, b: seq<byte>, s: Insn)
    requires Displacement(a, s).Ok? && Agree(a, b, Displacement(a, s).value.next)
    ensures Displacement(b, s) == Displacement(a, s)
  {
  }

  lemma TakeLocal(a: seq<byte>, b: seq<byte>, f: Field, at: nat, n: nat, signed: bool)
    requires n in {1, 2, 4} && Take(a, f, at, n, signed).Ok? && Agree(a, b, at + n)
    ensures Take(b, f, at, n, signed) == Take(a, f, at, n, signed)
  {
  }

  lemma TakeSlotsLocal(a: seq<byte>, b: seq<byte>, s: Insn, l: Layout)
    requires l.Slots? && l.first in {1, 2, 4} && l.second in {0, 2, 4}
    requires TakeSlots(a, s, l).Ok? && Agree(a, b, TakeSlots(a, s, l).value.next)
    ensures TakeSlots(b, s, l) == TakeSlots(a, s, l)
    ensures TakeSlots(a, s, l).value.next == s.next + l.first + l.second
  {
  }

  lemma ImmediateParts(a: seq<byte>, s: Insn, l: Layout) returns (s1: Insn)
    requires Immediate(a, s).Ok? && l == LayoutOf(s) && l.Slots?
    ensures l.first in {1, 2, 4} && l.second in {0, 2, 4}
    ensures TakeSlots(a, s, l) == Ok(s1) && SecondByte(a, s1).Ok?
    ensures s1.next <= SecondByte(a, s1).value.next == Immediate(a, s).value.next
  {
    s1 := TakeSlots(a, s, l).value;
  }

  lemma ImmediateLocal(a: seq<byte>, b: seq<byte>, s: Insn)
    requires Immediate(a, s).Ok? && Agree(a, b, Immediate(a, s).value.next)
    ensures Immediate(b, s) == Immediate(a, s)
  {
    var l := LayoutOf(s);
    if l.Slots? {
      var s1 := ImmediateParts(a, s, l);
      TakeSlotsLocal(a, b, s, l);
      SecondByteLocal(a, b, s1);
    }
  }

  lemma SecondByteLocal(a: seq<byte>, b: seq<byte>, s: Insn)
    requires SecondByte(a, s).Ok? && Agree(a, b, SecondByte(a, s).value.next)
    ensures SecondByte(b, s) == SecondByte(a, s)
  {
    if !s.attr.moffset && s.attr.scnd {
      TakeLocal(a, b, s.imm2, s.next, 1, true);
    }
  }

  /** When the prefix stage looked two bytes ahead, both bytes belong to the instruction: an
      opcode and its ModRM byte. */
  lemma LookAheadIsConsumed(t: Tables, b: seq<byte>, s1: Insn, s2: Insn, s3: Insn)
    requires t.Valid() && Opcode(t, b, s1) == Ok(s2) && Modrm(t, b, s2) == Ok(s3)
    requires LookedTwoAhead(t, b, s1)
    ensures s1.next + 2 <= s3.next
  {
  }

  lemma TrailLocal(t: Tables, a: seq<byte>, b: seq<byte>, x64: bool, tr: Trail)
    requires t.Valid() && tr.Follows(t, a, Init(x64)) && Agree(a, b, tr.s6.next)
    requires EmulateSize(t, b, 0) == EmulateSize(t, a, 0)
    ensures tr.Follows(t, b, Init(x64))
  {
    TrailAccounts(t, a, x64, tr);
    if LookedTwoAhead(t, a, tr.s1) {
      LookAheadIsConsumed(t, a, tr.s1, tr.s2, tr.s3);
    }
    PrefixesLocal(t, a, b, Init(x64));
    OpcodeLocal(t, a, b, tr.s1);
    ModrmLocal(t, a, b, tr.s2);
    SibLocal(a, b, tr.s3);
    DisplacementLocal(a, b, tr.s4);
    ImmediateLocal(a, b, tr.s5);
  }

  /** Whatever follows an instruction: the decoder gives the same answer, field by field,
      exactly when the same emulate prefix (or none) is seen in front. */
  lemma DecodeIsLocal(t: Tables, a: seq<byte>, b: seq<byte>, x64: bool)
    requires t.Valid() && Decode(t, a, x64).Ok? && Agree(a, b, Decode(t, a, x64).value.length)
    ensures Decode(t, b, x64) == Decode(t, a, x64) <==> EmulateSize(t, Window(b), 0) == EmulateSize(t, Window(a), 0)
  {
    var tr := DecodeTrail(t, a, x64);
    TrailAccounts(t, Window(a), x64, tr);
    EmulateRecorded(t, Window(a), x64, tr.s1);
    if EmulateSize(t, Window(b), 0) == EmulateSize(t, Window(a), 0) {
      TrailLocal(t, Window(a), Window(b), x64, tr);
      TrailDecodes(t, b, x64, tr);
    }
    if Decode(t, b, x64) == Decode(t, a, x64) {
      var tb := DecodeTrail(t, b, x64);
      TrailAccounts(t, Window(b), x64, tb);
      EmulateRecorded(t, Window(b), x64, tb.s1);
    }
  }

  lemma EmulateRecorded(t: Tables, b: seq<byte>, x64: bool, s1: Insn)
    requires Prefixes(t, b, Init(x64)) == Ok(s1)
    ensures s1.emulate == EmulateSize(t, b, 0)
  {
  }

  /** Without emulate prefixes no instruction is a proper prefix of another. */
  lemma InstructionsArePrefixFree(t: Tables, a: seq<byte>, b: seq<byte>, x64: bool)
    requires t.Valid() && a <= b
    requires Decode(t, a, x64).Ok? && Decode(t, a, x64).value.length == |a|
    requires Decode(t, b, x64).Ok? && Decode(t, b, x64).value.length == |b|
    requires EmulateSize(t, b, 0) == EmulateSize(t, a, 0)
    ensures a == b
  {
    LengthIsConserved(t, a, x64);
    LengthIsConserved(t, b, x64);
    DecodeIsLocal(t, a, b, x64);
  }
}
