/** The x86 instruction decoder as a function of the bytes (kernel/trace/arch/x86/lib/insn.c).

The opcode tables are a parameter: functions from opcode bytes to attributes, about which
only a few facts are assumed. */
module InsnSpec {
  import opened Bytes
  import opened Linux

  const MAX_INSN_SIZE: nat := 15

  /** An opcode attribute word, field by field (inat.h). */
  datatype Attr = Attr(pfx: nat, esc: nat, grp: nat, imm: nat, modrm: bool, force64: bool, scnd: bool,
                       moffset: bool, vexok: bool, vexonly: bool, evexonly: bool, scalable: bool, inv64: bool)
  {
    predicate LegacyPrefix() { 0 < pfx <= 11 }
    predicate AddressSize() { pfx == 11 }
    predicate OperandSize() { pfx == 1 }
    predicate Rex() { pfx == 12 }
    predicate Rex2() { pfx == 16 }
    predicate Vex3() { pfx == 14 }
    predicate Evex() { pfx == 15 }
    predicate Xop() { pfx == 17 }
    predicate Vex() { 13 <= pfx <= 15 }
    predicate MustVex() { vexonly || evexonly }
    /** `attr & INAT_INV64` */
    function OnlyInv64(): Attr {
      Attr(0, 0, 0, 0, false, false, false, false, false, false, false, false, inv64)
    }
  }

  const NO_ATTR: Attr := Attr(0, 0, 0, 0, false, false, false, false, false, false, false, false, false)

  const IMM_BYTE: nat := 1
  const IMM_WORD: nat := 2
  const IMM_DWORD: nat := 3
  const IMM_QWORD: nat := 4
  const IMM_PTR: nat := 5
  const IMM_VWORD32: nat := 6
  const IMM_VWORD: nat := 7

  datatype Tables = Tables(
    primary: byte -> Attr,
    escape: (byte, nat, Attr) -> Attr,
    group: (byte, nat, Attr) -> Attr,
    avx: (byte, nat, nat) -> Attr,
    xop: (byte, nat) -> Attr,
    xen: seq<byte>,
    kvm: seq<byte>)
  {
    /** A second immediate comes with a first one of two bytes, outside groups (only ENTER has it). */
    static predicate SecondImmediate(a: Attr) {
      a.scnd ==> a.imm == IMM_WORD && !a.moffset && a.grp == 0
    }

    /** What the decoder relies on in its tables. */
    ghost predicate Valid() {
      && (forall b :: primary(b).esc <= 3 && SecondImmediate(primary(b)))
      && (forall b, id, a :: !escape(b, id, a).scnd)
      && (forall b, id, a :: escape(b, id, a).esc == 0 || a.esc < escape(b, id, a).esc <= 3)
      && (forall b, id, a :: group(b, id, a).scnd ==> a.scnd)
      && (forall b, m, p :: !avx(b, m, p).scnd)
      && (forall b, m :: !xop(b, m).scnd)
      && (forall b :: primary(b).Vex() || primary(b).Xop() ==>
            primary(b).modrm && primary(b).esc == 0 && !primary(b).inv64)
      && xen != [] && kvm != []
    }

    function LastPrefixId(b: byte): nat {
      var p := primary(b).pfx;
      if p > 3 then 0 else p
    }
  }

  type Four = w: seq<byte> | |w| == 4 witness [0, 0, 0, 0]

  /** A decoded field: four bytes (a little-endian value), how many instruction bytes it came
      from, and whether it has been decoded. */
  datatype Field = Field(bytes: Four, nbytes: nat, got: bool) {
    predicate IsZero() {
      bytes == [0, 0, 0, 0]
    }
  }

  const BLANK: Field := Field([0, 0, 0, 0], 0, false)

  datatype Insn = Insn(prefixes: Field, rex: Field, vex: Field, opcode: Field, modrm: Field, sib: Field,
                       disp: Field, imm1: Field, imm2: Field, emulate: nat, attr: Attr, opnd: nat, addr: nat,
                       length: nat, x64: bool, next: nat)
  {
    predicate Avx() { !vex.IsZero() }

    /** Every instruction byte belongs to exactly one field. */
    function Accounted(): nat {
      emulate + prefixes.nbytes + rex.nbytes + vex.nbytes + opcode.nbytes + modrm.nbytes + sib.nbytes
      + disp.nbytes + imm1.nbytes + imm2.nbytes
    }
  }

  datatype Outcome<+T> = Ok(value: T) | Error(code: int) {
    predicate IsFailure() { Error? }
    function PropagateFailure<U>(): Outcome<U> requires Error? { Error(code) }
    function Extract(): T requires Ok? { value }
  }

  function Mod(modrm: byte): nat { modrm / 64 }
  function Reg(modrm: byte): nat { modrm / 8 % 8 }
  function Rm(modrm: byte): nat { modrm % 8 }

  function Init(x64: bool): Insn {
    Insn(BLANK, BLANK, BLANK, BLANK, BLANK, BLANK, BLANK, BLANK, BLANK, 0, NO_ATTR, 4, if x64 then 8 else 4, 0, x64, 0)
  }

  /** The four bytes of an `n`-byte value read at `at`: sign-extended, or not. */
  function Widen(b: seq<byte>, at: nat, n: nat, signed: bool): Four
    requires n in {1, 2, 4} && at + n <= |b|
  {
    var s: byte := if signed && b[at + n - 1] >= 128 then 255 else 0;
    if n == 1 then [b[at], s, s, s]
    else if n == 2 then [b[at], b[at + 1], s, s]
    else [b[at], b[at + 1], b[at + 2], b[at + 3]]
  }

  /** insn_field_set(f, get_next(...), n) */
  function Take(b: seq<byte>, f: Field, at: nat, n: nat, signed: bool): Outcome<Field>
    requires n in {1, 2, 4}
  {
    if at + n <= |b| then Ok(f.(bytes := Widen(b, at, n, signed), nbytes := n)) else Error(ENODATA)
  }

  // ---- prefixes ----

  predicate StartsWith(b: seq<byte>, at: nat, p: seq<byte>) {
    at + |p| <= |b| && b[at..at + |p|] == p
  }

  function EmulateSize(t: Tables, b: seq<byte>, at: nat): nat {
    if StartsWith(b, at, t.xen) then |t.xen|
    else if StartsWith(b, at, t.kvm) then |t.kvm|
    else 0
  }

  /** The scan for legacy prefixes: the distinct ones seen so far, and the last one. */
  datatype Scan = Scan(bytes: Four, nb: nat, nbytes: nat, addr: nat, opnd: nat, next: nat, last: byte)

  function ToggleAddr(addr: nat, x64: bool): nat {
    if x64 then (if addr == 8 then 4 else 8) else (if addr == 4 then 2 else 4)
  }

  function ToggleOpnd(opnd: nat): nat {
    if opnd == 4 then 2 else 4
  }

  function ScanOne(t: Tables, x64: bool, c: Scan, b: byte): Scan
    requires c.nb <= 4 && (b in c.bytes[..c.nb] || c.nb < 4)
  {
    if b in c.bytes[..c.nb] then
      c.(nbytes := c.nbytes + 1, next := c.next + 1, last := b)
    else
      Scan(c.bytes[c.nb := b], c.nb + 1, c.nbytes + 1,
           if t.primary(b).AddressSize() then ToggleAddr(c.addr, x64) else c.addr,
           if t.primary(b).OperandSize() && !t.primary(b).AddressSize() then ToggleOpnd(c.opnd) else c.opnd,
           c.next + 1, b)
  }

  predicate ScanStops(t: Tables, c: Scan, b: byte)
    requires c.nb <= 4
  {
    !t.primary(b).LegacyPrefix() || (b !in c.bytes[..c.nb] && c.nb == 4)
  }

  function Legacy(t: Tables, b: seq<byte>, x64: bool, c: Scan): (r: Outcome<Scan>)
    requires c.nb <= 4
    ensures r.Ok? ==> r.value.nb <= 4 && c.next <= r.value.next < |b|
    ensures r.Ok? ==> r.value.nbytes - c.nbytes == r.value.next - c.next
    decreases |b| - c.next
  {
    if c.next >= |b| then Error(ENODATA)
    else if ScanStops(t, c, b[c.next]) then Ok(c)
    else Legacy(t, b, x64, ScanOne(t, x64, c, b[c.next]))
  }

  /** The last prefix always ends up in the fourth byte, trading places with what was there. */
  function PlaceLast(c: Scan): Four
    requires c.nb <= 4
  {
    if c.last == 0 || c.last == c.bytes[3] then c.bytes
    else
      var others := if c.bytes[3] == 0 then c.bytes
                    else seq(4, i requires 0 <= i < 4 =>
                                  if i < c.nb && c.bytes[i] == c.last then c.bytes[3] else c.bytes[i]);
      others[3 := c.last]
  }

  function RexW(b: byte): bool { b / 8 % 2 == 1 }
  function VexW(b: byte): bool { b >= 128 }

  /** The REX or REX2 prefix, in 64-bit mode; the flag says that VEX is not to be looked for. */
  function RexPrefix(t: Tables, b: seq<byte>, s: Insn): (r: Outcome<(Insn, bool)>)
  {
    if !s.x64 then Ok((s.(rex := s.rex.(got := true)), false))
    else if s.next >= |b| then Error(ENODATA)
    else
      var p := b[s.next];
      var a := t.primary(p);
      if a.Rex() then
        Ok((s.(rex := Field([p, 0, 0, 0], 1, true), next := s.next + 1, opnd := if RexW(p) then 8 else s.opnd), false))
      else if a.Rex2() then
        if s.next + 1 >= |b| then Error(ENODATA)
        else
          var q := b[s.next + 1];
          Ok((s.(rex := Field(s.rex.bytes[0 := p][1 := q], 2, true), next := s.next + 2,
                 opnd := if RexW(q) then 8 else s.opnd), true))
      else Ok((s.(rex := s.rex.(got := true)), false))
  }

  /** A byte with a VEX or XOP attribute is an ordinary opcode when the byte after it says so. */
  predicate IsOpcodeAfterAll(a: Attr, x64: bool, second: byte) {
    (a.Xop() && Reg(second) == 0) || (!x64 && Mod(second) != 3)
  }

  /** The VEX, EVEX or XOP prefix. `a` is the attribute of the byte the REX stage looked at. */
  function VexPrefix(b: seq<byte>, s: Insn, a: Attr): (r: Outcome<Insn>)
  {
    if s.next >= |b| then Error(ENODATA)
    else if !a.Vex() && !a.Xop() then Ok(s.(vex := s.vex.(got := true)))
    else if s.next + 1 >= |b| then Error(ENODATA)
    else
      var p, q := b[s.next], b[s.next + 1];
      if IsOpcodeAfterAll(a, s.x64, q) then Ok(s.(vex := s.vex.(got := true)))
      else if a.Evex() then EvexBytes(b, s, p, q)
      else if a.Vex3() || a.Xop() then
        if s.next + 2 >= |b| then Error(ENODATA)
        else
          var w := b[s.next + 2];
          Ok(s.(vex := Field(s.vex.bytes[0 := p][1 := q][2 := w], 3, true), next := s.next + 3,
                opnd := if s.x64 && VexW(w) then 8 else s.opnd))
      else
        Ok(s.(vex := Field(s.vex.bytes[0 := p][1 := q][2 := q % 128], 2, true), next := s.next + 2))
  }

  function EvexBytes(b: seq<byte>, s: Insn, p: byte, q: byte): (r: Outcome<Insn>)
  {
    if s.next + 3 >= |b| then Error(ENODATA)
    else
      var w := b[s.next + 3];
      Ok(s.(vex := Field([p, q, b[s.next + 2], w], 4, true), next := s.next + 4,
            opnd := if s.x64 && VexW(w) then 8 else s.opnd))
  }

  function AfterScan(s: Insn, c: Scan): Insn
    requires c.nb <= 4
  {
    s.(prefixes := Field(PlaceLast(c), c.nbytes, s.prefixes.got), addr := c.addr, opnd := c.opnd, next := c.next)
  }

  function StartScan(s: Insn): Scan {
    Scan(s.prefixes.bytes, 0, s.prefixes.nbytes, s.addr, s.opnd, s.next, 0)
  }

  /** What follows the legacy prefixes: REX, REX2 (which rules out VEX), VEX, EVEX or XOP. */
  function RexAndVex(t: Tables, b: seq<byte>, s: Insn): Outcome<Insn>
    requires s.next < |b|
  {
    var (s1, skip) :- RexPrefix(t, b, s);
    if skip then Ok(s1.(vex := s1.vex.(got := true), prefixes := s1.prefixes.(got := true)))
    else
      var s2 :- VexPrefix(b, s1, t.primary(b[s.next]));
      Ok(s2.(prefixes := s2.prefixes.(got := true)))
  }

  function AfterEmulate(t: Tables, b: seq<byte>, s: Insn): Insn {
    var e := EmulateSize(t, b, s.next);
    s.(emulate := if e == 0 then s.emulate else e, next := s.next + e)
  }

  function Prefixes(t: Tables, b: seq<byte>, s: Insn): Outcome<Insn> {
    var s1 := AfterEmulate(t, b, s);
    var c :- Legacy(t, b, s.x64, StartScan(s1));
    RexAndVex(t, b, AfterScan(s1, c))
  }

  // ---- opcode ----

  function VexM(v: Field): nat
  {
    if v.nbytes == 2 then 1 else if v.nbytes == 3 then v.bytes[1] % 32 else v.bytes[1] % 8
  }

  function VexP(v: Field): nat
  {
    if v.nbytes == 2 then v.bytes[1] % 4 else v.bytes[2] % 4
  }

  predicate VexWBit(v: Field)
  {
    v.nbytes >= 3 && v.bytes[2] >= 128
  }

  function XopM(v: Field): nat
  {
    if v.nbytes < 3 then 0 else v.bytes[1] % 32
  }

  function LastPrefixId(t: Tables, s: Insn): nat
  {
    if s.Avx() then
      if t.primary(s.vex.bytes[0]).Xop() then s.vex.bytes[2] % 4 else VexP(s.vex)
    else if s.prefixes.bytes[3] != 0 then t.LastPrefixId(s.prefixes.bytes[3])
    else 0
  }

  /** Escape bytes lead from one opcode map to the next. */
  function Escapes(t: Tables, b: seq<byte>, s: Insn): (r: Outcome<Insn>)
    requires t.Valid()
    requires s.attr.esc <= 3 && (s.attr.esc == 0 || s.opcode.nbytes <= s.attr.esc)
    ensures r.Ok? ==> r.value == s.(opcode := r.value.opcode, next := r.value.next, attr := r.value.attr)
    ensures r.Ok? ==> s.next <= r.value.next
    ensures r.Ok? ==> r.value.opcode.nbytes - s.opcode.nbytes == r.value.next - s.next
    ensures r.Ok? && s.next <= |b| ==> r.value.next <= |b|
    decreases if s.attr.esc == 0 then 0 else 4 - s.attr.esc
  {
    if s.attr.esc == 0 then Ok(s)
    else if s.next >= |b| then Error(ENODATA)
    else Escapes(t, b, EscapeOne(t, s, b[s.next]))
  }

  function EscapeOne(t: Tables, s: Insn, op: byte): Insn
    requires s.opcode.nbytes < 4
  {
    s.(opcode := s.opcode.(bytes := s.opcode.bytes[s.opcode.nbytes := op], nbytes := s.opcode.nbytes + 1),
       next := s.next + 1,
       attr := t.escape(op, LastPrefixId(t, s), s.attr))
  }

  /** The opcode under a VEX, EVEX or XOP prefix is one byte, in the map the prefix selects. */
  function VexOpcode(t: Tables, s: Insn, op: byte): Outcome<Insn>
  {
    if t.primary(s.vex.bytes[0]).Xop() then
      var a := t.xop(op, XopM(s.vex));
      if a.vexok then Ok(s.(attr := a)) else Error(EINVAL)
    else
      var p := VexP(s.vex);
      var a := t.avx(op, VexM(s.vex), p);
      if (a.evexonly && s.vex.nbytes != 4) || (!a.vexok && a.grp == 0) then Error(EINVAL)
      else Ok(s.(attr := a, opnd := if a.scalable && !VexWBit(s.vex) && p == 1 then 2 else s.opnd))
  }

  function Rex2Opcode(t: Tables, s: Insn, op: byte): Insn
  {
    s.(attr := if s.rex.bytes[1] >= 128 then t.escape(op, LastPrefixId(t, s), t.primary(0x0f)) else t.primary(op))
  }

  function LegacyAttr(t: Tables, s: Insn, op: byte): Attr {
    var a := t.primary(op);
    if s.x64 && a.inv64 then a.OnlyInv64() else a
  }

  function Opcode(t: Tables, b: seq<byte>, s: Insn): (r: Outcome<Insn>)
    requires t.Valid()
  {
    if s.next >= |b| then Error(ENODATA)
    else
      var op := b[s.next];
      var s1 := s.(opcode := s.opcode.(bytes := s.opcode.bytes[0 := op], nbytes := 1), next := s.next + 1);
      if s1.Avx() then
        var s2 :- VexOpcode(t, s1, op);
        Ok(s2.(opcode := s2.opcode.(got := true)))
      else if s1.rex.nbytes == 2 then
        var s2 := Rex2Opcode(t, s1, op);
        Ok(s2.(opcode := s2.opcode.(got := true)))
      else
        var s2 :- LegacyOpcode(t, b, s1, op);
        Ok(s2.(opcode := s2.opcode.(got := true)))
  }

  /** An opcode without a VEX or REX2 prefix: the escapes it starts, and no opcode that needs VEX. */
  function LegacyOpcode(t: Tables, b: seq<byte>, s: Insn, op: byte): (r: Outcome<Insn>)
    requires t.Valid() && s.opcode.nbytes == 1
  {
    var s2 :- Escapes(t, b, s.(attr := LegacyAttr(t, s, op)));
    if s2.attr.MustVex() then Error(EINVAL) else Ok(s2)
  }

  // ---- ModRM, SIB, displacement ----

  function Modrm(t: Tables, b: seq<byte>, s: Insn): (r: Outcome<Insn>)
  {
    if !s.attr.modrm then Ok(FinishModrm(s))
    else if s.next >= |b| then Error(ENODATA)
    else
      var m := b[s.next];
      var s1 := s.(modrm := s.modrm.(bytes := [m, 0, 0, 0], nbytes := 1), next := s.next + 1);
      if s.attr.grp == 0 then Ok(FinishModrm(s1))
      else
        var s2 :- Group(t, s1, m);
        Ok(FinishModrm(s2))
  }

  /** The attributes of an opcode in a group; under VEX only some are allowed. */
  function Group(t: Tables, s: Insn, m: byte): (r: Outcome<Insn>)
  {
    var a := t.group(m, LastPrefixId(t, s), s.attr);
    if s.Avx() && !a.vexok then Error(EINVAL) else Ok(s.(attr := a))
  }

  function FinishModrm(s: Insn): Insn {
    s.(modrm := s.modrm.(got := true), opnd := if s.x64 && s.attr.force64 then 8 else s.opnd)
  }

  predicate HasSib(s: Insn)
  {
    s.modrm.nbytes != 0 && s.addr != 2 && Mod(s.modrm.bytes[0]) != 3 && Rm(s.modrm.bytes[0]) == 4
  }

  function Sib(b: seq<byte>, s: Insn): (r: Outcome<Insn>)
  {
    if !HasSib(s) then Ok(s.(sib := s.sib.(got := true)))
    else
      var f :- Take(b, s.sib, s.next, 1, false);
      Ok(s.(sib := f.(got := true), next := s.next + 1))
  }

  /** How many displacement bytes the ModRM and SIB bytes call for. */
  function DispSize(s: Insn): (n: nat)
    ensures n in {0, 1, 2, 4}
  {
    if s.modrm.nbytes == 0 then 0
    else
      var mod, rm, base := Mod(s.modrm.bytes[0]), Rm(s.modrm.bytes[0]), s.sib.bytes[0] % 8;
      if mod == 3 then 0
      else if mod == 1 then 1
      else if s.addr == 2 then (if (mod == 0 && rm == 6) || mod == 2 then 2 else 0)
      else if (mod == 0 && rm == 5) || mod == 2 || (mod == 0 && base == 5) then 4
      else 0
  }

  function Displacement(b: seq<byte>, s: Insn): (r: Outcome<Insn>)
  {
    var n := DispSize(s);
    if n == 0 then Ok(s.(disp := s.disp.(got := true)))
    else
      var f :- Take(b, s.disp, s.next, n, true);
      Ok(s.(disp := f.(got := true), next := s.next + n))
  }

  // ---- immediates ----

  /** How an instruction lays out its immediate bytes: the sizes of the two slots (a second
      slot of zero bytes is absent), or no layout at all. */
  datatype Layout = NoImmediate | Slots(first: nat, second: nat, secondSigned: bool, got: bool) | BadLayout

  function LayoutOf(s: Insn): (l: Layout)
    ensures l.Slots? ==> l.first in {1, 2, 4} && l.second in {0, 2, 4}
  {
    if s.attr.moffset then
      if s.addr == 2 then Slots(2, 0, true, true)
      else if s.addr == 4 then Slots(4, 0, true, true)
      else if s.addr == 8 then Slots(4, 4, true, true)
      else BadLayout
    else if s.attr.imm == 0 then NoImmediate
    else if s.attr.imm == IMM_BYTE then Slots(1, 0, true, false)
    else if s.attr.imm == IMM_WORD then Slots(2, 0, true, false)
    else if s.attr.imm == IMM_DWORD then Slots(4, 0, true, false)
    else if s.attr.imm == IMM_QWORD then Slots(4, 4, true, false)
    else if s.attr.imm == IMM_PTR then
      if s.opnd == 2 then Slots(2, 2, false, true)
      else if s.opnd == 4 then Slots(4, 2, false, true)
      else BadLayout
    else if s.attr.imm == IMM_VWORD32 then
      if s.opnd == 2 then Slots(2, 0, true, false)
      else if s.opnd == 4 || s.opnd == 8 then Slots(4, 0, true, false)
      else BadLayout
    else if s.attr.imm == IMM_VWORD then
      if s.opnd == 2 then Slots(2, 0, true, true)
      else if s.opnd == 4 then Slots(4, 0, true, true)
      else if s.opnd == 8 then Slots(4, 4, true, true)
      else BadLayout
    else BadLayout
  }

  function TakeSlots(b: seq<byte>, s: Insn, l: Layout): (r: Outcome<Insn>)
    requires l.Slots? && l.first in {1, 2, 4} && l.second in {0, 2, 4}
  {
    var f :- Take(b, s.imm1, s.next, l.first, true);
    var s1 := s.(imm1 := f, next := s.next + l.first);
    if l.second == 0 then Ok(if l.got then MarkSlots(s1) else s1)
    else
      var g :- Take(b, s1.imm2, s1.next, l.second, l.secondSigned);
      var s2 := s1.(imm2 := g, next := s1.next + l.second);
      Ok(if l.got then MarkSlots(s2) else s2)
  }

  function MarkSlots(s: Insn): Insn {
    s.(imm1 := s.imm1.(got := true), imm2 := s.imm2.(got := true))
  }

  function Immediate(b: seq<byte>, s: Insn): (r: Outcome<Insn>)
  {
    match LayoutOf(s)
    case NoImmediate => Ok(s.(imm1 := s.imm1.(got := true)))
    case BadLayout => Error(ENODATA)
    case Slots(first, second, signed, got) =>
      var s1 :- TakeSlots(b, s, Slots(first, second, signed, got));
      var s2 :- SecondByte(b, s1);
      Ok(s2.(imm1 := s2.imm1.(got := true)))
  }

  /** A second immediate byte, where the opcode has one. */
  function SecondByte(b: seq<byte>, s: Insn): (r: Outcome<Insn>)
  {
    if s.attr.moffset || !s.attr.scnd then Ok(s)
    else
      var g :- Take(b, s.imm2, s.next, 1, true);
      Ok(s.(imm2 := g, next := s.next + 1))
  }

  // ---- the memoising stages ----

  function GetPrefixes(t: Tables, b: seq<byte>, s: Insn): Outcome<Insn> {
    if s.prefixes.got then Ok(s) else Prefixes(t, b, s)
  }

  function GetOpcode(t: Tables, b: seq<byte>, s: Insn): Outcome<Insn>
    requires t.Valid()
  {
    if s.opcode.got then Ok(s)
    else
      var s1 :- GetPrefixes(t, b, s);
      Opcode(t, b, s1)
  }

  function GetModrm(t: Tables, b: seq<byte>, s: Insn): Outcome<Insn>
    requires t.Valid()
  {
    if s.modrm.got then Ok(s)
    else
      var s1 :- GetOpcode(t, b, s);
      Modrm(t, b, s1)
  }

  function GetSib(t: Tables, b: seq<byte>, s: Insn): Outcome<Insn>
    requires t.Valid()
  {
    if s.sib.got then Ok(s)
    else
      var s1 :- GetModrm(t, b, s);
      Sib(b, s1)
  }

  function GetDisplacement(t: Tables, b: seq<byte>, s: Insn): Outcome<Insn>
    requires t.Valid()
  {
    if s.disp.got then Ok(s)
    else
      var s1 :- GetSib(t, b, s);
      Displacement(b, s1)
  }

  function GetImmediate(t: Tables, b: seq<byte>, s: Insn): Outcome<Insn>
    requires t.Valid()
  {
    if s.imm1.got then Ok(s)
    else
      var s1 :- GetDisplacement(t, b, s);
      Immediate(b, s1)
  }

  function GetLength(t: Tables, b: seq<byte>, s: Insn): Outcome<Insn>
    requires t.Valid()
  {
    if s.length != 0 then Ok(s) else SetLength(GetImmediate(t, b, s))
  }

  function SetLength(r: Outcome<Insn>): Outcome<Insn> {
    if r.Ok? then Ok(r.value.(length := r.value.next % 256)) else r
  }

  predicate IsComplete(s: Insn) {
    s.opcode.got && s.modrm.got && s.sib.got && s.disp.got && s.imm1.got
  }

  /** The bytes a decoder may look at: at most fifteen. */
  function Window(buf: seq<byte>): (b: seq<byte>)
    ensures |b| <= MAX_INSN_SIZE && b <= buf
  {
    if |buf| > MAX_INSN_SIZE then buf[..MAX_INSN_SIZE] else buf
  }

  function Decode(t: Tables, buf: seq<byte>, x64: bool): Outcome<Insn>
    requires t.Valid()
  {
    IfComplete(GetLength(t, Window(buf), Init(x64)))
  }

  function IfComplete(r: Outcome<Insn>): Outcome<Insn> {
    if r.Ok? && !IsComplete(r.value) then Error(EINVAL) else r
  }
}
