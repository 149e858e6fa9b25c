/** Trap and emulate on RISC-V: a load or store that faults on a traced mapping is decoded and
carried out on the shadow copy of the BAR (kernel/trace/arch/riscv/smptrace_arch.c,
kernel/trace/smptrace.c). */
module RiscvEmul {
  import opened Bytes
  import opened Linux
  import opened Wrappers

  // ---- the instruction set: section 5.3 of the Unprivileged ISA, version 20191213 ----

  /** An RV64 load or store. */
  datatype Instr =
    | Load(width: nat, signed: bool, rd: nat, rs1: nat, imm: int)
    | Store(width: nat, rs1: nat, rs2: nat, imm: int)
  {
    predicate Valid() {
      && width in {1, 2, 4, 8} && rs1 < 32 && -2048 <= imm < 2048
      && match this
         case Load(w, signed, rd, _, _) => rd < 32 && (w == 8 ==> signed)
         case Store(_, _, rs2, _) => rs2 < 32
    }
  }

  function WidthCode(width: nat): nat {
    if width == 1 then 0 else if width == 2 then 1 else if width == 4 then 2 else 3
  }

  /** The I-type and S-type formats. */
  function Encode(i: Instr): nat
    requires i.Valid()
  {
    var imm := Unsigned12(i.imm);
    match i
    case Load(width, signed, rd, rs1, _) =>
      0x03 + rd * 0x80 + (WidthCode(width) + if signed then 0 else 4) * 0x1000 + rs1 * 0x8000 + imm * 0x10_0000
    case Store(width, rs1, rs2, _) =>
      0x23 + imm % 32 * 0x80 + WidthCode(width) * 0x1000 + rs1 * 0x8000 + rs2 * 0x10_0000 + imm / 32 * 0x200_0000
  }

  /** A hart's registers, its program counter, and the BAR it accesses. */
  datatype Hart = Hart(x: seq<nat>, pc: nat, bar: seq<byte>) {
    predicate Valid() {
      |x| == 32 && x[0] == 0 && pc < U64 && forall r :: 0 <= r < 32 ==> x[r] < U64
    }

    /** Register zero is hardwired to zero. */
    function Set(r: nat, v: nat): Hart
      requires Valid() && r < 32
    {
      if r == 0 then this else this.(x := x[r := v])
    }
  }

  /** A value of `n` bits in two's complement, as a 64-bit register holds it. */
  function Extend(v: nat, width: nat, signed: bool): nat {
    if !signed then v
    else if width == 1 then (if v < 0x80 then v else v + U64 - 0x100)
    else if width == 2 then (if v < 0x8000 then v else v + U64 - U16)
    else if width == 4 then (if v < 0x8000_0000 then v else v + U64 - U32)
    else v
  }

  /** Virtual mappings of the BAR, and where its bytes are in physical memory. */
  datatype Mapped = Mapped(va: nat, len: nat, pa: nat)

  datatype Space = Space(pa: nat, len: nat, maps: seq<Mapped>) {
    /** Every mapping starts inside the BAR. */
    predicate Valid() {
      pa + len <= U64 && forall i :: 0 <= i < |maps| ==> pa <= maps[i].pa < pa + len && maps[i].va + maps[i].len <= U64
    }
  }

  function Find(maps: seq<Mapped>, va: nat): (i: nat)
    ensures i <= |maps|
    ensures i < |maps| ==> maps[i].va <= va < maps[i].va + maps[i].len
    ensures forall j :: 0 <= j < i ==> !(maps[j].va <= va < maps[j].va + maps[j].len)
  {
    if maps == [] || maps[0].va <= va < maps[0].va + maps[0].len then 0 else 1 + Find(maps[1..], va)
  }

  /** The BAR offset behind a virtual address. */
  function Offset(s: Space, va: nat): int
    requires Find(s.maps, va) < |s.maps|
  {
    var m := s.maps[Find(s.maps, va)];
    m.pa + (va - m.va) - s.pa
  }

  function Address(h: Hart, i: Instr): nat
    requires h.Valid() && i.Valid()
  {
    (h.x[i.rs1] + i.imm) % U64
  }

  /** The access lies in a mapping and inside the BAR. */
  predicate Reaches(s: Space, h: Hart, i: Instr)
    requires h.Valid() && i.Valid()
  {
    && |h.bar| == s.len
    && Find(s.maps, Address(h, i)) < |s.maps|
    && 0 <= Offset(s, Address(h, i)) && Offset(s, Address(h, i)) + i.width <= s.len
  }

  /** Direct execution. */
  function Direct(s: Space, h: Hart, i: Instr): (h': Hart)
    requires h.Valid() && i.Valid() && Reaches(s, h, i)
    ensures h'.Valid()
  {
    var off := Offset(s, Address(h, i));
    match i
    case Load(width, signed, rd, _, _) =>
      FromLESmall(h.bar[off..off + width]);
      h.(pc := (h.pc + 4) % U64).Set(rd, Extend(FromLE(h.bar[off..off + width]), width, signed))
    case Store(width, _, rs2, _) =>
      h.(pc := (h.pc + 4) % U64, bar := Overlay(h.bar, off, ToLE(h.x[rs2], width)))
  }

  lemma FromLESmall(data: seq<byte>)
    requires |data| in {1, 2, 4, 8}
    ensures |data| == 1 ==> FromLE(data) < 0x100
    ensures |data| == 2 ==> FromLE(data) < U16
    ensures |data| == 4 ==> FromLE(data) < U32
    ensures FromLE(data) < U64
  {
    FromLEBound(data);
    assert Pow256(1) == 0x100;
    assert Pow256(2) == U16;
    assert Pow256(4) == 256 * Pow256(3) == 256 * 256 * Pow256(2) == U32;
    assert Pow256(8) == 256 * Pow256(7) == 256 * 256 * Pow256(6);
    assert Pow256(6) == 256 * Pow256(5) == 256 * 256 * Pow256(4);
  }

  // ---- the decoder ----

  /** What the decoders report about an instruction. */
  datatype Access = Access(rd: nat, rs2: nat, size: nat, isStore: bool, signExtend: bool)

  function DecodeLoadStore(w: nat): (a: Option<Access>)
    ensures a.Some? ==> a.value.rd < 32 && a.value.rs2 < 32 && a.value.size in {1, 2, 4, 8}
  {
    var opcode, funct3 := w % 0x80, w / 0x1000 % 8;
    if opcode == 0x03 then
      var rd := w / 0x80 % 32;
      match funct3
      case 0 => Some(Access(rd, 0, 1, false, true))
      case 1 => Some(Access(rd, 0, 2, false, true))
      case 2 => Some(Access(rd, 0, 4, false, true))
      case 3 => Some(Access(rd, 0, 8, false, false))
      case 4 => Some(Access(rd, 0, 1, false, false))
      case 5 => Some(Access(rd, 0, 2, false, false))
      case 6 => Some(Access(rd, 0, 4, false, false))
      case _ => None
    else if opcode == 0x23 then
      var rs2 := w / 0x10_0000 % 32;
      match funct3
      case 0 => Some(Access(0, rs2, 1, true, false))
      case 1 => Some(Access(0, rs2, 2, true, false))
      case 2 => Some(Access(0, rs2, 4, true, false))
      case 3 => Some(Access(0, rs2, 8, true, false))
      case _ => None
    else None
  }

  function DecodeCompressed(h: nat): (a: Option<Access>)
    ensures a.Some? ==> a.value.rd < 32 && a.value.rs2 < 32 && a.value.size in {1, 2, 4, 8}
  {
    var op, funct3 := h % 4, h / 0x2000 % 8;
    if op == 0 then
      var rp := 8 + h / 4 % 8;
      match funct3
      case 2 => Some(Access(rp, 0, 4, false, false))
      case 3 => Some(Access(rp, 0, 8, false, false))
      case 6 => Some(Access(0, rp, 4, true, false))
      case 7 => Some(Access(0, rp, 8, true, false))
      case _ => None
    else if op == 2 then
      match funct3
      case 2 => Some(Access(h / 0x80 % 32, 0, 4, false, false))
      case 3 => Some(Access(h / 0x80 % 32, 0, 8, false, false))
      case 6 => Some(Access(0, h / 4 % 32, 4, true, false))
      case 7 => Some(Access(0, h / 4 % 32, 8, true, false))
      case _ => None
    else None
  }

  /** What an instruction says about its access: an eight-byte load needs no extension. */
  function AccessOf(i: Instr): Access
    requires i.Valid()
  {
    match i
    case Load(width, signed, rd, _, _) => Access(rd, 0, width, false, signed && width != 8)
    case Store(width, _, rs2, _) => Access(0, rs2, width, true, false)
  }

  /** The decoder reads every load and store of the instruction set as what it is. */
  lemma DecodesWhatIsEncoded(i: Instr)
    requires i.Valid()
    ensures Encode(i) < U32 && Encode(i) % 4 == 3
    ensures DecodeLoadStore(Encode(i)) == Some(AccessOf(i))
  {
    if i.Load? {
      LoadDecodes(i, Encode(i));
    } else {
      StoreDecodes(i, Encode(i));
    }
  }

  function Unsigned12(imm: int): nat
    requires -2048 <= imm < 2048
  {
    if imm < 0 then imm + 4096 else imm
  }

  lemma LoadDecodes(i: Instr, w: nat)
    requires i.Valid() && i.Load? && w == Encode(i)
    ensures w < U32 && w % 4 == 3 && DecodeLoadStore(w) == Some(AccessOf(i))
  {
    Fields(0x03, i.rd, WidthCode(i.width) + (if i.signed then 0 else 4), i.rs1 + Unsigned12(i.imm) * 32, w);
  }

  lemma StoreDecodes(i: Instr, w: nat)
    requires i.Valid() && i.Store? && w == Encode(i)
    ensures w < U32 && w % 4 == 3 && DecodeLoadStore(w) == Some(AccessOf(i))
  {
    var imm := Unsigned12(i.imm);
    var low, high := imm % 32, imm / 32;
    StoreFields(low, WidthCode(i.width), i.rs1, i.rs2, high, w);
  }

  lemma StoreFields(low: nat, f: nat, rs1: nat, rs2: nat, high: nat, w: nat)
    requires low < 32 && f < 8 && rs1 < 32 && rs2 < 32 && high < 128
    requires w == 0x23 + low * 0x80 + f * 0x1000 + rs1 * 0x8000 + rs2 * 0x10_0000 + high * 0x200_0000
    ensures w < U32 && w % 4 == 3 && w % 0x80 == 0x23 && w / 0x1000 % 8 == f && w / 0x10_0000 % 32 == rs2
  {
    Fields(0x23, low, f, rs1 + rs2 * 32 + high * 1024, w);
    assert w / 0x10_0000 == rs2 + high * 32;
  }

  lemma Fields(opcode: nat, a: nat, f: nat, rest: nat, w: nat)
    requires opcode < 0x80 && a < 32 && f < 8 && w == opcode + a * 0x80 + f * 0x1000 + rest * 0x8000
    ensures w % 0x80 == opcode && w / 0x80 % 32 == a && w / 0x1000 % 8 == f && w / 0x8000 == rest
  {
    assert w / 0x80 == a + f * 32 + rest * 256;
    assert w / 0x1000 == f + rest * 8;
  }

  /** And it accepts nothing else. */
  lemma EncodesWhatIsDecoded(w: nat) returns (i: Instr)
    requires w < U32 && DecodeLoadStore(w).Some?
    ensures i.Valid() && Encode(i) == w
  {
    var a := DecodeLoadStore(w).value;
    i := if a.isStore then StoreOf(w, a.size) else LoadOf(w, a.size);
    if a.isStore {
      assert WidthCode(a.size) == w / 0x1000 % 8;
      StoreIsEncoded(w, a.size);
    } else {
      assert WidthCode(a.size) + (if w / 0x1000 % 8 < 4 then 0 else 4) == w / 0x1000 % 8;
      LoadIsEncoded(w, a.size);
    }
  }

  function Signed12(imm: nat): int {
    if imm < 2048 then imm else imm - 4096
  }

  function StoreOf(w: nat, size: nat): Instr {
    Store(size, w / 0x8000 % 32, w / 0x10_0000 % 32, Signed12(w / 0x80 % 32 + w / 0x200_0000 * 32))
  }

  function LoadOf(w: nat, size: nat): Instr {
    Load(size, w / 0x1000 % 8 < 4, w / 0x80 % 32, w / 0x8000 % 32, Signed12(w / 0x10_0000))
  }

  lemma StoreIsEncoded(w: nat, size: nat)
    requires w < U32 && w % 0x80 == 0x23 && size in {1, 2, 4, 8} && WidthCode(size) == w / 0x1000 % 8
    ensures StoreOf(w, size).Valid() && Encode(StoreOf(w, size)) == w
  {
    var x, z := w / 0x80 % 32, w / 0x200_0000;
    assert (x + z * 32) % 32 == x && (x + z * 32) / 32 == z;
    Split(w, 0x23, x, w / 0x1000 % 8, w / 0x8000 % 32, w / 0x10_0000 % 32, z);
  }

  lemma LoadIsEncoded(w: nat, size: nat)
    requires w < U32 && w % 0x80 == 0x03 && size in {1, 2, 4, 8}
    requires WidthCode(size) + (if w / 0x1000 % 8 < 4 then 0 else 4) == w / 0x1000 % 8 < 7
    ensures LoadOf(w, size).Valid() && Encode(LoadOf(w, size)) == w
  {
    Split(w, 0x03, w / 0x80 % 32, w / 0x1000 % 8, w / 0x8000 % 32, w / 0x10_0000 % 32, w / 0x200_0000);
    assert w / 0x10_0000 == w / 0x10_0000 % 32 + w / 0x200_0000 * 32;
  }

  lemma Split(w: nat, opcode: nat, x: nat, f: nat, rs1: nat, y: nat, z: nat)
    requires opcode == w % 0x80 && x == w / 0x80 % 32 && f == w / 0x1000 % 8 && rs1 == w / 0x8000 % 32
    requires y == w / 0x10_0000 % 32 && z == w / 0x200_0000
    ensures w == opcode + x * 0x80 + f * 0x1000 + rs1 * 0x8000 + y * 0x10_0000 + z * 0x200_0000
  {
    var w1 := w / 0x80;
    var w2 := w1 / 32;
    var w3 := w2 / 8;
    var w4 := w3 / 32;
    assert w2 == w / 0x1000 && w3 == w / 0x8000 && w4 == w / 0x10_0000 && w4 / 32 == w / 0x200_0000;
  }

  // ---- the emulator ----

  /** What a hook is told: direction, offset, size and bytes of the access. */
  datatype Note = Note(write: bool, offset: nat, size: nat, data: seq<byte>)

  /** The BAR, and what a tracer has asked for. */
  datatype Config = Config(space: Space, readHook: bool, writeHook: bool, stopWrites: bool)

  /** The faulting context: word 0 of the saved registers is the exception pc, the others are
      the registers of the same number. */
  datatype Trapped = Trapped(words: seq<nat>, shadow: seq<byte>, notes: seq<Note>) {
    predicate Valid() {
      |words| == 32 && forall r :: 0 <= r < 32 ==> words[r] < U64
    }

    /** The hart that faulted. */
    function Arch(): (h: Hart)
      requires Valid()
      ensures h.Valid()
    {
      Hart(words[0 := 0], words[0], shadow)
    }
  }

  function GetReg(words: seq<nat>, r: nat): nat
    requires |words| == 32 && r < 32
  {
    if r == 0 then 0 else words[r]
  }

  function SetReg(words: seq<nat>, r: nat, v: nat): seq<nat>
    requires |words| == 32 && r < 32
  {
    if r == 0 then words else words[r := v]
  }

  /** Two to the number of bits above a `size`-byte value. */
  function BitsAbove(size: nat): (p: nat)
    ensures p > 0
  {
    if size == 1 then 0x100_0000_0000_0000 else if size == 2 then 0x1_0000_0000_0000 else if size == 4 then U32 else 1
  }

  /** (s64)(val << n) >> n, as an unsigned register value. */
  function ShiftUpAndDown(val: nat, size: nat): nat {
    var up := val * BitsAbove(size) % U64;
    var signed: int := if up >= 0x8000_0000_0000_0000 then up - U64 else up;
    signed / BitsAbove(size) % U64
  }

  lemma ShiftingExtends(val: nat, size: nat)
    requires (size == 1 && val < 0x100) || (size == 2 && val < U16) || (size == 4 && val < U32)
    ensures ShiftUpAndDown(val, size) == Extend(val, size, true)
  {
    if size == 1 {
      ExtendByte(val);
    } else if size == 2 {
      ExtendHalf(val);
    } else {
      ExtendWord(val);
    }
  }

  lemma ExtendByte(val: nat)
    requires val < 0x100
    ensures ShiftUpAndDown(val, 1) == Extend(val, 1, true)
  {
  }

  lemma ExtendHalf(val: nat)
    requires val < U16
    ensures ShiftUpAndDown(val, 2) == Extend(val, 2, true)
  {
  }

  lemma ExtendWord(val: nat)
    requires val < U32
    ensures ShiftUpAndDown(val, 4) == Extend(val, 4, true)
  {
  }

  /** map->pa - ctx->pa + (addr - map->va), in 64 bits */
  function ShadowOffset(s: Space, m: Mapped, addr: nat): nat {
    (m.pa - s.pa + (addr - m.va)) % U64
  }

  /** One emulated access at `off`; `step` is the length of the instruction. */
  function Apply(c: Config, st: Trapped, a: Access, off: nat, step: nat): (st': Trapped)
    requires st.Valid() && a.rd < 32 && a.rs2 < 32 && a.size in {1, 2, 4, 8} && off + a.size <= |st.shadow|
    ensures st'.Valid()
  {
    if a.isStore then
      var data := ToLE(GetReg(st.words, a.rs2), 8)[..a.size];
      Trapped(st.words[0 := (st.words[0] + step) % U64],
              if c.stopWrites then st.shadow else Overlay(st.shadow, off, data),
              if c.writeHook then st.notes + [Note(true, off, a.size, data)] else st.notes)
    else
      var data := st.shadow[off..off + a.size];
      FromLESmall(data);
      var val := FromLE(data);
      var words := SetReg(st.words, a.rd, if a.signExtend then ShiftUpAndDown(val, a.size) else val);
      Trapped(words[0 := (words[0] + step) % U64], st.shadow,
              if c.readHook then st.notes + [Note(false, off, a.size, data)] else st.notes)
  }

  lemma {:induction false} ZerosAbove(data: seq<byte>, zeros: seq<byte>)
    requires forall k :: 0 <= k < |zeros| ==> zeros[k] == 0
    ensures FromLE(data + zeros) == FromLE(data)
    decreases |data| + |zeros|
  {
    if data != [] {
      assert (data + zeros)[1..] == data[1..] + zeros;
      ZerosAbove(data[1..], zeros);
    } else if zeros != [] {
      assert data + zeros == zeros && zeros == [] + zeros && zeros[1..] == [] + zeros[1..];
      ZerosAbove([], zeros[1..]);
    }
  }

  lemma {:induction false} LowBytes(v: nat, n: nat, k: nat)
    requires k <= n
    ensures ToLE(v, n)[..k] == ToLE(v, k)
  {
    if k != 0 {
      LowBytes(v / 256, n - 1, k - 1);
    }
  }

  /** The fault handler for an uncompressed instruction, its fault address being the effective
      address, does what direct execution does, and reports the bytes it moved. */
  lemma EmulationIsDirect(c: Config, st: Trapped, i: Instr)
    requires st.Valid() && i.Valid() && c.space.Valid() && !c.stopWrites && Reaches(c.space, st.Arch(), i)
    ensures var h := st.Arch();
            var off := ShadowOffset(c.space, c.space.maps[Find(c.space.maps, Address(h, i))], Address(h, i));
            && off == Offset(c.space, Address(h, i)) && off + i.width <= |st.shadow|
            && Apply(c, st, AccessOf(i), off, 4).Arch() == Direct(c.space, h, i)
            && Apply(c, st, AccessOf(i), off, 4).notes == st.notes + Told(c, h, i)
  {
    var off := Offset(c.space, Address(st.Arch(), i));
    OffsetsAgree(c.space, st.Arch(), i);
    if i.Load? {
      LoadIsDirect(c, st, i, off);
    } else {
      StoreIsDirect(c, st, i, off);
    }
  }

  /** Inside the BAR the 64-bit offset does not wrap. */
  lemma OffsetsAgree(s: Space, h: Hart, i: Instr)
    requires h.Valid() && i.Valid() && s.Valid() && Reaches(s, h, i)
    ensures var va := Address(h, i);
            Find(s.maps, va) < |s.maps| && ShadowOffset(s, s.maps[Find(s.maps, va)], va) == Offset(s, va)
  {
  }

  lemma LoadIsDirect(c: Config, st: Trapped, i: Instr, off: nat)
    requires st.Valid() && i.Valid() && i.Load? && Reaches(c.space, st.Arch(), i)
    requires off == Offset(c.space, Address(st.Arch(), i))
    ensures Apply(c, st, AccessOf(i), off, 4).Arch() == Direct(c.space, st.Arch(), i)
    ensures Apply(c, st, AccessOf(i), off, 4).notes == st.notes + Told(c, st.Arch(), i)
  {
    var data := st.shadow[off..off + i.width];
    FromLESmall(data);
    if i.signed && i.width != 8 {
      ShiftingExtends(FromLE(data), i.width);
    }
    var val := Extend(FromLE(data), i.width, i.signed);
    LoadedHart(st, i.rd, val);
    assert Direct(c.space, st.Arch(), i) == st.Arch().(pc := (st.words[0] + 4) % U64).Set(i.rd, val);
    LoadIsTold(c, st, i, off);
  }

  lemma LoadedHart(st: Trapped, rd: nat, val: nat)
    requires st.Valid() && rd < 32 && val < U64
    ensures var next := SetReg(st.words, rd, val)[0 := (SetReg(st.words, rd, val)[0] + 4) % U64];
            Hart(next[0 := 0], next[0], st.shadow) == st.Arch().(pc := (st.words[0] + 4) % U64).Set(rd, val)
  {
    LoadWords(st.words, rd, val);
  }

  lemma LoadIsTold(c: Config, st: Trapped, i: Instr, off: nat)
    requires st.Valid() && i.Valid() && i.Load? && Reaches(c.space, st.Arch(), i)
    requires off == Offset(c.space, Address(st.Arch(), i))
    ensures Apply(c, st, AccessOf(i), off, 4).notes == st.notes + Told(c, st.Arch(), i)
  {
  }

  lemma StoreIsDirect(c: Config, st: Trapped, i: Instr, off: nat)
    requires st.Valid() && i.Valid() && i.Store? && Reaches(c.space, st.Arch(), i) && !c.stopWrites
    requires off == Offset(c.space, Address(st.Arch(), i))
    ensures Apply(c, st, AccessOf(i), off, 4).Arch() == Direct(c.space, st.Arch(), i)
    ensures Apply(c, st, AccessOf(i), off, 4).notes == st.notes + Told(c, st.Arch(), i)
  {
    LowBytes(GetReg(st.words, i.rs2), 8, i.width);
    assert st.words[0 := (st.words[0] + 4) % U64][0 := 0] == st.words[0 := 0];
  }

  /** Register zero must not be written: its word is the exception pc. */
  lemma LoadWords(words: seq<nat>, rd: nat, v: nat)
    requires |words| == 32 && rd < 32
    ensures var w := SetReg(words, rd, v);
            var next := w[0 := (w[0] + 4) % U64];
            && next[0] == (words[0] + 4) % U64
            && next[0 := 0] == if rd == 0 then words[0 := 0] else words[0 := 0][rd := v]
  {
  }

  /** The notification an access gives rise to: where, how much, and which bytes. */
  function Told(c: Config, h: Hart, i: Instr): seq<Note>
    requires h.Valid() && i.Valid() && Reaches(c.space, h, i)
  {
    var off := Offset(c.space, Address(h, i));
    if i.Store? then
      if c.writeHook then [Note(true, off, i.width, ToLE(h.x[i.rs2], i.width))] else []
    else if c.readHook then [Note(false, off, i.width, h.bar[off..off + i.width])] else []
  }

  // ---- runs ----

  /** One trap: the fault address is the effective address. */
  function TrapOne(c: Config, st: Trapped, i: Instr): (st': Trapped)
    requires st.Valid() && i.Valid() && c.space.Valid() && !c.stopWrites && Reaches(c.space, st.Arch(), i)
    ensures st'.Valid() && st'.Arch() == Direct(c.space, st.Arch(), i) && st'.notes == st.notes + Told(c, st.Arch(), i)
  {
    var va := Address(st.Arch(), i);
    EmulationIsDirect(c, st, i);
    Apply(c, st, AccessOf(i), ShadowOffset(c.space, c.space.maps[Find(c.space.maps, va)], va), 4)
  }

  /** The traps a run of loads and stores takes, one after the other. */
  function TrapRun(c: Config, st: Trapped, run: seq<Instr>): (st': Trapped)
    requires st.Valid() && RunReaches(c, st.Arch(), run) && c.space.Valid() && !c.stopWrites
    ensures st'.Valid()
    decreases |run|
  {
    if run == [] then st else TrapRun(c, TrapOne(c, st, run[0]), run[1..])
  }

  /** Every access of the run reaches the BAR. */
  predicate RunReaches(c: Config, h: Hart, run: seq<Instr>)
    requires h.Valid()
    decreases |run|
  {
    run != [] ==>
      run[0].Valid() && Reaches(c.space, h, run[0]) && RunReaches(c, Direct(c.space, h, run[0]), run[1..])
  }

  function DirectRun(c: Config, h: Hart, run: seq<Instr>): (h': Hart)
    requires h.Valid() && RunReaches(c, h, run)
    ensures h'.Valid()
    decreases |run|
  {
    if run == [] then h else DirectRun(c, Direct(c.space, h, run[0]), run[1..])
  }

  function ToldRun(c: Config, h: Hart, run: seq<Instr>): seq<Note>
    requires h.Valid() && RunReaches(c, h, run)
    decreases |run|
  {
    if run == [] then [] else Told(c, h, run[0]) + ToldRun(c, Direct(c.space, h, run[0]), run[1..])
  }

  /** Transparency: after any run of loads and stores carried out by trapping, registers, pc and
      BAR are those of direct execution, and the hooks have been told of each access in turn. */
  lemma {:induction false} TrappingIsTransparent(c: Config, st: Trapped, run: seq<Instr>)
    requires st.Valid() && RunReaches(c, st.Arch(), run) && c.space.Valid() && !c.stopWrites
    ensures TrapRun(c, st, run).Arch() == DirectRun(c, st.Arch(), run)
    ensures TrapRun(c, st, run).notes == st.notes + ToldRun(c, st.Arch(), run)
    decreases |run|
  {
    if run != [] {
      var st1 := TrapOne(c, st, run[0]);
      TrappingIsTransparent(c, st1, run[1..]);
      Regroup(st.notes, Told(c, st.Arch(), run[0]), ToldRun(c, st1.Arch(), run[1..]));
    }
  }

  /** A compressed word load is not transparent: it zero-extends where the instruction set
      sign-extends. The two agree exactly when the word is not negative, or goes nowhere. */
  lemma CompressedLoadWord(c: Config, st: Trapped, half: nat, off: nat)
    requires st.Valid() && off + 4 <= |st.shadow|
    requires DecodeCompressed(half).Some?
    requires !DecodeCompressed(half).value.isStore && DecodeCompressed(half).value.size == 4
    ensures var a := DecodeCompressed(half).value;
            var word := FromLE(st.shadow[off..off + 4]);
            && !a.signExtend
            && (Apply(c, st, a, off, 2).words == Apply(c, st, a.(signExtend := true), off, 2).words
                <==> (a.rd == 0 || word < 0x8000_0000))
  {
    var a := DecodeCompressed(half).value;
    var word := FromLE(st.shadow[off..off + 4]);
    FromLESmall(st.shadow[off..off + 4]);
    ShiftingExtends(word, 4);
    if a.rd != 0 {
      assert Apply(c, st, a, off, 2).words[a.rd] == word;
      assert Apply(c, st, a.(signExtend := true), off, 2).words[a.rd] == Extend(word, 4, true);
    }
  }

  /** `c.lw a0, 0(a1)` of a word of ones: -1 is loaded as 0xFFFF_FFFF. */
  lemma CompressedLoadOfMinusOne(c: Config, st: Trapped, off: nat)
    requires st.Valid() && off + 4 <= |st.shadow| && st.shadow[off..off + 4] == [0xff, 0xff, 0xff, 0xff]
    ensures var a := Access(10, 0, 4, false, false);
            && DecodeCompressed(0x4188) == Some(a)
            && Apply(c, st, a, off, 2).words[10] == 0xFFFF_FFFF
            && Apply(c, st, a.(signExtend := true), off, 2).words[10] == U64 - 1
  {
    var ones: seq<byte> := [0xff, 0xff, 0xff, 0xff];
    assert ones[1..] == [0xff, 0xff, 0xff] && ones[1..][1..] == [0xff, 0xff] && ones[1..][1..][1..] == [0xff];
    assert FromLE(ones) == 0xFFFF_FFFF;
    ShiftingExtends(0xFFFF_FFFF, 4);
  }

  // ---- the code ----

  class Tracer {
    const config: Config
    const words: array<nat>
    const shadow: array<byte>
    var notes: seq<Note>

    ghost predicate Valid()
      reads this, words, shadow
    {
      && words.Length == 32 && shadow.Length == config.space.len && config.space.Valid()
      && words as object != shadow as object && View().Valid()
    }

    ghost function View(): Trapped
      reads this, words, shadow
    {
      Trapped(words[..], shadow[..], notes)
    }

    constructor (config: Config, words: array<nat>, shadow: array<byte>)
      requires words.Length == 32 && shadow.Length == config.space.len && config.space.Valid()
      requires words as object != shadow as object && Trapped(words[..], shadow[..], []).Valid()
      ensures Valid() && this.config == config && this.words == words && this.shadow == shadow && notes == []
    {
      this.config, this.words, this.shadow, notes := config, words, shadow, [];
    }

    /** The first mapping an address lies in. */
    method FindMap(va: nat) returns (i: nat)
      ensures i == Find(config.space.maps, va)
    {
      var maps := config.space.maps;
      i := 0;
      while i < |maps|
        invariant i <= |maps| && Find(maps, va) == i + Find(maps[i..], va)
      {
        if maps[i].va <= va < maps[i].va + maps[i].len { return; }
        i := i + 1;
      }
    }

    method EmulateRead(off: nat, dst: array<byte>, size: nat)
      requires Valid() && size <= dst.Length && off + size <= shadow.Length
      requires dst as object != shadow as object && dst as object != words as object
      modifies this`notes, dst
      ensures dst[..size] == shadow[off..off + size] && dst[size..] == old(dst[size..])
      ensures notes == if config.readHook then old(notes) + [Note(false, off, size, shadow[off..off + size])]
                       else old(notes)
    {
      var i := 0;
      while i < size
        invariant i <= size
        invariant dst[..i] == shadow[off..off + i] && dst[size..] == old(dst[size..]) && notes == old(notes)
      {
        dst[i] := shadow[off + i];
        i := i + 1;
      }
      if config.readHook {
        notes := notes + [Note(false, off, size, dst[..size])];
      }
    }

    method EmulateWrite(off: nat, src: seq<byte>, size: nat)
      requires Valid() && size <= |src| && off + size <= shadow.Length
      modifies this`notes, shadow
      ensures shadow[..] == if config.stopWrites then old(shadow[..]) else Overlay(old(shadow[..]), off, src[..size])
      ensures notes == if config.writeHook then old(notes) + [Note(true, off, size, src[..size])] else old(notes)
    {
      ghost var was := shadow[..];
      if !config.stopWrites {
        var i := 0;
        while i < size
          invariant i <= size && notes == old(notes)
          invariant forall k :: 0 <= k < shadow.Length ==>
                      shadow[k] == if off <= k < off + i then src[k - off] else was[k]
        {
          shadow[off + i] := src[i];
          i := i + 1;
        }
        assert shadow[..] == Overlay(was, off, src[..size]);
      }
      if config.writeHook {
        notes := notes + [Note(true, off, size, src[..size])];
      }
    }

    method LoadRegister(a: Access, off: nat)
      requires Valid() && a.rd < 32 && a.size in {1, 2, 4, 8} && off + a.size <= shadow.Length
      modifies this`notes, words
      ensures var data := shadow[off..off + a.size];
              && words[..] == SetReg(old(words[..]), a.rd,
                                     if a.signExtend then ShiftUpAndDown(FromLE(data), a.size) else FromLE(data))
              && notes == if config.readHook then old(notes) + [Note(false, off, a.size, data)] else old(notes)
    {
      var buf := new byte[8](_ => 0);
      ghost var zeros := buf[a.size..];
      assert forall k :: 0 <= k < |zeros| ==> zeros[k] == 0;
      EmulateRead(off, buf, a.size);
      assert buf[a.size..] == zeros;
      ghost var data := shadow[off..off + a.size];
      assert buf[..] == data + zeros;
      ZerosAbove(data, zeros);
      var val := FromLE(buf[..]);
      if a.rd != 0 {
        words[a.rd] := if a.signExtend then ShiftUpAndDown(val, a.size) else val;
      }
    }

    method StoreRegister(a: Access, off: nat)
      requires Valid() && a.rs2 < 32 && a.size in {1, 2, 4, 8} && off + a.size <= shadow.Length
      modifies this`notes, shadow
      ensures var data := ToLE(GetReg(words[..], a.rs2), 8)[..a.size];
              && shadow[..] == (if config.stopWrites then old(shadow[..]) else Overlay(old(shadow[..]), off, data))
              && notes == if config.writeHook then old(notes) + [Note(true, off, a.size, data)] else old(notes)
    {
      var src := if a.rs2 == 0 then 0 else words[a.rs2];
      EmulateWrite(off, ToLE(src, 8), a.size);
    }

    method SkipInstruction(step: nat)
      requires words.Length == 32
      modifies words
      ensures words[..] == old(words[..])[0 := (old(words[..])[0] + step) % U64]
    {
      words[0] := (words[0] + step) % U64;
    }

    method Emulate(a: Access, off: nat, step: nat)
      requires Valid() && a.rd < 32 && a.rs2 < 32 && a.size in {1, 2, 4, 8} && off + a.size <= shadow.Length
      modifies this`notes, words, shadow
      ensures Valid() && View() == Apply(config, old(View()), a, off, step)
    {
      ghost var was := View();
      if a.isStore {
        StoreRegister(a, off);
      } else {
        LoadRegister(a, off);
      }
      SkipInstruction(step);
      assert View() == Apply(config, was, a, off, step);
    }

    /** The fault handler. `fetched` is the word at the exception pc, when it can be read. */
    method EmulateFault(user: bool, fetched: Option<nat>, m: Mapped, faultVa: nat) returns (err: int)
      requires Valid() && m.pa < U64 && m.va <= faultVa
      requires var a := Decoded(fetched);
               a.Some? ==> ShadowOffset(config.space, m, faultVa) + a.value.size <= shadow.Length
      modifies this`notes, words, shadow
      ensures Valid()
      ensures err == if user then EACCES else if fetched.None? then EFAULT
                     else if Decoded(fetched).None? then EINVAL else 0
      ensures View() == if err != 0 then old(View())
                        else Apply(config, old(View()), Decoded(fetched).value, ShadowOffset(config.space, m, faultVa),
                                   if fetched.value % 4 == 3 then 4 else 2)
    {
      if user { return EACCES; }
      if fetched.None? { return EFAULT; }
      var w := fetched.value;
      var compressed := w % 4 != 3;
      var ls := if compressed then DecodeCompressed(w % U16) else DecodeLoadStore(w);
      if ls.None? { return EINVAL; }
      Emulate(ls.value, ShadowOffset(config.space, m, faultVa), if compressed then 2 else 4);
      err := 0;
    }

    /** The hook on page faults: a load or store fault of the kernel on a traced mapping is
        handled, anything else is left to the kernel. */
    method HandlePageFault(loadOrStore: bool, user: bool, fetched: Option<nat>, va: nat) returns (handled: bool)
      requires Valid()
      requires var i, a := Find(config.space.maps, va), Decoded(fetched);
               i < |config.space.maps| && a.Some? ==>
                 ShadowOffset(config.space, config.space.maps[i], va) + a.value.size <= shadow.Length
      modifies this`notes, words, shadow
      ensures Valid()
      ensures handled <==> loadOrStore && !user && Find(config.space.maps, va) < |config.space.maps|
                           && Decoded(fetched).Some?
      ensures View() == if !handled then old(View())
                        else Apply(config, old(View()), Decoded(fetched).value,
                                   ShadowOffset(config.space, config.space.maps[Find(config.space.maps, va)], va),
                                   if fetched.value % 4 == 3 then 4 else 2)
    {
      if !loadOrStore || user { return false; }
      var i := FindMap(va);
      if i == |config.space.maps| { return false; }
      var err := EmulateFault(user, fetched, config.space.maps[i], va);
      handled := err == 0;
    }
  }

  /** What the handler does for an encoded load or store at its effective address is one trap. */
  lemma HandledIsTrapOne(c: Config, st: Trapped, i: Instr)
    requires st.Valid() && i.Valid() && c.space.Valid() && !c.stopWrites && Reaches(c.space, st.Arch(), i)
    ensures Decoded(Some(Encode(i))) == Some(AccessOf(i)) && Encode(i) % 4 == 3
    ensures var va := Address(st.Arch(), i);
            var off := ShadowOffset(c.space, c.space.maps[Find(c.space.maps, va)], va);
            && off + i.width <= |st.shadow|
            && Apply(c, st, AccessOf(i), off, 4) == TrapOne(c, st, i)
  {
    DecodesWhatIsEncoded(i);
    EmulationIsDirect(c, st, i);
  }

  /** Loads and stores handed to the handler one after the other, as the kernel would after the
      faults they take: what the tracer holds at the end is the run of their traps, and so what
      direct execution leaves. */
  method TakeTraps(t: Tracer, run: seq<Instr>)
    requires t.Valid() && !t.config.stopWrites && RunReaches(t.config, t.View().Arch(), run)
    modifies t`notes, t.words, t.shadow
    ensures t.Valid() && t.View() == TrapRun(t.config, old(t.View()), run)
    ensures t.View().Arch() == DirectRun(t.config, old(t.View().Arch()), run)
    ensures t.notes == old(t.notes) + ToldRun(t.config, old(t.View().Arch()), run)
  {
    ghost var st := t.View();
    var k := 0;
    while k < |run|
      invariant k <= |run| && t.Valid() && RunReaches(t.config, t.View().Arch(), run[k..])
      invariant TrapRun(t.config, t.View(), run[k..]) == TrapRun(t.config, st, run)
    {
      var i := run[k];
      ghost var now := t.View();
      var va := Address(Trapped(t.words[..], t.shadow[..], t.notes).Arch(), i);
      HandledIsTrapOne(t.config, now, i);
      var handled := t.HandlePageFault(true, false, Some(Encode(i)), va);
      assert handled && t.View() == TrapOne(t.config, now, i);
      assert run[k..][1..] == run[k + 1..];
      k := k + 1;
    }
    TrappingIsTransparent(t.config, st, run);
  }

  /** The access an instruction word stands for, compressed or not. */
  function Decoded(fetched: Option<nat>): (a: Option<Access>)
    ensures a.Some? ==> a.value.rd < 32 && a.value.rs2 < 32 && a.value.size in {1, 2, 4, 8}
  {
    if fetched.None? then None
    else if fetched.value % 4 == 3 then DecodeLoadStore(fetched.value)
    else DecodeCompressed(fetched.value % U16)
  }
}
