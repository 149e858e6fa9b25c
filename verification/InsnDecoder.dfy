/** The decoder as the code has it: one record whose fields every stage fills in, and a cursor
into the instruction bytes (kernel/trace/arch/x86/lib/insn.c). */
module InsnDecoder {
  import opened Bytes
  import opened InsnSpec
  import opened Linux

  class Decoder {
    const t: Tables
    const window: seq<byte>
    const x64: bool
    var prefixes: Field
    var rex: Field
    var vex: Field
    var opcode: Field
    var modrm: Field
    var sib: Field
    var disp: Field
    var imm1: Field
    var imm2: Field
    var emulate: nat
    var attr: Attr
    var opnd: nat
    var addr: nat
    var length: nat
    var next: nat

    function View(): Insn
      reads this
    {
      Insn(prefixes, rex, vex, opcode, modrm, sib, disp, imm1, imm2, emulate, attr, opnd, addr, length, x64, next)
    }

    /** The cursor never passes the end of the window. */
    ghost predicate Valid()
      reads this
    {
      t.Valid() && next <= |window|
    }

    /** What a stage reports: zero and a new record, or an error code. */
    ghost function Report(err: int): Outcome<Insn>
      reads this
    {
      if err == 0 then Ok(View()) else Error(err)
    }

    constructor (tables: Tables, buf: seq<byte>, is64: bool)
      requires tables.Valid()
      ensures Valid() && t == tables && window == Window(buf) && View() == Init(is64)
    {
      t, window, x64 := tables, if |buf| > MAX_INSN_SIZE then buf[..MAX_INSN_SIZE] else buf, is64;
      prefixes, rex, vex, opcode, modrm, sib, disp, imm1, imm2 :=
        BLANK, BLANK, BLANK, BLANK, BLANK, BLANK, BLANK, BLANK, BLANK;
      emulate, attr, opnd, addr, length, next := 0, NO_ATTR, 4, if is64 then 8 else 4, 0, 0;
    }

    // ---- prefixes ----

    method TryEmulate(prefix: seq<byte>) returns (found: bool)
      requires Valid()
      modifies this`emulate, this`next
      ensures Valid() && found == StartsWith(window, old(next), prefix)
      ensures emulate == (if found then |prefix| else old(emulate))
      ensures next == (if found then old(next) + |prefix| else old(next))
    {
      var i := 0;
      while i < |prefix|
        invariant i <= |prefix| && next + i <= |window|
        invariant forall k :: 0 <= k < i ==> window[next + k] == prefix[k]
      {
        if next + i >= |window| { return false; }
        if window[next + i] != prefix[i] {
          NotPrefix(window, next, prefix, i);
          return false;
        }
        i := i + 1;
      }
      assert window[next..next + |prefix|] == prefix;
      emulate, next := |prefix|, next + |prefix|;
      found := true;
    }

    method GetEmulatePrefix()
      requires Valid()
      modifies this`emulate, this`next
      ensures Valid() && View() == AfterEmulate(t, window, old(View()))
    {
      var found := TryEmulate(t.xen);
      if !found { found := TryEmulate(t.kvm); }
    }

    method SeenBefore(b: byte, nb: nat) returns (seen: bool)
      requires nb <= 4
      ensures seen == (b in prefixes.bytes[..nb])
    {
      var i := 0;
      while i < nb
        invariant i <= nb && b !in prefixes.bytes[..i]
      {
        if prefixes.bytes[i] == b { return true; }
        i := i + 1;
      }
      seen := false;
    }

    ghost function Scanned(nb: nat, last: byte): Scan
      reads this
    {
      Scan(prefixes.bytes, nb, prefixes.nbytes, addr, opnd, next, last)
    }

    method AcceptPrefix(b: byte, nb: nat, seen: bool, ghost last: byte) returns (more: nat)
      requires nb <= 4 && seen == (b in prefixes.bytes[..nb]) && (seen || nb < 4)
      modifies this`prefixes, this`addr, this`opnd, this`next
      ensures more <= 4 && next == old(next) + 1 && prefixes.got == old(prefixes.got)
      ensures Scanned(more, b) == ScanOne(t, x64, old(Scanned(nb, last)), b)
    {
      more := nb;
      if !seen {
        prefixes := prefixes.(bytes := prefixes.bytes[nb := b]);
        more := nb + 1;
        if t.primary(b).AddressSize() {
          addr := ToggleAddr(addr, x64);
        } else if t.primary(b).OperandSize() {
          opnd := ToggleOpnd(opnd);
        }
      }
      prefixes := prefixes.(nbytes := prefixes.nbytes + 1);
      next := next + 1;
    }

    method ScanPrefixes() returns (err: int, nb: nat, last: byte)
      requires Valid()
      modifies this`prefixes, this`addr, this`opnd, this`next
      ensures Valid() && nb <= 4 && prefixes.got == old(prefixes.got)
      ensures Legacy(t, window, x64, old(Scanned(0, 0))) == if err == 0 then Ok(Scanned(nb, last)) else Error(err)
      ensures err == 0 ==> next < |window|
    {
      nb, last := 0, 0;
      if next >= |window| { return ENODATA, nb, last; }
      var b := window[next];
      while t.primary(b).LegacyPrefix()
        invariant nb <= 4 && next < |window| && b == window[next] && prefixes.got == old(prefixes.got)
        invariant Legacy(t, window, x64, Scanned(nb, last)) == Legacy(t, window, x64, old(Scanned(0, 0)))
        decreases |window| - next
      {
        var seen := SeenBefore(b, nb);
        if !seen && nb == 4 { break; }
        nb := AcceptPrefix(b, nb, seen, last);
        last := b;
        if next >= |window| { return ENODATA, nb, last; }
        b := window[next];
      }
      err := 0;
    }

    method PlaceLastPrefix(nb: nat, last: byte)
      requires nb <= 4
      modifies this`prefixes
      ensures prefixes == old(prefixes).(bytes := PlaceLast(old(Scanned(nb, last))))
    {
      if last == 0 || last == prefixes.bytes[3] { return; }
      ghost var was := prefixes.bytes;
      if prefixes.bytes[3] != 0 {
        var b := prefixes.bytes[3];
        var i := 0;
        while i < nb
          invariant i <= nb
          invariant prefixes == old(prefixes).(bytes := prefixes.bytes)
          invariant forall k :: 0 <= k < 4 ==> prefixes.bytes[k] == if k < i && was[k] == last then b else was[k]
        {
          if prefixes.bytes[i] == last {
            prefixes := prefixes.(bytes := prefixes.bytes[i := b]);
          }
          i := i + 1;
        }
      }
      prefixes := prefixes.(bytes := prefixes.bytes[3 := last]);
      assert prefixes.bytes == PlaceLast(old(Scanned(nb, last)));
    }

    method TakeRex() returns (err: int, skip: bool)
      requires Valid()
      modifies this`rex, this`opnd, this`next
      ensures Valid()
      ensures RexPrefix(t, window, old(View())) == if err == 0 then Ok((View(), skip)) else Error(err)
    {
      err, skip := 0, false;
      if x64 {
        if next >= |window| { return ENODATA, false; }
        var b := window[next];
        if t.primary(b).Rex() {
          rex := rex.(bytes := [b, 0, 0, 0], nbytes := 1);
          next := next + 1;
          if RexW(b) { opnd := 8; }
        } else if t.primary(b).Rex2() {
          rex := rex.(bytes := rex.bytes[0 := b]);
          if next + 1 >= |window| { return ENODATA, false; }
          b := window[next + 1];
          rex := rex.(bytes := rex.bytes[1 := b], nbytes := 2);
          next := next + 2;
          if RexW(b) { opnd := 8; }
          skip := true;
        }
      }
      rex := rex.(got := true);
    }

    method TakeEvex(b: byte, b2: byte) returns (err: int)
      requires Valid() && next + 1 < |window|
      modifies this`vex, this`opnd, this`next
      ensures Valid() && EvexBytes(window, old(View()), b, b2) == Report(err)
    {
      vex := vex.(bytes := vex.bytes[0 := b][1 := b2]);
      if next + 2 >= |window| { return ENODATA; }
      var b3 := window[next + 2];
      vex := vex.(bytes := vex.bytes[2 := b3]);
      if next + 3 >= |window| { return ENODATA; }
      var b4 := window[next + 3];
      vex := vex.(bytes := vex.bytes[3 := b4], nbytes := 4);
      next := next + 4;
      if x64 && VexW(b4) { opnd := 8; }
      assert vex.bytes == [b, b2, b3, b4];
      vex := vex.(got := true);
      err := 0;
    }

    method TakeVex(a: Attr) returns (err: int)
      requires Valid()
      modifies this`vex, this`opnd, this`next
      ensures Valid() && VexPrefix(window, old(View()), a) == Report(err)
    {
      if next >= |window| { return ENODATA; }
      var b := window[next];
      if a.Vex() || a.Xop() {
        if next + 1 >= |window| { return ENODATA; }
        var b2 := window[next + 1];
        if !IsOpcodeAfterAll(a, x64, b2) {
          if a.Evex() {
            err := TakeEvex(b, b2);
            return;
          }
          vex := vex.(bytes := vex.bytes[0 := b][1 := b2]);
          if a.Vex3() || a.Xop() {
            if next + 2 >= |window| { return ENODATA; }
            b2 := window[next + 2];
            vex := vex.(bytes := vex.bytes[2 := b2], nbytes := 3);
            next := next + 3;
            if x64 && VexW(b2) { opnd := 8; }
          } else {
            vex := vex.(bytes := vex.bytes[2 := b2 % 128], nbytes := 2);
            next := next + 2;
          }
        }
      }
      vex := vex.(got := true);
      err := 0;
    }

    method TakeRexAndVex() returns (err: int)
      requires Valid() && next < |window|
      modifies this`rex, this`vex, this`opnd, this`next, this`prefixes
      ensures Valid() && RexAndVex(t, window, old(View())) == Report(err)
    {
      var a := t.primary(window[next]);
      var skip;
      err, skip := TakeRex();
      if err != 0 { return; }
      if skip {
        vex := vex.(got := true);
      } else {
        err := TakeVex(a);
        if err != 0 { return; }
      }
      prefixes := prefixes.(got := true);
    }

    method GetPrefixes() returns (err: int)
      requires Valid()
      modifies this
      ensures Valid() && InsnSpec.GetPrefixes(t, window, old(View())) == Report(err)
    {
      if prefixes.got { return 0; }
      GetEmulatePrefix();
      ghost var s1 := View();
      var nb, last;
      err, nb, last := ScanPrefixes();
      if err != 0 { return; }
      ghost var c := Scanned(nb, last);
      PlaceLastPrefix(nb, last);
      assert View() == AfterScan(s1, c);
      err := TakeRexAndVex();
    }

    // ---- opcode ----

    method TakeEscape()
      requires Valid() && next < |window| && opcode.nbytes < 4
      modifies this`opcode, this`next, this`attr
      ensures Valid() && View() == EscapeOne(t, old(View()), window[old(next)])
    {
      var op := window[next];
      var pfx := LastPrefixId(t, View());
      next := next + 1;
      opcode := opcode.(bytes := opcode.bytes[opcode.nbytes := op], nbytes := opcode.nbytes + 1);
      attr := t.escape(op, pfx, attr);
    }

    method FollowEscapes() returns (err: int)
      requires Valid() && attr.esc <= 3 && (attr.esc == 0 || opcode.nbytes <= attr.esc)
      modifies this`opcode, this`next, this`attr
      ensures Valid() && Escapes(t, window, old(View())) == Report(err)
    {
      while attr.esc != 0
        invariant Valid() && attr.esc <= 3 && (attr.esc == 0 || opcode.nbytes <= attr.esc)
        invariant Escapes(t, window, View()) == Escapes(t, window, old(View()))
        decreases if attr.esc == 0 then 0 else 4 - attr.esc
      {
        if next >= |window| { return ENODATA; }
        TakeEscape();
      }
      err := 0;
    }

    method TakeVexOpcode(op: byte) returns (err: int)
      requires Valid()
      modifies this`attr, this`opnd
      ensures Valid() && VexOpcode(t, old(View()), op) == Report(err)
    {
      if t.primary(vex.bytes[0]).Xop() {
        attr := t.xop(op, XopM(vex));
        if !attr.vexok {
          attr := NO_ATTR;
          return EINVAL;
        }
      } else {
        var p := VexP(vex);
        attr := t.avx(op, VexM(vex), p);
        if attr.scalable && !VexWBit(vex) && p == 1 {
          opnd := 2;
        }
        if (attr.evexonly && vex.nbytes != 4) || (!attr.vexok && attr.grp == 0) {
          attr := NO_ATTR;
          return EINVAL;
        }
      }
      err := 0;
    }

    method TakeLegacyOpcode(op: byte) returns (err: int)
      requires Valid() && opcode.nbytes == 1
      modifies this`opcode, this`next, this`attr
      ensures Valid() && LegacyOpcode(t, window, old(View()), op) == Report(err)
    {
      attr := t.primary(op);
      if x64 && attr.inv64 {
        attr := attr.OnlyInv64();
      }
      err := FollowEscapes();
      if err != 0 { return; }
      if attr.MustVex() {
        attr := NO_ATTR;
        return EINVAL;
      }
    }

    method TakeOpcode() returns (err: int)
      requires Valid()
      modifies this`opcode, this`next, this`attr, this`opnd
      ensures Valid() && Opcode(t, window, old(View())) == Report(err)
    {
      if next >= |window| { return ENODATA; }
      var op := window[next];
      next := next + 1;
      opcode := opcode.(bytes := opcode.bytes[0 := op], nbytes := 1);
      if !vex.IsZero() {
        err := TakeVexOpcode(op);
        if err != 0 { return; }
      } else if rex.nbytes == 2 {
        var pfx := LastPrefixId(t, View());
        attr := if rex.bytes[1] >= 128 then t.escape(op, pfx, t.primary(0x0f)) else t.primary(op);
      } else {
        err := TakeLegacyOpcode(op);
        if err != 0 { return; }
      }
      opcode := opcode.(got := true);
      err := 0;
    }

    method GetOpcode() returns (err: int)
      requires Valid()
      modifies this
      ensures Valid() && InsnSpec.GetOpcode(t, window, old(View())) == Report(err)
    {
      if opcode.got { return 0; }
      err := GetPrefixes();
      if err != 0 { return; }
      err := TakeOpcode();
    }

    // ---- ModRM, SIB, displacement ----

    method TakeGroup(m: byte) returns (err: int)
      requires Valid()
      modifies this`attr
      ensures Valid() && Group(t, old(View()), m) == Report(err)
    {
      var pfx := LastPrefixId(t, View());
      attr := t.group(m, pfx, attr);
      if !vex.IsZero() && !attr.vexok {
        attr := NO_ATTR;
        return EINVAL;
      }
      err := 0;
    }

    method TakeModrm() returns (err: int)
      requires Valid()
      modifies this`modrm, this`next, this`attr, this`opnd
      ensures Valid() && Modrm(t, window, old(View())) == Report(err)
    {
      if attr.modrm {
        if next >= |window| { return ENODATA; }
        var m := window[next];
        next := next + 1;
        modrm := modrm.(bytes := [m, 0, 0, 0], nbytes := 1);
        if attr.grp != 0 {
          err := TakeGroup(m);
          if err != 0 { return; }
        }
      }
      if x64 && attr.force64 {
        opnd := 8;
      }
      modrm := modrm.(got := true);
      err := 0;
    }

    method GetModrm() returns (err: int)
      requires Valid()
      modifies this
      ensures Valid() && InsnSpec.GetModrm(t, window, old(View())) == Report(err)
    {
      if modrm.got { return 0; }
      err := GetOpcode();
      if err != 0 { return; }
      err := TakeModrm();
    }

    /** Reads an `n`-byte value and moves on. */
    method Next(f: Field, n: nat, signed: bool) returns (err: int, g: Field)
      requires Valid() && n in {1, 2, 4}
      modifies this`next
      ensures Valid() && Take(window, f, old(next), n, signed) == if err == 0 then Ok(g) else Error(err)
      ensures next == if err == 0 then old(next) + n else old(next)
    {
      if next + n > |window| { return ENODATA, f; }
      g := f.(bytes := Widen(window, next, n, signed), nbytes := n);
      next := next + n;
      err := 0;
    }

    method TakeSib() returns (err: int)
      requires Valid()
      modifies this`sib, this`next
      ensures Valid() && Sib(window, old(View())) == Report(err)
    {
      if modrm.nbytes != 0 {
        var m := modrm.bytes[0];
        if addr != 2 && Mod(m) != 3 && Rm(m) == 4 {
          var f;
          err, f := Next(sib, 1, false);
          if err != 0 { return; }
          sib := f;
        }
      }
      sib := sib.(got := true);
      err := 0;
    }

    method GetSib() returns (err: int)
      requires Valid()
      modifies this
      ensures Valid() && InsnSpec.GetSib(t, window, old(View())) == Report(err)
    {
      if sib.got { return 0; }
      err := GetModrm();
      if err != 0 { return; }
      err := TakeSib();
    }

    method TakeDisplacement() returns (err: int)
      requires Valid()
      modifies this`disp, this`next
      ensures Valid() && Displacement(window, old(View())) == Report(err)
    {
      var n := 0;
      if modrm.nbytes != 0 {
        var mod, rm, base := Mod(modrm.bytes[0]), Rm(modrm.bytes[0]), sib.bytes[0] % 8;
        if mod == 3 {
        } else if mod == 1 {
          n := 1;
        } else if addr == 2 {
          if (mod == 0 && rm == 6) || mod == 2 { n := 2; }
        } else if (mod == 0 && rm == 5) || mod == 2 || (mod == 0 && base == 5) {
          n := 4;
        }
      }
      if n != 0 {
        var f;
        err, f := Next(disp, n, true);
        if err != 0 { return; }
        disp := f;
      }
      disp := disp.(got := true);
      err := 0;
    }

    method GetDisplacement() returns (err: int)
      requires Valid()
      modifies this
      ensures Valid() && InsnSpec.GetDisplacement(t, window, old(View())) == Report(err)
    {
      if disp.got { return 0; }
      err := GetSib();
      if err != 0 { return; }
      err := TakeDisplacement();
    }

    // ---- immediates ----

    /** The values of one or two slots; moffset and immediate share the same storage. */
    method FillSlots(l: Layout) returns (err: int)
      requires Valid() && l.Slots? && l.first in {1, 2, 4} && l.second in {0, 2, 4}
      modifies this`imm1, this`imm2, this`next
      ensures Valid() && TakeSlots(window, old(View()), l) == Report(err)
    {
      var f;
      err, f := Next(imm1, l.first, true);
      if err != 0 { return; }
      imm1 := f;
      if l.second != 0 {
        err, f := Next(imm2, l.second, l.secondSigned);
        if err != 0 { return; }
        imm2 := f;
      }
      if l.got {
        imm1, imm2 := imm1.(got := true), imm2.(got := true);
      }
    }

    method TakeSecond() returns (err: int)
      requires Valid()
      modifies this`imm2, this`next
      ensures Valid() && SecondByte(window, old(View())) == Report(err)
    {
      if !attr.moffset && attr.scnd {
        var f;
        err, f := Next(imm2, 1, true);
        if err != 0 { return; }
        imm2 := f;
      }
      err := 0;
    }

    method TakeImmediate() returns (err: int)
      requires Valid()
      modifies this`imm1, this`imm2, this`next
      ensures Valid() && Immediate(window, old(View())) == Report(err)
    {
      var l := LayoutOf(View());
      if l.BadLayout? { return ENODATA; }
      if l.Slots? {
        err := FillSlots(l);
        if err != 0 { return; }
        err := TakeSecond();
        if err != 0 { return; }
      }
      imm1 := imm1.(got := true);
      err := 0;
    }

    method GetImmediate() returns (err: int)
      requires Valid()
      modifies this
      ensures Valid() && InsnSpec.GetImmediate(t, window, old(View())) == Report(err)
    {
      if imm1.got { return 0; }
      err := GetDisplacement();
      if err != 0 { return; }
      err := TakeImmediate();
    }

    // ---- the whole instruction ----

    method GetLength() returns (err: int)
      requires Valid()
      modifies this
      ensures Valid() && InsnSpec.GetLength(t, window, old(View())) == Report(err)
    {
      if length != 0 { return 0; }
      err := GetImmediate();
      if err != 0 { return; }
      length := next % 256;
    }

    static method DecodeInsn(tables: Tables, buf: seq<byte>, is64: bool) returns (err: int, d: Decoder)
      requires tables.Valid()
      ensures fresh(d) && Decode(tables, buf, is64) == d.Report(err)
    {
      d := new Decoder(tables, buf, is64);
      err := d.GetLength();
      if err != 0 { return; }
      if !(d.opcode.got && d.modrm.got && d.sib.got && d.disp.got && d.imm1.got) {
        err := EINVAL;
      }
    }
  }

  lemma NotPrefix(b: seq<byte>, at: nat, prefix: seq<byte>, i: nat)
    requires at + i < |b| && i < |prefix| && b[at + i] != prefix[i]
    ensures !StartsWith(b, at, prefix)
  {
    if at + |prefix| <= |b| {
      assert b[at..at + |prefix|][i] == b[at + i];
    }
  }
}
