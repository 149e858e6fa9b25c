/** PCI capabilities: laid out one after the other, linked into the standard and the extended
list, and kept both as typed registers and as bytes (kernel/framework/capabilities.c). */
module Caps {
  import opened Bytes
  import opened Linux
  import opened Wrappers

  const MAX_CAPS: nat := 16
  const CFG_SIZE: nat := 256
  const EXT_SIZE: nat := 4096 - 256
  const CAPABILITY_LIST: nat := 0x34
  const TYPE_ENDPOINT: nat := 0

  const WORD: nat := 2
  const DWORD: nat := 4

  datatype Config =
    | Msi(is64: bool, masking: bool, vectorsLog2: byte)
    | Msix(bar: byte, table: nat, pba: nat, entries: nat)
    | Pm(d1: bool, d2: bool, pme: bool, version: byte)
    | Pcie(deviceType: byte, width: byte, speed: byte)
    | Vsec(vendor: nat, id: nat, rev: byte, data: seq<byte>)
    | Pasid(maxWidth: byte, execute: bool, privileged: bool)
  {
    predicate Extended() { Pasid? }

    /** The number of bytes the capability takes. */
    function Size(): (n: nat)
      ensures n >= 8
    {
      match this
      case Msi(is64, masking, _) => 12 + (if is64 then 4 else 0) + (if masking then 8 else 0)
      case Msix(_, _, _, _) => 12
      case Pm(_, _, _, _) => 8
      case Pcie(_, _, _) => 60
      case Vsec(_, _, _, data) => 8 + |data|
      case Pasid(_, _, _) => 8
    }
  }

  datatype Cap = Cap(config: Config, offset: nat, size: nat)

  datatype Manager = Manager(caps: seq<Cap>, next: nat, extNext: nat)

  const EMPTY: Manager := Manager([], 0x40, 0x100)

  // ---- adding capabilities ----

  /** The first capability of a kind; their number when there is none. */
  function FindPcie(caps: seq<Cap>): (i: nat)
    ensures i <= |caps| && (i < |caps| ==> caps[i].config.Pcie?)
    ensures forall j :: 0 <= j < i ==> !caps[j].config.Pcie?
  {
    if caps == [] || caps[0].config.Pcie? then 0 else 1 + FindPcie(caps[1..])
  }

  function FindMsi(caps: seq<Cap>): (i: nat)
    ensures i <= |caps| && (i < |caps| ==> caps[i].config.Msi?)
    ensures forall j :: 0 <= j < i ==> !caps[j].config.Msi?
  {
    if caps == [] || caps[0].config.Msi? then 0 else 1 + FindMsi(caps[1..])
  }

  /** A PCI Express endpoint needs 64-bit message addresses. */
  predicate WidthOk(deviceType: byte, is64: bool) {
    deviceType == TYPE_ENDPOINT ==> is64
  }

  /** What an attempt to add a capability returns. */
  function AddCode(m: Manager, c: Config): int {
    if |m.caps| >= MAX_CAPS then ENOMEM
    else if c.Msi? && FindPcie(m.caps) == |m.caps| then EINVAL
    else if c.Msi? && !WidthOk(m.caps[FindPcie(m.caps)].config.deviceType, c.is64) then EINVAL
    else if c.Pcie? && FindMsi(m.caps) < |m.caps|
         && !WidthOk(c.deviceType, m.caps[FindMsi(m.caps)].config.is64) then EINVAL
    else 0
  }

  /** A vendor block is copied before it is added, if there is memory for the copy. */
  function AddResult(m: Manager, c: Config, memory: bool): int {
    if AddCode(m, c) == 0 && c.Vsec? && !memory then ENOMEM else AddCode(m, c)
  }

  /** Offsets and sizes are kept in eight bits (sixteen for extended offsets). */
  function Added(m: Manager, c: Config): Manager {
    var cap := Cap(c, if c.Extended() then m.extNext else m.next, c.Size() % 256);
    Manager(m.caps + [cap],
            if c.Extended() then m.next else (m.next + cap.size) % 256,
            if c.Extended() then (m.extNext + cap.size) % U16 else m.extNext)
  }

  function Add(m: Manager, c: Config): Manager {
    if AddCode(m, c) == 0 then Added(m, c) else m
  }

  function AddAll(cs: seq<Config>): Manager {
    if cs == [] then EMPTY else Add(AddAll(cs[..|cs| - 1]), cs[|cs| - 1])
  }

  /** Where the standard, and the extended, capabilities end. */
  function End(caps: seq<Cap>, extended: bool): nat {
    if caps == [] then (if extended then 0x100 else 0x40)
    else
      var c := caps[|caps| - 1].config;
      End(caps[..|caps| - 1], extended) + if c.Extended() == extended then c.Size() else 0
  }

  /** Every capability starts where those of its kind added before it end. */
  ghost predicate Placed(caps: seq<Cap>, i: nat)
    requires i < |caps|
  {
    && caps[i].offset == End(caps[..i], caps[i].config.Extended())
    && caps[i].size == caps[i].config.Size()
  }

  ghost predicate Laid(m: Manager) {
    && |m.caps| <= MAX_CAPS
    && (forall i :: 0 <= i < |m.caps| ==> Placed(m.caps, i))
    && m.next == End(m.caps, false) % 256 && End(m.caps, false) <= CFG_SIZE
    && m.extNext == End(m.caps, true) && End(m.caps, true) <= 0x100 + 8 * |m.caps|
  }

  /** The capability fits: it is extended, or the standard space has room for it. */
  predicate Fits(m: Manager, c: Config) {
    c.Extended() || End(m.caps, false) + c.Size() <= CFG_SIZE
  }

  lemma PlacedKept(caps: seq<Cap>, cap: Cap, i: nat)
    requires i < |caps| && Placed(caps, i)
    ensures Placed(caps + [cap], i)
  {
    assert (caps + [cap])[..i] == caps[..i];
  }

  lemma EndNext(caps: seq<Cap>, cap: Cap, extended: bool)
    ensures (caps + [cap])[..|caps|] == caps
    ensures End(caps + [cap], extended)
         == End(caps, extended) + if cap.config.Extended() == extended then cap.config.Size() else 0
  {
  }

  lemma AddKeepsLaid(m: Manager, c: Config)
    requires Laid(m) && Fits(m, c)
    ensures Laid(Add(m, c))
  {
    if AddCode(m, c) == 0 {
      var m' := Added(m, c);
      var cap := m'.caps[|m.caps|];
      AddedPlaced(m, c, cap);
      EndNext(m.caps, cap, false);
      EndNext(m.caps, cap, true);
      forall i | 0 <= i < |m'.caps| ensures Placed(m'.caps, i) {
        if i < |m.caps| {
          PlacedKept(m.caps, cap, i);
        }
      }
    }
  }

  /** A capability that does not fit is accepted all the same, and its offset or those of the next
      ones are lost in eight bits. */
  lemma AddKeepsLaidIff(m: Manager, c: Config)
    requires Laid(m)
    ensures Laid(Add(m, c)) <==> AddCode(m, c) != 0 || Fits(m, c)
  {
    if Fits(m, c) {
      AddKeepsLaid(m, c);
    } else if AddCode(m, c) == 0 {
      EndNext(m.caps, Added(m, c).caps[|m.caps|], false);
    }
  }

  /** A fourth PCI Express capability, the first that does not fit: it is accepted, reaches past
      the end of the standard space, and the next one would start inside the header. */
  lemma FourthPcie(c: Config)
    requires c.Pcie?
    ensures var m := Add(Add(Add(EMPTY, c), c), c);
            && Laid(m) && m.next == 244 && AddCode(m, c) == 0 && !Fits(m, c)
            && !Laid(Add(m, c)) && Add(m, c).next == 48
  {
    AddPcie(EMPTY, c);
    AddPcie(Add(EMPTY, c), c);
    AddPcie(Add(Add(EMPTY, c), c), c);
    var m := Add(Add(Add(EMPTY, c), c), c);
    AddPcie(m, c);
    AddKeepsLaidIff(m, c);
  }

  lemma AddPcie(m: Manager, c: Config)
    requires Laid(m) && |m.caps| < MAX_CAPS && c.Pcie? && forall k :: 0 <= k < |m.caps| ==> m.caps[k].config.Pcie?
    ensures AddCode(m, c) == 0 && |Add(m, c).caps| == |m.caps| + 1 && Add(m, c).next == (m.next + 60) % 256
    ensures forall k :: 0 <= k <= |m.caps| ==> Add(m, c).caps[k].config.Pcie?
    ensures End(Add(m, c).caps, false) == End(m.caps, false) + 60
    ensures Fits(m, c) ==> Laid(Add(m, c))
  {
    EndNext(m.caps, Added(m, c).caps[|m.caps|], false);
    AddKeepsLaidIff(m, c);
  }

  /** Nothing is lost in eight bits: the new capability starts where those of its kind end. */
  lemma AddedPlaced(m: Manager, c: Config, cap: Cap)
    requires Laid(m) && Fits(m, c) && |m.caps| < MAX_CAPS
    requires cap == Cap(c, if c.Extended() then m.extNext else m.next, c.Size() % 256)
    ensures Placed(m.caps + [cap], |m.caps|)
    ensures var m' := Added(m, c);
            && m'.next == (End(m.caps, false) + if c.Extended() then 0 else c.Size()) % 256
            && m'.extNext == End(m.caps, true) + if c.Extended() then c.Size() else 0
  {
    EndStarts(m.caps, false);
    EndNext(m.caps, cap, false);
  }

  /** Every capability of the list fits when its turn comes. */
  predicate AllFit(cs: seq<Config>) {
    cs == [] || (AllFit(cs[..|cs| - 1]) && Fits(AddAll(cs[..|cs| - 1]), cs[|cs| - 1]))
  }

  lemma {:induction false} AddAllLaid(cs: seq<Config>)
    requires AllFit(cs)
    ensures Laid(AddAll(cs))
    decreases |cs|
  {
    if cs != [] {
      AddAllLaid(cs[..|cs| - 1]);
      AddKeepsLaid(AddAll(cs[..|cs| - 1]), cs[|cs| - 1]);
    }
  }

  /** Ends only grow. */
  lemma {:induction false} EndGrows(caps: seq<Cap>, i: nat, extended: bool)
    requires i <= |caps|
    ensures End(caps[..i], extended) <= End(caps, extended)
    ensures i < |caps| && caps[i].config.Extended() == extended ==>
              End(caps[..i], extended) + caps[i].config.Size() <= End(caps, extended)
    decreases |caps|
  {
    if i == |caps| {
      assert caps[..i] == caps;
    } else {
      var n := |caps| - 1;
      if i < n {
        EndGrows(caps[..n], i, extended);
        assert caps[..n][..i] == caps[..i];
      }
    }
  }

  lemma {:induction false} EndStarts(caps: seq<Cap>, extended: bool)
    ensures End(caps, extended) >= if extended then 0x100 else 0x40
    decreases |caps|
  {
    if caps != [] {
      EndStarts(caps[..|caps| - 1], extended);
    }
  }

  /** The blocks are disjoint and in their space. */
  lemma BlocksAreDisjoint(m: Manager, i: nat, j: nat)
    requires Laid(m) && i < |m.caps|
    ensures var a := m.caps[i];
            if a.config.Extended() then 0x100 <= a.offset && a.offset + a.size <= 0x100 + EXT_SIZE
            else 0x40 <= a.offset && a.offset + a.size <= CFG_SIZE
    ensures i < j < |m.caps| && m.caps[i].config.Extended() == m.caps[j].config.Extended() ==>
              m.caps[i].offset + m.caps[i].size <= m.caps[j].offset
  {
    var e := m.caps[i].config.Extended();
    assert Placed(m.caps, i);
    EndGrows(m.caps, i, e);
    EndStarts(m.caps[..i], e);
    if i < j < |m.caps| {
      assert Placed(m.caps, j);
      EndGrows(m.caps[..j], i, e);
      assert m.caps[..j][..i] == m.caps[..i];
    }
  }

  // ---- the bytes ----

  function SetBit(v: nat, bit: nat): nat
    requires bit > 0
  {
    if v / bit % 2 == 1 then v else v + bit
  }

  function Flag(b: bool, v: nat): nat { if b then v else 0 }

  function MsiControl(is64: bool, masking: bool, vectorsLog2: byte): nat {
    var v := vectorsLog2 * 2;
    var w := if is64 then SetBit(v, 0x80) else v;
    if masking then SetBit(w, 0x100) else w
  }

  function Link(width: byte, speed: byte): nat { speed % 16 + width % 64 * 16 }

  /** The bytes a capability is built from; `next` is the offset of the next one of its kind. */
  function Block(c: Config, next: nat): (b: seq<byte>)
    ensures 8 <= |b| <= c.Size()
  {
    Header(c, next) + Body(c)
  }

  function Header(c: Config, next: nat): (b: seq<byte>)
    ensures |b| == if c.Extended() then 4 else 2
  {
    if c.Extended() then ToLE(ExtHeader(next), DWORD) else [CapId(c), next % 256]
  }

  function Body(c: Config): (b: seq<byte>)
    ensures |b| >= if c.Extended() then 4 else 6
    ensures |b| <= c.Size() - if c.Extended() then 4 else 2
  {
    match c
    case Msi(is64, masking, log2) => ToLE(MsiControl(is64, masking, log2), WORD) + MsiZeros(is64, masking)
    case Msix(bar, table, pba, entries) =>
      ToLE((entries + 2047) % 2048, WORD) + (ToLE(table / 8 * 8 + bar % 8, DWORD) + ToLE(pba / 8 * 8 + bar % 8, DWORD))
    case Pm(d1, d2, pme, version) =>
      ToLE(version % 4 + Flag(d1, 0x200) + Flag(d2, 0x400) + Flag(pme, 0xC800), WORD) + (ToLE(0, WORD) + [0, 0])
    case Pcie(deviceType, width, speed) => PcieBody(deviceType, Link(width, speed))
    case Vsec(vendor, id, rev, data) => VsecHead(vendor, id, rev, |data|) + data
    case Pasid(maxWidth, execute, privileged) =>
      ToLE(Flag(execute, 2) + Flag(privileged, 4) + (if maxWidth > 0 then (maxWidth - 1) * 256 else 0), WORD)
      + ToLE(0, WORD)
  }

  /** Address, data, and mask and pending bits where there are any. */
  function MsiZeros(is64: bool, masking: bool): (b: seq<byte>)
    ensures |b| == 6 + (if is64 then 4 else 0) + (if masking then 8 else 0)
    ensures forall k :: 0 <= k < |b| ==> b[k] == 0
  {
    var b := ToLE(0, DWORD) + (if is64 then ToLE(0, DWORD) else []) + ToLE(0, WORD)
             + (if masking then ToLE(0, DWORD) + ToLE(0, DWORD) else []);
    ZeroBytes(4);
    ZeroBytes(2);
    b
  }

  lemma {:induction false} ZeroBytes(n: nat)
    ensures forall k :: 0 <= k < n ==> ToLE(0, n)[k] == 0
  {
    if n != 0 {
      ZeroBytes(n - 1);
    }
  }

  function PcieBody(deviceType: byte, link: nat): (b: seq<byte>)
    ensures |b| == 58
  {
    ToLE(deviceType * 16 + 2, WORD) + ToLE(0x8000, DWORD) + ToLE(0, DWORD) + ToLE(link, DWORD)
    + ToLE(link * U16, DWORD) + seq(40, _ => 0)
  }

  function VsecHead(vendor: nat, id: nat, rev: byte, n: nat): (b: seq<byte>)
    ensures |b| == 6
  {
    [(8 + n) % 256, 0] + ToLE(vendor, WORD) + [id % 256, id / 256 % 16 + rev % 16 * 16]
  }

  function CapId(c: Config): byte
    requires !c.Extended()
  {
    match c
    case Msi(_, _, _) => 0x05
    case Msix(_, _, _, _) => 0x11
    case Pm(_, _, _, _) => 0x01
    case Pcie(_, _, _) => 0x10
    case Vsec(_, _, _, _) => 0x09
  }

  /** Identifier 0x1B, version 1, and the next offset in the top twelve bits. */
  function ExtHeader(next: nat): nat {
    (0x1B + U16 + next * 0x10_0000) % U32
  }

  /** The offset of the first capability of a kind from index `j` on, or zero. */
  function NextFrom(caps: seq<Cap>, j: nat, extended: bool): nat
    decreases |caps| - j
  {
    if j >= |caps| then 0
    else if caps[j].config.Extended() == extended then caps[j].offset
    else NextFrom(caps, j + 1, extended)
  }

  /** Where a capability's bytes are in the memory of its kind. */
  function BaseOf(c: Cap): int {
    if c.config.Extended() then c.offset - 0x100 else c.offset
  }

  ghost predicate InSpace(caps: seq<Cap>) {
    forall i :: 0 <= i < |caps| ==>
      && 0 <= BaseOf(caps[i])
      && BaseOf(caps[i]) + caps[i].config.Size() <= if caps[i].config.Extended() then EXT_SIZE else CFG_SIZE
  }

  /** Bytes to be put at an offset. */
  datatype Piece = Piece(at: nat, data: seq<byte>)

  predicate Inside(mem: seq<byte>, ps: seq<Piece>) {
    forall i :: 0 <= i < |ps| ==> ps[i].at + |ps[i].data| <= |mem|
  }

  function OverlayAll(mem: seq<byte>, ps: seq<Piece>): (r: seq<byte>)
    requires Inside(mem, ps)
    ensures |r| == |mem|
  {
    if ps == [] then mem
    else
      var n := |ps| - 1;
      Overlay(OverlayAll(mem, ps[..n]), ps[n].at, ps[n].data)
  }

  /** A piece that no later one touches is found where it was put. */
  lemma {:induction false} PieceInPlace(mem: seq<byte>, ps: seq<Piece>, i: nat)
    requires Inside(mem, ps) && i < |ps|
    requires forall j :: i < j < |ps| ==> ps[i].at + |ps[i].data| <= ps[j].at || ps[j].data == []
    ensures OverlayAll(mem, ps)[ps[i].at..ps[i].at + |ps[i].data|] == ps[i].data
    decreases |ps|
  {
    var n := |ps| - 1;
    var before := OverlayAll(mem, ps[..n]);
    assert OverlayAll(mem, ps) == Overlay(before, ps[n].at, ps[n].data);
    if i == n {
      OverlayThere(before, ps[n].at, ps[n].data);
    } else {
      PieceInPlace(mem, ps[..n], i);
      assert ps[..n][i] == ps[i];
      if ps[n].data == [] {
        assert Overlay(before, ps[n].at, []) == before;
      } else {
        OverlayElsewhere(before, ps[n].at, ps[n].data, ps[i].at, ps[i].at + |ps[i].data|);
      }
    }
  }

  /** What capability `i` puts into the memory of a kind: its block, or nothing. */
  function PieceOf(caps: seq<Cap>, i: nat, extended: bool): (p: Piece)
    requires i < |caps| && InSpace(caps)
    ensures p.at + |p.data| <= if extended then EXT_SIZE else CFG_SIZE
    ensures caps[i].config.Extended() == extended ==> p.at == BaseOf(caps[i]) && |p.data| <= caps[i].config.Size()
    ensures caps[i].config.Extended() != extended ==> p.data == []
  {
    var c := caps[i];
    if c.config.Extended() == extended then Piece(BaseOf(c), Block(c.config, NextFrom(caps, i + 1, extended)))
    else Piece(0, [])
  }

  function Pieces(caps: seq<Cap>, extended: bool): seq<Piece>
    requires InSpace(caps)
  {
    seq(|caps|, i requires 0 <= i < |caps| => PieceOf(caps, i, extended))
  }

  /** The capabilities of a kind built into their memory. */
  function Built(mem: seq<byte>, caps: seq<Cap>, extended: bool): (r: seq<byte>)
    requires InSpace(caps) && |mem| == if extended then EXT_SIZE else CFG_SIZE
    ensures |r| == |mem|
  {
    OverlayAll(mem, Pieces(caps, extended))
  }

  /** The whole standard space: the blocks, and the pointer to the first of them. */
  function BuiltStandard(cfg: seq<byte>, caps: seq<Cap>): (r: seq<byte>)
    requires |cfg| == CFG_SIZE && InSpace(caps)
    ensures |r| == CFG_SIZE
  {
    Overlay(Built(cfg, caps, false), CAPABILITY_LIST, [NextFrom(caps, 0, false) % 256])
  }

  // ---- the lists ----

  /** Following the next pointers from `ptr` visits exactly `offsets` and ends there (section
      6.7 of PCI Local Bus 3.0). */
  ghost predicate ChainIs(cfg: seq<byte>, ptr: nat, offsets: seq<nat>)
    requires |cfg| == CFG_SIZE
    decreases |offsets|
  {
    if offsets == [] then ptr == 0
    else ptr != 0 && ptr == offsets[0] && ptr + 1 < CFG_SIZE && ChainIs(cfg, cfg[ptr + 1], offsets[1..])
  }

  /** The same for the extended list, whose pointers are the top bits of a 32-bit header. */
  ghost predicate ExtChainIs(ext: seq<byte>, ptr: nat, offsets: seq<nat>)
    requires |ext| == EXT_SIZE
    decreases |offsets|
  {
    if offsets == [] then ptr == 0
    else
      && 0x100 <= ptr == offsets[0] && ptr - 0x100 + 4 <= EXT_SIZE
      && FromLE(ext[ptr - 0x100..ptr - 0x100 + 4]) % U16 == 0x1B
      && ExtChainIs(ext, FromLE(ext[ptr - 0x100..ptr - 0x100 + 4]) / 0x10_0000, offsets[1..])
  }

  function Offsets(caps: seq<Cap>, j: nat, extended: bool): seq<nat>
    decreases |caps| - j
  {
    if j >= |caps| then []
    else if caps[j].config.Extended() == extended then [caps[j].offset] + Offsets(caps, j + 1, extended)
    else Offsets(caps, j + 1, extended)
  }

  /** The bytes of capability `i` are in place. */
  ghost predicate InPlace(mem: seq<byte>, caps: seq<Cap>, i: nat)
    requires i < |caps|
  {
    var c := caps[i];
    var b := Block(c.config, NextFrom(caps, i + 1, c.config.Extended()));
    0 <= BaseOf(c) && BaseOf(c) + |b| <= |mem| && mem[BaseOf(c)..BaseOf(c) + |b|] == b
  }

  lemma LaidInSpace(m: Manager)
    requires Laid(m)
    ensures InSpace(m.caps)
  {
    forall i | 0 <= i < |m.caps|
      ensures 0 <= BaseOf(m.caps[i])
      ensures BaseOf(m.caps[i]) + m.caps[i].config.Size() <= if m.caps[i].config.Extended() then EXT_SIZE else CFG_SIZE
    {
      BlocksAreDisjoint(m, i, i);
      assert Placed(m.caps, i);
    }
  }

  lemma OverlayElsewhere(mem: seq<byte>, at: nat, data: seq<byte>, lo: nat, hi: nat)
    requires at + |data| <= |mem| && lo <= hi <= |mem| && (hi <= at || at + |data| <= lo)
    ensures Overlay(mem, at, data)[lo..hi] == mem[lo..hi]
  {
  }

  lemma OverlayThere(mem: seq<byte>, at: nat, data: seq<byte>)
    requires at + |data| <= |mem|
    ensures Overlay(mem, at, data)[at..at + |data|] == data
  {
  }

  lemma BuiltInPlace(m: Manager, mem: seq<byte>, i: nat, extended: bool)
    requires Laid(m) && InSpace(m.caps) && i < |m.caps| && m.caps[i].config.Extended() == extended
    requires |mem| == if extended then EXT_SIZE else CFG_SIZE
    ensures InPlace(Built(mem, m.caps, extended), m.caps, i)
  {
    var ps := Pieces(m.caps, extended);
    PiecesInside(mem, m.caps, extended, ps);
    forall j | i < j < |ps| ensures ps[i].at + |ps[i].data| <= ps[j].at || ps[j].data == [] {
      PiecesApart(m, i, j, extended);
    }
    PieceInPlace(mem, ps, i);
  }

  lemma PiecesApart(m: Manager, i: nat, j: nat, extended: bool)
    requires Laid(m) && InSpace(m.caps) && i < j < |m.caps| && m.caps[i].config.Extended() == extended
    ensures var p, q := PieceOf(m.caps, i, extended), PieceOf(m.caps, j, extended);
            p.at + |p.data| <= q.at || q.data == []
  {
    BlocksAreDisjoint(m, i, j);
    assert Placed(m.caps, i) && Placed(m.caps, j);
  }

  /** Every standard capability is in place in `cfg`, and the list head points at the first. */
  ghost predicate StandardInPlace(cfg: seq<byte>, caps: seq<Cap>) {
    && |cfg| == CFG_SIZE && cfg[CAPABILITY_LIST] == NextFrom(caps, 0, false)
    && forall i :: 0 <= i < |caps| && !caps[i].config.Extended() ==> Linked(cfg, caps, i)
  }

  /** Identifier and next pointer of standard capability `i`. */
  ghost predicate Linked(cfg: seq<byte>, caps: seq<Cap>, i: nat)
    requires i < |caps| && !caps[i].config.Extended()
  {
    var at := caps[i].offset;
    0 < at && at + 1 < |cfg| && cfg[at] == CapId(caps[i].config) && cfg[at + 1] == NextFrom(caps, i + 1, false)
  }

  ghost predicate ExtLinked(ext: seq<byte>, caps: seq<Cap>, i: nat)
    requires i < |caps| && caps[i].config.Extended()
  {
    var at := caps[i].offset - 0x100;
    0 <= at && at + 4 <= |ext| && FromLE(ext[at..at + 4]) == ExtHeader(NextFrom(caps, i + 1, true))
  }

  ghost predicate ExtendedInPlace(ext: seq<byte>, caps: seq<Cap>) {
    |ext| == EXT_SIZE && forall i :: 0 <= i < |caps| && caps[i].config.Extended() ==> ExtLinked(ext, caps, i)
  }

  lemma {:induction false} NextFromSmall(m: Manager, j: nat, extended: bool)
    requires Laid(m)
    ensures NextFrom(m.caps, j, extended) < if extended then 0x1000 else 0x100
    decreases |m.caps| - j
  {
    if j < |m.caps| {
      if m.caps[j].config.Extended() == extended {
        BlocksAreDisjoint(m, j, j);
        assert Placed(m.caps, j);
      } else {
        NextFromSmall(m, j + 1, extended);
      }
    }
  }

  /** Writing the list head leaves the blocks above the header alone. */
  lemma HeadAside(b: seq<byte>, caps: seq<Cap>, i: nat, head: seq<byte>)
    requires |b| == CFG_SIZE && |head| == 1 && i < |caps| && !caps[i].config.Extended()
    requires 0x40 <= caps[i].offset && Linked(b, caps, i)
    ensures Linked(Overlay(b, CAPABILITY_LIST, head), caps, i)
  {
  }

  /** Two slices agree byte by byte. */
  lemma SameHead(x: seq<byte>, y: seq<byte>, at: nat)
    requires at + 2 <= |x| == |y| && x[at..at + 2] == y[at..at + 2]
    ensures x[at] == y[at] && x[at + 1] == y[at + 1]
  {
  }

  /** Building the configuration space links the standard capabilities. */
  lemma BuildLinksStandard(m: Manager, cfg: seq<byte>)
    requires Laid(m) && InSpace(m.caps) && |cfg| == CFG_SIZE
    ensures StandardInPlace(BuiltStandard(cfg, m.caps), m.caps)
  {
    NextFromSmall(m, 0, false);
    StandardLinks(m, cfg, Built(cfg, m.caps, false), [NextFrom(m.caps, 0, false) % 256]);
  }

  lemma StandardLinks(m: Manager, cfg: seq<byte>, b: seq<byte>, head: seq<byte>)
    requires Laid(m) && InSpace(m.caps) && |cfg| == CFG_SIZE && b == Built(cfg, m.caps, false)
    requires |head| == 1 && head[0] == NextFrom(m.caps, 0, false)
    ensures StandardInPlace(Overlay(b, CAPABILITY_LIST, head), m.caps)
  {
    var r := Overlay(b, CAPABILITY_LIST, head);
    AllLinked(m, cfg, b, head, r);
    HeadIs(b, CAPABILITY_LIST, head);
    StandardIs(r, m.caps, head[0]);
  }

  lemma StandardIs(r: seq<byte>, caps: seq<Cap>, head: byte)
    requires |r| == CFG_SIZE && r[CAPABILITY_LIST] == head == NextFrom(caps, 0, false)
    requires forall i :: 0 <= i < |caps| && !caps[i].config.Extended() ==> Linked(r, caps, i)
    ensures StandardInPlace(r, caps)
  {
  }

  lemma HeadIs(b: seq<byte>, at: nat, head: seq<byte>)
    requires |head| == 1 && at + 1 <= |b|
    ensures Overlay(b, at, head)[at] == head[0]
  {
  }

  lemma AllLinked(m: Manager, cfg: seq<byte>, b: seq<byte>, head: seq<byte>, r: seq<byte>)
    requires Laid(m) && InSpace(m.caps) && |cfg| == CFG_SIZE && |head| == 1 && b == Built(cfg, m.caps, false)
    requires r == Overlay(b, CAPABILITY_LIST, head)
    ensures forall i :: 0 <= i < |m.caps| && !m.caps[i].config.Extended() ==> Linked(r, m.caps, i)
  {
    forall i | 0 <= i < |m.caps| && !m.caps[i].config.Extended()
      ensures Linked(r, m.caps, i)
    {
      OneLinked(m, cfg, b, i);
      BlocksAreDisjoint(m, i, i);
      HeadAside(b, m.caps, i, head);
    }
  }

  lemma OneLinked(m: Manager, cfg: seq<byte>, b: seq<byte>, i: nat)
    requires Laid(m) && InSpace(m.caps) && |cfg| == CFG_SIZE && b == Built(cfg, m.caps, false)
    requires i < |m.caps| && !m.caps[i].config.Extended()
    ensures Linked(b, m.caps, i)
  {
    OneInPlace(m, cfg, b, i);
    BlocksAreDisjoint(m, i, i);
    NextFromSmall(m, i + 1, false);
    BlockStarts(b, m.caps, i);
  }

  lemma OneInPlace(m: Manager, cfg: seq<byte>, b: seq<byte>, i: nat)
    requires Laid(m) && InSpace(m.caps) && |cfg| == CFG_SIZE && b == Built(cfg, m.caps, false)
    requires i < |m.caps| && !m.caps[i].config.Extended()
    ensures InPlace(b, m.caps, i)
  {
    BuiltInPlace(m, cfg, i, false);
  }

  /** A block in place is linked. */
  lemma BlockStarts(mem: seq<byte>, caps: seq<Cap>, i: nat)
    requires i < |caps| && !caps[i].config.Extended() && InPlace(mem, caps, i)
    requires 0 < caps[i].offset && NextFrom(caps, i + 1, false) < 256
    ensures Linked(mem, caps, i)
  {
    var c, next := caps[i], NextFrom(caps, i + 1, false);
    var rest := StandardBlock(c.config, next);
    SliceStarts(mem, c.offset, Block(c.config, next), CapId(c.config), next, rest);
  }

  lemma StandardBlock(c: Config, next: byte) returns (rest: seq<byte>)
    requires !c.Extended()
    ensures Block(c, next) == [CapId(c), next] + rest
  {
    rest := Body(c);
  }

  lemma SliceStarts(mem: seq<byte>, at: nat, b: seq<byte>, x: byte, y: byte, rest: seq<byte>)
    requires at + |b| <= |mem| && mem[at..at + |b|] == b && b == [x, y] + rest
    ensures mem[at] == x && mem[at + 1] == y
  {
  }

  lemma ExtBlockStarts(mem: seq<byte>, caps: seq<Cap>, i: nat)
    requires i < |caps| && caps[i].config.Extended() && InPlace(mem, caps, i)
    ensures ExtLinked(mem, caps, i)
  {
    var c := caps[i];
    var at := BaseOf(c);
    var b := Block(c.config, NextFrom(caps, i + 1, true));
    assert mem[at..at + 4] == mem[at..at + |b|][..4];
    assert Pow256(4) == 256 * Pow256(3) == 256 * 256 * Pow256(2) == 256 * 256 * 256 * Pow256(1) == U32;
    FromToLE(ExtHeader(NextFrom(caps, i + 1, true)), DWORD);
  }

  lemma BuildLinksExtended(m: Manager, ext: seq<byte>)
    requires Laid(m) && InSpace(m.caps) && |ext| == EXT_SIZE
    ensures ExtendedInPlace(Built(ext, m.caps, true), m.caps)
  {
    var r := Built(ext, m.caps, true);
    forall i | 0 <= i < |m.caps| && m.caps[i].config.Extended() ensures ExtLinked(r, m.caps, i) {
      BuiltInPlace(m, ext, i, true);
      ExtBlockStarts(r, m.caps, i);
    }
  }

  /** From any capability on, the list visits the later ones of its kind in insertion order. */
  lemma {:induction false} ChainFrom(cfg: seq<byte>, caps: seq<Cap>, j: nat)
    requires StandardInPlace(cfg, caps)
    ensures ChainIs(cfg, NextFrom(caps, j, false), Offsets(caps, j, false))
    decreases |caps| - j
  {
    if j < |caps| {
      ChainFrom(cfg, caps, j + 1);
      if !caps[j].config.Extended() {
        assert Linked(cfg, caps, j);
        assert Offsets(caps, j, false)[1..] == Offsets(caps, j + 1, false);
      }
    }
  }

  lemma {:induction false} ExtChainFrom(m: Manager, ext: seq<byte>, j: nat)
    requires Laid(m) && ExtendedInPlace(ext, m.caps)
    ensures ExtChainIs(ext, NextFrom(m.caps, j, true), Offsets(m.caps, j, true))
    decreases |m.caps| - j
  {
    if j < |m.caps| {
      ExtChainFrom(m, ext, j + 1);
      if m.caps[j].config.Extended() {
        assert ExtLinked(ext, m.caps, j);
        NextFromSmall(m, j + 1, true);
        HeaderFields(NextFrom(m.caps, j + 1, true));
        assert Offsets(m.caps, j, true)[1..] == Offsets(m.caps, j + 1, true);
      }
    }
  }

  lemma HeaderFields(next: nat)
    requires next < 0x1000
    ensures ExtHeader(next) % U16 == 0x1B && ExtHeader(next) / 0x10_0000 == next
  {
    var high := 1 + 0x10 * next;
    assert ExtHeader(next) == U16 * high + 0x1B;
    LowPart(high, 0x1B);
  }

  lemma LowPart(high: nat, low: nat)
    requires low < U16
    ensures (U16 * high + low) % U16 == low
  {
  }

  /** After any capabilities that fit have been added and built, the standard list from its head
      and the extended list from its first capability visit exactly the capabilities of their
      kind, in insertion order, and end. */
  lemma ListsVisitAll(cs: seq<Config>, cfg: seq<byte>, ext: seq<byte>)
    requires AllFit(cs) && |cfg| == CFG_SIZE && |ext| == EXT_SIZE
    ensures var m := AddAll(cs);
            && Laid(m) && InSpace(m.caps)
            && var r := BuiltStandard(cfg, m.caps);
            && ChainIs(r, r[CAPABILITY_LIST], Offsets(m.caps, 0, false))
            && ExtChainIs(Built(ext, m.caps, true), NextFrom(m.caps, 0, true), Offsets(m.caps, 0, true))
  {
    var m := AddAll(cs);
    AddAllLaid(cs);
    LaidInSpace(m);
    BuildLinksStandard(m, cfg);
    BuildLinksExtended(m, ext);
    ChainFrom(BuiltStandard(cfg, m.caps), m.caps, 0);
    ExtChainFrom(m, Built(ext, m.caps, true), 0);
  }

  // ---- the typed registers ----

  /** The registers a driver can change; which of them exist depends on the capability. */
  datatype Typed = Typed(control: nat, addressLo: nat, addressHi: nat, data: nat, mask: nat)

  datatype Name = Control | AddressLo | AddressHi | Data | Mask

  function Get(t: Typed, n: Name): nat {
    match n
    case Control => t.control
    case AddressLo => t.addressLo
    case AddressHi => t.addressHi
    case Data => t.data
    case Mask => t.mask
  }

  function Put(t: Typed, n: Name, v: nat): (r: Typed)
    ensures forall k :: Get(r, k) == if k == n then v else Get(t, k)
  {
    match n
    case Control => t.(control := v)
    case AddressLo => t.(addressLo := v)
    case AddressHi => t.(addressHi := v)
    case Data => t.(data := v)
    case Mask => t.(mask := v)
  }

  /** Where a register is in its capability, and how wide; absent registers have no width. */
  function Place(c: Config, n: Name): (p: (nat, nat))
    ensures p.1 in {0, 2, 4} && p.0 + p.1 <= c.Size()
    ensures p.1 != 0 ==> p.0 >= if c.Extended() then 4 else 2
  {
    match c
    case Msi(is64, masking, _) =>
      (match n
       case Control => (2, 2)
       case AddressLo => (4, 4)
       case AddressHi => if is64 then (8, 4) else (0, 0)
       case Data => if is64 then (12, 2) else (8, 2)
       case Mask => if !masking then (0, 0) else if is64 then (16, 4) else (12, 4))
    case Msix(_, _, _, _) => if n == Control then (2, 2) else (0, 0)
    case Pm(_, _, _, _) => if n == Control then (4, 2) else (0, 0)
    case Pasid(_, _, _) => if n == Control then (6, 2) else (0, 0)
    case _ => (0, 0)
  }

  lemma RegistersDisjoint(c: Config, n: Name, k: Name)
    requires n != k
    ensures var p, q := Place(c, n), Place(c, k);
            p.1 == 0 || q.1 == 0 || p.0 + p.1 <= q.0 || q.0 + q.1 <= p.0
  {
  }

  /** The register an access addresses: it must start where the register does and be as wide. */
  function Addressed(c: Config, off: int, size: nat): (n: Option<Name>)
    ensures n.Some? ==> size != 0 && Place(c, n.value) == (off, size)
    ensures n.None? && size != 0 ==> forall k :: Place(c, k) != (off, size)
  {
    if size == 0 then None
    else if Place(c, Control) == (off, size) then Some(Control)
    else if Place(c, AddressLo) == (off, size) then Some(AddressLo)
    else if Place(c, AddressHi) == (off, size) then Some(AddressHi)
    else if Place(c, Data) == (off, size) then Some(Data)
    else if Place(c, Mask) == (off, size) then Some(Mask)
    else None
  }

  /** What is kept of a value written to a register. */
  function Masked(c: Config, t: Typed, n: Name, value: nat): nat {
    match c
    case Msi(_, _, _) => if n == Control || n == Data then value % U16 else value
    case Msix(_, _, _, _) => t.control % 0x800 + value / 0x4000 % 4 * 0x4000
    case Pm(_, _, _, _) => value % 4 + value / 0x100 % 2 * 0x100 + value / 0x8000 % 2 * 0x8000
    case _ => value % 8
  }

  function InitialState(c: Config): Typed {
    Typed(if c.Msix? then (c.entries + 2047) % 2048 else 0, 0, 0, 0, 0)
  }

  /** The capabilities with their registers, and both byte spaces. */
  datatype Space = Space(m: Manager, states: seq<Typed>, cfg: seq<byte>, ext: seq<byte>) {
    ghost predicate Valid() {
      && Laid(m) && InSpace(m.caps) && |states| == |m.caps| && |cfg| == CFG_SIZE && |ext| == EXT_SIZE
    }

    function MemoryOf(i: nat): seq<byte>
      requires i < |m.caps|
    {
      if m.caps[i].config.Extended() then ext else cfg
    }
  }

  /** The first capability an address lies in; their number when it lies in none. */
  function FindCap(caps: seq<Cap>, at: nat): (i: nat)
    ensures i <= |caps|
    ensures i < |caps| ==> caps[i].offset <= at < caps[i].offset + caps[i].size
    ensures forall j :: 0 <= j < i ==> !(caps[j].offset <= at < caps[j].offset + caps[j].size)
  {
    if caps == [] || caps[0].offset <= at < caps[0].offset + caps[0].size then 0 else 1 + FindCap(caps[1..], at)
  }

  /** A register is stored both ways. */
  function Stored(s: Space, i: nat, n: Name, v: nat): (r: Space)
    requires s.Valid() && i < |s.states| && Place(s.m.caps[i].config, n).1 != 0
    ensures r.Valid()
  {
    var c := s.m.caps[i];
    var (off, width) := Place(c.config, n);
    var states := s.states[i := Put(s.states[i], n, v)];
    if c.config.Extended() then s.(states := states, ext := Overlay(s.ext, BaseOf(c) + off, ToLE(v, width)))
    else s.(states := states, cfg := Overlay(s.cfg, BaseOf(c) + off, ToLE(v, width)))
  }

  lemma StoredParts(s: Space, i: nat, n: Name, off: nat, width: nat, v: nat) returns (to: Space)
    requires s.Valid() && i < |s.states| && Place(s.m.caps[i].config, n) == (off, width) && width != 0
    ensures to == Stored(s, i, n, v) && to.Valid()
    ensures to.m == s.m && to.states == s.states[i := Put(s.states[i], n, v)]
    ensures var c := s.m.caps[i];
            && 0 <= BaseOf(c)
            && if c.config.Extended() then
                 && BaseOf(c) + off + width <= EXT_SIZE
                 && to.cfg == s.cfg && to.ext == Overlay(s.ext, BaseOf(c) + off, ToLE(v, width))
               else
                 && BaseOf(c) + off + width <= CFG_SIZE
                 && to.ext == s.ext && to.cfg == Overlay(s.cfg, BaseOf(c) + off, ToLE(v, width))
  {
    to := Stored(s, i, n, v);
  }

  datatype Write = Write(at: nat, size: nat, value: nat)

  /** The register a write changes, and its capability. */
  function Target(s: Space, w: Write): (t: Option<(nat, Name)>)
    requires s.Valid()
    ensures t.Some? ==> t.value.0 < |s.states| && Place(s.m.caps[t.value.0].config, t.value.1).1 != 0
  {
    var i := FindCap(s.m.caps, w.at);
    if i == |s.m.caps| then None
    else
      var n := Addressed(s.m.caps[i].config, w.at - s.m.caps[i].offset, w.size);
      if n.None? then None else Some((i, n.value))
  }

  /** Whether a write is taken: also one to a capability without registers, which it ignores. */
  predicate Accepted(s: Space, w: Write)
    requires s.Valid()
  {
    var i := FindCap(s.m.caps, w.at);
    i < |s.m.caps| && (Target(s, w).Some? || s.m.caps[i].config.Pcie? || s.m.caps[i].config.Vsec?)
  }

  function Written(s: Space, w: Write): (r: Space)
    requires s.Valid()
    ensures r.Valid()
  {
    var t := Target(s, w);
    if t.None? then s
    else Stored(s, t.value.0, t.value.1, Masked(s.m.caps[t.value.0].config, s.states[t.value.0], t.value.1, w.value))
  }

  /** The typed register and its bytes agree. */
  ghost predicate Agrees(s: Space, i: nat, n: Name)
    requires s.Valid() && i < |s.states|
  {
    var c := s.m.caps[i];
    var (off, width) := Place(c.config, n);
    width != 0 ==> FromLE(s.MemoryOf(i)[BaseOf(c) + off..BaseOf(c) + off + width]) == Get(s.states[i], n)
  }

  lemma StoredAgrees(s: Space, i: nat, n: Name, v: nat)
    requires s.Valid() && i < |s.states| && Place(s.m.caps[i].config, n).1 != 0
    requires v < Pow256(Place(s.m.caps[i].config, n).1)
    ensures Agrees(Stored(s, i, n, v), i, n)
  {
    var c := s.m.caps[i];
    var (off, width) := Place(c.config, n);
    OverlayThere(s.MemoryOf(i), BaseOf(c) + off, ToLE(v, width));
    FromToLE(v, width);
  }

  /** The memory a register is stored in, and the memory of the other kind. */
  lemma StoredMemory(s: Space, i: nat, n: Name, v: nat, j: nat, at: nat, data: seq<byte>)
    requires s.Valid() && i < |s.states| && j < |s.states| && Place(s.m.caps[i].config, n).1 != 0
    requires at == BaseOf(s.m.caps[i]) + Place(s.m.caps[i].config, n).0
    requires data == ToLE(v, Place(s.m.caps[i].config, n).1)
    ensures at + |data| <= |s.MemoryOf(i)|
    ensures Stored(s, i, n, v).MemoryOf(j)
            == if s.m.caps[i].config.Extended() == s.m.caps[j].config.Extended() then Overlay(s.MemoryOf(j), at, data)
               else s.MemoryOf(j)
  {
  }

  lemma SliceAside(s: Space, i: nat, n: Name, v: nat, j: nat, lo: nat, hi: nat)
    requires s.Valid() && i < |s.states| && j < |s.states| && lo <= hi <= |s.MemoryOf(j)|
    requires var p := Place(s.m.caps[i].config, n);
             var at := BaseOf(s.m.caps[i]) + p.0;
             p.1 != 0 && (s.m.caps[i].config.Extended() == s.m.caps[j].config.Extended() ==> hi <= at || at + p.1 <= lo)
    ensures |Stored(s, i, n, v).MemoryOf(j)| == |s.MemoryOf(j)|
    ensures Stored(s, i, n, v).MemoryOf(j)[lo..hi] == s.MemoryOf(j)[lo..hi]
  {
    var p := Place(s.m.caps[i].config, n);
    var at, data := BaseOf(s.m.caps[i]) + p.0, ToLE(v, p.1);
    StoredMemory(s, i, n, v, j, at, data);
    if s.m.caps[i].config.Extended() == s.m.caps[j].config.Extended() {
      OverlayElsewhere(s.MemoryOf(j), at, data, lo, hi);
    }
  }

  lemma StateAside(s: Space, i: nat, n: Name, v: nat, j: nat, k: Name)
    requires s.Valid() && i < |s.states| && Place(s.m.caps[i].config, n).1 != 0 && j < |s.states| && (i != j || n != k)
    ensures Stored(s, i, n, v).m == s.m && Get(Stored(s, i, n, v).states[j], k) == Get(s.states[j], k)
  {
  }

  /** Storing one register leaves every other register, of this capability or another, alone. */
  lemma StoredAside(s: Space, i: nat, n: Name, v: nat, j: nat, k: Name)
    requires s.Valid() && i < |s.states| && Place(s.m.caps[i].config, n).1 != 0
    requires j < |s.states| && (i != j || n != k) && Agrees(s, j, k)
    ensures Agrees(Stored(s, i, n, v), j, k)
  {
    StateAside(s, i, n, v, j, k);
    var q := Place(s.m.caps[j].config, k);
    if q.1 != 0 {
      var lo := BaseOf(s.m.caps[j]) + q.0;
      if s.m.caps[i].config.Extended() == s.m.caps[j].config.Extended() {
        RegistersApart(s, i, n, j, k);
      }
      SliceAside(s, i, n, v, j, lo, lo + q.1);
      AgreesAgain(s, Stored(s, i, n, v), j, k, lo, lo + q.1);
    }
  }

  lemma AgreesAgain(s: Space, s': Space, j: nat, k: Name, lo: nat, hi: nat)
    requires s.Valid() && s'.Valid() && s'.m == s.m && j < |s.states| && Agrees(s, j, k)
    requires Get(s'.states[j], k) == Get(s.states[j], k)
    requires var q := Place(s.m.caps[j].config, k); q.1 != 0 && lo == BaseOf(s.m.caps[j]) + q.0 && hi == lo + q.1
    requires s'.MemoryOf(j)[lo..hi] == s.MemoryOf(j)[lo..hi]
    ensures Agrees(s', j, k)
  {
  }

  lemma RegistersApart(s: Space, i: nat, n: Name, j: nat, k: Name)
    requires s.Valid() && i < |s.states| && j < |s.states| && (i != j || n != k)
    requires s.m.caps[i].config.Extended() == s.m.caps[j].config.Extended()
    ensures var p, q := Place(s.m.caps[i].config, n), Place(s.m.caps[j].config, k);
            var x, y := BaseOf(s.m.caps[i]) + p.0, BaseOf(s.m.caps[j]) + q.0;
            p.1 == 0 || q.1 == 0 || x + p.1 <= y || y + q.1 <= x
  {
    if i == j {
      RegistersDisjoint(s.m.caps[i].config, n, k);
    } else {
      ApartOrdered(s, i, j);
    }
  }

  lemma ApartOrdered(s: Space, i: nat, j: nat)
    requires s.Valid() && i < |s.states| && j < |s.states| && i != j
    requires s.m.caps[i].config.Extended() == s.m.caps[j].config.Extended()
    ensures var a, b := s.m.caps[i], s.m.caps[j];
            BaseOf(a) + a.config.Size() <= BaseOf(b) || BaseOf(b) + b.config.Size() <= BaseOf(a)
  {
    if i < j {
      BlocksAreDisjoint(s.m, i, j);
    } else {
      BlocksAreDisjoint(s.m, j, i);
    }
    assert Placed(s.m.caps, i) && Placed(s.m.caps, j);
  }

  lemma LinkedAside(s: Space, i: nat, n: Name, v: nat, j: nat)
    requires s.Valid() && i < |s.states| && Place(s.m.caps[i].config, n).1 != 0
    requires j < |s.states| && !s.m.caps[j].config.Extended() && Linked(s.cfg, s.m.caps, j)
    ensures Linked(Stored(s, i, n, v).cfg, s.m.caps, j)
  {
    HeaderAside(s, i, n, v, j);
    SameHead(Stored(s, i, n, v).cfg, s.cfg, s.m.caps[j].offset);
  }

  lemma ExtLinkedAside(s: Space, i: nat, n: Name, v: nat, j: nat)
    requires s.Valid() && i < |s.states| && Place(s.m.caps[i].config, n).1 != 0
    requires j < |s.states| && s.m.caps[j].config.Extended() && ExtLinked(s.ext, s.m.caps, j)
    ensures ExtLinked(Stored(s, i, n, v).ext, s.m.caps, j)
  {
    HeaderAside(s, i, n, v, j);
  }

  lemma ListHeadAside(s: Space, i: nat, n: Name, v: nat)
    requires s.Valid() && i < |s.states| && Place(s.m.caps[i].config, n).1 != 0
    ensures Stored(s, i, n, v).cfg[CAPABILITY_LIST] == s.cfg[CAPABILITY_LIST]
  {
    BlocksAreDisjoint(s.m, i, i);
  }

  /** The lists stay linked: no register shares a byte with a header or with the list head. */
  lemma StoredKeepsLinks(s: Space, i: nat, n: Name, v: nat)
    requires s.Valid() && i < |s.states| && Place(s.m.caps[i].config, n).1 != 0
    requires StandardInPlace(s.cfg, s.m.caps) && ExtendedInPlace(s.ext, s.m.caps)
    ensures StandardInPlace(Stored(s, i, n, v).cfg, s.m.caps) && ExtendedInPlace(Stored(s, i, n, v).ext, s.m.caps)
  {
    ListHeadAside(s, i, n, v);
    forall j | 0 <= j < |s.m.caps| && !s.m.caps[j].config.Extended()
      ensures Linked(Stored(s, i, n, v).cfg, s.m.caps, j)
    {
      LinkedAside(s, i, n, v, j);
    }
    forall j | 0 <= j < |s.m.caps| && s.m.caps[j].config.Extended()
      ensures ExtLinked(Stored(s, i, n, v).ext, s.m.caps, j)
    {
      ExtLinkedAside(s, i, n, v, j);
    }
  }

  lemma HeaderAside(s: Space, i: nat, n: Name, v: nat, j: nat)
    requires s.Valid() && i < |s.states| && Place(s.m.caps[i].config, n).1 != 0 && j < |s.states|
    ensures var b := s.m.caps[j];
            var h := if b.config.Extended() then 4 else 2;
            && |Stored(s, i, n, v).MemoryOf(j)| == |s.MemoryOf(j)|
            && Stored(s, i, n, v).MemoryOf(j)[BaseOf(b)..BaseOf(b) + h] == s.MemoryOf(j)[BaseOf(b)..BaseOf(b) + h]
  {
    var a, b := s.m.caps[i], s.m.caps[j];
    if i != j && a.config.Extended() == b.config.Extended() {
      ApartOrdered(s, i, j);
    }
    SliceAside(s, i, n, v, j, BaseOf(b), BaseOf(b) + if b.config.Extended() then 4 else 2);
  }

  // ---- from building on ----

  /** The space just built: the registers in their first state. */
  function Fresh(m: Manager, cfg: seq<byte>, ext: seq<byte>): (s: Space)
    requires Laid(m) && InSpace(m.caps) && |cfg| == CFG_SIZE && |ext| == EXT_SIZE
    ensures s.Valid()
  {
    Space(m, seq(|m.caps|, i requires 0 <= i < |m.caps| => InitialState(m.caps[i].config)),
          BuiltStandard(cfg, m.caps), Built(ext, m.caps, true))
  }

  lemma SmallPow256()
    ensures Pow256(2) == U16 && Pow256(4) == U32
  {
  }

  /** The bytes of a register in a body that follows its header hold its value. */
  predicate BodyHolds(body: seq<byte>, c: Config, n: Name, t: Typed) {
    var p, h := Place(c, n), if c.Extended() then 4 else 2;
    h <= p.0 && p.0 + p.1 <= h + |body| && FromLE(body[p.0 - h..p.0 - h + p.1]) == Get(t, n)
  }

  /** A header and a body stand one after the other. */
  predicate PartsAt(mem: seq<byte>, at: int, head: seq<byte>, body: seq<byte>) {
    0 <= at && at + |head| + |body| <= |mem| && mem[at..at + |head| + |body|] == head + body
  }

  /** What a register's bytes are in the body of a freshly built block. */
  lemma BodyRegister(c: Config, n: Name, off: nat, width: nat, body: seq<byte>)
    requires Place(c, n) == (off, width) && width != 0 && !(c.Msi? && n == Control) && body == Body(c)
    ensures BodyHolds(body, c, n, InitialState(c))
  {
    match c
    case Msi(_, _, _) => MsiRegister(c, n);
    case Msix(_, _, _, _) => MsixRegister(c, n);
    case Pm(_, _, _, _) => ZeroRegister(c, n);
    case Pasid(_, _, _) => ZeroRegister(c, n);
  }

  lemma MsixRegister(c: Config, n: Name)
    requires c.Msix? && Place(c, n).1 != 0
    ensures BodyHolds(Body(c), c, n, InitialState(c))
  {
    var v := (c.entries + 2047) % 2048;
    assert Body(c)[0..2] == ToLE(v, WORD);
    SmallPow256();
    FromToLE(v, WORD);
  }

  lemma ZeroRegister(c: Config, n: Name)
    requires (c.Pm? || c.Pasid?) && Place(c, n).1 != 0
    ensures BodyHolds(Body(c), c, n, InitialState(c))
  {
    assert Body(c)[2..4] == ToLE(0, WORD);
    SmallPow256();
    FromToLE(0, WORD);
  }

  lemma MsiRegister(c: Config, n: Name)
    requires c.Msi? && Place(c, n).1 != 0 && n != Control
    ensures BodyHolds(Body(c), c, n, InitialState(c))
  {
    var control, z := MsiBody(c);
    ZerosAfter(control, z, Place(c, n).0 - 2, Place(c, n).1);
  }

  lemma MsiBody(c: Config) returns (control: seq<byte>, z: seq<byte>)
    requires c.Msi?
    ensures |control| == 2 && Body(c) == control + z
    ensures |z| == 6 + (if c.is64 then 4 else 0) + (if c.masking then 8 else 0)
    ensures forall k :: 0 <= k < |z| ==> z[k] == 0
  {
    control, z := ToLE(MsiControl(c.is64, c.masking, c.vectorsLog2), WORD), MsiZeros(c.is64, c.masking);
  }

  lemma ZerosAfter(control: seq<byte>, z: seq<byte>, lo: nat, width: nat)
    requires |control| == 2 <= lo && lo + width <= |control + z| && forall k :: 0 <= k < |z| ==> z[k] == 0
    ensures FromLE((control + z)[lo..lo + width]) == 0
  {
    var b := (control + z)[lo..lo + width];
    assert forall k :: 0 <= k < |b| ==> b[k] == z[lo - 2 + k];
    ZerosAreZero(b);
  }

  /** A slice of a block in place. */
  lemma InPlaceSlice(mem: seq<byte>, at: nat, head: seq<byte>, body: seq<byte>, lo: nat, hi: nat)
    requires at + |head| + |body| <= |mem| && mem[at..at + |head| + |body|] == head + body
    requires |head| <= lo <= hi <= |head| + |body|
    ensures mem[at + lo..at + hi] == body[lo - |head|..hi - |head|]
  {
    SliceOfSlice(mem, at, at + |head| + |body|, lo, hi);
    assert (head + body)[lo..hi] == body[lo - |head|..hi - |head|];
  }

  /** The bytes of a register in the memory just built. */
  lemma BuiltRegister(mem: seq<byte>, caps: seq<Cap>, i: nat, n: Name, off: nat, width: nat)
    requires i < |caps| && InPlace(mem, caps, i)
    requires Place(caps[i].config, n) == (off, width) && width != 0 && !(caps[i].config.Msi? && n == Control)
    ensures RegisterIs(mem, caps[i], n, InitialState(caps[i].config))
  {
    var c := caps[i];
    var head, body := PartsInPlace(mem, caps, i);
    BodyRegister(c.config, n, off, width, body);
    RegisterFrom(mem, c, n, InitialState(c.config), head, body);
  }

  lemma PartsInPlace(mem: seq<byte>, caps: seq<Cap>, i: nat) returns (head: seq<byte>, body: seq<byte>)
    requires i < |caps| && InPlace(mem, caps, i)
    ensures |head| == (if caps[i].config.Extended() then 4 else 2) && body == Body(caps[i].config)
    ensures PartsAt(mem, BaseOf(caps[i]), head, body)
  {
    head, body := Header(caps[i].config, NextFrom(caps, i + 1, caps[i].config.Extended())), Body(caps[i].config);
  }

  /** A register whose bytes in a block in place hold its value. */
  lemma RegisterFrom(mem: seq<byte>, c: Cap, n: Name, t: Typed, head: seq<byte>, body: seq<byte>)
    requires |head| == (if c.config.Extended() then 4 else 2)
    requires PartsAt(mem, BaseOf(c), head, body) && BodyHolds(body, c.config, n, t)
    ensures RegisterIs(mem, c, n, t)
  {
    var p := Place(c.config, n);
    SliceValue(mem, BaseOf(c), head, body, p.0, p.0 + p.1, Get(t, n));
  }

  lemma SliceValue(mem: seq<byte>, at: nat, head: seq<byte>, body: seq<byte>, lo: nat, hi: nat, v: nat)
    requires at + |head| + |body| <= |mem| && mem[at..at + |head| + |body|] == head + body
    requires |head| <= lo <= hi <= |head| + |body| && FromLE(body[lo - |head|..hi - |head|]) == v
    ensures FromLE(mem[at + lo..at + hi]) == v
  {
    InPlaceSlice(mem, at, head, body, lo, hi);
  }

  lemma FreshAgrees(m: Manager, cfg: seq<byte>, ext: seq<byte>, i: nat, n: Name)
    requires Laid(m) && InSpace(m.caps) && |cfg| == CFG_SIZE && |ext| == EXT_SIZE
    requires i < |m.caps| && !(m.caps[i].config.Msi? && n == Control)
    ensures Agrees(Fresh(m, cfg, ext), i, n)
  {
    var s, p := Fresh(m, cfg, ext), Place(m.caps[i].config, n);
    if p.1 != 0 {
      FreshBytes(m, cfg, ext, i, n, s.MemoryOf(i));
      AgreesBecause(s, i, n);
    }
  }

  lemma FreshBytes(m: Manager, cfg: seq<byte>, ext: seq<byte>, i: nat, n: Name, mem: seq<byte>)
    requires Laid(m) && InSpace(m.caps) && |cfg| == CFG_SIZE && |ext| == EXT_SIZE
    requires i < |m.caps| && !(m.caps[i].config.Msi? && n == Control) && Place(m.caps[i].config, n).1 != 0
    requires mem == if m.caps[i].config.Extended() then Built(ext, m.caps, true) else BuiltStandard(cfg, m.caps)
    ensures RegisterIs(mem, m.caps[i], n, InitialState(m.caps[i].config))
  {
    var p := Place(m.caps[i].config, n);
    if m.caps[i].config.Extended() {
      BuiltInPlace(m, ext, i, true);
      BuiltRegister(mem, m.caps, i, n, p.0, p.1);
    } else {
      var b, head := Built(cfg, m.caps, false), [NextFrom(m.caps, 0, false) % 256];
      BuiltInPlace(m, cfg, i, false);
      BuiltRegister(b, m.caps, i, n, p.0, p.1);
      BlocksAreDisjoint(m, i, i);
      RegisterBelowHead(b, m.caps[i], n, InitialState(m.caps[i].config), head);
    }
  }

  /** The bytes of a register hold its value. */
  predicate RegisterIs(mem: seq<byte>, c: Cap, n: Name, t: Typed) {
    var p := Place(c.config, n);
    var lo := BaseOf(c) + p.0;
    0 <= lo && lo + p.1 <= |mem| && FromLE(mem[lo..lo + p.1]) == Get(t, n)
  }

  lemma RegisterBelowHead(b: seq<byte>, c: Cap, n: Name, t: Typed, head: seq<byte>)
    requires RegisterIs(b, c, n, t) && !c.config.Extended() && 0x40 <= c.offset && |head| == 1 && |b| == CFG_SIZE
    ensures RegisterIs(Overlay(b, CAPABILITY_LIST, head), c, n, t)
  {
    var p := Place(c.config, n);
    OverlayElsewhere(b, CAPABILITY_LIST, head, c.offset + p.0, c.offset + p.0 + p.1);
  }

  lemma AgreesBecause(s: Space, i: nat, n: Name)
    requires s.Valid() && i < |s.states| && RegisterIs(s.MemoryOf(i), s.m.caps[i], n, s.states[i])
    ensures Agrees(s, i, n)
  {
  }

  // ---- runs of writes ----

  /** The control word of a message-signalled interrupt capability before its first write: its
      bytes say what the capability can do, its typed state is zero. */
  predicate Excused(s: Space, i: nat, n: Name, flagged: set<nat>)
    requires i < |s.m.caps|
  {
    s.m.caps[i].config.Msi? && n == Control && i !in flagged
  }

  /** Both lists are linked, and every typed register agrees with its bytes. */
  ghost predicate Consistent(s: Space, flagged: set<nat>)
    requires s.Valid()
  {
    && StandardInPlace(s.cfg, s.m.caps) && ExtendedInPlace(s.ext, s.m.caps)
    && forall i, n :: 0 <= i < |s.states| && !Excused(s, i, n, flagged) ==> Agrees(s, i, n)
  }

  function Flagged(s: Space, w: Write, flagged: set<nat>): set<nat>
    requires s.Valid()
  {
    var t := Target(s, w);
    if t.Some? && t.value.1 == Control then flagged + {t.value.0} else flagged
  }

  lemma MaskedFits(c: Config, t: Typed, n: Name, value: nat)
    requires value < U32 && Place(c, n).1 != 0
    ensures Masked(c, t, n, value) < Pow256(Place(c, n).1)
  {
  }

  lemma WrittenKeepsConsistent(s: Space, w: Write, flagged: set<nat>)
    requires s.Valid() && Consistent(s, flagged) && w.value < U32
    ensures Consistent(Written(s, w), Flagged(s, w, flagged))
  {
    var t := Target(s, w);
    if t.Some? {
      var (i, n) := t.value;
      var v := Masked(s.m.caps[i].config, s.states[i], n, w.value);
      MaskedFits(s.m.caps[i].config, s.states[i], n, w.value);
      StoredKeepsLinks(s, i, n, v);
      StoredAgrees(s, i, n, v);
      forall j, k | 0 <= j < |s.states| && !Excused(s, j, k, Flagged(s, w, flagged))
        ensures Agrees(Stored(s, i, n, v), j, k)
      {
        if i != j || n != k {
          StoredAside(s, i, n, v, j, k);
        }
      }
    }
  }

  function WrittenAll(s: Space, ws: seq<Write>): (r: Space)
    requires s.Valid()
    ensures r.Valid() && r.m == s.m
  {
    if ws == [] then s else Written(WrittenAll(s, ws[..|ws| - 1]), ws[|ws| - 1])
  }

  function FlaggedAll(s: Space, ws: seq<Write>): set<nat>
    requires s.Valid()
  {
    if ws == [] then {}
    else Flagged(WrittenAll(s, ws[..|ws| - 1]), ws[|ws| - 1], FlaggedAll(s, ws[..|ws| - 1]))
  }

  lemma {:induction false} WritesKeepConsistent(s: Space, ws: seq<Write>)
    requires s.Valid() && Consistent(s, {}) && forall i :: 0 <= i < |ws| ==> ws[i].value < U32
    ensures Consistent(WrittenAll(s, ws), FlaggedAll(s, ws))
    decreases |ws|
  {
    if ws != [] {
      WritesKeepConsistent(s, ws[..|ws| - 1]);
      WrittenKeepsConsistent(WrittenAll(s, ws[..|ws| - 1]), ws[|ws| - 1], FlaggedAll(s, ws[..|ws| - 1]));
    }
  }

  lemma FreshConsistent(m: Manager, cfg: seq<byte>, ext: seq<byte>)
    requires Laid(m) && InSpace(m.caps) && |cfg| == CFG_SIZE && |ext| == EXT_SIZE
    ensures Consistent(Fresh(m, cfg, ext), {})
  {
    BuildLinksStandard(m, cfg);
    BuildLinksExtended(m, ext);
    var s := Fresh(m, cfg, ext);
    forall i, n | 0 <= i < |s.states| && !Excused(s, i, n, {}) ensures Agrees(s, i, n) {
      FreshAgrees(m, cfg, ext, i, n);
    }
  }

  /** For any capabilities that fit and any run of writes: both lists still visit exactly the
      capabilities in insertion order, and every typed register agrees with its bytes, the MSI
      control word from its first write on. */
  lemma ViewsAndListsHold(cs: seq<Config>, cfg: seq<byte>, ext: seq<byte>, ws: seq<Write>)
    requires AllFit(cs) && |cfg| == CFG_SIZE && |ext| == EXT_SIZE
    requires forall i :: 0 <= i < |ws| ==> ws[i].value < U32
    ensures var m := AddAll(cs);
            && Laid(m) && InSpace(m.caps)
            && var s := WrittenAll(Fresh(m, cfg, ext), ws);
            && Consistent(s, FlaggedAll(Fresh(m, cfg, ext), ws))
            && ChainIs(s.cfg, s.cfg[CAPABILITY_LIST], Offsets(m.caps, 0, false))
            && ExtChainIs(s.ext, NextFrom(m.caps, 0, true), Offsets(m.caps, 0, true))
  {
    var m := AddAll(cs);
    AddAllLaid(cs);
    LaidInSpace(m);
    FreshConsistent(m, cfg, ext);
    WritesKeepConsistent(Fresh(m, cfg, ext), ws);
    var s := WrittenAll(Fresh(m, cfg, ext), ws);
    ChainFrom(s.cfg, m.caps, 0);
    ExtChainFrom(m, s.ext, 0);
  }

  // ---- reading ----

  /** What the typed handlers answer; none where the byte view is used instead. The MSI address
      and data registers answer accesses of any size, mask bits none. */
  function ReadTyped(c: Config, t: Typed, off: int, size: nat): Option<nat> {
    match c
    case Msi(is64, _, _) =>
      if off == 2 && size == 2 then Some(t.control)
      else if off == 4 then Some(t.addressLo)
      else if is64 && off == 8 then Some(t.addressHi)
      else if off == (if is64 then 12 else 8) then Some(t.data)
      else None
    case Msix(_, _, _, _) => if off == 2 && size == 2 then Some(t.control) else None
    case Pm(_, _, _, _) => if off == 4 && size == 2 then Some(t.control) else None
    case Pasid(_, _, _) => if off == 6 && size == 2 then Some(t.control) else None
    case _ => None
  }

  lemma ReadIsGet(c: Config, t: Typed, n: Name)
    ensures var p := Place(c, n);
            var r := ReadTyped(c, t, p.0, p.1);
            p.1 != 0 && r.Some? ==> r.value == Get(t, n)
  {
  }

  /** A register read with its own width answers with its bytes. */
  lemma ReadIsByteView(s: Space, flagged: set<nat>, i: nat, n: Name)
    requires s.Valid() && Consistent(s, flagged) && i < |s.states| && !Excused(s, i, n, flagged)
    ensures var c := s.m.caps[i];
            var p := Place(c.config, n);
            var r := ReadTyped(c.config, s.states[i], p.0, p.1);
            p.1 != 0 && r.Some? ==> r.value == FromLE(s.MemoryOf(i)[BaseOf(c) + p.0..BaseOf(c) + p.0 + p.1])
  {
    assert Agrees(s, i, n);
    ReadIsGet(s.m.caps[i].config, s.states[i], n);
  }

  // ---- the code ----

  class CapManager {
    var caps: seq<Cap>
    var states: seq<Typed>
    var next: nat
    var extNext: nat
    const cfg: array<byte>
    const ext: array<byte>

    ghost function View(): Space
      reads this, cfg, ext
    {
      Space(Manager(caps, next, extNext), states, cfg[..], ext[..])
    }

    ghost predicate Valid()
      reads this, cfg, ext
    {
      cfg != ext && View().Valid()
    }

    constructor (cfg: array<byte>, ext: array<byte>)
      requires cfg != ext && cfg.Length == CFG_SIZE && ext.Length == EXT_SIZE
      ensures Valid() && View() == Space(EMPTY, [], cfg[..], ext[..]) && this.cfg == cfg && this.ext == ext
    {
      caps, states, next, extNext := [], [], 0x40, 0x100;
      this.cfg, this.ext := cfg, ext;
    }

    method FindKind(pcie: bool) returns (i: nat)
      ensures i == if pcie then FindPcie(caps) else FindMsi(caps)
    {
      i := 0;
      while i < |caps|
        invariant i <= |caps|
        invariant pcie ==> FindPcie(caps) == i + FindPcie(caps[i..])
        invariant !pcie ==> FindMsi(caps) == i + FindMsi(caps[i..])
      {
        if (if pcie then caps[i].config.Pcie? else caps[i].config.Msi?) { return; }
        i := i + 1;
      }
    }

    method CheckAdd(c: Config) returns (err: int)
      ensures err == AddCode(Manager(caps, next, extNext), c)
    {
      if |caps| >= MAX_CAPS { return ENOMEM; }
      if c.Msi? {
        var i := FindKind(true);
        if i == |caps| { return EINVAL; }
        if caps[i].config.deviceType == TYPE_ENDPOINT && !c.is64 { return EINVAL; }
      } else if c.Pcie? {
        var i := FindKind(false);
        if i < |caps| {
          if c.deviceType == TYPE_ENDPOINT && !caps[i].config.is64 { return EINVAL; }
        }
      }
      err := 0;
    }

    method Append(c: Config)
      modifies this
      ensures Manager(caps, next, extNext) == Added(old(Manager(caps, next, extNext)), c)
      ensures states == old(states) + [InitialState(c)]
    {
      var size := c.Size() % 256;
      if c.Extended() {
        caps := caps + [Cap(c, extNext, size)];
        extNext := (extNext + size) % U16;
      } else {
        caps := caps + [Cap(c, next, size)];
        next := (next + size) % 256;
      }
      states := states + [InitialState(c)];
    }

    /** Adds a capability after those of its kind, or refuses it and changes nothing. What it
        adds is laid out as it should be if it fits. */
    method AddCap(c: Config, memory: bool) returns (err: int)
      modifies this
      ensures err == AddResult(old(Manager(caps, next, extNext)), c, memory)
      ensures old(Valid()) ==> (Valid() <==> err != 0 || old(Fits(Manager(caps, next, extNext), c)))
      ensures var was := old(Manager(caps, next, extNext));
              Manager(caps, next, extNext) == if err == 0 then Add(was, c) else was
      ensures states == if err == 0 then old(states) + [InitialState(c)] else old(states)
    {
      ghost var m := Manager(caps, next, extNext);
      if Laid(m) {
        AddKeepsLaidIff(m, c);
        if Laid(Add(m, c)) {
          LaidInSpace(Add(m, c));
        }
      }
      err := CheckAdd(c);
      if err != 0 { return; }
      if c.Vsec? && !memory { return ENOMEM; }
      Append(c);
    }

    method PutBytes(mem: array<byte>, at: nat, data: seq<byte>)
      requires at + |data| <= mem.Length
      modifies mem
      ensures mem[..] == Overlay(old(mem[..]), at, data)
    {
      ghost var was := mem[..];
      var k := 0;
      while k < |data|
        invariant k <= |data|
        invariant forall i :: 0 <= i < mem.Length ==> mem[i] == if at <= i < at + k then data[i - at] else was[i]
      {
        mem[at + k] := data[k];
        k := k + 1;
      }
      assert mem[..] == Overlay(was, at, data);
    }

    method NextOffset(j: nat, extended: bool) returns (off: nat)
      ensures off == NextFrom(caps, j, extended)
    {
      var k := j;
      while k < |caps|
        invariant NextFrom(caps, k, extended) == NextFrom(caps, j, extended)
      {
        if caps[k].config.Extended() == extended { return caps[k].offset; }
        k := k + 1;
      }
      off := 0;
    }

    method BuildOne(mem: array<byte>, i: nat, extended: bool, ghost p: Piece)
      requires InSpace(caps) && mem.Length == (if extended then EXT_SIZE else CFG_SIZE) && i < |caps|
      requires p == PieceOf(caps, i, extended)
      modifies mem
      ensures mem[..] == if p.data == [] then old(mem[..]) else Overlay(old(mem[..]), p.at, p.data)
    {
      if caps[i].config.Extended() == extended {
        var next := NextOffset(i + 1, extended);
        PutBytes(mem, BaseOf(caps[i]), Block(caps[i].config, next));
      }
    }

    method BuildKind(mem: array<byte>, extended: bool)
      requires InSpace(caps) && mem.Length == if extended then EXT_SIZE else CFG_SIZE
      modifies mem
      ensures mem[..] == Built(old(mem[..]), caps, extended)
    {
      ghost var was, ps := mem[..], Pieces(caps, extended);
      PiecesInside(was, caps, extended, ps);
      var i := 0;
      while i < |caps|
        invariant i <= |caps| && mem[..] == OverlayAll(was, ps[..i])
      {
        BuildOne(mem, i, extended, ps[i]);
        NextPiece(was, ps, i, ps[i]);
        i := i + 1;
      }
      assert ps[..|caps|] == ps;
    }

    /** Writes every capability's block, linked to the next of its kind, and the list head. */
    method BuildConfigSpace()
      requires Valid()
      modifies cfg, ext
      ensures Valid()
      ensures cfg[..] == BuiltStandard(old(cfg[..]), caps) && ext[..] == Built(old(ext[..]), caps, true)
    {
      BuildKind(cfg, false);
      var first := NextOffset(0, false);
      PutBytes(cfg, CAPABILITY_LIST, [first % 256]);
      BuildKind(ext, true);
    }

    method FindAt(at: nat) returns (i: nat)
      ensures i == FindCap(caps, at)
    {
      i := 0;
      while i < |caps|
        invariant i <= |caps| && FindCap(caps, at) == i + FindCap(caps[i..], at)
      {
        if caps[i].offset <= at < caps[i].offset + caps[i].size { return; }
        i := i + 1;
      }
    }

    method HandleRead(at: nat, size: nat) returns (r: Option<nat>)
      requires Valid()
      ensures var i := FindCap(caps, at);
              r == if i == |caps| then None else ReadTyped(caps[i].config, states[i], at - caps[i].offset, size)
    {
      var i := FindAt(at);
      if i == |caps| { return None; }
      r := ReadTyped(caps[i].config, states[i], at - caps[i].offset, size);
    }

    /** Stores a register both ways. */
    method StoreRegister(i: nat, n: Name, off: nat, width: nat, v: nat)
      requires Valid() && i < |caps| && Place(caps[i].config, n) == (off, width) && width != 0
      modifies this`states, cfg, ext
      ensures View() == Stored(old(View()), i, n, v)
      ensures Valid()
    {
      ghost var to := StoredParts(View(), i, n, off, width, v);
      StoreBoth(i, Put(states[i], n, v), off, ToLE(v, width), to);
    }

    /** Stores a typed state and the bytes behind it. */
    method StoreBoth(i: nat, state: Typed, off: nat, data: seq<byte>, ghost to: Space)
      requires i < |caps| && i < |states| && cfg != ext && 0 <= BaseOf(caps[i])
      requires BaseOf(caps[i]) + off + |data| <= if caps[i].config.Extended() then ext.Length else cfg.Length
      requires to.m == Manager(caps, next, extNext) && to.states == states[i := state]
      requires to.cfg == if caps[i].config.Extended() then cfg[..] else Overlay(cfg[..], BaseOf(caps[i]) + off, data)
      requires to.ext == if caps[i].config.Extended() then Overlay(ext[..], BaseOf(caps[i]) + off, data) else ext[..]
      modifies this`states, cfg, ext
      ensures View() == to
    {
      states := states[i := state];
      StoreBytes(i, off, data);
    }

    method StoreBytes(i: nat, off: nat, data: seq<byte>)
      requires i < |caps| && cfg != ext && 0 <= BaseOf(caps[i])
      requires BaseOf(caps[i]) + off + |data| <= if caps[i].config.Extended() then ext.Length else cfg.Length
      modifies cfg, ext
      ensures cfg[..] == if caps[i].config.Extended() then old(cfg[..])
                         else Overlay(old(cfg[..]), BaseOf(caps[i]) + off, data)
      ensures ext[..] == if caps[i].config.Extended() then Overlay(old(ext[..]), BaseOf(caps[i]) + off, data)
                         else old(ext[..])
    {
      var c := caps[i];
      if c.config.Extended() {
        PutBytes(ext, c.offset - 0x100 + off, data);
      } else {
        PutBytes(cfg, c.offset + off, data);
      }
    }

    /** A write into capability `i`: one that starts where a register does and is as wide stores
        what is kept of it. */
    method WriteInside(i: nat, at: nat, size: nat, value: nat) returns (taken: bool)
      requires Valid() && i == FindCap(caps, at) < |caps|
      modifies this`states, cfg, ext
      ensures Valid() && View() == Written(old(View()), Write(at, size, value))
      ensures taken <==> Accepted(old(View()), Write(at, size, value))
    {
      ghost var s, w := View(), Write(at, size, value);
      var c := caps[i];
      if c.config.Pcie? || c.config.Vsec? {
        WriteIgnored(s, w, i);
        return true;
      }
      var n := Addressed(c.config, at - c.offset, size);
      if n.None? {
        WriteRefused(s, w, i);
        return false;
      }
      WrittenIsStored(s, w, i, n.value);
      StoreRegister(i, n.value, at - c.offset, size, Masked(c.config, states[i], n.value, value));
      taken := true;
    }

    method HandleWrite(at: nat, size: nat, value: nat) returns (taken: bool)
      requires Valid()
      modifies this`states, cfg, ext
      ensures Valid() && View() == Written(old(View()), Write(at, size, value))
      ensures taken <==> Accepted(old(View()), Write(at, size, value))
    {
      var i := FindAt(at);
      if i == |caps| {
        WriteOutside(View(), Write(at, size, value));
        return false;
      }
      taken := WriteInside(i, at, size, value);
    }
  }

  lemma WriteOutside(s: Space, w: Write)
    requires s.Valid() && FindCap(s.m.caps, w.at) == |s.m.caps|
    ensures Written(s, w) == s && !Accepted(s, w)
  {
  }

  lemma WriteIgnored(s: Space, w: Write, i: nat)
    requires s.Valid() && i == FindCap(s.m.caps, w.at) < |s.m.caps|
    requires s.m.caps[i].config.Pcie? || s.m.caps[i].config.Vsec?
    ensures Written(s, w) == s && Accepted(s, w)
  {
  }

  lemma WriteRefused(s: Space, w: Write, i: nat)
    requires s.Valid() && i == FindCap(s.m.caps, w.at) < |s.m.caps|
    requires !s.m.caps[i].config.Pcie? && !s.m.caps[i].config.Vsec?
    requires Addressed(s.m.caps[i].config, w.at - s.m.caps[i].offset, w.size).None?
    ensures Written(s, w) == s && !Accepted(s, w)
  {
  }

  lemma WrittenIsStored(s: Space, w: Write, i: nat, n: Name)
    requires s.Valid() && i == FindCap(s.m.caps, w.at) < |s.m.caps|
    requires Addressed(s.m.caps[i].config, w.at - s.m.caps[i].offset, w.size) == Some(n)
    ensures Written(s, w) == Stored(s, i, n, Masked(s.m.caps[i].config, s.states[i], n, w.value)) && Accepted(s, w)
  {
  }

  lemma PiecesInside(mem: seq<byte>, caps: seq<Cap>, extended: bool, ps: seq<Piece>)
    requires InSpace(caps) && |mem| == (if extended then EXT_SIZE else CFG_SIZE) && ps == Pieces(caps, extended)
    ensures Inside(mem, ps) && |ps| == |caps|
  {
  }

  lemma NextPiece(mem: seq<byte>, ps: seq<Piece>, i: nat, p: Piece)
    requires Inside(mem, ps) && i < |ps| && p == ps[i]
    ensures OverlayAll(mem, ps[..i + 1]) == Overlay(OverlayAll(mem, ps[..i]), p.at, p.data)
    ensures p.data == [] ==> OverlayAll(mem, ps[..i + 1]) == OverlayAll(mem, ps[..i])
  {
    assert ps[..i + 1][..i] == ps[..i];
    if p.data == [] {
      assert Overlay(OverlayAll(mem, ps[..i]), p.at, []) == OverlayAll(mem, ps[..i]);
    }
  }
}
