/** The NVMe namespace: sectors of a flat disk image moved to and from host memory through
page lists (examples/nvme/nvme_card.c). */
module NvmeDisk {
  import opened Bytes
  import opened Dma
  import opened Linux
  import opened NvmeStatus
  import opened PrpWalk

  const SECTOR_SIZE: nat := 4096
  const DISK_SIZE: nat := 0x4000_0000
  const TOTAL_SECTORS: nat := 0x4_0000

  /** A read or write of `blocks` sectors from `slba` on. */
  datatype IoCommand = IoCommand(write: bool, slba: nat, blocks: nat, prp1: nat, prp2: nat) {

    predicate Valid() {
      slba < U64 && 1 <= blocks <= 0x1_0000 && prp1 < U64 && prp2 < U64
    }

    predicate InRange() {
      slba + blocks <= TOTAL_SECTORS
    }

    /** `slba << 12` in 64 bits. */
    function Offset(): nat {
      slba * SECTOR_SIZE % U64
    }

    function Length(): nat {
      blocks * SECTOR_SIZE
    }

    function TheWalk(ram: Ram, iommu: Iommu): Walk {
      Host(ram, iommu, PAGE_SIZE).Pieces(prp1, prp2, Length())
    }

    /** The host addresses of the command's bytes, in disk order. */
    function Addresses(ram: Ram, iommu: Iommu): seq<nat> {
      Flat(iommu, TheWalk(ram, iommu).pieces)
    }

    ghost predicate Covers(lba: nat) {
      slba <= lba < slba + blocks
    }
  }

  lemma OffsetIs(c: IoCommand)
    requires c.Valid()
    ensures c.Offset() == c.slba % 0x10_0000_0000_0000 * SECTOR_SIZE
  {
    var q, r := c.slba / 0x10_0000_0000_0000, c.slba % 0x10_0000_0000_0000;
    assert c.slba * SECTOR_SIZE == q * U64 + r * SECTOR_SIZE;
  }

  /** The card accepts a command when its first byte offset, in 64 bits, lies on the disk. That
      tells the commands on the namespace from the others except where the first sector, as the
      shift leaves it, lies on the disk while the range ends beyond it. */
  lemma GuardIsRightIff(c: IoCommand)
    requires c.Valid()
    ensures (c.Offset() >= DISK_SIZE <==> !c.InRange())
            <==> !(c.slba % 0x10_0000_0000_0000 < TOTAL_SECTORS < c.slba + c.blocks)
  {
    OffsetIs(c);
  }

  lemma InRangeOffset(c: IoCommand)
    requires c.Valid() && c.InRange()
    ensures c.Offset() == c.slba * SECTOR_SIZE < DISK_SIZE && c.Offset() + c.Length() <= DISK_SIZE
  {
  }

  /** The card: a process whose memory holds the disk image from `disk` on. */
  class NvmeDevice {
    const instance: Instance
    const rc: RootComplex
    const disk: nat

    ghost predicate Valid() {
      && instance.Valid() && instance.funcs[0] == rc
      && disk + DISK_SIZE <= instance.user.Length && disk + DISK_SIZE < U64
    }

    constructor (instance: Instance, rc: RootComplex, disk: nat)
      requires instance.Valid() && instance.funcs[0] == rc
      requires disk + DISK_SIZE <= instance.user.Length && disk + DISK_SIZE < U64
      ensures Valid() && this.instance == instance && this.rc == rc && this.disk == disk
    {
      this.instance := instance;
      this.rc := rc;
      this.disk := disk;
    }

    ghost function TheWorld(): World
      reads rc, instance.user
    {
      instance.TheWorld(rc)
    }

    /** One read or write command. A refused command changes nothing; any other moves a
        prefix of its bytes, and all of them when it reports success. */
    method Execute(c: IoCommand) returns (status: nat, ghost moved: nat)
      requires Valid() && c.Valid()
      requires c.Offset() < DISK_SIZE ==>
                 Meaningful(Host(rc.ram, rc.iommu, PAGE_SIZE), Request(c, disk))
      modifies instance.user, set v: RootComplex | v in instance.funcs
      ensures status in {SUCCESS, INVALID_FIELD, INTERNAL}
      ensures status == INVALID_FIELD <==> c.Offset() >= DISK_SIZE
      ensures status == INVALID_FIELD ==> moved == 0
      ensures status == SUCCESS ==> moved == c.Length()
      ensures status == SUCCESS ==> c.TheWalk(old(rc.ram), rc.iommu).end == Complete
      ensures var addrs := c.Addresses(old(rc.ram), rc.iommu);
              && moved <= |addrs|
              && (moved == 0 || disk + c.Offset() + moved <= instance.user.Length)
              && TheWorld() == Transfer(old(TheWorld()), !c.write, addrs[..moved], disk + c.Offset())
    {
      moved := 0;
      if c.Offset() >= DISK_SIZE {
        return INVALID_FIELD, 0;
      }
      var ret;
      var gotBuffers: bool := *;
      ret, moved := instance.Indirect(Request(c, disk), gotBuffers);
      status := if ret != 0 then INTERNAL else SUCCESS;
    }
  }

  /** The ioctl argument built for a command: page size 4096, function 0. */
  function Request(c: IoCommand, disk: nat): DmaIndirect {
    DmaIndirect(c.prp1, c.prp2, disk + c.Offset(), c.Length(), PAGE_SIZE, !c.write, 0)
  }

  /** What happens over a run: the host stores to its own memory, a command succeeds, or a
      command fails after moving some of its bytes. */
  datatype Event = HostActs | Did(c: IoCommand) | Failed(c: IoCommand)

  ghost predicate SameDisk(mem: seq<byte>, mem': seq<byte>, disk: nat)
    requires disk + DISK_SIZE <= |mem| == |mem'|
  {
    forall k :: disk <= k < disk + DISK_SIZE ==> mem'[k] == mem[k]
  }

  ghost predicate Blank(mem: seq<byte>, disk: nat)
    requires disk + DISK_SIZE <= |mem|
  {
    forall k :: disk <= k < disk + DISK_SIZE ==> mem[k] == 0
  }

  ghost predicate Step(iommu: Iommu, disk: nat, w: World, e: Event, w': World) {
    && disk + DISK_SIZE <= |w.mem| == |w'.mem|
    && match e
       case HostActs => SameDisk(w.mem, w'.mem, disk)
       case Did(c) =>
         && c.InRange() && |c.Addresses(w.ram, iommu)| == c.Length()
         && w' == Transfer(w, !c.write, c.Addresses(w.ram, iommu), disk + c.slba * SECTOR_SIZE)
       case Failed(c) =>
         && c.InRange()
         && exists k: nat :: StoppedAfter(disk, w, c, c.Addresses(w.ram, iommu), k, w')
  }

  /** The first `k` bytes of an in-range command were moved. */
  ghost predicate StoppedAfter(disk: nat, w: World, c: IoCommand, addrs: seq<nat>, k: nat, w': World) {
    && c.InRange() && disk + DISK_SIZE <= |w.mem| && k <= |addrs| && k <= c.Length()
    && w' == Transfer(w, !c.write, addrs[..k], disk + c.slba * SECTOR_SIZE)
  }

  /** `ws[i]` and `ws[i + 1]` are the worlds around event `i`. */
  ghost predicate Run(iommu: Iommu, disk: nat, ws: seq<World>, es: seq<Event>) {
    && |ws| == |es| + 1
    && disk + DISK_SIZE <= |ws[0].mem|
    && Blank(ws[0].mem, disk)
    && forall i :: 0 <= i < |es| ==> Step(iommu, disk, ws[i], es[i], ws[i + 1])
  }

  lemma RunPrefix(iommu: Iommu, disk: nat, ws: seq<World>, es: seq<Event>)
    requires Run(iommu, disk, ws, es) && |es| > 0
    ensures Run(iommu, disk, ws[..|es|], es[..|es| - 1])
    ensures Step(iommu, disk, ws[|es| - 1], es[|es| - 1], ws[|es|])
  {
  }

  /** A command that the guard judges rightly leaves its device in the world its event describes. */
  lemma AnsweredIsStep(iommu: Iommu, disk: nat, w: World, c: IoCommand, status: nat, moved: nat, w': World)
    requires c.Valid() && (c.InRange() || c.Offset() >= DISK_SIZE) && disk + DISK_SIZE <= |w.mem|
    requires status in {SUCCESS, INVALID_FIELD, INTERNAL} && (status == INVALID_FIELD <==> c.Offset() >= DISK_SIZE)
    requires status == INVALID_FIELD ==> moved == 0
    requires moved <= |c.Addresses(w.ram, iommu)| && (moved == 0 || disk + c.Offset() + moved <= |w.mem|)
    requires status == SUCCESS ==> moved == c.Length() && c.TheWalk(w.ram, iommu).end == Complete
    requires w' == Transfer(w, !c.write, c.Addresses(w.ram, iommu)[..moved], disk + c.Offset())
    ensures Step(iommu, disk, w, Outcome(c, status), w')
  {
    if c.InRange() {
      InRangeOffset(c);
      ExecutionIsStep(iommu, disk, w, c, status, moved, w');
    }
  }

  /** An in-range command leaves its device in the world its event describes. */
  lemma ExecutionIsStep(iommu: Iommu, disk: nat, w: World, c: IoCommand, status: nat, moved: nat, w': World)
    requires c.Valid() && c.InRange() && disk + DISK_SIZE <= |w.mem|
    requires moved <= |c.Addresses(w.ram, iommu)| && disk + c.Offset() + moved <= |w.mem|
    requires status == SUCCESS ==> moved == c.Length() && c.TheWalk(w.ram, iommu).end == Complete
    requires w' == Transfer(w, !c.write, c.Addresses(w.ram, iommu)[..moved], disk + c.Offset())
    ensures Step(iommu, disk, w, if status == SUCCESS then Did(c) else Failed(c), w')
  {
    InRangeOffset(c);
    AddressCount(c, w.ram, iommu);
    var addrs := c.Addresses(w.ram, iommu);
    if status == SUCCESS {
      assert addrs[..moved] == addrs;
    } else {
      assert StoppedAfter(disk, w, c, addrs, moved, w');
    }
  }

  /** A command has no more addresses than bytes, and as many when its walk is complete. */
  lemma AddressCount(c: IoCommand, ram: Ram, iommu: Iommu)
    requires c.Valid()
    ensures |c.Addresses(ram, iommu)| <= c.Length()
    ensures c.TheWalk(ram, iommu).end == Complete ==> |c.Addresses(ram, iommu)| == c.Length()
  {
    PiecesTotal(Host(ram, iommu, PAGE_SIZE), c.prp1, c.prp2, c.Length());
    FlatLength(iommu, c.TheWalk(ram, iommu).pieces);
  }

  function Sector(mem: seq<byte>, disk: nat, lba: nat): seq<byte>
    requires lba < TOTAL_SECTORS && disk + DISK_SIZE <= |mem|
  {
    mem[disk + lba * SECTOR_SIZE..disk + lba * SECTOR_SIZE + SECTOR_SIZE]
  }

  /** The sector of a block of transfer data. */
  function Part(data: seq<byte>, i: nat): seq<byte>
    requires (i + 1) * SECTOR_SIZE <= |data|
  {
    data[i * SECTOR_SIZE..i * SECTOR_SIZE + SECTOR_SIZE]
  }

  /** Data that went astray: it goes on past the end of the disk, or its first sector is one that
      the command does not name. */
  ghost predicate Stray(c: IoCommand, data: seq<byte>, mem: seq<byte>, disk: nat) {
    var first, past, end := c.slba % 0x10_0000_0000_0000, disk + DISK_SIZE, disk + c.Offset() + c.Length();
    && |data| == c.Length() >= SECTOR_SIZE && first < TOTAL_SECTORS && past <= |mem|
    && Sector(mem, disk, first) == Part(data, 0)
    && if first == c.slba then
         past < end <= |mem| && c.Offset() < DISK_SIZE && mem[past..end] == data[DISK_SIZE - c.Offset()..]
       else !c.Covers(first)
  }

  /** An accepted write outside the namespace that succeeds has put its data astray. */
  lemma AcceptedOutOfRange(w: World, disk: nat, c: IoCommand, addrs: seq<nat>, w': World)
    requires c.Valid() && c.write && c.Offset() < DISK_SIZE && !c.InRange()
    requires |addrs| == c.Length() && disk + c.Offset() + c.Length() <= |w.mem| && disk + DISK_SIZE <= |w.mem|
    requires w' == Transfer(w, false, addrs, disk + c.Offset())
    ensures Stray(c, LoadAll(w.ram, addrs), w'.mem, disk)
  {
    OffsetIs(c);
    var data, at := LoadAll(w.ram, addrs), disk + c.Offset();
    assert w'.mem == w.mem[..at] + data + w.mem[at + |data|..];
  }

  /** What an accepted read outside the namespace that succeeds stores in the host: bytes from
      beyond the end of the disk, or first a sector that it does not name. */
  lemma AcceptedReadOutOfRange(w: World, disk: nat, c: IoCommand, addrs: seq<nat>, w': World, data: seq<byte>)
    requires c.Valid() && !c.write && c.Offset() < DISK_SIZE && !c.InRange()
    requires |addrs| == c.Length() && disk + c.Offset() + c.Length() <= |w.mem| && disk + DISK_SIZE <= |w.mem|
    requires w' == Transfer(w, true, addrs, disk + c.Offset())
    requires data == w.mem[disk + c.Offset()..disk + c.Offset() + c.Length()]
    ensures w'.ram == StoreAll(w.ram, addrs, data) && Stray(c, data, w.mem, disk)
  {
    OffsetIs(c);
    TransferStores(w, addrs, disk + c.Offset(), data);
  }

  /** An accepted command outside the namespace has moved this data, and moved it astray. */
  ghost predicate MovedAstray(was: World, now: World, c: IoCommand, addrs: seq<nat>, data: seq<byte>, disk: nat)
    requires c.Valid() && !c.InRange() && c.Offset() < DISK_SIZE && disk + DISK_SIZE <= |now.mem|
  {
    && |addrs| == |data| == c.Length() && Stray(c, data, now.mem, disk)
    && if c.write then data == LoadAll(was.ram, addrs)
       else now.ram == StoreAll(was.ram, addrs, data) && now.mem == was.mem
  }

  lemma MovesAstray(w: World, disk: nat, c: IoCommand, addrs: seq<nat>, w': World) returns (data: seq<byte>)
    requires c.Valid() && c.Offset() < DISK_SIZE && !c.InRange()
    requires |addrs| == c.Length() && disk + c.Offset() + c.Length() <= |w.mem| && disk + DISK_SIZE <= |w.mem|
    requires w' == Transfer(w, !c.write, addrs, disk + c.Offset())
    ensures MovedAstray(w, w', c, addrs, data, disk)
  {
    if c.write {
      data := LoadAll(w.ram, addrs);
      AcceptedOutOfRange(w, disk, c, addrs, w');
    } else {
      data := w.mem[disk + c.Offset()..disk + c.Offset() + c.Length()];
      AcceptedReadOutOfRange(w, disk, c, addrs, w', data);
    }
  }

  /** So does the card. */
  method ExecuteOutOfRange(d: NvmeDevice, c: IoCommand) returns (status: nat, ghost data: seq<byte>)
    requires d.Valid() && c.Valid() && c.Offset() < DISK_SIZE && !c.InRange()
    requires Meaningful(Host(d.rc.ram, d.rc.iommu, PAGE_SIZE), Request(c, d.disk))
    modifies d.instance.user, set v: RootComplex | v in d.instance.funcs
    ensures status in {SUCCESS, INTERNAL}
    ensures d.Valid()
    ensures status == SUCCESS ==>
              MovedAstray(old(d.TheWorld()), d.TheWorld(), c, c.Addresses(old(d.rc.ram), d.rc.iommu), data, d.disk)
  {
    data := [];
    ghost var w := d.TheWorld();
    ghost var moved;
    status, moved := d.Execute(c);
    if status == SUCCESS {
      AddressCount(c, w.ram, d.rc.iommu);
      ghost var addrs := c.Addresses(w.ram, d.rc.iommu);
      assert addrs[..moved] == addrs;
      data := MovesAstray(w, d.disk, c, addrs, d.TheWorld());
    }
  }

  /** Two such commands: the last sector and the one after it, and a block address that the shift
      takes to sector 0. */
  lemma AcceptedOutOfRangeInputs(prp1: nat, prp2: nat)
    requires prp1 < U64 && prp2 < U64
    ensures var c := IoCommand(true, TOTAL_SECTORS - 1, 2, prp1, prp2);
            && c.Valid() && c.Offset() == DISK_SIZE - SECTOR_SIZE && !c.InRange()
            && c.Offset() + c.Length() == DISK_SIZE + SECTOR_SIZE
    ensures var c := IoCommand(true, 0x10_0000_0000_0000, 1, prp1, prp2);
            && c.Valid() && c.Offset() == 0 && !c.InRange() && !c.Covers(0)
  {
  }

  /** What a reader may count on; nothing, where a write failed half way. */
  datatype Content = Known(data: seq<byte>) | Unspecified {
    ghost predicate Allows(found: seq<byte>) {
      Known? ==> found == data
    }
  }

  function Zeros(): (data: seq<byte>)
    ensures |data| == SECTOR_SIZE
  {
    seq(SECTOR_SIZE, _ => 0)
  }

  /** The content of a sector after an event: what a write to it took from the host, or what it
      was before. */
  function After(iommu: Iommu, w: World, e: Event, lba: nat, before: Content): Content {
    match e
    case HostActs => before
    case Did(c) =>
      var data := LoadAll(w.ram, c.Addresses(w.ram, iommu));
      if c.write && c.slba <= lba < c.slba + c.blocks && |data| == c.Length() then Known(Part(data, lba - c.slba))
      else before
    case Failed(c) =>
      if c.write && c.slba <= lba < c.slba + c.blocks then Unspecified else before
  }

  /** The content of a sector after a run: what the latest write to it took from the host. */
  function Latest(iommu: Iommu, ws: seq<World>, es: seq<Event>, lba: nat): Content
    requires |ws| == |es| + 1
  {
    if es == [] then Known(Zeros())
    else
      var n := |es| - 1;
      After(iommu, ws[n], es[n], lba, Latest(iommu, ws[..n + 1], es[..n], lba))
  }

  /** Bytes put into memory leave the others alone. */
  lemma SpliceAside(mem: seq<byte>, data: seq<byte>, at: nat, lo: nat, hi: nat)
    requires at + |data| <= |mem| && lo <= hi <= |mem| && (hi <= at || at + |data| <= lo)
    ensures (mem[..at] + data + mem[at + |data|..])[lo..hi] == mem[lo..hi]
  {
    var after := mem[..at] + data + mem[at + |data|..];
    forall k | lo <= k < hi
      ensures after[k] == mem[k]
    {
    }
  }

  /** A transfer into part of the disk leaves the sectors outside it alone. */
  lemma OtherSectorsKept(w: World, disk: nat, c: IoCommand, addrs: seq<nat>, lba: nat)
    requires c.InRange() && disk + DISK_SIZE <= |w.mem| && |addrs| <= c.Length() && lba < TOTAL_SECTORS
    requires !c.write || !c.Covers(lba)
    ensures var w' := Transfer(w, !c.write, addrs, disk + c.slba * SECTOR_SIZE);
            Sector(w'.mem, disk, lba) == Sector(w.mem, disk, lba)
  {
    var lo := disk + lba * SECTOR_SIZE;
    if c.write && addrs != [] {
      SpliceAside(w.mem, LoadAll(w.ram, addrs), disk + c.slba * SECTOR_SIZE, lo, lo + SECTOR_SIZE);
    }
  }

  lemma WrittenSector(w: World, disk: nat, c: IoCommand, addrs: seq<nat>, lba: nat)
    requires c.write && c.InRange() && disk + DISK_SIZE <= |w.mem| && |addrs| == c.Length() && c.Covers(lba)
    ensures var w' := Transfer(w, false, addrs, disk + c.slba * SECTOR_SIZE);
            Sector(w'.mem, disk, lba) == Part(LoadAll(w.ram, addrs), lba - c.slba)
  {
  }

  lemma SameDiskSameSector(mem: seq<byte>, mem': seq<byte>, disk: nat, lba: nat)
    requires lba < TOTAL_SECTORS && disk + DISK_SIZE <= |mem| == |mem'| && SameDisk(mem, mem', disk)
    ensures Sector(mem', disk, lba) == Sector(mem, disk, lba)
  {
  }

  lemma BlankSector(mem: seq<byte>, disk: nat, lba: nat)
    requires lba < TOTAL_SECTORS && disk + DISK_SIZE <= |mem| && Blank(mem, disk)
    ensures Sector(mem, disk, lba) == Zeros()
  {
  }

  lemma DidSector(iommu: Iommu, disk: nat, w: World, c: IoCommand, w': World, lba: nat, before: Content)
    requires Step(iommu, disk, w, Did(c), w') && lba < TOTAL_SECTORS && before.Allows(Sector(w.mem, disk, lba))
    ensures After(iommu, w, Did(c), lba, before).Allows(Sector(w'.mem, disk, lba))
  {
    var addrs := c.Addresses(w.ram, iommu);
    if c.write && c.Covers(lba) {
      WrittenSector(w, disk, c, addrs, lba);
    } else {
      OtherSectorsKept(w, disk, c, addrs, lba);
    }
  }

  lemma FailedSector(iommu: Iommu, disk: nat, w: World, c: IoCommand, w': World, lba: nat, before: Content)
    requires Step(iommu, disk, w, Failed(c), w') && lba < TOTAL_SECTORS && before.Allows(Sector(w.mem, disk, lba))
    ensures After(iommu, w, Failed(c), lba, before).Allows(Sector(w'.mem, disk, lba))
  {
    var addrs := c.Addresses(w.ram, iommu);
    if !(c.write && c.Covers(lba)) {
      var k: nat :| StoppedAfter(disk, w, c, addrs, k, w');
      OtherSectorsKept(w, disk, c, addrs[..k], lba);
    }
  }

  /** One event's effect on one sector. */
  lemma StepSector(iommu: Iommu, disk: nat, w: World, e: Event, w': World, lba: nat, before: Content)
    requires Step(iommu, disk, w, e, w') && lba < TOTAL_SECTORS && before.Allows(Sector(w.mem, disk, lba))
    ensures After(iommu, w, e, lba, before).Allows(Sector(w'.mem, disk, lba))
  {
    match e
    case HostActs =>
      SameDiskSameSector(w.mem, w'.mem, disk, lba);
    case Did(c) =>
      DidSector(iommu, disk, w, c, w', lba, before);
    case Failed(c) =>
      FailedSector(iommu, disk, w, c, w', lba, before);
  }

  /** Refinement: after any run the disk image holds, for every sector, what the latest write
      to it took from the host, or zeros when there was none. */
  lemma {:induction false} DiskHoldsLatest(iommu: Iommu, disk: nat, ws: seq<World>, es: seq<Event>, lba: nat)
    requires Run(iommu, disk, ws, es) && lba < TOTAL_SECTORS
    ensures disk + DISK_SIZE <= |ws[|es|].mem|
    ensures Latest(iommu, ws, es, lba).Allows(Sector(ws[|es|].mem, disk, lba))
    decreases |es|
  {
    if es == [] {
      BlankSector(ws[0].mem, disk, lba);
    } else {
      var n := |es| - 1;
      RunPrefix(iommu, disk, ws, es);
      DiskHoldsLatest(iommu, disk, ws[..n + 1], es[..n], lba);
      StepSector(iommu, disk, ws[n], es[n], ws[n + 1], lba, Latest(iommu, ws[..n + 1], es[..n], lba));
    }
  }

  lemma RunGrows(iommu: Iommu, disk: nat, ws: seq<World>, es: seq<Event>, e: Event, w': World)
    requires Run(iommu, disk, ws, es) && Step(iommu, disk, ws[|es|], e, w')
    ensures Run(iommu, disk, ws + [w'], es + [e])
  {
    var ws', es' := ws + [w'], es + [e];
    forall i | 0 <= i < |es'|
      ensures Step(iommu, disk, ws'[i], es'[i], ws'[i + 1])
    {
      if i < |es| {
        assert Step(iommu, disk, ws[i], es[i], ws[i + 1]);
      }
    }
  }

  /** The event that an answer to a command reports. */
  function Outcome(c: IoCommand, status: nat): Event {
    if status == INVALID_FIELD then HostActs else if status == SUCCESS then Did(c) else Failed(c)
  }

  /** One command, after the host has made its memory `host`. */
  method ServeOne(d: NvmeDevice, c: IoCommand, host: Ram) returns (status: nat, ghost w: World)
    requires d.Valid() && c.Valid() && (c.InRange() || c.Offset() >= DISK_SIZE)
    requires c.Offset() < DISK_SIZE ==> Meaningful(Host(host, d.rc.iommu, PAGE_SIZE), Request(c, d.disk))
    modifies d.instance.user, set v: RootComplex | v in d.instance.funcs
    ensures w.ram == host && Step(d.rc.iommu, d.disk, old(d.TheWorld()), HostActs, w)
    ensures Step(d.rc.iommu, d.disk, w, Outcome(c, status), d.TheWorld())
  {
    d.rc.ram := host;
    w := d.TheWorld();
    ghost var moved;
    status, moved := d.Execute(c);
    AnsweredIsStep(d.rc.iommu, d.disk, w, c, status, moved, d.TheWorld());
  }

  /** Before command `i` the host acts, leaving `hosts[i]`; then comes what the answer reports. */
  ghost predicate Logged(cs: seq<IoCommand>, hosts: seq<Ram>, statuses: seq<nat>, ws: seq<World>, es: seq<Event>)
  {
    && |statuses| <= |cs| == |hosts| && |es| == 2 * |statuses| && |ws| == |es| + 1
    && forall i :: 0 <= i < |statuses| ==> LoggedAt(cs[i], hosts[i], statuses[i], ws, es, 2 * i)
  }

  ghost predicate LoggedAt(c: IoCommand, host: Ram, status: nat, ws: seq<World>, es: seq<Event>, k: nat) {
    && k + 1 < |es| && k + 1 < |ws|
    && es[k] == HostActs && ws[k + 1].ram == host && es[k + 1] == Outcome(c, status)
  }

  lemma LogGrows(cs: seq<IoCommand>, hosts: seq<Ram>, statuses: seq<nat>, ws: seq<World>, es: seq<Event>,
                 status: nat, w: World, w': World)
    requires Logged(cs, hosts, statuses, ws, es) && |statuses| < |cs| && w.ram == hosts[|statuses|]
    ensures Logged(cs, hosts, statuses + [status], ws + [w, w'], es + [HostActs, Outcome(cs[|statuses|], status)])
  {
    var e := Outcome(cs[|statuses|], status);
    forall i | 0 <= i < |statuses|
      ensures LoggedAt(cs[i], hosts[i], (statuses + [status])[i], ws + [w, w'], es + [HostActs, e], 2 * i)
    {
      assert LoggedAt(cs[i], hosts[i], statuses[i], ws, es, 2 * i);
    }
  }

  lemma RunGrowsTwice(iommu: Iommu, disk: nat, ws: seq<World>, es: seq<Event>, e: Event, w: World, e': Event, w': World)
    requires Run(iommu, disk, ws, es) && Step(iommu, disk, ws[|es|], e, w) && Step(iommu, disk, w, e', w')
    ensures Run(iommu, disk, ws + [w, w'], es + [e, e'])
  {
    RunGrows(iommu, disk, ws, es, e, w);
    RunGrows(iommu, disk, ws + [w], es + [e], e', w');
    assert ws + [w] + [w'] == ws + [w, w'] && es + [e] + [e'] == es + [e, e'];
  }

  /** Commands one after the other, the host's memory being `hosts[i]` when command `i` comes:
      whatever the host does in between and whatever the commands answer, it is a run, and the
      disk holds the latest writes. */
  method ServeAll(d: NvmeDevice, cs: seq<IoCommand>, hosts: seq<Ram>)
    returns (statuses: seq<nat>, ghost ws: seq<World>, ghost es: seq<Event>)
    requires d.Valid() && |hosts| == |cs| && Blank(d.instance.user[..], d.disk)
    requires forall i :: 0 <= i < |cs| ==> cs[i].Valid() && (cs[i].InRange() || cs[i].Offset() >= DISK_SIZE)
    requires forall i :: 0 <= i < |cs| && cs[i].Offset() < DISK_SIZE ==>
                           Meaningful(Host(hosts[i], d.rc.iommu, PAGE_SIZE), Request(cs[i], d.disk))
    modifies d.instance.user, set v: RootComplex | v in d.instance.funcs
    ensures |statuses| == |cs| && Logged(cs, hosts, statuses, ws, es)
    ensures Run(d.rc.iommu, d.disk, ws, es) && ws[0] == old(d.TheWorld()) && ws[|es|] == d.TheWorld()
    ensures forall lba :: 0 <= lba < TOTAL_SECTORS ==>
                            Latest(d.rc.iommu, ws, es, lba).Allows(Sector(d.instance.user[..], d.disk, lba))
  {
    statuses, ws, es := [], [d.TheWorld()], [];
    for n := 0 to |cs|
      invariant |statuses| == n && Logged(cs, hosts, statuses, ws, es)
      invariant Run(d.rc.iommu, d.disk, ws, es) && ws[0] == old(d.TheWorld()) && ws[|es|] == d.TheWorld()
    {
      var status;
      ghost var w;
      status, w := ServeOne(d, cs[n], hosts[n]);
      ghost var e, w' := Outcome(cs[n], status), d.TheWorld();
      RunGrowsTwice(d.rc.iommu, d.disk, ws, es, HostActs, w, e, w');
      LogGrows(cs, hosts, statuses, ws, es, status, w, w');
      statuses, ws, es := statuses + [status], ws + [w, w'], es + [HostActs, e];
    }
    forall lba | 0 <= lba < TOTAL_SECTORS
      ensures Latest(d.rc.iommu, ws, es, lba).Allows(Sector(d.instance.user[..], d.disk, lba))
    {
      DiskHoldsLatest(d.rc.iommu, d.disk, ws, es, lba);
    }
  }

  /** No later byte of the transfer goes where a byte of sector `i` goes. */
  ghost predicate Survives(addrs: seq<nat>, i: nat) {
    forall j, k :: i * SECTOR_SIZE <= j < i * SECTOR_SIZE + SECTOR_SIZE && j < k < |addrs| ==> addrs[k] != addrs[j]
  }

  /** End to end: a read that succeeds puts into the host pages it names, for every sector it does
      not overwrite itself, what the latest write to that sector took from the host, or zeros. */
  lemma ReadDeliversLatest(iommu: Iommu, disk: nat, ws: seq<World>, es: seq<Event>, c: IoCommand, i: nat)
    requires Run(iommu, disk, ws, es) && |es| > 0 && es[|es| - 1] == Did(c) && !c.write && i < c.blocks
    requires Survives(c.Addresses(ws[|es| - 1].ram, iommu), i)
    ensures var n := |es| - 1;
            var delivered := LoadAll(ws[n + 1].ram, c.Addresses(ws[n].ram, iommu));
            && |delivered| == c.Length()
            && Latest(iommu, ws[..n + 1], es[..n], c.slba + i).Allows(Part(delivered, i))
  {
    var n := |es| - 1;
    RunPrefix(iommu, disk, ws, es);
    DiskHoldsLatest(iommu, disk, ws[..n + 1], es[..n], c.slba + i);
    ReadDelivers(iommu, disk, ws[n], c, ws[n + 1], i, Latest(iommu, ws[..n + 1], es[..n], c.slba + i));
  }

  lemma ReadDelivers(iommu: Iommu, disk: nat, w: World, c: IoCommand, w': World, i: nat, content: Content)
    requires Step(iommu, disk, w, Did(c), w') && !c.write && i < c.blocks
    requires Survives(c.Addresses(w.ram, iommu), i)
    requires content.Allows(Sector(w.mem, disk, c.slba + i))
    ensures (i + 1) * SECTOR_SIZE <= |LoadAll(w'.ram, c.Addresses(w.ram, iommu))| == c.Length()
    ensures content.Allows(Part(LoadAll(w'.ram, c.Addresses(w.ram, iommu)), i))
  {
    DeliveredSector(w, disk, c, c.Addresses(w.ram, iommu), i, w');
  }

  /** A read leaves in the host pages a sector that it names and does not overwrite. */
  lemma DeliveredSector(w: World, disk: nat, c: IoCommand, addrs: seq<nat>, i: nat, w': World)
    requires c.InRange() && disk + DISK_SIZE <= |w.mem| && |addrs| == c.Length() && i < c.blocks
    requires Survives(addrs, i) && w' == Transfer(w, true, addrs, disk + c.slba * SECTOR_SIZE)
    ensures (i + 1) * SECTOR_SIZE <= |LoadAll(w'.ram, addrs)|
    ensures Part(LoadAll(w'.ram, addrs), i) == Sector(w.mem, disk, c.slba + i)
  {
    var at := disk + c.slba * SECTOR_SIZE;
    var data := w.mem[at..at + |addrs|];
    PartKept(w.ram, addrs, data, i);
    SectorOfRead(w.mem, disk, c, i, data);
  }

  lemma SectorOfRead(mem: seq<byte>, disk: nat, c: IoCommand, i: nat, data: seq<byte>)
    requires c.InRange() && disk + DISK_SIZE <= |mem| && i < c.blocks
    requires var at := disk + c.slba * SECTOR_SIZE; data == mem[at..at + c.Length()]
    ensures Sector(mem, disk, c.slba + i) == Part(data, i)
  {
    var at := disk + c.slba * SECTOR_SIZE;
    SliceOfSlice(mem, at, at + c.Length(), i * SECTOR_SIZE, i * SECTOR_SIZE + SECTOR_SIZE);
  }

  lemma SamePart(one: seq<byte>, other: seq<byte>, i: nat)
    requires (i + 1) * SECTOR_SIZE <= |one| == |other|
    requires forall j :: i * SECTOR_SIZE <= j < i * SECTOR_SIZE + SECTOR_SIZE ==> one[j] == other[j]
    ensures Part(one, i) == Part(other, i)
  {
  }

  lemma PartKept(ram: Ram, addrs: seq<nat>, data: seq<byte>, i: nat)
    requires (i + 1) * SECTOR_SIZE <= |addrs| == |data| && Survives(addrs, i)
    ensures Part(LoadAll(StoreAll(ram, addrs, data), addrs), i) == Part(data, i)
  {
    var back := LoadAll(StoreAll(ram, addrs, data), addrs);
    forall j | i * SECTOR_SIZE <= j < i * SECTOR_SIZE + SECTOR_SIZE
      ensures back[j] == data[j]
    {
      StoreLast(ram, addrs, data, j);
    }
    SamePart(back, data, i);
  }

  /** A read of these addresses leaves in them sector `i` of what it reads. */
  ghost predicate Delivers(w: World, disk: nat, c: IoCommand, addrs: seq<nat>, i: nat)
    requires c.InRange() && disk + DISK_SIZE <= |w.mem| && |addrs| == c.Length() && i < c.blocks
  {
    Part(LoadAll(Transfer(w, true, addrs, disk + c.slba * SECTOR_SIZE).ram, addrs), i)
    == Sector(w.mem, disk, c.slba + i)
  }

  /** A disk of zeros with a one at a single place. */
  function OneAt(size: nat, at: nat): (mem: seq<byte>)
    ensures |mem| == size
  {
    seq(size, k => if k == at then 1 else 0)
  }

  lemma OneInSlice(size: nat, at: nat, n: nat, j: nat, data: seq<byte>)
    requires at + n <= size && j < n && data == OneAt(size, at + j)[at..at + n]
    ensures data[j] == 1
    ensures forall l :: j < l < n ==> data[l] == 0
  {
  }

  lemma OverwrittenByte(w: World, disk: nat, c: IoCommand, addrs: seq<nat>, i: nat, j: nat, k: nat, at: nat)
    requires c.InRange() && disk + DISK_SIZE <= |w.mem| && |addrs| == c.Length() && i < c.blocks
    requires i * SECTOR_SIZE <= j < i * SECTOR_SIZE + SECTOR_SIZE && j < k < |addrs| && addrs[k] == addrs[j]
    requires at == disk + c.slba * SECTOR_SIZE && w.mem == OneAt(|w.mem|, at + j)
    ensures !Delivers(w, disk, c, addrs, i)
  {
    var data := w.mem[at..at + |addrs|];
    OneInSlice(|w.mem|, at, |addrs|, j, data);
    OverwrittenIn(w, disk, c, addrs, i, j, k, data);
  }

  lemma OverwrittenIn(w: World, disk: nat, c: IoCommand, addrs: seq<nat>, i: nat, j: nat, k: nat, data: seq<byte>)
    requires c.InRange() && disk + DISK_SIZE <= |w.mem| && |addrs| == c.Length() && i < c.blocks
    requires i * SECTOR_SIZE <= j < i * SECTOR_SIZE + SECTOR_SIZE && j < k < |addrs| && addrs[k] == addrs[j]
    requires var at := disk + c.slba * SECTOR_SIZE; data == w.mem[at..at + |addrs|]
    requires data[j] == 1 && forall l :: j < l < |data| ==> data[l] == 0
    ensures !Delivers(w, disk, c, addrs, i)
  {
    StoredLater(w.ram, addrs, data, j, k);
    TransferStores(w, addrs, disk + c.slba * SECTOR_SIZE, data);
    LostByte(w, disk, c, addrs, i, j, data, LoadAll(StoreAll(w.ram, addrs, data), addrs));
  }

  lemma TransferStores(w: World, addrs: seq<nat>, at: nat, data: seq<byte>)
    requires addrs != [] && at + |addrs| <= |w.mem| && data == w.mem[at..at + |addrs|]
    ensures Transfer(w, true, addrs, at).ram == StoreAll(w.ram, addrs, data)
  {
  }

  lemma LostByte(w: World, disk: nat, c: IoCommand, addrs: seq<nat>, i: nat, j: nat, data: seq<byte>, back: seq<byte>)
    requires c.InRange() && disk + DISK_SIZE <= |w.mem| && |addrs| == c.Length() && i < c.blocks
    requires i * SECTOR_SIZE <= j < i * SECTOR_SIZE + SECTOR_SIZE
    requires var at := disk + c.slba * SECTOR_SIZE; data == w.mem[at..at + |addrs|]
    requires back == LoadAll(Transfer(w, true, addrs, disk + c.slba * SECTOR_SIZE).ram, addrs) && back[j] != data[j]
    ensures !Delivers(w, disk, c, addrs, i)
  {
    SectorOfRead(w.mem, disk, c, i, data);
    DifferentParts(back, data, i, j);
  }

  lemma DifferentParts(one: seq<byte>, other: seq<byte>, i: nat, j: nat)
    requires (i + 1) * SECTOR_SIZE <= |one| == |other| && i * SECTOR_SIZE <= j < i * SECTOR_SIZE + SECTOR_SIZE
    requires one[j] != other[j]
    ensures Part(one, i) != Part(other, i)
  {
    assert Part(one, i)[j - i * SECTOR_SIZE] == one[j];
  }

  /** When a read delivers a sector, whatever the disk holds: if and only if it does not itself
      overwrite the sector with a later one. */
  lemma SectorDeliveredIff(ram: Ram, disk: nat, size: nat, c: IoCommand, addrs: seq<nat>, i: nat)
    requires c.InRange() && disk + DISK_SIZE <= size && |addrs| == c.Length() && i < c.blocks
    ensures (forall mem: seq<byte> :: |mem| == size ==> Delivers(World(ram, mem), disk, c, addrs, i))
            <==> Survives(addrs, i)
  {
    if Survives(addrs, i) {
      forall mem: seq<byte> | |mem| == size
        ensures Delivers(World(ram, mem), disk, c, addrs, i)
      {
        var w := World(ram, mem);
        DeliveredSector(w, disk, c, addrs, i, Transfer(w, true, addrs, disk + c.slba * SECTOR_SIZE));
      }
    } else {
      var j, k :| i * SECTOR_SIZE <= j < i * SECTOR_SIZE + SECTOR_SIZE && j < k < |addrs| && addrs[k] == addrs[j];
      var at := disk + c.slba * SECTOR_SIZE;
      var mem := OneAt(size, at + j);
      OverwrittenByte(World(ram, mem), disk, c, addrs, i, j, k, at);
    }
  }

  /** A read of two sectors that names one host page twice keeps the second and not the first. */
  lemma ReadNamesPageTwice(ram: Ram, page: nat)
    requires page % PAGE_SIZE == 0 && page + PAGE_SIZE <= U64
    ensures var c := IoCommand(false, 0, 2, page, page);
            var addrs := c.Addresses(ram, NoDomain);
            && c.Valid() && |addrs| == c.Length() && !Survives(addrs, 0) && Survives(addrs, 1)
  {
    var c := IoCommand(false, 0, 2, page, page);
    var addrs := c.Addresses(ram, NoDomain);
    var piece := Piece(page, PAGE_SIZE);
    assert c.TheWalk(ram, NoDomain).pieces == [piece, piece];
    var one := PhysRange(NoDomain, page, PAGE_SIZE);
    assert [piece][1..] == [] && Flat(NoDomain, [piece]) == one;
    assert [piece, piece] == [piece] + [piece];
    FlatAppend(NoDomain, [piece], [piece]);
    assert addrs[0] == one[0] == addrs[PAGE_SIZE];
  }
}
