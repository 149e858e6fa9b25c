/** The indirect DMA request: gathering and scattering through Physical Region Page lists
(kernel/framework/userspace.c, `pciem_ioctl_dma_indirect`).

The page lists are read as section 4.3 of NVM Express revision 1.4 defines them: a
list page holds one entry per eight bytes up to its end, and when the data still to
describe does not fit, its last entry points to the next list page. */
module PrpWalk {
  import opened Bytes
  import opened Dma
  import opened Linux

  /** page_size is a power of two between 4096 and 65536. */
  predicate SupportedPageSize(p: nat) {
    p in {4096, 8192, 16384, 32768, 65536}
  }

  /** `a & (page_size - 1)` */
  function InPage(a: nat, pageSize: nat): (r: nat)
    requires SupportedPageSize(pageSize)
    ensures r < pageSize
  {
    if pageSize == 4096 then a % 4096
    else if pageSize == 8192 then a % 8192
    else if pageSize == 16384 then a % 16384
    else if pageSize == 32768 then a % 32768
    else a % 65536
  }

  /** A run of consecutive I/O addresses. */
  datatype Piece = Piece(iova: nat, len: nat)

  /** How a walk ends: with every byte placed; at a list page that cannot be read; at a list
      pointer that leads to no entry; or not at all, among pages that are only pointers. */
  datatype WalkEnd = Complete | Unreadable | Undefined | Endless {
    predicate Defined() { Complete? || Unreadable? }
  }

  datatype Walk = Walk(pieces: seq<Piece>, lists: seq<nat>, end: WalkEnd)

  /** How many pages that are only pointers may still follow when a page of `slots` entries has
      been passed. There are no more list pointers than `U64`, so that a walk runs out of these
      if and only if it goes round in a circle (`EndlessIff`). A page with data entries starts
      the count anew. */
  function HopsAfter(slots: nat, hops: nat): nat {
    if slots != 1 then U64 else if hops == 0 then 0 else hops - 1
  }

  datatype Host = Host(ram: Ram, iommu: Iommu, pageSize: nat) {

    ghost predicate Valid() {
      SupportedPageSize(pageSize)
    }

    /** Bytes from a list pointer to the end of its page. */
    function ListBytes(ptr: nat): nat
      requires Valid()
    {
      pageSize - InPage(ptr, pageSize)
    }

    function Slots(ptr: nat): nat
      requires Valid()
    {
      ListBytes(ptr) / 8
    }

    function ListAddresses(ptr: nat): seq<nat>
      requires Valid()
    {
      PhysRange(iommu, ptr, ListBytes(ptr))
    }

    function Entry(ptr: nat, i: nat): nat {
      FromLE(LoadAll(ram, PhysRange(iommu, ptr + 8 * i, 8)))
    }

    /** How many bytes `entries` data pages hold. */
    function Room(entries: nat): nat {
      if entries == 0 then 0 else pageSize + Room(entries - 1)
    }

    /** `len` bytes described by consecutive entries of one list page, one data page each. */
    function Run(ptr: nat, i: nat, len: nat): seq<Piece>
      requires Valid()
      decreases len
    {
      if len == 0 then []
      else [Piece(Entry(ptr, i), Min(pageSize, len))] + Run(ptr, i + 1, len - Min(pageSize, len))
    }

    /** `len` bytes described from entry `i` of the list page at `ptr` on. A page that is only a
        pointer is passed, but no more than `hops` of them in a row. */
    function ListFrom(ptr: nat, i: nat, len: nat, hops: nat): Walk
      requires Valid() && hops <= U64 && (i < Slots(ptr) || len == 0)
      decreases len, i + 1 == Slots(ptr) > 1 && len > pageSize, hops, 0
    {
      var n := Slots(ptr);
      if len == 0 || len <= Room(n - i) then
        Walk(Run(ptr, i, len), [], Complete)
      else if n == 1 && hops == 0 then
        Walk([], [], Endless)
      else
        var here := Room(n - 1 - i);
        var rest := Follow(Entry(ptr, n - 1), len - here, HopsAfter(n, hops));
        Walk(Run(ptr, i, here) + rest.pieces, rest.lists, rest.end)
    }

    /** `len` bytes described by the list a pointer leads to. A page without room for an entry
        describes nothing, and a page at the very top of the address space is not read. */
    function Follow(ptr: nat, len: nat, hops: nat): Walk
      requires Valid() && hops <= U64
      decreases len, false, hops, 1
    {
      if Slots(ptr) == 0 || !Addressable(ptr, ListBytes(ptr)) then
        Walk([], [ptr], Undefined)
      else if !Translated(iommu, ptr, PageCount(ptr, ListBytes(ptr))) then
        Walk([], [ptr], Unreadable)
      else
        var rest := ListFrom(ptr, 0, len, hops);
        rest.(lists := [ptr] + rest.lists)
    }

    /** The whole transfer: the first pointer may start inside its page; the second is a data
        page when one suffices, else a list pointer. */
    function Pieces(prp1: nat, prp2: nat, len: nat): Walk
      requires Valid()
    {
      var head := Min(pageSize - InPage(prp1, pageSize), len);
      if len == head then
        Walk([Piece(prp1, head)], [], Complete)
      else if len - head <= pageSize then
        Walk([Piece(prp1, head), Piece(prp2, len - head)], [], Complete)
      else
        var rest := Follow(prp2, len - head, U64);
        rest.(pieces := [Piece(prp1, head)] + rest.pieces)
    }
  }

  /** The physical address of every byte of the pieces, in transfer order. */
  function Flat(iommu: Iommu, pieces: seq<Piece>): seq<nat> {
    if pieces == [] then []
    else PhysRange(iommu, pieces[0].iova, pieces[0].len) + Flat(iommu, pieces[1..])
  }

  function Total(pieces: seq<Piece>): nat {
    if pieces == [] then 0 else pieces[0].len + Total(pieces[1..])
  }

  ghost predicate AllAddressable(pieces: seq<Piece>) {
    forall i :: 0 <= i < |pieces| ==> Addressable(pieces[i].iova, pieces[i].len)
  }

  /** No piece is empty or larger than a page. */
  ghost predicate PageSized(pieces: seq<Piece>, pageSize: nat) {
    forall i :: 0 <= i < |pieces| ==> 0 < pieces[i].len <= pageSize
  }

  ghost predicate Apart(some: seq<nat>, others: seq<nat>) {
    forall i :: 0 <= i < |some| ==> some[i] !in others
  }

  /** No data byte lies in a list page. */
  ghost predicate ListsApart(h: Host, w: Walk)
    requires h.Valid()
  {
    forall i :: 0 <= i < |w.lists| ==> Apart(h.ListAddresses(w.lists[i]), Flat(h.iommu, w.pieces))
  }

  lemma {:induction false} FlatAppend(iommu: Iommu, p1: seq<Piece>, p2: seq<Piece>)
    ensures Flat(iommu, p1 + p2) == Flat(iommu, p1) + Flat(iommu, p2)
  {
    if p1 == [] {
      assert p1 + p2 == p2;
    } else {
      assert (p1 + p2)[1..] == p1[1..] + p2;
      FlatAppend(iommu, p1[1..], p2);
      Regroup(PhysRange(iommu, p1[0].iova, p1[0].len), Flat(iommu, p1[1..]), Flat(iommu, p2));
    }
  }

  lemma {:induction false} FlatLength(iommu: Iommu, pieces: seq<Piece>)
    ensures |Flat(iommu, pieces)| == Total(pieces)
  {
    if pieces != [] {
      FlatLength(iommu, pieces[1..]);
    }
  }

  lemma {:induction false} TotalAppend(p1: seq<Piece>, p2: seq<Piece>)
    ensures Total(p1 + p2) == Total(p1) + Total(p2)
  {
    if p1 == [] {
      assert p1 + p2 == p2;
    } else {
      TotalAppend(p1[1..], p2);
      assert (p1 + p2)[1..] == p1[1..] + p2;
    }
  }

  lemma PageSizedAppend(p1: seq<Piece>, p2: seq<Piece>, pageSize: nat)
    requires PageSized(p1, pageSize) && PageSized(p2, pageSize)
    ensures PageSized(p1 + p2, pageSize)
  {
  }

  lemma {:induction false} RunTotal(h: Host, ptr: nat, i: nat, len: nat)
    requires h.Valid()
    ensures Total(h.Run(ptr, i, len)) == len
    ensures PageSized(h.Run(ptr, i, len), h.pageSize)
    decreases len
  {
    if len != 0 {
      var c := Min(h.pageSize, len);
      RunTotal(h, ptr, i + 1, len - c);
      assert h.Run(ptr, i, len)[1..] == h.Run(ptr, i + 1, len - c);
    }
  }

  /** What holds of every walk: it places no more than it should, all of it when complete, in
      pieces of at most a page. */
  ghost predicate Bounded(w: Walk, len: nat, pageSize: nat) {
    && Total(w.pieces) <= len
    && (w.end == Complete ==> Total(w.pieces) == len)
    && PageSized(w.pieces, pageSize)
  }

  lemma BoundedAppend(run: seq<Piece>, here: nat, rest: Walk, len: nat, pageSize: nat)
    requires Total(run) == here <= len && PageSized(run, pageSize) && Bounded(rest, len - here, pageSize)
    ensures Bounded(Walk(run + rest.pieces, rest.lists, rest.end), len, pageSize)
  {
    TotalAppend(run, rest.pieces);
    PageSizedAppend(run, rest.pieces, pageSize);
  }

  lemma {:induction false} ListTotal(h: Host, ptr: nat, i: nat, len: nat, hops: nat)
    requires h.Valid() && hops <= U64 && (i < h.Slots(ptr) || len == 0)
    ensures Bounded(h.ListFrom(ptr, i, len, hops), len, h.pageSize)
    decreases len, i + 1 == h.Slots(ptr) > 1 && len > h.pageSize, hops, 0
  {
    var n := h.Slots(ptr);
    if len == 0 || len <= h.Room(n - i) {
      RunTotal(h, ptr, i, len);
      assert h.ListFrom(ptr, i, len, hops) == Walk(h.Run(ptr, i, len), [], Complete);
    } else if !(n == 1 && hops == 0) {
      var here := h.Room(n - 1 - i);
      var next := h.Entry(ptr, n - 1);
      RunTotal(h, ptr, i, here);
      var run, rest := h.Run(ptr, i, here), h.Follow(next, len - here, HopsAfter(n, hops));
      FollowTotal(h, next, len - here, HopsAfter(n, hops));
      assert h.ListFrom(ptr, i, len, hops) == Walk(run + rest.pieces, rest.lists, rest.end);
      BoundedAppend(run, here, rest, len, h.pageSize);
    }
  }

  lemma {:induction false} FollowTotal(h: Host, ptr: nat, len: nat, hops: nat)
    requires h.Valid() && hops <= U64
    ensures Bounded(h.Follow(ptr, len, hops), len, h.pageSize)
    decreases len, false, hops, 1
  {
    if h.Slots(ptr) == 0 || !Addressable(ptr, h.ListBytes(ptr)) {
    } else if !Translated(h.iommu, ptr, PageCount(ptr, h.ListBytes(ptr))) {
    } else {
      ListTotal(h, ptr, 0, len, hops);
    }
  }

  /** Conservation: the pieces of a complete walk add up to the request's length, and none
      is empty or larger than a page. */
  lemma PiecesTotal(h: Host, prp1: nat, prp2: nat, len: nat)
    requires h.Valid() && len > 0
    ensures var w := h.Pieces(prp1, prp2, len);
            && Total(w.pieces) <= len
            && (w.end == Complete ==> Total(w.pieces) == len)
            && PageSized(w.pieces, h.pageSize)
  {
    var head := Min(h.pageSize - InPage(prp1, h.pageSize), len);
    var w := h.Pieces(prp1, prp2, len);
    var first := Piece(prp1, head);
    if len == head {
      assert w.pieces == [first];
      TotalOfOne(first);
    } else if len - head <= h.pageSize {
      var second := Piece(prp2, len - head);
      assert w.pieces == [first] + [second];
      TotalOfOne(first);
      TotalOfOne(second);
      TotalAppend([first], [second]);
    } else {
      var rest := h.Follow(prp2, len - head, U64);
      FollowTotal(h, prp2, len - head, U64);
      assert w == Walk([first] + rest.pieces, rest.lists, rest.end);
      TotalOfOne(first);
      BoundedAppend([first], head, rest, len, h.pageSize);
    }
  }

  lemma TotalOfOne(p: Piece)
    ensures Total([p]) == p.len
  {
    assert [p][1..] == [];
  }

  /** The walk of the loop, one entry at a time, takes apart the page-wise definition. */
  lemma DataStep(h: Host, ptr: nat, i: nat, len: nat, hops: nat)
    requires h.Valid() && hops <= U64 && i < h.Slots(ptr) && len > 0
    requires !(i + 1 == h.Slots(ptr) && len > h.pageSize)
    ensures var c := Min(h.pageSize, len);
            && (i + 1 < h.Slots(ptr) || len - c == 0)
            && var w, rest := h.ListFrom(ptr, i, len, hops), h.ListFrom(ptr, i + 1, len - c, hops);
            && w.pieces == [Piece(h.Entry(ptr, i), c)] + rest.pieces
            && w.lists == rest.lists && w.end == rest.end
  {
  }

  lemma HopStep(h: Host, ptr: nat, i: nat, len: nat, hops: nat)
    requires h.Valid() && hops <= U64 && i + 1 == h.Slots(ptr) && len > h.pageSize
    ensures h.ListFrom(ptr, i, len, hops)
         == if i == 0 && hops == 0 then Walk([], [], Endless)
            else h.Follow(h.Entry(ptr, i), len, HopsAfter(h.Slots(ptr), hops))
  {
    assert h.Room(1) == h.pageSize + h.Room(0);
    if !(i == 0 && hops == 0) {
      var next := h.Follow(h.Entry(ptr, i), len, HopsAfter(h.Slots(ptr), hops));
      assert h.Run(ptr, i, 0) + next.pieces == next.pieces;
    }
  }

  /** List pages with room for one entry, each but the last leading to the next. */
  ghost predicate Chain(h: Host, chain: seq<nat>)
    requires h.Valid()
  {
    && chain != [] && chain[0] < U64
    && forall k :: 0 <= k < |chain| - 1 ==> Passable(h, chain[k]) && chain[k + 1] == h.Entry(chain[k], 0)
  }

  ghost predicate Passable(h: Host, ptr: nat)
    requires h.Valid()
  {
    && h.Slots(ptr) == 1 && Addressable(ptr, h.ListBytes(ptr))
    && Translated(h.iommu, ptr, PageCount(ptr, h.ListBytes(ptr)))
  }

  lemma PassOne(h: Host, ptr: nat, len: nat, hops: nat)
    requires h.Valid() && Passable(h, ptr) && len > h.pageSize && 0 < hops <= U64
    ensures var there := h.Follow(h.Entry(ptr, 0), len, hops - 1);
            h.Follow(ptr, len, hops) == there.(lists := [ptr] + there.lists)
  {
    HopStep(h, ptr, 0, len, hops);
  }

  /** A chain of pages that are only pointers is followed to its end. */
  lemma {:induction false} ChainIsFollowed(h: Host, chain: seq<nat>, len: nat, hops: nat, there: Walk)
    requires h.Valid() && Chain(h, chain) && len > h.pageSize && |chain| - 1 <= hops <= U64
    requires there == h.Follow(chain[|chain| - 1], len, hops - (|chain| - 1))
    ensures h.Follow(chain[0], len, hops) == there.(lists := chain[..|chain| - 1] + there.lists)
    decreases |chain|
  {
    var n := |chain| - 1;
    if n == 0 {
      assert chain[..0] + there.lists == there.lists;
    } else {
      ChainRest(h, chain);
      PassOne(h, chain[0], len, hops);
      ChainIsFollowed(h, chain[1..], len, hops - 1, there);
      FirstOfChain(chain, n, there.lists);
    }
  }

  lemma FirstOfChain(chain: seq<nat>, n: nat, lists: seq<nat>)
    requires 0 < n <= |chain|
    ensures [chain[0]] + (chain[1..][..n - 1] + lists) == chain[..n] + lists
  {
    assert [chain[0]] + chain[1..][..n - 1] == chain[..n];
  }

  lemma ChainRest(h: Host, chain: seq<nat>)
    requires h.Valid() && Chain(h, chain) && |chain| > 1
    ensures Passable(h, chain[0]) && chain[1] == h.Entry(chain[0], 0) && Chain(h, chain[1..])
  {
    assert chain[0 + 1] == h.Entry(chain[0], 0);
    EntryFits(h, chain[0], 0);
  }

  lemma EntryFits(h: Host, ptr: nat, i: nat)
    ensures h.Entry(ptr, i) < U64
  {
    FromLEBound(LoadAll(h.ram, PhysRange(h.iommu, ptr + 8 * i, 8)));
    assert Pow256(8) == U64;
  }

  /** A chain of more pointers than there are names one of them twice. */
  lemma ChainReturns(h: Host, chain: seq<nat>)
    requires h.Valid() && Chain(h, chain) && |chain| > U64
    ensures exists i, j :: 0 <= i < j < |chain| && chain[i] == chain[j]
  {
    forall k | 0 <= k < |chain|
      ensures chain[k] < U64
    {
      if k > 0 {
        assert chain[k - 1 + 1] == h.Entry(chain[k - 1], 0);
        EntryFits(h, chain[k - 1], 0);
      }
    }
    PigeonHole(chain, U64);
  }

  lemma {:induction false} PigeonHole(s: seq<nat>, n: nat)
    requires |s| > n && forall k :: 0 <= k < |s| ==> s[k] < n
    ensures exists i, j :: 0 <= i < j < |s| && s[i] == s[j]
    decreases n
  {
    if m :| 0 <= m < |s| && s[m] == n - 1 {
      if k :| 0 <= k < |s| && k != m && s[k] == s[m] {
        assert s[if k < m then k else m] == s[if k < m then m else k];
      } else {
        var rest := s[..m] + s[m + 1..];
        PigeonHole(rest, n - 1);
        var i, j :| 0 <= i < j < |rest| && rest[i] == rest[j];
        assert s[if i < m then i else i + 1] == s[if j < m then j else j + 1];
      }
    } else {
      assert s[0] < n;
      PigeonHole(s[..n], n - 1);
    }
  }

  // ---- walks that end nowhere ----

  /** The pages that are only pointers lead from this one back to itself. */
  ghost predicate OnCircle(h: Host, p: nat)
    requires h.Valid()
  {
    exists chain :: Circle(h, p, chain)
  }

  ghost predicate Circle(h: Host, p: nat, chain: seq<nat>)
    requires h.Valid()
  {
    Chain(h, chain) && |chain| > 1 && chain[0] == chain[|chain| - 1] == p
  }

  /** No list can be read from this pointer: there is no room for an entry before the end of its
      page, or reading it would wrap at the top of the address space. */
  ghost predicate NoList(h: Host, p: nat)
    requires h.Valid()
  {
    h.Slots(p) == 0 || !Addressable(p, h.ListBytes(p))
  }

  /** Which pointers these are: those into the last seven bytes of a page, and those into the
      last page of the address space. */
  lemma NoListIs(h: Host, p: nat)
    requires h.Valid() && p < U64
    ensures h.Slots(p) == 0 <==> InPage(p, h.pageSize) > h.pageSize - 8
    ensures !Addressable(p, h.ListBytes(p)) <==> p >= U64 - h.pageSize
  {
    if h.pageSize == 4096 {
      TopPage(p / 4096, 4096, 0x10_0000_0000_0000);
    } else if h.pageSize == 8192 {
      TopPage(p / 8192, 8192, 0x8_0000_0000_0000);
    } else if h.pageSize == 16384 {
      TopPage(p / 16384, 16384, 0x4_0000_0000_0000);
    } else if h.pageSize == 32768 {
      TopPage(p / 32768, 32768, 0x2_0000_0000_0000);
    } else {
      TopPage(p / 65536, 65536, 0x1_0000_0000_0000);
    }
  }

  /** Of `pages` pages that fill the address space only the last has its end out of reach. */
  lemma TopPage(q: nat, size: nat, pages: nat)
    requires size >= PAGE_SIZE && pages * size == U64 && q < pages
    ensures (q + 1) * size + PAGE_SIZE - 1 >= U64 <==> q + 1 == pages
  {
    if q + 1 < pages {
      assert pages * size == (q + 1) * size + (pages - q - 1) * size;
      Multiples(pages - q - 1, size);
    }
  }

  lemma Multiples(d: nat, size: nat)
    requires d > 0
    ensures d * size >= size
  {
  }

  /** What follows a list page: nothing more, or the next list page with less to describe or
      fewer pages to pass. */
  datatype Onward = Ends | Goes(next: nat, len: nat, hops: nat)

  ghost predicate FollowsAs(h: Host, ptr: nat, len: nat, hops: nat, w: Walk, s: Onward)
    requires h.Valid() && hops <= U64
  {
    match s
    case Ends =>
      && w.lists == [ptr]
      && (w.end == Undefined <==> NoList(h, ptr))
      && (w.end == Endless <==> Passable(h, ptr) && hops == 0)
    case Goes(next, l, k) =>
      && !NoList(h, ptr) && next < U64 && h.pageSize < l <= len && k <= U64
      && w.lists == [ptr] + h.Follow(next, l, k).lists && w.end == h.Follow(next, l, k).end
      && (if Passable(h, ptr) then next == h.Entry(ptr, 0) && l == len && k + 1 == hops
          else l < len && k == U64)
  }

  lemma FollowStep(h: Host, ptr: nat, len: nat, hops: nat) returns (s: Onward)
    requires h.Valid() && hops <= U64 && len > h.pageSize
    ensures FollowsAs(h, ptr, len, hops, h.Follow(ptr, len, hops), s)
  {
    s := Ends;
    if !NoList(h, ptr) && Translated(h.iommu, ptr, PageCount(ptr, h.ListBytes(ptr))) {
      var n := h.Slots(ptr);
      assert h.Room(n) == h.pageSize + h.Room(n - 1);
      if n == 1 {
        if hops > 0 {
          EntryFits(h, ptr, 0);
          PassOne(h, ptr, len, hops);
          s := Goes(h.Entry(ptr, 0), len, hops - 1);
        }
      } else if len > h.Room(n) {
        EntryFits(h, ptr, n - 1);
        assert h.Room(n - 1) == h.pageSize + h.Room(n - 2);
        s := Goes(h.Entry(ptr, n - 1), len - h.Room(n - 1), U64);
      }
    }
  }

  /** A walk that runs out of hops has passed that many pages, one leading to the next. */
  lemma {:induction false} EndlessChain(h: Host, ptr: nat, len: nat, hops: nat) returns (chain: seq<nat>)
    requires h.Valid() && ptr < U64 && hops <= U64 && len > h.pageSize && h.Follow(ptr, len, hops).end == Endless
    ensures Chain(h, chain) && (|chain| == U64 + 1 || (|chain| == hops + 1 && chain[0] == ptr))
    ensures forall k :: 0 <= k < |chain| ==> chain[k] in h.Follow(ptr, len, hops).lists
    decreases len, hops
  {
    var s := FollowStep(h, ptr, len, hops);
    match s
    case Ends => chain := [ptr];
    case Goes(next, l, k) =>
      chain := EndlessChain(h, next, l, k);
      if |chain| != U64 + 1 {
        ChainFirst(h, ptr, chain);
        chain := [ptr] + chain;
      }
  }

  lemma ChainFirst(h: Host, ptr: nat, chain: seq<nat>)
    requires h.Valid() && ptr < U64 && Chain(h, chain) && Passable(h, ptr) && chain[0] == h.Entry(ptr, 0)
    ensures Chain(h, [ptr] + chain)
  {
    var more := [ptr] + chain;
    forall k | 0 <= k < |more| - 1
      ensures Passable(h, more[k]) && more[k + 1] == h.Entry(more[k], 0)
    {
      if k > 0 {
        assert Passable(h, chain[k - 1]) && chain[k - 1 + 1] == h.Entry(chain[k - 1], 0);
      }
    }
  }

  /** So it has come back to one of them. */
  lemma EndlessCircle(h: Host, chain: seq<nat>) returns (p: nat)
    requires h.Valid() && Chain(h, chain) && |chain| > U64
    ensures p in chain && OnCircle(h, p)
  {
    ChainReturns(h, chain);
    var i, j :| 0 <= i < j < |chain| && chain[i] == chain[j];
    p := chain[i];
    CircleBetween(h, chain, i, j);
  }

  lemma CircleBetween(h: Host, chain: seq<nat>, i: nat, j: nat)
    requires h.Valid() && Chain(h, chain) && i < j < |chain| && chain[i] == chain[j]
    ensures OnCircle(h, chain[i])
  {
    var part := chain[i..j + 1];
    if i > 0 {
      assert chain[i - 1 + 1] == h.Entry(chain[i - 1], 0);
      EntryFits(h, chain[i - 1], 0);
    }
    forall k | 0 <= k < |part| - 1
      ensures Passable(h, part[k]) && part[k + 1] == h.Entry(part[k], 0)
    {
      assert Passable(h, chain[i + k]) && chain[i + k + 1] == h.Entry(chain[i + k], 0);
    }
    assert Circle(h, chain[i], part);
  }

  /** The page on which the loop stands after `k` turns that each pass a page. */
  ghost function PageAfter(h: Host, p: nat, k: nat): nat {
    if k == 0 then p else h.Entry(PageAfter(h, p, k - 1), 0)
  }

  /** On a circle the loop never ends: however often it turns, it stands on a page that is only
      a pointer, with nothing moved and the next turn to come. */
  lemma {:induction false} CircleNeverEnds(h: Host, p: nat, k: nat)
    requires h.Valid() && OnCircle(h, p)
    ensures Passable(h, PageAfter(h, p, k)) && OnCircle(h, PageAfter(h, p, k))
  {
    if k == 0 {
      var chain :| Circle(h, p, chain);
      ChainRest(h, chain);
    } else {
      CircleNeverEnds(h, p, k - 1);
      CircleTurns(h, PageAfter(h, p, k - 1));
      var q := h.Entry(PageAfter(h, p, k - 1), 0);
      var chain :| Circle(h, q, chain);
      ChainRest(h, chain);
    }
  }

  /** The page after one on a circle is on the circle. */
  lemma CircleTurns(h: Host, p: nat)
    requires h.Valid() && OnCircle(h, p)
    ensures Passable(h, p) && h.Entry(p, 0) < U64 && OnCircle(h, h.Entry(p, 0))
  {
    var chain :| Circle(h, p, chain);
    ChainRest(h, chain);
    EntryFits(h, p, 0);
    var q, n := chain[1], |chain|;
    var turned := chain[1..] + [q];
    forall k | 0 <= k < |turned| - 1
      ensures Passable(h, turned[k]) && turned[k + 1] == h.Entry(turned[k], 0)
    {
      if k < n - 2 {
        assert Passable(h, chain[k + 1]) && chain[k + 1 + 1] == h.Entry(chain[k + 1], 0);
      }
    }
    assert Circle(h, q, turned);
  }

  /** However many hops are allowed, a circle places no byte and uses them up. */
  lemma {:induction false} CircleIsEndless(h: Host, p: nat, len: nat, hops: nat)
    requires h.Valid() && hops <= U64 && len > h.pageSize && OnCircle(h, p)
    ensures h.Follow(p, len, hops).end == Endless && h.Follow(p, len, hops).pieces == []
    decreases hops
  {
    CircleTurns(h, p);
    if hops == 0 {
      HopStep(h, p, 0, len, 0);
    } else {
      PassOne(h, p, len, hops);
      CircleIsEndless(h, h.Entry(p, 0), len, hops - 1);
    }
  }

  lemma {:induction false} CircleMet(h: Host, ptr: nat, len: nat, hops: nat, p: nat)
    requires h.Valid() && ptr < U64 && hops <= U64 && len > h.pageSize
    requires p in h.Follow(ptr, len, hops).lists && OnCircle(h, p)
    ensures h.Follow(ptr, len, hops).end == Endless
    decreases len, hops
  {
    if p == ptr {
      CircleIsEndless(h, p, len, hops);
    } else {
      var s := FollowStep(h, ptr, len, hops);
      CircleMet(h, s.next, s.len, s.hops, p);
    }
  }

  /** A list walk never ends if and only if one of its list pages lies on a circle. */
  lemma EndlessIff(h: Host, ptr: nat, len: nat)
    requires h.Valid() && ptr < U64 && len > h.pageSize
    ensures var w := h.Follow(ptr, len, U64);
            w.end == Endless <==> exists p :: p in w.lists && OnCircle(h, p)
  {
    var w := h.Follow(ptr, len, U64);
    if w.end == Endless {
      var chain := EndlessChain(h, ptr, len, U64);
      var p := EndlessCircle(h, chain);
      assert p in w.lists && OnCircle(h, p);
    } else {
      forall p | p in w.lists
        ensures !OnCircle(h, p)
      {
        if OnCircle(h, p) {
          CircleMet(h, ptr, len, U64, p);
        }
      }
    }
  }

  /** It comes to a pointer that leads to no entry if and only if its last list pointer is one,
      and then it is the only one. */
  lemma {:induction false} UndefinedIff(h: Host, ptr: nat, len: nat, hops: nat)
    requires h.Valid() && hops <= U64 && len > h.pageSize
    ensures var w := h.Follow(ptr, len, hops);
            && w.lists != []
            && (forall k :: 0 <= k < |w.lists| - 1 ==> !NoList(h, w.lists[k]))
            && (w.end == Undefined <==> NoList(h, w.lists[|w.lists| - 1]))
    decreases len, hops
  {
    var s := FollowStep(h, ptr, len, hops);
    match s
    case Ends =>
    case Goes(next, l, k) =>
      UndefinedIff(h, next, l, k);
      var w, rest := h.Follow(ptr, len, hops), h.Follow(next, l, k);
      forall i | 0 <= i < |w.lists| - 1
        ensures !NoList(h, w.lists[i])
      {
        if i > 0 {
          assert w.lists[i] == rest.lists[i - 1];
        }
      }
  }

  /** A whole request is defined if and only if none of its list pages lies on a circle and none
      of its list pointers leads to no entry. */
  lemma DefinedIff(h: Host, prp1: nat, prp2: nat, len: nat)
    requires h.Valid() && prp2 < U64 && len > 0
    ensures var w := h.Pieces(prp1, prp2, len);
            w.end.Defined() <==> forall p :: p in w.lists ==> !OnCircle(h, p) && !NoList(h, p)
  {
    var head := Min(h.pageSize - InPage(prp1, h.pageSize), len);
    if len - head > h.pageSize {
      var w := h.Follow(prp2, len - head, U64);
      assert h.Pieces(prp1, prp2, len).lists == w.lists && h.Pieces(prp1, prp2, len).end == w.end;
      EndlessIff(h, prp2, len - head);
      UndefinedIff(h, prp2, len - head, U64);
    }
  }

  /** A list pointer to the last entry of a page, which holds that pointer itself: a request of
      three pages that never ends. */
  lemma PageThatPointsToItself()
    ensures var h := Host(map[0x1ff8 := 0xf8, 0x1ff9 := 0x1f], NoDomain, PAGE_SIZE);
            && h.Entry(0x1ff8, 0) == 0x1ff8 && OnCircle(h, 0x1ff8)
            && h.Pieces(0, 0x1ff8, 3 * PAGE_SIZE).end == Endless
  {
    var h := Host(map[0x1ff8 := 0xf8, 0x1ff9 := 0x1f], NoDomain, PAGE_SIZE);
    SelfPointer(h);
    SelfCircle(h, 0x1ff8);
    CircleIsEndless(h, 0x1ff8, 2 * PAGE_SIZE, U64);
    ListOfThreePages(h, 0x1ff8);
  }

  lemma SelfCircle(h: Host, p: nat)
    requires h.Valid() && p < U64 && Passable(h, p) && h.Entry(p, 0) == p
    ensures OnCircle(h, p)
  {
    assert Circle(h, p, [p, p]);
  }

  lemma ListOfThreePages(h: Host, p: nat)
    requires h.Valid() && h.pageSize == PAGE_SIZE
    ensures h.Pieces(0, p, 3 * PAGE_SIZE).end == h.Follow(p, 2 * PAGE_SIZE, U64).end
  {
  }

  lemma SelfPointer(h: Host)
    requires h == Host(map[0x1ff8 := 0xf8, 0x1ff9 := 0x1f], NoDomain, PAGE_SIZE)
    ensures h.Entry(0x1ff8, 0) == 0x1ff8 && Passable(h, 0x1ff8)
  {
    var data := LoadAll(h.ram, PhysRange(NoDomain, 0x1ff8, 8));
    assert data == [0xf8, 0x1f, 0, 0, 0, 0, 0, 0];
    assert data[1..] == [0x1f, 0, 0, 0, 0, 0, 0];
    ZerosAreZero([0, 0, 0, 0, 0, 0]);
    assert data[1..][1..] == [0, 0, 0, 0, 0, 0];
  }

  /** Host memory and the calling process's memory. */
  datatype World = World(ram: Ram, mem: seq<byte>)

  /** The flat transfer: the bytes of `mem` from `at` on go to the addresses in order, or are
      replaced by the bytes found there. */
  function Transfer(w: World, toHost: bool, addrs: seq<nat>, at: nat): (r: World)
    requires addrs == [] || at + |addrs| <= |w.mem|
    ensures |r.mem| == |w.mem|
  {
    if addrs == [] then w
    else if toHost then World(StoreAll(w.ram, addrs, w.mem[at..at + |addrs|]), w.mem)
    else World(w.ram, w.mem[..at] + LoadAll(w.ram, addrs) + w.mem[at + |addrs|..])
  }

  lemma TransferAppend(w: World, toHost: bool, a1: seq<nat>, a2: seq<nat>, at: nat)
    requires a1 + a2 == [] || at + |a1| + |a2| <= |w.mem|
    ensures a1 == [] || at + |a1| <= |w.mem|
    ensures a2 == [] || at + |a1| + |a2| <= |w.mem|
    ensures Transfer(Transfer(w, toHost, a1, at), toHost, a2, at + |a1|) == Transfer(w, toHost, a1 + a2, at)
  {
    if a1 == [] {
      assert a1 + a2 == a2;
    } else if a2 == [] {
      assert a1 + a2 == a1;
    } else {
      if toHost {
        StoreTwice(w.ram, a1, a2, w.mem, at);
      } else {
        LoadAllAppend(w.ram, a1, a2);
        SpliceTwice(w.mem, LoadAll(w.ram, a1), LoadAll(w.ram, a2), at);
      }
    }
  }

  lemma StoreTwice(ram: Ram, a1: seq<nat>, a2: seq<nat>, mem: seq<byte>, at: nat)
    requires at + |a1| + |a2| <= |mem|
    ensures StoreAll(StoreAll(ram, a1, mem[at..at + |a1|]), a2, mem[at + |a1|..at + |a1| + |a2|])
         == StoreAll(ram, a1 + a2, mem[at..at + |a1 + a2|])
  {
    var m1, m2 := at + |a1|, at + |a1| + |a2|;
    StoreAppend(ram, a1, a2, mem[at..m1], mem[m1..m2]);
    assert mem[at..m1] + mem[m1..m2] == mem[at..m2];
  }

  lemma SpliceTwice(mem: seq<byte>, d1: seq<byte>, d2: seq<byte>, at: nat)
    requires at + |d1| + |d2| <= |mem|
    ensures var mid := mem[..at] + d1 + mem[at + |d1|..];
            mid[..at + |d1|] + d2 + mid[at + |d1| + |d2|..] == mem[..at] + (d1 + d2) + mem[at + |d1| + |d2|..]
  {
  }

  /** Bytes of list pages survive a transfer that stays apart from them. */
  lemma ListSurvives(w: World, toHost: bool, addrs: seq<nat>, at: nat, list: seq<nat>)
    requires addrs == [] || at + |addrs| <= |w.mem|
    requires toHost ==> Apart(list, addrs)
    ensures LoadAll(Transfer(w, toHost, addrs, at).ram, list) == LoadAll(w.ram, list)
  {
    if toHost && addrs != [] {
      StoreFrameAll(w.ram, addrs, w.mem[at..at + |addrs|], list);
    }
  }

  /** `rest` is what the walk still has to place once `done` bytes of the flat transfer are
      placed. */
  ghost predicate Ahead(h: Host, flat: seq<nat>, done: nat, rest: Walk) {
    && done <= |flat|
    && flat[done..] == Flat(h.iommu, rest.pieces)
    && AllAddressable(rest.pieces)
  }

  lemma AheadAfterPiece(h: Host, flat: seq<nat>, done: nat, rest: Walk, piece: Piece, next: Walk)
    requires Ahead(h, flat, done, rest) && rest.pieces == [piece] + next.pieces
    ensures Addressable(piece.iova, piece.len)
    ensures done + piece.len <= |flat|
    ensures flat[done..done + piece.len] == PhysRange(h.iommu, piece.iova, piece.len)
    ensures Ahead(h, flat, done + piece.len, next)
  {
  }

  lemma PrefixGrows(flat: seq<nat>, done: nat, p: seq<nat>, moved: nat, sum: nat)
    requires done + |p| <= |flat| && flat[done..done + |p|] == p && moved <= |p| && sum == done + moved
    ensures flat[..sum] == flat[..done] + p[..moved]
  {
    SliceOfSlice(flat, done, done + |p|, 0, moved);
    assert p[0..moved] == p[..moved];
  }

  /** Moving (part of) a piece extends the part of the flat transfer already made. */
  lemma TransferExtends(iommu: Iommu, flat: seq<nat>, done: nat, piece: Piece, moved: nat,
                        was: World, now: World, toHost: bool, at: nat, sum: nat, next: World)
    requires sum == done + moved
    requires done + piece.len <= |flat| && moved <= piece.len
    requires flat[done..done + piece.len] == PhysRange(iommu, piece.iova, piece.len)
    requires done == 0 || at + done <= |was.mem|
    requires moved == 0 || at + done + moved <= |was.mem|
    requires now == Transfer(was, toHost, flat[..done], at)
    requires next == Transfer(now, toHost, PhysRange(iommu, piece.iova, moved), at + done)
    ensures sum == 0 || at + sum <= |was.mem|
    ensures next == Transfer(was, toHost, flat[..sum], at)
  {
    PhysRangePrefix(iommu, piece.iova, moved, piece.len);
    PrefixGrows(flat, done, PhysRange(iommu, piece.iova, piece.len), moved, sum);
    TransferAppend(was, toHost, flat[..done], PhysRange(iommu, piece.iova, moved), at);
  }

  /** An entry of the fetched list page is the entry the definition speaks of. */
  lemma FetchedEntry(h: Host, ptr: nat, i: nat, fetched: seq<byte>)
    requires h.Valid() && i < h.Slots(ptr)
    requires fetched == LoadAll(h.ram, h.ListAddresses(ptr))
    ensures 8 * i + 8 <= |fetched|
    ensures FromLE(fetched[8 * i..8 * i + 8]) == h.Entry(ptr, i) < U64
  {
    var addrs := h.ListAddresses(ptr);
    LoadAllSlice(h.ram, addrs, 8 * i, 8 * i + 8);
    assert addrs[8 * i..8 * i + 8] == PhysRange(h.iommu, ptr + 8 * i, 8);
    FromLEBound(fetched[8 * i..8 * i + 8]);
    assert Pow256(8) == U64;
  }

  datatype DmaIndirect = DmaIndirect(prp1: nat, prp2: nat, userAddr: nat, length: nat, pageSize: nat,
                                     toHost: bool, func: nat)
  {
    ghost predicate Valid() {
      prp1 < U64 && prp2 < U64 && userAddr < U64 && length < U32 && pageSize < U32
    }
  }

  /** What a request must describe for the transfer to mean anything: a walk that ends and whose
      list pointers lead to entries (`DefinedIff`), pieces clear of the top of the address space,
      and, when host memory is written, no data byte on a list page. */
  ghost predicate Meaningful(h: Host, req: DmaIndirect)
    requires h.Valid()
  {
    var w := h.Pieces(req.prp1, req.prp2, req.length);
    && w.end.Defined()
    && AllAddressable(w.pieces)
    && (req.toHost ==> ListsApart(h, w))
  }

  /** Where the list walk stands: the list page, the entry in it, how many entries it has, the
      bytes still to move and the process address they go to or come from. */
  datatype Cursor = Cursor(list: nat, idx: nat, slots: nat, remaining: nat, at: nat) {
    predicate AtHop(pageSize: nat) {
      idx + 1 == slots && remaining > pageSize
    }
  }

  /** The fixed part of one walk: the host as it was, the walk it defines and its flat form,
      the two memories as they were, and the request. */
  datatype Job = Job(h: Host, w: Walk, flat: seq<nat>, was: World, req: DmaIndirect) {

    ghost predicate Valid() {
      && h.Valid() && req.Valid() && h.pageSize == req.pageSize && h.ram == was.ram
      && flat == Flat(h.iommu, w.pieces)
      && w.end.Defined()
      && (req.toHost ==> ListsApart(h, w))
    }

    /** The first `done` bytes of the flat transfer have been made, and nothing else. */
    ghost predicate Moved(done: nat, now: World) {
      && done <= |flat| && done <= req.length
      && (done == 0 || req.userAddr + done <= |was.mem|)
      && now == Transfer(was, req.toHost, flat[..done], req.userAddr)
    }

    /** The cursor is where the walk stands when `rest` is still to place. */
    ghost predicate At(c: Cursor, rest: Walk) {
      && c.remaining <= req.length
      && c.at == req.userAddr + (req.length - c.remaining)
      && Ahead(h, flat, req.length - c.remaining, rest)
      && rest.end == w.end
      && forall l :: l in rest.lists ==> l in w.lists
    }

    /** The walk is about to fetch the list page of the cursor. */
    ghost predicate Fetching(c: Cursor, hops: nat, rest: Walk)
      requires h.Valid()
    {
      && At(c, rest) && c.remaining > req.pageSize && c.list < U64
      && hops <= U64 && rest == h.Follow(c.list, c.remaining, hops)
    }

    /** The walk stands at an entry of a fetched list page. */
    ghost predicate Walking(c: Cursor, fetched: seq<byte>, hops: nat, rest: Walk)
      requires h.Valid()
    {
      && At(c, rest)
      && c.slots == h.Slots(c.list) && (c.idx < c.slots || c.remaining == 0)
      && fetched == LoadAll(h.ram, h.ListAddresses(c.list))
      && hops <= U64 && rest == h.ListFrom(c.list, c.idx, c.remaining, hops)
    }

    /** A list page about to be fetched can be, and still holds what it held at first. */
    lemma CanFetch(c: Cursor, now: World, hops: nat, rest: Walk)
      requires Valid() && Fetching(c, hops, rest) && Moved(req.length - c.remaining, now)
      ensures Addressable(c.list, h.ListBytes(c.list))
      ensures LoadAll(now.ram, h.ListAddresses(c.list)) == LoadAll(h.ram, h.ListAddresses(c.list))
    {
      assert rest.lists[0] == c.list;
      if req.toHost {
        assert c.list in rest.lists && c.list in w.lists;
        var i :| 0 <= i < |w.lists| && w.lists[i] == c.list;
        assert Apart(h.ListAddresses(w.lists[i]), flat);
      }
      ListSurvives(was, req.toHost, flat[..req.length - c.remaining], req.userAddr, h.ListAddresses(c.list));
    }

    lemma Fetched(c: Cursor, hops: nat, rest: Walk, next: Cursor, fetched: seq<byte>)
      returns (there: Walk)
      requires Valid() && Fetching(c, hops, rest)
      requires Translated(h.iommu, c.list, PageCount(c.list, h.ListBytes(c.list)))
      requires next == c.(idx := 0, slots := h.Slots(c.list))
      requires fetched == LoadAll(h.ram, h.ListAddresses(c.list))
      ensures Walking(next, fetched, hops, there)
    {
      there := h.ListFrom(c.list, 0, c.remaining, hops);
      assert rest == there.(lists := [c.list] + there.lists);
    }

    lemma Hop(c: Cursor, fetched: seq<byte>, hops: nat, rest: Walk, next: Cursor)
      requires Valid() && Walking(c, fetched, hops, rest) && c.AtHop(req.pageSize)
      requires 8 * c.idx + 8 <= |fetched| && next == c.(list := FromLE(fetched[8 * c.idx..8 * c.idx + 8]))
      ensures c.slots == 1 ==> hops > 0
      ensures Fetching(next, HopsAfter(c.slots, hops), rest)
    {
      FetchedEntry(h, c.list, c.idx, fetched);
      HopStep(h, c.list, c.idx, c.remaining, hops);
    }

    /** Past a piece the cursor stands at what is left of the walk. */
    lemma PastPiece(c: Cursor, rest: Walk, piece: Piece, next: Cursor, there: Walk)
      requires At(c, rest) && rest.pieces == [piece] + there.pieces
      requires rest.lists == there.lists && rest.end == there.end
      requires piece.len <= c.remaining && next.remaining == c.remaining - piece.len && next.at == c.at + piece.len
      ensures Addressable(piece.iova, piece.len)
      ensures var done := req.length - c.remaining;
              && done + piece.len <= |flat|
              && flat[done..done + piece.len] == PhysRange(h.iommu, piece.iova, piece.len)
      ensures At(next, there)
    {
      AheadAfterPiece(h, flat, req.length - c.remaining, rest, piece, there);
    }

    /** With nothing left to move the walk is complete. */
    lemma WalkDone(c: Cursor, fetched: seq<byte>, hops: nat, rest: Walk)
      requires Valid() && Walking(c, fetched, hops, rest) && c.remaining == 0
      ensures w.end == Complete
    {
    }

    /** A data entry is the next piece of the flat transfer; past it stands the next entry. */
    lemma Piecewise(c: Cursor, fetched: seq<byte>, hops: nat, rest: Walk, piece: Piece, next: Cursor)
      returns (there: Walk)
      requires Valid() && Walking(c, fetched, hops, rest) && c.remaining > 0 && !c.AtHop(req.pageSize)
      requires 8 * c.idx + 8 <= |fetched|
      requires piece == Piece(FromLE(fetched[8 * c.idx..8 * c.idx + 8]), Min(c.remaining, req.pageSize))
      requires next == c.(idx := c.idx + 1, remaining := c.remaining - piece.len, at := c.at + piece.len)
      ensures Addressable(piece.iova, piece.len) && piece.iova < U64
      ensures var done := req.length - c.remaining;
              && done + piece.len <= |flat|
              && flat[done..done + piece.len] == PhysRange(h.iommu, piece.iova, piece.len)
      ensures Walking(next, fetched, hops, there)
    {
      FetchedEntry(h, c.list, c.idx, fetched);
      DataStep(h, c.list, c.idx, c.remaining, hops);
      there := h.ListFrom(c.list, c.idx + 1, c.remaining - piece.len, hops);
      PastPiece(c, rest, piece, next, there);
    }

    lemma MovedPiece(done: nat, now: World, piece: Piece, moved: nat, sum: nat, next: World)
      requires Moved(done, now) && moved <= piece.len
      requires done + piece.len <= |flat| && done + piece.len <= req.length
      requires flat[done..done + piece.len] == PhysRange(h.iommu, piece.iova, piece.len)
      requires moved == 0 || req.userAddr + done + moved <= |was.mem|
      requires next == Transfer(now, req.toHost, PhysRange(h.iommu, piece.iova, moved), req.userAddr + done)
      requires sum == done + moved
      ensures Moved(sum, next)
    {
      TransferExtends(h.iommu, flat, done, piece, moved, was, now, req.toHost, req.userAddr, sum, next);
    }

    /** The first piece is what the first pointer describes. */
    lemma FirstPiece(chunk: nat)
      requires Valid() && req.length > 0 && Meaningful(h, req) && w == h.Pieces(req.prp1, req.prp2, req.length)
      requires chunk == Min(h.pageSize - InPage(req.prp1, h.pageSize), req.length)
      ensures Moved(0, was) && Addressable(req.prp1, chunk)
      ensures chunk <= |flat| && flat[0..chunk] == PhysRange(h.iommu, req.prp1, chunk)
      ensures Ahead(h, flat, chunk, Walk(w.pieces[1..], w.lists, w.end))
      ensures chunk == req.length ==> w.end == Complete
    {
    }

    /** When one more page suffices, the second pointer is that page. */
    lemma SecondPiece(chunk: nat)
      requires h.Valid() && w == h.Pieces(req.prp1, req.prp2, req.length)
      requires chunk == Min(h.pageSize - InPage(req.prp1, h.pageSize), req.length)
      requires 0 < req.length - chunk <= h.pageSize
      requires Ahead(h, flat, chunk, Walk(w.pieces[1..], w.lists, w.end))
      ensures Addressable(req.prp2, req.length - chunk) && w.end == Complete
      ensures |flat| >= req.length
      ensures flat[chunk..req.length] == PhysRange(h.iommu, req.prp2, req.length - chunk)
    {
    }

    /** Otherwise it leads to the first list page. */
    lemma ListsFollow(chunk: nat, start: Cursor) returns (rest: Walk)
      requires Valid() && w == h.Pieces(req.prp1, req.prp2, req.length)
      requires chunk == Min(h.pageSize - InPage(req.prp1, h.pageSize), req.length)
      requires req.length - chunk > h.pageSize
      requires Ahead(h, flat, chunk, Walk(w.pieces[1..], w.lists, w.end))
      requires start == Cursor(req.prp2, 0, 0, req.length - chunk, req.userAddr + chunk)
      ensures Fetching(start, U64, rest)
    {
      rest := h.Follow(req.prp2, req.length - chunk, U64);
      assert w.pieces[1..] == rest.pieces;
    }
  }

  ghost function TheJob(h: Host, was: World, req: DmaIndirect): Job
    requires h.Valid()
  {
    var w := h.Pieces(req.prp1, req.prp2, req.length);
    Job(h, w, Flat(h.iommu, w.pieces), was, req)
  }

  datatype Registration = Unregistered | Registering | Registered

  /** A device instance: its functions and the memory of the process driving it. */
  class Instance {
    const funcs: seq<RootComplex?>
    const user: array<byte>
    var registered: Registration

    ghost predicate Valid() {
      |funcs| == 8
    }

    constructor (funcs: seq<RootComplex?>, user: array<byte>)
      requires |funcs| == 8
      ensures Valid() && this.funcs == funcs && this.user == user && registered == Unregistered
    {
      this.funcs := funcs;
      this.user := user;
      registered := Unregistered;
    }

    function GetRc(func: nat): RootComplex?
      requires Valid()
    {
      if func >= 8 then null else funcs[func]
    }

    ghost function TheWorld(v: RootComplex): World
      reads v, user
    {
      World(v.ram, user[..])
    }

    /** copy_from_user: the whole range must be mapped in the process. */
    method CopyFromUser(dst: array<byte>, at: nat, n: nat) returns (ok: bool)
      requires n <= dst.Length && dst != user
      modifies dst
      ensures ok <==> at + n <= user.Length
      ensures ok ==> dst[..n] == user[at..at + n]
    {
      ok := at + n <= user.Length;
      if ok {
        for k := 0 to n
          invariant dst[..k] == user[at..at + k]
        {
          dst[k] := user[at + k];
        }
      }
    }

    /** copy_to_user, under the same condition. */
    method CopyToUser(src: array<byte>, at: nat, n: nat) returns (ok: bool)
      requires n <= src.Length && src != user
      modifies user
      ensures ok <==> at + n <= user.Length
      ensures ok ==> user[..] == old(user[..at]) + src[..n] + old(user[at + n..])
      ensures !ok ==> user[..] == old(user[..])
    {
      ok := at + n <= user.Length;
      if ok {
        for k := 0 to n
          invariant user[at..at + k] == src[..k]
          invariant forall j :: 0 <= j < at || at + k <= j < user.Length ==> user[j] == old(user[j])
        {
          user[at + k] := src[k];
        }
        assert user[..] == user[..at] + user[at..at + n] + user[at + n..];
      }
    }

    /** Moves one piece through the bounce buffer. A failing write to the host may have moved
        a prefix of the piece. */
    method MovePiece(v: RootComplex, iova: nat, at: nat, n: nat, toHost: bool, buf: array<byte>)
      returns (ret: int, ghost moved: nat)
      requires iova < U64 && 0 < n && Addressable(iova, n) && n <= buf.Length && buf != user
      modifies v, user, buf
      ensures moved <= n && (moved == 0 || at + moved <= user.Length)
      ensures ret == 0 ==> moved == n
      ensures TheWorld(v) == Transfer(old(TheWorld(v)), toHost, PhysRange(v.iommu, iova, moved), at)
    {
      SpanExact(iova, n);
      if toHost {
        var copied := CopyFromUser(buf, at, n);
        if !copied {
          return EFAULT, 0;
        }
        ret, moved := v.WriteToGuest(iova, buf, n);
        assert buf[..moved] == buf[..n][..moved] == user[at..at + moved];
      } else {
        ret, moved := v.ReadFromGuest(iova, buf, n);
        if ret != 0 {
          return ret, 0;
        }
        var copied := CopyToUser(buf, at, n);
        if !copied {
          return EFAULT, 0;
        }
      }
    }

    /** Fetches the tail of the list page the cursor names. */
    method FetchList(v: RootComplex, c: Cursor, buf: array<byte>,
                     ghost job: Job, ghost hops: nat, ghost rest: Walk, ghost done: nat)
      returns (ret: int, next: Cursor, ghost there: Walk)
      requires job.Valid() && job.h.iommu == v.iommu && job.Fetching(c, hops, rest)
      requires done == job.req.length - c.remaining && job.Moved(done, TheWorld(v))
      requires buf != user && buf.Length == job.req.pageSize
      modifies buf
      ensures job.Moved(done, TheWorld(v))
      ensures ret == 0 ==> next == c.(idx := 0, slots := next.slots)
      ensures ret == 0 ==> job.Walking(next, buf[..job.h.ListBytes(c.list)], hops, there)
    {
      next, there := c, rest;
      ghost var now := TheWorld(v);
      job.CanFetch(c, now, hops, rest);
      var listBytes := buf.Length - InPage(c.list, buf.Length);
      SpanExact(c.list, listBytes);
      ghost var moved;
      ret, moved := v.ReadFromGuest(c.list, buf, listBytes);
      if ret == 0 {
        next := c.(idx := 0, slots := listBytes / 8);
        there := job.Fetched(c, hops, rest, next, buf[..listBytes]);
      }
      assert TheWorld(v) == now;
    }

    /** Fetches the list page the last entry of this one names. */
    method FollowHop(v: RootComplex, c: Cursor, entry: nat, buf: array<byte>, ghost job: Job,
                     ghost fetched: seq<byte>, ghost hops: nat, ghost rest: Walk, ghost done: nat)
      returns (ret: int, next: Cursor, ghost there: Walk, ghost left: nat)
      requires job.Valid() && job.h.iommu == v.iommu && job.Walking(c, fetched, hops, rest)
      requires done == job.req.length - c.remaining && job.Moved(done, TheWorld(v))
      requires buf != user && buf.Length == job.req.pageSize && c.AtHop(job.req.pageSize)
      requires 8 * c.idx + 8 <= |fetched| && entry == FromLE(fetched[8 * c.idx..8 * c.idx + 8])
      modifies buf
      ensures job.Moved(done, TheWorld(v))
      ensures left == HopsAfter(c.slots, hops) && (c.slots == 1 ==> left < hops)
      ensures ret == 0 ==> next.list == entry && next.remaining == c.remaining && next.idx == 0
      ensures ret == 0 ==> job.Walking(next, buf[..job.h.ListBytes(entry)], left, there)
    {
      next := c.(list := entry);
      job.Hop(c, fetched, hops, rest, next);
      left := HopsAfter(c.slots, hops);
      ret, next, there := FetchList(v, next, buf, job, left, rest, done);
    }

    /** Moves the next piece of the flat transfer. */
    method MoveNext(v: RootComplex, iova: nat, at: nat, n: nat, toHost: bool, buf: array<byte>,
                    ghost job: Job, ghost done: nat)
      returns (ret: int, ghost moved: nat)
      requires job.h.iommu == v.iommu && toHost == job.req.toHost
      requires iova < U64 && 0 < n && Addressable(iova, n) && n <= buf.Length && buf != user
      requires |job.was.mem| == user.Length && at == job.req.userAddr + done
      requires job.Moved(done, TheWorld(v)) && done + n <= |job.flat| && done + n <= job.req.length
      requires job.flat[done..done + n] == PhysRange(v.iommu, iova, n)
      modifies v, user, buf
      ensures job.Moved(moved, TheWorld(v))
      ensures ret == 0 ==> moved == done + n
    {
      ghost var now := TheWorld(v);
      ghost var m;
      ret, m := MovePiece(v, iova, at, n, toHost, buf);
      moved := done + m;
      job.MovedPiece(done, now, Piece(iova, n), m, moved, TheWorld(v));
    }

    /** Moves the page the current entry names. */
    method MoveEntry(v: RootComplex, c: Cursor, entry: nat, toHost: bool, listBuf: array<byte>, dataBuf: array<byte>,
                     ghost job: Job, ghost fetched: seq<byte>, ghost hops: nat, ghost rest: Walk, ghost done: nat)
      returns (ret: int, next: Cursor, ghost there: Walk, ghost moved: nat)
      requires job.Valid() && job.h.iommu == v.iommu
      requires listBuf != user && dataBuf != user && listBuf != dataBuf
      requires dataBuf.Length == job.req.pageSize && toHost == job.req.toHost
      requires |job.was.mem| == user.Length
      requires job.Walking(c, fetched, hops, rest)
      requires done == job.req.length - c.remaining && job.Moved(done, TheWorld(v))
      requires c.remaining > 0 && !c.AtHop(job.req.pageSize)
      requires 8 * c.idx + 8 <= |fetched| && entry == FromLE(fetched[8 * c.idx..8 * c.idx + 8])
      modifies v, user, dataBuf
      ensures job.Moved(moved, TheWorld(v))
      ensures ret == 0 ==> next.remaining < c.remaining && moved == job.req.length - next.remaining
      ensures ret == 0 ==> next.list == c.list && job.Walking(next, fetched, hops, there)
    {
      var chunk := Min(c.remaining, dataBuf.Length);
      next := c.(idx := c.idx + 1, remaining := c.remaining - chunk, at := c.at + chunk);
      there := job.Piecewise(c, fetched, hops, rest, Piece(entry, chunk), next);
      ret, moved := MoveNext(v, entry, c.at, chunk, toHost, dataBuf, job, done);
    }

    /** prps[list_idx] */
    method ReadEntry(listBuf: array<byte>, c: Cursor,
                     ghost job: Job, ghost fetched: seq<byte>, ghost hops: nat, ghost rest: Walk)
      returns (entry: nat)
      requires job.Valid() && job.Walking(c, fetched, hops, rest) && c.remaining > 0 && fetched <= listBuf[..]
      ensures 8 * c.idx + 8 <= |fetched| && entry == FromLE(fetched[8 * c.idx..8 * c.idx + 8])
    {
      FetchedEntry(job.h, c.list, c.idx, fetched);
      assert listBuf[8 * c.idx..8 * c.idx + 8] == fetched[8 * c.idx..8 * c.idx + 8];
      entry := FromLE(listBuf[8 * c.idx..8 * c.idx + 8]);
    }

    /** The list part of the walk: one data page per entry, and a hop when the last entry of a
        page is reached with more than a page still to move. */
    method WalkLists(v: RootComplex, start: Cursor, toHost: bool, pageSize: nat,
                     listBuf: array<byte>, dataBuf: array<byte>, ghost job: Job, ghost first: Walk)
      returns (ret: int, ghost moved: nat)
      requires job.Valid() && job.h.iommu == v.iommu
      requires listBuf != user && dataBuf != user && listBuf != dataBuf
      requires pageSize == job.req.pageSize == listBuf.Length == dataBuf.Length && toHost == job.req.toHost
      requires |job.was.mem| == user.Length
      requires job.Fetching(start, U64, first) && job.Moved(job.req.length - start.remaining, TheWorld(v))
      modifies v, user, listBuf, dataBuf
      ensures job.Moved(moved, TheWorld(v))
      ensures ret == 0 ==> job.w.end == Complete && moved == job.req.length
    {
      var c;
      ghost var rest, hops := first, U64;
      moved := job.req.length - start.remaining;
      ret, c, rest := FetchList(v, start, listBuf, job, hops, rest, moved);
      if ret != 0 {
        return;
      }
      ghost var fetched := listBuf[..job.h.ListBytes(c.list)];
      while c.remaining > 0
        invariant job.Walking(c, fetched, hops, rest) && fetched <= listBuf[..]
        invariant moved == job.req.length - c.remaining && job.Moved(moved, TheWorld(v))
        decreases c.remaining, c.AtHop(pageSize) && c.slots > 1, hops
      {
        var entry := ReadEntry(listBuf, c, job, fetched, hops, rest);
        if c.AtHop(pageSize) {
          ret, c, rest, hops := FollowHop(v, c, entry, listBuf, job, fetched, hops, rest, moved);
          fetched := listBuf[..job.h.ListBytes(entry)];
        } else {
          ret, c, rest, moved := MoveEntry(v, c, entry, toHost, listBuf, dataBuf, job, fetched, hops, rest, moved);
        }
        if ret != 0 {
          return;
        }
      }
      job.WalkDone(c, fetched, hops, rest);
    }

    /** What the second pointer describes: the last page, or a list. */
    method MoveRest(v: RootComplex, req: DmaIndirect, done: nat, remaining: nat, at: nat,
                    listBuf: array<byte>, dataBuf: array<byte>, ghost job: Job)
      returns (ret: int, ghost moved: nat)
      requires job.Valid() && job.h.iommu == v.iommu && req == job.req
      requires job.w == job.h.Pieces(req.prp1, req.prp2, req.length)
      requires listBuf != user && dataBuf != user && listBuf != dataBuf
      requires req.pageSize == listBuf.Length == dataBuf.Length
      requires |job.was.mem| == user.Length
      requires done == Min(req.pageSize - InPage(req.prp1, req.pageSize), req.length)
      requires remaining == req.length - done > 0 && at == req.userAddr + done
      requires Ahead(job.h, job.flat, done, Walk(job.w.pieces[1..], job.w.lists, job.w.end))
      requires job.Moved(done, TheWorld(v))
      modifies v, user, listBuf, dataBuf
      ensures job.Moved(moved, TheWorld(v))
      ensures ret == 0 ==> job.w.end == Complete && moved == req.length
    {
      if remaining <= req.pageSize {
        job.SecondPiece(done);
        ret, moved := MoveNext(v, req.prp2, at, remaining, req.toHost, dataBuf, job, done);
      } else {
        var start := Cursor(req.prp2, 0, 0, remaining, at);
        ghost var first := job.ListsFollow(done, start);
        ret, moved := WalkLists(v, start, req.toHost, req.pageSize, listBuf, dataBuf, job, first);
      }
    }

    /** Walks the page lists of a request and moves every byte they describe, in order, until
        done or stopped. */
    method WalkAndMove(v: RootComplex, req: DmaIndirect) returns (ret: int, ghost moved: nat)
      requires req.Valid() && req.length > 0 && SupportedPageSize(req.pageSize)
      requires Meaningful(Host(v.ram, v.iommu, req.pageSize), req)
      modifies v, user
      ensures var job := TheJob(Host(old(v.ram), v.iommu, req.pageSize), old(TheWorld(v)), req);
              && job.Moved(moved, TheWorld(v))
              && (ret == 0 ==> job.w.end == Complete && moved == req.length)
    {
      ghost var job := TheJob(Host(v.ram, v.iommu, req.pageSize), TheWorld(v), req);
      var pageSize, remaining, at := req.pageSize, req.length, req.userAddr;
      var listBuf, dataBuf := new byte[pageSize], new byte[pageSize];

      var chunk := Min(pageSize - InPage(req.prp1, pageSize), remaining);
      job.FirstPiece(chunk);
      ret, moved := MoveNext(v, req.prp1, at, chunk, req.toHost, dataBuf, job, 0);
      if ret != 0 {
        return;
      }
      remaining, at := remaining - chunk, at + chunk;
      if remaining != 0 {
        ret, moved := MoveRest(v, req, chunk, remaining, at, listBuf, dataBuf, job);
      }
    }

    /** The ioctl; `gotBuffers` tells whether there is memory for its two page buffers. */
    method Indirect(req: DmaIndirect, gotBuffers: bool) returns (ret: int, ghost moved: nat)
      requires Valid() && req.Valid()
      requires SupportedPageSize(req.pageSize) && GetRc(req.func) != null && req.length > 0 ==>
                 Meaningful(Host(GetRc(req.func).ram, GetRc(req.func).iommu, req.pageSize), req)
      modifies user, set v: RootComplex | v in funcs
      ensures funcs[0] == null ==> ret == EINVAL
      ensures funcs[0] != null && registered == Registering ==> ret == EBUSY
      ensures funcs[0] != null && registered == Unregistered ==> ret == EINVAL
      ensures var started := funcs[0] != null && registered == Registered;
              && (started && req.length == 0 ==> ret == 0)
              && (ret == 0 ==> started && moved == req.length)
      ensures funcs[0] != null && registered == Registered && req.length > 0 ==>
                && (!SupportedPageSize(req.pageSize) ==> ret == EINVAL)
                && (SupportedPageSize(req.pageSize) && !gotBuffers ==> ret == ENOMEM && moved == 0)
                && (SupportedPageSize(req.pageSize) && gotBuffers && GetRc(req.func) == null ==> ret == ENODEV)
      ensures moved > 0 || (ret == 0 && req.length > 0) ==> SupportedPageSize(req.pageSize) && GetRc(req.func) != null
      ensures SupportedPageSize(req.pageSize) && GetRc(req.func) != null ==>
                var v := GetRc(req.func);
                var job := TheJob(Host(old(v.ram), v.iommu, req.pageSize), old(TheWorld(v)), req);
                && job.Moved(moved, TheWorld(v))
                && (ret == 0 && req.length > 0 ==> job.w.end == Complete)
      ensures moved == 0 ==> user[..] == old(user[..])
      ensures forall v :: v in funcs && v != null && v != GetRc(req.func) ==> v.ram == old(v.ram)
    {
      moved := 0;
      if funcs[0] == null {
        return EINVAL, 0;
      }
      if registered == Registering {
        return EBUSY, 0;
      }
      if registered == Unregistered {
        return EINVAL, 0;
      }
      if req.length == 0 {
        return 0, 0;
      }
      if !SupportedPageSize(req.pageSize) {
        return EINVAL, 0;
      }
      if !gotBuffers {
        return ENOMEM, 0;
      }
      var v := GetRc(req.func);
      if v == null {
        return ENODEV, 0;
      }
      ret, moved := WalkAndMove(v, req);
    }
  }
}
