/** Page-split DMA between a device buffer and host memory (kernel/framework/dma.c). */
module Dma {
  import opened Bytes
  import opened Linux

  /** The IOMMU domain of a device; without one an I/O address is a physical address. */
  datatype Iommu = NoDomain | Domain(pages: map<nat, nat>)

  /** Zero means that the page has no translation. */
  function TranslateOnce(iommu: Iommu, iova: nat): nat {
    match iommu
    case NoDomain => iova
    case Domain(pages) => if iova in pages then pages[iova] else 0
  }

  function PageDown(a: nat): nat {
    a - a % PAGE_SIZE
  }

  /** PAGE_ALIGN on a 64-bit address: rounding up past the top wraps to zero. */
  function PageUp64(a: nat): nat {
    PageDown((a + PAGE_SIZE - 1) % U64)
  }

  /** The number of pages translated for a transfer, in 64-bit arithmetic. */
  function PageCount(iova: nat, len: nat): nat {
    var end := PageUp64((iova + len) % U64);
    if end <= PageDown(iova) then 0 else (end - PageDown(iova)) / PAGE_SIZE
  }

  /** How many bytes the first `pages` pages of a transfer carry. */
  function Carried(iova: nat, len: nat, pages: nat): nat {
    if pages == 0 then 0
    else if pages * PAGE_SIZE - iova % PAGE_SIZE < len then pages * PAGE_SIZE - iova % PAGE_SIZE
    else len
  }

  /** How many bytes a transfer carries when nothing fails. */
  function Span(iova: nat, len: nat): nat {
    Carried(iova, len, PageCount(iova, len))
  }

  /** The transfer stays clear of the wrap at the top of the address space. */
  predicate Addressable(iova: nat, len: nat) {
    iova + len + PAGE_SIZE - 1 < U64
  }

  /** Bytewise translation: each byte lives at its own page's physical address. */
  function PhysOf(iommu: Iommu, a: nat): nat {
    TranslateOnce(iommu, PageDown(a)) + a % PAGE_SIZE
  }

  function PhysRange(iommu: Iommu, iova: nat, len: nat): (addrs: seq<nat>)
    ensures |addrs| == len
    ensures forall k :: 0 <= k < len ==> addrs[k] == PhysOf(iommu, iova + k)
  {
    seq<nat>(len, k requires 0 <= k < len => PhysOf(iommu, iova + k))
  }

  /** Consecutive physical addresses, as one memcpy touches them. */
  function Line(phys: nat, n: nat): (addrs: seq<nat>)
    ensures |addrs| == n
    ensures forall k :: 0 <= k < n ==> addrs[k] == phys + k
  {
    seq(n, (k: int) requires 0 <= k < n => phys + k)
  }

  predicate Translated(iommu: Iommu, iova: nat, pages: nat) {
    forall i :: 0 <= i < pages ==> TranslateOnce(iommu, PageDown(iova) + i * PAGE_SIZE) != 0
  }

  lemma PhysRangeAppend(iommu: Iommu, iova: nat, n: nat, m: nat)
    ensures PhysRange(iommu, iova, n + m) == PhysRange(iommu, iova, n) + PhysRange(iommu, iova + n, m)
  {
  }

  lemma PhysRangePrefix(iommu: Iommu, iova: nat, n: nat, m: nat)
    requires n <= m
    ensures PhysRange(iommu, iova, m)[..n] == PhysRange(iommu, iova, n)
  {
  }

  /** A transfer that nothing stops carries all its bytes exactly when rounding its end up
      to a page does not wrap. One that touches the last page of the address space
      carries fewer and still reports success. */
  lemma SpanExact(iova: nat, len: nat)
    requires iova < U64 && 0 < len < U64
    ensures Span(iova, len) == len <==> Addressable(iova, len)
  {
  }

  /** A concrete transfer whose success is empty. */
  lemma LastPageMovesNothing()
    ensures Span(U64 - PAGE_SIZE, 16) == 0
  {
  }

  /** Each chunk of a transfer is non-empty, stays in one page, and starts where the
      previous one ended; together they carry every byte. */
  lemma ChunkInOnePage(iova: nat, len: nat, i: nat, k: nat)
    requires 0 < len && Addressable(iova, len) && i < PageCount(iova, len)
    requires Carried(iova, len, i) <= k < Carried(iova, len, i + 1)
    ensures Carried(iova, len, i) < Carried(iova, len, i + 1)
    ensures Carried(iova, len, PageCount(iova, len)) == len
    ensures PageDown(iova + k) == PageDown(iova) + i * PAGE_SIZE
  {
  }

  /** One page of a copy, in terms of bytewise translation. */
  lemma ChunkAddresses(iommu: Iommu, iova: nat, len: nat, i: nat, off: nat, chunk: nat)
    requires off == (if i == 0 then iova % PAGE_SIZE else 0)
    requires i > 0 ==> Carried(iova, len, i) == i * PAGE_SIZE - iova % PAGE_SIZE
    requires off + chunk <= PAGE_SIZE
    ensures PhysRange(iommu, iova + Carried(iova, len, i), chunk)
            == Line(TranslateOnce(iommu, PageDown(iova) + i * PAGE_SIZE) + off, chunk)
  {
  }

  /** The walk over the pages of a range goes on exactly while pages are left. */
  lemma PagesLeft(iova: nat, len: nat, n: nat)
    requires n <= PageCount(iova, len)
    ensures PageDown(iova) + n * PAGE_SIZE < PageUp64((iova + len) % U64) <==> n < PageCount(iova, len)
  {
    var start, end := PageDown(iova), PageUp64((iova + len) % U64);
    PageDownAligned(iova);
    PageDownAligned(((iova + len) % U64 + PAGE_SIZE - 1) % U64);
    if end > start {
      WholePages(start, end, PageCount(iova, len));
    }
  }

  lemma PageDownAligned(a: nat)
    ensures PageDown(a) % PAGE_SIZE == 0
  {
  }

  lemma WholePages(start: nat, end: nat, n: nat)
    requires start % PAGE_SIZE == 0 && end % PAGE_SIZE == 0 && end > start && n == (end - start) / PAGE_SIZE
    ensures end == start + n * PAGE_SIZE
  {
  }

  /** A PCI function's view of host memory. */
  class RootComplex {
    const iommu: Iommu
    var ram: Ram

    constructor (iommu: Iommu)
      ensures this.iommu == iommu && ram == map[]
    {
      this.iommu := iommu;
      ram := map[];
    }

    /** Collects the physical page of every page of the range, or fails. */
    method TranslateIova(iova: nat, len: nat) returns (ret: int, pages: seq<nat>)
      requires iova < U64 && len < U64
      ensures ret in {0, ENOMEM, EFAULT}
      ensures ret == 0 ==> Translated(iommu, iova, PageCount(iova, len))
      ensures ret == EFAULT ==> !Translated(iommu, iova, PageCount(iova, len))
      ensures ret == 0 ==> |pages| == PageCount(iova, len)
      ensures forall i :: 0 <= i < |pages| ==> pages[i] == TranslateOnce(iommu, PageDown(iova) + i * PAGE_SIZE)
    {
      var a := PageDown(iova);
      var end := PageUp64((iova + len) % U64);
      pages := [];
      var gotMemory: bool := *;
      if !gotMemory {
        return ENOMEM, [];
      }
      while a < end
        invariant a == PageDown(iova) + |pages| * PAGE_SIZE
        invariant |pages| <= PageCount(iova, len)
        invariant Translated(iommu, iova, |pages|)
        invariant forall i :: 0 <= i < |pages| ==>
                    pages[i] == TranslateOnce(iommu, PageDown(iova) + i * PAGE_SIZE)
        decreases end - a
      {
        PagesLeft(iova, len, |pages|);
        var page := TranslateOnce(iommu, a);
        if page == 0 {
          return EFAULT, [];
        }
        pages := pages + [page];
        a := a + PAGE_SIZE;
      }
      PagesLeft(iova, len, |pages|);
      ret := 0;
    }

    /** Copies `len` bytes of host memory into `dst`. A page that cannot be mapped stops the
        copy after the pages before it. */
    method ReadFromGuest(iova: nat, dst: array<byte>, len: nat) returns (ret: int, ghost moved: nat)
      requires iova < U64 && len <= dst.Length && len < U64
      modifies dst
      ensures ret in {0, EINVAL, ENOMEM, EFAULT}
      ensures ret == EINVAL <==> len == 0
      ensures moved <= len
      ensures ret == 0 ==> moved == Span(iova, len) && Translated(iommu, iova, PageCount(iova, len))
      ensures dst[..moved] == LoadAll(ram, PhysRange(iommu, iova, moved))
      ensures forall k :: moved <= k < dst.Length ==> dst[k] == old(dst[k])
    {
      moved := 0;
      if len == 0 {
        return EINVAL, 0;
      }
      var pages;
      ret, pages := TranslateIova(iova, len);
      if ret != 0 {
        return ret, 0;
      }
      var dstOffset := 0;
      for i := 0 to |pages|
        invariant dstOffset == Carried(iova, len, i) <= len
        invariant dst[..dstOffset] == LoadAll(ram, PhysRange(iommu, iova, dstOffset))
        invariant forall k :: dstOffset <= k < dst.Length ==> dst[k] == old(dst[k])
      {
        SpanSteps(iova, len, i);
        var srcOffset := if i == 0 then iova % PAGE_SIZE else 0;
        var chunk := Min(PAGE_SIZE - srcOffset, len - dstOffset);
        var mapped: bool := *;
        if !mapped {
          return EFAULT, dstOffset;
        }
        var end := dstOffset + chunk;
        LoadPage(ram, iommu, iova, len, i, dstOffset, end, pages[i] + srcOffset, dst[..dstOffset]);
        CopyFromRam(pages[i] + srcOffset, dst, dstOffset, end);
        dstOffset := end;
      }
      return 0, dstOffset;
    }

    /** Copies the first `len` bytes of `src` into host memory, page by page. */
    method WriteToGuest(iova: nat, src: array<byte>, len: nat) returns (ret: int, ghost moved: nat)
      requires iova < U64 && len <= src.Length && len < U64
      modifies this
      ensures ret in {0, EINVAL, ENOMEM, EFAULT}
      ensures ret == EINVAL <==> len == 0
      ensures moved <= len
      ensures ret == 0 ==> moved == Span(iova, len) && Translated(iommu, iova, PageCount(iova, len))
      ensures ram == StoreAll(old(ram), PhysRange(iommu, iova, moved), src[..moved])
    {
      moved := 0;
      if len == 0 {
        return EINVAL, 0;
      }
      var pages;
      ret, pages := TranslateIova(iova, len);
      if ret != 0 {
        return ret, 0;
      }
      var srcOffset := 0;
      ghost var data := src[..];
      for i := 0 to |pages|
        invariant src[..] == data
        invariant srcOffset == Carried(iova, len, i) <= len
        invariant ram == StoreAll(old(ram), PhysRange(iommu, iova, srcOffset), data[..srcOffset])
      {
        SpanSteps(iova, len, i);
        var dstOffset := if i == 0 then iova % PAGE_SIZE else 0;
        var chunk := Min(PAGE_SIZE - dstOffset, len - srcOffset);
        var mapped: bool := *;
        if !mapped {
          return ENOMEM, srcOffset;
        }
        var end := srcOffset + chunk;
        ghost var page := CopyToRam(pages[i] + dstOffset, src, srcOffset, end);
        StorePage(old(ram), iommu, iova, len, i, data, srcOffset, end, pages[i] + dstOffset, page, ram);
        srcOffset := end;
      }
      return 0, srcOffset;
    }

    /** memcpy out of one mapped page. */
    method CopyFromRam(phys: nat, dst: array<byte>, at: nat, end: nat)
      requires at <= end <= dst.Length
      modifies dst
      ensures dst[..end] == old(dst[..at]) + LoadAll(ram, Line(phys, end - at))
      ensures forall k :: end <= k < dst.Length ==> dst[k] == old(dst[k])
    {
      for k := at to end
        invariant forall j :: 0 <= j < at || k <= j < dst.Length ==> dst[j] == old(dst[j])
        invariant forall j :: at <= j < k ==> dst[j] == Load(ram, phys + j - at)
      {
        dst[k] := Load(ram, phys + k - at);
      }
    }

    /** memcpy into one mapped page. */
    method CopyToRam(phys: nat, src: array<byte>, at: nat, end: nat) returns (ghost page: seq<nat>)
      requires at <= end <= src.Length
      modifies this
      ensures page == Line(phys, end - at)
      ensures ram == StoreAll(old(ram), page, src[..][at..end])
    {
      for k := at to end
        invariant ram == StoreAll(old(ram), Line(phys, k - at), src[at..k])
      {
        ram := ram[phys + (k - at) := src[k]];
        assert Line(phys, k + 1 - at)[..k - at] == Line(phys, k - at);
        assert src[at..k + 1][..k - at] == src[at..k];
      }
      page := Line(phys, end - at);
      assert src[at..end] == src[..][at..end];
    }
  }

  function Min(a: nat, b: nat): nat {
    if a < b then a else b
  }

  lemma PageAdds(iommu: Iommu, iova: nat, len: nat, i: nat, done: nat, end: nat, phys: nat)
    requires iova < U64 && 0 < len < U64 && i < PageCount(iova, len)
    requires done == Carried(iova, len, i) <= end == Carried(iova, len, i + 1)
    requires phys == TranslateOnce(iommu, PageDown(iova) + i * PAGE_SIZE) + (if i == 0 then iova % PAGE_SIZE else 0)
    ensures PhysRange(iommu, iova, end) == PhysRange(iommu, iova, done) + Line(phys, end - done)
  {
    PageStep(iommu, iova, len, i);
  }

  /** Storing one more page extends the stored prefix of the transfer. */
  lemma StorePage(before: Ram, iommu: Iommu, iova: nat, len: nat, i: nat, data: seq<byte>, done: nat, end: nat,
                  phys: nat, page: seq<nat>, after: Ram)
    requires iova < U64 && 0 < len < U64 && i < PageCount(iova, len)
    requires done == Carried(iova, len, i) <= end == Carried(iova, len, i + 1) <= |data|
    requires phys == TranslateOnce(iommu, PageDown(iova) + i * PAGE_SIZE) + (if i == 0 then iova % PAGE_SIZE else 0)
    requires page == Line(phys, end - done)
    requires after == StoreAll(StoreAll(before, PhysRange(iommu, iova, done), data[..done]), page, data[done..end])
    ensures after == StoreAll(before, PhysRange(iommu, iova, end), data[..end])
  {
    PageAdds(iommu, iova, len, i, done, end, phys);
    StoreMore(before, PhysRange(iommu, iova, done), page, data, done, end);
  }

  lemma StoreMore(before: Ram, a1: seq<nat>, a2: seq<nat>, data: seq<byte>, done: nat, end: nat)
    requires done <= end <= |data| && |a1| == done && |a2| == end - done
    ensures StoreAll(StoreAll(before, a1, data[..done]), a2, data[done..end]) == StoreAll(before, a1 + a2, data[..end])
  {
    StoreAppend(before, a1, a2, data[..done], data[done..end]);
    assert data[..end] == data[..done] + data[done..end];
  }

  /** Loading one more page extends the loaded prefix of the transfer. */
  lemma LoadPage(ram: Ram, iommu: Iommu, iova: nat, len: nat, i: nat, done: nat, end: nat, phys: nat, before: seq<byte>)
    requires iova < U64 && 0 < len < U64 && i < PageCount(iova, len)
    requires done == Carried(iova, len, i) <= end == Carried(iova, len, i + 1)
    requires phys == TranslateOnce(iommu, PageDown(iova) + i * PAGE_SIZE) + (if i == 0 then iova % PAGE_SIZE else 0)
    requires before == LoadAll(ram, PhysRange(iommu, iova, done))
    ensures before + LoadAll(ram, Line(phys, end - done)) == LoadAll(ram, PhysRange(iommu, iova, end))
  {
    PageAdds(iommu, iova, len, i, done, end, phys);
    LoadAllAppend(ram, PhysRange(iommu, iova, done), Line(phys, end - done));
  }

  /** What one iteration of a copy adds to the bytes already carried. */
  lemma PageStep(iommu: Iommu, iova: nat, len: nat, i: nat)
    requires iova < U64 && 0 < len < U64 && i < PageCount(iova, len)
    ensures var off := if i == 0 then iova % PAGE_SIZE else 0;
            var done := Carried(iova, len, i);
            var page := TranslateOnce(iommu, PageDown(iova) + i * PAGE_SIZE);
            && done < len
            && var chunk := Min(PAGE_SIZE - off, len - done);
            && Carried(iova, len, i + 1) == done + chunk <= len
            && PhysRange(iommu, iova, done + chunk) == PhysRange(iommu, iova, done) + Line(page + off, chunk)
  {
    SpanSteps(iova, len, i);
    var off := if i == 0 then iova % PAGE_SIZE else 0;
    var done := Carried(iova, len, i);
    var chunk := Min(PAGE_SIZE - off, len - done);
    ChunkAddresses(iommu, iova, len, i, off, chunk);
    PhysRangeAppend(iommu, iova, done, chunk);
  }

  /** While pages remain, the copy has filled every page before the current one. */
  lemma SpanSteps(iova: nat, len: nat, i: nat)
    requires iova < U64 && 0 < len < U64 && i < PageCount(iova, len)
    ensures i * PAGE_SIZE < iova % PAGE_SIZE + len
    ensures Carried(iova, len, i) < len
    ensures i > 0 ==> Carried(iova, len, i) == i * PAGE_SIZE - iova % PAGE_SIZE
    ensures var off := if i == 0 then iova % PAGE_SIZE else 0;
            Carried(iova, len, i + 1) == Carried(iova, len, i) + Min(PAGE_SIZE - off, len - Carried(iova, len, i))
  {
  }

  function Frame(iommu: Iommu, a: nat): nat {
    TranslateOnce(iommu, PageDown(a))
  }

  /** Translation takes pages of the range to page frames. */
  ghost predicate FramesAligned(iommu: Iommu, iova: nat, len: nat) {
    forall a :: iova <= a < iova + len ==> Frame(iommu, a) % PAGE_SIZE == 0
  }

  /** No frame serves two addresses of the range that lie alike in their pages. */
  ghost predicate FramesApart(iommu: Iommu, iova: nat, len: nat) {
    forall a, b :: iova <= a < b < iova + len && a % PAGE_SIZE == b % PAGE_SIZE ==> Frame(iommu, a) != Frame(iommu, b)
  }

  lemma SameByte(f: nat, g: nat, o: nat, p: nat)
    requires f % PAGE_SIZE == 0 && g % PAGE_SIZE == 0 && o < PAGE_SIZE && p < PAGE_SIZE && f + o == g + p
    ensures f == g && o == p
  {
  }

  lemma DistinctIffFramesApart(iommu: Iommu, iova: nat, len: nat)
    requires FramesAligned(iommu, iova, len)
    ensures Distinct(PhysRange(iommu, iova, len)) <==> FramesApart(iommu, iova, len)
  {
    var addrs := PhysRange(iommu, iova, len);
    if Distinct(addrs) {
      forall a, b | iova <= a < b < iova + len && a % PAGE_SIZE == b % PAGE_SIZE
        ensures Frame(iommu, a) != Frame(iommu, b)
      {
        assert addrs[a - iova] != addrs[b - iova];
      }
    }
    if FramesApart(iommu, iova, len) {
      forall i, j | 0 <= i < j < len
        ensures addrs[i] != addrs[j]
      {
        var a, b := iova + i, iova + j;
        if PhysOf(iommu, a) == PhysOf(iommu, b) {
          SameByte(Frame(iommu, a), Frame(iommu, b), a % PAGE_SIZE, b % PAGE_SIZE);
        }
      }
    }
  }

  /** Stored at the addresses of a range and loaded from them again, the data comes back, for
      every content, if and only if no two addresses of the range are one byte of the host; with
      page frames, if and only if no frame serves the range twice. */
  lemma WriteReadRoundTrip(ram: Ram, iommu: Iommu, iova: nat, len: nat)
    ensures (forall data: seq<byte> :: |data| == len ==>
               LoadAll(StoreAll(ram, PhysRange(iommu, iova, len), data), PhysRange(iommu, iova, len)) == data)
       <==> Distinct(PhysRange(iommu, iova, len))
    ensures FramesAligned(iommu, iova, len) ==>
              (Distinct(PhysRange(iommu, iova, len)) <==> FramesApart(iommu, iova, len))
  {
    var addrs := PhysRange(iommu, iova, len);
    if FramesAligned(iommu, iova, len) {
      DistinctIffFramesApart(iommu, iova, len);
    }
    if Distinct(addrs) {
      forall data: seq<byte> | |data| == len
        ensures LoadAll(StoreAll(ram, addrs, data), addrs) == data
      {
        StoreThenLoad(ram, addrs, data);
      }
    }
    if forall data: seq<byte> :: |data| == len ==> LoadAll(StoreAll(ram, addrs, data), addrs) == data {
      RoundTripOnlyIfDistinct(ram, addrs);
    }
  }

  /** A buffer written to the host and read back: what both copies report done has made the
      round trip wherever no frame serves the range twice. */
  method WriteThenRead(rc: RootComplex, iova: nat, src: array<byte>, dst: array<byte>, len: nat)
    returns (wrote: int, read: int)
    requires iova < U64 && len <= src.Length && len <= dst.Length && len < U64 && src != dst
    modifies rc, dst
    ensures wrote == 0 && read == 0 ==>
              && Span(iova, len) <= len
              && LoadAll(rc.ram, PhysRange(rc.iommu, iova, Span(iova, len))) == dst[..Span(iova, len)]
    ensures wrote == 0 && read == 0
            && FramesAligned(rc.iommu, iova, Span(iova, len)) && FramesApart(rc.iommu, iova, Span(iova, len)) ==>
              dst[..Span(iova, len)] == old(src[..Span(iova, len)])
    ensures wrote == 0 && read == 0 && Addressable(iova, len) ==> Span(iova, len) == len
  {
    ghost var ram, sent, got := rc.ram, 0, 0;
    wrote, sent := rc.WriteToGuest(iova, src, len);
    read, got := rc.ReadFromGuest(iova, dst, len);
    if wrote == 0 && read == 0 {
      SpanExact(iova, len);
      if FramesAligned(rc.iommu, iova, got) && FramesApart(rc.iommu, iova, got) {
        DistinctIffFramesApart(rc.iommu, iova, got);
        StoreThenLoad(ram, PhysRange(rc.iommu, iova, got), src[..got]);
      }
    }
  }
}
