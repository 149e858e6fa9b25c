/** The pool of physical memory that BARs are carved from: first fit, naturally aligned, one bit
a page (kernel/framework/pool.c), and the BAR slots that carve it (kernel/framework/pciem.c). */
module BarPool {
  import opened Arithmetic
  import opened Linux

  const NUM_BARS: nat := 6

  function Pages(size: nat): nat {
    (size + PAGE_SIZE - 1) / PAGE_SIZE
  }

  /** A range of the pool: its first page and its size in bytes; no page when the size is zero. */
  datatype Range = Range(first: nat, size: nat) {
    function Pages(): nat { (size + PAGE_SIZE - 1) / PAGE_SIZE }
    predicate Covers(i: int) { first <= i < first + Pages() }
  }

  const NOTHING: Range := Range(0, 0)

  // ---- the bitmap ----

  function Fill(bits: seq<bool>, r: Range, v: bool): (f: seq<bool>)
    ensures |f| == |bits|
  {
    seq(|bits|, i requires 0 <= i < |bits| => if r.Covers(i) then v else bits[i])
  }

  predicate Clear(bits: seq<bool>, first: nat, n: nat) {
    first + n <= |bits| && forall i :: first <= i < first + n ==> !bits[i]
  }

  /** bitmap_find_next_zero_area_off(): the first free area from `from` on that is aligned, seen
      from `off` pages before the map; past the end when there is none. */
  function FirstFit(bits: seq<bool>, from: nat, n: nat, off: nat): (at: nat)
    requires n > 0
    ensures from <= at
    ensures at < |bits| ==> Clear(bits, at, n) && (at + off) % n == 0
    ensures forall k :: from <= k < at && (k + off) % n == 0 ==> !Clear(bits, k, n)
    decreases |bits| - from
  {
    if from >= |bits| then from
    else if (from + off) % n == 0 && Clear(bits, from, n) then from
    else FirstFit(bits, from + 1, n, off)
  }

  function Used(bits: seq<bool>): nat {
    if bits == [] then 0 else Used(bits[..|bits| - 1]) + if bits[|bits| - 1] then 1 else 0
  }

  /** How many pages of a range lie below a bound. */
  function Below(r: Range, n: nat): nat {
    if n <= r.first then 0 else if n <= r.first + r.Pages() then n - r.first else r.Pages()
  }

  lemma {:induction false} UsedAfterFill(bits: seq<bool>, r: Range)
    requires forall i :: 0 <= i < |bits| && r.Covers(i) ==> !bits[i]
    ensures Used(Fill(bits, r, true)) == Used(bits) + Below(r, |bits|)
    decreases |bits|
  {
    if bits != [] {
      var n := |bits| - 1;
      UsedAfterFill(bits[..n], r);
      assert Fill(bits, r, true)[..n] == Fill(bits[..n], r, true);
    }
  }

  // ---- alignment ----

  lemma PagesOfPowers(size: nat)
    requires PowerOfTwo(size)
    ensures size < PAGE_SIZE ==> Pages(size) == 1 && PAGE_SIZE % size == 0
    ensures size >= PAGE_SIZE ==> size == Pages(size) * PAGE_SIZE
  {
    assert Pow2(12) == PAGE_SIZE;
    PowersDivide(size, 12, PAGE_SIZE);
  }

  /** The offset the alignment is seen from: `(base & (size - 1)) >> 12`. */
  function AlignOffset(base: nat, size: nat): nat
    requires size > 0
  {
    base % size / PAGE_SIZE
  }

  /** An aligned place in the map is a naturally aligned address. */
  lemma AlignedAddress(base: nat, size: nat, at: nat)
    requires PowerOfTwo(size) && base % PAGE_SIZE == 0
    requires (at + AlignOffset(base, size)) % Pages(size) == 0
    ensures (base + at * PAGE_SIZE) % size == 0
  {
    PagesOfPowers(size);
    if size >= PAGE_SIZE {
      AlignedLarge(base, size, at, Pages(size));
    } else {
      AlignedSmall(base / PAGE_SIZE + at, size);
    }
  }

  lemma AlignedSmall(a: nat, size: nat)
    requires size > 0 && PAGE_SIZE % size == 0
    ensures (a * PAGE_SIZE) % size == 0
  {
    var m := PAGE_SIZE / size;
    DividesMeans(PAGE_SIZE, size);
    Associate(a, m, size);
    UniqueMod(a * PAGE_SIZE, a * m, 0, size);
  }

  lemma AlignedLarge(base: nat, size: nat, at: nat, n: nat)
    requires size == n * PAGE_SIZE && n > 0 && base % PAGE_SIZE == 0 && (at + base % size / PAGE_SIZE) % n == 0
    ensures (base + at * PAGE_SIZE) % size == 0
  {
    var q, rem := base / size, base % size;
    QuotientForm(base, size);
    Associate(q, n, PAGE_SIZE);
    WholePages(base, q * n, rem);
    var m := (at + rem / PAGE_SIZE) / n;
    DividesMeans(at + rem / PAGE_SIZE, n);
    Associate(m, n, PAGE_SIZE);
    SumOfMultiples(q, m, size);
    UniqueMod(base + at * PAGE_SIZE, q + m, 0, size);
  }

  lemma WholePages(base: nat, pages: int, rem: nat)
    requires base % PAGE_SIZE == 0 && base == pages * PAGE_SIZE + rem
    ensures rem == rem / PAGE_SIZE * PAGE_SIZE
  {
  }

  // ---- what is carved out ----

  ghost predicate CoveredBy(rs: seq<Range>, i: int) {
    exists k :: 0 <= k < |rs| && rs[k].Covers(i)
  }

  /** Over the map `before`, exactly the pages of `rs` are taken: they were free, they lie in the
      map, and no two ranges share one. */
  ghost predicate Carved(before: seq<bool>, bits: seq<bool>, rs: seq<Range>) {
    && |bits| == |before|
    && (forall k :: 0 <= k < |rs| ==> rs[k].Pages() == 0 || rs[k].first + rs[k].Pages() <= |bits|)
    && (forall k, i :: 0 <= k < |rs| && 0 <= i < |bits| && rs[k].Covers(i) ==> !before[i])
    && (forall k, l, i :: 0 <= k < l < |rs| && rs[k].Covers(i) ==> !rs[l].Covers(i))
    && (forall i :: 0 <= i < |bits| ==> (bits[i] <==> before[i] || CoveredBy(rs, i)))
  }

  lemma CarveOne(before: seq<bool>, bits: seq<bool>, rs: seq<Range>, k: nat, r: Range)
    requires Carved(before, bits, rs) && k < |rs| && rs[k].Pages() == 0 && Clear(bits, r.first, r.Pages())
    ensures Carved(before, Fill(bits, r, true), rs[k := r])
  {
    var rs' := rs[k := r];
    forall l, i | 0 <= l < |rs| && 0 <= i < |bits| && rs[l].Covers(i) ensures CoveredBy(rs', i) && !r.Covers(i) {
      assert rs'[l].Covers(i);
      assert CoveredBy(rs, i);
    }
    forall i | 0 <= i < |bits| ensures CoveredBy(rs', i) <==> r.Covers(i) || CoveredBy(rs, i) {
      if r.Covers(i) {
        assert rs'[k].Covers(i);
      } else if l :| 0 <= l < |rs'| && rs'[l].Covers(i) {
        assert rs[l].Covers(i);
      }
    }
  }

  lemma ReleaseOne(before: seq<bool>, bits: seq<bool>, rs: seq<Range>, k: nat)
    requires Carved(before, bits, rs) && k < |rs|
    ensures Carved(before, Fill(bits, rs[k], false), rs[k := NOTHING])
  {
    var r, rs' := rs[k], rs[k := NOTHING];
    assert NOTHING.Pages() == 0;
    forall i | 0 <= i < |bits| ensures CoveredBy(rs', i) <==> CoveredBy(rs, i) && !r.Covers(i) {
      if l :| 0 <= l < |rs'| && rs'[l].Covers(i) {
        assert rs[l].Covers(i) && l != k;
        assert !r.Covers(i);
      }
      if !r.Covers(i) {
        if l :| 0 <= l < |rs| && rs[l].Covers(i) {
          assert rs'[l].Covers(i);
        }
      }
    }
  }

  /** Once nothing is carved out the map is what it was. */
  lemma NothingCarved(before: seq<bool>, bits: seq<bool>, rs: seq<Range>)
    requires Carved(before, bits, rs) && forall k :: 0 <= k < |rs| ==> rs[k].Pages() == 0
    ensures bits == before
  {
  }

  lemma NothingCarvedYet(bits: seq<bool>, rs: seq<Range>)
    requires forall k :: 0 <= k < |rs| ==> rs[k].Pages() == 0
    ensures Carved(bits, bits, rs)
  {
  }

  lemma OneMoreNothing(before: seq<bool>, bits: seq<bool>, rs: seq<Range>)
    requires Carved(before, bits, rs)
    ensures Carved(before, bits, rs + [NOTHING])
  {
    assert NOTHING.Pages() == 0;
    forall i | 0 <= i < |bits| ensures CoveredBy(rs + [NOTHING], i) <==> CoveredBy(rs, i) {
      if k :| 0 <= k < |rs| && rs[k].Covers(i) {
        assert (rs + [NOTHING])[k].Covers(i);
      }
    }
  }

  // ---- runs of allocations and frees ----

  /** Where a request goes: past the end of the map when nowhere. */
  function Place(bits: seq<bool>, base: nat, size: nat): (at: nat)
    requires size > 0
  {
    FirstFit(bits, 0, Pages(size), AlignOffset(base, size))
  }

  datatype Op = Alloc(size: nat) | Free(k: nat)

  /** The map, and everything handed out so far; what has been freed is nothing. */
  datatype State = State(bits: seq<bool>, ranges: seq<Range>)

  function Step(base: nat, s: State, op: Op): State {
    match op
    case Alloc(size) =>
      if !PowerOfTwo(size) || Place(s.bits, base, size) >= |s.bits| then s
      else
        var r := Range(Place(s.bits, base, size), size);
        State(Fill(s.bits, r, true), s.ranges + [r])
    case Free(k) =>
      if k >= |s.ranges| then s else State(Fill(s.bits, s.ranges[k], false), s.ranges[k := NOTHING])
  }

  function Run(base: nat, s: State, ops: seq<Op>): State {
    if ops == [] then s else Step(base, Run(base, s, ops[..|ops| - 1]), ops[|ops| - 1])
  }

  /** The pages handed out. */
  function Total(rs: seq<Range>): nat {
    if rs == [] then 0 else Total(rs[..|rs| - 1]) + rs[|rs| - 1].Pages()
  }

  lemma {:induction false} TotalUpdate(rs: seq<Range>, k: nat, r: Range)
    requires k < |rs|
    ensures Total(rs[k := r]) + rs[k].Pages() == Total(rs) + r.Pages()
    decreases |rs|
  {
    var n := |rs| - 1;
    if k < n {
      TotalUpdate(rs[..n], k, r);
      assert rs[k := r][..n] == rs[..n][k := r];
    } else {
      assert rs[k := r][..n] == rs[..n];
    }
  }

  ghost predicate Empty(bits: seq<bool>) {
    forall i :: 0 <= i < |bits| ==> !bits[i]
  }

  /** Every range handed out lies in the pool, shares no page with another, is aligned to its
      size; and the pages handed out and the free ones are all the pages. */
  ghost predicate Sound(base: nat, before: seq<bool>, s: State) {
    && Carved(before, s.bits, s.ranges)
    && (forall k :: 0 <= k < |s.ranges| && s.ranges[k].size > 0 ==> AlignedRange(base, s.ranges[k]))
    && Used(s.bits) == Total(s.ranges)
  }

  predicate AlignedRange(base: nat, r: Range)
    requires r.size > 0
  {
    (base + r.first * PAGE_SIZE) % r.size == 0
  }

  lemma CarveNext(before: seq<bool>, bits: seq<bool>, rs: seq<Range>, r: Range)
    requires Carved(before, bits, rs) && Clear(bits, r.first, r.Pages())
    ensures Carved(before, Fill(bits, r, true), rs + [r])
  {
    OneMoreNothing(before, bits, rs);
    CarveOne(before, bits, rs + [NOTHING], |rs|, r);
    assert (rs + [NOTHING])[|rs| := r] == rs + [r];
  }

  lemma TotalNext(rs: seq<Range>, r: Range)
    ensures Total(rs + [r]) == Total(rs) + r.Pages()
  {
  }

  lemma SoundNext(base: nat, before: seq<bool>, s: State, r: Range)
    requires Sound(base, before, s) && Clear(s.bits, r.first, r.Pages()) && r.size > 0 && AlignedRange(base, r)
    ensures Sound(base, before, State(Fill(s.bits, r, true), s.ranges + [r]))
  {
    CarveNext(before, s.bits, s.ranges, r);
    UsedAfterFill(s.bits, r);
    TotalNext(s.ranges, r);
  }

  lemma AllocKeepsSound(base: nat, before: seq<bool>, s: State, size: nat)
    requires base % PAGE_SIZE == 0 && Sound(base, before, s)
    ensures Sound(base, before, Step(base, s, Alloc(size)))
  {
    if PowerOfTwo(size) && Place(s.bits, base, size) < |s.bits| {
      var at := Place(s.bits, base, size);
      AlignedAddress(base, size, at);
      SoundNext(base, before, s, Range(at, size));
    }
  }

  lemma FreeKeepsSound(base: nat, before: seq<bool>, s: State, k: nat)
    requires Sound(base, before, s)
    ensures Sound(base, before, Step(base, s, Free(k)))
  {
    if k < |s.ranges| {
      var r := s.ranges[k];
      ReleaseOne(before, s.bits, s.ranges, k);
      TotalUpdate(s.ranges, k, NOTHING);
      RefillSame(s.bits, r);
      forall i | 0 <= i < |s.bits| && r.Covers(i) ensures s.bits[i] {
        assert CoveredBy(s.ranges, i);
      }
      UsedAfterFill(Fill(s.bits, r, false), r);
    }
  }

  lemma RefillSame(bits: seq<bool>, r: Range)
    ensures (forall i :: 0 <= i < |bits| && r.Covers(i) ==> bits[i]) ==> Fill(Fill(bits, r, false), r, true) == bits
  {
  }

  lemma {:induction false} UsedEmpty(bits: seq<bool>)
    requires Empty(bits)
    ensures Used(bits) == 0
    decreases |bits|
  {
    if bits != [] {
      UsedEmpty(bits[..|bits| - 1]);
    }
  }

  /** Over every run of allocations and frees from an empty pool on. */
  lemma {:induction false} RunIsSound(base: nat, bits: seq<bool>, ops: seq<Op>)
    requires base % PAGE_SIZE == 0 && Empty(bits)
    ensures Sound(base, bits, Run(base, State(bits, []), ops))
    decreases |ops|
  {
    if ops == [] {
      NothingCarvedYet(bits, []);
      UsedEmpty(bits);
    } else {
      var n := |ops| - 1;
      RunIsSound(base, bits, ops[..n]);
      var s := Run(base, State(bits, []), ops[..n]);
      match ops[n]
      case Alloc(size) => AllocKeepsSound(base, bits, s, size);
      case Free(k) => FreeKeepsSound(base, bits, s, k);
    }
  }

  /** Two ranges handed out are disjoint as ranges of bytes, also where sizes below a page
      leave the rest of their page unused. */
  lemma HandedOutAreDisjoint(base: nat, bits: seq<bool>, ops: seq<Op>, k: nat, l: nat)
    requires base % PAGE_SIZE == 0 && Empty(bits)
    requires k < l < |Run(base, State(bits, []), ops).ranges|
    ensures var rs := Run(base, State(bits, []), ops).ranges;
            var a, b := base + rs[k].first * PAGE_SIZE, base + rs[l].first * PAGE_SIZE;
            && (rs[k].size > 0 ==> a + rs[k].size <= base + |bits| * PAGE_SIZE)
            && (rs[k].size > 0 && rs[l].size > 0 ==> a + rs[k].size <= b || b + rs[l].size <= a)
  {
    RunIsSound(base, bits, ops);
    var rs := Run(base, State(bits, []), ops).ranges;
    if rs[k].size > 0 && rs[l].size > 0 {
      assert rs[k].Covers(rs[k].first) && rs[l].Covers(rs[l].first);
      assert !rs[l].Covers(rs[k].first) && !rs[k].Covers(rs[l].first);
    }
  }

  // ---- the pool ----

  class Pool {
    const configured: bool
    const base: nat
    const bits: array<bool>

    ghost predicate Valid()
      reads this
    {
      base % PAGE_SIZE == 0 && base > 0
    }

    constructor (configured: bool, base: nat, size: nat)
      requires base % PAGE_SIZE == 0 && base > 0
      ensures Valid() && this.configured == configured && this.base == base && fresh(bits)
      ensures bits.Length == size / PAGE_SIZE && Empty(bits[..])
    {
      this.configured, this.base := configured, base;
      bits := new bool[size / PAGE_SIZE](_ => false);
    }

    /** The search for a free aligned area, by the contract of the kernel's allocator. */
    method FindArea(n: nat, off: nat) returns (at: nat)
      requires n > 0
      ensures at == FirstFit(bits[..], 0, n, off)
    {
      at := 0;
      while at < bits.Length
        invariant at <= bits.Length && FirstFit(bits[..], at, n, off) == FirstFit(bits[..], 0, n, off)
      {
        if (at + off) % n == 0 && at + n <= bits.Length {
          var k := at;
          while k < at + n && !bits[k]
            invariant at <= k <= at + n && Clear(bits[..], at, k - at)
          {
            k := k + 1;
          }
          if k == at + n { return; }
        }
        at := at + 1;
      }
    }

    method SetBits(r: Range, v: bool)
      requires r.first + r.Pages() <= bits.Length
      modifies bits
      ensures bits[..] == Fill(old(bits[..]), r, v)
    {
      ghost var was := bits[..];
      var i := r.first;
      while i < r.first + r.Pages()
        invariant r.first <= i <= r.first + r.Pages()
        invariant forall k :: 0 <= k < bits.Length ==> bits[k] == if r.first <= k < i then v else was[k]
      {
        bits[i] := v;
        i := i + 1;
      }
    }

    /** Zero, and nothing taken, exactly when there is no pool, the size is not a power of two,
        or no aligned area is free; otherwise the first such area, aligned to its size. */
    method Allocate(size: nat) returns (addr: nat)
      requires Valid()
      modifies bits
      ensures addr == 0 <==> !configured || !PowerOfTwo(size) || Place(old(bits[..]), base, size) >= bits.Length
      ensures addr == 0 ==> bits[..] == old(bits[..])
      ensures addr != 0 ==> var r := Range(Place(old(bits[..]), base, size), size);
                            && addr == base + r.first * PAGE_SIZE && addr % size == 0
                            && Clear(old(bits[..]), r.first, r.Pages()) && bits[..] == Fill(old(bits[..]), r, true)
    {
      if !configured || !PowerOfTwo(size) { return 0; }
      var at := FindArea(Pages(size), AlignOffset(base, size));
      if at >= bits.Length { return 0; }
      AlignedAddress(base, size, at);
      SetBits(Range(at, size), true);
      addr := base + at * PAGE_SIZE;
    }

    /** Freeing what lies outside the pool is refused. */
    method Release(addr: nat, size: nat)
      requires Valid()
      requires addr >= base ==> (addr - base) % PAGE_SIZE == 0
      modifies bits
      ensures bits[..] == if !configured || addr < base || addr + size > base + bits.Length * PAGE_SIZE
                          then old(bits[..])
                          else Fill(old(bits[..]), Range((addr - base) / PAGE_SIZE, size), false)
    {
      if !configured { return; }
      if addr == 0 || addr < base || addr + size > base + bits.Length * PAGE_SIZE { return; }
      SetBits(Range((addr - base) / PAGE_SIZE, size), false);
    }
  }

  // ---- the BAR slots ----

  datatype Bar = Bar(size: nat, flags: nat, address: nat, carvedStart: nat, carvedEnd: nat)

  class RootComplex {
    const pool: Pool
    const bars: array<Bar>

    ghost predicate Valid()
      reads this, pool, bars
    {
      && pool.Valid() && pool.configured && bars.Length == NUM_BARS
      && forall i :: 0 <= i < NUM_BARS ==> SlotValid(pool.base, bars[i])
    }

    constructor (pool: Pool)
      requires pool.Valid() && pool.configured
      ensures Valid() && this.pool == pool && fresh(bars)
      ensures forall i :: 0 <= i < NUM_BARS ==> bars[i].carvedStart == 0
    {
      this.pool := pool;
      bars := new Bar[NUM_BARS](_ => Bar(0, 0, 0, 0, 0));
    }

    /** What the slots have carved out. */
    ghost function Ranges(): (rs: seq<Range>)
      requires Valid()
      reads this, pool, bars
      ensures |rs| == NUM_BARS
    {
      seq(NUM_BARS, i requires 0 <= i < NUM_BARS reads this, bars, pool requires Valid() => RangeOf(pool.base, bars[i]))
    }

    method CarveBar(num: nat, size: nat, flags: nat, ghost before: seq<bool>) returns (phys: nat)
      requires Valid() && num < NUM_BARS && size > 0 && Carved(before, pool.bits[..], Ranges())
      modifies bars, pool.bits
      ensures Valid()
      ensures phys == 0 <==> !PowerOfTwo(size) || Place(old(pool.bits[..]), pool.base, size) >= pool.bits.Length
      ensures phys == 0 ==> bars[..] == old(bars[..]) && pool.bits[..] == old(pool.bits[..])
      ensures phys != 0 ==>
                && phys == pool.base + Place(old(pool.bits[..]), pool.base, size) * PAGE_SIZE
                && bars[..] == old(bars[..])[num := Bar(size, flags, 0, phys, phys + size - 1)]
      ensures phys == 0 || old(bars[num]).carvedStart == 0 ==> Carved(before, pool.bits[..], Ranges())
    {
      ghost var rs, was := Ranges(), pool.bits[..];
      phys := pool.Allocate(size);
      if phys == 0 {
        assert Ranges() == rs;
        return;
      }
      bars[num] := Bar(size, flags, 0, phys, phys + size - 1);
      ghost var r := Range(Place(was, pool.base, size), size);
      assert RangeOf(pool.base, bars[num]) == r;
      assert Ranges() == rs[num := r];
      if old(bars[num]).carvedStart == 0 {
        CarveOne(before, was, rs, num, r);
      }
    }

    /** Registering a size zero forgets the BAR; any other size must be a power of two that the
        pool can place. A slot that was empty adds exactly its range to what is carved out. */
    method RegisterBar(num: nat, size: nat, flags: nat, ghost before: seq<bool>) returns (err: int)
      requires Valid() && Carved(before, pool.bits[..], Ranges())
      modifies bars, pool.bits
      ensures Valid()
      ensures err == if num >= NUM_BARS then EINVAL else if size == 0 then 0 else if !PowerOfTwo(size) then EINVAL
                     else if Place(old(pool.bits[..]), pool.base, size) >= pool.bits.Length then ENOMEM else 0
      ensures err != 0 || size == 0 || old(bars[num]).carvedStart == 0 ==> Carved(before, pool.bits[..], Ranges())
      ensures bars[..] == if err != 0 then old(bars[..])
                          else if size == 0 then old(bars[..])[num := old(bars[num]).(size := 0, flags := 0)]
                          else
                            var start := pool.base + Place(old(pool.bits[..]), pool.base, size) * PAGE_SIZE;
                            old(bars[..])[num := Bar(size, flags, 0, start, start + size - 1)]
    {
      if num >= NUM_BARS { return EINVAL; }
      if size == 0 {
        ghost var rs := Ranges();
        bars[num] := bars[num].(size := 0, flags := 0);
        assert Ranges() == rs;
        return 0;
      }
      if !PowerOfTwo(size) { return EINVAL; }
      var phys := CarveBar(num, size, flags, before);
      err := if phys == 0 then ENOMEM else 0;
    }

    method CleanupBar(num: nat, ghost before: seq<bool>)
      requires Valid() && Carved(before, pool.bits[..], Ranges()) && num < NUM_BARS
      modifies bars, pool.bits
      ensures Valid() && Carved(before, pool.bits[..], Ranges())
      ensures bars[num].carvedStart == 0
      ensures forall i :: 0 <= i < NUM_BARS && i != num ==> bars[i] == old(bars[i])
    {
      ghost var rs, was := Ranges(), pool.bits[..];
      var bar := bars[num];
      if bar.carvedStart != 0 {
        assert rs[num] == RangeOf(pool.base, bar);
        InsidePool(pool.base, bar, pool.bits.Length);
        pool.Release(bar.carvedStart, bar.carvedEnd - bar.carvedStart + 1);
        bars[num] := bar.(carvedStart := 0, carvedEnd := 0);
        assert Ranges() == rs[num := NOTHING];
        ReleaseOne(before, was, rs, num);
      }
    }

    /** Cleaning up gives the pool back everything the slots have carved out. */
    method CleanupBars(ghost before: seq<bool>)
      requires Valid() && Carved(before, pool.bits[..], Ranges())
      modifies bars, pool.bits
      ensures Valid() && pool.bits[..] == before
    {
      var i := 0;
      while i < NUM_BARS
        invariant i <= NUM_BARS && Valid() && Carved(before, pool.bits[..], Ranges())
        invariant forall k :: 0 <= k < i ==> bars[k].carvedStart == 0
      {
        CleanupBar(i, before);
        i := i + 1;
      }
      NothingCarved(before, pool.bits[..], Ranges());
    }
  }

  /** A slot that has carved something out holds where, page-aligned and above the base. */
  predicate SlotValid(base: nat, b: Bar) {
    b.carvedStart != 0 ==> base <= b.carvedStart <= b.carvedEnd && (b.carvedStart - base) % PAGE_SIZE == 0
  }

  function RangeOf(base: nat, b: Bar): Range
    requires SlotValid(base, b)
  {
    if b.carvedStart == 0 then NOTHING else Range((b.carvedStart - base) / PAGE_SIZE, b.carvedEnd - b.carvedStart + 1)
  }

  lemma InsidePool(base: nat, b: Bar, n: nat)
    requires SlotValid(base, b) && b.carvedStart != 0
    requires RangeOf(base, b).first + RangeOf(base, b).Pages() <= n
    ensures b.carvedEnd + 1 <= base + n * PAGE_SIZE
  {
  }

  datatype Request = Request(num: nat, size: nat, flags: nat)

  /** Registering any BARs in empty slots, whatever succeeds, and cleaning up restores the pool. */
  method RegisterAndCleanup(v: RootComplex, requests: seq<Request>)
    requires v.Valid() && forall i :: 0 <= i < NUM_BARS ==> v.bars[i].carvedStart == 0
    requires forall i, j :: 0 <= i < j < |requests| ==> requests[i].num != requests[j].num
    modifies v.bars, v.pool.bits
    ensures v.pool.bits[..] == old(v.pool.bits[..])
  {
    ghost var before := v.pool.bits[..];
    NothingCarvedYet(before, v.Ranges());
    var i := 0;
    while i < |requests|
      invariant i <= |requests| && v.Valid() && Carved(before, v.pool.bits[..], v.Ranges())
      invariant forall k :: i <= k < |requests| && requests[k].num < NUM_BARS ==>
                  v.bars[requests[k].num].carvedStart == 0
    {
      var err := v.RegisterBar(requests[i].num, requests[i].size, requests[i].flags, before);
      i := i + 1;
    }
    v.CleanupBars(before);
  }
}
