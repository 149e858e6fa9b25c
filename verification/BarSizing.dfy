/** BAR registers as the bus sees them: sized by writing all ones, placed by writing an address
(kernel/framework/pciem.c; section 6.2.5.1 of PCI Local Bus 3.0). */
module BarSizing {
  import opened Arithmetic
  import opened BarPool
  import opened Bytes

  const NOT_SUPPORTED: int := 0x81

  predicate IsIo(flags: nat) { flags % 2 == 1 }
  predicate Is64(flags: nat) { flags / 4 % 2 == 1 }

  function OrBit(a: nat, b: nat): nat {
    if a % 2 == 1 || b % 2 == 1 then 1 else 0
  }

  /** Bitwise or of the low four bits. */
  function OrNibble(a: nat, b: nat): (r: nat)
    ensures r < 16
  {
    OrBit(a, b) + 2 * OrBit(a / 2, b / 2) + 4 * OrBit(a / 4, b / 4) + 8 * OrBit(a / 8, b / 8)
  }

  /** `value & ~(unit - 1)` for a power of two. */
  function Down(value: nat, unit: nat): nat
    requires unit > 0
  {
    value - value % unit
  }

  /** The low address bits a BAR of a power-of-two size keeps: none for 4 GiB and above, and
      never those below the flags. */
  function KeepLow(b: Bar, value: nat): nat
    requires b.size > 0
  {
    var unit := if IsIo(b.flags) then 4 else 16;
    if b.size >= U32 then 0 else Down(value, if b.size > unit then b.size else unit)
  }

  /** The high address bits a 64-bit BAR keeps: none below 4 GiB. */
  function KeepHigh(size: nat, value: nat): nat {
    if size < U32 then 0 else Down(value, size / U32)
  }

  /** The slot before an odd one, when it is half of a 64-bit BAR. */
  predicate SecondHalf(bars: seq<Bar>, i: nat)
    requires i < |bars|
  {
    i % 2 == 1 && Is64(bars[i - 1].flags)
  }

  /** An address with the flags of its BAR in the low bits. */
  function WithFlags(address: nat, flags: nat): nat {
    address / 16 * 16 + OrNibble(address, flags)
  }

  function ReadBar(bars: seq<Bar>, i: nat): nat
    requires i < |bars|
  {
    if bars[i].size != 0 then WithFlags(bars[i].address, bars[i].flags)
    else if SecondHalf(bars, i) then bars[i].address
    else 0
  }

  /** The value kept from a write; none when the slot is not implemented. */
  function Kept(bars: seq<Bar>, i: nat, value: nat): (r: (bool, nat))
    requires i < |bars|
  {
    if bars[i].size != 0 then (true, KeepLow(bars[i], value))
    else if SecondHalf(bars, i) then (true, KeepHigh(bars[i - 1].size, value))
    else (false, 0)
  }

  function WriteBar(bars: seq<Bar>, i: nat, value: nat): (r: seq<Bar>)
    requires i < |bars|
    ensures |r| == |bars|
  {
    var (ok, v) := Kept(bars, i, value);
    if ok then bars[i := bars[i].(address := v)] else bars
  }

  /** A memory BAR in slot `i`: 32-bit, or 64-bit in an even slot with the next one empty. */
  predicate MemoryBar(bars: seq<Bar>, i: nat) {
    && i < |bars| && PowerOfTwo(bars[i].size) && bars[i].size >= 16 && !IsIo(bars[i].flags)
    && (Is64(bars[i].flags) ==> i % 2 == 0 && i + 1 < |bars| && bars[i + 1].size == 0)
    && (!Is64(bars[i].flags) ==> bars[i].size < U32)
    && bars[i].size < U64
  }

  /** The slots after writing a 64-bit value to the BAR's half or halves. */
  function Written(bars: seq<Bar>, i: nat, value: nat): (r: seq<Bar>)
    requires i < |bars| && (Is64(bars[i].flags) ==> i + 1 < |bars|)
    ensures |r| == |bars|
  {
    var low := WriteBar(bars, i, value % U32);
    if Is64(bars[i].flags) then WriteBar(low, i + 1, value / U32 % U32) else low
  }

  /** The address bits of both halves. */
  function Joined(low: nat, high: nat): nat {
    low / 16 * 16 + high * U32
  }

  /** What the bus reads after such a write: the address bits, without the flags. */
  function ReadBack(bars: seq<Bar>, i: nat, value: nat): nat
    requires i < |bars| && (Is64(bars[i].flags) ==> i + 1 < |bars|)
  {
    var b := Written(bars, i, value);
    Joined(ReadBar(b, i), if Is64(bars[i].flags) then ReadBar(b, i + 1) else 0)
  }

  lemma PowerIsMultiple(size: nat)
    requires PowerOfTwo(size) && size >= 16
    ensures size % 16 == 0
    ensures size < U32 ==> U32 % size == 0
    ensures size >= U32 ==> size % U32 == 0 && (size < U64 ==> U32 % (size / U32) == 0)
  {
    assert Pow2(4) == 2 * Pow2(3) == 16;
    PowersDivide(size, 4, 16);
    Pow2Of32();
    PowersDivide(size, 32, U32);
    if size >= U32 {
      HighPower(size);
    }
  }

  lemma HighPower(size: nat)
    requires PowerOfTwo(size) && size >= U32
    ensures size < U64 ==> U32 % (size / U32) == 0
  {
    Pow2Of32();
    PowerQuotient(size, 32, U32);
    if size < U64 {
      PowersDivide(size / U32, 32, U32);
    }
  }

  /** The lowest bit set in a value. */
  predicate LowestBitIs(v: nat, bit: nat)
    requires bit > 0
  {
    v % bit == 0 && v / bit % 2 == 1
  }

  lemma OddMultiple(v: nat, m: nat, bit: nat)
    requires bit > 0 && v == m * bit && m % 2 == 1
    ensures LowestBitIs(v, bit)
  {
    UniqueMod(v, m, 0, bit);
    UniqueQuotient(v, m, 0, bit);
  }

  /** A power of two below 2^32 divides it an even number of times. */
  lemma EvenlyDivides(unit: nat) returns (half: nat)
    requires PowerOfTwo(unit) && unit < U32
    ensures half > 0 && U32 == 2 * half * unit
  {
    Pow2Of32();
    PowersDivide(unit, 32, U32);
    var q := U32 / unit;
    DividesMeans(U32, unit);
    AtLeastTwice(q, unit);
    PowersDivide(2 * unit, 32, U32);
    half := HalfOf(unit);
  }

  lemma HalfOf(unit: nat) returns (half: nat)
    requires unit > 0 && U32 % (2 * unit) == 0
    ensures half > 0 && U32 == 2 * half * unit
  {
    half := U32 / (2 * unit);
    DividesMeans(U32, 2 * unit);
    Associate(half, 2, unit);
  }

  lemma AtLeastTwice(q: nat, unit: nat)
    requires q * unit == U32 && unit < U32
    ensures 2 * unit <= U32
  {
  }

  /** All ones rounded down: an odd multiple of the unit, just below the top. */
  lemma AllOnesDown(unit: nat) returns (m: nat)
    requires PowerOfTwo(unit) && unit < U32
    ensures Down(U32 - 1, unit) == U32 - unit == m * unit && m % 2 == 1
  {
    var half := EvenlyDivides(unit);
    m := 2 * half - 1;
    OneLess(2 * half, unit);
    UniqueMod(U32 - 1, m, unit - 1, unit);
  }

  lemma OneLess(q: nat, unit: nat)
    requires q > 0
    ensures q * unit - unit == (q - 1) * unit
  {
  }

  /** With the low nibble clear, the flags are what the or shows there. */
  lemma OrShowsFlags(a: nat, b: nat)
    requires a % 16 == 0
    ensures OrNibble(a, b) == b % 16
  {
    var q := a / 16;
    assert a == 16 * q && a / 2 == 8 * q && a / 4 == 4 * q && a / 8 == 2 * q;
    NibbleBits(b);
  }

  lemma NibbleBits(b: nat)
    ensures b % 2 + 2 * (b / 2 % 2) + 4 * (b / 4 % 2) + 8 * (b / 8 % 2) == b % 16
  {
    Halves(b);
    Halves(b / 2);
    Halves(b / 4);
    Halves(b / 8);
    var q := b / 16;
    assert b == 16 * q + (b % 2 + 2 * (b / 2 % 2) + 4 * (b / 4 % 2) + 8 * (b / 8 % 2));
  }

  lemma Halves(b: nat)
    ensures b == 2 * (b / 2) + b % 2 && b % 2 < 2
    ensures b / 2 / 2 == b / 4 && b / 4 / 2 == b / 8 && b / 8 / 2 == b / 16
  {
  }

  /** What the low half keeps is clear of the flag bits. */
  lemma KeepLowClear(b: Bar, value: nat)
    requires PowerOfTwo(b.size) && b.size >= 16 && !IsIo(b.flags)
    ensures KeepLow(b, value) == if b.size >= U32 then 0 else Down(value, b.size)
    ensures KeepLow(b, value) % 16 == 0
  {
    if b.size < U32 {
      PowerIsMultiple(b.size);
      var q, m := value / b.size, b.size / 16;
      QuotientForm(value, b.size);
      DividesMeans(b.size, 16);
      Associate(q, m, 16);
      UniqueMod(Down(value, b.size), q * m, 0, 16);
    }
  }

  /** A low half read back: the address kept, and the flags in the low bits. */
  lemma LowHalfIs(bars: seq<Bar>, i: nat, b: Bar)
    requires i < |bars| && bars[i] == b && b.size != 0 && b.address % 16 == 0
    ensures ReadBar(bars, i) / 16 * 16 == b.address && ReadBar(bars, i) % 16 == b.flags % 16
  {
    OrShowsFlags(b.address, b.flags);
    NibbleParts(b.address, OrNibble(b.address, b.flags));
  }

  lemma NibbleParts(address: nat, flags: nat)
    requires address % 16 == 0 && flags < 16
    ensures address / 16 * 16 + flags == address + flags
    ensures (address + flags) / 16 * 16 == address && (address + flags) % 16 == flags
  {
  }

  /** Read back, the address is what both halves keep; the flags are shown in the low bits. */
  lemma ReadBackIs(bars: seq<Bar>, i: nat, value: nat, low: nat, high: nat)
    requires MemoryBar(bars, i)
    requires low == KeepLow(bars[i], value % U32) && high == KeepHigh(bars[i].size, value / U32 % U32)
    ensures ReadBack(bars, i, value) == low + if Is64(bars[i].flags) then high * U32 else 0
    ensures ReadBar(WriteBar(bars, i, value % U32), i) % 16 == bars[i].flags % 16
  {
    KeepLowClear(bars[i], value % U32);
    var b1 := WriteBar(bars, i, value % U32);
    LowWritten(bars, i, value % U32, low, b1);
    LowHalfIs(b1, i, bars[i].(address := low));
    if Is64(bars[i].flags) {
      var b2 := WriteBar(b1, i + 1, value / U32 % U32);
      HighWritten(b1, i, value / U32 % U32, high, b2);
      LowHalfIs(b2, i, bars[i].(address := low));
    }
  }

  lemma LowWritten(bars: seq<Bar>, i: nat, value: nat, low: nat, after: seq<Bar>)
    requires MemoryBar(bars, i) && low == KeepLow(bars[i], value) && after == WriteBar(bars, i, value)
    ensures after == bars[i := bars[i].(address := low)]
  {
  }

  lemma HighWritten(bars: seq<Bar>, i: nat, value: nat, high: nat, after: seq<Bar>)
    requires i % 2 == 0 && i + 1 < |bars| && Is64(bars[i].flags) && bars[i + 1].size == 0
    requires high == KeepHigh(bars[i].size, value) && after == WriteBar(bars, i + 1, value)
    ensures after[i] == bars[i] && ReadBar(after, i + 1) == high
  {
    OddNext(i);
    assert SecondHalf(bars, i + 1);
    assert after == bars[i + 1 := bars[i + 1].(address := high)];
    assert SecondHalf(after, i + 1);
  }

  lemma OddNext(i: nat)
    requires i % 2 == 0
    ensures (i + 1) % 2 == 1
  {
  }

  /** Sizing: for every memory BAR of a power-of-two size of at least sixteen bytes, writing all
      ones and reading back gives a value whose lowest set address bit is the size. */
  lemma SizingFindsSize(bars: seq<Bar>, i: nat)
    requires MemoryBar(bars, i)
    ensures LowestBitIs(ReadBack(bars, i, U64 - 1), bars[i].size)
  {
    var size := bars[i].size;
    SplitAllOnes();
    var low, high := KeepLow(bars[i], U32 - 1), KeepHigh(size, U32 - 1);
    ReadBackIs(bars, i, U64 - 1, low, high);
    KeepLowClear(bars[i], U32 - 1);
    if size < U32 {
      var m := AllOnesDown(size);
      OddMultiple(U32 - size, m, size);
    } else {
      var h := size / U32;
      HighHalf(size);
      var m := AllOnesDown(h);
      Associate(m, h, U32);
      OddMultiple((U32 - h) * U32, m, size);
    }
  }

  lemma SplitAllOnes()
    ensures (U64 - 1) % U32 == U32 - 1 && (U64 - 1) / U32 % U32 == U32 - 1
  {
  }

  lemma HighHalf(size: nat)
    requires PowerOfTwo(size) && U32 <= size < U64
    ensures PowerOfTwo(size / U32) && 0 < size / U32 < U32 && size == size / U32 * U32
  {
    Pow2Of32();
    PowerQuotient(size, 32, U32);
    PowerIsMultiple(size);
    DividesMeans(size, U32);
  }

  /** Placing: an aligned address is read back exactly in its low half, and in its high half
      when the BAR is 64 bits wide and at least 4 GiB; so as a whole exactly then, or when it
      has no high half. */
  lemma PlacingKeepsAddress(bars: seq<Bar>, i: nat, address: nat)
    requires MemoryBar(bars, i) && address < U64 && address % bars[i].size == 0
    ensures ReadBack(bars, i, address) == address % U32 + if bars[i].size >= U32 then address / U32 * U32 else 0
    ensures ReadBack(bars, i, address) == address <==> bars[i].size >= U32 || address < U32
  {
    var size := bars[i].size;
    var low, high := KeepLow(bars[i], address % U32), KeepHigh(size, address / U32 % U32);
    ReadBackIs(bars, i, address, low, high);
    KeepLowClear(bars[i], address % U32);
    PowerIsMultiple(size);
    UnitsOf(address);
    if size < U32 {
      LowHalfAligned(address, size);
    } else {
      HighHalf(size);
      HighHalfAligned(address, size, size / U32);
    }
    WholeAddress(address, size >= U32, ReadBack(bars, i, address));
  }

  lemma UnitsOf(address: nat)
    requires address < U64
    ensures address / U32 % U32 == address / U32
  {
  }

  lemma WholeAddress(address: nat, both: bool, r: nat)
    requires r == address % U32 + if both then address / U32 * U32 else 0
    ensures r == address <==> both || address < U32
  {
  }

  lemma LowHalfAligned(address: nat, size: nat)
    requires size > 0 && address % size == 0 && U32 % size == 0
    ensures address % U32 % size == 0
  {
    var a, q, t := address / size, U32 / size, address / U32;
    DividesMeans(address, size);
    DividesMeans(U32, size);
    Associate(t, q, size);
    assert address % U32 == a * size - t * q * size;
    assert a * size - t * q * size == (a - t * q) * size;
    UniqueMod(address % U32, a - t * q, 0, size);
  }

  lemma HighHalfAligned(address: nat, size: nat, h: nat)
    requires h > 0 && size == h * U32 && address % size == 0
    ensures address % U32 == 0 && address / U32 % h == 0
  {
    var a := address / size;
    DividesMeans(address, size);
    Associate(a, h, U32);
    UniqueMod(address, a * h, 0, U32);
    UniqueQuotient(address, a * h, 0, U32);
    UniqueMod(a * h, a, 0, h);
  }

  /** ~(size - 1) in 64 bits */
  function Probe(size: nat): nat {
    (U64 - size % U64) % U64
  }

  /** A 64-bit BAR of 16 MiB placed at 4 GiB reads back as placed nowhere. */
  lemma SmallBarAtFourGiB(bars: seq<Bar>, i: nat)
    requires MemoryBar(bars, i) && Is64(bars[i].flags) && bars[i].size == 0x100_0000
    ensures ReadBack(bars, i, 0x1_0000_0000) == 0
  {
    PlacingKeepsAddress(bars, i, 0x1_0000_0000);
  }

  // ---- the code ----

  class BarRegisters {
    const bars: array<Bar>

    constructor (bars: array<Bar>)
      ensures this.bars == bars
    {
      this.bars := bars;
    }

    /** The address is compared with the one a probe leaves; that makes no difference. */
    method ReadBarAddress(i: nat) returns (val: nat)
      requires i < bars.Length
      ensures val == ReadBar(bars[..], i)
    {
      var bar := bars[i];
      if bar.size != 0 {
        var probe := Probe(bar.size) % U32;
        val := if bar.address == probe then WithFlags(probe, bar.flags) else WithFlags(bar.address, bar.flags);
        return;
      }
      if i % 2 == 1 && Is64(bars[i - 1].flags) {
        var high := if bars[i - 1].size >= U32 then Probe(bars[i - 1].size) / U32 else U32 - 1;
        val := if bar.address == high then high else bar.address;
        return;
      }
      val := 0;
    }

    method WriteBarAddress(i: nat, value: nat) returns (code: int)
      requires i < bars.Length
      modifies bars
      ensures bars[..] == WriteBar(old(bars[..]), i, value)
      ensures code == if Kept(old(bars[..]), i, value).0 then 0 else NOT_SUPPORTED
    {
      var bar := bars[i];
      if bar.size != 0 {
        bars[i] := bar.(address := KeepLow(bar, value));
        return 0;
      }
      if i % 2 == 1 && Is64(bars[i - 1].flags) {
        bars[i] := bar.(address := KeepHigh(bars[i - 1].size, value));
        return 0;
      }
      code := NOT_SUPPORTED;
    }
  }

  /** Halving an even value halves its lowest bit. */
  lemma HalveLowest(v: nat, bit: nat)
    requires PowerOfTwo(bit) && LowestBitIs(v, bit)
    ensures v % 2 == 0 <==> bit > 1
    ensures bit > 1 ==> bit % 2 == 0 && LowestBitIs(v / 2, bit / 2)
  {
    var q := v / bit;
    DividesMeans(v, bit);
    if bit > 1 {
      var h := bit / 2;
      assert bit == 2 * h;
      Associate(q, 2, h);
      Associate(q, h, 2);
      assert v == q * h * 2;
      OddMultiple(v / 2, q, h);
    }
  }

  /** The lowest bit set, found by halving. */
  method LowestBit(v: nat, ghost bit: nat) returns (found: nat)
    requires v > 0 && PowerOfTwo(bit) && LowestBitIs(v, bit)
    ensures found == bit
  {
    var rest := v;
    ghost var left := bit;
    found := 1;
    while rest % 2 == 0
      invariant rest > 0 && PowerOfTwo(left) && LowestBitIs(rest, left) && found * left == bit
      decreases rest
    {
      HalveLowest(rest, left);
      Associate(found, 2, left / 2);
      rest, found, left := rest / 2, found * 2, left / 2;
    }
    HalveLowest(rest, left);
  }

  /** A bus that sizes a memory BAR: it writes all ones, reads back, and takes the lowest address
      bit set. */
  method SizeBar(r: BarRegisters, i: nat) returns (size: nat)
    requires MemoryBar(r.bars[..], i)
    modifies r.bars
    ensures size == old(r.bars[i].size)
    ensures r.bars[..] == Written(old(r.bars[..]), i, U64 - 1)
  {
    ghost var was := r.bars[..];
    SplitAllOnes();
    var wide := Is64(r.bars[i].flags);
    var code := r.WriteBarAddress(i, U32 - 1);
    var high := 0;
    if wide {
      code := r.WriteBarAddress(i + 1, U32 - 1);
      high := r.ReadBarAddress(i + 1);
    }
    assert r.bars[..] == Written(was, i, U64 - 1);
    var low := r.ReadBarAddress(i);
    SizingFindsSize(was, i);
    size := LowestBit(Joined(low, high), was[i].size);
  }
}
