/** The e1000 EEPROM: read bit by bit through a three-wire register, or word by word through a
read register (examples/e1000/e1000_card.c). */
module Eeprom {
  import opened Arithmetic
  import opened Bytes

  const EEPROM_SIZE: nat := 64
  const CHECKSUM: nat := 0xBABA
  const DONE: nat := 0x10

  /** The EECD register: clock, select, data in and out, request and grant, type, other bits. */
  datatype Eecd = Eecd(sk: bool, cs: bool, di: bool, dout: bool, req: bool, gnt: bool, typ: bool, others: nat)

  datatype Machine = Machine(lastSk: bool, inData: bool, bitCount: nat, dataBit: nat, shiftReg: nat, dataOut: nat)

  const IDLE: Machine := Machine(false, false, 0, 0, 0, 0)

  /** (w >> k) & 1 */
  function Bit(w: nat, k: nat): nat {
    if k == 0 then w % 2 else Bit(w / 2, k - 1)
  }

  function BitOf(b: bool): nat { if b then 1 else 0 }

  /** The value of bits, most significant first. */
  function FromBits(bits: seq<bool>): nat {
    if bits == [] then 0 else 2 * FromBits(bits[..|bits| - 1]) + BitOf(bits[|bits| - 1])
  }

  /** The low `n` bits of a value, most significant first. */
  function ToBits(w: nat, n: nat): (bits: seq<bool>)
    ensures |bits| == n
  {
    seq(n, j requires 0 <= j < n => Bit(w, n - 1 - j) == 1)
  }

  lemma {:induction false} BitsRoundTrip(w: nat, n: nat)
    requires w < Pow2(n)
    ensures FromBits(ToBits(w, n)) == w
  {
    if n != 0 {
      BitsRoundTrip(w / 2, n - 1);
      var high, half := ToBits(w, n)[..n - 1], ToBits(w / 2, n - 1);
      forall j | 0 <= j < n - 1 ensures high[j] == half[j] {
        assert Bit(w, n - 1 - j) == Bit(w / 2, n - 2 - j);
      }
      assert high == half;
      BitIsBit(w, 0);
    }
  }

  lemma {:induction false} BitIsBit(w: nat, k: nat)
    ensures Bit(w, k) < 2
  {
    if k != 0 {
      BitIsBit(w / 2, k - 1);
    }
  }

  // ---- the serial machine ----

  /** A clock edge that shifts in: after nine bits, opcode 110 selects a word to send. */
  function ShiftIn(m: Machine, words: seq<nat>, di: bool): Machine
    requires |words| == EEPROM_SIZE
  {
    var reg := (m.shiftReg * 2 + BitOf(di)) % U32;
    var m' := m.(shiftReg := reg, bitCount := m.bitCount + 1);
    if m'.bitCount == 9 && reg / 64 % 8 == 6 then m'.(dataOut := words[reg % 64], dataBit := 15, inData := true) else m'
  }

  /** A write to EECD: the machine after it, and what the register then reads. */
  function WriteEecd(m: Machine, words: seq<nat>, v: Eecd): (r: (Machine, Eecd))
    requires |words| == EEPROM_SIZE
  {
    var shown := v.(gnt := v.gnt || v.req, typ := true);
    if !v.cs then (IDLE.(lastSk := v.sk), shown)
    else if v.sk && !m.lastSk then
      if !m.inData then (ShiftIn(m, words, v.di).(lastSk := v.sk), shown)
      else (m.(dataBit := if m.dataBit > 0 then m.dataBit - 1 else 0, lastSk := v.sk),
            shown.(dout := Bit(m.dataOut, m.dataBit) == 1))
    else (m.(lastSk := v.sk), shown)
  }

  /** A clock pulse: two writes with the chip selected, the clock high and then low. */
  datatype Pulse = Pulse(high: Eecd, low: Eecd) {
    predicate Valid() {
      high.cs && high.sk && low.cs && !low.sk
    }
  }

  function Clock(m: Machine, words: seq<nat>, p: Pulse): Machine
    requires |words| == EEPROM_SIZE
  {
    WriteEecd(WriteEecd(m, words, p.high).0, words, p.low).0
  }

  function ClockAll(m: Machine, words: seq<nat>, ps: seq<Pulse>): Machine
    requires |words| == EEPROM_SIZE
  {
    if ps == [] then m else Clock(ClockAll(m, words, ps[..|ps| - 1]), words, ps[|ps| - 1])
  }

  /** What is read back while the clock of each pulse is high. */
  function Outputs(m: Machine, words: seq<nat>, ps: seq<Pulse>): (bits: seq<bool>)
    requires |words| == EEPROM_SIZE
    ensures |bits| == |ps|
  {
    seq(|ps|, k requires 0 <= k < |ps| => WriteEecd(ClockAll(m, words, ps[..k]), words, ps[k].high).1.dout)
  }

  ghost predicate Clocking(ps: seq<Pulse>) {
    forall k :: 0 <= k < |ps| ==> ps[k].Valid()
  }

  /** The data bits a driver shifts in. */
  function Inputs(ps: seq<Pulse>): (bits: seq<bool>)
    ensures |bits| == |ps|
  {
    seq(|ps|, k requires 0 <= k < |ps| => ps[k].high.di)
  }

  lemma {:induction false} FromBitsSmall(bits: seq<bool>)
    ensures FromBits(bits) < Pow2(|bits|)
    decreases |bits|
  {
    if bits != [] {
      FromBitsSmall(bits[..|bits| - 1]);
    }
  }

  lemma OneBit(words: seq<nat>, m: Machine, p: Pulse)
    requires |words| == EEPROM_SIZE && p.Valid() && m.bitCount < 8 && m.shiftReg < 128
    requires m == IDLE.(bitCount := m.bitCount, shiftReg := m.shiftReg)
    ensures Clock(m, words, p) == IDLE.(bitCount := m.bitCount + 1, shiftReg := 2 * m.shiftReg + BitOf(p.high.di))
  {
  }

  /** Up to eight clocks collect the bits shifted in. */
  lemma {:induction false} CollectsBits(words: seq<nat>, ps: seq<Pulse>)
    requires |words| == EEPROM_SIZE && Clocking(ps) && |ps| <= 8
    ensures ClockAll(IDLE, words, ps) == IDLE.(bitCount := |ps|, shiftReg := FromBits(Inputs(ps)))
    decreases |ps|
  {
    if ps != [] {
      var n := |ps| - 1;
      CollectsBits(words, ps[..n]);
      assert Inputs(ps)[..n] == Inputs(ps[..n]);
      FromBitsSmall(Inputs(ps[..n]));
      Pow2Small(n);
      OneBit(words, IDLE.(bitCount := n, shiftReg := FromBits(Inputs(ps[..n]))), ps[n]);
    }
  }

  lemma Pow2Small(n: nat)
    requires n <= 7
    ensures Pow2(n) <= 128
  {
    assert Pow2(7) == 2 * Pow2(6) == 4 * Pow2(5) == 8 * Pow2(4) == 128;
    Pow2Grows(n, 7);
  }

  lemma {:induction false} Pow2Grows(a: nat, b: nat)
    requires a <= b
    ensures Pow2(a) <= Pow2(b)
    decreases b
  {
    if a < b {
      Pow2Grows(a, b - 1);
    }
  }

  /** The ninth clock selects the word, when the three leading bits say so. */
  lemma SelectsWord(words: seq<nat>, ps: seq<Pulse>, addr: nat)
    requires |words| == EEPROM_SIZE && Clocking(ps) && |ps| == 9 && addr < EEPROM_SIZE
    requires FromBits(Inputs(ps)) == 6 * 64 + addr
    ensures ClockAll(IDLE, words, ps) == Machine(false, true, 9, 15, 6 * 64 + addr, words[addr])
  {
    CollectsBits(words, ps[..8]);
    var bits := FromBits(Inputs(ps[..8]));
    assert Inputs(ps)[..8] == Inputs(ps[..8]);
    assert 2 * bits + BitOf(ps[8].high.di) == 6 * 64 + addr;
    NinthClock(words, IDLE.(bitCount := 8, shiftReg := bits), ps[8], addr);
  }

  lemma NinthClock(words: seq<nat>, m: Machine, p: Pulse, addr: nat)
    requires |words| == EEPROM_SIZE && p.Valid() && addr < EEPROM_SIZE
    requires m == IDLE.(bitCount := 8, shiftReg := m.shiftReg) && 2 * m.shiftReg + BitOf(p.high.di) == 6 * 64 + addr
    ensures Clock(m, words, p) == Machine(false, true, 9, 15, 6 * 64 + addr, words[addr])
  {
  }

  /** Each further clock shows the next lower bit of the word, and stays at the lowest. */
  lemma {:induction false} SendsWord(m: Machine, words: seq<nat>, ps: seq<Pulse>)
    requires |words| == EEPROM_SIZE && Clocking(ps) && m.inData && !m.lastSk
    ensures ClockAll(m, words, ps) == m.(dataBit := if |ps| <= m.dataBit then m.dataBit - |ps| else 0)
    decreases |ps|
  {
    if ps != [] {
      SendsWord(m, words, ps[..|ps| - 1]);
    }
  }

  lemma OutputAt(m: Machine, words: seq<nat>, ps: seq<Pulse>, k: nat)
    requires |words| == EEPROM_SIZE && Clocking(ps) && m.inData && !m.lastSk && k < |ps| && k <= m.dataBit
    ensures Outputs(m, words, ps)[k] == (Bit(m.dataOut, m.dataBit - k) == 1)
  {
    SendsWord(m, words, ps[..k]);
    ShowsBit(m.(dataBit := m.dataBit - k), words, ps[k]);
  }

  lemma BitsOf(bits: seq<bool>, w: nat)
    requires forall k :: 0 <= k < |bits| ==> bits[k] == (Bit(w, |bits| - 1 - k) == 1)
    ensures bits == ToBits(w, |bits|)
  {
  }

  lemma OutputsAreWord(m: Machine, words: seq<nat>, ps: seq<Pulse>)
    requires |words| == EEPROM_SIZE && Clocking(ps) && m.inData && !m.lastSk && m.dataBit + 1 == |ps|
    ensures Outputs(m, words, ps) == ToBits(m.dataOut, |ps|)
  {
    forall k | 0 <= k < |ps| ensures Outputs(m, words, ps)[k] == (Bit(m.dataOut, m.dataBit - k) == 1) {
      OutputAt(m, words, ps, k);
    }
    BitsOf(Outputs(m, words, ps), m.dataOut);
  }

  lemma ShowsBit(m: Machine, words: seq<nat>, p: Pulse)
    requires |words| == EEPROM_SIZE && p.Valid() && m.inData && !m.lastSk
    ensures WriteEecd(m, words, p.high).1.dout == (Bit(m.dataOut, m.dataBit) == 1)
  {
  }

  /** The read register: bits 8 to 14 name the word. */
  function ReadWord(words: seq<nat>, addr: nat): nat
    requires |words| == EEPROM_SIZE
  {
    DONE + (if addr % 128 < EEPROM_SIZE then words[addr % 128] else 0) * U16
  }

  /** Round trip: from any state, dropping and raising chip select, clocking in the nine bits of
      a read command, and then sixteen more clocks, yields the addressed word most significant
      bit first, whatever the other bits of the writes are. */
  lemma SerialReadYieldsWord(m: Machine, words: seq<nat>, off: Eecd, on: Eecd, selected: Machine,
                             command: seq<Pulse>, data: seq<Pulse>, addr: nat)
    requires |words| == EEPROM_SIZE && addr < EEPROM_SIZE && words[addr] < U16
    requires !off.cs && on.cs && !on.sk && selected == WriteEecd(WriteEecd(m, words, off).0, words, on).0
    requires Clocking(command) && |command| == 9 && FromBits(Inputs(command)) == 6 * 64 + addr
    requires Clocking(data) && |data| == 16
    ensures FromBits(Outputs(ClockAll(selected, words, command), words, data)) == words[addr]
  {
    SelectResets(m, words, off, on);
    SelectedSends(words, selected, command, data, addr, ClockAll(selected, words, command));
  }

  lemma SelectedSends(words: seq<nat>, selected: Machine, command: seq<Pulse>, data: seq<Pulse>, addr: nat, m: Machine)
    requires |words| == EEPROM_SIZE && addr < EEPROM_SIZE && words[addr] < U16 && selected == IDLE
    requires Clocking(command) && |command| == 9 && FromBits(Inputs(command)) == 6 * 64 + addr
    requires Clocking(data) && |data| == 16 && m == ClockAll(selected, words, command)
    ensures FromBits(Outputs(m, words, data)) == words[addr]
  {
    SelectsWord(words, command, addr);
    SendsSelected(words, addr, m, data);
  }

  /** The read register gives the same word. */
  lemma ReadRegisterAgrees(words: seq<nat>, addr: nat)
    requires |words| == EEPROM_SIZE && addr < EEPROM_SIZE && words[addr] < U16
    ensures ReadWord(words, addr) / U16 == words[addr] && ReadWord(words, addr) % U16 == DONE
  {
  }

  lemma SendsSelected(words: seq<nat>, addr: nat, m: Machine, data: seq<Pulse>)
    requires |words| == EEPROM_SIZE && addr < EEPROM_SIZE && words[addr] < U16 && Clocking(data) && |data| == 16
    requires m == Machine(false, true, 9, 15, m.shiftReg, words[addr])
    ensures FromBits(Outputs(m, words, data)) == words[addr]
  {
    OutputsAreWord(m, words, data);
    WordBits(words[addr], |data|);
  }

  lemma SelectResets(m: Machine, words: seq<nat>, off: Eecd, on: Eecd)
    requires |words| == EEPROM_SIZE && !off.cs && on.cs && !on.sk
    ensures WriteEecd(WriteEecd(m, words, off).0, words, on).0 == IDLE
  {
  }

  lemma WordBits(w: nat, n: nat)
    requires w < U16 && n == 16
    ensures FromBits(ToBits(w, n)) == w
  {
    assert Pow2(8) == 2 * Pow2(7) == 4 * Pow2(6) == 8 * Pow2(5) == 16 * Pow2(4) == 256;
    assert Pow2(12) == 2 * Pow2(11) == 4 * Pow2(10) == 8 * Pow2(9) == 16 * Pow2(8);
    assert Pow2(16) == 2 * Pow2(15) == 4 * Pow2(14) == 8 * Pow2(13) == 16 * Pow2(12);
    BitsRoundTrip(w, n);
  }

  /** The nine bits of a read command: 110, and the six bits of the address. */
  lemma CommandBits(bits: seq<bool>, addr: nat, n: nat)
    requires addr < 64 && n == 6 && bits == [true, true, false] + ToBits(addr, n)
    ensures FromBits(bits) == 6 * 64 + addr
  {
    assert Pow2(6) == 2 * Pow2(5) == 4 * Pow2(4) == 8 * Pow2(3) == 64;
    BitsRoundTrip(addr, n);
    BitsAppend([true, true, false], ToBits(addr, n));
    assert [true, true, false][..2] == [true, true] && [true, true][..1] == [true];
    assert FromBits([true]) == 1 && FromBits([true, true]) == 3 && FromBits([true, true, false]) == 6;
  }

  lemma {:induction false} BitsAppend(a: seq<bool>, b: seq<bool>)
    ensures FromBits(a + b) == FromBits(a) * Pow2(|b|) + FromBits(b)
    decreases |b|
  {
    if b == [] {
      assert a + b == a;
    } else {
      var n := |b| - 1;
      BitsAppend(a, b[..n]);
      assert (a + b)[..|a| + n] == a + b[..n];
      Combine(FromBits(a), Pow2(n), FromBits(b[..n]), BitOf(b[n]));
    }
  }

  lemma Combine(x: nat, p: nat, y: nat, bit: nat)
    ensures 2 * (x * p + y) + bit == x * (2 * p) + (2 * y + bit)
  {
  }

  // ---- the contents ----

  function Sum(words: seq<nat>): nat {
    if words == [] then 0 else Sum(words[..|words| - 1]) + words[|words| - 1]
  }

  function Pair(low: nat, high: nat): nat { low + 256 * high }

  /** The three words of a MAC address, and one fixed word. */
  function WordBefore(mac: seq<byte>, i: nat): (w: nat)
    requires |mac| == 6
    ensures w < U16
  {
    if i < 3 then Pair(mac[2 * i], mac[2 * i + 1]) else if i == 0x0A then 0x8000 else 0
  }

  lemma SumNext(words: seq<nat>, n: nat)
    requires n < |words|
    ensures Sum(words[..n + 1]) == Sum(words[..n]) + words[n]
  {
    assert words[..n + 1][..n] == words[..n];
  }

  lemma ChecksumAdds(body: seq<nat>, sum: nat, last: nat)
    requires sum == Sum(body) % U16 && last == (CHECKSUM + U16 - sum) % U16
    ensures Sum(body + [last]) % U16 == CHECKSUM
  {
    assert (body + [last])[..|body|] == body;
    Complement(Sum(body), sum, last);
  }

  lemma Complement(total: nat, sum: nat, last: nat)
    requires sum == total % U16 && last == (CHECKSUM + U16 - sum) % U16
    ensures (total + last) % U16 == CHECKSUM
  {
    var q := total / U16;
    if sum <= CHECKSUM {
      UniqueMod(total + last, q, CHECKSUM, U16);
    } else {
      UniqueMod(total + last, q + 1, CHECKSUM, U16);
    }
  }

  class Card {
    const eeprom: array<nat>
    var machine: Machine
    var eecd: Eecd
    var eerd: nat

    ghost predicate Valid()
      reads this, eeprom
    {
      eeprom.Length == EEPROM_SIZE && forall i :: 0 <= i < EEPROM_SIZE ==> eeprom[i] < U16
    }

    constructor ()
      ensures Valid() && machine == IDLE && fresh(eeprom)
      ensures forall i :: 0 <= i < EEPROM_SIZE ==> eeprom[i] == 0
    {
      eeprom := new nat[EEPROM_SIZE](_ => 0);
      machine, eecd, eerd := IDLE, Eecd(false, false, false, false, false, false, true, 0), 0;
    }

    method Checksum() returns (sum: nat)
      requires Valid()
      ensures sum == Sum(eeprom[..EEPROM_SIZE - 1]) % U16
    {
      sum := 0;
      var i := 0;
      while i < EEPROM_SIZE - 1
        invariant i <= EEPROM_SIZE - 1 && sum == Sum(eeprom[..i]) % U16
      {
        SumNext(eeprom[..], i);
        assert eeprom[..][..i + 1] == eeprom[..i + 1] && eeprom[..][..i] == eeprom[..i];
        sum := (sum + eeprom[i]) % U16;
        i := i + 1;
      }
    }

    method Clear()
      requires Valid()
      modifies eeprom
      ensures forall i :: 0 <= i < EEPROM_SIZE ==> eeprom[i] == 0
    {
      var k := 0;
      while k < EEPROM_SIZE
        invariant k <= EEPROM_SIZE && forall i :: 0 <= i < k ==> eeprom[i] == 0
      {
        eeprom[k] := 0;
        k := k + 1;
      }
    }

    /** The last word makes up what the others lack. */
    method StoreChecksum()
      requires Valid()
      modifies eeprom
      ensures Valid() && Sum(eeprom[..]) % U16 == CHECKSUM
      ensures eeprom[..EEPROM_SIZE - 1] == old(eeprom[..EEPROM_SIZE - 1])
    {
      var sum := Checksum();
      ghost var body := eeprom[..EEPROM_SIZE - 1];
      eeprom[EEPROM_SIZE - 1] := (CHECKSUM + U16 - sum) % U16;
      assert eeprom[..] == body + [eeprom[EEPROM_SIZE - 1]];
      ChecksumAdds(body, sum, eeprom[EEPROM_SIZE - 1]);
    }

    /** The words of the address in place, and all 64 words adding up to the checksum. */
    method Init(mac: seq<byte>)
      requires Valid() && |mac| == 6
      modifies eeprom
      ensures Valid()
      ensures forall i :: 0 <= i < EEPROM_SIZE - 1 ==> eeprom[i] == WordBefore(mac, i)
      ensures Sum(eeprom[..]) % U16 == CHECKSUM
    {
      Clear();
      eeprom[0] := Pair(mac[0], mac[1]);
      eeprom[1] := Pair(mac[2], mac[3]);
      eeprom[2] := Pair(mac[4], mac[5]);
      eeprom[0x0A] := 0x8000;
      ghost var body := eeprom[..EEPROM_SIZE - 1];
      assert forall i :: 0 <= i < |body| ==> body[i] == WordBefore(mac, i);
      StoreChecksum();
      assert forall i :: 0 <= i < |body| ==> eeprom[i] == eeprom[..EEPROM_SIZE - 1][i];
    }

    method HandleEecd(v: Eecd)
      requires Valid()
      modifies this
      ensures Valid() && (machine, eecd) == WriteEecd(old(machine), eeprom[..], v) && eerd == old(eerd)
    {
      var val := v;
      if v.req { val := val.(gnt := true); }
      val := val.(typ := true);
      if !v.cs {
        machine := IDLE;
      } else if v.sk && !machine.lastSk {
        if !machine.inData {
          machine := machine.(shiftReg := (machine.shiftReg * 2 + BitOf(v.di)) % U32, bitCount := machine.bitCount + 1);
          if machine.bitCount == 9 {
            var opcode, addr := machine.shiftReg / 64 % 8, machine.shiftReg % 64;
            if opcode == 6 && addr < EEPROM_SIZE {
              machine := machine.(dataOut := eeprom[addr], dataBit := 15, inData := true);
            }
          }
        } else {
          val := val.(dout := Bit(machine.dataOut, machine.dataBit) == 1);
          if machine.dataBit > 0 {
            machine := machine.(dataBit := machine.dataBit - 1);
          }
        }
      }
      machine := machine.(lastSk := v.sk);
      eecd := val;
    }

    method HandleEerd(start: bool, addr: nat)
      requires Valid()
      modifies this`eerd
      ensures eerd == if start then ReadWord(eeprom[..], addr) else old(eerd)
    {
      if start {
        var a := addr % 128;
        var data := if a < EEPROM_SIZE then eeprom[a] else 0;
        eerd := DONE + data * U16;
      }
    }
  }
}
