/** The decoder's stages may be called one at a time, in any order and as often as one likes:
every stage runs what it needs first and never runs again. */
module InsnMemo {
  import opened Bytes
  import opened InsnSpec
  import opened InsnTheory

  /** The stages in the order in which they depend on one another; 7 is the length. */
  type StageNumber = j: nat | 1 <= j <= 7 witness 1

  predicate Got(s: Insn, j: StageNumber) {
    match j
    case 1 => s.prefixes.got
    case 2 => s.opcode.got
    case 3 => s.modrm.got
    case 4 => s.sib.got
    case 5 => s.disp.got
    case 6 => s.imm1.got
    case 7 => s.length != 0
  }

  function Stage(t: Tables, b: seq<byte>, j: StageNumber, s: Insn): Outcome<Insn>
    requires t.Valid()
  {
    match j
    case 1 => Prefixes(t, b, s)
    case 2 => Opcode(t, b, s)
    case 3 => Modrm(t, b, s)
    case 4 => Sib(b, s)
    case 5 => Displacement(b, s)
    case 6 => Immediate(b, s)
    case 7 => SetLength(Ok(s))
  }

  function Call(t: Tables, b: seq<byte>, j: StageNumber, s: Insn): Outcome<Insn>
    requires t.Valid()
  {
    match j
    case 1 => GetPrefixes(t, b, s)
    case 2 => GetOpcode(t, b, s)
    case 3 => GetModrm(t, b, s)
    case 4 => GetSib(t, b, s)
    case 5 => GetDisplacement(t, b, s)
    case 6 => GetImmediate(t, b, s)
    case 7 => GetLength(t, b, s)
  }

  function After(t: Tables, b: seq<byte>, j: StageNumber, r: Outcome<Insn>): Outcome<Insn>
    requires t.Valid()
  {
    if r.Ok? then Stage(t, b, j, r.value) else r
  }

  lemma CallAgain(t: Tables, b: seq<byte>, j: StageNumber, s: Insn)
    requires t.Valid() && Got(s, j)
    ensures Call(t, b, j, s) == Ok(s)
  {
  }

  lemma CallUnfolds(t: Tables, b: seq<byte>, j: StageNumber, s: Insn)
    requires t.Valid() && !Got(s, j)
    ensures Call(t, b, j, s) == After(t, b, j, if j == 1 then Ok(s) else Call(t, b, j - 1, s))
  {
  }

  /** The state after `k` stages: exactly those have run, the fields of the others are blank,
      and the bytes passed so far are all accounted for. */
  predicate At(b: seq<byte>, s: Insn, k: nat) {
    && (s.prefixes.got <==> 1 <= k) && (s.opcode.got <==> 2 <= k) && (s.modrm.got <==> 3 <= k)
    && (s.sib.got <==> 4 <= k) && (s.disp.got <==> 5 <= k) && (s.imm1.got <==> 6 <= k)
    && s.length == (if k < 7 then 0 else s.next)
    && (k < 1 ==> s.emulate == 0 && s.prefixes.nbytes == 0 && s.rex.nbytes == 0 && s.vex.nbytes == 0)
    && (k < 2 ==> s.opcode.nbytes == 0)
    && (k < 3 ==> s.modrm.nbytes == 0)
    && (k < 4 ==> s.sib.nbytes == 0)
    && (k < 5 ==> s.disp.nbytes == 0)
    && (k < 6 ==> s.imm1.nbytes == 0 && s.imm2.nbytes == 0)
    && s.next <= |b|
    && s.next == s.Accounted()
    && (2 <= k ==> 0 < s.next && Tables.SecondImmediate(s.attr))
  }

  lemma StageAdvances(t: Tables, b: seq<byte>, j: StageNumber, s: Insn)
    requires t.Valid() && |b| <= MAX_INSN_SIZE && At(b, s, j - 1) && Stage(t, b, j, s).Ok?
    ensures At(b, Stage(t, b, j, s).value, j)
  {
    match j
    case 1 => PrefixesAccount(t, b, s);
    case 2 => OpcodeAccount(t, b, s); OpcodeSecond(t, b, s);
    case 3 => ModrmAccount(t, b, s);
    case 4 => SibAccount(b, s);
    case 5 => DisplacementAccount(b, s);
    case 6 => ImmediateAccount(b, s);
    case 7 =>
  }

  lemma {:induction false} CallReaches(t: Tables, b: seq<byte>, s: Insn, k: nat, j: StageNumber)
    requires t.Valid() && |b| <= MAX_INSN_SIZE && At(b, s, k) && k <= j && Call(t, b, j, s).Ok?
    ensures At(b, Call(t, b, j, s).value, j)
  {
    if j == k {
      CallAgain(t, b, j, s);
    } else {
      CallUnfolds(t, b, j, s);
      if k < j - 1 {
        CallReaches(t, b, s, k, j - 1);
        StageAdvances(t, b, j, Call(t, b, j - 1, s).value);
      } else {
        if j != 1 {
          CallAgain(t, b, j - 1, s);
        }
        StageAdvances(t, b, j, s);
      }
    }
  }

  ghost predicate Reached(t: Tables, b: seq<byte>, x64: bool, s: Insn, k: nat)
    requires t.Valid()
  {
    k <= 7 && At(b, s, k) && (if k == 0 then s == Init(x64) else Call(t, b, k, Init(x64)) == Ok(s))
  }

  /** Going on from where other calls have led gives what a fresh decoder gives. */
  lemma {:induction false} CallResumes(t: Tables, b: seq<byte>, x64: bool, s: Insn, k: nat, j: StageNumber)
    requires t.Valid() && Reached(t, b, x64, s, k) && k <= j
    ensures Call(t, b, j, s) == Call(t, b, j, Init(x64))
  {
    if j == k {
      CallAgain(t, b, j, s);
    } else if k != 0 {
      CallUnfolds(t, b, j, s);
      CallUnfolds(t, b, j, Init(x64));
      CallResumes(t, b, x64, s, k, j - 1);
    }
  }

  lemma CallKeepsReached(t: Tables, b: seq<byte>, x64: bool, s: Insn, k: nat, j: StageNumber)
    requires t.Valid() && |b| <= MAX_INSN_SIZE && Reached(t, b, x64, s, k) && Call(t, b, j, s).Ok?
    ensures Reached(t, b, x64, Call(t, b, j, s).value, if k < j then j else k)
  {
    if j <= k {
      CallAgain(t, b, j, s);
    } else {
      CallReaches(t, b, s, k, j);
      CallResumes(t, b, x64, s, k, j);
    }
  }

  /** Calls of stages, one after the other, stopping at the first error. */
  function Calls(t: Tables, b: seq<byte>, s: Insn, js: seq<StageNumber>): Outcome<Insn>
    requires t.Valid()
    decreases |js|, 0
  {
    if js == [] then Ok(s) else CallsAfter(t, b, Call(t, b, js[0], s), js[1..])
  }

  function CallsAfter(t: Tables, b: seq<byte>, r: Outcome<Insn>, js: seq<StageNumber>): Outcome<Insn>
    requires t.Valid()
    decreases |js|, 1
  {
    if r.Ok? then Calls(t, b, r.value, js) else r
  }

  lemma {:induction false} CallsReach(t: Tables, b: seq<byte>, x64: bool, s: Insn, k: nat, js: seq<StageNumber>)
      returns (end: nat)
    requires t.Valid() && |b| <= MAX_INSN_SIZE && Reached(t, b, x64, s, k) && Calls(t, b, s, js).Ok?
    ensures Reached(t, b, x64, Calls(t, b, s, js).value, end)
    decreases |js|
  {
    if js == [] {
      end := k;
    } else {
      CallKeepsReached(t, b, x64, s, k, js[0]);
      end := CallsReach(t, b, x64, Call(t, b, js[0], s).value, if k < js[0] then js[0] else k, js[1..]);
    }
  }

  lemma ReachedResumes(t: Tables, b: seq<byte>, x64: bool, s: Insn, k: nat)
    requires t.Valid() && Reached(t, b, x64, s, k)
    ensures s.next == s.Accounted() <= |b| && GetLength(t, b, s) == GetLength(t, b, Init(x64))
  {
  }

  /** Whatever stages have been called, in whatever order: the decoder has stayed inside its
      window, every byte it passed belongs to one field, and finishing the decode gives the
      same instruction, or the same error, as decoding in one go. */
  lemma AnyOrderOfStages(t: Tables, buf: seq<byte>, x64: bool, js: seq<StageNumber>, s: Insn)
    requires t.Valid() && Calls(t, Window(buf), Init(x64), js) == Ok(s)
    ensures s.next == s.Accounted() <= |Window(buf)|
    ensures GetLength(t, Window(buf), s) == GetLength(t, Window(buf), Init(x64))
  {
    var k := CallsReach(t, Window(buf), x64, Init(x64), 0, js);
    ReachedResumes(t, Window(buf), x64, s, k);
  }
}
