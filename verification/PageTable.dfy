/** Poisoning the page-table leaves behind a traced mapping so that every access faults, and
putting them back (kernel/trace/arch/x86/smptrace_arch.c).

A table is the collection of its leaf slots: where each starts, how much it maps, and its entry. */
module PageTable {
  import opened Linux
  import opened Wrappers

  datatype Level = L4K | L2M | L1G

  function LevelSize(l: Level): (n: nat)
    ensures n >= PAGE_SIZE
  {
    match l
    case L4K => PAGE_SIZE
    case L2M => 0x20_0000
    case L1G => 0x4000_0000
  }

  /** An entry: its frame, the flags the code looks at, and the others. */
  datatype Entry = Entry(frame: nat, present: bool, protNone: bool, pse: bool, others: nat)

  const EMPTY: Entry := Entry(0, false, false, false, 0)

  datatype Slot = Slot(level: Level, entry: Entry)

  type Table = map<nat, Slot>

  /** pmd_mkinvalid, pud_mkinvalid */
  function MakeInvalid(e: Entry): Entry {
    e.(present := false, protNone := false)
  }

  function Poisoned(s: Slot): Slot {
    if s.level == L4K then s.(entry := EMPTY) else s.(entry := MakeInvalid(s.entry))
  }

  predicate Aligned(s: nat, l: Level) {
    match l
    case L4K => s % PAGE_SIZE == 0
    case L2M => s % 0x20_0000 == 0
    case L1G => s % 0x4000_0000 == 0
  }

  predicate EndsBefore(t: Table, s: nat, r: nat) {
    s in t && s < r ==> s + LevelSize(t[s].level) <= r
  }

  /** Slots are aligned to their size and do not overlap. */
  ghost predicate Laid(t: Table) {
    && (forall s {:trigger Aligned(s, t[s].level)} :: s in t ==> Aligned(s, t[s].level))
    && (forall s, r {:trigger EndsBefore(t, s, r)} :: s in t && r in t ==> EndsBefore(t, s, r))
  }

  /** A large entry that is not empty is a leaf, present or not. */
  ghost predicate Valid(t: Table) {
    Laid(t) && forall s :: s in t && t[s].level != L4K ==> t[s].entry == EMPTY || t[s].entry.pse
  }

  ghost predicate Covers(t: Table, s: nat, va: nat) {
    s in t && s <= va < s + LevelSize(t[s].level)
  }

  ghost function Covering(t: Table, va: nat): (c: Option<nat>)
    ensures c.Some? ==> Covers(t, c.value, va)
  {
    if exists s :: Covers(t, s, va) then
      var s :| Covers(t, s, va);
      Some(s)
    else None
  }

  predicate Findable(s: Slot) {
    s.level == L4K || s.entry != EMPTY
  }

  /** lookup_address(): a large slot counts unless its entry is empty, present or not; a 4K
      slot always counts. */
  ghost function Lookup(t: Table, va: nat): (c: Option<nat>)
    ensures c.Some? ==> Covers(t, c.value, va) && Findable(t[c.value])
  {
    var c := Covering(t, va);
    if c.Some? && !Findable(t[c.value]) then None else c
  }

  lemma OnlyLeafCovers(t: Table, c: nat, s: nat, va: nat)
    requires Laid(t) && Covers(t, c, va) && Covers(t, s, va)
    ensures s == c
  {
    assert EndsBefore(t, c, s) && EndsBefore(t, s, c);
  }

  lemma CoveringIs(t: Table, va: nat, s: nat)
    requires Laid(t) && Covers(t, s, va)
    ensures Covering(t, va) == Some(s)
  {
    OnlyLeafCovers(t, Covering(t, va).value, s, va);
  }

  // ---- the two loops ----

  /** A saved leaf: the address that found it, its level, its entry. */
  datatype Saved = Saved(va: nat, level: Level, entry: Entry) {
    function End(): nat { va + LevelSize(level) }
  }

  /** A loop over a range: the table, the saved leaves, how far it has got, and how many
      allocations are still going to succeed. */
  datatype Walk = Walk(table: Table, saved: seq<Saved>, va: nat, remain: int, memory: nat) {
    function Left(): nat { if remain > 0 then remain else 0 }
  }

  ghost predicate CanPoison(w: Walk) {
    w.remain > 0 && Lookup(w.table, w.va).Some? && w.memory > 0
  }

  ghost function PoisonOne(w: Walk): Walk
    requires Lookup(w.table, w.va).Some? && w.memory > 0
  {
    var s := Lookup(w.table, w.va).value;
    var slot := w.table[s];
    var size := LevelSize(slot.level);
    Walk(w.table[s := Poisoned(slot)], w.saved + [Saved(w.va, slot.level, slot.entry)],
         w.va + size, w.remain - size, w.memory - 1)
  }

  /** Where poisoning stops. */
  ghost function PoisonRange(w: Walk): Walk
    decreases w.Left()
  {
    if CanPoison(w) then PoisonRange(PoisonOne(w)) else w
  }

  ghost function PoisonCode(end: Walk): int {
    if end.remain <= 0 then 0 else if Lookup(end.table, end.va).None? then ENOENT else ENOMEM
  }

  /** The first saved leaf for an address. */
  function FindSaved(saved: seq<Saved>, va: nat): (i: nat)
    ensures i <= |saved|
    ensures i < |saved| ==> saved[i].va == va
    ensures forall j :: 0 <= j < i ==> saved[j].va != va
  {
    if saved == [] || saved[0].va == va then 0 else 1 + FindSaved(saved[1..], va)
  }

  ghost function RestoreOne(w: Walk): Walk
    ensures RestoreOne(w).remain < w.remain
  {
    var at := Lookup(w.table, w.va);
    if at.None? then w.(va := w.va + PAGE_SIZE, remain := w.remain - PAGE_SIZE)
    else
      var slot, i := w.table[at.value], FindSaved(w.saved, w.va);
      if i == |w.saved| then
        w.(va := w.va + LevelSize(slot.level), remain := w.remain - LevelSize(slot.level))
      else
        var s := w.saved[i];
        Walk(w.table[at.value := slot.(entry := s.entry)], w.saved[..i] + w.saved[i + 1..],
             w.va + LevelSize(s.level), w.remain - LevelSize(s.level), w.memory)
  }

  ghost function RestoreRange(w: Walk): Walk
    decreases w.Left()
  {
    if w.remain > 0 then RestoreRange(RestoreOne(w)) else w
  }

  // ---- what poisoning does ----

  /** A poison of the range `[va, va + len)` of a table, from nothing saved. */
  function Fresh(t: Table, va: nat, len: nat, memory: nat): Walk {
    Walk(t, [], va, len, memory)
  }

  /** The leaf that starts at `s` is where one of the saved addresses lies. */
  ghost predicate Hit(t: Table, saved: seq<Saved>, s: nat) {
    exists i :: 0 <= i < |saved| && Covers(t, s, saved[i].va)
  }

  /** A table with the leaves of the saved addresses poisoned, and no others. */
  ghost function PoisonedAt(t: Table, saved: seq<Saved>): Table {
    map s | s in t :: if Hit(t, saved, s) then Poisoned(t[s]) else t[s]
  }

  ghost predicate SavesLeaf(t: Table, s: Saved) {
    var at := Lookup(t, s.va);
    at.Some? && t[at.value] == Slot(s.level, s.entry)
  }

  /** What a poison of `t` from `lo` on has saved when it has got to `hi`: from every address the
      walk came to the leaf found there, the next address a leaf's size further on. */
  ghost predicate Saves(t: Table, saved: seq<Saved>, lo: nat, hi: nat) {
    && (if saved == [] then lo == hi else lo == saved[0].va && saved[|saved| - 1].End() == hi)
    && (forall i :: 0 <= i < |saved| ==> SavesLeaf(t, saved[i]))
    && (forall i :: 0 < i < |saved| ==> saved[i].va == saved[i - 1].End())
  }

  lemma SavesOneMore(t: Table, saved: seq<Saved>, lo: nat, va: nat, s: Saved)
    requires Saves(t, saved, lo, va) && SavesLeaf(t, s) && s.va == va
    ensures Saves(t, saved + [s], lo, s.End())
  {
  }

  lemma SavesRest(t: Table, saved: seq<Saved>, lo: nat, hi: nat)
    requires Saves(t, saved, lo, hi) && saved != []
    ensures Saves(t, saved[1..], saved[0].End(), hi)
  {
  }

  lemma SavesFirst(t: Table, saved: seq<Saved>, lo: nat, hi: nat)
    requires Saves(t, saved, lo, hi) && saved != []
    ensures Saves(t, saved[..|saved| - 1], lo, saved[|saved| - 1].va)
  {
  }

  /** Every saved address lies between the start and where the walk has got, and so does all that
      is counted for it. */
  lemma {:induction false} SavesBetween(t: Table, saved: seq<Saved>, lo: nat, hi: nat, i: nat)
    requires Saves(t, saved, lo, hi) && i < |saved|
    ensures lo <= saved[i].va < saved[i].End() <= hi
    decreases |saved|
  {
    var n := |saved| - 1;
    if n > 0 {
      SavesFirst(t, saved, lo, hi);
      SavesBetween(t, saved[..n], lo, saved[n].va, if i < n then i else i - 1);
    }
  }

  /** Each step lands past the end of its leaf, so that no leaf is hit twice. */
  lemma NotHitAgain(t: Table, saved: seq<Saved>, lo: nat, hi: nat, s: nat, va: nat)
    requires Laid(t) && Saves(t, saved, lo, hi) && Covers(t, s, va) && hi <= va
    ensures !Hit(t, saved, s)
  {
    forall i | 0 <= i < |saved|
      ensures !Covers(t, s, saved[i].va)
    {
      SavesBetween(t, saved, lo, hi, i);
      assert SavesLeaf(t, saved[i]);
      if Covers(t, s, saved[i].va) {
        CoveringIs(t, saved[i].va, s);
      }
    }
  }

  lemma NotHitBefore(t: Table, saved: seq<Saved>, lo: nat, hi: nat, s: nat)
    requires s in t && s + LevelSize(t[s].level) <= lo && Saves(t, saved, lo, hi)
    ensures !Hit(t, saved, s)
  {
    forall i | 0 <= i < |saved|
      ensures !Covers(t, s, saved[i].va)
    {
      SavesBetween(t, saved, lo, hi, i);
    }
  }

  /** Poisoning moves no leaf. */
  lemma SameCovering(t: Table, saved: seq<Saved>, va: nat)
    requires Laid(t)
    ensures Covering(PoisonedAt(t, saved), va) == Covering(t, va)
  {
    var p := PoisonedAt(t, saved);
    PoisonedLaid(t, saved);
    if s :| Covers(t, s, va) {
      PoisonedCovers(t, saved, s, va);
      CoveringIs(t, va, s);
      CoveringIs(p, va, s);
    } else if Covering(p, va).Some? {
      PoisonedCovers(t, saved, Covering(p, va).value, va);
      assert false;
    }
  }

  lemma PoisonedCovers(t: Table, saved: seq<Saved>, s: nat, a: nat)
    ensures Covers(PoisonedAt(t, saved), s, a) <==> Covers(t, s, a)
  {
  }

  lemma PoisonedLaid(t: Table, saved: seq<Saved>)
    requires Laid(t)
    ensures Laid(PoisonedAt(t, saved))
  {
    forall s, r | s in t && r in t
      ensures EndsBefore(PoisonedAt(t, saved), s, r)
    {
      assert EndsBefore(t, s, r);
    }
    forall s | s in t
      ensures Aligned(s, PoisonedAt(t, saved)[s].level)
    {
      assert Aligned(s, t[s].level);
    }
  }

  /** Past the poisoned leaves the walk finds what it would have found before. */
  lemma LookupBeyond(t: Table, saved: seq<Saved>, lo: nat, va: nat)
    requires Laid(t) && Saves(t, saved, lo, va)
    ensures Lookup(PoisonedAt(t, saved), va) == Lookup(t, va)
    ensures Lookup(t, va).Some? ==> PoisonedAt(t, saved)[Lookup(t, va).value] == t[Lookup(t, va).value]
  {
    SameCovering(t, saved, va);
    if Covering(t, va).Some? {
      NotHitAgain(t, saved, lo, va, Covering(t, va).value, va);
    }
  }

  lemma HitOneMore(t: Table, saved: seq<Saved>, x: Saved, s: nat)
    ensures Hit(t, saved + [x], s) <==> Hit(t, saved, s) || Covers(t, s, x.va)
  {
    var more := saved + [x];
    if i :| 0 <= i < |saved| && Covers(t, s, saved[i].va) {
      assert more[i] == saved[i];
    }
    if Covers(t, s, x.va) {
      assert more[|saved|] == x;
    }
  }

  lemma PoisonedOneMore(t: Table, saved: seq<Saved>, x: Saved, c: nat)
    requires Laid(t) && Covers(t, c, x.va)
    ensures PoisonedAt(t, saved)[c := Poisoned(t[c])] == PoisonedAt(t, saved + [x])
  {
    forall s | s in t
      ensures Hit(t, saved + [x], s) <==> Hit(t, saved, s) || s == c
    {
      HitOneMore(t, saved, x, s);
      if Covers(t, s, x.va) {
        CoveringIs(t, x.va, s);
        CoveringIs(t, x.va, c);
      }
    }
  }

  ghost predicate PoisonedTo(t: Table, lo: nat, limit: nat, w: Walk) {
    && Laid(t)
    && w.table == PoisonedAt(t, w.saved)
    && Saves(t, w.saved, lo, w.va)
    && (forall i :: 0 <= i < |w.saved| ==> w.saved[i].va < limit)
    && w.va + w.remain == limit
  }

  lemma PoisonOneKeeps(t: Table, lo: nat, limit: nat, w: Walk)
    requires PoisonedTo(t, lo, limit, w) && CanPoison(w)
    ensures PoisonedTo(t, lo, limit, PoisonOne(w))
  {
    LookupBeyond(t, w.saved, lo, w.va);
    var c := Lookup(t, w.va).value;
    var s := Saved(w.va, t[c].level, t[c].entry);
    PoisonedOneMore(t, w.saved, s, c);
    SavesOneMore(t, w.saved, lo, w.va, s);
  }

  lemma {:induction false} PoisonRangeKeeps(t: Table, lo: nat, limit: nat, w: Walk)
    requires PoisonedTo(t, lo, limit, w)
    ensures PoisonedTo(t, lo, limit, PoisonRange(w))
    decreases w.Left()
  {
    if CanPoison(w) {
      PoisonOneKeeps(t, lo, limit, w);
      PoisonRangeKeeps(t, lo, limit, PoisonOne(w));
    }
  }

  lemma PoisonedNowhere(t: Table)
    ensures PoisonedAt(t, []) == t
  {
  }

  lemma PoisonEnds(t: Table, va: nat, len: nat, memory: nat, end: Walk)
    requires Laid(t) && end == PoisonRange(Fresh(t, va, len, memory))
    ensures PoisonedTo(t, va, va + len, end)
  {
    PoisonedNowhere(t);
    PoisonRangeKeeps(t, va, va + len, Fresh(t, va, len, memory));
  }

  /** Whether it succeeds or not, and wherever it starts, a poison invalidates and saves exactly
      the leaves it came to. */
  lemma PoisonIsExact(t: Table, va: nat, len: nat, memory: nat)
    requires Laid(t)
    ensures var end := PoisonRange(Fresh(t, va, len, memory));
            && end.table == PoisonedAt(t, end.saved)
            && Saves(t, end.saved, va, end.va)
            && (PoisonCode(end) == 0 <==> va + len <= end.va)
  {
    PoisonEnds(t, va, len, memory, PoisonRange(Fresh(t, va, len, memory)));
  }

  // ---- restoring ----

  /** A restore of the table `t` that has got to `w.va`: the leaves of the addresses still saved
      are still poisoned. */
  ghost predicate RestoredTo(t: Table, limit: nat, hi: nat, w: Walk) {
    && Valid(t) && limit <= hi
    && w.table == PoisonedAt(t, w.saved)
    && Saves(t, w.saved, w.va, hi)
    && (forall i :: 0 <= i < |w.saved| ==> w.saved[i].va < limit)
    && w.va + w.remain == limit
  }

  /** In a poisoned table every leaf is still found where it was: neither an empty 4K entry nor an
      absent larger one makes the walk lose it. */
  lemma PoisonedIsFound(t: Table, saved: seq<Saved>, va: nat)
    requires Valid(t)
    ensures Lookup(PoisonedAt(t, saved), va) == Lookup(t, va)
  {
    SameCovering(t, saved, va);
    var c := Covering(t, va);
    if c.Some? && t[c.value].level != L4K && t[c.value].entry != EMPTY {
      assert MakeInvalid(t[c.value].entry).pse;
    }
  }

  lemma UnpoisonedOneMore(t: Table, saved: seq<Saved>, hi: nat, c: nat)
    requires Laid(t) && saved != [] && Saves(t, saved, saved[0].va, hi) && Lookup(t, saved[0].va) == Some(c)
    ensures PoisonedAt(t, saved)[c := t[c]] == PoisonedAt(t, saved[1..])
  {
    var x, rest := saved[0], saved[1..];
    assert SavesLeaf(t, x);
    SavesRest(t, saved, x.va, hi);
    NotHitBefore(t, rest, x.End(), hi, c);
    forall s | s in t && s != c
      ensures Hit(t, saved, s) <==> Hit(t, rest, s)
    {
      HitRest(t, saved, s);
      if Covers(t, s, x.va) {
        OnlyLeafCovers(t, c, s, x.va);
      }
    }
    SameHits(t, saved, rest, c);
  }

  lemma SameHits(t: Table, saved: seq<Saved>, rest: seq<Saved>, c: nat)
    requires c in t && !Hit(t, rest, c)
    requires forall s :: s in t && s != c ==> (Hit(t, saved, s) <==> Hit(t, rest, s))
    ensures PoisonedAt(t, saved)[c := t[c]] == PoisonedAt(t, rest)
  {
  }

  lemma HitRest(t: Table, saved: seq<Saved>, s: nat)
    requires saved != []
    ensures Hit(t, saved, s) <==> Covers(t, s, saved[0].va) || Hit(t, saved[1..], s)
  {
    var rest := saved[1..];
    if i :| 0 <= i < |rest| && Covers(t, s, rest[i].va) {
      assert rest[i] == saved[i + 1];
    }
    if i :| 0 < i < |saved| && Covers(t, s, saved[i].va) {
      assert rest[i - 1] == saved[i];
    }
  }

  lemma RestoreOneIs(w: Walk, x: Saved, c: nat)
    requires w.saved != [] && x == w.saved[0] && x.va == w.va && Lookup(w.table, w.va) == Some(c)
    ensures RestoreOne(w) == Walk(w.table[c := w.table[c].(entry := x.entry)], w.saved[1..], x.End(),
                                  w.remain - LevelSize(x.level), w.memory)
  {
    assert FindSaved(w.saved, w.va) == 0;
    assert w.saved[..0] + w.saved[1..] == w.saved[1..];
  }

  lemma RestoreOneKeeps(t: Table, limit: nat, hi: nat, w: Walk)
    requires RestoredTo(t, limit, hi, w) && w.remain > 0
    ensures RestoredTo(t, limit, hi, RestoreOne(w))
  {
    var x := w.saved[0];
    assert SavesLeaf(t, x);
    var c := Lookup(t, x.va).value;
    PoisonedIsFound(t, w.saved, w.va);
    RestoreOneIs(w, x, c);
    PutBack(t, w.saved, c, x);
    UnpoisonedOneMore(t, w.saved, hi, c);
    SavesRest(t, w.saved, w.va, hi);
  }

  lemma PutBack(t: Table, saved: seq<Saved>, c: nat, x: Saved)
    requires c in t && t[c] == Slot(x.level, x.entry)
    ensures PoisonedAt(t, saved)[c].(entry := x.entry) == t[c]
  {
  }

  lemma {:induction false} RestoreRangeEnds(t: Table, limit: nat, hi: nat, w: Walk)
    requires RestoredTo(t, limit, hi, w)
    ensures RestoreRange(w).table == t && RestoreRange(w).saved == []
    decreases w.Left()
  {
    if w.remain > 0 {
      RestoreOneKeeps(t, limit, hi, w);
      RestoreRangeEnds(t, limit, hi, RestoreOne(w));
    } else {
      assert w.saved == [];
      PoisonedNowhere(t);
    }
  }

  /** Restoring after a successful poison gives back the original table, and nothing stays
      saved: for leaves of any mix of sizes, any start and any length. */
  lemma RestoreUndoesPoison(t: Table, va: nat, len: nat, memory: nat)
    requires Valid(t) && PoisonCode(PoisonRange(Fresh(t, va, len, memory))) == 0
    ensures var end := PoisonRange(Fresh(t, va, len, memory));
            var r := RestoreRange(end.(va := va, remain := len));
            r.table == t && r.saved == []
  {
    var end := PoisonRange(Fresh(t, va, len, memory));
    PoisonEnds(t, va, len, memory, end);
    RestoreRangeEnds(t, va + len, end.va, end.(va := va, remain := len));
  }

  // ---- a poison that fails ----

  /** Nothing saved, nothing restored. */
  lemma {:induction false} NothingSavedNothingRestored(w: Walk)
    requires w.saved == []
    ensures RestoreRange(w).table == w.table && RestoreRange(w).saved == []
    decreases w.Left()
  {
    if w.remain > 0 {
      NothingSavedNothingRestored(RestoreOne(w));
    }
  }

  /** The table is as it was if and only if every leaf poisoned was already invalid. */
  lemma PoisonedIsSameIff(t: Table, saved: seq<Saved>)
    ensures PoisonedAt(t, saved) == t <==> forall s :: s in t && Hit(t, saved, s) ==> Poisoned(t[s]) == t[s]
  {
    var p := PoisonedAt(t, saved);
    if p == t {
      forall s | s in t && Hit(t, saved, s)
        ensures Poisoned(t[s]) == t[s]
      {
        assert p[s] == t[s];
      }
    } else if forall s :: s in t && Hit(t, saved, s) ==> Poisoned(t[s]) == t[s] {
      assert forall s :: s in t ==> p[s] == t[s];
    }
  }

  /** A poison that fails frees its saved leaves. Whatever is then done with the mapping, the
      table is as it was if and only if every leaf the walk came to was already invalid; for a
      present first leaf, if and only if nothing was found or no memory was left at once. */
  lemma FailedPoisonIsUndoneIff(t: Table, va: nat, len: nat, memory: nat, w: Walk)
    requires Laid(t) && PoisonCode(PoisonRange(Fresh(t, va, len, memory))) != 0
    requires w.saved == [] && w.table == PoisonRange(Fresh(t, va, len, memory)).table
    ensures var end := PoisonRange(Fresh(t, va, len, memory));
            && RestoreRange(w).table == end.table
            && (end.table == t <==> forall s :: s in t && Hit(t, end.saved, s) ==> Poisoned(t[s]) == t[s])
    ensures var at := Lookup(t, va);
            (at.Some? ==> t[at.value].entry.present) ==> (RestoreRange(w).table == t <==> at.None? || memory == 0)
  {
    var w0 := Fresh(t, va, len, memory);
    var end := PoisonRange(w0);
    NothingSavedNothingRestored(w);
    PoisonEnds(t, va, len, memory, end);
    PoisonedIsSameIff(t, end.saved);
    if CanPoison(w0) {
      FirstLeafIsHit(t, va, len, memory);
    }
  }

  lemma FirstLeafIsHit(t: Table, va: nat, len: nat, memory: nat)
    requires Laid(t) && CanPoison(Fresh(t, va, len, memory))
    ensures Hit(t, PoisonRange(Fresh(t, va, len, memory)).saved, Lookup(t, va).value)
  {
    var end := PoisonRange(Fresh(t, va, len, memory));
    PoisonEnds(t, va, len, memory, end);
    PoisonGoesOn(PoisonOne(Fresh(t, va, len, memory)));
    assert end.saved[0].va == va;
  }

  lemma {:induction false} PoisonGoesOn(w: Walk)
    ensures |w.saved| <= |PoisonRange(w).saved| && w.va <= PoisonRange(w).va
    decreases w.Left()
  {
    if CanPoison(w) {
      PoisonGoesOn(PoisonOne(w));
    }
  }

  function Page(): Slot {
    Slot(L4K, Entry(1, true, false, false, 0))
  }

  /** Two present pages and memory for one saved leaf: the first page is lost for good. */
  lemma FailedPoisonLosesALeaf()
    ensures var t := map[0 := Page(), PAGE_SIZE := Page()];
            var end := PoisonRange(Fresh(t, 0, 2 * PAGE_SIZE, 1));
            var r := RestoreRange(Walk(end.table, [], 0, 2 * PAGE_SIZE, 0)).table;
            && Valid(t) && PoisonCode(end) == ENOMEM
            && r == map[0 := Slot(L4K, EMPTY), PAGE_SIZE := Page()]
  {
    var t := map[0 := Page(), PAGE_SIZE := Page()];
    var w := Fresh(t, 0, 2 * PAGE_SIZE, 1);
    assert Covers(t, 0, 0);
    CoveringIs(t, 0, 0);
    var one := PoisonOne(w);
    assert one.table == map[0 := Slot(L4K, EMPTY), PAGE_SIZE := Page()];
    assert Covers(one.table, PAGE_SIZE, PAGE_SIZE);
    CoveringIs(one.table, PAGE_SIZE, PAGE_SIZE);
    assert PoisonRange(w) == PoisonRange(one) == one;
    NothingSavedNothingRestored(Walk(one.table, [], 0, 2 * PAGE_SIZE, 0));
  }

  // ---- what a poison covers ----

  /** A table with the leaves that start in a range poisoned. */
  function PoisonedBetween(t: Table, lo: nat, hi: int): Table {
    map s | s in t :: if lo <= s < hi then Poisoned(t[s]) else t[s]
  }

  lemma PageAligned(s: nat, l: Level)
    requires Aligned(s, l)
    ensures s % PAGE_SIZE == 0 && (s + LevelSize(l)) % PAGE_SIZE == 0
  {
    match l
    case L4K => WholePages(s, s / 0x1000, 1);
    case L2M => WholePages(s, 0x200 * (s / 0x20_0000), 0x200);
    case L1G => WholePages(s, 0x4_0000 * (s / 0x4000_0000), 0x4_0000);
  }

  lemma WholePages(s: nat, q: nat, pages: nat)
    requires s == 0x1000 * q
    ensures s % PAGE_SIZE == 0 && (s + 0x1000 * pages) % PAGE_SIZE == 0
  {
  }

  lemma SamePage(a: nat, b: nat)
    requires a % PAGE_SIZE == 0 && b % PAGE_SIZE == 0 && a <= b < a + PAGE_SIZE
    ensures a == b
  {
  }

  lemma LeavesApart(t: Table, c: nat, d: nat, va: nat)
    requires Laid(t) && c in t && Covers(t, d, va) && c + LevelSize(t[c].level) <= va
    ensures c + LevelSize(t[c].level) <= d
  {
    assert EndsBefore(t, c, d) && EndsBefore(t, d, c);
  }

  /** A leaf starts where one ends when it covers an address less than a page beyond. */
  lemma NextLeafStarts(t: Table, c: nat, d: nat, va: nat, o: nat)
    requires Laid(t) && c in t && Covers(t, d, va) && va == c + LevelSize(t[c].level) + o && o < PAGE_SIZE
    ensures d == c + LevelSize(t[c].level)
  {
    LeavesApart(t, c, d, va);
    PageAligned(c, t[c].level);
    PageAligned(d, t[d].level);
    SamePage(c + LevelSize(t[c].level), d);
  }

  lemma EnteredNext(t: Table, s: Saved, va: nat, o: nat)
    requires Laid(t) && SavesLeaf(t, s) && o < PAGE_SIZE && Lookup(t, s.va).value + o == s.va
    requires va == s.End() && Lookup(t, va).Some?
    ensures Lookup(t, va).value + o == va
  {
    NextLeafStarts(t, Lookup(t, s.va).value, Lookup(t, va).value, va, o);
  }

  /** From less than a page inside a leaf on, every leaf is entered at the same distance. */
  lemma {:induction false} EnteredAlike(t: Table, saved: seq<Saved>, lo: nat, hi: nat, o: nat, i: nat)
    requires Laid(t) && Saves(t, saved, lo, hi) && i < |saved|
    requires o <= lo && o < PAGE_SIZE && Covers(t, lo - o, lo)
    ensures Lookup(t, saved[i].va).Some? && Lookup(t, saved[i].va).value + o == saved[i].va
  {
    assert SavesLeaf(t, saved[i]);
    if i == 0 {
      CoveringIs(t, lo, lo - o);
    } else {
      EnteredAlike(t, saved, lo, hi, o, i - 1);
      assert SavesLeaf(t, saved[i - 1]);
      assert saved[i].va == saved[i - 1].End();
      EnteredNext(t, saved[i - 1], saved[i].va, o);
    }
  }

  /** The saved address whose counted range an address lies in. */
  lemma {:induction false} SavedAround(t: Table, saved: seq<Saved>, lo: nat, hi: nat, a: nat) returns (i: nat)
    requires Saves(t, saved, lo, hi) && lo <= a < hi
    ensures i < |saved| && saved[i].va <= a < saved[i].End()
    decreases |saved|
  {
    var n := |saved| - 1;
    if a < saved[n].va {
      SavesFirst(t, saved, lo, hi);
      i := SavedAround(t, saved[..n], lo, saved[n].va, a);
    } else {
      i := n;
    }
  }

  /** From less than a page inside a leaf on, the leaves hit follow one another without a gap. */
  lemma HitBetween(t: Table, saved: seq<Saved>, lo: nat, hi: nat, o: nat, s: nat)
    requires Laid(t) && Saves(t, saved, lo, hi) && s in t
    requires o <= lo && o < PAGE_SIZE && Covers(t, lo - o, lo)
    ensures lo <= hi
    ensures Hit(t, saved, s) <==> lo - o <= s < hi - o
  {
    if saved != [] {
      SavesBetween(t, saved, lo, hi, 0);
    }
    if Hit(t, saved, s) {
      var i :| 0 <= i < |saved| && Covers(t, s, saved[i].va);
      EnteredAlike(t, saved, lo, hi, o, i);
      CoveringIs(t, saved[i].va, s);
      SavesBetween(t, saved, lo, hi, i);
    }
    if lo - o <= s < hi - o {
      var i := SavedAround(t, saved, lo, hi, s + o);
      EnteredAlike(t, saved, lo, hi, o, i);
      assert SavesLeaf(t, saved[i]);
      OnlyLeafCovers(t, Lookup(t, saved[i].va).value, s, s);
      assert Covers(t, s, saved[i].va);
    }
  }

  /** Where the walk stands, less the distance, a leaf ends: the last one it came to. */
  lemma LastLeafEnds(t: Table, saved: seq<Saved>, lo: nat, hi: nat, o: nat) returns (s: nat)
    requires Laid(t) && Saves(t, saved, lo, hi) && saved != []
    requires o <= lo && o < PAGE_SIZE && Covers(t, lo - o, lo)
    ensures s in t && s + o == saved[|saved| - 1].va && s + LevelSize(t[s].level) == hi - o
  {
    var n := |saved| - 1;
    EnteredAlike(t, saved, lo, hi, o, n);
    assert SavesLeaf(t, saved[n]);
    s := saved[n].va - o;
  }

  lemma ContiguousFrom(t: Table, saved: seq<Saved>, lo: nat, hi: nat, c: nat, o: nat, top: int)
    requires Laid(t) && Saves(t, saved, lo, hi) && Covers(t, c, lo) && o == lo - c < PAGE_SIZE && top == hi - o
    ensures lo <= hi && PoisonedAt(t, saved) == PoisonedBetween(t, c, top)
  {
    HitBetween(t, saved, lo, hi, o, c);
    forall s | s in t
      ensures Hit(t, saved, s) <==> c <= s < top
    {
      HitBetween(t, saved, lo, hi, o, s);
    }
    HitsBetween(t, saved, c, top);
  }

  /** From less than a page inside a leaf on, as ioremap() returns addresses, a poison invalidates
      a contiguous run of leaves, that first one included. */
  lemma PoisonIsContiguous(t: Table, va: nat, len: nat, memory: nat, c: nat, end: Walk)
    requires Laid(t) && Covers(t, c, va) && va - c < PAGE_SIZE
    requires end == PoisonRange(Fresh(t, va, len, memory))
    ensures va <= end.va && end.table == PoisonedBetween(t, c, end.va - (va - c))
  {
    PoisonEnds(t, va, len, memory, end);
    ContiguousEnd(t, va, va + len, end, c);
  }

  lemma ContiguousEnd(t: Table, va: nat, limit: nat, end: Walk, c: nat)
    requires PoisonedTo(t, va, limit, end) && Covers(t, c, va) && va - c < PAGE_SIZE
    ensures va <= end.va && end.table == PoisonedBetween(t, c, end.va - (va - c))
  {
    ContiguousFrom(t, end.saved, va, end.va, c, va - c, end.va - (va - c));
  }

  lemma HitsBetween(t: Table, saved: seq<Saved>, lo: nat, hi: int)
    requires forall s :: s in t ==> (Hit(t, saved, s) <==> lo <= s < hi)
    ensures PoisonedAt(t, saved) == PoisonedBetween(t, lo, hi)
  {
  }

  /** The leaf that covers an address is one of those poisoned. */
  ghost predicate Shut(t: Table, saved: seq<Saved>, a: nat) {
    exists s :: Covers(t, s, a) && Hit(t, saved, s)
  }

  /** A leaf of `t` ends after `va` and in `[lo, hi)`. */
  ghost predicate LeafEndsIn(t: Table, va: nat, lo: nat, hi: nat) {
    exists s :: s in t && va < LeafEnd(t, s) && lo <= LeafEnd(t, s) < hi
  }

  function LeafEnd(t: Table, s: nat): nat
    requires s in t
  {
    s + LevelSize(t[s].level)
  }

  /** A successful walk over `[va, limit)` that entered its first leaf `c` less than a page in. */
  ghost predicate Done(t: Table, c: nat, va: nat, limit: nat, saved: seq<Saved>, hi: nat) {
    && Laid(t) && Covers(t, c, va) && va - c < PAGE_SIZE
    && Saves(t, saved, va, hi) && va <= limit <= hi
    && (forall i :: 0 <= i < |saved| ==> saved[i].va < limit)
  }

  /** Every leaf hit starts, less the distance, before the limit. */
  lemma HitBelow(t: Table, c: nat, va: nat, limit: nat, saved: seq<Saved>, hi: nat, s: nat)
    requires Done(t, c, va, limit, saved, hi) && s in t && Hit(t, saved, s)
    ensures s + (va - c) < limit
  {
    var i :| 0 <= i < |saved| && Covers(t, s, saved[i].va);
    EnteredAlike(t, saved, va, hi, va - c, i);
    CoveringIs(t, saved[i].va, s);
  }

  lemma EndBeyond(t: Table, c: nat, va: nat, limit: nat, saved: seq<Saved>, hi: nat)
    requires Done(t, c, va, limit, saved, hi) && limit > va
    requires !LeafEndsIn(t, va, limit - (va - c), limit)
    ensures hi - (va - c) >= limit
  {
    var s := LastLeafEnds(t, saved, va, hi, va - c);
    SavesBetween(t, saved, va, hi, |saved| - 1);
    assert va < LeafEnd(t, s) == hi - (va - c);
  }

  lemma ShutBefore(t: Table, c: nat, va: nat, limit: nat, saved: seq<Saved>, hi: nat, a: nat)
    requires Done(t, c, va, limit, saved, hi) && va <= a < hi - (va - c)
    ensures Shut(t, saved, a)
  {
    var i := SavedAround(t, saved, va, hi, a + (va - c));
    EnteredAlike(t, saved, va, hi, va - c, i);
    assert SavesLeaf(t, saved[i]);
    var s := saved[i].va - (va - c);
    assert Covers(t, s, saved[i].va);
    assert Covers(t, s, a);
  }

  lemma NotShutAt(t: Table, c: nat, va: nat, limit: nat, saved: seq<Saved>, hi: nat, s: nat)
    requires Done(t, c, va, limit, saved, hi) && s in t && limit - (va - c) <= LeafEnd(t, s) < limit
    ensures !Shut(t, saved, LeafEnd(t, s))
  {
    var e := LeafEnd(t, s);
    forall r | Covers(t, r, e)
      ensures !Hit(t, saved, r)
    {
      LeavesApart(t, s, r, e);
      if Hit(t, saved, r) {
        HitBelow(t, c, va, limit, saved, hi, r);
      }
    }
  }

  lemma ShutIff(t: Table, c: nat, va: nat, limit: nat, saved: seq<Saved>, hi: nat)
    requires Done(t, c, va, limit, saved, hi)
    ensures (forall a :: va <= a < limit ==> Shut(t, saved, a)) <==> !LeafEndsIn(t, va, limit - (va - c), limit)
  {
    if LeafEndsIn(t, va, limit - (va - c), limit) {
      var s :| s in t && va < LeafEnd(t, s) && limit - (va - c) <= LeafEnd(t, s) < limit;
      NotShutAt(t, c, va, limit, saved, hi, s);
    } else if limit > va {
      EndBeyond(t, c, va, limit, saved, hi);
      forall a | va <= a < limit
        ensures Shut(t, saved, a)
      {
        ShutBefore(t, c, va, limit, saved, hi, a);
      }
    }
  }

  /** When a successful poison covers its range: with a start at distance `va - c` into its leaf,
      less than a page as ioremap() guarantees, every address of the range lies in a poisoned leaf
      if and only if no leaf ends in the last `va - c` bytes of the range. */
  lemma PoisonCoversRangeIff(t: Table, va: nat, len: nat, memory: nat, c: nat, end: Walk)
    requires Laid(t) && Covers(t, c, va) && va - c < PAGE_SIZE
    requires end == PoisonRange(Fresh(t, va, len, memory)) && PoisonCode(end) == 0
    ensures (forall a :: va <= a < va + len ==> Shut(t, end.saved, a)) <==> !LeafEndsIn(t, va, c + len, va + len)
  {
    PoisonEnds(t, va, len, memory, end);
    ShutIff(t, c, va, va + len, end.saved, end.va);
  }

  /** A present leaf of the table lies, if only in part, in `[lo, hi)`. */
  ghost predicate PresentIn(t: Table, lo: nat, hi: nat) {
    exists s, a: nat :: Covers(t, s, a) && lo <= a < hi && t[s].entry.present
  }

  /** A present leaf of the table starts after `va` and in `[lo, hi)`. */
  ghost predicate PresentStartsIn(t: Table, va: nat, lo: nat, hi: nat) {
    exists s :: s in t && va < s && lo <= s < hi && t[s].entry.present
  }

  lemma StillPresent(t: Table, c: nat, va: nat, limit: nat, saved: seq<Saved>, hi: nat, s: nat)
    requires Done(t, c, va, limit, saved, hi)
    requires s in t && va < s && limit - (va - c) <= s < limit && t[s].entry.present
    ensures PresentIn(PoisonedAt(t, saved), va, limit)
  {
    if Hit(t, saved, s) {
      HitBelow(t, c, va, limit, saved, hi, s);
    }
    assert Covers(PoisonedAt(t, saved), s, s);
  }

  lemma PresentLate(t: Table, c: nat, va: nat, limit: nat, saved: seq<Saved>, hi: nat, s: nat, a: nat)
    requires Done(t, c, va, limit, saved, hi) && Covers(t, s, a) && va <= a < limit
    requires PoisonedAt(t, saved)[s].entry.present
    ensures t[s].entry.present && va < s && limit - (va - c) <= s < limit
  {
    var o := va - c;
    assert !Hit(t, saved, s);
    HitBetween(t, saved, va, hi, o, s);
    var last := LastLeafEnds(t, saved, va, hi, o);
    SavesBetween(t, saved, va, hi, |saved| - 1);
    if s < c {
      OnlyLeafCovers(t, c, s, c);
    }
  }

  lemma PresentIff(t: Table, c: nat, va: nat, limit: nat, saved: seq<Saved>, hi: nat, p: Table)
    requires Done(t, c, va, limit, saved, hi) && p == PoisonedAt(t, saved)
    ensures PresentIn(p, va, limit) <==> PresentStartsIn(t, va, limit - (va - c), limit)
  {
    if PresentStartsIn(t, va, limit - (va - c), limit) {
      var s :| s in t && va < s && limit - (va - c) <= s < limit && t[s].entry.present;
      StillPresent(t, c, va, limit, saved, hi, s);
    }
    forall s: nat, a: nat | Covers(p, s, a) && va <= a < limit && p[s].entry.present
      ensures PresentStartsIn(t, va, limit - (va - c), limit)
    {
      PoisonedCovers(t, saved, s, a);
      PresentLate(t, c, va, limit, saved, hi, s, a);
    }
  }

  /** When a successful poison leaves nothing of its range present: if and only if no present leaf
      starts in the last `va - c` bytes of the range. From the start of a leaf there are none. */
  lemma PoisonLeavesNothingPresentIff(t: Table, va: nat, len: nat, memory: nat, c: nat, end: Walk)
    requires Laid(t) && Covers(t, c, va) && va - c < PAGE_SIZE
    requires end == PoisonRange(Fresh(t, va, len, memory)) && PoisonCode(end) == 0
    ensures !PresentIn(end.table, va, va + len) <==> !PresentStartsIn(t, va, c + len, va + len)
  {
    PoisonEnds(t, va, len, memory, end);
    PresentIff(t, c, va, va + len, end.saved, end.va, end.table);
  }

  /** Adding the distance `o` changes the page in which the last byte of a range lies when a page
      boundary `m` lies in `[c + len, c + o + len)`, */
  lemma BoundaryMoves(c: nat, o: nat, len: nat, m: nat)
    requires c % PAGE_SIZE == 0 && m % PAGE_SIZE == 0 && len > 0 && c + len <= m < c + o + len
    ensures (o + len - 1) / PAGE_SIZE != (len - 1) / PAGE_SIZE
  {
    var q := (m - c) / PAGE_SIZE;
    assert m - c == q * PAGE_SIZE;
  }

  /** and only then. */
  lemma MovedBoundary(c: nat, o: nat, len: nat) returns (m: nat)
    requires c % PAGE_SIZE == 0 && o < PAGE_SIZE && len > 0 && (o + len - 1) / PAGE_SIZE != (len - 1) / PAGE_SIZE
    ensures m % PAGE_SIZE == 0 && c + len <= m < c + o + len
  {
    m := c + (o + len - 1) / PAGE_SIZE * PAGE_SIZE;
  }

  /** For a mapping of 4 KiB pages that can be told from the two numbers alone. */
  lemma PoisonCoversPagesIff(t: Table, va: nat, len: nat, memory: nat, c: nat, end: Walk)
    requires Laid(t) && Covers(t, c, va) && len > 0
    requires forall s :: s in t ==> t[s].level == L4K
    requires end == PoisonRange(Fresh(t, va, len, memory)) && PoisonCode(end) == 0
    ensures (forall a :: va <= a < va + len ==> Shut(t, end.saved, a))
            <==> (va % PAGE_SIZE + len - 1) / PAGE_SIZE == (len - 1) / PAGE_SIZE
  {
    PoisonEnds(t, va, len, memory, end);
    ShutIff(t, c, va, va + len, end.saved, end.va);
    PageWindowIff(t, c, va, len, end.saved, end.va);
  }

  lemma PageWindowIff(t: Table, c: nat, va: nat, len: nat, saved: seq<Saved>, hi: nat)
    requires Done(t, c, va, va + len, saved, hi) && len > 0
    requires forall s :: s in t ==> t[s].level == L4K
    ensures LeafEndsIn(t, va, va + len - (va - c), va + len)
            <==> (va % PAGE_SIZE + len - 1) / PAGE_SIZE != (len - 1) / PAGE_SIZE
  {
    var o := va - c;
    PageAligned(c, t[c].level);
    PageOffset(c, o);
    if LeafEndsIn(t, va, c + len, va + len) {
      WindowMoves(t, c, o, len);
    } else if (o + len - 1) / PAGE_SIZE != (len - 1) / PAGE_SIZE {
      var m := MovedBoundary(c, o, len);
      BoundaryIsLeafEnd(t, c, va, va + len, saved, hi, m);
    }
  }

  lemma WindowMoves(t: Table, c: nat, o: nat, len: nat)
    requires Laid(t) && c % PAGE_SIZE == 0 && len > 0 && LeafEndsIn(t, c + o, c + len, c + o + len)
    ensures (o + len - 1) / PAGE_SIZE != (len - 1) / PAGE_SIZE
  {
    var s :| s in t && c + o < LeafEnd(t, s) && c + len <= LeafEnd(t, s) < c + o + len;
    PageAligned(s, t[s].level);
    BoundaryMoves(c, o, len, LeafEnd(t, s));
  }

  lemma BoundaryIsLeafEnd(t: Table, c: nat, va: nat, limit: nat, saved: seq<Saved>, hi: nat, m: nat)
    requires Done(t, c, va, limit, saved, hi) && m % PAGE_SIZE == 0 && va < limit && limit - (va - c) <= m < limit
    requires forall s :: s in t ==> t[s].level == L4K
    ensures LeafEndsIn(t, va, limit - (va - c), limit)
  {
    var s := LastLeafEnds(t, saved, va, hi, va - c);
    SavesBetween(t, saved, va, hi, |saved| - 1);
    PageAligned(s, t[s].level);
    NoPageBetween(s, m);
    assert va < LeafEnd(t, s) <= m;
  }

  lemma PageOffset(c: nat, o: nat)
    requires c % PAGE_SIZE == 0 && o < PAGE_SIZE
    ensures (c + o) % PAGE_SIZE == o
  {
  }

  lemma NoPageBetween(s: nat, m: nat)
    requires s % PAGE_SIZE == 0 && m % PAGE_SIZE == 0 && s < m
    ensures s + PAGE_SIZE <= m
  {
  }

  /** From inside a page, the page its end reaches into can be missed although the poison
      succeeds. */
  lemma StartInsidePageMissesItsEnd()
    ensures var t := map[0 := Page(), PAGE_SIZE := Page()];
            var end := PoisonRange(Fresh(t, 0xff0, 0x20, 2));
            && Valid(t) && PoisonCode(end) == 0
            && Covers(end.table, PAGE_SIZE, 0xff0 + 0x1f) && end.table[PAGE_SIZE].entry.present
  {
    var t := map[0 := Page(), PAGE_SIZE := Page()];
    var w := Fresh(t, 0xff0, 0x20, 2);
    assert Covers(t, 0, 0xff0);
    CoveringIs(t, 0xff0, 0);
    assert CanPoison(w);
    assert PoisonRange(w) == PoisonRange(PoisonOne(w)) == PoisonOne(w);
  }

  // ---- the code ----

  class PageTables {
    var slots: Table

    constructor (t: Table)
      ensures slots == t
    {
      slots := t;
    }

    /** The walk down the levels. */
    method LookupAddress(va: nat) returns (at: Option<nat>)
      requires Laid(slots)
      ensures at == Lookup(slots, va)
    {
      var g, m, k := va - va % 0x4000_0000, va - va % 0x20_0000, va - va % PAGE_SIZE;
      at := None;
      if g in slots && slots[g].level == L1G {
        at := Some(g);
      } else if m in slots && slots[m].level == L2M {
        at := Some(m);
      } else if k in slots && slots[k].level == L4K {
        at := Some(k);
      }
      WalkFinds(slots, va, at);
      if at.Some? && slots[at.value].level != L4K && slots[at.value].entry == EMPTY {
        at := None;
      }
    }
  }

  /** What the walk down the levels comes to is the slot that covers the address. */
  lemma WalkFinds(t: Table, va: nat, at: Option<nat>)
    requires Laid(t)
    requires var g, m, k := va - va % 0x4000_0000, va - va % 0x20_0000, va - va % PAGE_SIZE;
             at == if g in t && t[g].level == L1G then Some(g)
                   else if m in t && t[m].level == L2M then Some(m)
                   else if k in t && t[k].level == L4K then Some(k) else None
    ensures Covering(t, va) == at
  {
    if at.Some? {
      CoveringIs(t, va, at.value);
    } else if s :| Covers(t, s, va) {
      AlignedBase(s, va, t[s].level);
    }
  }

  lemma AlignedBase(s: nat, va: nat, l: Level)
    requires Aligned(s, l) && s <= va < s + LevelSize(l)
    ensures va - va % LevelSize(l) == s
  {
  }

  class Mapping {
    const tables: PageTables
    const va: nat
    const len: nat
    var ptes: seq<Saved>

    constructor (tables: PageTables, va: nat, len: nat)
      ensures this.tables == tables && this.va == va && this.len == len && ptes == []
    {
      this.tables, this.va, this.len, ptes := tables, va, len, [];
    }

    /** The first saved leaf for an address; their number when there is none. */
    method FindPte(a: nat) returns (i: nat)
      ensures i == FindSaved(ptes, a)
    {
      i := 0;
      while i < |ptes|
        invariant i <= |ptes| && FindSaved(ptes, a) == i + FindSaved(ptes[i..], a)
      {
        if ptes[i].va == a { return; }
        i := i + 1;
      }
    }

    /** Poisons the mapping's leaves; on failure it forgets them without restoring them. */
    method Poison(memory: nat) returns (err: int)
      requires Laid(tables.slots) && ptes == []
      modifies this, tables
      ensures var end := PoisonRange(old(Fresh(tables.slots, va, len, memory)));
              && err == PoisonCode(end)
              && tables.slots == end.table
              && ptes == if err == 0 then end.saved else []
    {
      ghost var w0 := Fresh(tables.slots, va, len, memory);
      var a: nat, remain: int, spare: nat := va, len, memory;
      while remain > 0
        invariant Laid(tables.slots)
        invariant PoisonRange(Walk(tables.slots, ptes, a, remain, spare)) == PoisonRange(w0)
      {
        ghost var w := Walk(tables.slots, ptes, a, remain, spare);
        var at := tables.LookupAddress(a);
        if at.None? {
          ptes := [];
          return ENOENT;
        }
        if spare == 0 {
          ptes := [];
          return ENOMEM;
        }
        spare := spare - 1;
        StaysLaid(tables.slots, at.value, Poisoned(tables.slots[at.value]));
        var slot := tables.slots[at.value];
        var entry := if slot.level == L4K then EMPTY else MakeInvalid(slot.entry);
        tables.slots := tables.slots[at.value := slot.(entry := entry)];
        ptes := ptes + [Saved(a, slot.level, slot.entry)];
        remain := remain - LevelSize(slot.level);
        a := a + LevelSize(slot.level);
        assert Walk(tables.slots, ptes, a, remain, spare) == PoisonOne(w);
      }
      err := 0;
    }

    /** Puts the saved leaves back. */
    method Restore()
      requires Laid(tables.slots)
      modifies this, tables
      ensures var end := RestoreRange(old(Walk(tables.slots, ptes, va, len, 0)));
              tables.slots == end.table && ptes == end.saved
    {
      ghost var w0 := Walk(tables.slots, ptes, va, len, 0);
      var a: nat, remain: int := va, len;
      while remain > 0
        invariant Laid(tables.slots)
        invariant RestoreRange(Walk(tables.slots, ptes, a, remain, 0)) == RestoreRange(w0)
      {
        ghost var w := Walk(tables.slots, ptes, a, remain, 0);
        var at := tables.LookupAddress(a);
        if at.None? {
          remain := remain - PAGE_SIZE;
          a := a + PAGE_SIZE;
        } else {
          var slot := tables.slots[at.value];
          var i := FindPte(a);
          if i == |ptes| {
            remain := remain - LevelSize(slot.level);
            a := a + LevelSize(slot.level);
          } else {
            var saved := ptes[i];
            ptes := ptes[..i] + ptes[i + 1..];
            StaysLaid(tables.slots, at.value, slot.(entry := saved.entry));
            tables.slots := tables.slots[at.value := slot.(entry := saved.entry)];
            remain := remain - LevelSize(saved.level);
            a := a + LevelSize(saved.level);
          }
        }
        assert Walk(tables.slots, ptes, a, remain, 0) == RestoreOne(w);
      }
    }
  }

  lemma StaysLaid(t: Table, c: nat, s: Slot)
    requires Laid(t) && c in t && s.level == t[c].level
    ensures Laid(t[c := s])
  {
    forall a, b | a in t && b in t
      ensures EndsBefore(t[c := s], a, b)
    {
      assert EndsBefore(t, a, b);
    }
    forall a | a in t
      ensures Aligned(a, t[c := s][a].level)
    {
      assert Aligned(a, t[a].level);
    }
  }

  /** Tracing a mapping and giving it up again leaves the page table as it was; a mapping that
      cannot be traced has lost the leaves the poison came to. */
  method TraceAndRelease(tables: PageTables, va: nat, len: nat, memory: nat) returns (err: int)
    requires Valid(tables.slots)
    modifies tables
    ensures err == PoisonCode(PoisonRange(old(Fresh(tables.slots, va, len, memory))))
    ensures tables.slots == if err == 0 then old(tables.slots)
                            else PoisonRange(old(Fresh(tables.slots, va, len, memory))).table
  {
    ghost var t := tables.slots;
    ghost var end := PoisonRange(Fresh(t, va, len, memory));
    var m := new Mapping(tables, va, len);
    err := m.Poison(memory);
    if err == 0 {
      RestoreUndoesPoison(t, va, len, memory);
      PoisonedStaysLaid(t, va, len, memory);
      RestoreIgnoresMemory(end.(va := va, remain := len), 0);
      m.Restore();
    }
  }

  lemma PoisonedStaysLaid(t: Table, va: nat, len: nat, memory: nat)
    requires Laid(t)
    ensures Laid(PoisonRange(Fresh(t, va, len, memory)).table)
  {
    var end := PoisonRange(Fresh(t, va, len, memory));
    PoisonEnds(t, va, len, memory, end);
    PoisonedLaid(t, end.saved);
  }

  lemma {:induction false} RestoreIgnoresMemory(w: Walk, memory: nat)
    ensures RestoreRange(w.(memory := memory)) == RestoreRange(w).(memory := memory)
    decreases w.Left()
  {
    if w.remain > 0 {
      RestoreOneIgnoresMemory(w, memory);
      RestoreIgnoresMemory(RestoreOne(w), memory);
    }
  }

  lemma RestoreOneIgnoresMemory(w: Walk, memory: nat)
    ensures RestoreOne(w.(memory := memory)) == RestoreOne(w).(memory := memory)
  {
  }
}
