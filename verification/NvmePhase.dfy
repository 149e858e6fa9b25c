/** The completion queue as the host sees it: slots polled for the phase tag (section 4.6 of
NVM Express revision 1.4). The card fills slots, the host empties them, in any interleaving. */
module NvmePhase {
  import opened Bytes
  import opened NvmeQueue
  import opened NvmeStatus

  function Capacity(q: Queue): nat {
    if q.cqSize == 0 then U16 else q.cqSize
  }

  /** The slot and the phase of the `k`-th completion after a reset. */
  function Lap(k: nat, cap: nat): (r: (nat, nat))
    requires cap > 0
    ensures r.0 < cap && r.1 < 2
  {
    if k == 0 then (0, 1) else Following(Lap(k - 1, cap), cap)
  }

  function Following(at: (nat, nat), cap: nat): (nat, nat)
    requires at.1 < 2
  {
    if at.0 + 1 == cap then (0, 1 - at.1) else (at.0 + 1, at.1)
  }

  lemma {:induction false} LapAdd(k: nat, d: nat, cap: nat)
    requires 0 < cap && d <= cap
    ensures var at := Lap(k, cap);
            Lap(k + d, cap) == if at.0 + d < cap then (at.0 + d, at.1) else (at.0 + d - cap, 1 - at.1)
  {
    if d != 0 {
      LapAdd(k, d - 1, cap);
    }
  }

  lemma LapSmall(k: nat, cap: nat)
    requires k < cap
    ensures Lap(k, cap) == (k, 1)
  {
  }

  lemma LapDistinct(i: nat, j: nat, cap: nat)
    requires i < j < i + cap
    ensures Lap(i, cap).0 != Lap(j, cap).0
  {
    LapAdd(i, j - i, cap);
  }

  /** The completion queue, host memory, what has been posted, and the host's side: its head,
      the phase it expects next, and what it has taken. */
  datatype System = System(queue: Queue, memory: map<nat, Completion>, posted: seq<Completion>,
                           head: nat, phase: nat, taken: seq<Completion>)
  {
    function Slot(p: nat): Completion {
      Found(memory, (queue.cqAddr + p * CQ_ENTRY) % U64)
    }
  }

  /** Memory never written reads as zero. */
  function Found(memory: map<nat, Completion>, a: nat): Completion {
    if a in memory then memory[a] else Completion(0, 0, 0, 0, 0)
  }

  datatype Act =
    | Completes(c: Command, r: Reply)
    | QueueMoves(queue: Queue)
    | Elsewhere(memory: map<nat, Completion>)
    | HostPolls

  ghost predicate Allowed(s: System, a: Act) {
    match a
    case Completes(c, r) => r.delivered && r.status % 2 == 0 && |s.posted| - |s.taken| < Capacity(s.queue)
    case QueueMoves(q) =>
      q == s.queue.(sqHead := q.sqHead, sqTail := q.sqTail, sqAddr := q.sqAddr, sqSize := q.sqSize, cqHead := q.cqHead)
    case Elsewhere(m) =>
      forall p :: 0 <= p < Capacity(s.queue) ==> s.(memory := m).Slot(p) == s.Slot(p)
    case HostPolls => true
  }

  function Post(s: System, c: Command, r: Reply): System {
    var cpl := CompletionFor(s.queue, c, r);
    s.(queue := AdvanceCq(s.queue), memory := s.memory[CqSlot(s.queue) := cpl], posted := s.posted + [cpl])
  }

  /** The host takes the completion at its head when its phase bit is the expected one. */
  function Poll(s: System): System
    requires s.phase < 2
  {
    var cpl := s.Slot(s.head);
    if cpl.status % 2 != s.phase then s
    else
      var next := Following((s.head, s.phase), Capacity(s.queue));
      s.(taken := s.taken + [cpl], head := next.0, phase := next.1)
  }

  function Next(s: System, a: Act): System
    requires s.phase < 2
  {
    match a
    case Completes(c, r) => Post(s, c, r)
    case QueueMoves(q) => s.(queue := q)
    case Elsewhere(m) => s.(memory := m)
    case HostPolls => Poll(s)
  }

  /** A queue just created on zeroed memory. */
  ghost predicate Start(s: System) {
    && s.queue.cqTail == 0 && s.queue.cqPhase == 1 && s.queue.cqSize < U16
    && s.queue.cqAddr + Capacity(s.queue) * CQ_ENTRY <= U64
    && (forall p :: 0 <= p < Capacity(s.queue) ==> s.Slot(p).status == 0)
    && s.posted == [] && s.taken == [] && s.head == 0 && s.phase == 1
  }

  /** The last `Capacity` completions are in their slots; the slots not used yet are blank. */
  ghost predicate SlotHolds(s: System, i: nat) {
    var n, cap := |s.posted|, Capacity(s.queue);
    && (i < n <= i + cap ==> s.Slot(Lap(i, cap).0) == s.posted[i])
    && (i < n ==> s.posted[i].status % 2 == Lap(i, cap).1)
    && (n <= i < cap ==> s.Slot(i).status % 2 == 0)
  }

  ghost predicate Inv(s: System) {
    var n, h, cap := |s.posted|, |s.taken|, Capacity(s.queue);
    && s.queue.cqSize < U16 && s.queue.cqAddr + cap * CQ_ENTRY <= U64
    && h <= n <= h + cap
    && s.taken == s.posted[..h]
    && (s.queue.cqTail, s.queue.cqPhase) == Lap(n, cap)
    && (s.head, s.phase) == Lap(h, cap)
    && (forall i: nat :: SlotHolds(s, i))
  }

  lemma AdvanceIsFollowing(q: Queue)
    requires q.cqSize < U16 && q.cqTail < Capacity(q) && q.cqPhase < 2
    ensures AdvanceCq(q) == q.(cqTail := Following((q.cqTail, q.cqPhase), Capacity(q)).0,
                               cqPhase := Following((q.cqTail, q.cqPhase), Capacity(q)).1)
  {
  }

  lemma SlotAfterPost(s: System, c: Command, r: Reply, p: nat)
    requires s.queue.cqAddr + Capacity(s.queue) * CQ_ENTRY <= U64
    requires s.queue.cqTail < Capacity(s.queue) && p < Capacity(s.queue)
    ensures Post(s, c, r).Slot(p) == if p == s.queue.cqTail then CompletionFor(s.queue, c, r) else s.Slot(p)
  {
  }

  lemma PostKeepsSlot(s: System, c: Command, r: Reply, i: nat)
    requires Inv(s) && Allowed(s, Completes(c, r))
    ensures SlotHolds(Post(s, c, r), i)
  {
    var n, cap := |s.posted|, Capacity(s.queue);
    var s' := Post(s, c, r);
    assert Capacity(s'.queue) == cap && |s'.posted| == n + 1;
    assert SlotHolds(s, i);
    if i <= n < i + cap {
      SlotAfterPost(s, c, r, Lap(i, cap).0);
      if i < n {
        LapDistinct(i, n, cap);
      }
    } else if n + 1 <= i < cap {
      LapSmall(n, cap);
      SlotAfterPost(s, c, r, i);
    }
  }

  lemma PostKeepsInv(s: System, c: Command, r: Reply)
    requires Inv(s) && Allowed(s, Completes(c, r))
    ensures Inv(Post(s, c, r))
  {
    AdvanceIsFollowing(s.queue);
    forall i: nat ensures SlotHolds(Post(s, c, r), i) {
      PostKeepsSlot(s, c, r, i);
    }
  }

  /** A poll finds a completion exactly when one is unconsumed, and it is the oldest. */
  lemma PollFindsOldest(s: System)
    requires Inv(s)
    ensures s.Slot(s.head).status % 2 == s.phase <==> |s.taken| < |s.posted|
    ensures |s.taken| < |s.posted| ==> s.Slot(s.head) == s.posted[|s.taken|]
  {
    var n, h, cap := |s.posted|, |s.taken|, Capacity(s.queue);
    assert SlotHolds(s, h);
    if h == n {
      if n < cap {
        LapSmall(n, cap);
      } else {
        assert SlotHolds(s, n - cap);
        LapAdd(n - cap, cap, cap);
      }
    }
  }

  lemma PollKeepsInv(s: System)
    requires Inv(s)
    ensures Inv(Poll(s))
  {
    PollFindsOldest(s);
    var s' := Poll(s);
    forall i: nat ensures SlotHolds(s', i) {
      assert SlotHolds(s, i);
    }
  }

  lemma NextKeepsInv(s: System, a: Act)
    requires Inv(s) && Allowed(s, a)
    ensures Inv(Next(s, a))
  {
    match a
    case Completes(c, r) => PostKeepsInv(s, c, r);
    case HostPolls => PollKeepsInv(s);
    case QueueMoves(q) =>
      forall i: nat ensures SlotHolds(Next(s, a), i) {
        assert SlotHolds(s, i);
      }
    case Elsewhere(m) =>
      forall i: nat ensures SlotHolds(Next(s, a), i) {
        assert SlotHolds(s, i);
      }
  }

  ghost predicate Run(ss: seq<System>, acts: seq<Act>) {
    && |ss| == |acts| + 1 && Start(ss[0])
    && forall i {:trigger Acts(ss, acts, i)} :: 0 <= i < |acts| ==> Acts(ss, acts, i)
  }

  /** Act `i` leads from one state to the next. */
  ghost predicate Acts(ss: seq<System>, acts: seq<Act>, i: nat) {
    && i < |acts| && i + 1 < |ss|
    && ss[i].phase < 2 && Allowed(ss[i], acts[i]) && ss[i + 1] == Next(ss[i], acts[i])
  }

  lemma {:induction false} RunKeepsInv(ss: seq<System>, acts: seq<Act>, i: nat)
    requires Run(ss, acts) && i < |ss|
    ensures Inv(ss[i])
  {
    if i == 0 {
      var s := ss[0];
      forall k: nat ensures SlotHolds(s, k) {
      }
    } else {
      RunKeepsInv(ss, acts, i - 1);
      assert Acts(ss, acts, i - 1);
      NextKeepsInv(ss[i - 1], acts[i - 1]);
    }
  }

  /** In every run the host has taken a prefix of what the card posted, in order and once each;
      and whenever it polls it finds a completion exactly when one is left, the oldest. */
  lemma HostTakesWhatWasPosted(ss: seq<System>, acts: seq<Act>, i: nat)
    requires Run(ss, acts) && i < |ss|
    ensures ss[i].phase < 2 && ss[i].taken <= ss[i].posted
    ensures Poll(ss[i]).taken == if ss[i].taken == ss[i].posted then ss[i].taken
                                 else ss[i].posted[..|ss[i].taken| + 1]
  {
    RunKeepsInv(ss, acts, i);
    PollFindsOldest(ss[i]);
  }

  /** The bound is needed, and the card does not enforce it: one completion more than the queue
      holds overwrites the oldest unconsumed one, and the host stops seeing any. */
  lemma OverrunHidesCompletions(s: System, c: Command, r: Reply)
    requires Inv(s) && r.delivered && r.status % 2 == 0 && |s.posted| - |s.taken| == Capacity(s.queue)
    ensures Poll(Post(s, c, r)) == Post(s, c, r) && |s.taken| < |Post(s, c, r).posted|
  {
    var h, cap := |s.taken|, Capacity(s.queue);
    LapAdd(h, cap, cap);
    AdvanceIsFollowing(s.queue);
  }

  /** A queue of one entry, filled by one completion that the host has not taken yet: the next
      one leaves the host with nothing to see. */
  lemma OneEntryQueue(c: Command, r: Reply) returns (ss: seq<System>, acts: seq<Act>)
    requires r.delivered && r.status % 2 == 0
    ensures Run(ss, acts) && |acts| == 1 && Capacity(ss[1].queue) == |ss[1].posted| == 1 && ss[1].taken == []
    ensures ss[1].phase < 2
    ensures Poll(Post(ss[1], c, r)) == Post(ss[1], c, r) && |Post(ss[1], c, r).posted| == 2
  {
    var s := System(Queue(true, 2, 1, 0, 0, 0, 0, 0, 0, 1, 0, 1), map[], [], 0, 1, []);
    assert s.Slot(0).status == 0;
    ss, acts := [s, Post(s, c, r)], [Completes(c, r)];
    assert Acts(ss, acts, 0);
    RunKeepsInv(ss, acts, 1);
    OverrunHidesCompletions(ss[1], c, r);
  }

  // ---- the card's side of the run ----

  lemma AnswersAreEven(admin: bool, c: Command, r: Reply)
    requires Answers(admin, c, r)
    ensures r.status % 2 == 0
  {
  }

  /** A served entry is, for its completion queue, a move of the submission head followed by
      one completion. */
  lemma ServedEntryIsTwoActs(card: Card, qid: nat, entries: map<nat, Command>, r: Reply, s: System)
    requires card.Valid() && qid < MAX_QUEUES && r.delivered && s.phase < 2
    requires s.queue == card.queues[qid] && s.memory == card.host
    requires var c := Fetch(entries, s.queue.sqAddr, s.queue.sqHead);
             Answers(qid == 0, c, r) && (qid == 0 ==> !c.Touches(0))
    requires |s.posted| - |s.taken| < Capacity(s.queue)
    ensures var q := s.queue.(sqHead := Succ(s.queue.sqHead, s.queue.sqSize));
            var done := Completes(Fetch(entries, s.queue.sqAddr, s.queue.sqHead), r);
            var card' := ServeOne(card, qid, entries, r);
            && Allowed(s, QueueMoves(q)) && Allowed(Next(s, QueueMoves(q)), done)
            && Next(Next(s, QueueMoves(q)), done).queue == card'.queues[qid]
            && Next(Next(s, QueueMoves(q)), done).memory == card'.host
            && |card'.log| == |card.log| + 1
            && Next(Next(s, QueueMoves(q)), done).posted == s.posted + [card'.log[|card.log|].completion]
  {
  }

  /** The system is what a card shows of its completion queue `qid`. */
  ghost predicate Sees(s: System, card: Card, qid: nat)
    requires card.Valid() && qid < MAX_QUEUES
  {
    s.queue == card.queues[qid] && s.memory == card.host
  }

  lemma RunGrows(ss: seq<System>, acts: seq<Act>, a: Act)
    requires Run(ss, acts) && ss[|acts|].phase < 2 && Allowed(ss[|acts|], a)
    ensures Run(ss + [Next(ss[|acts|], a)], acts + [a])
  {
    var ss', acts' := ss + [Next(ss[|acts|], a)], acts + [a];
    forall i | 0 <= i < |acts'|
      ensures Acts(ss', acts', i)
    {
      if i < |acts| {
        assert Acts(ss, acts, i);
      }
    }
  }

  function CompletionsOf(dones: seq<Done>): seq<Completion> {
    seq(|dones|, k requires 0 <= k < |dones| => dones[k].completion)
  }

  /** How far a run has got: the host's side as it was, and these completions posted since. */
  ghost predicate Further(was: System, now: System, cpls: seq<Completion>) {
    && now.posted == was.posted + cpls
    && now.taken == was.taken && now.head == was.head && now.phase == was.phase
    && Capacity(now.queue) == Capacity(was.queue)
  }

  /** What was answered to each pending entry, and that every completion reached the host. */
  ghost predicate AllDelivered(q: Queue, qid: nat, entries: map<nat, Command>, rs: seq<Reply>) {
    forall k :: 0 <= k < |rs| ==> rs[k].delivered && Answers(qid == 0, PendingAt(q, entries, k), rs[k])
  }

  lemma CapacityKept(q: Queue, n: nat)
    ensures Capacity(Served(q, n)) == Capacity(q)
  {
    AdvanceCqByKeeps(q, n, 0);
  }

  /** One more entry served extends the run by its two acts. */
  lemma ServeOneGrows(card: Card, qid: nat, entries: map<nat, Command>, r: Reply, ss: seq<System>, acts: seq<Act>)
    returns (ss': seq<System>, acts': seq<Act>)
    requires card.Valid() && qid < MAX_QUEUES && r.delivered
    requires Run(ss, acts) && Sees(ss[|acts|], card, qid)
    requires var c := Fetch(entries, card.queues[qid].sqAddr, card.queues[qid].sqHead);
             Answers(qid == 0, c, r) && (qid == 0 ==> !c.Touches(0))
    requires |ss[|acts|].posted| - |ss[|acts|].taken| < Capacity(card.queues[qid])
    ensures Run(ss', acts') && Sees(ss'[|acts'|], ServeOne(card, qid, entries, r), qid)
    ensures var log := ServeOne(card, qid, entries, r).log;
            |log| == |card.log| + 1 && Further(ss[|acts|], ss'[|acts'|], [log[|card.log|].completion])
  {
    var s := ss[|acts|];
    RunKeepsInv(ss, acts, |acts|);
    ServedEntryIsTwoActs(card, qid, entries, r, s);
    var move := QueueMoves(s.queue.(sqHead := Succ(s.queue.sqHead, s.queue.sqSize)));
    var done := Completes(Fetch(entries, s.queue.sqAddr, s.queue.sqHead), r);
    RunGrows(ss, acts, move);
    RunGrows(ss + [Next(s, move)], acts + [move], done);
    ss', acts' := ss + [Next(s, move)] + [Next(Next(s, move), done)], acts + [move] + [done];
  }

  /** The last of a number of entries served, and what is logged for it. */
  lemma LastServed(card: Card, qid: nat, entries: map<nat, Command>, rs: seq<Reply>, card1: Card)
    requires card.Valid() && qid < MAX_QUEUES && Serviceable(card, qid, entries) && rs != []
    requires |rs| <= Distance(card.queues[qid].sqHead, card.queues[qid].sqTail, card.queues[qid].sqSize)
    requires card1 == Serve(card, qid, entries, rs[..|rs| - 1])
    ensures var q, n := card.queues[qid], |rs| - 1;
            && Capacity(card1.queues[qid]) == Capacity(q)
            && Fetch(entries, card1.queues[qid].sqAddr, card1.queues[qid].sqHead) == PendingAt(q, entries, n)
            && (qid == 0 ==> !PendingAt(q, entries, n).Touches(0))
            && DoneAll(q, entries, rs) == DoneAll(q, entries, rs[..n]) + [DoneAt(q, entries, n, rs[n])]
            && var log := ServeOne(card1, qid, entries, rs[n]).log;
               |log| == |card1.log| + 1 && log[|card1.log|] == DoneAt(q, entries, n, rs[n])
  {
    var q, n := card.queues[qid], |rs| - 1;
    ServeIsExact(card, qid, entries, rs[..n]);
    ServedNext(q, entries, n, rs[n]);
    CapacityKept(q, n);
    OtherQueuesAside(card1, qid, entries, rs[n]);
    DoneAllGrows(q, entries, rs);
  }

  /** A doorbell served, every completion delivered and with room for it, is such a run. */
  lemma {:induction false} ServeGrows(card: Card, qid: nat, entries: map<nat, Command>, rs: seq<Reply>,
                                      ss: seq<System>, acts: seq<Act>)
    returns (ss': seq<System>, acts': seq<Act>)
    requires card.Valid() && qid < MAX_QUEUES && Serviceable(card, qid, entries)
    requires |rs| <= Distance(card.queues[qid].sqHead, card.queues[qid].sqTail, card.queues[qid].sqSize)
    requires Run(ss, acts) && Sees(ss[|acts|], card, qid) && AllDelivered(card.queues[qid], qid, entries, rs)
    requires |ss[|acts|].posted| - |ss[|acts|].taken| + |rs| <= Capacity(card.queues[qid])
    ensures Run(ss', acts') && Sees(ss'[|acts'|], Serve(card, qid, entries, rs), qid)
    ensures Further(ss[|acts|], ss'[|acts'|], CompletionsOf(DoneAll(card.queues[qid], entries, rs)))
    decreases |rs|
  {
    if rs == [] {
      ss', acts' := ss, acts;
    } else {
      var ss1, acts1 := ServeGrows(card, qid, entries, rs[..|rs| - 1], ss, acts);
      ss', acts' := LastGrows(card, qid, entries, rs, ss[|acts|], ss1, acts1);
    }
  }

  lemma LastGrows(card: Card, qid: nat, entries: map<nat, Command>, rs: seq<Reply>,
                  s: System, ss: seq<System>, acts: seq<Act>)
    returns (ss': seq<System>, acts': seq<Act>)
    requires card.Valid() && qid < MAX_QUEUES && Serviceable(card, qid, entries) && rs != []
    requires |rs| <= Distance(card.queues[qid].sqHead, card.queues[qid].sqTail, card.queues[qid].sqSize)
    requires AllDelivered(card.queues[qid], qid, entries, rs)
    requires Run(ss, acts) && Sees(ss[|acts|], Serve(card, qid, entries, rs[..|rs| - 1]), qid)
    requires Further(s, ss[|acts|], CompletionsOf(DoneAll(card.queues[qid], entries, rs[..|rs| - 1])))
    requires |s.posted| - |s.taken| + |rs| <= Capacity(card.queues[qid])
    ensures Run(ss', acts') && Sees(ss'[|acts'|], Serve(card, qid, entries, rs), qid)
    ensures Further(s, ss'[|acts'|], CompletionsOf(DoneAll(card.queues[qid], entries, rs)))
  {
    var q, n := card.queues[qid], |rs| - 1;
    var card1 := Serve(card, qid, entries, rs[..n]);
    LastServed(card, qid, entries, rs, card1);
    assert rs[n].delivered && Answers(qid == 0, PendingAt(q, entries, n), rs[n]);
    ss', acts' := ServeOneGrows(card1, qid, entries, rs[n], ss, acts);
    var d := DoneAt(q, entries, n, rs[n]);
    FurtherBy(s, ss[|acts|], ss'[|acts'|], DoneAll(q, entries, rs[..n]), d);
  }

  lemma FurtherBy(was: System, mid: System, now: System, dones: seq<Done>, d: Done)
    requires Further(was, mid, CompletionsOf(dones)) && Further(mid, now, [d.completion])
    ensures Further(was, now, CompletionsOf(dones + [d]))
  {
    assert CompletionsOf(dones + [d]) == CompletionsOf(dones) + [d.completion];
  }

  // ---- completions of other queues ----

  function SlotAddress(q: Queue, p: nat): nat {
    (q.cqAddr + p * CQ_ENTRY) % U64
  }

  /** The rings of two completion queues have no slot in common, and the second stands in its own. */
  ghost predicate Aside(card: Card, qid: nat, other: nat)
    requires card.Valid() && qid < MAX_QUEUES && other < MAX_QUEUES
  {
    var q, o := card.queues[qid], card.queues[other];
    && other != qid && o.cqSize < U16 && o.cqTail < Capacity(o)
    && forall p, t :: 0 <= p < Capacity(q) && 0 <= t < Capacity(o) ==> SlotAddress(q, p) != SlotAddress(o, t)
  }

  lemma {:induction false} TailStaysInRing(q: Queue, n: nat)
    requires q.cqSize < U16 && q.cqTail < Capacity(q)
    ensures AdvanceCqBy(q, n).cqTail < Capacity(q)
  {
    if n != 0 {
      TailStaysInRing(q, n - 1);
      AdvanceCqByKeeps(q, n - 1, 0);
    }
  }

  /** The slots of a queue as two memories show them. */
  ghost predicate SameSlots(q: Queue, was: map<nat, Completion>, now: map<nat, Completion>) {
    forall p :: 0 <= p < Capacity(q) ==> Found(now, SlotAddress(q, p)) == Found(was, SlotAddress(q, p))
  }

  lemma SameSlotsAllowed(s: System, m: map<nat, Completion>)
    requires SameSlots(s.queue, s.memory, m)
    ensures Allowed(s, Elsewhere(m))
  {
    forall p | 0 <= p < Capacity(s.queue)
      ensures s.(memory := m).Slot(p) == s.Slot(p)
    {
      assert Found(m, SlotAddress(s.queue, p)) == Found(s.memory, SlotAddress(s.queue, p));
    }
  }

  lemma ServeOneElsewhere(card: Card, qid: nat, other: nat, entries: map<nat, Command>, r: Reply)
    requires card.Valid() && qid < MAX_QUEUES && other < MAX_QUEUES && other != qid
    requires var c := Fetch(entries, card.queues[other].sqAddr, card.queues[other].sqHead);
             other == 0 ==> !c.Touches(0) && !c.Touches(qid)
    requires forall p :: 0 <= p < Capacity(card.queues[qid]) ==>
                           SlotAddress(card.queues[qid], p) != CqSlot(card.queues[other])
    ensures var card' := ServeOne(card, other, entries, r);
            card'.queues[qid] == card.queues[qid] && SameSlots(card.queues[qid], card.host, card'.host)
  {
  }

  /** A doorbell of another queue leaves the queue and its slots alone, whatever is delivered. */
  lemma {:induction false} ServeElsewhere(card: Card, qid: nat, other: nat, entries: map<nat, Command>, rs: seq<Reply>)
    requires card.Valid() && qid < MAX_QUEUES && other < MAX_QUEUES && Aside(card, qid, other)
    requires Serviceable(card, other, entries)
    requires |rs| <= Distance(card.queues[other].sqHead, card.queues[other].sqTail, card.queues[other].sqSize)
    requires other == 0 ==> forall k :: 0 <= k < |rs| ==> !PendingAt(card.queues[other], entries, k).Touches(qid)
    ensures var card' := Serve(card, other, entries, rs);
            card'.queues[qid] == card.queues[qid] && SameSlots(card.queues[qid], card.host, card'.host)
    decreases |rs|
  {
    if rs != [] {
      var n := |rs| - 1;
      ServeElsewhere(card, qid, other, entries, rs[..n]);
      var card1 := Serve(card, other, entries, rs[..n]);
      LastServed(card, other, entries, rs, card1);
      LastElsewhere(card, qid, other, entries, rs, card1);
      ServeOneElsewhere(card1, qid, other, entries, rs[n]);
    }
  }

  /** The slot to which the last completion goes is none of the other queue's. */
  lemma LastElsewhere(card: Card, qid: nat, other: nat, entries: map<nat, Command>, rs: seq<Reply>, card1: Card)
    requires card.Valid() && qid < MAX_QUEUES && other < MAX_QUEUES && Aside(card, qid, other)
    requires Serviceable(card, other, entries) && rs != []
    requires |rs| <= Distance(card.queues[other].sqHead, card.queues[other].sqTail, card.queues[other].sqSize)
    requires card1 == Serve(card, other, entries, rs[..|rs| - 1])
    ensures forall p :: 0 <= p < Capacity(card.queues[qid]) ==>
                          SlotAddress(card.queues[qid], p) != CqSlot(card1.queues[other])
  {
    var o, n := card.queues[other], |rs| - 1;
    ServeIsExact(card, other, entries, rs[..n]);
    TailStaysInRing(o, n);
    AdvanceCqByKeeps(o, n, 0);
    assert CqSlot(card1.queues[other]) == SlotAddress(o, AdvanceCqBy(o, n).cqTail);
  }

  /** A run goes on: the card shows its last state, these completions have been posted since, and
      the host's next poll finds the oldest completion it has not taken. */
  ghost predicate GoesOn(s: System, ss: seq<System>, acts: seq<Act>, card: Card, qid: nat, cpls: seq<Completion>)
    requires card.Valid() && qid < MAX_QUEUES
  {
    && Run(ss, acts) && Sees(ss[|acts|], card, qid) && Further(s, ss[|acts|], cpls) && ss[|acts|].phase < 2
    && s.taken <= s.posted + cpls
    && Poll(ss[|acts|]).taken == if s.taken == s.posted + cpls then s.taken else (s.posted + cpls)[..|s.taken| + 1]
  }

  lemma OneGoesOn(s: System, ss: seq<System>, acts: seq<Act>, card: Card, qid: nat, cpls: seq<Completion>)
    requires card.Valid() && qid < MAX_QUEUES
    requires Run(ss, acts) && Sees(ss[|acts|], card, qid) && Further(s, ss[|acts|], cpls)
    ensures GoesOn(s, ss, acts, card, qid, cpls)
  {
    HostTakesWhatWasPosted(ss, acts, |acts|);
  }

  lemma OwnDoorbell(was: Card, qid: nat, tail: nat, entries: map<nat, Command>, rs: seq<Reply>,
                    ss: seq<System>, acts: seq<Act>)
    returns (ss': seq<System>, acts': seq<Act>)
    requires was.Valid() && qid < MAX_QUEUES && Run(ss, acts) && Sees(ss[|acts|], was, qid)
    requires Serviceable(WithTail(was, qid, tail), qid, entries)
    requires var q := WithTail(was, qid, tail).queues[qid];
             |rs| <= Distance(q.sqHead, q.sqTail, q.sqSize) && AllDelivered(q, qid, entries, rs)
    requires |ss[|acts|].posted| - |ss[|acts|].taken| + |rs| <= Capacity(was.queues[qid])
    ensures var card := WithTail(was, qid, tail);
            GoesOn(ss[|acts|], ss', acts', Serve(card, qid, entries, rs), qid,
                   CompletionsOf(DoneAll(card.queues[qid], entries, rs)))
  {
    var card, s := WithTail(was, qid, tail), ss[|acts|];
    var move := QueueMoves(card.queues[qid]);
    RunKeepsInv(ss, acts, |acts|);
    RunGrows(ss, acts, move);
    ss', acts' := ServeGrows(card, qid, entries, rs, ss + [Next(s, move)], acts + [move]);
    OneGoesOn(s, ss', acts', Serve(card, qid, entries, rs), qid, CompletionsOf(DoneAll(card.queues[qid], entries, rs)));
  }

  lemma OtherDoorbell(was: Card, watched: nat, qid: nat, tail: nat, entries: map<nat, Command>, rs: seq<Reply>,
                      ss: seq<System>, acts: seq<Act>)
    returns (ss': seq<System>, acts': seq<Act>)
    requires was.Valid() && watched < MAX_QUEUES && qid < MAX_QUEUES && Aside(was, watched, qid)
    requires Run(ss, acts) && Sees(ss[|acts|], was, watched)
    requires Serviceable(WithTail(was, qid, tail), qid, entries)
    requires var q := WithTail(was, qid, tail).queues[qid];
             && |rs| <= Distance(q.sqHead, q.sqTail, q.sqSize)
             && (qid == 0 ==> forall k :: 0 <= k < |rs| ==> !PendingAt(q, entries, k).Touches(watched))
    ensures GoesOn(ss[|acts|], ss', acts', Serve(WithTail(was, qid, tail), qid, entries, rs), watched, [])
  {
    var card, s := WithTail(was, qid, tail), ss[|acts|];
    AsideKept(was, watched, qid, tail);
    ServeElsewhere(card, watched, qid, entries, rs);
    var now := Serve(card, qid, entries, rs);
    var move := Elsewhere(now.host);
    RunKeepsInv(ss, acts, |acts|);
    SameSlotsAllowed(s, now.host);
    RunGrows(ss, acts, move);
    ss', acts' := ss + [Next(s, move)], acts + [move];
    OneGoesOn(s, ss', acts', now, watched, []);
  }

  lemma AsideKept(card: Card, watched: nat, qid: nat, tail: nat)
    requires card.Valid() && watched < MAX_QUEUES && qid < MAX_QUEUES && Aside(card, watched, qid)
    ensures Aside(WithTail(card, qid, tail), watched, qid)
    ensures WithTail(card, qid, tail).queues[watched] == card.queues[watched]
  {
    var q, o := card.queues[watched], card.queues[qid];
    forall p, t | 0 <= p < Capacity(q) && 0 <= t < Capacity(o)
      ensures SlotAddress(q, p) != SlotAddress(o.(sqTail := tail), t)
    {
      assert SlotAddress(q, p) != SlotAddress(o, t);
    }
  }

  /** The pending commands of an admin doorbell leave a queue alone. */
  ghost predicate LeavesAlone(card: Card, qid: nat, tail: nat, entries: map<nat, Command>, watched: nat)
    requires card.Valid() && qid < MAX_QUEUES
  {
    qid == 0 ==> forall k: nat :: !PendingAt(card.queues[0].(sqTail := tail), entries, k).Touches(watched)
  }

  /** The completions of these answers are delivered, and the queue has room for them. */
  ghost predicate HasRoom(s: System, rs: seq<Reply>) {
    |s.posted| - |s.taken| + |rs| <= Capacity(s.queue) && forall k :: 0 <= k < |rs| ==> rs[k].delivered
  }

  lemma AfterDoorbell(was: Card, watched: nat, qid: nat, tail: nat, entries: map<nat, Command>, rs: seq<Reply>,
                      ss: seq<System>, acts: seq<Act>)
    returns (ss': seq<System>, acts': seq<Act>)
    requires was.Valid() && watched < MAX_QUEUES && qid < MAX_QUEUES
    requires Serviceable(WithTail(was, qid, tail), qid, entries)
    requires Run(ss, acts) && Sees(ss[|acts|], was, watched)
    requires qid != watched ==> Aside(was, watched, qid) && LeavesAlone(was, qid, tail, entries, watched)
    requires var q := was.queues[qid].(sqTail := tail);
             && |rs| == (tail - q.sqHead) % q.sqSize
             && forall k :: 0 <= k < |rs| ==> Answers(qid == 0, PendingAt(q, entries, k), rs[k])
    ensures var card := WithTail(was, qid, tail);
            var now := Serve(card, qid, entries, rs);
            && (qid != watched ==> GoesOn(ss[|acts|], ss', acts', now, watched, []))
            && (qid == watched && HasRoom(ss[|acts|], rs) ==>
                  GoesOn(ss[|acts|], ss', acts', now, watched, CompletionsOf(DoneAll(card.queues[qid], entries, rs))))
  {
    var q := was.queues[qid].(sqTail := tail);
    DistanceIsMod(q.sqHead, q.sqTail, q.sqSize);
    ss', acts' := ss, acts;
    if qid != watched {
      ss', acts' := OtherDoorbell(was, watched, qid, tail, entries, rs, ss, acts);
    } else if HasRoom(ss[|acts|], rs) {
      ss', acts' := OwnDoorbell(was, qid, tail, entries, rs, ss, acts);
    }
  }

  /** A submission doorbell rung while the host watches one completion queue. Its own doorbell
      posts there what was logged, if every completion is delivered and finds room; that of
      another queue posts nothing there. Either way the run of the watched queue goes on. */
  method RingAndWatch(ctrl: Controller, watched: nat, qid: nat, tail: nat, entries: map<nat, Command>, failures: nat,
                      ghost ss: seq<System>, ghost acts: seq<Act>)
    returns (ghost rs: seq<Reply>, ghost dones: seq<Done>, ghost ss': seq<System>, ghost acts': seq<Act>)
    requires ctrl.Valid() && watched < MAX_QUEUES && qid < MAX_QUEUES
    requires Serviceable(WithTail(ctrl.View(), qid, tail), qid, entries)
    requires Run(ss, acts) && Sees(ss[|acts|], ctrl.View(), watched)
    requires qid != watched ==>
               Aside(ctrl.View(), watched, qid) && LeavesAlone(ctrl.View(), qid, tail, entries, watched)
    modifies ctrl, ctrl.queues
    ensures ctrl.Valid() && ctrl.log == old(ctrl.log) + dones && |dones| == |rs|
    ensures qid != watched ==> GoesOn(ss[|acts|], ss', acts', ctrl.View(), watched, [])
    ensures qid == watched && HasRoom(ss[|acts|], rs) ==>
              GoesOn(ss[|acts|], ss', acts', ctrl.View(), watched, CompletionsOf(dones))
  {
    ghost var was := ctrl.View();
    PendingEnds(WithTail(was, qid, tail), qid, entries);
    rs := ctrl.RingDoorbell(qid, tail, entries, failures);
    ss', acts' := AfterDoorbell(was, watched, qid, tail, entries, rs, ss, acts);
    dones := DoneAll(was.queues[qid].(sqTail := tail), entries, rs);
  }
}
