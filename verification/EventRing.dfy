/** The event ring shared with the device process, and the eventfd that wakes it
(kernel/framework/userspace.c, examples/hda/hda_card.c), as interleaved atomic steps.

Any number of producers queue events; one consumer polls, drains the eventfd and empties
the ring; one SET_EVENTFD installs the eventfd at any moment. Each lock acquisition, shared
load, shared store and slot copy is a step of its own. */
module EventRing {
  import opened Wrappers

  const RING_SIZE: nat := 256

  type Event = nat

  /** A slot is torn while the producer copies into it. */
  datatype Slot = Torn | Full(ev: Event)

  datatype Owner = Nobody | Producer(i: nat) | Setter

  /** Where a producer stands in `pciem_userspace_queue_event` and the locked push it calls.
      `seen` records how many events had been released when it loaded the head. */
  datatype ProducerPc =
    | Idle
    | WantsRing(ev: Event)
    | HasRing(ev: Event)
    | TailLoaded(ev: Event, tail: nat)
    | HeadLoaded(ev: Event, tail: nat, head: nat, seen: nat)
    | Copying(ev: Event, tail: nat)
    | Copied(ev: Event, tail: nat)
    | LeavesRing
    | WantsEventfd
    | HasEventfd
    | SawEventfd(installed: bool)
    | LeavesEventfd

  /** Where the consumer stands in its event loop. `upto` records how many events had been
      accepted when it loaded the tail. */
  datatype ConsumerPc =
    | Polling
    | Draining
    | LoadingHead
    | LoadingTail(head: nat)
    | Comparing(head: nat, tail: nat, upto: nat)
    | Handling(head: nat)
    | StoringHead(head: nat)

  /** Where the setter stands in `pciem_ioctl_set_eventfd`. */
  datatype SetterPc = NotCalled | WantsSwap | Swapping | Swapped | Unlocked | Owing | Returned

  datatype State = State(
    head: nat, tail: nat, slots: seq<Slot>,
    ringLock: Owner, eventfdLock: Owner,
    installed: bool, pending: bool, count: nat,
    producers: seq<ProducerPc>, consumer: ConsumerPc, setter: SetterPc,
    accepted: seq<Slot>, consumed: seq<Slot>, released: nat)

  predicate Init(s: State) {
    && s.head == 0 && s.tail == 0 && |s.slots| == RING_SIZE
    && s.ringLock == Nobody && s.eventfdLock == Nobody
    && !s.installed && !s.pending && s.count == 0
    && (forall i :: 0 <= i < |s.producers| ==> s.producers[i] == Idle)
    && s.consumer == Polling && s.setter == NotCalled
    && s.accepted == [] && s.consumed == [] && s.released == 0
  }

  /** Who takes the next step; a producer starts with the event it is given. */
  datatype Action = Queue(i: nat, ev: Event) | Produce(i: nat) | Consume | Set

  function Next(s: State, a: Action): Option<State> {
    match a
    case Queue(i, ev) =>
      if i < |s.producers| && s.producers[i] == Idle then Some(s.(producers := s.producers[i := WantsRing(ev)]))
      else None
    case Produce(i) => if i < |s.producers| then ProducerStep(s, i) else None
    case Consume => ConsumerStep(s)
    case Set => SetterStep(s)
  }

  function ProducerStep(s: State, i: nat): Option<State>
    requires i < |s.producers|
  {
    match s.producers[i]
    case Idle => None
    case WantsRing(ev) =>
      if s.ringLock != Nobody then None
      else Some(s.(ringLock := Producer(i), producers := s.producers[i := HasRing(ev)]))
    case HasRing(ev) =>
      Some(s.(producers := s.producers[i := TailLoaded(ev, s.tail)]))
    case TailLoaded(ev, tail) =>
      Some(s.(producers := s.producers[i := HeadLoaded(ev, tail, s.head, s.released)]))
    case HeadLoaded(ev, tail, head, _) =>
      if (tail + 1) % RING_SIZE == head then
        Some(s.(producers := s.producers[i := LeavesRing]))
      else if tail < |s.slots| then
        Some(s.(slots := s.slots[tail := Torn], producers := s.producers[i := Copying(ev, tail)]))
      else None
    case Copying(ev, tail) =>
      if tail < |s.slots| then
        Some(s.(slots := s.slots[tail := Full(ev)], producers := s.producers[i := Copied(ev, tail)]))
      else None
    case Copied(ev, tail) =>
      Some(s.(tail := (tail + 1) % RING_SIZE, accepted := s.accepted + [Full(ev)],
              producers := s.producers[i := LeavesRing]))
    case LeavesRing =>
      Some(s.(ringLock := Nobody, producers := s.producers[i := WantsEventfd]))
    case WantsEventfd =>
      if s.eventfdLock != Nobody then None
      else Some(s.(eventfdLock := Producer(i), producers := s.producers[i := HasEventfd]))
    case HasEventfd =>
      Some(s.(producers := s.producers[i := SawEventfd(s.installed)]))
    case SawEventfd(installed) =>
      if installed then Some(s.(count := s.count + 1, producers := s.producers[i := LeavesEventfd]))
      else Some(s.(pending := true, producers := s.producers[i := LeavesEventfd]))
    case LeavesEventfd =>
      Some(s.(eventfdLock := Nobody, producers := s.producers[i := Idle]))
  }

  function ConsumerStep(s: State): Option<State> {
    match s.consumer
    case Polling =>
      if s.count > 0 then Some(s.(consumer := Draining)) else None
    case Draining =>
      Some(s.(count := 0, consumer := LoadingHead))
    case LoadingHead =>
      Some(s.(consumer := LoadingTail(s.head)))
    case LoadingTail(head) =>
      Some(s.(consumer := Comparing(head, s.tail, |s.accepted|)))
    case Comparing(head, tail, _) =>
      Some(s.(consumer := if head == tail then Polling else Handling(head)))
    case Handling(head) =>
      if head < |s.slots| then
        Some(s.(consumed := s.consumed + [s.slots[head]], consumer := StoringHead((head + 1) % RING_SIZE)))
      else None
    case StoringHead(head) =>
      Some(s.(head := head, released := s.released + 1, consumer := LoadingTail(head)))
  }

  function SetterStep(s: State): Option<State> {
    match s.setter
    case NotCalled => Some(s.(setter := WantsSwap))
    case WantsSwap =>
      if s.eventfdLock != Nobody then None else Some(s.(eventfdLock := Setter, setter := Swapping))
    case Swapping => Some(s.(installed := true, setter := Swapped))
    case Swapped => Some(s.(eventfdLock := Nobody, setter := Unlocked))
    case Unlocked => Some(s.(pending := false, setter := if s.pending then Owing else Returned))
    case Owing => Some(s.(count := s.count + 1, setter := Returned))
    case Returned => None
  }

  predicate HoldsRing(pc: ProducerPc) {
    pc.HasRing? || pc.TailLoaded? || pc.HeadLoaded? || pc.Copying? || pc.Copied? || pc.LeavesRing?
  }

  predicate HoldsEventfd(pc: ProducerPc) {
    pc.HasEventfd? || pc.SawEventfd? || pc.LeavesEventfd?
  }

  /** The producer has pushed (or dropped) and not yet signalled. */
  predicate ProducerOwes(pc: ProducerPc) {
    pc.LeavesRing? || pc.WantsEventfd? || pc.HasEventfd? || pc.SawEventfd?
  }

  /** The setter will still signal: it has yet to see a pending flag that is up, or has seen one. */
  predicate SetterOwes(s: State) {
    s.setter == Owing || (s.setter in {Swapped, Unlocked} && s.pending)
  }

  /** Something will wake the consumer. */
  ghost predicate WakeDue(s: State) {
    || s.count > 0
    || (exists i :: 0 <= i < |s.producers| && ProducerOwes(s.producers[i]))
    || SetterOwes(s)
    || (!s.installed && s.pending)
  }

  ghost predicate LocksInv(s: State) {
    && (forall i :: 0 <= i < |s.producers| ==> (HoldsRing(s.producers[i]) <==> s.ringLock == Producer(i)))
    && (forall i :: 0 <= i < |s.producers| ==> (HoldsEventfd(s.producers[i]) <==> s.eventfdLock == Producer(i)))
    && (s.setter in {Swapping, Swapped} <==> s.eventfdLock == Setter)
    && s.ringLock != Setter
    && (s.eventfdLock.Producer? ==> s.eventfdLock.i < |s.producers|)
  }

  ghost predicate EventfdInv(s: State) {
    && (s.installed <==> s.setter !in {NotCalled, WantsSwap, Swapping})
    && (s.pending ==> s.setter !in {Owing, Returned})
    && (forall i :: 0 <= i < |s.producers| && s.producers[i].SawEventfd? ==> s.producers[i].installed == s.installed)
  }

  ghost predicate RingInv(s: State) {
    && |s.slots| == RING_SIZE
    && s.head == s.released % RING_SIZE
    && s.tail == |s.accepted| % RING_SIZE
    && s.released <= |s.accepted| < s.released + RING_SIZE
    && (forall k :: s.released <= k < |s.accepted| ==> s.slots[k % RING_SIZE] == s.accepted[k])
  }

  /** What a producer inside the push knows. */
  ghost predicate ProducerInv(s: State, pc: ProducerPc) {
    match pc
    case TailLoaded(_, tail) => tail == s.tail
    case HeadLoaded(_, tail, head, seen) =>
      tail == s.tail && head == seen % RING_SIZE && seen <= s.released && |s.accepted| < seen + RING_SIZE
    case Copying(_, tail) => tail == s.tail && |s.accepted| + 1 < s.released + RING_SIZE
    case Copied(ev, tail) =>
      tail == s.tail && |s.accepted| + 1 < s.released + RING_SIZE && |s.slots| == RING_SIZE && tail < RING_SIZE
      && s.slots[tail] == Full(ev)
    case _ => true
  }

  ghost predicate ConsumerInv(s: State) {
    && s.released <= |s.accepted|
    && (if s.consumer.StoringHead? then
          s.released < |s.accepted| && s.consumer.head == (s.released + 1) % RING_SIZE
          && s.consumed == s.accepted[..s.released + 1]
        else s.consumed == s.accepted[..s.released])
    && (s.consumer.LoadingTail? ==> s.consumer.head == s.head)
    && (s.consumer.Comparing? ==>
          && s.consumer.head == s.head
          && s.released <= s.consumer.upto <= |s.accepted|
          && s.consumer.tail == s.consumer.upto % RING_SIZE)
    && (s.consumer.Handling? ==> s.consumer.head == s.head && s.released < |s.accepted|)
  }

  /** Events the consumer has not seen come with a wakeup. */
  ghost predicate WakeInv(s: State) {
    && (s.consumer.Polling? && s.released < |s.accepted| ==> WakeDue(s))
    && (s.consumer.Comparing? && s.consumer.upto < |s.accepted| ==> WakeDue(s))
  }

  ghost predicate Inv(s: State) {
    && LocksInv(s) && EventfdInv(s) && RingInv(s)
    && ProducersInv(s)
    && ConsumerInv(s) && WakeInv(s)
  }

  lemma InitInv(s: State)
    requires Init(s)
    ensures Inv(s)
  {
  }

  ghost predicate ProducersInv(s: State) {
    forall i :: 0 <= i < |s.producers| ==> ProducerInv(s, s.producers[i])
  }

  /** A lock changes hands only when its owner's hold begins or ends. */
  lemma ProducerLocks(s: State, i: nat)
    requires LocksInv(s) && i < |s.producers| && ProducerStep(s, i).Some?
    ensures var s', pc := ProducerStep(s, i).value, s.producers[i];
            && |s'.producers| == |s.producers| && s'.producers == s.producers[i := s'.producers[i]]
            && s'.setter == s.setter
            && s'.ringLock == (if HoldsRing(s'.producers[i]) then Producer(i)
                               else if HoldsRing(pc) then Nobody else s.ringLock)
            && s'.eventfdLock == (if HoldsEventfd(s'.producers[i]) then Producer(i)
                                  else if HoldsEventfd(pc) then Nobody else s.eventfdLock)
            && (HoldsRing(s'.producers[i]) ==> HoldsRing(pc) || s.ringLock == Nobody)
            && (HoldsEventfd(s'.producers[i]) ==> HoldsEventfd(pc) || s.eventfdLock == Nobody)
  {
    assert HoldsRing(s.producers[i]) <==> s.ringLock == Producer(i);
    assert HoldsEventfd(s.producers[i]) <==> s.eventfdLock == Producer(i);
  }

  lemma ProducerKeepsLocks(s: State, i: nat)
    requires LocksInv(s) && i < |s.producers| && ProducerStep(s, i).Some?
    ensures LocksInv(ProducerStep(s, i).value)
  {
    var s' := ProducerStep(s, i).value;
    ProducerLocks(s, i);
    forall j | 0 <= j < |s'.producers|
      ensures HoldsRing(s'.producers[j]) <==> s'.ringLock == Producer(j)
      ensures HoldsEventfd(s'.producers[j]) <==> s'.eventfdLock == Producer(j)
    {
      assert j != i ==> s'.producers[j] == s.producers[j];
    }
  }

  lemma ProducerKeepsEventfd(s: State, i: nat)
    requires LocksInv(s) && EventfdInv(s) && i < |s.producers| && ProducerStep(s, i).Some?
    ensures EventfdInv(ProducerStep(s, i).value)
  {
  }

  /** The slot a producer writes is not one the consumer has yet to release. */
  lemma FreeSlot(s: State, k: nat)
    requires RingInv(s) && |s.accepted| + 1 < s.released + RING_SIZE && s.released <= k < |s.accepted|
    ensures k % RING_SIZE != s.tail
  {
  }

  lemma SlotWriteKeepsRing(s: State, i: nat)
    requires RingInv(s) && i < |s.producers| && ProducerInv(s, s.producers[i])
    requires s.producers[i].HeadLoaded? || s.producers[i].Copying?
    requires ProducerStep(s, i).Some?
    ensures RingInv(ProducerStep(s, i).value)
  {
    var s' := ProducerStep(s, i).value;
    forall k | s.released <= k < |s.accepted|
      ensures s'.slots[k % RING_SIZE] == s.accepted[k]
    {
      if |s.accepted| + 1 < s.released + RING_SIZE {
        FreeSlot(s, k);
      }
    }
  }

  lemma NextIndex(k: nat)
    ensures (k % RING_SIZE + 1) % RING_SIZE == (k + 1) % RING_SIZE
  {
  }

  lemma TailStoreKeepsRing(s: State, i: nat)
    requires RingInv(s) && i < |s.producers| && s.producers[i].Copied? && ProducerInv(s, s.producers[i])
    ensures RingInv(ProducerStep(s, i).value)
  {
    var s' := ProducerStep(s, i).value;
    NextIndex(|s.accepted|);
    forall k | s.released <= k < |s'.accepted|
      ensures s'.slots[k % RING_SIZE] == s'.accepted[k]
    {
      if k < |s.accepted| {
        assert s'.accepted[k] == s.accepted[k];
      }
    }
  }

  lemma ProducerKeepsRing(s: State, i: nat)
    requires RingInv(s) && i < |s.producers| && ProducerInv(s, s.producers[i]) && ProducerStep(s, i).Some?
    ensures RingInv(ProducerStep(s, i).value)
  {
    var pc := s.producers[i];
    if pc.HeadLoaded? || pc.Copying? {
      SlotWriteKeepsRing(s, i);
    } else if pc.Copied? {
      TailStoreKeepsRing(s, i);
    } else {
      var s' := ProducerStep(s, i).value;
      assert s'.slots == s.slots && s'.accepted == s.accepted;
    }
  }

  lemma ProducerKeepsItself(s: State, i: nat)
    requires RingInv(s) && i < |s.producers| && ProducerInv(s, s.producers[i]) && ProducerStep(s, i).Some?
    ensures ProducerInv(ProducerStep(s, i).value, ProducerStep(s, i).value.producers[i])
  {
    if s.producers[i].HeadLoaded? {
      FullAsLoaded(s, s.producers[i]);
    }
  }

  /** While one producer is inside the push the others are outside it. */
  lemma ProducerKeepsOther(s: State, i: nat, j: nat)
    requires RingInv(s) && i < |s.producers| && ProducerStep(s, i).Some?
    requires j < |s.producers| && j != i && ProducerInv(s, s.producers[j])
    requires HoldsRing(s.producers[i]) ==> !HoldsRing(s.producers[j])
    ensures ProducerInv(ProducerStep(s, i).value, s.producers[j])
  {
  }

  lemma ProducerKeepsProducers(s: State, i: nat)
    requires LocksInv(s) && RingInv(s) && ProducersInv(s) && i < |s.producers| && ProducerStep(s, i).Some?
    ensures ProducersInv(ProducerStep(s, i).value)
  {
    var s' := ProducerStep(s, i).value;
    ProducerKeepsItself(s, i);
    forall j | 0 <= j < |s'.producers|
      ensures ProducerInv(s', s'.producers[j])
    {
      if j != i {
        assert s'.producers[j] == s.producers[j];
        ProducerKeepsOther(s, i, j);
      }
    }
  }

  lemma ProducerKeepsConsumer(s: State, i: nat)
    requires ConsumerInv(s) && i < |s.producers| && ProducerStep(s, i).Some?
    ensures ConsumerInv(ProducerStep(s, i).value)
  {
    MoreAccepted(s, ProducerStep(s, i).value);
  }

  lemma MoreAccepted(s: State, s': State)
    requires ConsumerInv(s) && s.accepted <= s'.accepted
    requires s'.consumer == s.consumer && s'.consumed == s.consumed && s'.head == s.head && s'.released == s.released
    ensures ConsumerInv(s')
  {
    assert forall n :: 0 <= n <= |s.accepted| ==> s'.accepted[..n] == s.accepted[..n];
  }

  /** A producer that has stored a new tail owes a signal until it has given one or left the
      pending flag for the setter. */
  lemma ProducerKeepsWake(s: State, i: nat)
    requires EventfdInv(s) && WakeInv(s) && i < |s.producers| && ProducerStep(s, i).Some?
    ensures WakeInv(ProducerStep(s, i).value)
  {
    var pc := s.producers[i];
    var s' := ProducerStep(s, i).value;
    if pc.Copied? {
      assert ProducerOwes(s'.producers[i]);
    } else if WakeDue(s) {
      if pc.SawEventfd? {
        assert pc.installed == s.installed;
        assert WakeDue(s');
      } else if j :| 0 <= j < |s.producers| && ProducerOwes(s.producers[j]) {
        assert ProducerOwes(s'.producers[j]);
      }
    }
  }

  lemma ConsumerKeepsInv(s: State)
    requires Inv(s) && ConsumerStep(s).Some?
    ensures Inv(ConsumerStep(s).value)
  {
    ConsumerKeepsLocks(s);
    ConsumerKeepsRing(s);
    ConsumerKeepsItself(s);
    ConsumerKeepsProducers(s);
    ConsumerKeepsWake(s);
  }

  lemma ConsumerKeepsLocks(s: State)
    requires LocksInv(s) && EventfdInv(s) && ConsumerStep(s).Some?
    ensures LocksInv(ConsumerStep(s).value) && EventfdInv(ConsumerStep(s).value)
  {
    SameLocks(s, ConsumerStep(s).value);
  }

  lemma SameLocks(s: State, s': State)
    requires LocksInv(s) && EventfdInv(s)
    requires s'.producers == s.producers && s'.setter == s.setter && s'.ringLock == s.ringLock
    requires s'.eventfdLock == s.eventfdLock && s'.installed == s.installed && s'.pending == s.pending
    ensures LocksInv(s') && EventfdInv(s')
  {
  }

  lemma ConsumerKeepsProducers(s: State)
    requires ProducersInv(s) && ConsumerStep(s).Some?
    ensures ProducersInv(ConsumerStep(s).value)
  {
    var s' := ConsumerStep(s).value;
    forall i | 0 <= i < |s'.producers|
      ensures ProducerInv(s', s'.producers[i])
    {
      assert ProducerInv(s, s.producers[i]);
    }
  }

  /** The consumer only returns to waiting with what it saw at its last tail load. */
  lemma ConsumerKeepsWake(s: State)
    requires RingInv(s) && ConsumerInv(s) && WakeInv(s) && ConsumerStep(s).Some?
    ensures WakeInv(ConsumerStep(s).value)
  {
  }

  lemma ConsumerKeepsRing(s: State)
    requires RingInv(s) && ConsumerInv(s) && ConsumerStep(s).Some?
    ensures RingInv(ConsumerStep(s).value)
  {
    if s.consumer.StoringHead? {
      NextIndex(s.released);
    }
  }

  lemma ConsumerKeepsItself(s: State)
    requires RingInv(s) && ConsumerInv(s) && ConsumerStep(s).Some?
    ensures ConsumerInv(ConsumerStep(s).value)
  {
    if s.consumer.Handling? {
      NextIndex(s.released);
      assert s.slots[s.released % RING_SIZE] == s.accepted[s.released];
    }
  }

  lemma SetterKeepsInv(s: State)
    requires Inv(s) && SetterStep(s).Some?
    ensures Inv(SetterStep(s).value)
  {
    var s' := SetterStep(s).value;
    SameRing(s, s');
    SetterKeepsEventfd(s);
    if j :| 0 <= j < |s.producers| && ProducerOwes(s.producers[j]) {
      assert ProducerOwes(s'.producers[j]);
    }
  }

  lemma SetterKeepsEventfd(s: State)
    requires LocksInv(s) && EventfdInv(s) && SetterStep(s).Some?
    ensures LocksInv(SetterStep(s).value) && EventfdInv(SetterStep(s).value)
  {
  }

  /** Steps that touch neither ring nor producers nor consumer keep what is known of them. */
  lemma SameRing(s: State, s': State)
    requires RingInv(s) && ProducersInv(s) && ConsumerInv(s)
    requires s' == s.(eventfdLock := s'.eventfdLock, installed := s'.installed, pending := s'.pending,
                      count := s'.count, setter := s'.setter)
    ensures RingInv(s') && ProducersInv(s') && ConsumerInv(s')
  {
  }

  lemma StepKeepsInv(s: State, a: Action)
    requires Inv(s) && Next(s, a).Some?
    ensures Inv(Next(s, a).value)
  {
    match a
    case Queue(i, ev) =>
      var s' := Next(s, a).value;
      QueueKeepsInv(s, i, ev);
    case Produce(i) =>
      ProducerKeepsLocks(s, i);
      ProducerKeepsEventfd(s, i);
      assert ProducerInv(s, s.producers[i]);
      ProducerKeepsRing(s, i);
      ProducerKeepsProducers(s, i);
      ProducerKeepsConsumer(s, i);
      ProducerKeepsWake(s, i);
    case Consume => ConsumerKeepsInv(s);
    case Set => SetterKeepsInv(s);
  }

  lemma QueueKeepsInv(s: State, i: nat, ev: Event)
    requires Inv(s) && i < |s.producers| && s.producers[i] == Idle
    ensures Inv(s.(producers := s.producers[i := WantsRing(ev)]))
  {
  }

  /** `ss` are the states of an interleaving from an initial state, `acts` the steps between them. */
  ghost predicate Run(ss: seq<State>, acts: seq<Action>) {
    && |ss| == |acts| + 1
    && Init(ss[0])
    && forall i :: 0 <= i < |acts| ==> Next(ss[i], acts[i]) == Some(ss[i + 1])
  }

  lemma {:induction false} RunKeepsInv(ss: seq<State>, acts: seq<Action>, n: nat)
    requires Run(ss, acts) && n < |ss|
    ensures Inv(ss[n])
    decreases n
  {
    if n == 0 {
      InitInv(ss[0]);
    } else {
      RunKeepsInv(ss, acts, n - 1);
      assert Next(ss[n - 1], acts[n - 1]) == Some(ss[n]);
      StepKeepsInv(ss[n - 1], acts[n - 1]);
    }
  }

  /** Order and safety: in every interleaving what was consumed is a prefix of what was
      accepted, at most 255 events are unread, and every unread event is still in its slot. */
  lemma RingIsSafe(ss: seq<State>, acts: seq<Action>, n: nat)
    requires Run(ss, acts) && n < |ss|
    ensures var s := ss[n];
            && s.consumed <= s.accepted
            && s.released <= |s.consumed| <= s.released + 1
            && |s.accepted| - s.released <= RING_SIZE - 1
            && |s.slots| == RING_SIZE
            && forall k :: s.released <= k < |s.accepted| ==> s.slots[k % RING_SIZE] == s.accepted[k] != Torn
  {
    RunKeepsInv(ss, acts, n);
    AcceptedAreFull(ss, acts, n);
  }

  lemma {:induction false} AcceptedAreFull(ss: seq<State>, acts: seq<Action>, n: nat)
    requires Run(ss, acts) && n < |ss|
    ensures Torn !in ss[n].accepted
    decreases n
  {
    if n > 0 {
      AcceptedAreFull(ss, acts, n - 1);
      assert Next(ss[n - 1], acts[n - 1]) == Some(ss[n]);
    }
  }

  /** Events are consumed in the order in which their producers stored the tail: neither
      history is ever rewritten. */
  lemma HistoriesGrow(ss: seq<State>, acts: seq<Action>, n: nat)
    requires Run(ss, acts) && n < |acts|
    ensures ss[n].accepted <= ss[n + 1].accepted && ss[n].consumed <= ss[n + 1].consumed
  {
    assert Next(ss[n], acts[n]) == Some(ss[n + 1]);
    StepGrows(ss[n], acts[n]);
  }

  lemma StepGrows(s: State, a: Action)
    requires Next(s, a).Some?
    ensures s.accepted <= Next(s, a).value.accepted && s.consumed <= Next(s, a).value.consumed
  {
  }

  /** A push gives up exactly when the head it loaded shows 255 unread events. */
  lemma PushFailsIffFull(ss: seq<State>, acts: seq<Action>, n: nat, i: nat)
    requires Run(ss, acts) && n < |acts| && acts[n] == Produce(i)
    requires i < |ss[n].producers| && ss[n].producers[i].HeadLoaded?
    ensures ss[n + 1].producers[i] == LeavesRing
            <==> |ss[n].accepted| - ss[n].producers[i].seen == RING_SIZE - 1
  {
    RunKeepsInv(ss, acts, n);
    assert Next(ss[n], acts[n]) == Some(ss[n + 1]);
    assert ProducerInv(ss[n], ss[n].producers[i]);
    FullAsLoaded(ss[n], ss[n].producers[i]);
  }

  lemma FullAsLoaded(s: State, pc: ProducerPc)
    requires RingInv(s) && pc.HeadLoaded? && ProducerInv(s, pc)
    ensures (pc.tail + 1) % RING_SIZE == pc.head <==> |s.accepted| - pc.seen == RING_SIZE - 1
  {
    RingFull(|s.accepted|, pc.seen);
  }

  lemma RingFull(a: nat, b: nat)
    requires b <= a < b + RING_SIZE
    ensures (a % RING_SIZE + 1) % RING_SIZE == b % RING_SIZE <==> a - b == RING_SIZE - 1
  {
  }

  /** No lost wakeup: whenever the consumer waits and the ring is not empty, the eventfd is
      readable, or a producer or the setter will still signal it, or it is not installed yet
      and the pending flag is up. */
  lemma NoLostWakeup(ss: seq<State>, acts: seq<Action>, n: nat)
    requires Run(ss, acts) && n < |ss|
    requires ss[n].consumer == Polling && ss[n].head != ss[n].tail
    ensures var s := ss[n];
            || s.count > 0
            || (exists i :: 0 <= i < |s.producers| && ProducerOwes(s.producers[i]))
            || SetterOwes(s)
            || (!s.installed && s.pending)
  {
    RunKeepsInv(ss, acts, n);
  }

  /** Once every call has returned, a consumer that finds nothing to read has seen everything. */
  lemma QuietMeansDrained(ss: seq<State>, acts: seq<Action>, n: nat)
    requires Run(ss, acts) && n < |ss|
    requires ss[n].consumer == Polling && ss[n].count == 0 && ss[n].setter == Returned
    requires forall i :: 0 <= i < |ss[n].producers| ==> ss[n].producers[i] == Idle
    ensures ss[n].consumed == ss[n].accepted && ss[n].head == ss[n].tail
  {
    RunKeepsInv(ss, acts, n);
    var s := ss[n];
    assert !WakeDue(s);
    assert s.accepted[..s.released] == s.accepted;
  }

  /** The eventfd lock is free, or whoever holds it can move. */
  lemma EventfdLockMoves(s: State) returns (a: Action)
    requires Inv(s)
    ensures !a.Queue? && (s.eventfdLock != Nobody ==> Next(s, a).Some?)
  {
    a := Set;
    if s.eventfdLock.Producer? {
      a := Produce(s.eventfdLock.i);
      assert HoldsEventfd(s.producers[s.eventfdLock.i]);
    }
  }

  /** The promise of a wakeup is never blocked: while the consumer waits on a non-empty ring,
      some step is enabled. */
  lemma WaitingIsNeverStuck(ss: seq<State>, acts: seq<Action>, n: nat) returns (a: Action)
    requires Run(ss, acts) && n < |ss|
    requires ss[n].consumer == Polling && ss[n].head != ss[n].tail
    ensures !a.Queue? && Next(ss[n], a).Some?
  {
    RunKeepsInv(ss, acts, n);
    var s := ss[n];
    assert WakeDue(s);
    if s.count > 0 {
      a := Consume;
    } else if i :| 0 <= i < |s.producers| && ProducerOwes(s.producers[i]) {
      a := Produce(i);
      if s.producers[i].WantsEventfd? && s.eventfdLock != Nobody {
        a := EventfdLockMoves(s);
      }
    } else {
      a := Set;
      if s.setter == WantsSwap && s.eventfdLock != Nobody {
        a := EventfdLockMoves(s);
      }
    }
  }

  /** How many of its own steps a producer is away from its next signal; an idle one starts with
      the next event. */
  function StepsToSignal(pc: ProducerPc): (n: nat)
    ensures 1 <= n <= 12
  {
    match pc
    case SawEventfd(_) => 1
    case HasEventfd => 2
    case WantsEventfd => 3
    case LeavesRing => 4
    case Copied(_, _) => 5
    case Copying(_, _) => 6
    case HeadLoaded(_, _, _, _) => 7
    case TailLoaded(_, _) => 8
    case HasRing(_) => 9
    case WantsRing(_) => 10
    case Idle => 11
    case LeavesEventfd => 12
  }

  function StepsToReturn(pc: SetterPc): nat {
    match pc
    case Returned => 0
    case Owing => 1
    case Unlocked => 2
    case Swapped => 3
    case Swapping => 4
    case WantsSwap => 5
    case NotCalled => 6
  }

  function ProducerSteps(ps: seq<ProducerPc>): nat {
    if ps == [] then 0 else StepsToSignal(ps[0]) + ProducerSteps(ps[1..])
  }

  /** How many steps of any kind can be taken before one of them is a signal. */
  function StepsToWake(s: State): nat {
    ProducerSteps(s.producers) + StepsToReturn(s.setter)
  }

  lemma {:induction false} ProducerMoves(ps: seq<ProducerPc>, i: nat, pc: ProducerPc)
    requires i < |ps|
    ensures ProducerSteps(ps[i := pc]) == ProducerSteps(ps) - StepsToSignal(ps[i]) + StepsToSignal(pc)
  {
    if i == 0 {
      assert ps[0 := pc][1..] == ps[1..];
    } else {
      ProducerMoves(ps[1..], i - 1, pc);
      assert ps[i := pc][1..] == ps[1..][i - 1 := pc];
    }
  }

  lemma {:induction false} ProducerStepsBound(ps: seq<ProducerPc>)
    ensures ProducerSteps(ps) <= 12 * |ps|
  {
    if ps != [] {
      ProducerStepsBound(ps[1..]);
    }
  }

  lemma ProducerComesCloser(s: State, i: nat)
    requires EventfdInv(s) && s.installed && i < |s.producers| && ProducerStep(s, i).Some?
    ensures var s' := ProducerStep(s, i).value;
            && s'.installed && s'.consumer == s.consumer
            && (s'.count > 0 || StepsToWake(s') < StepsToWake(s))
  {
    ProducerGoesOn(s, i);
    ProducerMoves(s.producers, i, ProducerStep(s, i).value.producers[i]);
  }

  /** A step moves its own producer only, and forward. */
  lemma ProducerGoesOn(s: State, i: nat)
    requires EventfdInv(s) && s.installed && i < |s.producers| && ProducerStep(s, i).Some?
    ensures var s' := ProducerStep(s, i).value;
            && |s'.producers| == |s.producers| && s'.producers == s.producers[i := s'.producers[i]]
            && s'.installed && s'.consumer == s.consumer && s'.setter == s.setter
            && (s'.count > 0 || StepsToSignal(s'.producers[i]) < StepsToSignal(s.producers[i]))
  {
    if s.producers[i].SawEventfd? {
      assert s.producers[i].installed;
    }
  }

  /** With the eventfd installed, whatever is done while the consumer waits wakes it or brings the
      next signal closer: even a new event does. */
  lemma StepComesCloser(s: State, a: Action)
    requires Inv(s) && s.installed && s.consumer == Polling && s.count == 0 && Next(s, a).Some?
    ensures var s' := Next(s, a).value;
            && s'.installed && s'.consumer == Polling
            && (s'.count > 0 || StepsToWake(s') < StepsToWake(s))
  {
    match a
    case Queue(i, ev) => ProducerMoves(s.producers, i, WantsRing(ev));
    case Produce(i) => ProducerComesCloser(s, i);
    case Consume =>
    case Set =>
  }

  /** A waiting consumer is woken: with the eventfd installed, in every interleaving and however
      unfair, within twelve steps a producer and three of the setter. With unread events some step
      can always be taken (`WaitingIsNeverStuck`). */
  lemma {:induction false} WaitingIsWoken(ss: seq<State>, acts: seq<Action>, n: nat, k: nat)
    requires Run(ss, acts) && n + k < |ss| && k > StepsToWake(ss[n])
    requires ss[n].consumer == Polling && ss[n].installed
    ensures StepsToWake(ss[n]) <= 12 * |ss[n].producers| + 3
    ensures exists m :: n <= m <= n + k && ss[m].consumer == Polling && ss[m].count > 0
    decreases k
  {
    RunKeepsInv(ss, acts, n);
    ProducerStepsBound(ss[n].producers);
    if ss[n].count == 0 {
      assert Next(ss[n], acts[n]) == Some(ss[n + 1]);
      StepComesCloser(ss[n], acts[n]);
      if ss[n + 1].count == 0 {
        WaitingIsWoken(ss, acts, n + 1, k - 1);
      }
    }
  }
}
