/** The NVMe queue engine: submission entries consumed in ring order after a doorbell, and one
completion posted for each (examples/nvme/nvme_card.c).

Host memory is seen entry by entry: a submission entry by its address, a completion by the
address it was posted to. */
module NvmeQueue {
  import opened Arithmetic
  import opened Bytes
  import opened NvmeStatus

  const MAX_QUEUES: nat := 16
  const SQ_ENTRY: nat := 64
  const CQ_ENTRY: nat := 16
  const SQ0TDBL: nat := 0x1000

  const DELETE_SQ: byte := 0x00
  const CREATE_SQ: byte := 0x01
  const GET_LOG_PAGE: byte := 0x02
  const DELETE_CQ: byte := 0x04
  const CREATE_CQ: byte := 0x05
  const IDENTIFY: byte := 0x06
  const SET_FEATURES: byte := 0x09
  const FLUSH: byte := 0x00
  const WRITE: byte := 0x01
  const READ: byte := 0x02

  datatype Command = Command(opcode: byte, cid: nat, nsid: nat, prp1: nat, cdw10: nat, cdw11: nat) {
    function QueueId(): nat { cdw10 % U16 }
    /** `qsize + 1` in sixteen bits: zero for the largest queue. */
    function QueueEntries(): nat { (cdw10 / U16 % U16 + 1) % U16 }
    function Vector(): nat { cdw11 / U16 % U16 }

    /** An admin command about queue `qid`. */
    predicate Touches(qid: nat) {
      opcode in {CREATE_CQ, CREATE_SQ, DELETE_CQ, DELETE_SQ} && QueueId() == qid
    }
  }

  const NO_COMMAND: Command := Command(0, 0, 0, 0, 0, 0)

  datatype Completion = Completion(result: nat, sqHead: nat, sqId: nat, cid: nat, status: nat)

  datatype Queue = Queue(created: bool, sqSize: nat, cqSize: nat, sqAddr: nat, cqAddr: nat, sqTail: nat,
                         sqHead: nat, cqTail: nat, cqHead: nat, cqPhase: nat, vector: nat, id: nat)

  function ResetQueue(q: Queue): Queue {
    Queue(false, 0, 0, 0, 0, 0, 0, 0, 0, 1, 0, q.id)
  }

  /** What the rest of the card answers to a command, and whether the completion reached the host. */
  datatype Reply = Reply(status: nat, result: nat, delivered: bool)

  /** The answers the code can give. A data transfer may fail at any time. */
  predicate Answers(admin: bool, c: Command, r: Reply) {
    if !admin then
      && r.result == 0
      && (if c.opcode == FLUSH then r.status == SUCCESS
          else if c.opcode == READ || c.opcode == WRITE then r.status in {SUCCESS, INVALID_FIELD, INTERNAL}
          else r.status == INVALID_FIELD)
    else if c.opcode == CREATE_CQ || c.opcode == CREATE_SQ then
      r.result == 0 && r.status == if c.QueueId() < MAX_QUEUES then SUCCESS else INVALID_QUEUE_CREATE
    else if c.opcode == DELETE_CQ || c.opcode == DELETE_SQ then
      r.result == 0 && r.status == if c.QueueId() < MAX_QUEUES then SUCCESS else INVALID_QUEUE_DELETE
    else if c.opcode == GET_LOG_PAGE then
      r.result == 0 && r.status == if c.cdw10 % 256 in {1, 2} then SUCCESS else INVALID_FIELD
    else if c.opcode == IDENTIFY then
      r.result == 0 && (if c.cdw10 % 256 > 3 then r.status == INVALID_FIELD
                        else r.status in {SUCCESS, INVALID_NS, INTERNAL})
    else if c.opcode == SET_FEATURES then
      if c.cdw10 % 256 == 7 then r.status == SUCCESS && r.result == 15 * U16 + 15
      else r.result == 0 && r.status in {SUCCESS, INVALID_FIELD}
    else r.result == 0 && r.status == INVALID_FIELD
  }

  function AfterAdmin(qs: seq<Queue>, c: Command): (r: seq<Queue>)
    requires |qs| == MAX_QUEUES
    ensures |r| == MAX_QUEUES
  {
    var i := c.QueueId();
    if i >= MAX_QUEUES then qs
    else if c.opcode == CREATE_CQ then
      qs[i := qs[i].(cqAddr := c.prp1, cqSize := c.QueueEntries(), vector := c.Vector(), created := true)]
    else if c.opcode == CREATE_SQ then
      qs[i := qs[i].(sqAddr := c.prp1, sqSize := c.QueueEntries(), created := true)]
    else if c.opcode == DELETE_CQ || c.opcode == DELETE_SQ then
      qs[i := ResetQueue(qs[i])]
    else qs
  }

  /** The completion tail after one more completion; the phase flips when it wraps. A queue
      of 65536 entries has size zero, and the sixteen-bit tail wraps by itself. */
  function AdvanceCq(q: Queue): Queue {
    var tail := (q.cqTail + 1) % U16;
    if tail == q.cqSize then q.(cqTail := 0, cqPhase := 1 - q.cqPhase % 2) else q.(cqTail := tail)
  }

  function CompletionFor(q: Queue, c: Command, r: Reply): Completion {
    Completion(r.result, q.sqHead, q.id, c.cid, r.status + q.cqPhase % 2)
  }

  function CqSlot(q: Queue): nat {
    (q.cqAddr + q.cqTail * CQ_ENTRY) % U64
  }

  datatype Done = Done(qid: nat, command: Command, completion: Completion)

  /** The queues, the completions in host memory, and what has been executed so far. */
  datatype Card = Card(queues: seq<Queue>, host: map<nat, Completion>, log: seq<Done>) {
    predicate Valid() {
      |queues| == MAX_QUEUES && forall i :: 0 <= i < MAX_QUEUES ==> queues[i].id == i && queues[i].cqPhase < 2
    }
  }

  function Execute(s: Card, qid: nat, c: Command, r: Reply): (s': Card)
    requires s.Valid() && qid < MAX_QUEUES
    ensures s'.Valid()
  {
    var qs := if s.queues[qid].id == 0 then AfterAdmin(s.queues, c) else s.queues;
    var q := qs[qid];
    var cpl := CompletionFor(q, c, r);
    Card(qs[qid := AdvanceCq(q)], if r.delivered then s.host[CqSlot(q) := cpl] else s.host, s.log + [Done(qid, c, cpl)])
  }

  function Fetch(entries: map<nat, Command>, sqAddr: nat, head: nat): Command {
    var a := (sqAddr + head * SQ_ENTRY) % U64;
    if a in entries then entries[a] else NO_COMMAND
  }

  /** One turn of the doorbell loop whose entry read succeeds. */
  function ServeOne(s: Card, qid: nat, entries: map<nat, Command>, r: Reply): (s': Card)
    requires s.Valid() && qid < MAX_QUEUES
    ensures s'.Valid()
  {
    var q := s.queues[qid];
    Execute(s.(queues := s.queues[qid := q.(sqHead := Succ(q.sqHead, q.sqSize))]), qid,
            Fetch(entries, q.sqAddr, q.sqHead), r)
  }

  function Serve(s: Card, qid: nat, entries: map<nat, Command>, rs: seq<Reply>): (s': Card)
    requires s.Valid() && qid < MAX_QUEUES
    ensures s'.Valid()
    decreases |rs|
  {
    if rs == [] then s
    else
      var n := |rs| - 1;
      ServeOne(Serve(s, qid, entries, rs[..n]), qid, entries, rs[n])
  }

  // ---- ring positions ----

  /** (head + 1) % size */
  function Succ(head: nat, size: nat): nat {
    if size == 0 then head else (head + 1) % size
  }

  lemma SuccInRing(head: nat, size: nat)
    requires head < size
    ensures Succ(head, size) == if head + 1 == size then 0 else head + 1
  {
  }

  /** The number of entries from head to tail. */
  function Distance(head: nat, tail: nat, size: nat): nat
    requires head < size && tail < size
  {
    if head <= tail then tail - head else tail + size - head
  }

  lemma DistanceIsMod(head: nat, tail: nat, size: nat)
    requires head < size && tail < size
    ensures Distance(head, tail, size) == (tail - head) % size
  {
  }

  /** The slot `k` places after `head`. */
  function RingPos(head: nat, k: nat, size: nat): nat {
    if k == 0 then head else Succ(RingPos(head, k - 1, size), size)
  }

  lemma {:induction false} RingPosInRing(head: nat, tail: nat, k: nat, size: nat)
    requires head < size && tail < size && k <= Distance(head, tail, size)
    ensures RingPos(head, k, size) < size
    ensures Distance(RingPos(head, k, size), tail, size) == Distance(head, tail, size) - k
  {
    if k != 0 {
      RingPosInRing(head, tail, k - 1, size);
      SuccInRing(RingPos(head, k - 1, size), size);
    }
  }

  /** A tail outside the ring is never reached. */
  lemma {:induction false} TailOutsideNeverReached(head: nat, tail: nat, k: nat, size: nat)
    requires head < size <= tail
    ensures RingPos(head, k, size) < size && RingPos(head, k, size) != tail
  {
  }

  // ---- what serving a queue does ----

  /** A queue as the host may ring its doorbell: head and tail inside the ring, and no pending
      command that re-creates or deletes this very queue. */
  ghost predicate Serviceable(s: Card, qid: nat, entries: map<nat, Command>)
    requires s.Valid() && qid < MAX_QUEUES
  {
    var q := s.queues[qid];
    && q.sqHead < q.sqSize && q.sqTail < q.sqSize
    && (qid == 0 ==> forall k :: 0 <= k < Distance(q.sqHead, q.sqTail, q.sqSize) ==>
                       !PendingAt(q, entries, k).Touches(0))
  }

  /** The `k`-th pending command. */
  function PendingAt(q: Queue, entries: map<nat, Command>, k: nat): Command {
    Fetch(entries, q.sqAddr, RingPos(q.sqHead, k, q.sqSize))
  }

  /** The completion side after `k` more completions. */
  function AdvanceCqBy(q: Queue, k: nat): Queue {
    if k == 0 then q else AdvanceCq(AdvanceCqBy(q, k - 1))
  }

  lemma {:induction false} AdvanceCqByKeeps(q: Queue, k: nat, head: nat)
    ensures AdvanceCqBy(q, k) == q.(cqTail := AdvanceCqBy(q, k).cqTail, cqPhase := AdvanceCqBy(q, k).cqPhase)
    ensures AdvanceCqBy(q.(sqHead := head), k) == AdvanceCqBy(q, k).(sqHead := head)
  {
    if k != 0 {
      AdvanceCqByKeeps(q, k - 1, head);
    }
  }

  /** What is logged for the `k`-th pending command: it, and its completion with its own
      identifier, the head just past its entry, and the phase of that completion. */
  function DoneAt(q: Queue, entries: map<nat, Command>, k: nat, r: Reply): Done {
    var c := PendingAt(q, entries, k);
    Done(q.id, c, Completion(r.result, RingPos(q.sqHead, k + 1, q.sqSize), q.id, c.cid,
                             r.status + AdvanceCqBy(q, k).cqPhase % 2))
  }

  lemma OtherQueuesAside(s: Card, qid: nat, entries: map<nat, Command>, r: Reply)
    requires s.Valid() && qid < MAX_QUEUES
    requires qid == 0 ==> !Fetch(entries, s.queues[qid].sqAddr, s.queues[qid].sqHead).Touches(0)
    ensures var q := s.queues[qid];
            var c := Fetch(entries, q.sqAddr, q.sqHead);
            var q1 := q.(sqHead := Succ(q.sqHead, q.sqSize));
            && ServeOne(s, qid, entries, r).queues[qid] == AdvanceCq(q1)
            && ServeOne(s, qid, entries, r).log == s.log + [Done(qid, c, CompletionFor(q1, c, r))]
    ensures qid != 0 ==> forall j :: 0 <= j < MAX_QUEUES && j != qid ==>
                                       ServeOne(s, qid, entries, r).queues[j] == s.queues[j]
  {
  }

  function DoneAll(q: Queue, entries: map<nat, Command>, rs: seq<Reply>): seq<Done> {
    seq(|rs|, k requires 0 <= k < |rs| => DoneAt(q, entries, k, rs[k]))
  }

  lemma DoneAllGrows(q: Queue, entries: map<nat, Command>, rs: seq<Reply>)
    requires rs != []
    ensures DoneAll(q, entries, rs)
         == DoneAll(q, entries, rs[..|rs| - 1]) + [DoneAt(q, entries, |rs| - 1, rs[|rs| - 1])]
  {
  }

  /** The queue after `k` entries have been served. */
  function Served(q: Queue, k: nat): Queue {
    AdvanceCqBy(q, k).(sqHead := RingPos(q.sqHead, k, q.sqSize))
  }

  lemma ServedNext(q: Queue, entries: map<nat, Command>, n: nat, r: Reply)
    ensures var q1 := Served(q, n);
            var q2 := q1.(sqHead := Succ(q1.sqHead, q1.sqSize));
            && Fetch(entries, q1.sqAddr, q1.sqHead) == PendingAt(q, entries, n)
            && AdvanceCq(q2) == Served(q, n + 1)
            && Done(q.id, PendingAt(q, entries, n), CompletionFor(q2, PendingAt(q, entries, n), r))
               == DoneAt(q, entries, n, r)
  {
    AdvanceCqByKeeps(q, n, 0);
  }

  /** Doorbell exactness, for any prefix of the pending entries: as many have been executed as
      were read, in ring order, each with one completion; the queue has moved by as many, and
      an I/O queue has left the others alone. */
  lemma {:induction false} ServeIsExact(s: Card, qid: nat, entries: map<nat, Command>, rs: seq<Reply>)
    requires s.Valid() && qid < MAX_QUEUES && Serviceable(s, qid, entries)
    requires |rs| <= Distance(s.queues[qid].sqHead, s.queues[qid].sqTail, s.queues[qid].sqSize)
    ensures Serve(s, qid, entries, rs).queues[qid] == Served(s.queues[qid], |rs|)
    ensures Serve(s, qid, entries, rs).log == s.log + DoneAll(s.queues[qid], entries, rs)
    ensures qid != 0 ==> forall j :: 0 <= j < MAX_QUEUES && j != qid ==>
                                       Serve(s, qid, entries, rs).queues[j] == s.queues[j]
    decreases |rs|
  {
    if rs != [] {
      var q, n := s.queues[qid], |rs| - 1;
      ServeIsExact(s, qid, entries, rs[..n]);
      ServedNext(q, entries, n, rs[n]);
      OtherQueuesAside(Serve(s, qid, entries, rs[..n]), qid, entries, rs[n]);
      DoneAllGrows(q, entries, rs);
    }
  }

  // ---- when the doorbell loop ends ----

  /** One turn of the doorbell loop as the queues see it: what is answered does not matter. */
  function Turn(qs: seq<Queue>, qid: nat, entries: map<nat, Command>): (r: seq<Queue>)
    requires |qs| == MAX_QUEUES && qid < MAX_QUEUES
    ensures |r| == MAX_QUEUES
  {
    var q := qs[qid];
    var moved := qs[qid := q.(sqHead := Succ(q.sqHead, q.sqSize))];
    var after := if q.id == 0 then AfterAdmin(moved, Fetch(entries, q.sqAddr, q.sqHead)) else moved;
    after[qid := AdvanceCq(after[qid])]
  }

  function Turns(qs: seq<Queue>, qid: nat, entries: map<nat, Command>, k: nat): (r: seq<Queue>)
    requires |qs| == MAX_QUEUES && qid < MAX_QUEUES
    ensures |r| == MAX_QUEUES
  {
    if k == 0 then qs else Turn(Turns(qs, qid, entries, k - 1), qid, entries)
  }

  /** The command of the `k`-th turn. */
  function CommandAt(qs: seq<Queue>, qid: nat, entries: map<nat, Command>, k: nat): Command
    requires |qs| == MAX_QUEUES && qid < MAX_QUEUES
  {
    var q := Turns(qs, qid, entries, k)[qid];
    Fetch(entries, q.sqAddr, q.sqHead)
  }

  lemma {:induction false} ServeTurns(s: Card, qid: nat, entries: map<nat, Command>, rs: seq<Reply>)
    requires s.Valid() && qid < MAX_QUEUES
    ensures Serve(s, qid, entries, rs).queues == Turns(s.queues, qid, entries, |rs|)
    decreases |rs|
  {
    if rs != [] {
      ServeTurns(s, qid, entries, rs[..|rs| - 1]);
    }
  }

  /** The loop goes on for another turn, and that turn does not divide by a size of zero. */
  predicate TurnsOn(q: Queue) {
    q.sqHead != q.sqTail && q.sqSize > 0
  }

  predicate Drained(q: Queue) {
    q.sqHead == q.sqTail
  }

  /** The loop ends, after exactly `n` turns. */
  ghost predicate EndsAfter(s: Card, qid: nat, entries: map<nat, Command>, n: nat)
    requires s.Valid() && qid < MAX_QUEUES
  {
    && Drained(Turns(s.queues, qid, entries, n)[qid])
    && forall k: nat :: k < n ==> TurnsOn(Turns(s.queues, qid, entries, k)[qid])
  }

  ghost predicate Ends(s: Card, qid: nat, entries: map<nat, Command>)
    requires s.Valid() && qid < MAX_QUEUES
  {
    exists n: nat :: EndsAfter(s, qid, entries, n)
  }

  /** The first `n` pending commands leave the admin queue itself alone. */
  ghost predicate KeepsRing(q: Queue, qid: nat, entries: map<nat, Command>, n: nat) {
    qid == 0 ==> forall k: nat :: k < n ==> !PendingAt(q, entries, k).Touches(0)
  }

  /** A turn whose command leaves the queue itself alone moves its head and its completion tail. */
  lemma TurnIs(qs: seq<Queue>, qid: nat, entries: map<nat, Command>)
    requires |qs| == MAX_QUEUES && qid < MAX_QUEUES && qs[qid].id == qid
    requires qid == 0 ==> !Fetch(entries, qs[qid].sqAddr, qs[qid].sqHead).Touches(0)
    ensures Turn(qs, qid, entries)[qid] == AdvanceCq(qs[qid].(sqHead := Succ(qs[qid].sqHead, qs[qid].sqSize)))
  {
  }

  lemma {:induction false} TurnsServe(s: Card, qid: nat, entries: map<nat, Command>, n: nat)
    requires s.Valid() && qid < MAX_QUEUES && KeepsRing(s.queues[qid], qid, entries, n)
    ensures Turns(s.queues, qid, entries, n)[qid] == Served(s.queues[qid], n)
  {
    if n != 0 {
      TurnsServe(s, qid, entries, n - 1);
      ServedNext(s.queues[qid], entries, n - 1, Reply(0, 0, true));
      AdvanceCqByKeeps(s.queues[qid], n - 1, 0);
      assert qid == 0 ==> !PendingAt(s.queues[qid], entries, n - 1).Touches(0);
      TurnIs(Turns(s.queues, qid, entries, n - 1), qid, entries);
    }
  }

  /** The ring after `n` turns, when the ring itself has not been changed. */
  lemma RingAfter(s: Card, qid: nat, entries: map<nat, Command>, n: nat)
    requires s.Valid() && qid < MAX_QUEUES && KeepsRing(s.queues[qid], qid, entries, n)
    ensures var q, now := s.queues[qid], Turns(s.queues, qid, entries, n)[qid];
            now.sqHead == RingPos(q.sqHead, n, q.sqSize) && now.sqTail == q.sqTail && now.sqSize == q.sqSize
  {
    TurnsServe(s, qid, entries, n);
    AdvanceCqByKeeps(s.queues[qid], n, 0);
  }

  lemma PendingEnds(s: Card, qid: nat, entries: map<nat, Command>)
    requires s.Valid() && qid < MAX_QUEUES && Serviceable(s, qid, entries)
    ensures EndsAfter(s, qid, entries, PendingCount(s, qid, entries))
  {
    var q, n := s.queues[qid], PendingCount(s, qid, entries);
    forall k: nat | k <= n
      ensures var now := Turns(s.queues, qid, entries, k)[qid];
              now.sqSize > 0 && (now.sqHead == now.sqTail <==> k == n)
    {
      RingAfter(s, qid, entries, k);
      RingPosInRing(q.sqHead, q.sqTail, k, q.sqSize);
    }
  }

  lemma EndsOnce(s: Card, qid: nat, entries: map<nat, Command>, m: nat, n: nat)
    requires s.Valid() && qid < MAX_QUEUES && EndsAfter(s, qid, entries, m) && EndsAfter(s, qid, entries, n)
    ensures m == n
  {
  }

  /** No command in the ring of the admin queue is about the admin queue itself. */
  ghost predicate LeavesRing(q: Queue, qid: nat, entries: map<nat, Command>) {
    qid == 0 ==> forall k: nat :: !PendingAt(q, entries, k).Touches(0)
  }

  lemma {:induction false} RingPosAfterOne(head: nat, k: nat, size: nat)
    ensures RingPos(head, k + 1, size) == RingPos(Succ(head, size), k, size)
  {
    if k == 0 {
      assert RingPos(head, 0, size) == head;
    } else {
      RingPosAfterOne(head, k - 1, size);
    }
  }

  lemma RingPosBelow(head: nat, k: nat, size: nat)
    requires size > 0 && k > 0
    ensures RingPos(head, k, size) < size
  {
  }

  lemma TailInRingEnds(s: Card, qid: nat, entries: map<nat, Command>) returns (n: nat)
    requires s.Valid() && qid < MAX_QUEUES && LeavesRing(s.queues[qid], qid, entries)
    requires s.queues[qid].sqTail < s.queues[qid].sqSize
    ensures EndsAfter(s, qid, entries, n)
  {
    var q := s.queues[qid];
    if q.sqHead == q.sqTail {
      assert Turns(s.queues, qid, entries, 0)[qid] == q;
      return 0;
    }
    var next := Succ(q.sqHead, q.sqSize);
    n := Distance(next, q.sqTail, q.sqSize) + 1;
    forall k: nat | k <= n
      ensures var now := Turns(s.queues, qid, entries, k)[qid];
              now.sqSize > 0 && (now.sqHead == now.sqTail <==> k == n)
    {
      RingAfter(s, qid, entries, k);
      if k > 0 {
        RingPosAfterOne(q.sqHead, k - 1, q.sqSize);
        RingPosInRing(next, q.sqTail, k - 1, q.sqSize);
      }
    }
  }

  /** The loop of a queue whose ring its own commands leave alone ends if and only if the tail
      is where the head already is or lies in the ring. */
  lemma DoorbellEndsIff(s: Card, qid: nat, entries: map<nat, Command>)
    requires s.Valid() && qid < MAX_QUEUES && LeavesRing(s.queues[qid], qid, entries)
    ensures var q := s.queues[qid];
            Ends(s, qid, entries) <==> q.sqHead == q.sqTail || q.sqTail < q.sqSize
  {
    var q := s.queues[qid];
    assert Turns(s.queues, qid, entries, 0)[qid] == q;
    if q.sqHead == q.sqTail {
      assert EndsAfter(s, qid, entries, 0);
    } else if q.sqTail < q.sqSize {
      var n := TailInRingEnds(s, qid, entries);
    } else if Ends(s, qid, entries) {
      var n: nat :| EndsAfter(s, qid, entries, n);
      assert n > 0 && TurnsOn(q);
      RingAfter(s, qid, entries, n);
      RingPosBelow(q.sqHead, n, q.sqSize);
    }
  }

  /** The log of a number of turns: one entry each, with its command and that command's identifier. */
  ghost predicate LogsTurns(s: Card, now: Card, qid: nat, entries: map<nat, Command>, n: nat)
    requires s.Valid() && qid < MAX_QUEUES
  {
    && |now.log| == |s.log| + n && s.log <= now.log
    && forall k :: 0 <= k < n ==> IsDone(now.log[|s.log| + k], qid, CommandAt(s.queues, qid, entries, k))
  }

  ghost predicate IsDone(done: Done, qid: nat, c: Command) {
    done.qid == qid && done.command == c && done.completion.cid == c.cid
  }

  lemma ServeOneLogs(s: Card, qid: nat, entries: map<nat, Command>, r: Reply)
    requires s.Valid() && qid < MAX_QUEUES
    ensures var q, now := s.queues[qid], ServeOne(s, qid, entries, r);
            && |now.log| == |s.log| + 1 && now.log[..|s.log|] == s.log
            && IsDone(now.log[|s.log|], qid, Fetch(entries, q.sqAddr, q.sqHead))
  {
  }

  lemma {:induction false} ServeLogs(s: Card, qid: nat, entries: map<nat, Command>, rs: seq<Reply>)
    requires s.Valid() && qid < MAX_QUEUES
    ensures LogsTurns(s, Serve(s, qid, entries, rs), qid, entries, |rs|)
    decreases |rs|
  {
    if rs != [] {
      var n := |rs| - 1;
      var mid, now := Serve(s, qid, entries, rs[..n]), Serve(s, qid, entries, rs);
      ServeLogs(s, qid, entries, rs[..n]);
      ServeTurns(s, qid, entries, rs[..n]);
      ServeOneLogs(mid, qid, entries, rs[n]);
      forall k | 0 <= k < |rs|
        ensures IsDone(now.log[|s.log| + k], qid, CommandAt(s.queues, qid, entries, k))
      {
        assert k < n ==> now.log[|s.log| + k] == mid.log[|s.log| + k];
      }
    }
  }

  // ---- the controller ----

  class Controller {
    const queues: array<Queue>
    var host: map<nat, Completion>
    ghost var log: seq<Done>

    ghost function View(): Card
      reads this, queues
    {
      Card(queues[..], host, log)
    }

    ghost predicate Valid()
      reads this, queues
    {
      queues.Length == MAX_QUEUES && View().Valid()
    }

    constructor (memory: map<nat, Completion>)
      ensures Valid() && fresh(queues) && host == memory && log == []
      ensures forall i :: 0 <= i < MAX_QUEUES ==> queues[i] == ResetQueue(queues[i])
    {
      queues := new Queue[MAX_QUEUES](i => Queue(false, 0, 0, 0, 0, 0, 0, 0, 0, 1, 0, i));
      host, log := memory, [];
    }

    method ResetQueues()
      requires Valid()
      modifies queues
      ensures Valid() && forall i :: 0 <= i < MAX_QUEUES ==> queues[i] == ResetQueue(old(queues[i]))
    {
      var i := 0;
      while i < MAX_QUEUES
        invariant i <= MAX_QUEUES && Valid()
        invariant forall k :: 0 <= k < MAX_QUEUES ==>
                    queues[k] == if k < i then ResetQueue(old(queues[k])) else old(queues[k])
      {
        queues[i] := ResetQueue(queues[i]);
        i := i + 1;
      }
    }

    /** A queue command takes effect at once; any other answer is the rest of the card's. */
    method ExecuteAdminCommand(c: Command, other: Reply) returns (r: Reply)
      requires Valid() && Answers(true, c, other)
      modifies queues
      ensures Valid() && queues[..] == AfterAdmin(old(queues[..]), c)
      ensures Answers(true, c, r) && r.delivered == other.delivered
    {
      var i := c.QueueId();
      if c.opcode == CREATE_CQ {
        if i >= MAX_QUEUES { return Reply(INVALID_QUEUE_CREATE, 0, other.delivered); }
        queues[i] := queues[i].(cqAddr := c.prp1, cqSize := c.QueueEntries(), vector := c.Vector(), created := true);
        return Reply(SUCCESS, 0, other.delivered);
      } else if c.opcode == CREATE_SQ {
        if i >= MAX_QUEUES { return Reply(INVALID_QUEUE_CREATE, 0, other.delivered); }
        queues[i] := queues[i].(sqAddr := c.prp1, sqSize := c.QueueEntries(), created := true);
        return Reply(SUCCESS, 0, other.delivered);
      } else if c.opcode == DELETE_CQ || c.opcode == DELETE_SQ {
        if i >= MAX_QUEUES { return Reply(INVALID_QUEUE_DELETE, 0, other.delivered); }
        queues[i] := ResetQueue(queues[i]);
        return Reply(SUCCESS, 0, other.delivered);
      }
      r := other;
    }

    /** The data transfer, or whatever else the command asks for besides queues. */
    method RestOfCommand(admin: bool, c: Command) returns (r: Reply)
      ensures Answers(admin, c, r)
    {
      var delivered: bool, fails: bool, refused: bool := *, *, *;
      var status, result := INVALID_FIELD, 0;
      if !admin {
        if c.opcode == FLUSH {
          status := SUCCESS;
        } else if c.opcode == READ || c.opcode == WRITE {
          status := if refused then INVALID_FIELD else if fails then INTERNAL else SUCCESS;
        }
      } else if c.opcode == GET_LOG_PAGE {
        if c.cdw10 % 256 in {1, 2} { status := SUCCESS; }
      } else if c.opcode == IDENTIFY {
        if c.cdw10 % 256 <= 3 { status := if refused then INVALID_NS else if fails then INTERNAL else SUCCESS; }
      } else if c.opcode == CREATE_CQ || c.opcode == CREATE_SQ {
        status := if c.QueueId() < MAX_QUEUES then SUCCESS else INVALID_QUEUE_CREATE;
      } else if c.opcode == DELETE_CQ || c.opcode == DELETE_SQ {
        status := if c.QueueId() < MAX_QUEUES then SUCCESS else INVALID_QUEUE_DELETE;
      } else if c.opcode == SET_FEATURES {
        if c.cdw10 % 256 == 7 {
          status, result := SUCCESS, 15 * U16 + 15;
        } else if !refused {
          status := SUCCESS;
        }
      }
      r := Reply(status, result, delivered);
    }

    method PostCompletion(qid: nat, c: Command, r: Reply)
      requires Valid() && qid < MAX_QUEUES
      modifies this, queues
      ensures Valid()
      ensures var q := old(queues[qid]);
              && queues[..] == old(queues[..])[qid := AdvanceCq(q)]
              && host == (if r.delivered then old(host)[CqSlot(q) := CompletionFor(q, c, r)] else old(host))
              && log == old(log) + [Done(qid, c, CompletionFor(q, c, r))]
    {
      var q := queues[qid];
      var cpl := Completion(r.result, q.sqHead, q.id, c.cid, r.status + q.cqPhase % 2);
      if r.delivered {
        host := host[(q.cqAddr + q.cqTail * CQ_ENTRY) % U64 := cpl];
      }
      log := log + [Done(qid, c, cpl)];
      q := q.(cqTail := (q.cqTail + 1) % U16);
      if q.cqTail == q.cqSize {
        q := q.(cqTail := 0, cqPhase := 1 - q.cqPhase % 2);
      }
      queues[qid] := q;
    }

    method ExecuteCommand(qid: nat, c: Command) returns (ghost r: Reply)
      requires Valid() && qid < MAX_QUEUES
      modifies this, queues
      ensures Valid() && Answers(qid == 0, c, r)
      ensures View() == Execute(old(View()), qid, c, r)
    {
      var reply := RestOfCommand(queues[qid].id == 0, c);
      if queues[qid].id == 0 {
        reply := ExecuteAdminCommand(c, reply);
      }
      PostCompletion(qid, c, reply);
      r := reply;
    }

    /** One turn of the loop: the entry at the head is read, the head moves, the command runs. */
    method ServeEntry(qid: nat, entries: map<nat, Command>) returns (ghost r: Reply)
      requires Valid() && qid < MAX_QUEUES && queues[qid].sqSize > 0
      modifies this, queues
      ensures Valid()
      ensures View() == ServeOne(old(View()), qid, entries, r)
      ensures Answers(qid == 0, Fetch(entries, old(queues[qid]).sqAddr, old(queues[qid]).sqHead), r)
    {
      var q := queues[qid];
      var c := Fetch(entries, q.sqAddr, q.sqHead);
      queues[qid] := q.(sqHead := (q.sqHead + 1) % q.sqSize);
      ghost var moved := View();
      assert moved == old(View()).(queues := old(View()).queues[qid := q.(sqHead := Succ(q.sqHead, q.sqSize))]);
      r := ExecuteCommand(qid, c);
    }

    /** A submission doorbell: whatever number of entry reads fail on the way, the loop takes the
        turns that bring the head to the tail. When the ring is one the host may serve, these are
        exactly the pending commands, each once and in ring order, with one completion each. */
    method RingDoorbell(qid: nat, tail: nat, entries: map<nat, Command>, failures: nat) returns (ghost rs: seq<Reply>)
      requires Valid() && qid < MAX_QUEUES && Ends(WithTail(View(), qid, tail), qid, entries)
      modifies this, queues
      ensures Valid() && queues[qid].sqHead == queues[qid].sqTail
      ensures var s := old(WithTail(View(), qid, tail));
              && View() == Serve(s, qid, entries, rs) && EndsAfter(s, qid, entries, |rs|)
              && AllGiven(s, qid, entries, rs) && LogsTurns(s, View(), qid, entries, |rs|)
      ensures var s := old(WithTail(View(), qid, tail));
              Serviceable(s, qid, entries) ==> ServedExactly(s, View(), qid, tail, entries, rs)
      ensures qid != 0 ==> forall j :: 0 <= j < MAX_QUEUES && j != qid ==> queues[j] == old(queues[j])
    {
      rs := [];
      ghost var s := WithTail(View(), qid, tail);
      queues[qid] := queues[qid].(sqTail := tail);
      assert View() == s;
      ghost var n: nat :| EndsAfter(s, qid, entries, n);
      var faults := failures;
      while queues[qid].sqHead != queues[qid].sqTail
        invariant Valid() && InLoop(s, View(), qid, entries, n, rs)
        decreases n - |rs|, faults
      {
        LoopHead(s, View(), qid, entries, n, rs);
        var fails: bool := *;
        if fails && faults > 0 {
          faults := faults - 1;
        } else {
          ghost var now := View();
          ghost var r := ServeEntry(qid, entries);
          LoopStep(s, now, qid, entries, n, rs, r);
          rs := rs + [r];
        }
      }
      LoopEnd(s, View(), qid, entries, n, rs);
    }

    /** Doorbells alternate: submission, completion. A completion doorbell only records the
        host's head; the card never looks at it again. */
    method HandleDoorbellWrite(offset: nat, data: nat, entries: map<nat, Command>, failures: nat)
        returns (ghost rs: seq<Reply>)
      requires Valid() && SQ0TDBL <= offset
      requires var (qid, cq) := Doorbell(offset);
               qid < MAX_QUEUES && !cq ==> Ends(WithTail(View(), qid, data % U16), qid, entries)
      modifies this, queues
      ensures Valid()
      ensures var (qid, cq) := Doorbell(offset);
              View() == if qid >= MAX_QUEUES then old(View())
                        else if cq then WithCqHead(old(View()), qid, data % U16)
                        else Serve(WithTail(old(View()), qid, data % U16), qid, entries, rs)
      ensures var (qid, cq) := Doorbell(offset);
              qid < MAX_QUEUES && !cq ==>
                var s := old(WithTail(View(), qid, data % U16));
                && EndsAfter(s, qid, entries, |rs|) && queues[qid].sqHead == queues[qid].sqTail
                && (Serviceable(s, qid, entries) ==> queues[qid].sqHead == data % U16)
    {
      rs := [];
      var qid, cq := (offset - SQ0TDBL) / 8 % U16, (offset - SQ0TDBL) % 8 >= 4;
      if qid >= MAX_QUEUES { return; }
      if cq {
        ghost var qs := queues[..];
        queues[qid] := queues[qid].(cqHead := data % U16);
        assert queues[..] == qs[qid := qs[qid].(cqHead := data % U16)];
      } else {
        rs := RingDoorbell(qid, data % U16, entries, failures);
      }
    }
  }

  /** Which queue a doorbell register belongs to, and whether it is the completion one. */
  function Doorbell(offset: nat): (nat, bool)
    requires SQ0TDBL <= offset
  {
    ((offset - SQ0TDBL) / 8 % U16, (offset - SQ0TDBL) % 8 >= 4)
  }

  function WithCqHead(s: Card, qid: nat, head: nat): (s': Card)
    requires s.Valid() && qid < MAX_QUEUES
    ensures s'.Valid()
  {
    s.(queues := s.queues[qid := s.queues[qid].(cqHead := head)])
  }

  function WithTail(s: Card, qid: nat, tail: nat): (s': Card)
    requires s.Valid() && qid < MAX_QUEUES
    ensures s'.Valid()
  {
    s.(queues := s.queues[qid := s.queues[qid].(sqTail := tail)])
  }

  ghost function PendingCount(s: Card, qid: nat, entries: map<nat, Command>): nat
    requires s.Valid() && qid < MAX_QUEUES && Serviceable(s, qid, entries)
  {
    Distance(s.queues[qid].sqHead, s.queues[qid].sqTail, s.queues[qid].sqSize)
  }

  ghost predicate AllAnswered(q: Queue, qid: nat, entries: map<nat, Command>, rs: seq<Reply>) {
    forall k :: 0 <= k < |rs| ==> Answers(qid == 0, PendingAt(q, entries, k), rs[k])
  }

  /** Every turn's command has been given an answer that the code can give. */
  ghost predicate AllGiven(s: Card, qid: nat, entries: map<nat, Command>, rs: seq<Reply>)
    requires s.Valid() && qid < MAX_QUEUES
  {
    forall k :: 0 <= k < |rs| ==> Answers(qid == 0, CommandAt(s.queues, qid, entries, k), rs[k])
  }

  /** All pending commands have been executed, and nothing else. */
  ghost predicate ServedExactly(s: Card, now: Card, qid: nat, tail: nat, entries: map<nat, Command>, rs: seq<Reply>)
    requires s.Valid() && now.Valid() && qid < MAX_QUEUES && s.queues[qid].sqSize > 0
  {
    var q := s.queues[qid];
    && |rs| == (tail - q.sqHead) % q.sqSize && AllAnswered(q, qid, entries, rs)
    && now.log == s.log + DoneAll(q, entries, rs)
    && now.queues[qid] == Served(q, |rs|) && now.queues[qid].sqHead == tail
  }

  /** The doorbell loop, some of its `n` turns after it started in `s`. */
  ghost predicate InLoop(s: Card, now: Card, qid: nat, entries: map<nat, Command>, n: nat, rs: seq<Reply>)
    requires s.Valid() && qid < MAX_QUEUES
  {
    && |rs| <= n && EndsAfter(s, qid, entries, n)
    && now == Serve(s, qid, entries, rs) && AllGiven(s, qid, entries, rs)
  }

  lemma LoopHead(s: Card, now: Card, qid: nat, entries: map<nat, Command>, n: nat, rs: seq<Reply>)
    requires s.Valid() && qid < MAX_QUEUES && InLoop(s, now, qid, entries, n, rs)
    ensures |rs| < n <==> now.queues[qid].sqHead != now.queues[qid].sqTail
    ensures |rs| < n ==> now.queues[qid].sqSize > 0
  {
    ServeTurns(s, qid, entries, rs);
    assert |rs| < n ==> TurnsOn(Turns(s.queues, qid, entries, |rs|)[qid]);
  }

  lemma LoopStep(s: Card, now: Card, qid: nat, entries: map<nat, Command>, n: nat, rs: seq<Reply>, r: Reply)
    requires s.Valid() && qid < MAX_QUEUES && InLoop(s, now, qid, entries, n, rs) && |rs| < n
    requires Answers(qid == 0, Fetch(entries, now.queues[qid].sqAddr, now.queues[qid].sqHead), r)
    ensures InLoop(s, ServeOne(now, qid, entries, r), qid, entries, n, rs + [r])
  {
    var all := rs + [r];
    assert all[..|all| - 1] == rs;
    ServeTurns(s, qid, entries, rs);
    OneMoreGiven(s, qid, entries, rs, r);
  }

  lemma OneMoreGiven(s: Card, qid: nat, entries: map<nat, Command>, rs: seq<Reply>, r: Reply)
    requires s.Valid() && qid < MAX_QUEUES && AllGiven(s, qid, entries, rs)
    requires Answers(qid == 0, CommandAt(s.queues, qid, entries, |rs|), r)
    ensures AllGiven(s, qid, entries, rs + [r])
  {
    var all := rs + [r];
    forall k | 0 <= k < |all|
      ensures Answers(qid == 0, CommandAt(s.queues, qid, entries, k), all[k])
    {
      assert k < |rs| ==> all[k] == rs[k];
    }
  }

  lemma LoopEnd(s: Card, now: Card, qid: nat, entries: map<nat, Command>, n: nat, rs: seq<Reply>)
    requires s.Valid() && qid < MAX_QUEUES && InLoop(s, now, qid, entries, n, rs)
    requires now.queues[qid].sqHead == now.queues[qid].sqTail
    ensures EndsAfter(s, qid, entries, |rs|) && LogsTurns(s, now, qid, entries, |rs|)
    ensures Serviceable(s, qid, entries) ==> ServedExactly(s, now, qid, s.queues[qid].sqTail, entries, rs)
    ensures qid != 0 ==> forall j :: 0 <= j < MAX_QUEUES && j != qid ==> now.queues[j] == s.queues[j]
  {
    LoopHead(s, now, qid, entries, n, rs);
    ServeLogs(s, qid, entries, rs);
    ServeTurns(s, qid, entries, rs);
    if qid != 0 {
      OthersStay(s, qid, entries, |rs|);
    }
    if Serviceable(s, qid, entries) {
      EndsExactly(s, now, qid, entries, rs);
    }
  }

  lemma {:induction false} OthersStay(s: Card, qid: nat, entries: map<nat, Command>, n: nat)
    requires s.Valid() && 0 < qid < MAX_QUEUES
    ensures Turns(s.queues, qid, entries, n)[qid].id == qid
    ensures forall j :: 0 <= j < MAX_QUEUES && j != qid ==> Turns(s.queues, qid, entries, n)[j] == s.queues[j]
  {
    if n != 0 {
      OthersStay(s, qid, entries, n - 1);
    }
  }

  lemma AllAreAnswered(s: Card, qid: nat, entries: map<nat, Command>, rs: seq<Reply>)
    requires s.Valid() && qid < MAX_QUEUES && Serviceable(s, qid, entries) && |rs| <= PendingCount(s, qid, entries)
    requires AllGiven(s, qid, entries, rs)
    ensures AllAnswered(s.queues[qid], qid, entries, rs)
  {
    var q := s.queues[qid];
    forall k | 0 <= k < |rs|
      ensures Answers(qid == 0, PendingAt(q, entries, k), rs[k])
    {
      SameCommand(s, qid, entries, k);
    }
  }

  lemma SameCommand(s: Card, qid: nat, entries: map<nat, Command>, k: nat)
    requires s.Valid() && qid < MAX_QUEUES && KeepsRing(s.queues[qid], qid, entries, k)
    ensures CommandAt(s.queues, qid, entries, k) == PendingAt(s.queues[qid], entries, k)
  {
    TurnsServe(s, qid, entries, k);
    AdvanceCqByKeeps(s.queues[qid], k, 0);
  }

  lemma EndsExactly(s: Card, now: Card, qid: nat, entries: map<nat, Command>, rs: seq<Reply>)
    requires s.Valid() && qid < MAX_QUEUES && Serviceable(s, qid, entries) && InLoop(s, now, qid, entries, |rs|, rs)
    ensures ServedExactly(s, now, qid, s.queues[qid].sqTail, entries, rs)
  {
    var q := s.queues[qid];
    PendingEnds(s, qid, entries);
    EndsOnce(s, qid, entries, |rs|, PendingCount(s, qid, entries));
    DistanceIsMod(q.sqHead, q.sqTail, q.sqSize);
    AllAreAnswered(s, qid, entries, rs);
    ServeIsExact(s, qid, entries, rs);
    AllServed(q, |rs|);
  }

  lemma AllServed(q: Queue, n: nat)
    requires q.sqHead < q.sqSize && q.sqTail < q.sqSize && n == Distance(q.sqHead, q.sqTail, q.sqSize)
    ensures Served(q, n).sqHead == q.sqTail
  {
    AdvanceCqByKeeps(q, n, 0);
    RingPosInRing(q.sqHead, q.sqTail, n, q.sqSize);
  }
}
