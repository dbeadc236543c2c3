/** The io_uring client and an adversarial kernel as a two-party step system over the words of
    the shared rings. Every store of the client to the submission ring, and every read and store
    of the kernel, is one step, so a run is any interleaving. Memory is sequentially consistent. */
module RingMachine {
  import opened Words

  datatype Sqe = Sqe(opcode: Byte, flags: Byte, ioPrio: U16, fd: I32, off: U64, addr: U64, len: U32,
                     rwFlags: U32, userData: U64, bufIndex: U16, personality: U16, spliceFd: I32,
                     addr3: U64, pad2: U64)

  datatype Cqe = Cqe(userData: U64, res: I32, flags: U32)

  /** The words of both rings, as the loads of the client see them. */
  datatype Ring = Ring(sqHead: U32, sqTail: U32, sqMask: U32, sqEntries: U32, index: seq<U32>, sqes: seq<Sqe>,
                       cqHead: U32, cqTail: U32, cqMask: U32, cqes: seq<Cqe>)

  /** What io_uring_setup promises about the constant words. */
  ghost predicate Wf(r: Ring) {
    && IsRingSize(r.sqEntries) && r.sqMask == r.sqEntries - 1
    && |r.index| == r.sqEntries && |r.sqes| == r.sqEntries
    && IsRingSize(|r.cqes|) && r.cqMask == |r.cqes| - 1
  }

  lemma SlotInRange(r: Ring, w: U32)
    requires Wf(r)
    ensures And(w, r.sqMask) < r.sqEntries && And(w, r.cqMask) < |r.cqes|
  {
    assert w % B32 == w;
    WrappedSlot(w, r.sqEntries);
    WrappedSlot(w, |r.cqes|);
  }

  function SqSlot(r: Ring, w: U32): (slot: nat)
    requires Wf(r)
    ensures slot < r.sqEntries
  {
    SlotInRange(r, w);
    And(w, r.sqMask)
  }

  function CqSlot(r: Ring, w: U32): (slot: nat)
    requires Wf(r)
    ensures slot < |r.cqes|
  {
    SlotInRange(r, w);
    And(w, r.cqMask)
  }

  // ---- the step system ----

  /** Where the client stands inside submitAndWait, with the locals it still needs. */
  datatype ClientPc =
    | Idle
    | GotSqHead(sqe: Sqe, head: U32)
    | GotSqTail(sqe: Sqe, head: U32, tail: U32)
    | StoredSqe(sqe: Sqe, tail: U32)
    | StoredIndex(sqe: Sqe, tail: U32)
    | InEnter(sqe: Sqe)
    | Returned(sqe: Sqe)
    | GotCqHead(sqe: Sqe, head: U32)
    | GotCqTail(sqe: Sqe, head: U32)
    | GotCqe(sqe: Sqe, head: U32, cqe: Cqe)

  /** What one call of submitAndWait came to. */
  datatype CallResult =
    | Full(sqe: Sqe)
    | EnterFailed(sqe: Sqe)
    | Empty(sqe: Sqe)
    | Done(sqe: Sqe, cqe: Cqe)

  datatype KernelPc = KIdle | KRead(sqe: Sqe) | KWrote(i: nat, cqe: Cqe)

  datatype EnterResult = Errno(errno: nat) | Submitted(n: nat)

  datatype Machine = Machine(ring: Ring, pc: ClientPc, kpc: KernelPc, inflight: seq<Sqe>, log: seq<CallResult>)

  datatype Label =
    | Call(sqe: Sqe)                             // the client starts a call and loads the SQ head
    | Client                                     // the client's next load or store
    | EnterReturns(ret: EnterResult)             // io_uring_enter fails, is interrupted or succeeds
    | KernelRead                                 // the kernel copies the oldest pending SQE
    | KernelTake                                 // ... and advances the SQ head
    | KernelWrite(i: nat, res: I32, flags: U32)  // the kernel writes the CQE of in-flight request i
    | KernelPost                                 // ... and advances the CQ tail

  /** One step; a label that is not enabled leaves the machine alone. */
  function Step(m: Machine, l: Label): Machine
    requires Wf(m.ring)
  {
    var r := m.ring;
    match l
    case Call(sqe) => if m.pc.Idle? then m.(pc := GotSqHead(sqe, r.sqHead)) else m
    case Client => ClientStep(m)
    case EnterReturns(ret) =>
      if !m.pc.InEnter? then m
      else if ret == Submitted(1) then m.(pc := Returned(m.pc.sqe))
      else m.(pc := Idle, log := m.log + [EnterFailed(m.pc.sqe)])
    case KernelRead =>
      if m.kpc.KIdle? && r.sqHead != r.sqTail && r.index[SqSlot(r, r.sqHead)] < r.sqEntries
      then m.(kpc := KRead(r.sqes[r.index[SqSlot(r, r.sqHead)]]))
      else m
    case KernelTake =>
      if m.kpc.KRead?
      then m.(ring := r.(sqHead := WrapAdd(r.sqHead, 1)), kpc := KIdle, inflight := m.inflight + [m.kpc.sqe])
      else m
    case KernelWrite(i, res, flags) =>
      if m.kpc.KIdle? && i < |m.inflight| && WrapSub(r.cqTail, r.cqHead) < |r.cqes| then
        var cqe := Cqe(m.inflight[i].userData, res, flags);
        m.(ring := r.(cqes := r.cqes[CqSlot(r, r.cqTail) := cqe]), kpc := KWrote(i, cqe))
      else m
    case KernelPost =>
      if m.kpc.KWrote? && m.kpc.i < |m.inflight|
      then m.(ring := r.(cqTail := WrapAdd(r.cqTail, 1)), kpc := KIdle, inflight := Without(m.inflight, m.kpc.i))
      else m
  }

  function ClientStep(m: Machine): Machine
    requires Wf(m.ring)
  {
    var r := m.ring;
    match m.pc
    case Idle => m
    case GotSqHead(sqe, head) => m.(pc := GotSqTail(sqe, head, r.sqTail))
    case GotSqTail(sqe, head, tail) =>
      if WrapSub(tail, head) >= r.sqEntries then m.(pc := Idle, log := m.log + [Full(sqe)])
      else m.(ring := r.(sqes := r.sqes[SqSlot(r, tail) := sqe]), pc := StoredSqe(sqe, tail))
    case StoredSqe(sqe, tail) =>
      m.(ring := r.(index := r.index[SqSlot(r, tail) := SqSlot(r, tail)]), pc := StoredIndex(sqe, tail))
    case StoredIndex(sqe, tail) => m.(ring := r.(sqTail := WrapAdd(tail, 1)), pc := InEnter(sqe))
    case InEnter(_) => m
    case Returned(sqe) => m.(pc := GotCqHead(sqe, r.cqHead))
    case GotCqHead(sqe, head) =>
      if head == r.cqTail then m.(pc := Idle, log := m.log + [Empty(sqe)]) else m.(pc := GotCqTail(sqe, head))
    case GotCqTail(sqe, head) => m.(pc := GotCqe(sqe, head, r.cqes[CqSlot(r, head)]))
    case GotCqe(sqe, head, cqe) =>
      m.(ring := r.(cqHead := WrapAdd(head, 1)), pc := Idle, log := m.log + [Done(sqe, cqe)])
  }

  function Without<T>(s: seq<T>, i: nat): (r: seq<T>)
    requires i < |s|
    ensures |r| == |s| - 1
  {
    s[..i] + s[i + 1..]
  }

  lemma StepKeepsWf(m: Machine, l: Label)
    requires Wf(m.ring)
    ensures Wf(Step(m, l).ring)
  {}

  function Run(m: Machine, labels: seq<Label>): (m': Machine)
    requires Wf(m.ring)
    ensures Wf(m'.ring)
    decreases |labels|
  {
    if labels == [] then m
    else
      StepKeepsWf(m, labels[0]);
      Run(Step(m, labels[0]), labels[1..])
  }

  // ---- whole calls, with no step of the other party in between ----

  /** Everything submitAndWait does before entering the kernel; None when the queue is full. */
  function PublishAll(r: Ring, sqe: Sqe): Option<Ring>
    requires Wf(r)
  {
    if WrapSub(r.sqTail, r.sqHead) >= r.sqEntries then None
    else
      var slot := SqSlot(r, r.sqTail);
      Some(r.(sqes := r.sqes[slot := sqe], index := r.index[slot := slot], sqTail := WrapAdd(r.sqTail, 1)))
  }

  /** waitCompletion; None when there is no completion. */
  function ReapOne(r: Ring): Option<(Ring, Cqe)>
    requires Wf(r)
  {
    if r.cqHead == r.cqTail then None
    else Some((r.(cqHead := WrapAdd(r.cqHead, 1)), r.cqes[CqSlot(r, r.cqHead)]))
  }

  /** A freshly mapped ring: all four counters at zero, nothing in flight. */
  ghost predicate Fresh(m: Machine) {
    && Wf(m.ring) && m.ring.sqHead == m.ring.sqTail == m.ring.cqHead == m.ring.cqTail == 0
    && m.pc.Idle? && m.kpc.KIdle? && m.inflight == [] && m.log == []
  }
}

/** The specification: two first-in first-out queues with a bag of in-flight requests between
    them. No counters, no slots, no index array. */
module RingQueues {
  import opened Words
  import opened RingMachine

  datatype Queues = Queues(pending: seq<Sqe>, inflight: seq<Sqe>, posted: seq<Cqe>,
                           published: seq<Sqe>, reaped: seq<Cqe>)

  const NOTHING := Queues([], [], [], [], [])

  datatype Action =
    | Stutter
    | Publish(sqe: Sqe)
    | Consume
    | Post(i: nat, res: I32, flags: U32)
    | Reap

  /** Capacities: n pending submissions, c unread completions. */
  predicate Legal(q: Queues, n: nat, c: nat, a: Action) {
    match a
    case Stutter => true
    case Publish(_) => |q.pending| < n
    case Consume => q.pending != []
    case Post(i, _, _) => i < |q.inflight| && |q.posted| < c
    case Reap => q.posted != []
  }

  function Apply(q: Queues, n: nat, c: nat, a: Action): Queues
    requires Legal(q, n, c, a)
  {
    match a
    case Stutter => q
    case Publish(sqe) => q.(pending := q.pending + [sqe], published := q.published + [sqe])
    case Consume => q.(pending := q.pending[1..], inflight := q.inflight + [q.pending[0]])
    case Post(i, res, flags) =>
      q.(inflight := Without(q.inflight, i), posted := q.posted + [Cqe(q.inflight[i].userData, res, flags)])
    case Reap => q.(posted := q.posted[1..], reaped := q.reaped + [q.posted[0]])
  }

  // ---- the refinement relation ----

  /** The slot of the count-th entry; by WrappedSlot it is count modulo n. */
  ghost function SlotOf(count: nat, n: nat): (slot: nat)
    requires IsRingSize(n)
    ensures slot < n
  {
    WrappedSlot(count, n);
    And(count % B32, n - 1)
  }

  lemma SlotsApart(i: nat, j: nat, n: nat)
    requires IsRingSize(n) && i < j < i + n
    ensures SlotOf(i, n) != SlotOf(j, n)
  {
    WrappedSlot(i, n);
    WrappedSlot(j, n);
    DistinctSlots(i, j, n);
  }

  /** The i-th pending entry lies in the slot of count h + i, and the index array points there. */
  ghost predicate SqEntry(r: Ring, h: nat, pending: seq<Sqe>, i: nat)
    requires Wf(r) && i < |pending|
  {
    var s := SlotOf(h + i, r.sqEntries);
    r.index[s] == s && r.sqes[s] == pending[i]
  }

  ghost predicate CqEntry(r: Ring, h: nat, posted: seq<Cqe>, i: nat)
    requires Wf(r) && i < |posted|
  {
    r.cqes[SlotOf(h + i, |r.cqes|)] == posted[i]
  }

  /** The SQ words hold exactly the pending queue, h entries having left it so far. */
  ghost predicate SqHolds(r: Ring, h: nat, pending: seq<Sqe>)
    requires Wf(r)
  {
    && |pending| <= r.sqEntries
    && r.sqHead == h % B32 && r.sqTail == (h + |pending|) % B32
    && forall i: nat :: i < |pending| ==> SqEntry(r, h, pending, i)
  }

  ghost predicate CqHolds(r: Ring, h: nat, posted: seq<Cqe>)
    requires Wf(r)
  {
    && |posted| <= |r.cqes|
    && r.cqHead == h % B32 && r.cqTail == (h + |posted|) % B32
    && forall i: nat :: i < |posted| ==> CqEntry(r, h, posted, i)
  }

  /** What the client's locals say about the queues. hSq and hCq count the entries that have
      left the two queues; a loaded SQ head may be stale, never ahead. */
  ghost predicate ClientKnows(m: Machine, q: Queues, hSq: nat, hCq: nat)
    requires Wf(m.ring)
  {
    var r, t := m.ring, hSq + |q.pending|;
    match m.pc
    case Idle => true
    case GotSqHead(_, head) => StaleHead(head, hSq, t, r.sqEntries)
    case GotSqTail(_, head, tail) => StaleHead(head, hSq, t, r.sqEntries) && tail == t % B32
    case StoredSqe(sqe, tail) =>
      |q.pending| < r.sqEntries && tail == t % B32 && r.sqes[SlotOf(t, r.sqEntries)] == sqe
    case StoredIndex(sqe, tail) =>
      && |q.pending| < r.sqEntries && tail == t % B32
      && r.sqes[SlotOf(t, r.sqEntries)] == sqe && r.index[SlotOf(t, r.sqEntries)] == SlotOf(t, r.sqEntries)
    case InEnter(_) => true
    case Returned(_) => true
    case GotCqHead(_, head) => head == hCq % B32
    case GotCqTail(_, head) => head == hCq % B32 && q.posted != []
    case GotCqe(_, head, cqe) => head == hCq % B32 && q.posted != [] && cqe == q.posted[0]
  }

  ghost predicate StaleHead(head: U32, hSq: nat, t: nat, n: nat) {
    exists h: nat :: h <= hSq && t <= h + n && head == h % B32
  }

  ghost predicate KernelKnows(m: Machine, q: Queues, hCq: nat)
    requires Wf(m.ring)
  {
    match m.kpc
    case KIdle => true
    case KRead(sqe) => q.pending != [] && sqe == q.pending[0]
    case KWrote(i, cqe) =>
      && i < |q.inflight| && |q.posted| < |m.ring.cqes|
      && m.ring.cqes[SlotOf(hCq + |q.posted|, |m.ring.cqes|)] == cqe && cqe.userData == q.inflight[i].userData
  }

  /** Calls that stored a new tail, among finished calls. */
  function PublishedBy(log: seq<CallResult>): seq<Sqe> {
    if log == [] then []
    else PublishedBy(log[..|log| - 1]) + (if log[|log| - 1].Full? then [] else [log[|log| - 1].sqe])
  }

  function ReapedBy(log: seq<CallResult>): seq<Cqe> {
    if log == [] then []
    else ReapedBy(log[..|log| - 1]) + (if log[|log| - 1].Done? then [log[|log| - 1].cqe] else [])
  }

  /** Calls that published and then returned an error. */
  function Failures(log: seq<CallResult>): nat {
    if log == [] then 0
    else Failures(log[..|log| - 1]) + (if log[|log| - 1].EnterFailed? || log[|log| - 1].Empty? then 1 else 0)
  }

  predicate PastTailStore(pc: ClientPc) {
    pc.InEnter? || pc.Returned? || pc.GotCqHead? || pc.GotCqTail? || pc.GotCqe?
  }

  ghost predicate LogAgrees(m: Machine, q: Queues) {
    && q.published == PublishedBy(m.log) + (if PastTailStore(m.pc) then [m.pc.sqe] else [])
    && q.reaped == ReapedBy(m.log)
  }

  /** How many submissions have left the pending queue. */
  function Left(q: Queues): nat
    requires |q.pending| <= |q.published|
  {
    |q.published| - |q.pending|
  }

  /** The machine implements the queues. */
  ghost predicate Implements(m: Machine, q: Queues) {
    && Wf(m.ring)
    && m.inflight == q.inflight
    && |q.published| == |q.pending| + |q.inflight| + |q.posted| + |q.reaped|
    && SqHolds(m.ring, Left(q), q.pending) && CqHolds(m.ring, |q.reaped|, q.posted)
    && ClientKnows(m, q, Left(q), |q.reaped|) && KernelKnows(m, q, |q.reaped|)
    && LogAgrees(m, q)
  }

  /** The queue action a machine step stands for. */
  function ActionOf(m: Machine, l: Label): Action {
    match l
    case Client =>
      if m.pc.StoredIndex? then Publish(m.pc.sqe) else if m.pc.GotCqe? then Reap else Stutter
    case KernelTake => if m.kpc.KRead? then Consume else Stutter
    case KernelPost =>
      if m.kpc.KWrote? && m.kpc.i < |m.inflight| then Post(m.kpc.i, m.kpc.cqe.res, m.kpc.cqe.flags) else Stutter
    case _ => Stutter
  }

  ghost predicate Simulates(m: Machine, q: Queues, l: Label)
    requires Implements(m, q)
  {
    var n, c := m.ring.sqEntries, |m.ring.cqes|;
    Legal(q, n, c, ActionOf(m, l)) && Implements(Step(m, l), Apply(q, n, c, ActionOf(m, l)))
  }

  // ---- ring-level steps ----

  /** Filling the free slot leaves every pending entry in place. */
  lemma FillFreeSqe(r: Ring, h: nat, pending: seq<Sqe>, sqe: Sqe)
    requires Wf(r) && SqHolds(r, h, pending) && |pending| < r.sqEntries
    ensures var r' := r.(sqes := r.sqes[SlotOf(h + |pending|, r.sqEntries) := sqe]);
            Wf(r') && SqHolds(r', h, pending)
  {
    hide And;
    var r' := r.(sqes := r.sqes[SlotOf(h + |pending|, r.sqEntries) := sqe]);
    forall i: nat | i < |pending| ensures SqEntry(r', h, pending, i) {
      assert SqEntry(r, h, pending, i);
      SlotsApart(h + i, h + |pending|, r.sqEntries);
    }
  }

  lemma FillFreeIndex(r: Ring, h: nat, pending: seq<Sqe>)
    requires Wf(r) && SqHolds(r, h, pending) && |pending| < r.sqEntries
    ensures var s := SlotOf(h + |pending|, r.sqEntries);
            var r' := r.(index := r.index[s := s]);
            Wf(r') && SqHolds(r', h, pending)
  {
    hide And;
    var s := SlotOf(h + |pending|, r.sqEntries);
    var r' := r.(index := r.index[s := s]);
    forall i: nat | i < |pending| ensures SqEntry(r', h, pending, i) {
      assert SqEntry(r, h, pending, i);
      SlotsApart(h + i, h + |pending|, r.sqEntries);
    }
  }

  lemma AdvanceSqTail(r: Ring, h: nat, pending: seq<Sqe>, sqe: Sqe)
    requires Wf(r) && SqHolds(r, h, pending) && |pending| < r.sqEntries
    requires var s := SlotOf(h + |pending|, r.sqEntries); r.index[s] == s && r.sqes[s] == sqe
    ensures var r' := r.(sqTail := WrapAdd(r.sqTail, 1)); Wf(r') && SqHolds(r', h, pending + [sqe])
  {
    hide And;
    WrappedNext(h + |pending|);
    var r' := r.(sqTail := WrapAdd(r.sqTail, 1));
    forall i: nat | i < |pending| + 1 ensures SqEntry(r', h, pending + [sqe], i) {
      assert i < |pending| ==> SqEntry(r, h, pending, i);
    }
  }

  lemma AdvanceSqHead(r: Ring, h: nat, pending: seq<Sqe>)
    requires Wf(r) && SqHolds(r, h, pending) && pending != []
    ensures var r' := r.(sqHead := WrapAdd(r.sqHead, 1)); Wf(r') && SqHolds(r', h + 1, pending[1..])
  {
    hide And;
    WrappedNext(h);
    var r' := r.(sqHead := WrapAdd(r.sqHead, 1));
    var rest, h' := pending[1..], h + 1;
    forall i: nat | i < |rest| ensures SqEntry(r', h', rest, i) {
      assert SqEntry(r, h, pending, i + 1);
      assert h + 1 + i == h + (i + 1);
    }
  }

  lemma FillFreeCqe(r: Ring, h: nat, posted: seq<Cqe>, cqe: Cqe)
    requires Wf(r) && CqHolds(r, h, posted) && |posted| < |r.cqes|
    ensures var r' := r.(cqes := r.cqes[SlotOf(h + |posted|, |r.cqes|) := cqe]);
            Wf(r') && CqHolds(r', h, posted)
  {
    hide And;
    var r' := r.(cqes := r.cqes[SlotOf(h + |posted|, |r.cqes|) := cqe]);
    forall i: nat | i < |posted| ensures CqEntry(r', h, posted, i) {
      assert CqEntry(r, h, posted, i);
      SlotsApart(h + i, h + |posted|, |r.cqes|);
    }
  }

  lemma AdvanceCqTail(r: Ring, h: nat, posted: seq<Cqe>, cqe: Cqe)
    requires Wf(r) && CqHolds(r, h, posted) && |posted| < |r.cqes|
    requires r.cqes[SlotOf(h + |posted|, |r.cqes|)] == cqe
    ensures var r' := r.(cqTail := WrapAdd(r.cqTail, 1)); Wf(r') && CqHolds(r', h, posted + [cqe])
  {
    hide And;
    WrappedNext(h + |posted|);
    var r' := r.(cqTail := WrapAdd(r.cqTail, 1));
    forall i: nat | i < |posted| + 1 ensures CqEntry(r', h, posted + [cqe], i) {
      assert i < |posted| ==> CqEntry(r, h, posted, i);
    }
  }

  lemma AdvanceCqHead(r: Ring, h: nat, posted: seq<Cqe>)
    requires Wf(r) && CqHolds(r, h, posted) && posted != []
    ensures var r' := r.(cqHead := WrapAdd(r.cqHead, 1)); Wf(r') && CqHolds(r', h + 1, posted[1..])
  {
    hide And;
    WrappedNext(h);
    var r' := r.(cqHead := WrapAdd(r.cqHead, 1));
    var rest, h' := posted[1..], h + 1;
    forall i: nat | i < |rest| ensures CqEntry(r', h', rest, i) {
      assert CqEntry(r, h, posted, i + 1);
      assert h + 1 + i == h + (i + 1);
    }
  }

  /** The full test, the empty test and the kernel's room test are exact on wrapped counters. */
  lemma CountersExact(r: Ring, hSq: nat, pending: seq<Sqe>, hCq: nat, posted: seq<Cqe>)
    requires Wf(r) && SqHolds(r, hSq, pending) && CqHolds(r, hCq, posted)
    ensures WrapSub(r.sqTail, r.sqHead) == |pending| && WrapSub(r.cqTail, r.cqHead) == |posted|
    ensures r.sqHead == r.sqTail <==> pending == []
    ensures r.cqHead == r.cqTail <==> posted == []
  {
    hide And;
    WrappedSlot(0, r.sqEntries);
    WrappedSlot(0, |r.cqes|);
    WrappedDistance(hSq, hSq + |pending|);
    WrappedDistance(hCq, hCq + |posted|);
  }

  // ---- one machine step ----

  lemma SimulateLoadTail(m: Machine, q: Queues)
    requires Implements(m, q) && m.pc.GotSqHead?
    ensures Simulates(m, q, Client)
  {
    hide And;
  }

  /** A stale head makes the full test cautious, never wrong the other way. */
  lemma FullTest(head: U32, hSq: nat, t: nat, n: nat)
    requires StaleHead(head, hSq, t, n) && 0 < n < B32 && hSq <= t
    ensures WrapSub(t % B32, head) < n ==> t < hSq + n
  {
    var h: nat :| h <= hSq && t <= h + n && head == h % B32;
    WrappedDistance(h, t);
  }

  lemma SimulateStoreSqe(m: Machine, q: Queues)
    requires Implements(m, q) && m.pc.GotSqTail?
    ensures Simulates(m, q, Client)
  {
    hide And, StaleHead;
    var r, h := m.ring, Left(q);
    var t := h + |q.pending|;
    WrappedSlot(0, r.sqEntries);
    FullTest(m.pc.head, h, t, r.sqEntries);
    if WrapSub(m.pc.tail, m.pc.head) < r.sqEntries {
      FillFreeSqe(r, h, q.pending, m.pc.sqe);
      assert SqSlot(r, m.pc.tail) == SlotOf(t, r.sqEntries);
      CqUntouched(r, Step(m, Client).ring, |q.reaped|, q.posted);
    }
  }

  lemma CqUntouched(r: Ring, r': Ring, h: nat, posted: seq<Cqe>)
    requires Wf(r) && Wf(r') && CqHolds(r, h, posted)
    requires r'.cqHead == r.cqHead && r'.cqTail == r.cqTail && r'.cqes == r.cqes
    ensures CqHolds(r', h, posted)
  {
    hide And;
    forall i: nat | i < |posted| ensures CqEntry(r', h, posted, i) {
      assert CqEntry(r, h, posted, i);
    }
  }

  lemma SqUntouched(r: Ring, r': Ring, h: nat, pending: seq<Sqe>)
    requires Wf(r) && Wf(r') && SqHolds(r, h, pending)
    requires r'.sqHead == r.sqHead && r'.sqTail == r.sqTail && r'.sqEntries == r.sqEntries
    requires r'.sqes == r.sqes && r'.index == r.index
    ensures SqHolds(r', h, pending)
  {
    hide And;
    forall i: nat | i < |pending| ensures SqEntry(r', h, pending, i) {
      assert SqEntry(r, h, pending, i);
    }
  }

  lemma SimulatePublish(m: Machine, q: Queues)
    requires Implements(m, q)
    requires m.pc.StoredSqe? || m.pc.StoredIndex?
    ensures Simulates(m, q, Client)
  {
    hide And;
    var r, h := m.ring, Left(q);
    var t := h + |q.pending|;
    CqUntouched(r, Step(m, Client).ring, |q.reaped|, q.posted);
    if m.pc.StoredSqe? {
      assert SqSlot(r, m.pc.tail) == SlotOf(t, r.sqEntries);
      FillFreeIndex(r, h, q.pending);
    } else {
      AdvanceSqTail(r, h, q.pending, m.pc.sqe);
    }
  }

  lemma SimulateWait(m: Machine, q: Queues)
    requires Implements(m, q)
    requires m.pc.Idle? || m.pc.InEnter? || m.pc.Returned? || m.pc.GotCqHead? || m.pc.GotCqTail?
    ensures Simulates(m, q, Client)
  {
    hide And;
    CountersExact(m.ring, Left(q), q.pending, |q.reaped|, q.posted);
    if q.posted != [] {
      assert CqEntry(m.ring, |q.reaped|, q.posted, 0);
    }
  }

  lemma SimulateReap(m: Machine, q: Queues)
    requires Implements(m, q) && m.pc.GotCqe?
    ensures Simulates(m, q, Client)
  {
    hide And;
    SqUntouched(m.ring, Step(m, Client).ring, Left(q), q.pending);
    AdvanceCqHead(m.ring, |q.reaped|, q.posted);
  }

  lemma SimulateConsume(m: Machine, q: Queues, l: Label)
    requires Implements(m, q)
    requires l.KernelRead? || l.KernelTake?
    ensures Simulates(m, q, l)
  {
    hide And;
    var r, h := m.ring, Left(q);
    CountersExact(r, h, q.pending, |q.reaped|, q.posted);
    if q.pending != [] {
      assert SqEntry(r, h, q.pending, 0);
      assert SqSlot(r, r.sqHead) == SlotOf(h, r.sqEntries);
      AdvanceSqHead(r, h, q.pending);
    }
    CqUntouched(r, Step(m, l).ring, |q.reaped|, q.posted);
  }

  lemma SimulateWrite(m: Machine, q: Queues, l: Label)
    requires Implements(m, q) && l.KernelWrite?
    ensures Simulates(m, q, l)
  {
    hide And;
    var r, h := m.ring, |q.reaped|;
    CountersExact(r, Left(q), q.pending, h, q.posted);
    if l.i < |m.inflight| && |q.posted| < |r.cqes| {
      assert CqSlot(r, r.cqTail) == SlotOf(h + |q.posted|, |r.cqes|);
      FillFreeCqe(r, h, q.posted, Cqe(m.inflight[l.i].userData, l.res, l.flags));
    }
    SqUntouched(r, Step(m, l).ring, Left(q), q.pending);
  }

  lemma SimulatePost(m: Machine, q: Queues)
    requires Implements(m, q)
    ensures Simulates(m, q, KernelPost)
  {
    hide And;
    if m.kpc.KWrote? {
      AdvanceCqTail(m.ring, |q.reaped|, q.posted, m.kpc.cqe);
    }
    SqUntouched(m.ring, Step(m, KernelPost).ring, Left(q), q.pending);
  }

  /** Every step of client or kernel is one legal action of the queues, or none. */
  lemma StepRefines(m: Machine, q: Queues, l: Label)
    requires Implements(m, q)
    ensures Simulates(m, q, l)
  {
    hide And;
    match l
    case Client =>
      if m.pc.GotSqHead? {
        SimulateLoadTail(m, q);
      } else if m.pc.GotSqTail? {
        SimulateStoreSqe(m, q);
      } else if m.pc.StoredSqe? || m.pc.StoredIndex? {
        SimulatePublish(m, q);
      } else if m.pc.GotCqe? {
        SimulateReap(m, q);
      } else {
        SimulateWait(m, q);
      }
    case KernelRead => SimulateConsume(m, q, l);
    case KernelTake => SimulateConsume(m, q, l);
    case KernelWrite(_, _, _) => SimulateWrite(m, q, l);
    case KernelPost => SimulatePost(m, q);
    case _ =>
  }
}
