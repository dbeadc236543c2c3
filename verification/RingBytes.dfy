/** The step system once more, on the mapped bytes: each load and store of the client and of the
    kernel is one access to memory, and any interleaving is a run of the word-level system. */
module RingBytes {
  import opened Words
  import opened RingMachine
  import opened RingMemory
  import opened RingQueues
  import opened RingTheorems
  import opened RingCalls

  datatype ByteMachine = ByteMachine(mem: Mem, pc: ClientPc, kpc: KernelPc, inflight: seq<Sqe>, log: seq<CallResult>)

  /** The word-level machine the bytes stand for. */
  function Typed(e: Endian, p: Params, b: ByteMachine): Machine
    requires WordsInside(p, b.mem)
  {
    Machine(View(e, p, b.mem), b.pc, b.kpc, b.inflight, b.log)
  }

  /** counter & mask, the mask loaded from the ring. */
  function SqSlotAt(e: Endian, p: Params, mem: Mem, w: U32): (slot: U32)
    requires Mapped(e, p, mem)
    ensures slot < p.sqEntries
  {
    ViewIsWf(e, p, mem);
    SlotInRange(View(e, p, mem), w);
    And(w, LoadU32(e, mem.sq, p.sqOff.ringMask))
  }

  function CqSlotAt(e: Endian, p: Params, mem: Mem, w: U32): (slot: U32)
    requires Mapped(e, p, mem)
    ensures slot < p.cqEntries
  {
    ViewIsWf(e, p, mem);
    SlotInRange(View(e, p, mem), w);
    And(w, LoadU32(e, mem.cq, p.cqOff.ringMask))
  }

  /** The client's store through the index array, its offset computed in uint32. */
  function StoreIndex(e: Endian, p: Params, mem: Mem, slot: U32): Mem
    requires Mapped(e, p, mem) && slot < p.sqEntries
  {
    ArrayOffsetExact(p, slot);
    StoreSq(p, mem, WrapAdd(p.sqOff.index, WrapMul(slot, 4)), Put(e, 4, slot))
  }

  /** The kernel's test for a free completion entry. */
  predicate RoomFor(e: Endian, p: Params, m: Mem)
    requires Mapped(e, p, m)
  {
    WrapSub(LoadU32(e, m.cq, p.cqOff.tail), LoadU32(e, m.cq, p.cqOff.head)) < p.cqEntries
  }

  function ByteStep(e: Endian, p: Params, b: ByteMachine, l: Label): ByteMachine
    requires Mapped(e, p, b.mem)
  {
    var m := b.mem;
    match l
    case Call(sqe) => if b.pc.Idle? then b.(pc := GotSqHead(sqe, LoadU32(e, m.sq, p.sqOff.head))) else b
    case Client => ByteClientStep(e, p, b)
    case EnterReturns(ret) =>
      if !b.pc.InEnter? then b
      else if ret == Submitted(1) then b.(pc := Returned(b.pc.sqe))
      else b.(pc := Idle, log := b.log + [EnterFailed(b.pc.sqe)])
    case KernelRead =>
      var head := LoadU32(e, m.sq, p.sqOff.head);
      var i := LoadU32(e, m.sq, p.sqOff.index + SqSlotAt(e, p, m, head) * 4);
      if b.kpc.KIdle? && head != LoadU32(e, m.sq, p.sqOff.tail) && i < p.sqEntries
      then b.(kpc := KRead(SqeIn(e, m.sqes, i)))
      else b
    case KernelTake =>
      if b.kpc.KRead? then
        var head := LoadU32(e, m.sq, p.sqOff.head);
        b.(mem := StoreSq(p, m, p.sqOff.head, Put(e, 4, WrapAdd(head, 1))), kpc := KIdle,
           inflight := b.inflight + [b.kpc.sqe])
      else b
    case KernelWrite(i, res, flags) =>
      var tail := LoadU32(e, m.cq, p.cqOff.tail);
      if b.kpc.KIdle? && i < |b.inflight| && RoomFor(e, p, m) then
        var cqe := Cqe(b.inflight[i].userData, res, flags);
        b.(mem := StoreCq(p, m, p.cqOff.cqes + CqSlotAt(e, p, m, tail) * CQE_SIZE, EncodeCqe(e, cqe)),
           kpc := KWrote(i, cqe))
      else b
    case KernelPost =>
      if b.kpc.KWrote? && b.kpc.i < |b.inflight| then
        var tail := LoadU32(e, m.cq, p.cqOff.tail);
        b.(mem := StoreCq(p, m, p.cqOff.tail, Put(e, 4, WrapAdd(tail, 1))), kpc := KIdle,
           inflight := Without(b.inflight, b.kpc.i))
      else b
  }

  function ByteClientStep(e: Endian, p: Params, b: ByteMachine): ByteMachine
    requires Mapped(e, p, b.mem)
  {
    var m := b.mem;
    match b.pc
    case Idle => b
    case GotSqHead(sqe, head) => b.(pc := GotSqTail(sqe, head, LoadU32(e, m.sq, p.sqOff.tail)))
    case GotSqTail(sqe, head, tail) =>
      if WrapSub(tail, head) >= LoadU32(e, m.sq, p.sqOff.ringEntries) then b.(pc := Idle, log := b.log + [Full(sqe)])
      else b.(mem := StoreSqe(m, SqSlotAt(e, p, m, tail), EncodeSqe(e, sqe)), pc := StoredSqe(sqe, tail))
    case StoredSqe(sqe, tail) =>
      b.(mem := StoreIndex(e, p, m, SqSlotAt(e, p, m, tail)), pc := StoredIndex(sqe, tail))
    case StoredIndex(sqe, tail) =>
      b.(mem := StoreSq(p, m, p.sqOff.tail, Put(e, 4, WrapAdd(tail, 1))), pc := InEnter(sqe))
    case InEnter(_) => b
    case Returned(sqe) => b.(pc := GotCqHead(sqe, LoadU32(e, m.cq, p.cqOff.head)))
    case GotCqHead(sqe, head) =>
      if head == LoadU32(e, m.cq, p.cqOff.tail) then b.(pc := Idle, log := b.log + [Empty(sqe)])
      else b.(pc := GotCqTail(sqe, head))
    case GotCqTail(sqe, head) => b.(pc := GotCqe(sqe, head, CqeIn(e, m.cq, p.cqOff.cqes, CqSlotAt(e, p, m, head))))
    case GotCqe(sqe, head, cqe) =>
      b.(mem := StoreCq(p, m, p.cqOff.head, Put(e, 4, WrapAdd(head, 1))), pc := Idle, log := b.log + [Done(sqe, cqe)])
  }

  // ---- refinement ----

  /** One byte-level step is the word-level step on the ring the bytes stand for. */
  ghost predicate Refines(e: Endian, p: Params, b: ByteMachine, l: Label)
    requires Mapped(e, p, b.mem)
  {
    ViewIsWf(e, p, b.mem);
    var b' := ByteStep(e, p, b, l);
    Mapped(e, p, b'.mem) && Typed(e, p, b') == Step(Typed(e, p, b), l)
  }

  lemma SlotsAgree(e: Endian, p: Params, mem: Mem, w: U32)
    requires Mapped(e, p, mem)
    ensures var r := View(e, p, mem);
            Wf(r) && SqSlotAt(e, p, mem, w) == SqSlot(r, w) && CqSlotAt(e, p, mem, w) == CqSlot(r, w)
  {
    ViewIsWf(e, p, mem);
    hide And, Get, IsRingSize, KernelLayout;
  }

  /** The loads of single words, as the ring shows them. */
  lemma LoadsAgree(e: Endian, p: Params, m: Mem)
    requires Mapped(e, p, m)
    ensures var r := View(e, p, m);
            && r.sqHead == LoadU32(e, m.sq, p.sqOff.head) && r.sqTail == LoadU32(e, m.sq, p.sqOff.tail)
            && r.sqEntries == LoadU32(e, m.sq, p.sqOff.ringEntries) == p.sqEntries == |r.sqes| == |r.index|
            && r.cqHead == LoadU32(e, m.cq, p.cqOff.head) && r.cqTail == LoadU32(e, m.cq, p.cqOff.tail)
            && |r.cqes| == p.cqEntries
  {
    hide And, LoadU32, SqeIn, CqeIn, KernelLayout, SingleMmap;
  }

  lemma SqEntriesAgree(e: Endian, p: Params, m: Mem, i: nat)
    requires Mapped(e, p, m) && i < p.sqEntries
    ensures var r := View(e, p, m);
            && r.index[i] == LoadU32(e, m.sq, p.sqOff.index + i * 4) && r.sqes[i] == SqeIn(e, m.sqes, i)
  {
    hide And, LoadU32, SqeIn, CqeIn, KernelLayout, SingleMmap;
  }

  lemma CqEntriesAgree(e: Endian, p: Params, m: Mem, i: nat)
    requires Mapped(e, p, m) && i < p.cqEntries
    ensures View(e, p, m).cqes[i] == CqeIn(e, m.cq, p.cqOff.cqes, i)
  {
    hide And, LoadU32, SqeIn, CqeIn, KernelLayout, SingleMmap;
  }

  /** What remains to be said of a step once both levels are worked out. */
  lemma StepsMeet(e: Endian, p: Params, b: ByteMachine, l: Label, b': ByteMachine, m': Machine)
    requires Mapped(e, p, b.mem) && Mapped(e, p, b'.mem) && Wf(View(e, p, b.mem))
    requires ByteStep(e, p, b, l) == b' && Step(Typed(e, p, b), l) == m'
    requires m' == Machine(View(e, p, b'.mem), b'.pc, b'.kpc, b'.inflight, b'.log)
    ensures Refines(e, p, b, l)
  {
    hide Mapped, View, Step, ByteStep, WordsInside, Wf;
  }

  lemma StoreSqeRefines(e: Endian, p: Params, b: ByteMachine)
    requires Mapped(e, p, b.mem) && b.pc.GotSqTail?
    ensures Refines(e, p, b, Client)
  {
    var m, tail, sqe, r := b.mem, b.pc.tail, b.pc.sqe, View(e, p, b.mem);
    SlotsAgree(e, p, m, tail);
    LoadsAgree(e, p, m);
    var slot := SqSlotAt(e, p, m, tail);
    StoreSqeView(e, p, m, slot, sqe);
    var full := WrapSub(tail, b.pc.head) >= p.sqEntries;
    var b' := if full then b.(pc := Idle, log := b.log + [Full(sqe)])
              else b.(mem := StoreSqe(m, slot, EncodeSqe(e, sqe)), pc := StoredSqe(sqe, tail));
    var m' := if full then Typed(e, p, b).(pc := Idle, log := b.log + [Full(sqe)])
              else Typed(e, p, b).(ring := r.(sqes := r.sqes[slot := sqe]), pc := StoredSqe(sqe, tail));
    hide And, Get, Put, Load, LoadU32, SqeIn, CqeIn, Mapped, View, Wf, WordsInside, SqSlotAt, SqSlot, CqSlotAt,
         CqSlot, StoreSqe, EncodeSqe;
    assert ByteStep(e, p, b, Client) == b';
    assert Step(Typed(e, p, b), Client) == m';
    hide ByteStep, ByteClientStep, Step, ClientStep, Refines;
    StepsMeet(e, p, b, Client, b', m');
  }

  lemma StoreIndexRefines(e: Endian, p: Params, b: ByteMachine)
    requires Mapped(e, p, b.mem) && b.pc.StoredSqe?
    ensures Refines(e, p, b, Client)
  {
    var m, tail, sqe, r := b.mem, b.pc.tail, b.pc.sqe, View(e, p, b.mem);
    SlotsAgree(e, p, m, tail);
    LoadsAgree(e, p, m);
    var slot := SqSlotAt(e, p, m, tail);
    ArrayOffsetExact(p, slot);
    StoreIndexView(e, p, m, slot, slot);
    var b' := b.(mem := StoreIndex(e, p, m, slot), pc := StoredIndex(sqe, tail));
    var m' := Typed(e, p, b).(ring := r.(index := r.index[slot := slot]), pc := StoredIndex(sqe, tail));
    hide And, Get, Put, Load, LoadU32, SqeIn, CqeIn, Mapped, View, Wf, WordsInside, SqSlotAt, SqSlot, CqSlotAt,
         CqSlot, StoreSq;
    assert ByteStep(e, p, b, Client) == b';
    assert Step(Typed(e, p, b), Client) == m';
    hide ByteStep, ByteClientStep, Step, ClientStep, Refines;
    StepsMeet(e, p, b, Client, b', m');
  }

  lemma StoreTailRefines(e: Endian, p: Params, b: ByteMachine)
    requires Mapped(e, p, b.mem) && b.pc.StoredIndex?
    ensures Refines(e, p, b, Client)
  {
    var m, tail, sqe, r := b.mem, b.pc.tail, b.pc.sqe, View(e, p, b.mem);
    ViewIsWf(e, p, m);
    StoreTailView(e, p, m, WrapAdd(tail, 1));
    LoadsAgree(e, p, m);
    var b' := b.(mem := StoreSq(p, m, p.sqOff.tail, Put(e, 4, WrapAdd(tail, 1))), pc := InEnter(sqe));
    var m' := Typed(e, p, b).(ring := r.(sqTail := WrapAdd(tail, 1)), pc := InEnter(sqe));
    hide And, Get, Put, Load, LoadU32, SqeIn, CqeIn, Mapped, View, Wf, WordsInside, SqSlotAt, SqSlot, CqSlotAt,
         CqSlot, StoreSq, WrapAdd;
    assert ByteStep(e, p, b, Client) == b';
    assert Step(Typed(e, p, b), Client) == m';
    hide ByteStep, ByteClientStep, Step, ClientStep, Refines;
    StepsMeet(e, p, b, Client, b', m');
  }

  lemma StoreCqHeadRefines(e: Endian, p: Params, b: ByteMachine)
    requires Mapped(e, p, b.mem) && b.pc.GotCqe?
    ensures Refines(e, p, b, Client)
  {
    var m, head, r := b.mem, b.pc.head, View(e, p, b.mem);
    var log := b.log + [Done(b.pc.sqe, b.pc.cqe)];
    ViewIsWf(e, p, m);
    StoreCqHeadView(e, p, m, WrapAdd(head, 1));
    LoadsAgree(e, p, m);
    var b' := b.(mem := StoreCq(p, m, p.cqOff.head, Put(e, 4, WrapAdd(head, 1))), pc := Idle, log := log);
    var m' := Typed(e, p, b).(ring := r.(cqHead := WrapAdd(head, 1)), pc := Idle, log := log);
    hide And, Get, Put, Load, LoadU32, SqeIn, CqeIn, Mapped, View, Wf, WordsInside, SqSlotAt, SqSlot, CqSlotAt,
         CqSlot, StoreCq, WrapAdd;
    assert ByteStep(e, p, b, Client) == b';
    assert Step(Typed(e, p, b), Client) == m';
    hide ByteStep, ByteClientStep, Step, ClientStep, Refines;
    StepsMeet(e, p, b, Client, b', m');
  }

  lemma CqeLoadRefines(e: Endian, p: Params, b: ByteMachine)
    requires Mapped(e, p, b.mem) && b.pc.GotCqTail?
    ensures Refines(e, p, b, Client)
  {
    var m, sqe, head := b.mem, b.pc.sqe, b.pc.head;
    SlotsAgree(e, p, m, head);
    var slot := CqSlotAt(e, p, m, head);
    CqEntriesAgree(e, p, m, slot);
    var pc := GotCqe(sqe, head, CqeIn(e, m.cq, p.cqOff.cqes, slot));
    hide And, Get, Put, Load, LoadU32, SqeIn, CqeIn, Mapped, View, Wf, WordsInside, SqSlotAt, SqSlot, CqSlotAt, CqSlot;
    assert ByteStep(e, p, b, Client) == b.(pc := pc);
    assert Step(Typed(e, p, b), Client) == Typed(e, p, b).(pc := pc);
    hide ByteStep, ByteClientStep, Step, ClientStep, Refines;
    StepsMeet(e, p, b, Client, b.(pc := pc), Typed(e, p, b).(pc := pc));
  }

  /** The word loads of the client, and its steps that touch no memory. */
  lemma ClientLoadRefines(e: Endian, p: Params, b: ByteMachine)
    requires Mapped(e, p, b.mem)
    requires b.pc.Idle? || b.pc.GotSqHead? || b.pc.InEnter? || b.pc.Returned? || b.pc.GotCqHead?
    ensures Refines(e, p, b, Client)
  {
    LoadsAgree(e, p, b.mem);
    ViewIsWf(e, p, b.mem);
    hide And, Get, Put, Load, LoadU32, SqeIn, CqeIn, Mapped, View, Wf, WordsInside, SqSlotAt, SqSlot, CqSlotAt, CqSlot;
    var b' := ByteStep(e, p, b, Client);
    assert b' == b.(pc := b'.pc, log := b'.log);
    assert Step(Typed(e, p, b), Client) == Typed(e, p, b).(pc := b'.pc, log := b'.log);
    hide ByteStep, ByteClientStep, Step, ClientStep, Refines;
    StepsMeet(e, p, b, Client, b', Typed(e, p, b).(pc := b'.pc, log := b'.log));
  }

  // The kernel's steps at both levels, one by one.

  lemma ReadOnWords(m: Machine)
    requires Wf(m.ring)
    ensures var i := m.ring.index[SqSlot(m.ring, m.ring.sqHead)];
            Step(m, KernelRead)
            == if m.kpc.KIdle? && m.ring.sqHead != m.ring.sqTail && i < m.ring.sqEntries
               then m.(kpc := KRead(m.ring.sqes[i])) else m
  {
    hide And, SqSlot, Wf;
  }

  lemma TakeOnWords(m: Machine)
    requires Wf(m.ring) && m.kpc.KRead?
    ensures Step(m, KernelTake)
         == m.(ring := m.ring.(sqHead := WrapAdd(m.ring.sqHead, 1)), kpc := KIdle, inflight := m.inflight + [m.kpc.sqe])
  {
    hide And, Wf, WrapAdd;
  }

  lemma PostOnWords(m: Machine)
    requires Wf(m.ring) && m.kpc.KWrote? && m.kpc.i < |m.inflight|
    ensures Step(m, KernelPost)
         == m.(ring := m.ring.(cqTail := WrapAdd(m.ring.cqTail, 1)), kpc := KIdle,
               inflight := Without(m.inflight, m.kpc.i))
  {
    hide And, Wf, WrapAdd, Without;
  }

  lemma ReadOnBytes(e: Endian, p: Params, b: ByteMachine)
    requires Mapped(e, p, b.mem)
    ensures WordsInside(p, b.mem)
    ensures var m := b.mem;
            var head := LoadU32(e, m.sq, p.sqOff.head);
            var i := LoadU32(e, m.sq, p.sqOff.index + SqSlotAt(e, p, m, head) * 4);
            ByteStep(e, p, b, KernelRead)
            == if b.kpc.KIdle? && head != LoadU32(e, m.sq, p.sqOff.tail) && i < p.sqEntries
               then b.(kpc := KRead(SqeIn(e, m.sqes, i))) else b
  {
    hide And, Load, LoadU32, SqeIn, SqSlotAt, KernelLayout, Sized;
  }

  lemma TakeOnBytes(e: Endian, p: Params, b: ByteMachine)
    requires Mapped(e, p, b.mem) && b.kpc.KRead?
    ensures WordsInside(p, b.mem)
    ensures var m := b.mem;
            var x := Put(e, 4, WrapAdd(LoadU32(e, m.sq, p.sqOff.head), 1));
            ByteStep(e, p, b, KernelTake)
            == b.(mem := StoreSq(p, m, p.sqOff.head, x), kpc := KIdle, inflight := b.inflight + [b.kpc.sqe])
  {
    hide And, Load, LoadU32, Put, StoreSq, WrapAdd, KernelLayout, Sized;
  }

  lemma PostOnBytes(e: Endian, p: Params, b: ByteMachine)
    requires Mapped(e, p, b.mem) && b.kpc.KWrote? && b.kpc.i < |b.inflight|
    ensures WordsInside(p, b.mem)
    ensures var m := b.mem;
            var x := Put(e, 4, WrapAdd(LoadU32(e, m.cq, p.cqOff.tail), 1));
            ByteStep(e, p, b, KernelPost)
            == b.(mem := StoreCq(p, m, p.cqOff.tail, x), kpc := KIdle, inflight := Without(b.inflight, b.kpc.i))
  {
    hide And, Load, LoadU32, Put, StoreCq, WrapAdd, Without, KernelLayout, Sized;
  }

  /** Where the kernel would read, at both levels. */
  lemma ReadAgrees(e: Endian, p: Params, m: Mem)
    requires Mapped(e, p, m)
    ensures var r, head := View(e, p, m), LoadU32(e, m.sq, p.sqOff.head);
            var slot := SqSlotAt(e, p, m, head);
            var i := LoadU32(e, m.sq, p.sqOff.index + slot * 4);
            && Wf(r) && r.sqHead == head && r.sqTail == LoadU32(e, m.sq, p.sqOff.tail)
            && r.sqEntries == p.sqEntries && r.index[SqSlot(r, r.sqHead)] == i
            && (i < p.sqEntries ==> r.sqes[i] == SqeIn(e, m.sqes, i))
  {
    LoadsAgree(e, p, m);
    var head := LoadU32(e, m.sq, p.sqOff.head);
    SlotsAgree(e, p, m, head);
    var slot := SqSlotAt(e, p, m, head);
    SqEntriesAgree(e, p, m, slot);
    var i := LoadU32(e, m.sq, p.sqOff.index + slot * 4);
    if i < p.sqEntries {
      SqEntriesAgree(e, p, m, i);
    }
    hide And, Get, Load, LoadU32, SqeIn, CqeIn, Mapped, View, Wf, WordsInside, SqSlotAt, SqSlot;
  }

  lemma KernelReadRefines(e: Endian, p: Params, b: ByteMachine)
    requires Mapped(e, p, b.mem)
    ensures Refines(e, p, b, KernelRead)
  {
    ReadOnBytes(e, p, b);
    ReadAgrees(e, p, b.mem);
    var m := Typed(e, p, b);
    ReadOnWords(m);
    hide And, Get, Put, Load, LoadU32, SqeIn, CqeIn, Mapped, View, Wf, WordsInside, SqSlotAt, SqSlot, CqSlotAt, CqSlot,
         ByteStep, Step, Refines;
    var b' := ByteStep(e, p, b, KernelRead);
    assert b' == b.(kpc := b'.kpc) && Step(m, KernelRead) == m.(kpc := b'.kpc);
    StepsMeet(e, p, b, KernelRead, b', m.(kpc := b'.kpc));
  }

  lemma KernelTakeRefines(e: Endian, p: Params, b: ByteMachine)
    requires Mapped(e, p, b.mem) && b.kpc.KRead?
    ensures Refines(e, p, b, KernelTake)
  {
    TakeOnBytes(e, p, b);
    LoadsAgree(e, p, b.mem);
    ViewIsWf(e, p, b.mem);
    StoreSqHeadView(e, p, b.mem, WrapAdd(LoadU32(e, b.mem.sq, p.sqOff.head), 1));
    TakeOnWords(Typed(e, p, b));
    hide And, Get, Put, Load, LoadU32, SqeIn, CqeIn, Mapped, View, Wf, WordsInside, StoreSq, WrapAdd, ByteStep, Step,
         Refines;
    StepsMeet(e, p, b, KernelTake, ByteStep(e, p, b, KernelTake), Step(Typed(e, p, b), KernelTake));
  }

  lemma KernelPostRefines(e: Endian, p: Params, b: ByteMachine)
    requires Mapped(e, p, b.mem) && b.kpc.KWrote? && b.kpc.i < |b.inflight|
    ensures Refines(e, p, b, KernelPost)
  {
    PostOnBytes(e, p, b);
    LoadsAgree(e, p, b.mem);
    ViewIsWf(e, p, b.mem);
    StoreCqTailView(e, p, b.mem, WrapAdd(LoadU32(e, b.mem.cq, p.cqOff.tail), 1));
    PostOnWords(Typed(e, p, b));
    hide And, Get, Put, Load, LoadU32, SqeIn, CqeIn, Mapped, View, Wf, WordsInside, StoreCq, WrapAdd, Without,
         ByteStep, Step, Refines;
    StepsMeet(e, p, b, KernelPost, ByteStep(e, p, b, KernelPost), Step(Typed(e, p, b), KernelPost));
  }

  lemma WriteOnWords(m: Machine, i: nat, res: I32, flags: U32)
    requires Wf(m.ring) && m.kpc.KIdle? && i < |m.inflight|
    requires WrapSub(m.ring.cqTail, m.ring.cqHead) < |m.ring.cqes|
    ensures var cqe := Cqe(m.inflight[i].userData, res, flags);
            Step(m, KernelWrite(i, res, flags))
            == m.(ring := m.ring.(cqes := m.ring.cqes[CqSlot(m.ring, m.ring.cqTail) := cqe]), kpc := KWrote(i, cqe))
  {
    hide And, Wf, WrapSub, CqSlot;
  }

  lemma WriteOnBytes(e: Endian, p: Params, b: ByteMachine, i: nat, res: I32, flags: U32)
    requires Mapped(e, p, b.mem) && b.kpc.KIdle? && i < |b.inflight| && RoomFor(e, p, b.mem)
    ensures WordsInside(p, b.mem)
    ensures var m, cqe := b.mem, Cqe(b.inflight[i].userData, res, flags);
            var slot := CqSlotAt(e, p, m, LoadU32(e, m.cq, p.cqOff.tail));
            ByteStep(e, p, b, KernelWrite(i, res, flags))
            == b.(mem := StoreCq(p, m, p.cqOff.cqes + slot * CQE_SIZE, EncodeCqe(e, cqe)), kpc := KWrote(i, cqe))
  {
    hide And, Load, LoadU32, Put, StoreCq, EncodeCqe, CqSlotAt, RoomFor, KernelLayout, Sized;
  }

  lemma KernelWriteRefines(e: Endian, p: Params, b: ByteMachine, i: nat, res: I32, flags: U32)
    requires Mapped(e, p, b.mem) && b.kpc.KIdle? && i < |b.inflight|
    requires RoomFor(e, p, b.mem)
    ensures Refines(e, p, b, KernelWrite(i, res, flags))
  {
    var m, l := b.mem, KernelWrite(i, res, flags);
    var tail, cqe := LoadU32(e, m.cq, p.cqOff.tail), Cqe(b.inflight[i].userData, res, flags);
    WriteOnBytes(e, p, b, i, res, flags);
    SlotsAgree(e, p, m, tail);
    LoadsAgree(e, p, m);
    StoreCqeView(e, p, m, CqSlotAt(e, p, m, tail), cqe);
    WriteOnWords(Typed(e, p, b), i, res, flags);
    hide And, Get, Put, Load, LoadU32, SqeIn, CqeIn, Mapped, View, Wf, WordsInside, SqSlotAt, SqSlot, CqSlotAt,
         CqSlot, StoreCq, EncodeCqe, ByteStep, Step, Refines;
    StepsMeet(e, p, b, l, ByteStep(e, p, b, l), Step(Typed(e, p, b), l));
  }

  /** A label that is not enabled leaves the bytes alone as it leaves the words, and the steps of the
      client around the enter touch no memory but the head it loads. */
  lemma OtherStepRefines(e: Endian, p: Params, b: ByteMachine, l: Label)
    requires Mapped(e, p, b.mem) && !l.Client? && !l.KernelRead?
    requires l.KernelTake? ==> !b.kpc.KRead?
    requires l.KernelPost? ==> !(b.kpc.KWrote? && b.kpc.i < |b.inflight|)
    requires l.KernelWrite? ==>
               !(b.kpc.KIdle? && l.i < |b.inflight| && RoomFor(e, p, b.mem))
    ensures Refines(e, p, b, l)
  {
    ViewIsWf(e, p, b.mem);
    LoadsAgree(e, p, b.mem);
    hide And, Get, Put, Load, LoadU32, SqeIn, CqeIn, Mapped, View, Wf, WordsInside, SqSlotAt, SqSlot, CqSlotAt,
         CqSlot, StoreSq, StoreCq, EncodeCqe;
    var b' := ByteStep(e, p, b, l);
    assert b' == b.(pc := b'.pc, log := b'.log);
    assert Step(Typed(e, p, b), l) == Typed(e, p, b).(pc := b'.pc, log := b'.log);
    hide ByteStep, Step, Refines;
    StepsMeet(e, p, b, l, b', Typed(e, p, b).(pc := b'.pc, log := b'.log));
  }

  /** Every single load and store on the bytes, of either party, is that step of the word level. */
  lemma ByteStepRefines(e: Endian, p: Params, b: ByteMachine, l: Label)
    requires Mapped(e, p, b.mem)
    ensures Refines(e, p, b, l)
  {
    hide *;
    if l.Client? {
      match b.pc
      case GotSqTail(_, _, _) => StoreSqeRefines(e, p, b);
      case StoredSqe(_, _) => StoreIndexRefines(e, p, b);
      case StoredIndex(_, _) => StoreTailRefines(e, p, b);
      case GotCqe(_, _, _) => StoreCqHeadRefines(e, p, b);
      case GotCqTail(_, _) => CqeLoadRefines(e, p, b);
      case _ => ClientLoadRefines(e, p, b);
    } else if l.KernelRead? {
      KernelReadRefines(e, p, b);
    } else if l.KernelTake? && b.kpc.KRead? {
      KernelTakeRefines(e, p, b);
    } else if l.KernelPost? && b.kpc.KWrote? && b.kpc.i < |b.inflight| {
      KernelPostRefines(e, p, b);
    } else if l.KernelWrite? && b.kpc.KIdle? && l.i < |b.inflight| && RoomFor(e, p, b.mem) {
      KernelWriteRefines(e, p, b, l.i, l.res, l.flags);
    } else {
      OtherStepRefines(e, p, b, l);
    }
  }

  function ByteRun(e: Endian, p: Params, b: ByteMachine, labels: seq<Label>): ByteMachine
    requires Mapped(e, p, b.mem)
    decreases |labels|
  {
    if labels == [] then b
    else
      ByteStepRefines(e, p, b, labels[0]);
      ByteRun(e, p, ByteStep(e, p, b, labels[0]), labels[1..])
  }

  /** Any interleaving on the bytes, in both layouts, is that run of the word level. */
  lemma {:induction false} ByteRunRefines(e: Endian, p: Params, b: ByteMachine, labels: seq<Label>)
    requires Mapped(e, p, b.mem)
    ensures Wf(View(e, p, b.mem))
    ensures var b' := ByteRun(e, p, b, labels);
            Mapped(e, p, b'.mem) && Typed(e, p, b') == Run(Typed(e, p, b), labels)
    decreases |labels|
  {
    ViewIsWf(e, p, b.mem);
    hide Mapped, ByteStep, Step, Wf, View, WordsInside;
    if labels != [] {
      ByteStepRefines(e, p, b, labels[0]);
      ByteRunRefines(e, p, ByteStep(e, p, b, labels[0]), labels[1..]);
    }
  }

  /** So on the bytes of a fresh ring, in any interleaving with an in-order kernel, every success is
      shifted by the earlier failures. */
  lemma ByteRunReturnsShifted(e: Endian, p: Params, b: ByteMachine, labels: seq<Label>)
    requires Mapped(e, p, b.mem) && Fresh(Typed(e, p, b)) && InOrderKernel(labels)
    ensures AllShifted(ByteRun(e, p, b, labels).log)
  {
    ByteRunRefines(e, p, b, labels);
    RunIsShifted(Typed(e, p, b), labels);
    hide Mapped, ByteRun, Run, InOrderKernel, View, Fresh, AllShifted, WordsInside;
  }
}
