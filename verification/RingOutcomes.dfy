/** What the results of whole calls mean: when a success returns its own completion, and what the two
    queue errors say about the queues. */
module RingOutcomes {
  import opened Words
  import opened RingMachine
  import opened RingQueues
  import opened RingTheorems

  // ---- whose completion a success returns ----

  /** No two of these submissions carry the same user data. */
  ghost predicate Distinct(sqes: seq<Sqe>) {
    forall i, j :: 0 <= i < j < |sqes| ==> sqes[i].userData != sqes[j].userData
  }

  /** With distinct user data and an in-order kernel: a success returns its own completion exactly
      when no call before it published and then failed. */
  lemma OwnIffNoFailure(m: Machine, labels: seq<Label>, k: nat)
    requires Fresh(m) && InOrderKernel(labels) && Distinct(PublishedBy(Run(m, labels).log))
    requires k < |Run(m, labels).log| && Run(m, labels).log[k].Done?
    ensures var log := Run(m, labels).log;
            log[k].cqe.userData == log[k].sqe.userData <==> Failures(log[..k]) == 0
  {
    SuccessReturnsShifted(m, labels, k);
  }

  // ---- a success after a failure does return another call's completion ----

  /** The kernel takes the oldest submission, completes it and posts the completion. */
  const SERVE_ONE: seq<Label> := [KernelRead, KernelTake, KernelWrite(0, 0, 0), KernelPost]

  lemma StepThen(m: Machine, q: Queues, l: Label) returns (q': Queues)
    requires Implements(m, q)
    ensures Wf(m.ring) && Implements(Step(m, l), q')
    ensures Legal(q, m.ring.sqEntries, |m.ring.cqes|, ActionOf(m, l))
    ensures q' == Apply(q, m.ring.sqEntries, |m.ring.cqes|, ActionOf(m, l))
  {
    ImplementsWf(m, q);
    StepRefines(m, q, l);
    hide Implements;
    q' := Apply(q, m.ring.sqEntries, |m.ring.cqes|, ActionOf(m, l));
  }

  lemma ReadIsEnabled(m: Machine, q: Queues)
    requires Implements(m, q) && m.kpc.KIdle? && q.pending != []
    ensures Step(m, KernelRead) == m.(kpc := KRead(q.pending[0]))
  {
    hide And;
    CountersExact(m.ring, Left(q), q.pending, |q.reaped|, q.posted);
    assert SqEntry(m.ring, Left(q), q.pending, 0);
    assert SqSlot(m.ring, m.ring.sqHead) == SlotOf(Left(q), m.ring.sqEntries);
  }

  lemma WriteIsEnabled(m: Machine, q: Queues)
    requires Implements(m, q) && m.kpc.KIdle? && q.inflight != [] && |q.posted| < |m.ring.cqes|
    ensures var m' := Step(m, KernelWrite(0, 0, 0));
            m'.kpc == KWrote(0, Cqe(q.inflight[0].userData, 0, 0)) && m'.inflight == m.inflight
            && |m'.ring.cqes| == |m.ring.cqes|
  {
    hide And;
    CountersExact(m.ring, Left(q), q.pending, |q.reaped|, q.posted);
  }

  /** An idle kernel can always serve the oldest pending submission while a completion fits. */
  lemma KernelServes(m: Machine, q: Queues) returns (q': Queues)
    requires Implements(m, q) && m.kpc.KIdle? && m.inflight == []
    requires q.pending != [] && |q.posted| < |m.ring.cqes|
    ensures Wf(m.ring) && Implements(Run(m, SERVE_ONE), q')
    ensures q'.posted == q.posted + [Cqe(q.pending[0].userData, 0, 0)] && q'.pending == q.pending[1..]
  {
    hide And, Step, Implements, SqHolds, CqHolds;
    ImplementsWf(m, q);
    ImplementsInflight(m, q);
    ReadIsEnabled(m, q);
    var q1 := StepThen(m, q, KernelRead);
    var m1 := Step(m, KernelRead);
    var q2 := StepThen(m1, q1, KernelTake);
    var m2 := Step(m1, KernelTake);
    TakeIsTaken(m1);
    ImplementsInflight(m2, q2);
    WriteIsEnabled(m2, q2);
    var q3 := StepThen(m2, q2, KernelWrite(0, 0, 0));
    var m3 := Step(m2, KernelWrite(0, 0, 0));
    q' := StepThen(m3, q3, KernelPost);
    RunFour(m, KernelRead, KernelTake, KernelWrite(0, 0, 0), KernelPost);
  }

  lemma ImplementsInflight(m: Machine, q: Queues)
    requires Implements(m, q)
    ensures m.inflight == q.inflight
  {}

  lemma TakeIsTaken(m: Machine)
    requires Wf(m.ring) && m.kpc.KRead?
    ensures var m' := Step(m, KernelTake);
            m'.kpc == KIdle && m'.inflight == m.inflight + [m.kpc.sqe] && m'.ring.cqes == m.ring.cqes
  {}

  lemma RunFour(m: Machine, a: Label, b: Label, c: Label, d: Label)
    requires Wf(m.ring)
    ensures var m1 := Step(m, a);
            Wf(m1.ring) &&
            var m2 := Step(m1, b);
            Wf(m2.ring) &&
            var m3 := Step(m2, c);
            Wf(m3.ring) && Run(m, [a, b, c, d]) == Step(m3, d)
  {
    hide And, Step, Wf, Run;
    var m1 := Step(m, a);
    assert [a] + [b, c, d] == [a, b, c, d];
    RunCons(m, a, [b, c, d]);
    assert [b] + [c, d] == [b, c, d];
    RunCons(m1, b, [c, d]);
    var m2 := Step(m1, b);
    assert [c] + [d] == [c, d];
    RunCons(m2, c, [d]);
    RunCons(Step(m2, c), d, []);
  }

  predicate ClientLabel(l: Label) { l.Call? || l.Client? || l.EnterReturns? }

  lemma {:induction false} ClientKeepsKernel(m: Machine, ls: seq<Label>)
    requires Wf(m.ring) && forall i :: 0 <= i < |ls| ==> ClientLabel(ls[i])
    ensures Run(m, ls).kpc == m.kpc && Run(m, ls).inflight == m.inflight
    decreases |ls|
  {
    if ls != [] {
      ClientStepKeepsKernel(m, ls[0]);
      StepKeepsWf(m, ls[0]);
      hide Step;
      ClientKeepsKernel(Step(m, ls[0]), ls[1..]);
    }
  }

  lemma ClientStepKeepsKernel(m: Machine, l: Label)
    requires Wf(m.ring) && ClientLabel(l)
    ensures Step(m, l).kpc == m.kpc && Step(m, l).inflight == m.inflight
  {
    hide And;
  }

  const EINTR := 4

  function Submit(sqe: Sqe): seq<Label> { [Call(sqe), Client, Client, Client, Client] }

  function Finish(ret: EnterResult): seq<Label> { [EnterReturns(ret), Client, Client, Client, Client] }

  /** The first call publishes a and its enter is interrupted before the kernel takes anything; the
      second publishes b, and the kernel serves one submission, as it was asked to. */
  function InterruptedThenServed(a: Sqe, b: Sqe): seq<Label> {
    Submit(a) + [] + Finish(Errno(EINTR)) + (Submit(b) + SERVE_ONE + Finish(Submitted(1)))
  }

  /** The machine when the kernel is entered for the second time. */
  lemma AfterInterrupt(m: Machine, a: Sqe, b: Sqe) returns (m1: Machine, q: Queues)
    requires Fresh(m) && m.ring.sqEntries >= 2
    ensures Wf(m.ring) && m1 == Run(m, Submit(a) + [] + Finish(Errno(EINTR)))
    ensures m1.pc == Idle && m1.log == [EnterFailed(a)] && PublishAll(m1.ring, b).Some?
    ensures var m2 := Run(m1, Submit(b));
            && Implements(m2, q) && m2.kpc.KIdle? && m2.inflight == []
            && |q.pending| == 2 && q.pending[0].userData == a.userData && q.posted == []
  {
    hide And, Step, Run;
    FreshImplements(m);
    PublishIsEnqueue(m.ring, 0, [], 0, [], a);
    CallIsRun(m, a, [], Errno(EINTR));
    var first := Submit(a) + [] + Finish(Errno(EINTR));
    m1 := Run(m, first);
    RunNothing(Run(m, Submit(a)));
    var r1 := PublishAll(m.ring, a).value;
    assert m1.ring == r1;
    PublishIsEnqueue(r1, 0, [] + [a], 0, [], b);
    PublishIsFiveSteps(m1, b);
    var m2 := Run(m1, Submit(b));
    ClientKeepsKernel(m, first);
    ClientKeepsKernel(m1, Submit(b));
    RunAppend(m, first, Submit(b));
    q := InOrderRun(m, NOTHING, first + Submit(b));
    TwoPending(m2, q, a, b);
  }

  lemma RunNothing(m: Machine)
    requires Wf(m.ring)
    ensures Run(m, []) == m
  {}

  lemma TwoPending(m: Machine, q: Queues, a: Sqe, b: Sqe)
    requires Implements(m, q) && Ordered(q) && m.inflight == [] && m.pc == InEnter(b) && m.log == [EnterFailed(a)]
    requires m.ring.cqHead == m.ring.cqTail
    ensures |q.pending| == 2 && q.pending[0].userData == a.userData && q.posted == []
  {
    hide And;
    CountersExact(m.ring, Left(q), q.pending, |q.reaped|, q.posted);
    assert m.log[..|m.log| - 1] == [];
    assert PublishedBy(m.log) == [] + [a] && ReapedBy(m.log) == [] + [];
    assert q.published == [a] + [b];
    assert |q.posted| == 0 && |q.reaped| == 0;
    assert CompletedData(q.reaped) == [] && CompletedData(q.posted) == [] && UserDataOf(q.inflight) == [];
    assert InOrderData(q) == UserDataOf(q.pending);
    assert UserDataOf(q.published)[0] == a.userData;
  }

  /** From any fresh ring with room for two: the call after an interrupted one succeeds with the
      completion of the submission before its own. */
  lemma FailedEnterShifts(m: Machine, a: Sqe, b: Sqe)
    requires Fresh(m) && m.ring.sqEntries >= 2
    ensures InOrderKernel(InterruptedThenServed(a, b))
    ensures Run(m, InterruptedThenServed(a, b)).log == [EnterFailed(a), Done(b, Cqe(a.userData, 0, 0))]
  {
    hide And, Step, Run;
    var m1, q := AfterInterrupt(m, a, b);
    var first := Submit(a) + [] + Finish(Errno(EINTR));
    CallIsRun(m1, b, SERVE_ONE, Submitted(1));
    RunAppend(m, first, Submit(b) + SERVE_ONE + Finish(Submitted(1)));
    var m2 := Run(m1, Submit(b));
    RoomForOne(m2);
    var q' := KernelServes(m2, q);
    var m3 := Run(m2, SERVE_ONE);
    ReapsPosted(m3, q');
  }

  lemma RoomForOne(m: Machine)
    requires Wf(m.ring)
    ensures |m.ring.cqes| > 0
  {
    hide And;
    WrappedSlot(0, |m.ring.cqes|);
  }

  lemma ReapsPosted(m: Machine, q: Queues)
    requires Implements(m, q) && q.posted != []
    ensures ReapOne(m.ring).Some? && ReapOne(m.ring).value.1 == q.posted[0]
  {
    hide And;
    ReapIsDequeue(m.ring, Left(q), q.pending, |q.reaped|, q.posted);
  }

  // ---- what the queue errors mean ----

  lemma {:induction false} KernelKeepsSqTail(m: Machine, ks: seq<Label>)
    requires Wf(m.ring) && forall i :: 0 <= i < |ks| ==> KernelLabel(ks[i])
    ensures Run(m, ks).ring.sqTail == m.ring.sqTail && Run(m, ks).ring.sqEntries == m.ring.sqEntries
    decreases |ks|
  {
    if ks != [] {
      KernelStepKeepsSqTail(m, ks[0]);
      StepKeepsWf(m, ks[0]);
      hide Step;
      KernelKeepsSqTail(Step(m, ks[0]), ks[1..]);
    }
  }

  lemma KernelStepKeepsSqTail(m: Machine, l: Label)
    requires Wf(m.ring) && KernelLabel(l)
    ensures Step(m, l).ring.sqTail == m.ring.sqTail && Step(m, l).ring.sqEntries == m.ring.sqEntries
  {
    hide And;
  }

  /** A call reports a full queue exactly when the pending queue was full at the moment it loaded the
      head, whatever the kernel takes between its loads; otherwise it goes on to publish. */
  lemma FullIffFullAtHeadLoad(m: Machine, q: Queues, sqe: Sqe, ks: seq<Label>, ks': seq<Label>)
    requires Implements(m, q) && m.pc.Idle?
    requires forall i :: 0 <= i < |ks| ==> KernelLabel(ks[i])
    requires forall i :: 0 <= i < |ks'| ==> KernelLabel(ks'[i])
    ensures Wf(m.ring)
    ensures var m' := Run(m, [Call(sqe)] + ks + [Client] + ks' + [Client]);
            if |q.pending| == m.ring.sqEntries then m'.pc == Idle && m'.log == m.log + [Full(sqe)]
            else m'.pc == StoredSqe(sqe, m.ring.sqTail) && m'.log == m.log
  {
    hide And, Run;
    CountersExact(m.ring, Left(q), q.pending, |q.reaped|, q.posted);
    var m1 := Step(m, Call(sqe));
    RunCons(m, Call(sqe), []);
    RunAppend(m, [Call(sqe)], ks);
    var m2 := Run(m1, ks);
    KernelKeepsClient(m1, ks);
    KernelKeepsSqTail(m1, ks);
    var m3 := Step(m2, Client);
    RunCons(m2, Client, []);
    RunAppend(m, [Call(sqe)] + ks, [Client]);
    var m4 := Run(m3, ks');
    KernelKeepsClient(m3, ks');
    KernelKeepsSqTail(m3, ks');
    RunAppend(m, [Call(sqe)] + ks + [Client], ks');
    RunCons(m4, Client, []);
    RunAppend(m, [Call(sqe)] + ks + [Client] + ks', [Client]);
    assert m4.pc == GotSqTail(sqe, m.ring.sqHead, m.ring.sqTail);
  }

  /** At the moment a call loads the completion tail, it reports an empty queue exactly when the
      completion queue is empty; otherwise it goes on to take the oldest completion. */
  lemma EmptyIffEmptyAtTailLoad(m: Machine, q: Queues)
    requires Implements(m, q) && m.pc.GotCqHead?
    ensures Wf(m.ring)
    ensures var m' := Step(m, Client);
            if q.posted == [] then m'.pc == Idle && m'.log == m.log + [Empty(m.pc.sqe)]
            else m'.pc == GotCqTail(m.pc.sqe, m.pc.head) && m'.log == m.log
  {
    hide And;
    CountersExact(m.ring, Left(q), q.pending, |q.reaped|, q.posted);
  }
}
