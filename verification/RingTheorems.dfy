/** What holds over whole runs of the ring machine. */
module RingTheorems {
  import opened Words
  import opened RingMachine
  import opened RingQueues

  // ---- refinement over runs ----

  function ActionsOf(m: Machine, labels: seq<Label>): seq<Action>
    requires Wf(m.ring)
    decreases |labels|
  {
    if labels == [] then []
    else
      StepKeepsWf(m, labels[0]);
      [ActionOf(m, labels[0])] + ActionsOf(Step(m, labels[0]), labels[1..])
  }

  /** The queues can perform the actions one after another, never overfull and never empty. */
  predicate AllLegal(q: Queues, n: nat, c: nat, actions: seq<Action>)
    decreases |actions|
  {
    actions == [] ||
    (Legal(q, n, c, actions[0]) && AllLegal(Apply(q, n, c, actions[0]), n, c, actions[1..]))
  }

  function ApplyAll(q: Queues, n: nat, c: nat, actions: seq<Action>): Queues
    requires AllLegal(q, n, c, actions)
    decreases |actions|
  {
    if actions == [] then q else ApplyAll(Apply(q, n, c, actions[0]), n, c, actions[1..])
  }

  lemma FreshImplements(m: Machine)
    requires Fresh(m)
    ensures Implements(m, NOTHING)
  {}

  lemma StepKeepsSizes(m: Machine, l: Label)
    requires Wf(m.ring)
    ensures Step(m, l).ring.sqEntries == m.ring.sqEntries && |Step(m, l).ring.cqes| == |m.ring.cqes|
  {}

  lemma ImplementsWf(m: Machine, q: Queues)
    requires Implements(m, q)
    ensures Wf(m.ring)
  {}

  /** Every interleaving of client and kernel is a run of two bounded FIFO queues. */
  lemma {:induction false} RunRefines(m: Machine, q: Queues, labels: seq<Label>)
    requires Implements(m, q)
    ensures var n, c := m.ring.sqEntries, |m.ring.cqes|;
            AllLegal(q, n, c, ActionsOf(m, labels))
            && Implements(Run(m, labels), ApplyAll(q, n, c, ActionsOf(m, labels)))
    decreases |labels|
  {
    hide Step, And, Implements;
    if labels != [] {
      var n, c := m.ring.sqEntries, |m.ring.cqes|;
      ImplementsWf(m, q);
      StepRefines(m, q, labels[0]);
      StepKeepsSizes(m, labels[0]);
      var m', q' := Step(m, labels[0]), Apply(q, n, c, ActionOf(m, labels[0]));
      ImplementsWf(m', q');
      RunRefines(m', q', labels[1..]);
      assert ActionsOf(m, labels)[1..] == ActionsOf(m', labels[1..]);
    }
  }

  // ---- which completion a call returns ----

  function UserDataOf(s: seq<Sqe>): (r: seq<U64>)
    ensures |r| == |s|
  {
    seq(|s|, i requires 0 <= i < |s| => s[i].userData)
  }

  function CompletedData(s: seq<Cqe>): (r: seq<U64>)
    ensures |r| == |s|
  {
    seq(|s|, i requires 0 <= i < |s| => s[i].userData)
  }

  /** Completions, in-flight requests and pending submissions, read in that order. */
  function InOrderData(q: Queues): seq<U64> {
    CompletedData(q.reaped) + CompletedData(q.posted) + UserDataOf(q.inflight) + UserDataOf(q.pending)
  }

  /** Nothing was reordered: reading the pipeline from its far end gives the publication order. */
  predicate Ordered(q: Queues) {
    InOrderData(q) == UserDataOf(q.published)
  }

  /** Nothing was lost, invented or completed twice, in whatever order the kernel completes. */
  ghost predicate Conserved(q: Queues) {
    multiset(InOrderData(q)) == multiset(UserDataOf(q.published))
  }

  /** How an action moves user data through the pipeline; only Post can reorder. */
  lemma ApplyMovesData(q: Queues, n: nat, c: nat, a: Action)
    requires Legal(q, n, c, a) && (a.Post? ==> a.i == 0)
    ensures var q' := Apply(q, n, c, a);
            if a.Publish? then
              InOrderData(q') == InOrderData(q) + [a.sqe.userData]
              && UserDataOf(q'.published) == UserDataOf(q.published) + [a.sqe.userData]
            else InOrderData(q') == InOrderData(q) && q'.published == q.published
  {
    var q' := Apply(q, n, c, a);
    match a
    case Publish(sqe) => assert UserDataOf(q'.pending) == UserDataOf(q.pending) + [sqe.userData];
    case Consume =>
      assert UserDataOf(q'.inflight) + UserDataOf(q'.pending) == UserDataOf(q.inflight) + UserDataOf(q.pending);
    case Post(_, _, _) =>
      assert CompletedData(q'.posted) + UserDataOf(q'.inflight) == CompletedData(q.posted) + UserDataOf(q.inflight);
    case Reap =>
      assert CompletedData(q'.reaped) + CompletedData(q'.posted) == CompletedData(q.reaped) + CompletedData(q.posted);
    case Stutter =>
  }

  lemma ApplyKeepsOrder(q: Queues, n: nat, c: nat, a: Action)
    requires Legal(q, n, c, a) && Ordered(q) && (a.Post? ==> a.i == 0)
    ensures Ordered(Apply(q, n, c, a))
  {
    ApplyMovesData(q, n, c, a);
  }

  lemma RemovalConserves<T>(done: seq<T>, flying: seq<T>, i: nat, pending: seq<T>)
    requires i < |flying|
    ensures multiset(done + [flying[i]] + Without(flying, i) + pending) == multiset(done + flying + pending)
  {
    assert flying == flying[..i] + [flying[i]] + flying[i + 1..];
  }

  lemma DataWithout(s: seq<Sqe>, i: nat)
    requires i < |s|
    ensures UserDataOf(Without(s, i)) == Without(UserDataOf(s), i) && UserDataOf(s)[i] == s[i].userData
  {}

  lemma DataAppend(s: seq<Cqe>, cqe: Cqe)
    ensures CompletedData(s + [cqe]) == CompletedData(s) + [cqe.userData]
  {}

  lemma PostConserves(q: Queues, n: nat, c: nat, a: Action)
    requires Legal(q, n, c, a) && Conserved(q) && a.Post?
    ensures Conserved(Apply(q, n, c, a))
  {
    var q' := Apply(q, n, c, a);
    var done, flying := CompletedData(q.reaped) + CompletedData(q.posted), UserDataOf(q.inflight);
    DataWithout(q.inflight, a.i);
    DataAppend(q.posted, Cqe(q.inflight[a.i].userData, a.res, a.flags));
    hide UserDataOf, CompletedData, Without;
    assert CompletedData(q.reaped) + (CompletedData(q.posted) + [flying[a.i]]) == done + [flying[a.i]];
    RemovalConserves(done, flying, a.i, UserDataOf(q.pending));
  }

  lemma ApplyConserves(q: Queues, n: nat, c: nat, a: Action)
    requires Legal(q, n, c, a) && Conserved(q)
    ensures Conserved(Apply(q, n, c, a))
  {
    hide Apply, InOrderData;
    if a.Post? {
      PostConserves(q, n, c, a);
    } else {
      ApplyMovesData(q, n, c, a);
    }
  }

  /** The kernel completes requests in the order it took them. */
  predicate InOrderKernel(labels: seq<Label>) {
    forall i :: 0 <= i < |labels| && labels[i].KernelWrite? ==> labels[i].i == 0
  }

  /** Calls that published, and of those the ones that returned a completion. */
  lemma {:induction false} CallCounts(log: seq<CallResult>)
    ensures |PublishedBy(log)| == |ReapedBy(log)| + Failures(log)
  {
    if log != [] {
      CallCounts(log[..|log| - 1]);
    }
  }

  lemma {:induction false} LogPrefix(log: seq<CallResult>, i: nat)
    requires i < |log| && log[i].Done?
    ensures |PublishedBy(log[..i])| < |PublishedBy(log)| && |ReapedBy(log[..i])| < |ReapedBy(log)|
    ensures PublishedBy(log)[|PublishedBy(log[..i])|] == log[i].sqe
    ensures ReapedBy(log)[|ReapedBy(log[..i])|] == log[i].cqe
    decreases |log|
  {
    var init := log[..|log| - 1];
    if i < |log| - 1 {
      LogPrefix(init, i);
      assert init[..i] == log[..i];
    }
  }

  /** Every completed call with no failure before it got its own user data back. */
  ghost predicate OwnUntilFailure(log: seq<CallResult>) {
    forall i: nat {:trigger log[i]} :: i < |log| && log[i].Done? && Failures(log[..i]) == 0 ==>
      log[i].cqe.userData == log[i].sqe.userData
  }

  /** Holds along every run, whatever order the kernel completes in. */
  ghost predicate RunInvariant(m: Machine, q: Queues) {
    && Implements(m, q) && Conserved(q) && OwnUntilFailure(m.log)
    && (Failures(m.log) == 0 ==> Ordered(q))
    && (m.kpc.KWrote? && Failures(m.log) == 0 ==> m.kpc.i == 0)
  }

  lemma AppendKeepsPrefixes(log: seq<CallResult>, x: CallResult)
    ensures (log + [x])[..|log|] == log
    ensures Failures(log + [x]) == Failures(log) + (if x.EnterFailed? || x.Empty? then 1 else 0)
    ensures forall i: nat {:trigger (log + [x])[i]} :: i < |log| ==> (log + [x])[..i] == log[..i]
  {
    assert (log + [x])[..|log|] == log;
  }

  /** With no failed call behind it, at most one request is outstanding. */
  lemma FailureFreeIsSerial(m: Machine, q: Queues)
    requires Implements(m, q) && Failures(m.log) == 0
    ensures |q.pending| + |q.inflight| + |q.posted| <= 1
    ensures !PastTailStore(m.pc) ==> |q.pending| + |q.inflight| + |q.posted| == 0
  {
    CallCounts(m.log);
  }

  /** The completion a failure-free client is about to return is its own. */
  lemma FailureFreeReapsOwn(m: Machine, q: Queues)
    requires RunInvariant(m, q) && m.pc.GotCqe? && Failures(m.log) == 0
    ensures m.pc.cqe.userData == m.pc.sqe.userData
  {
    hide And, SqHolds, CqHolds, KernelKnows;
    FailureFreeIsSerial(m, q);
    CallCounts(m.log);
    assert CompletedData(q.reaped) + CompletedData(q.posted) == InOrderData(q);
    assert InOrderData(q)[|q.reaped|] == q.posted[0].userData;
    assert UserDataOf(q.published)[|q.reaped|] == m.pc.sqe.userData;
  }

  lemma OwnAfterStep(m: Machine, q: Queues, l: Label)
    requires RunInvariant(m, q)
    ensures Wf(m.ring) && OwnUntilFailure(Step(m, l).log)
  {
    ImplementsWf(m, q);
    if l.Client? && m.pc.GotCqe? && Failures(m.log) == 0 {
      FailureFreeReapsOwn(m, q);
    }
    hide And, Implements, Conserved;
    var log, log' := m.log, Step(m, l).log;
    if log' != log {
      AppendKeepsPrefixes(log, log'[|log|]);
      forall i: nat {:trigger log'[i]} | i < |log'| && log'[i].Done? && Failures(log'[..i]) == 0
        ensures log'[i].cqe.userData == log'[i].sqe.userData
      {
        if i < |log| {
          assert log'[..i] == log[..i] && log'[i] == log[i];
        }
      }
    }
  }

  lemma FailuresOnlyGrow(m: Machine, l: Label)
    requires Wf(m.ring)
    ensures Failures(m.log) <= Failures(Step(m, l).log)
  {
    hide And;
    if Step(m, l).log != m.log {
      AppendKeepsPrefixes(m.log, Step(m, l).log[|m.log|]);
    }
  }

  lemma FailureFreeWritesFirst(m: Machine, q: Queues, l: Label)
    requires RunInvariant(m, q) && Failures(m.log) == 0
    ensures Step(m, l).kpc.KWrote? ==> Step(m, l).kpc.i == 0
    ensures ActionOf(m, l).Post? ==> ActionOf(m, l).i == 0
  {
    hide And;
    FailureFreeIsSerial(m, q);
  }

  lemma StepKeepsRunInvariant(m: Machine, q: Queues, l: Label) returns (q': Queues)
    requires RunInvariant(m, q)
    ensures RunInvariant(Step(m, l), q')
  {
    hide And, Step, Implements, OwnUntilFailure;
    ImplementsWf(m, q);
    var n, c, a := m.ring.sqEntries, |m.ring.cqes|, ActionOf(m, l);
    StepRefines(m, q, l);
    q' := Apply(q, n, c, a);
    ApplyConserves(q, n, c, a);
    OwnAfterStep(m, q, l);
    FailuresOnlyGrow(m, l);
    if Failures(m.log) == 0 {
      FailureFreeWritesFirst(m, q, l);
      ApplyKeepsOrder(q, n, c, a);
    }
  }

  lemma {:induction false} RunKeepsInvariant(m: Machine, q: Queues, labels: seq<Label>) returns (q': Queues)
    requires RunInvariant(m, q)
    ensures Wf(m.ring) && RunInvariant(Run(m, labels), q')
    decreases |labels|
  {
    hide And, Step, Implements, OwnUntilFailure;
    ImplementsWf(m, q);
    q' := q;
    if labels != [] {
      q' := StepKeepsRunInvariant(m, q, labels[0]);
      q' := RunKeepsInvariant(Step(m, labels[0]), q', labels[1..]);
    }
  }

  lemma InOrderWrites(m: Machine, l: Label)
    requires Wf(m.ring) && (l.KernelWrite? ==> l.i == 0) && (m.kpc.KWrote? ==> m.kpc.i == 0)
    ensures Step(m, l).kpc.KWrote? ==> Step(m, l).kpc.i == 0
  {
    hide And;
  }

  /** An in-order kernel keeps the whole pipeline in publication order, failures or not. */
  lemma {:induction false} InOrderRun(m: Machine, q: Queues, labels: seq<Label>) returns (q': Queues)
    requires Implements(m, q) && Ordered(q) && InOrderKernel(labels) && (m.kpc.KWrote? ==> m.kpc.i == 0)
    ensures Wf(m.ring) && Implements(Run(m, labels), q') && Ordered(q')
    decreases |labels|
  {
    hide And, Step, Implements;
    ImplementsWf(m, q);
    q' := q;
    if labels != [] {
      var n, c, a := m.ring.sqEntries, |m.ring.cqes|, ActionOf(m, labels[0]);
      StepRefines(m, q, labels[0]);
      ApplyKeepsOrder(q, n, c, a);
      InOrderWrites(m, labels[0]);
      q' := InOrderRun(Step(m, labels[0]), Apply(q, n, c, a), labels[1..]);
    }
  }

  // ---- whole calls ----

  /** At any counter values, wrapped or not: publishing fails exactly when the queue is full, and
      otherwise appends to it; the completion queue is untouched. */
  lemma PublishIsEnqueue(r: Ring, hSq: nat, pending: seq<Sqe>, hCq: nat, posted: seq<Cqe>, sqe: Sqe)
    requires Wf(r) && SqHolds(r, hSq, pending) && CqHolds(r, hCq, posted)
    ensures PublishAll(r, sqe) == None <==> |pending| == r.sqEntries
    ensures PublishAll(r, sqe).Some? ==>
              var r' := PublishAll(r, sqe).value;
              Wf(r') && SqHolds(r', hSq, pending + [sqe]) && CqHolds(r', hCq, posted)
  {
    hide And;
    CountersExact(r, hSq, pending, hCq, posted);
    if |pending| < r.sqEntries {
      var t := hSq + |pending|;
      var slot := SqSlot(r, r.sqTail);
      assert slot == SlotOf(t, r.sqEntries);
      var r1 := r.(sqes := r.sqes[slot := sqe]);
      FillFreeSqe(r, hSq, pending, sqe);
      var r2 := r1.(index := r1.index[slot := slot]);
      FillFreeIndex(r1, hSq, pending);
      AdvanceSqTail(r2, hSq, pending, sqe);
      CqUntouched(r, PublishAll(r, sqe).value, hCq, posted);
    }
  }

  /** At any counter values: waitCompletion reports empty exactly when the completion queue is
      empty, and otherwise dequeues its oldest entry. */
  lemma ReapIsDequeue(r: Ring, hSq: nat, pending: seq<Sqe>, hCq: nat, posted: seq<Cqe>)
    requires Wf(r) && SqHolds(r, hSq, pending) && CqHolds(r, hCq, posted)
    ensures ReapOne(r) == None <==> posted == []
    ensures ReapOne(r).Some? ==>
              var (r', cqe) := ReapOne(r).value;
              cqe == posted[0] && Wf(r') && CqHolds(r', hCq + 1, posted[1..]) && SqHolds(r', hSq, pending)
  {
    hide And;
    CountersExact(r, hSq, pending, hCq, posted);
    if posted != [] {
      assert CqEntry(r, hCq, posted, 0);
      assert CqSlot(r, r.cqHead) == SlotOf(hCq, |r.cqes|);
      AdvanceCqHead(r, hCq, posted);
      SqUntouched(r, ReapOne(r).value.0, hSq, pending);
    }
  }

  lemma FourClientSteps(m: Machine)
    requires Wf(m.ring)
    ensures var m1 := Step(m, Client);
            Wf(m1.ring) &&
            var m2 := Step(m1, Client);
            Wf(m2.ring) &&
            var m3 := Step(m2, Client);
            Wf(m3.ring) && Run(m, [Client, Client, Client, Client]) == Step(m3, Client)
  {
    hide And, Step, Wf;
    RunCons(m, Client, [Client, Client, Client]);
    var m1 := Step(m, Client);
    RunCons(m1, Client, [Client, Client]);
    var m2 := Step(m1, Client);
    RunCons(m2, Client, [Client]);
    RunCons(Step(m2, Client), Client, []);
  }

  /** The step system run without interference is the whole call: five steps up to the enter. */
  lemma PublishIsFiveSteps(m: Machine, sqe: Sqe)
    requires Wf(m.ring) && m.pc.Idle?
    ensures var m' := Run(m, [Call(sqe), Client, Client, Client, Client]);
            match PublishAll(m.ring, sqe)
            case None => m'.ring == m.ring && m'.pc == Idle && m'.log == m.log + [Full(sqe)]
            case Some(r) => m'.ring == r && m'.pc == InEnter(sqe) && m'.log == m.log
  {
    hide And, IsRingSize, Run;
    RunCons(m, Call(sqe), [Client, Client, Client, Client]);
    assert [Call(sqe)] + [Client, Client, Client, Client] == [Call(sqe), Client, Client, Client, Client];
    FourClientSteps(Step(m, Call(sqe)));
  }

  /** ... and at most four after a successful enter. */
  lemma ReapIsFourSteps(m: Machine)
    requires Wf(m.ring) && m.pc.Returned?
    ensures var m' := Run(m, [Client, Client, Client, Client]);
            m'.pc == Idle &&
            match ReapOne(m.ring)
            case None => m'.ring == m.ring && m'.log == m.log + [Empty(m.pc.sqe)]
            case Some((r, cqe)) => m'.ring == r && m'.log == m.log + [Done(m.pc.sqe, cqe)]
  {
    hide And, IsRingSize, Run;
    FourClientSteps(m);
  }

  lemma RunCons(m: Machine, l: Label, rest: seq<Label>)
    requires Wf(m.ring)
    ensures Wf(Step(m, l).ring) && Run(m, [l] + rest) == Run(Step(m, l), rest)
    ensures rest == [] ==> Run(m, [l]) == Step(m, l)
  {
    hide Step;
    StepKeepsWf(m, l);
    assert ([l] + rest)[1..] == rest;
    assert rest == [] ==> [l] + rest == [l];
  }

  predicate KernelLabel(l: Label) {
    l.KernelRead? || l.KernelTake? || l.KernelWrite? || l.KernelPost?
  }

  lemma {:induction false} KernelKeepsClient(m: Machine, ks: seq<Label>)
    requires Wf(m.ring) && forall i :: 0 <= i < |ks| ==> KernelLabel(ks[i])
    ensures Run(m, ks).pc == m.pc && Run(m, ks).log == m.log
    decreases |ks|
  {
    if ks != [] {
      KernelStepKeepsClient(m, ks[0]);
      StepKeepsWf(m, ks[0]);
      hide Step;
      KernelKeepsClient(Step(m, ks[0]), ks[1..]);
    }
  }

  lemma KernelStepKeepsClient(m: Machine, l: Label)
    requires Wf(m.ring) && KernelLabel(l)
    ensures Step(m, l).pc == m.pc && Step(m, l).log == m.log
  {
    hide And;
  }

  lemma {:induction false} RunAppend(m: Machine, a: seq<Label>, b: seq<Label>)
    requires Wf(m.ring)
    ensures Run(m, a + b) == Run(Run(m, a), b)
    decreases |a|
  {
    hide Step;
    if a == [] {
      assert a + b == b;
    } else {
      StepKeepsWf(m, a[0]);
      assert (a + b)[1..] == a[1..] + b;
      RunAppend(Step(m, a[0]), a[1..], b);
    }
  }

  /** What a published call comes to, from the ring it finds when the enter returns. */
  function CallOutcome(r: Ring, sqe: Sqe, ret: EnterResult): (Ring, CallResult)
    requires Wf(r)
  {
    if ret != Submitted(1) then (r, EnterFailed(sqe))
    else match ReapOne(r)
         case None => (r, Empty(sqe))
         case Some((r', cqe)) => (r', Done(sqe, cqe))
  }

  /** A whole call of submitAndWait, with any kernel activity ks while it is inside the enter, is a
      run of the step system: the ring and the logged result are those of the whole-call functions. */
  lemma CallIsRun(m: Machine, sqe: Sqe, ks: seq<Label>, ret: EnterResult)
    requires Wf(m.ring) && m.pc.Idle? && PublishAll(m.ring, sqe).Some?
    requires forall i :: 0 <= i < |ks| ==> KernelLabel(ks[i])
    ensures var submit: seq<Label> := [Call(sqe), Client, Client, Client, Client];
            var wait: seq<Label> := [EnterReturns(ret), Client, Client, Client, Client];
            var atEnter := Run(m, submit);
            var atReturn := Run(atEnter, ks);
            var final := Run(m, submit + ks + wait);
            && atEnter.ring == PublishAll(m.ring, sqe).value && final.pc == Idle
            && (final.ring, final.log) == (var (r, x) := CallOutcome(atReturn.ring, sqe, ret); (r, m.log + [x]))
  {
    var submit: seq<Label> := [Call(sqe), Client, Client, Client, Client];
    var four: seq<Label> := [Client, Client, Client, Client];
    PublishIsFiveSteps(m, sqe);
    var atEnter := Run(m, submit);
    KernelKeepsClient(atEnter, ks);
    var atReturn := Run(atEnter, ks);
    RunCons(atReturn, EnterReturns(ret), four);
    RunAppend(m, submit, ks);
    RunAppend(m, submit + ks, [EnterReturns(ret)] + four);
    assert [EnterReturns(ret)] + four == [EnterReturns(ret), Client, Client, Client, Client];
    var returned := Step(atReturn, EnterReturns(ret));
    assert returned.ring == atReturn.ring;
    if ret == Submitted(1) {
      ReapIsFourSteps(returned);
    } else {
      IdleClientStays(returned, four);
    }
  }

  lemma {:induction false} IdleClientStays(m: Machine, ls: seq<Label>)
    requires Wf(m.ring) && m.pc.Idle? && forall i :: 0 <= i < |ls| ==> ls[i] == Client
    ensures Run(m, ls) == m
    decreases |ls|
  {
    if ls != [] {
      IdleClientStays(m, ls[1..]);
    }
  }

  // ---- the main results ----

  /** In any run from a fresh ring, against an in-order kernel that may fail the enter or cut the
      wait short: a completed call returns the completion of the submission published exactly as
      many publishing calls earlier as calls before it published and then failed. */
  lemma SuccessReturnsShifted(m: Machine, labels: seq<Label>, k: nat)
    requires Fresh(m) && InOrderKernel(labels)
    requires k < |Run(m, labels).log| && Run(m, labels).log[k].Done?
    ensures var log := Run(m, labels).log;
            var own, failed := |PublishedBy(log[..k])|, Failures(log[..k]);
            && failed <= own < |PublishedBy(log)|
            && PublishedBy(log)[own] == log[k].sqe
            && log[k].cqe.userData == PublishedBy(log)[own - failed].userData
  {
    hide And, Step;
    FreshImplements(m);
    var q := InOrderRun(m, NOTHING, labels);
    var log := Run(m, labels).log;
    LogPrefix(log, k);
    CallCounts(log[..k]);
    var j := |ReapedBy(log[..k])|;
    assert InOrderData(q)[j] == q.reaped[j].userData;
    assert UserDataOf(q.published)[j] == q.published[j].userData;
  }

  /** In any run, whatever order the kernel completes in, a completed call with no failed call
      before it returns its own user data. */
  lemma FailureFreeReturnsOwn(m: Machine, labels: seq<Label>, k: nat)
    requires Fresh(m)
    requires k < |Run(m, labels).log| && Run(m, labels).log[k].Done? && Failures(Run(m, labels).log[..k]) == 0
    ensures Run(m, labels).log[k].cqe.userData == Run(m, labels).log[k].sqe.userData
  {
    hide And, Step;
    FreshImplements(m);
    var q := RunKeepsInvariant(m, NOTHING, labels);
  }

  /** In any run, every completion handed out belongs to a published submission and none is handed
      out twice; what is not yet handed out is waiting in exactly one of the three queues. */
  lemma CompletionsConserved(m: Machine, labels: seq<Label>) returns (q: Queues)
    requires Fresh(m)
    ensures Implements(Run(m, labels), q) && q.reaped == ReapedBy(Run(m, labels).log)
    ensures multiset(CompletedData(q.reaped)) + multiset(CompletedData(q.posted))
         + multiset(UserDataOf(q.inflight)) + multiset(UserDataOf(q.pending)) == multiset(UserDataOf(q.published))
    ensures |q.pending| <= m.ring.sqEntries && |q.posted| <= |m.ring.cqes|
  {
    hide And, Step;
    FreshImplements(m);
    q := RunKeepsInvariant(m, NOTHING, labels);
    RunKeepsSizes(m, labels);
  }

  /** The submissions the kernel takes along a run, in the order it takes them. */
  function Taken(m: Machine, labels: seq<Label>): seq<Sqe>
    requires Wf(m.ring)
    decreases |labels|
  {
    if labels == [] then []
    else
      StepKeepsWf(m, labels[0]);
      TakenBy(m, labels[0]) + Taken(Step(m, labels[0]), labels[1..])
  }

  function TakenBy(m: Machine, l: Label): seq<Sqe> {
    if l.KernelTake? && m.kpc.KRead? then [m.kpc.sqe] else []
  }

  /** Every call that has stored its tail, the one under way included. */
  function PublishedSoFar(m: Machine): seq<Sqe> {
    PublishedBy(m.log) + (if PastTailStore(m.pc) then [m.pc.sqe] else [])
  }

  lemma TakesFront(m: Machine, q: Queues, l: Label, taken: seq<Sqe>)
    requires Implements(m, q) && taken + q.pending == q.published
    ensures Simulates(m, q, l)
    ensures var q' := Apply(q, m.ring.sqEntries, |m.ring.cqes|, ActionOf(m, l));
            taken + TakenBy(m, l) + q'.pending == q'.published
  {
    StepRefines(m, q, l);
    hide And, Step, SqHolds, CqHolds;
  }

  lemma {:induction false} TakenThenPending(m: Machine, q: Queues, labels: seq<Label>, taken: seq<Sqe>)
    returns (q': Queues)
    requires Implements(m, q) && taken + q.pending == q.published
    ensures Wf(m.ring) && Implements(Run(m, labels), q')
    ensures taken + Taken(m, labels) + q'.pending == q'.published
    decreases |labels|
  {
    hide And, Step, Implements;
    ImplementsWf(m, q);
    q' := q;
    if labels != [] {
      TakesFront(m, q, labels[0], taken);
      var q1, more := Apply(q, m.ring.sqEntries, |m.ring.cqes|, ActionOf(m, labels[0])), TakenBy(m, labels[0]);
      q' := TakenThenPending(Step(m, labels[0]), q1, labels[1..], taken + more);
      assert taken + Taken(m, labels) == taken + more + Taken(Step(m, labels[0]), labels[1..]);
    } else {
      assert taken + Taken(m, labels) == taken;
    }
  }

  /** In any run, what the kernel takes is a prefix of what was published, entry for entry as the
      callers passed it, and at most a ring's worth behind; whatever order it completes in. */
  lemma KernelTakesPrefix(m: Machine, labels: seq<Label>)
    requires Fresh(m)
    ensures var taken, published := Taken(m, labels), PublishedSoFar(Run(m, labels));
            taken <= published && |published| - |taken| <= m.ring.sqEntries
  {
    hide And, Step;
    FreshImplements(m);
    var q := TakenThenPending(m, NOTHING, labels, []);
    RunKeepsSizes(m, labels);
    assert [] + Taken(m, labels) == Taken(m, labels);
  }

  lemma {:induction false} RunKeepsSizes(m: Machine, labels: seq<Label>)
    requires Wf(m.ring)
    ensures Run(m, labels).ring.sqEntries == m.ring.sqEntries && |Run(m, labels).ring.cqes| == |m.ring.cqes|
    decreases |labels|
  {
    hide And, Step;
    if labels != [] {
      StepKeepsWf(m, labels[0]);
      StepKeepsSizes(m, labels[0]);
      RunKeepsSizes(Step(m, labels[0]), labels[1..]);
    }
  }
}
