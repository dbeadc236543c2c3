/** Histories of a byte-level ring, call after call, are runs of the step system; so what is proved
    of runs holds of the bytes. */
module RingCalls {
  import opened Words
  import opened RingMachine
  import opened RingMemory
  import opened RingQueues
  import opened RingTheorems
  import opened RingOutcomes

  /** Between calls, or inside the enter of one, the kernel may take the steps ks. */
  datatype Episode =
    | KernelActs(ks: seq<Label>, after: Mem)
    | CallMade(sqe: Sqe, ks: seq<Label>, enter: EnterResult, image: Mem, r: Result<Cqe, CallError>, after: Mem)

  ghost predicate KernelOnly(ks: seq<Label>) {
    forall i :: 0 <= i < |ks| ==> KernelLabel(ks[i])
  }

  /** The bytes stand for the ring of a machine whose client is between calls. */
  ghost predicate Stands(e: Endian, p: Params, mem: Mem, m: Machine) {
    Mapped(e, p, mem) && View(e, p, mem) == m.ring && m.pc.Idle?
  }

  /** The labels of an episode; a call that finds the queue full ends after its two loads. */
  function LabelsOf(m: Machine, ep: Episode): seq<Label>
    requires Wf(m.ring)
  {
    match ep
    case KernelActs(ks, _) => ks
    case CallMade(sqe, ks, enter, _, _, _) =>
      if PublishAll(m.ring, sqe).None? then Submit(sqe) else Submit(sqe) + ks + Finish(enter)
  }

  /** How the result of a call reads in the log. */
  function Logged(ep: Episode): seq<CallResult> {
    match ep
    case KernelActs(_, _) => []
    case CallMade(sqe, _, _, _, r, _) =>
      match r
      case Ok(cqe) => [Done(sqe, cqe)]
      case Err(QueueFull) => [Full(sqe)]
      case Err(QueueEmpty) => [Empty(sqe)]
      case Err(_) => [EnterFailed(sqe)]
  }

  /** The episode can follow the bytes mem: the kernel's part is a run of kernel steps on the ring
      they stand for, the client's part what SubmitAndWait ensures. */
  ghost predicate Follows(e: Endian, p: Params, mem: Mem, m: Machine, ep: Episode) {
    && Stands(e, p, mem, m) && Wf(m.ring) && Mapped(e, p, ep.after) && KernelOnly(ep.ks)
    && match ep
       case KernelActs(ks, after) => View(e, p, after) == Run(m, ks).ring
       case CallMade(sqe, ks, enter, image, r, after) =>
         && Mapped(e, p, image) && Called(e, p, mem, sqe, enter, image, r, after)
         && (PublishAll(m.ring, sqe).Some? ==> View(e, p, image) == Run(Run(m, Submit(sqe)), ks).ring)
  }

  lemma OutcomeAgrees(ep: Episode, published: Option<Ring>, image: Ring, untouched: bool, handedBack: bool, after: Ring)
    requires Wf(image) && ep.CallMade? && (handedBack ==> after == image)
    requires Comes(published, ep.enter, ReapOne(image), untouched, handedBack, ep.r, after)
    ensures if published == None then untouched && Logged(ep) == [Full(ep.sqe)]
            else var (ring, x) := CallOutcome(image, ep.sqe, ep.enter); after == ring && Logged(ep) == [x]
  {
    hide ReapOne, Wf, And;
  }

  lemma CallIsEpisode(e: Endian, p: Params, mem: Mem, m: Machine, ep: Episode)
    requires Follows(e, p, mem, m, ep) && ep.CallMade?
    ensures Wf(m.ring)
    ensures var m' := Run(m, LabelsOf(m, ep));
            View(e, p, ep.after) == m'.ring && m'.pc.Idle? && m'.log == m.log + Logged(ep)
  {
    ViewIsWf(e, p, ep.image);
    var image, after := View(e, p, ep.image), View(e, p, ep.after);
    OutcomeAgrees(ep, PublishAll(m.ring, ep.sqe), image, ep.after == mem, ep.after == ep.image, after);
    hide And, Run, Mapped, View, Comes, Wf, PublishAll, CallOutcome, Logged, WordsInside;
    if PublishAll(m.ring, ep.sqe).None? {
      PublishIsFiveSteps(m, ep.sqe);
    } else {
      CallIsRun(m, ep.sqe, ep.ks, ep.enter);
    }
  }

  lemma EpisodeIsRun(e: Endian, p: Params, mem: Mem, m: Machine, ep: Episode)
    requires Follows(e, p, mem, m, ep)
    ensures Wf(m.ring)
    ensures var m' := Run(m, LabelsOf(m, ep));
            Stands(e, p, ep.after, m') && Wf(m'.ring) && m'.log == m.log + Logged(ep)
  {
    if ep.CallMade? {
      CallIsEpisode(e, p, mem, m, ep);
      hide And, Run, Mapped, View, Called, Wf, PublishAll, Logged, LabelsOf, WordsInside;
    } else {
      hide And, Run, Mapped;
      KernelKeepsClient(m, ep.ks);
      assert m.log + [] == m.log;
    }
  }

  /** The machine and the bytes before episode i of a history, counted from zero. */
  function MachineAt(m: Machine, eps: seq<Episode>, i: nat): (m': Machine)
    requires Wf(m.ring) && i <= |eps|
    ensures Wf(m'.ring)
  {
    if i == 0 then m
    else
      var before := MachineAt(m, eps, i - 1);
      Run(before, LabelsOf(before, eps[i - 1]))
  }

  function BytesAt(mem: Mem, eps: seq<Episode>, i: nat): Mem
    requires i <= |eps|
  {
    if i == 0 then mem else eps[i - 1].after
  }

  /** A history: the episodes follow one another from the bytes mem on. */
  ghost predicate AllFollow(e: Endian, p: Params, mem: Mem, m: Machine, eps: seq<Episode>)
    requires Wf(m.ring)
  {
    && Stands(e, p, mem, m)
    && forall i :: 0 <= i < |eps| ==> Follows(e, p, BytesAt(mem, eps, i), MachineAt(m, eps, i), eps[i])
  }

  function LogOf(eps: seq<Episode>): seq<CallResult> {
    if eps == [] then [] else LogOf(eps[..|eps| - 1]) + Logged(eps[|eps| - 1])
  }

  /** The labels of a whole history. */
  function HistoryLabels(m: Machine, eps: seq<Episode>): seq<Label>
    requires Wf(m.ring)
  {
    if eps == [] then []
    else
      var init := eps[..|eps| - 1];
      HistoryLabels(m, init) + LabelsOf(MachineAt(m, eps, |init|), eps[|init|])
  }

  lemma {:induction false} SameBeginning(m: Machine, mem: Mem, eps: seq<Episode>, n: nat, i: nat)
    requires Wf(m.ring) && i <= n <= |eps|
    ensures MachineAt(m, eps[..n], i) == MachineAt(m, eps, i) && BytesAt(mem, eps[..n], i) == BytesAt(mem, eps, i)
  {
    hide Wf, Run, LabelsOf;
    if i > 0 {
      SameBeginning(m, mem, eps, n, i - 1);
    }
  }

  lemma BeginningFollows(e: Endian, p: Params, mem: Mem, m: Machine, eps: seq<Episode>, n: nat)
    requires Wf(m.ring) && AllFollow(e, p, mem, m, eps) && n <= |eps|
    ensures AllFollow(e, p, mem, m, eps[..n])
  {
    hide Follows, Stands, Wf;
    var init := eps[..n];
    forall i | 0 <= i < n ensures Follows(e, p, BytesAt(mem, init, i), MachineAt(m, init, i), init[i]) {
      SameBeginning(m, mem, eps, n, i);
    }
  }

  lemma LastEpisode(e: Endian, p: Params, mem: Mem, m: Machine, eps: seq<Episode>)
    requires Wf(m.ring) && AllFollow(e, p, mem, m, eps) && eps != []
    ensures var n := |eps| - 1;
            var before := MachineAt(m, eps, n);
            Wf(before.ring) &&
            var m' := Run(before, LabelsOf(before, eps[n]));
            && m' == MachineAt(m, eps, n + 1) && m'.log == before.log + Logged(eps[n])
            && Stands(e, p, BytesAt(mem, eps, n + 1), m')
  {
    var n := |eps| - 1;
    hide And, Step, Run, Follows, LabelsOf, Logged, Stands, Wf;
    EpisodeIsRun(e, p, BytesAt(mem, eps, n), MachineAt(m, eps, n), eps[n]);
  }

  lemma HistorySnoc(m: Machine, eps: seq<Episode>)
    requires Wf(m.ring) && eps != []
    ensures var n := |eps| - 1;
            var before := MachineAt(m, eps, n);
            && Wf(before.ring)
            && HistoryLabels(m, eps) == HistoryLabels(m, eps[..n]) + LabelsOf(before, eps[n])
            && LogOf(eps) == LogOf(eps[..n]) + Logged(eps[n])
  {
    hide Wf, LabelsOf, Logged, Run;
  }

  lemma EmptyHistory(e: Endian, p: Params, mem: Mem, m: Machine)
    requires Wf(m.ring) && AllFollow(e, p, mem, m, [])
    ensures HistoryLabels(m, []) == [] && MachineAt(m, [], 0) == m && LogOf([]) == [] && Run(m, []) == m
    ensures Stands(e, p, BytesAt(mem, [], 0), m)
  {
    RunNothing(m);
    hide Wf, Stands, Run;
  }

  /** Any history of calls on the bytes is one run of the step system, with the same results, and
      the bytes it ends with stand for the machine the run ends with. */
  lemma {:induction false} HistoryIsRun(e: Endian, p: Params, mem: Mem, m: Machine, eps: seq<Episode>)
    requires Wf(m.ring) && AllFollow(e, p, mem, m, eps)
    ensures var m' := Run(m, HistoryLabels(m, eps));
            && m' == MachineAt(m, eps, |eps|) && m'.log == m.log + LogOf(eps)
            && Stands(e, p, BytesAt(mem, eps, |eps|), m')
    decreases |eps|
  {
    hide *;
    if eps == [] {
      EmptyHistory(e, p, mem, m);
      assert m.log + [] == m.log;
    } else {
      var n := |eps| - 1;
      var init := eps[..n];
      HistorySnoc(m, eps);
      BeginningFollows(e, p, mem, m, eps, n);
      HistoryIsRun(e, p, mem, m, init);
      SameBeginning(m, mem, eps, n, n);
      LastEpisode(e, p, mem, m, eps);
      RunAppend(m, HistoryLabels(m, init), LabelsOf(MachineAt(m, eps, n), eps[n]));
      assert m.log + LogOf(init) + Logged(eps[n]) == m.log + LogOf(eps);
    }
  }

  lemma {:induction false} HistoryInOrder(m: Machine, eps: seq<Episode>)
    requires Wf(m.ring) && forall i :: 0 <= i < |eps| ==> InOrderKernel(eps[i].ks)
    ensures InOrderKernel(HistoryLabels(m, eps))
    decreases |eps|
  {
    hide And, Step, Run, LabelsOf, Wf, MachineAt;
    if eps != [] {
      var n := |eps| - 1;
      HistoryInOrder(m, eps[..n]);
      InOrderEpisode(MachineAt(m, eps, n), eps[n]);
    }
  }

  lemma InOrderEpisode(m: Machine, ep: Episode)
    requires Wf(m.ring) && InOrderKernel(ep.ks)
    ensures InOrderKernel(LabelsOf(m, ep))
  {}

  /** Call k of a log got the completion of the submission published as many publishing calls
      earlier as calls before it published and then failed. */
  predicate GotShifted(log: seq<CallResult>, k: nat)
    requires k < |log| && log[k].Done?
  {
    var own, failed := |PublishedBy(log[..k])|, Failures(log[..k]);
    && failed <= own < |PublishedBy(log)|
    && log[k].cqe.userData == PublishedBy(log)[own - failed].userData
  }

  ghost predicate AllShifted(log: seq<CallResult>) {
    forall k: nat {:trigger log[k]} :: k < |log| && log[k].Done? ==> GotShifted(log, k)
  }

  lemma RunIsShifted(m: Machine, labels: seq<Label>)
    requires Fresh(m) && InOrderKernel(labels)
    ensures AllShifted(Run(m, labels).log)
  {
    var log := Run(m, labels).log;
    forall k: nat {:trigger log[k]} | k < |log| && log[k].Done? ensures GotShifted(log, k) {
      SuccessReturnsShifted(m, labels, k);
    }
  }

  /** On the bytes of a fresh ring, through any history against an in-order kernel, that holds of
      every call that succeeds. */
  lemma HistoryReturnsShifted(e: Endian, p: Params, mem: Mem, m: Machine, eps: seq<Episode>)
    requires Fresh(m) && AllFollow(e, p, mem, m, eps)
    requires forall i :: 0 <= i < |eps| ==> InOrderKernel(eps[i].ks)
    ensures AllShifted(LogOf(eps))
  {
    hide *;
    FreshLog(m);
    HistoryIsRun(e, p, mem, m, eps);
    HistoryInOrder(m, eps);
    RunIsShifted(m, HistoryLabels(m, eps));
    assert [] + LogOf(eps) == LogOf(eps);
  }

  lemma FreshLog(m: Machine)
    requires Fresh(m)
    ensures Wf(m.ring) && m.log == []
  {}
}
