/**
 * Pooled mode (more than one worker). The main thread submits one worker
 * per repository, reading the stop flag before each submission, then
 * handles the workers' results in completion order. The interleaving of
 * the workers with each other and with the main thread is a parameter: a
 * schedule of steps, each allowed by the steps before it.
 */
module Pooled {
  import opened Dispatch
  import Seqs
  import Logs
  import Status
  import Sequential

  /**
   * A step of the run: a worker's entry (stop check and in-progress mark), a
   * worker's exit (processor call and notices), the main thread's handling
   * of a finished worker, and the end of the submission loop.
   */
  datatype PoolStep = Start(pos: nat) | Finish(pos: nat) | Handle(pos: nat) | EndSubmission

  /** Whether a step may come next after `pre` when the first k repositories were submitted. */
  predicate Allowed(pre: seq<PoolStep>, step: PoolStep, k: nat)
  {
    match step
    case Start(j) => j < k && Start(j) !in pre
    case Finish(j) => Start(j) in pre && Finish(j) !in pre
    case Handle(j) => Finish(j) in pre && Handle(j) !in pre && EndSubmission in pre
    case EndSubmission => EndSubmission !in pre
  }

  /** A complete run: every step allowed when it comes, and every submitted worker started, finished and handled. */
  predicate ValidSchedule(sched: seq<PoolStep>, k: nat)
  {
    && AllInRange(sched, k)
    && (forall n :: 0 <= n < |sched| ==> Allowed(sched[..n], sched[n], k))
    && EndSubmission in sched
    && (forall j :: 0 <= j < k ==> Handle(j) in sched)
  }

  /** The number of repositories submitted: those before the first stop seen by the submission loop. */
  function Submitted(repos: seq<string>, o: Observations): (k: nat)
    ensures k <= |repos|
    ensures forall j :: 0 <= j < k ==> !o.stopBeforeDispatch(j)
    ensures k < |repos| ==> o.stopBeforeDispatch(k)
  {
    Sequential.FirstStop(o, 0, |repos|)
  }

  /**
   * The handling of one finished worker: its result goes to the tracker,
   * its group is printed and emptied, then the progress and elapsed-time
   * lines and the abort reminder, each pair unless the stop flag is seen.
   */
  function HandleResult(st: RunState, repos: seq<string>, o: Observations, j: nat): RunState
    requires j < |repos|
  {
    var repo := repos[j];
    var s1 := Drain(WriteStatus(st, j, repo, WorkerResult(o, j)), j, repo);
    var s2 := if o.stopAfterStatus(j) then s1
              else Say(Say(s1, ProgressNotice(Status.Summary(s1.tracker))), ElapsedNotice(o.elapsedAtHandling(j)));
    if o.stopAfterHandling(j) then s2 else Say(s2, AbortReminder)
  }

  predicate InRange(step: PoolStep, n: nat)
  {
    !step.EndSubmission? ==> step.pos < n
  }

  function Apply(st: RunState, repos: seq<string>, o: Observations, step: PoolStep): RunState
    requires InRange(step, |repos|)
  {
    match step
    case Start(j) => WorkerStart(st, o, j, repos[j])
    case Finish(j) => WorkerFinish(st, o, j, repos[j])
    case Handle(j) => HandleResult(st, repos, o, j)
    case EndSubmission => if Submitted(repos, o) < |repos| then Say(st, SubmissionAbort) else st
  }

  predicate AllInRange(sched: seq<PoolStep>, n: nat)
  {
    forall m :: 0 <= m < |sched| ==> InRange(sched[m], n)
  }

  /** A schedule's steps name submitted repositories only, so they name listed ones. */
  lemma ScheduleInRange(sched: seq<PoolStep>, k: nat, n: nat)
    ensures ValidSchedule(sched, k) && k <= n ==> AllInRange(sched, n)
  {
    if ValidSchedule(sched, k) && k <= n {
      forall m | 0 <= m < |sched| ensures InRange(sched[m], n) {
        assert InRange(sched[m], k);
      }
    }
  }

  /** The state after the steps of a schedule, in order. */
  function Run(st: RunState, repos: seq<string>, o: Observations, sched: seq<PoolStep>): RunState
    requires AllInRange(sched, |repos|)
    decreases |sched|, 1
  {
    if |sched| == 0 then st else RunLast(st, repos, o, sched)
  }

  /** The state after a non-empty schedule: its last step applied after the others. */
  function RunLast(st: RunState, repos: seq<string>, o: Observations, sched: seq<PoolStep>): RunState
    requires 0 < |sched| && AllInRange(sched, |repos|)
    decreases |sched|, 0
  {
    Apply(Run(st, repos, o, sched[..|sched| - 1]), repos, o, sched[|sched| - 1])
  }

  // The state a run is in after a prefix of a valid schedule.

  /** What a repository's group holds: the worker's messages once it finished, until they are handled. */
  function GroupAfter(o: Observations, j: nat, repo: string, pre: seq<PoolStep>): seq<Message>
  {
    if Finish(j) in pre && Handle(j) !in pre then WorkerLines(o, j, repo) else []
  }

  /**
   * A repository's entry: the worker's result once handled; in progress once
   * a worker started without seeing the stop flag; pending otherwise.
   */
  function StatusAfter(o: Observations, j: nat, pre: seq<PoolStep>): Status.RepoStatus
  {
    if Handle(j) in pre then Status.ResultStatus(WorkerResult(o, j))
    else if Start(j) in pre && !o.stopAtWorkerEntry(j) then Status.RepoStatus(false, Status.InProgress)
    else Status.RepoStatus(false, Status.Pending)
  }

  /** The events of the handling steps of a schedule: per handled worker, its status write and its drain. */
  function Handled(repos: seq<string>, o: Observations, sched: seq<PoolStep>): seq<Event>
    requires AllInRange(sched, |repos|)
    decreases |sched|
  {
    if |sched| == 0 then []
    else
      var last := sched[|sched| - 1];
      Handled(repos, o, sched[..|sched| - 1])
      + (if last.Handle? then
           [StatusWritten(last.pos, repos[last.pos], WorkerResult(o, last.pos)),
            LogsDrained(last.pos, repos[last.pos], WorkerLines(o, last.pos, repos[last.pos]))]
         else [])
  }

  /** A pooled run records status writes and drains only: it never pauses between repositories. */
  lemma {:induction false} HandledNoPause(repos: seq<string>, o: Observations, sched: seq<PoolStep>)
    requires AllInRange(sched, |repos|)
    ensures forall e :: e in Handled(repos, o, sched) ==> !e.Paused?
    decreases |sched|
  {
    if |sched| > 0 {
      var init := sched[..|sched| - 1];
      assert AllInRange(init, |repos|) by {
        forall m | 0 <= m < |init| ensures InRange(init[m], |repos|) { assert init[m] == sched[m]; }
      }
      HandledNoPause(repos, o, init);
    }
  }

  /** The order facts every prefix of a valid schedule has. */
  ghost predicate Ordered(pre: seq<PoolStep>, k: nat)
  {
    forall j: nat ::
      && (Start(j) in pre ==> j < k)
      && (Finish(j) in pre ==> Start(j) in pre)
      && (Handle(j) in pre ==> Finish(j) in pre && EndSubmission in pre)
  }

  /** Every listed repository has its group and entry as the prefix says, and the events are the handled ones. */
  predicate Inv(st: RunState, repos: seq<string>, o: Observations, pre: seq<PoolStep>, st0: RunState)
    requires AllInRange(pre, |repos|)
  {
    && st.tracker.total == st0.tracker.total && st.tracker.statuses.Keys == st0.tracker.statuses.Keys
    && (forall j :: 0 <= j < |repos| ==>
          && repos[j] in st.logs.groups && st.logs.groups[repos[j]] == GroupAfter(o, j, repos[j], pre)
          && repos[j] in st.tracker.statuses && st.tracker.statuses[repos[j]] == StatusAfter(o, j, pre))
    && st.events == st0.events + Handled(repos, o, pre)
  }

  lemma AllInRangeAppend(pre: seq<PoolStep>, step: PoolStep, n: nat)
    requires AllInRange(pre, n) && InRange(step, n)
    ensures AllInRange(pre + [step], n) && (pre + [step])[..|pre|] == pre
  {
  }

  /** A step allowed after an ordered prefix gives an ordered prefix. */
  lemma OrderedStep(pre: seq<PoolStep>, step: PoolStep, k: nat)
    requires Ordered(pre, k) && Allowed(pre, step, k)
    ensures Ordered(pre + [step], k)
  {
  }

  /** A worker's entry keeps the invariant. */
  lemma StartKeeps(st: RunState, repos: seq<string>, o: Observations, pre: seq<PoolStep>, st0: RunState, k: nat, j: nat)
    requires Status.Distinct(repos) && j < |repos| && AllInRange(pre, |repos|)
    requires Ordered(pre, k) && Allowed(pre, Start(j), k) && Inv(st, repos, o, pre, st0)
    ensures AllInRange(pre + [Start(j)], |repos|)
    ensures Inv(Apply(st, repos, o, Start(j)), repos, o, pre + [Start(j)], st0)
  {
    var pre' := pre + [Start(j)];
    AllInRangeAppend(pre, Start(j), |repos|);
    var r := Apply(st, repos, o, Start(j));
    assert Handled(repos, o, pre') == Handled(repos, o, pre);
    forall i | 0 <= i < |repos|
      ensures repos[i] in r.logs.groups && r.logs.groups[repos[i]] == GroupAfter(o, i, repos[i], pre')
      ensures repos[i] in r.tracker.statuses && r.tracker.statuses[repos[i]] == StatusAfter(o, i, pre')
    {
      if i != j {
        assert repos[i] != repos[j];
      }
    }
  }

  /** A worker's exit keeps the invariant. */
  lemma FinishKeeps(st: RunState, repos: seq<string>, o: Observations, pre: seq<PoolStep>, st0: RunState, k: nat, j: nat)
    requires Status.Distinct(repos) && j < |repos| && AllInRange(pre, |repos|)
    requires Ordered(pre, k) && Allowed(pre, Finish(j), k) && Inv(st, repos, o, pre, st0)
    ensures AllInRange(pre + [Finish(j)], |repos|)
    ensures Inv(Apply(st, repos, o, Finish(j)), repos, o, pre + [Finish(j)], st0)
  {
    var pre' := pre + [Finish(j)];
    AllInRangeAppend(pre, Finish(j), |repos|);
    var r := Apply(st, repos, o, Finish(j));
    assert Handled(repos, o, pre') == Handled(repos, o, pre);
    assert st.logs.groups[repos[j]] == [];
    forall i | 0 <= i < |repos|
      ensures repos[i] in r.logs.groups && r.logs.groups[repos[i]] == GroupAfter(o, i, repos[i], pre')
      ensures repos[i] in r.tracker.statuses && r.tracker.statuses[repos[i]] == StatusAfter(o, i, pre')
    {
      if i != j {
        assert repos[i] != repos[j];
      } else if !o.stopAtWorkerEntry(j) {
        assert [] + WorkerLines(o, j, repos[j]) == WorkerLines(o, j, repos[j]);
      }
    }
  }

  /** The main thread's handling of a finished worker keeps the invariant. */
  lemma HandleKeeps(st: RunState, repos: seq<string>, o: Observations, pre: seq<PoolStep>, st0: RunState, k: nat, j: nat)
    requires Status.Distinct(repos) && j < |repos| && AllInRange(pre, |repos|)
    requires Ordered(pre, k) && Allowed(pre, Handle(j), k) && Inv(st, repos, o, pre, st0)
    ensures AllInRange(pre + [Handle(j)], |repos|)
    ensures Inv(Apply(st, repos, o, Handle(j)), repos, o, pre + [Handle(j)], st0)
  {
    var pre' := pre + [Handle(j)];
    AllInRangeAppend(pre, Handle(j), |repos|);
    var repo := repos[j];
    var s1 := WriteStatus(st, j, repo, WorkerResult(o, j));
    var s2 := Drain(s1, j, repo);
    var r := Apply(st, repos, o, Handle(j));
    assert r.tracker == s2.tracker && r.logs.groups == s2.logs.groups && r.events == s2.events;
    assert st.logs.groups[repo] == WorkerLines(o, j, repo);
    Seqs.AppendAssoc(st0.events, Handled(repos, o, pre),
      [StatusWritten(j, repo, WorkerResult(o, j)), LogsDrained(j, repo, WorkerLines(o, j, repo))]);
    forall i | 0 <= i < |repos|
      ensures repos[i] in r.logs.groups && r.logs.groups[repos[i]] == GroupAfter(o, i, repos[i], pre')
      ensures repos[i] in r.tracker.statuses && r.tracker.statuses[repos[i]] == StatusAfter(o, i, pre')
    {
      if i != j {
        assert repos[i] != repos[j];
      }
    }
  }

  /** The end of the submission loop only writes to the output. */
  lemma EndKeeps(st: RunState, repos: seq<string>, o: Observations, pre: seq<PoolStep>, st0: RunState)
    requires AllInRange(pre, |repos|) && Inv(st, repos, o, pre, st0)
    ensures AllInRange(pre + [EndSubmission], |repos|)
    ensures Inv(Apply(st, repos, o, EndSubmission), repos, o, pre + [EndSubmission], st0)
  {
    var pre' := pre + [EndSubmission];
    AllInRangeAppend(pre, EndSubmission, |repos|);
    assert Handled(repos, o, pre') == Handled(repos, o, pre);
    forall i | 0 <= i < |repos|
      ensures GroupAfter(o, i, repos[i], pre') == GroupAfter(o, i, repos[i], pre)
      ensures StatusAfter(o, i, pre') == StatusAfter(o, i, pre)
    {
    }
  }

  /** The invariant holds after every prefix of a schedule whose steps are each allowed. */
  lemma {:induction false} RunKeeps(st0: RunState, repos: seq<string>, o: Observations, sched: seq<PoolStep>, k: nat, n: nat)
    requires Status.Distinct(repos) && n <= |sched| && AllInRange(sched, |repos|)
    requires forall m :: 0 <= m < |sched| ==> Allowed(sched[..m], sched[m], k)
    requires Inv(st0, repos, o, [], st0)
    ensures AllInRange(sched[..n], |repos|) && Ordered(sched[..n], k)
    ensures Inv(Run(st0, repos, o, sched[..n]), repos, o, sched[..n], st0)
    decreases n
  {
    if n == 0 {
      assert sched[..0] == [];
    } else {
      RunKeeps(st0, repos, o, sched, k, n - 1);
      var pre := sched[..n - 1];
      assert sched[..n] == pre + [sched[n - 1]];
      assert Allowed(pre, sched[n - 1], k);
      StepRun(st0, repos, o, pre, k, sched[n - 1]);
    }
  }

  /** One more allowed step of a run keeps the invariant and the order facts. */
  lemma StepRun(st0: RunState, repos: seq<string>, o: Observations, pre: seq<PoolStep>, k: nat, step: PoolStep)
    requires Status.Distinct(repos) && InRange(step, |repos|) && AllInRange(pre, |repos|)
    requires Ordered(pre, k) && Allowed(pre, step, k) && Inv(Run(st0, repos, o, pre), repos, o, pre, st0)
    ensures AllInRange(pre + [step], |repos|) && Ordered(pre + [step], k)
    ensures Inv(Run(st0, repos, o, pre + [step]), repos, o, pre + [step], st0)
  {
    AllInRangeAppend(pre, step, |repos|);
    OrderedStep(pre, step, k);
    var st := Run(st0, repos, o, pre);
    assert Run(st0, repos, o, pre + [step]) == Apply(st, repos, o, step);
    StepKeeps(st, repos, o, pre, st0, k, step);
  }

  /** Any allowed step keeps the invariant. */
  lemma StepKeeps(st: RunState, repos: seq<string>, o: Observations, pre: seq<PoolStep>, st0: RunState, k: nat, step: PoolStep)
    requires Status.Distinct(repos) && InRange(step, |repos|) && AllInRange(pre, |repos|)
    requires Ordered(pre, k) && Allowed(pre, step, k) && Inv(st, repos, o, pre, st0)
    ensures AllInRange(pre + [step], |repos|)
    ensures Inv(Apply(st, repos, o, step), repos, o, pre + [step], st0)
  {
    match step
    case Start(j) => StartKeeps(st, repos, o, pre, st0, k, j);
    case Finish(j) => FinishKeeps(st, repos, o, pre, st0, k, j);
    case Handle(j) => HandleKeeps(st, repos, o, pre, st0, k, j);
    case EndSubmission => EndKeeps(st, repos, o, pre, st0);
  }

  /**
   * A complete pooled run over distinct repositories: every submitted
   * repository ends with its worker's result (failed when the worker saw the
   * stop flag on entry or the processor raised), every other one stays
   * pending, every group ends empty, and the events are one status write and
   * one drain of exactly the worker's messages per handled worker, in
   * handling order.
   */
  lemma RunOutcome(st0: RunState, repos: seq<string>, o: Observations, sched: seq<PoolStep>)
    requires Status.Distinct(repos) && Fresh(st0, repos)
    requires forall r :: r in st0.tracker.statuses <==> r in repos
    requires ValidSchedule(sched, Submitted(repos, o))
    ensures AllInRange(sched, |repos|)
    ensures var r := Run(st0, repos, o, sched);
            var k := Submitted(repos, o);
            && r.tracker.total == st0.tracker.total && r.tracker.statuses.Keys == st0.tracker.statuses.Keys
            && r.events == st0.events + Handled(repos, o, sched)
            && (forall j :: 0 <= j < |repos| ==>
                  && repos[j] in r.logs.groups && r.logs.groups[repos[j]] == []
                  && repos[j] in r.tracker.statuses
                  && (j < k ==> r.tracker.statuses[repos[j]] == Status.ResultStatus(WorkerResult(o, j)))
                  && (j < k && (o.stopAtWorkerEntry(j) || o.run(j).outcome.Raised?) ==>
                        r.tracker.statuses[repos[j]].status == Status.Failed)
                  && (k <= j ==> r.tracker.statuses[repos[j]] == Status.RepoStatus(false, Status.Pending)))
  {
    var k := Submitted(repos, o);
    ScheduleInRange(sched, k, |repos|);
    InvInit(st0, repos, o);
    RunKeeps(st0, repos, o, sched, k, |sched|);
    assert sched[..|sched|] == sched;
    InvFinal(Run(st0, repos, o, sched), repos, o, sched, st0, k);
  }

  /** Before any step the invariant holds of a fresh state. */
  lemma InvInit(st0: RunState, repos: seq<string>, o: Observations)
    requires Fresh(st0, repos)
    ensures Inv(st0, repos, o, [], st0)
  {
  }

  /** At the end of a complete schedule the invariant gives every listed repository's final group and entry. */
  lemma InvFinal(st: RunState, repos: seq<string>, o: Observations, sched: seq<PoolStep>, st0: RunState, k: nat)
    requires k <= |repos| && AllInRange(sched, |repos|) && Ordered(sched, k)
    requires forall j :: 0 <= j < k ==> Handle(j) in sched
    requires Inv(st, repos, o, sched, st0)
    ensures forall j :: 0 <= j < |repos| ==>
              && repos[j] in st.logs.groups && st.logs.groups[repos[j]] == []
              && repos[j] in st.tracker.statuses
              && (j < k ==> st.tracker.statuses[repos[j]] == Status.ResultStatus(WorkerResult(o, j)))
              && (k <= j ==> st.tracker.statuses[repos[j]] == Status.RepoStatus(false, Status.Pending))
  {
    forall j | 0 <= j < |repos|
      ensures GroupAfter(o, j, repos[j], sched) == []
      ensures j < k ==> StatusAfter(o, j, sched) == Status.ResultStatus(WorkerResult(o, j))
      ensures k <= j ==> StatusAfter(o, j, sched) == Status.RepoStatus(false, Status.Pending)
    {
      if k <= j {
        assert Start(j) !in sched;
      }
    }
  }

  /** After a complete pooled run the summary counts every submitted repository as finished and none as running. */
  lemma RunSummary(st0: RunState, repos: seq<string>, o: Observations, sched: seq<PoolStep>)
    requires Status.Distinct(repos) && Fresh(st0, repos)
    requires forall r :: r in st0.tracker.statuses <==> r in repos
    requires ValidSchedule(sched, Submitted(repos, o))
    ensures Status.Summary(Run(st0, repos, o, sched).tracker) == Status.Progress(st0.tracker.total, Submitted(repos, o), 0)
  {
    RunOutcome(st0, repos, o, sched);
    Status.SummaryAfterRun(Run(st0, repos, o, sched).tracker, repos, Submitted(repos, o));
  }
}
