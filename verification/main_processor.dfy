/**
 * The whole repository run: the tracker and the log collector are set up
 * for the configured list, the abort hint is printed, the repositories are
 * processed sequentially (one worker) or pooled (more), and the closing
 * line and the overall elapsed-time line are printed.
 */
module MainProcessor {
  import opened Dispatch
  import Configs
  import Logs
  import Status
  import Sequential
  import Pooled

  /** The run state right after set-up: a fresh tracker and collector for the list, no events. */
  function Setup(logs0: Logs.LogState<Message>, repos: seq<string>): (st: RunState)
    ensures st.events == [] && st.logs.out == logs0.out
    ensures st.tracker.total == |repos|
    ensures forall r :: r in st.tracker.statuses <==> r in repos
    ensures forall r :: r in st.logs.groups <==> r in repos
    ensures Fresh(st, repos)
  {
    RunState(Status.Initialize(repos), Logs.Initialize(logs0, repos), [])
  }

  /** Set-up and the abort hint, common to both modes. */
  function Started(logs0: Logs.LogState<Message>, repos: seq<string>): RunState
  {
    Say(Setup(logs0, repos), AbortHint)
  }

  /** The end common to both modes: the closing line, then the overall elapsed time. */
  function Closing(st: RunState, o: Observations): (r: RunState)
    ensures r.tracker == st.tracker && r.events == st.events && r.logs.groups == st.logs.groups
    ensures r.logs.out == st.logs.out + [Logs.Line(AllDone), Logs.Line(OverallDone(o.elapsedAtEnd))]
  {
    SayFacts(st, AllDone);
    SayFacts(Say(st, AllDone), OverallDone(o.elapsedAtEnd));
    Say(Say(st, AllDone), OverallDone(o.elapsedAtEnd))
  }

  /** One worker: the header, the sequential loop, the closing lines. */
  function SequentialMode(logs0: Logs.LogState<Message>, c: Configs.Config, o: Observations): RunState
  {
    var st := Say(Started(logs0, c.repositories), SequentialHeader);
    Closing(Sequential.Loop(st, c.repositories, 0, o, c.sleepAfterRepo), o)
  }

  /** More workers: the header and the reminder, the pooled run, the closing lines. */
  function PooledMode(logs0: Logs.LogState<Message>, c: Configs.Config, o: Observations, sched: seq<Pooled.PoolStep>): RunState
    requires Pooled.ValidSchedule(sched, Pooled.Submitted(c.repositories, o))
  {
    Pooled.ScheduleInRange(sched, Pooled.Submitted(c.repositories, o), |c.repositories|);
    var st := Say(Say(Started(logs0, c.repositories), ParallelHeader(c.maxWorkers)), AbortReminder);
    Closing(Pooled.Run(st, c.repositories, o, sched), o)
  }

  /**
   * The run, sequential when the configuration asks for exactly one worker.
   * In pooled mode the interleaving is the schedule, which must be a
   * complete run of the submitted workers.
   */
  function ProcessRepositories(logs0: Logs.LogState<Message>, c: Configs.Config, o: Observations, sched: seq<Pooled.PoolStep>): RunState
    requires Configs.Valid(c)
    requires c.maxWorkers != 1 ==> Pooled.ValidSchedule(sched, Pooled.Submitted(c.repositories, o))
  {
    if c.maxWorkers == 1 then SequentialMode(logs0, c, o) else PooledMode(logs0, c, o, sched)
  }

  /**
   * A sequential run: the repositories before the first stop are processed
   * in list order, once per occurrence, and a name ends with the
   * processor's result at its last such position (an exception counting as
   * failure); names not reached stay pending; the summary is `(n, d, 0)`
   * with d the number of distinct names processed; every group ends empty;
   * the output ends with the closing line and then the overall line.
   */
  lemma SequentialOutcome(logs0: Logs.LogState<Message>, c: Configs.Config, o: Observations)
    ensures var repos := c.repositories;
            var r := SequentialMode(logs0, c, o);
            var k := Sequential.FirstStop(o, 0, |repos|);
            && r.events == Sequential.Trace(repos, 0, k, o, c.sleepAfterRepo)
            && (forall j :: 0 <= j < |repos| ==>
                  && repos[j] in r.logs.groups && r.logs.groups[repos[j]] == []
                  && repos[j] in r.tracker.statuses
                  && (j < k && repos[j] !in repos[j + 1..k] ==>
                        r.tracker.statuses[repos[j]] == Status.ResultStatus(Succeeded(o.run(j).outcome)))
                  && (repos[j] !in repos[..k] ==> r.tracker.statuses[repos[j]] == Status.RepoStatus(false, Status.Pending)))
            && Status.Summary(r.tracker) == Status.Progress(|repos|, |set x | x in repos[..k]|, 0)
            && |r.logs.out| >= 2
            && r.logs.out[|r.logs.out| - 2..] == [Logs.Line(AllDone), Logs.Line(OverallDone(o.elapsedAtEnd))]
  {
    var st0 := Setup(logs0, c.repositories);
    SayFacts(st0, AbortHint);
    var st := Say(Started(logs0, c.repositories), SequentialHeader);
    SayFacts(Started(logs0, c.repositories), SequentialHeader);
    SequentialFrom(st, c.repositories, o, c.sleepAfterRepo);
  }

  /** The sequential loop and the closing lines, from any fresh state for the list. */
  lemma SequentialFrom(st: RunState, repos: seq<string>, o: Observations, sleep: int)
    requires Fresh(st, repos) && st.events == [] && st.tracker.total == |repos|
    requires forall r :: r in st.tracker.statuses <==> r in repos
    ensures var r := Closing(Sequential.Loop(st, repos, 0, o, sleep), o);
            var k := Sequential.FirstStop(o, 0, |repos|);
            && r.events == Sequential.Trace(repos, 0, k, o, sleep)
            && (forall j :: 0 <= j < |repos| ==>
                  && repos[j] in r.logs.groups && r.logs.groups[repos[j]] == []
                  && repos[j] in r.tracker.statuses
                  && (j < k && repos[j] !in repos[j + 1..k] ==>
                        r.tracker.statuses[repos[j]] == Status.ResultStatus(Succeeded(o.run(j).outcome)))
                  && (repos[j] !in repos[..k] ==> r.tracker.statuses[repos[j]] == Status.RepoStatus(false, Status.Pending)))
            && Status.Summary(r.tracker) == Status.Progress(|repos|, |set x | x in repos[..k]|, 0)
            && |r.logs.out| >= 2
            && r.logs.out[|r.logs.out| - 2..] == [Logs.Line(AllDone), Logs.Line(OverallDone(o.elapsedAtEnd))]
  {
    Sequential.LoopOutcome(st, repos, o, sleep);
    assert [] + Sequential.Trace(repos, 0, Sequential.FirstStop(o, 0, |repos|), o, sleep)
           == Sequential.Trace(repos, 0, Sequential.FirstStop(o, 0, |repos|), o, sleep);
  }

  /**
   * A pooled run over distinct repositories, under any complete schedule:
   * the repositories before the first stop during submission are each
   * handled once and end with their worker's result (failed when the worker
   * saw the stop flag on entry or the processor raised); the rest stay
   * pending; the summary is `(n, submitted, 0)`; every group ends empty;
   * the events are the handled workers' writes and drains in handling
   * order; the output ends with the closing line and then the overall line.
   */
  lemma PooledOutcome(logs0: Logs.LogState<Message>, c: Configs.Config, o: Observations, sched: seq<Pooled.PoolStep>)
    requires Status.Distinct(c.repositories)
    requires Pooled.ValidSchedule(sched, Pooled.Submitted(c.repositories, o))
    ensures var repos := c.repositories;
            var r := PooledMode(logs0, c, o, sched);
            var k := Pooled.Submitted(repos, o);
            && r.events == Pooled.Handled(repos, o, sched)
            && (forall j :: 0 <= j < |repos| ==>
                  && repos[j] in r.logs.groups && r.logs.groups[repos[j]] == []
                  && repos[j] in r.tracker.statuses
                  && (j < k ==> r.tracker.statuses[repos[j]] == Status.ResultStatus(WorkerResult(o, j)))
                  && (j < k && (o.stopAtWorkerEntry(j) || o.run(j).outcome.Raised?) ==>
                        r.tracker.statuses[repos[j]].status == Status.Failed)
                  && (k <= j ==> r.tracker.statuses[repos[j]] == Status.RepoStatus(false, Status.Pending)))
            && Status.Summary(r.tracker) == Status.Progress(|repos|, k, 0)
            && |r.logs.out| >= 2
            && r.logs.out[|r.logs.out| - 2..] == [Logs.Line(AllDone), Logs.Line(OverallDone(o.elapsedAtEnd))]
  {
    var st := Say(Say(Started(logs0, c.repositories), ParallelHeader(c.maxWorkers)), AbortReminder);
    Pooled.RunOutcome(st, c.repositories, o, sched);
    Pooled.RunSummary(st, c.repositories, o, sched);
  }

  /**
   * The mode choice: exactly one worker runs the sequential loop, which
   * pauses between repositories; any other count runs the pool, which over
   * distinct names under a complete schedule never pauses and ends every
   * submitted repository with its worker's result; both empty every group
   * (the pool over distinct names). Both end with the closing line and then
   * the overall line, whatever the names.
   */
  lemma ProcessRepositoriesOutcome(logs0: Logs.LogState<Message>, c: Configs.Config, o: Observations, sched: seq<Pooled.PoolStep>)
    requires Configs.Valid(c)
    requires c.maxWorkers != 1 ==> Pooled.ValidSchedule(sched, Pooled.Submitted(c.repositories, o))
    ensures var repos := c.repositories;
            var r := ProcessRepositories(logs0, c, o, sched);
            && |r.logs.out| >= 2
            && r.logs.out[|r.logs.out| - 2..] == [Logs.Line(AllDone), Logs.Line(OverallDone(o.elapsedAtEnd))]
    ensures var repos := c.repositories;
            var r := ProcessRepositories(logs0, c, o, sched);
            var k := Sequential.FirstStop(o, 0, |repos|);
            c.maxWorkers == 1 ==>
              && r.events == Sequential.Trace(repos, 0, k, o, c.sleepAfterRepo)
              && (forall j :: 0 <= j < |repos| ==>
                    && repos[j] in r.logs.groups && r.logs.groups[repos[j]] == []
                    && repos[j] in r.tracker.statuses
                    && (j < k && repos[j] !in repos[j + 1..k] ==>
                          r.tracker.statuses[repos[j]] == Status.ResultStatus(Succeeded(o.run(j).outcome)))
                    && (repos[j] !in repos[..k] ==> r.tracker.statuses[repos[j]] == Status.RepoStatus(false, Status.Pending)))
              && Status.Summary(r.tracker) == Status.Progress(|repos|, |set x | x in repos[..k]|, 0)
    ensures var repos := c.repositories;
            var r := ProcessRepositories(logs0, c, o, sched);
            var k := Pooled.Submitted(repos, o);
            c.maxWorkers != 1 && Status.Distinct(repos) ==>
              && r.events == Pooled.Handled(repos, o, sched)
              && (forall e :: e in r.events ==> !e.Paused?)
              && (forall j :: 0 <= j < |repos| ==>
                    && repos[j] in r.logs.groups && r.logs.groups[repos[j]] == []
                    && repos[j] in r.tracker.statuses
                    && (j < k ==> r.tracker.statuses[repos[j]] == Status.ResultStatus(WorkerResult(o, j)))
                    && (k <= j ==> r.tracker.statuses[repos[j]] == Status.RepoStatus(false, Status.Pending)))
              && Status.Summary(r.tracker) == Status.Progress(|repos|, k, 0)
  {
    if c.maxWorkers == 1 {
      SequentialOutcome(logs0, c, o);
    } else {
      Pooled.ScheduleInRange(sched, Pooled.Submitted(c.repositories, o), |c.repositories|);
      PooledClosing(logs0, c, o, sched);
      if Status.Distinct(c.repositories) {
        PooledOutcome(logs0, c, o, sched);
        Pooled.HandledNoPause(c.repositories, o, sched);
      }
    }
  }

  /** Whatever the names, a pooled run ends with the closing line and then the overall line. */
  lemma PooledClosing(logs0: Logs.LogState<Message>, c: Configs.Config, o: Observations, sched: seq<Pooled.PoolStep>)
    requires Pooled.ValidSchedule(sched, Pooled.Submitted(c.repositories, o))
    ensures var r := PooledMode(logs0, c, o, sched);
            && |r.logs.out| >= 2
            && r.logs.out[|r.logs.out| - 2..] == [Logs.Line(AllDone), Logs.Line(OverallDone(o.elapsedAtEnd))]
  {
  }
}
