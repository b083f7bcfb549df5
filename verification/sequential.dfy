/**
 * Sequential mode (one worker): repositories are taken in list order; the
 * stop flag is read before each one and, after each but the last, before the
 * pause. A processed repository is never marked in progress.
 */
module Sequential {
  import opened Dispatch
  import Seqs
  import Logs
  import Status

  /** The position of the first repository before which the stop flag is seen, or the list's end. */
  function FirstStop(o: Observations, i: nat, n: nat): (k: nat)
    requires i <= n
    ensures i <= k <= n
    ensures forall j :: i <= j < k ==> !o.stopBeforeDispatch(j)
    ensures k < n ==> o.stopBeforeDispatch(k)
    decreases n - i
  {
    if i == n || o.stopBeforeDispatch(i) then i else FirstStop(o, i + 1, n)
  }

  /** Whether the loop pauses after position i: not after the last repository, and not once stop is seen. */
  predicate PausesAfter(repos: seq<string>, o: Observations, i: nat)
  {
    i + 1 < |repos| && !o.stopBeforePause(i)
  }

  /** One iteration: notice, processor call, status write, drain, and the pause when it is due. */
  function Step(st: RunState, repos: seq<string>, i: nat, o: Observations, sleep: int): RunState
    requires i < |repos|
  {
    var repo := repos[i];
    var run := o.run(i);
    var s1 := RecordRun(Store(st, repo, ProcessingNotice(repo)), repo, run);
    var s2 := Drain(WriteStatus(s1, i, repo, Succeeded(run.outcome)), i, repo);
    if PausesAfter(repos, o, i) then
      var s3 := Say(s2, AbortReminder);
      s3.(events := s3.events + [Paused(sleep)])
    else s2
  }

  /** The loop from position i on: the stop check, then the repository at i and the rest. */
  function Loop(st: RunState, repos: seq<string>, i: nat, o: Observations, sleep: int): RunState
    decreases |repos| - i, 1
  {
    if i >= |repos| then st
    else if o.stopBeforeDispatch(i) then Say(st, SequentialAbort)
    else Continue(st, repos, i, o, sleep)
  }

  /** Processes the repository at i, then loops from i + 1. */
  function Continue(st: RunState, repos: seq<string>, i: nat, o: Observations, sleep: int): RunState
    requires i < |repos|
    decreases |repos| - i, 0
  {
    Loop(Step(st, repos, i, o, sleep), repos, i + 1, o, sleep)
  }

  /** What one processed repository contributes to the event trace. */
  function StepEvents(repos: seq<string>, i: nat, o: Observations, sleep: int): seq<Event>
    requires i < |repos|
  {
    var run := o.run(i);
    [ StatusWritten(i, repos[i], Succeeded(run.outcome)),
      LogsDrained(i, repos[i], [ProcessingNotice(repos[i])] + Collected(run, repos[i])) ]
    + (if PausesAfter(repos, o, i) then [Paused(sleep)] else [])
  }

  /** The expected trace of positions i up to (not including) k. */
  function Trace(repos: seq<string>, i: nat, k: nat, o: Observations, sleep: int): seq<Event>
    requires i <= k <= |repos|
    decreases k - i
  {
    if i == k then [] else StepEvents(repos, i, o, sleep) + Trace(repos, i + 1, k, o, sleep)
  }

  /** Every repository of the list has a group and the group is empty. */
  predicate GroupsReady(groups: map<string, seq<Message>>, repos: seq<string>)
  {
    forall j :: 0 <= j < |repos| ==> repos[j] in groups && groups[repos[j]] == []
  }
  /** One iteration drains exactly what it collected and leaves the groups as it found them. */
  lemma StepEffect(st: RunState, repos: seq<string>, i: nat, o: Observations, sleep: int)
    requires i < |repos| && repos[i] in st.logs.groups && st.logs.groups[repos[i]] == []
    ensures var r := Step(st, repos, i, o, sleep);
            && r.events == st.events + StepEvents(repos, i, o, sleep)
            && r.logs.groups == st.logs.groups
            && r.tracker == Status.SetStatus(st.tracker, repos[i], Succeeded(o.run(i).outcome)).tracker
  {
    var repo := repos[i];
    var run := o.run(i);
    var s0 := Store(st, repo, ProcessingNotice(repo));
    var s1 := RecordRun(s0, repo, run);
    assert [ProcessingNotice(repo)] + Collected(run, repo) == s1.logs.groups[repo];
    assert st.logs.groups[repo := []] == st.logs.groups;
  }

  /** The tracker after the result writes of positions i up to (not including) k, in order. */
  function Results(t: Status.Tracker, repos: seq<string>, i: nat, k: nat, o: Observations): Status.Tracker
    requires i <= k <= |repos|
    decreases k - i
  {
    if i == k then t
    else Results(Status.SetStatus(t, repos[i], Succeeded(o.run(i).outcome)).tracker, repos, i + 1, k, o)
  }

  /** What one processed position does to the groups and the trace. */
  lemma StepFacts(st: RunState, repos: seq<string>, i: nat, o: Observations, sleep: int)
    requires i < |repos| && !o.stopBeforeDispatch(i) && GroupsReady(st.logs.groups, repos)
    ensures var r := Step(st, repos, i, o, sleep);
            var k := FirstStop(o, i, |repos|);
            && Loop(st, repos, i, o, sleep) == Loop(r, repos, i + 1, o, sleep)
            && r.events == st.events + StepEvents(repos, i, o, sleep)
            && r.logs.groups == st.logs.groups
            && k == FirstStop(o, i + 1, |repos|)
            && Trace(repos, i, k, o, sleep) == StepEvents(repos, i, o, sleep) + Trace(repos, i + 1, k, o, sleep)
  {
    StepEffect(st, repos, i, o, sleep);
  }

  /** What one processed position does to the tracker. */
  lemma StepTracker(st: RunState, repos: seq<string>, i: nat, o: Observations, sleep: int)
    requires i < |repos| && !o.stopBeforeDispatch(i)
    ensures var r := Step(st, repos, i, o, sleep);
            var k := FirstStop(o, i, |repos|);
            && Loop(st, repos, i, o, sleep) == Loop(r, repos, i + 1, o, sleep)
            && k == FirstStop(o, i + 1, |repos|)
            && Results(st.tracker, repos, i, k, o) == Results(r.tracker, repos, i + 1, k, o)
  {
  }

  /**
   * The loop's output, when every listed repository starts with an empty
   * group: the groups end as they started, and the trace holds, for each
   * position before the first stop, one status write and one drain of
   * exactly the messages collected for it, then a pause where one is due.
   */
  lemma {:induction false} LoopTrace(st: RunState, repos: seq<string>, i: nat, o: Observations, sleep: int)
    requires i <= |repos| && GroupsReady(st.logs.groups, repos)
    ensures var r := Loop(st, repos, i, o, sleep);
            && r.logs.groups == st.logs.groups
            && r.events == st.events + Trace(repos, i, FirstStop(o, i, |repos|), o, sleep)
    decreases |repos| - i
  {
    if i < |repos| && !o.stopBeforeDispatch(i) {
      StepFacts(st, repos, i, o, sleep);
      var st' := Step(st, repos, i, o, sleep);
      LoopTrace(st', repos, i + 1, o, sleep);
      Seqs.AppendAssoc(st.events, StepEvents(repos, i, o, sleep), Trace(repos, i + 1, FirstStop(o, i, |repos|), o, sleep));
    }
  }

  /** The loop's tracker is the result of writing the results of the positions before the first stop, in order. */
  lemma {:induction false} LoopTracker(st: RunState, repos: seq<string>, i: nat, o: Observations, sleep: int)
    requires i <= |repos|
    ensures Loop(st, repos, i, o, sleep).tracker == Results(st.tracker, repos, i, FirstStop(o, i, |repos|), o)
    decreases |repos| - i
  {
    if i < |repos| && !o.stopBeforeDispatch(i) {
      StepTracker(st, repos, i, o, sleep);
      LoopTracker(Step(st, repos, i, o, sleep), repos, i + 1, o, sleep);
    }
  }

  /**
   * Result writes only: the tracker keeps its count and its repositories,
   * and nothing new becomes in progress.
   */
  lemma {:induction false} ResultsKeepShape(t: Status.Tracker, repos: seq<string>, i: nat, k: nat, o: Observations)
    requires i <= k <= |repos|
    ensures var u := Results(t, repos, i, k, o);
            u.total == t.total && u.statuses.Keys == t.statuses.Keys && Status.Running(u) <= Status.Running(t)
    decreases k - i
  {
    if i < k {
      var success := Succeeded(o.run(i).outcome);
      Status.SetStatusNotRunning(t, repos[i], success);
      ResultsKeepShape(Status.SetStatus(t, repos[i], success).tracker, repos, i + 1, k, o);
    }
  }

  /** A repository not among positions i to k keeps its entry. */
  lemma {:induction false} ResultsUntouched(t: Status.Tracker, repos: seq<string>, i: nat, k: nat, o: Observations, r: string)
    requires i <= k <= |repos| && r in t.statuses && r !in repos[i..k]
    ensures var u := Results(t, repos, i, k, o);
            r in u.statuses && u.statuses[r] == t.statuses[r]
    decreases k - i
  {
    if i < k {
      assert repos[i] == repos[i..k][0] && repos[i + 1..k] == repos[i..k][1..];
      var t' := Status.SetStatus(t, repos[i], Succeeded(o.run(i).outcome)).tracker;
      ResultsUntouched(t', repos, i + 1, k, o, r);
    }
  }

  /** A repository's entry ends with the result written at its last position among i to k. */
  lemma {:induction false} ResultsLast(t: Status.Tracker, repos: seq<string>, i: nat, k: nat, o: Observations, j: nat)
    requires i <= j < k <= |repos| && repos[j] in t.statuses && repos[j] !in repos[j + 1..k]
    ensures var u := Results(t, repos, i, k, o);
            repos[j] in u.statuses && u.statuses[repos[j]] == Status.ResultStatus(Succeeded(o.run(j).outcome))
    decreases k - i
  {
    var t' := Status.SetStatus(t, repos[i], Succeeded(o.run(i).outcome)).tracker;
    if i < j {
      ResultsLast(t', repos, i + 1, k, o, j);
    } else {
      ResultsUntouched(t', repos, i + 1, k, o, repos[j]);
    }
  }

  /** The entries of a list's repositories, all pending and unsuccessful, and no others. */
  ghost predicate FreshTracker(t: Status.Tracker, repos: seq<string>)
  {
    && (forall r :: r in t.statuses <==> r in repos)
    && (forall r :: r in t.statuses ==> t.statuses[r] == Status.RepoStatus(false, Status.Pending))
  }

  /**
   * The result writes of the first k positions from a fresh tracker: a name
   * ends with the result of its last position among them, and a name none
   * of them holds stays pending.
   */
  lemma ResultsEntries(t: Status.Tracker, repos: seq<string>, k: nat, o: Observations)
    requires k <= |repos| && FreshTracker(t, repos)
    ensures var u := Results(t, repos, 0, k, o);
            forall j :: 0 <= j < |repos| ==>
              && repos[j] in u.statuses
              && (j < k && repos[j] !in repos[j + 1..k] ==> u.statuses[repos[j]] == Status.ResultStatus(Succeeded(o.run(j).outcome)))
              && (repos[j] !in repos[..k] ==> u.statuses[repos[j]] == Status.RepoStatus(false, Status.Pending))
  {
    ResultsKeepShape(t, repos, 0, k, o);
    var u := Results(t, repos, 0, k, o);
    forall j | 0 <= j < |repos|
      ensures repos[j] in u.statuses
      ensures j < k && repos[j] !in repos[j + 1..k] ==> u.statuses[repos[j]] == Status.ResultStatus(Succeeded(o.run(j).outcome))
      ensures repos[j] !in repos[..k] ==> u.statuses[repos[j]] == Status.RepoStatus(false, Status.Pending)
    {
      if j < k && repos[j] !in repos[j + 1..k] {
        ResultsLast(t, repos, 0, k, o, j);
      }
      if repos[j] !in repos[..k] {
        assert repos[0..k] == repos[..k];
        ResultsUntouched(t, repos, 0, k, o, repos[j]);
      }
    }
  }

  /** A name some of the first k positions hold ends finished, with the result of its last position. */
  lemma ResultsFinished(t: Status.Tracker, repos: seq<string>, k: nat, o: Observations, x: string)
    requires k <= |repos| && FreshTracker(t, repos) && x in repos[..k]
    ensures var u := Results(t, repos, 0, k, o);
            x in u.statuses && Status.IsTerminal(u.statuses[x].status)
  {
    var i :| 0 <= i < k && repos[..k][i] == x;
    assert repos[i] == x;
    Seqs.LastPosition(repos, k, x);
    var j :| 0 <= j < k && repos[j] == x && forall m :: j < m < k ==> repos[m] != x;
    var later := repos[j + 1..k];
    forall m | 0 <= m < |later| ensures later[m] != x {
      assert later[m] == repos[j + 1 + m];
    }
    ResultsLast(t, repos, 0, k, o, j);
  }

  /** The result writes of the first k positions from a fresh tracker finish each name written and nothing else. */
  lemma ResultsSummary(t: Status.Tracker, repos: seq<string>, k: nat, o: Observations)
    requires k <= |repos| && FreshTracker(t, repos)
    ensures Status.Summary(Results(t, repos, 0, k, o)) == Status.Progress(t.total, |set x | x in repos[..k]|, 0)
  {
    ResultsKeepShape(t, repos, 0, k, o);
    var u := Results(t, repos, 0, k, o);
    var done := set x | x in repos[..k];
    forall x | x in u.statuses && x in done
      ensures Status.IsTerminal(u.statuses[x].status)
    {
      ResultsFinished(t, repos, k, o, x);
    }
    forall x | x in u.statuses && x !in done
      ensures u.statuses[x].status == Status.Pending
    {
      assert repos[0..k] == repos[..k];
      ResultsUntouched(t, repos, 0, k, o, x);
    }
    Status.SummaryOfNames(u, done);
  }

  /**
   * A loop from a fresh state: the positions before the first stop are
   * processed in list order, so a repository ends with the processor's
   * result (an exception counting as failure) at its last such position
   * (a repeated name is processed once per occurrence); a name no such
   * position holds stays pending; every group ends empty; the summary
   * counts the distinct names processed.
   */
  lemma LoopOutcome(st: RunState, repos: seq<string>, o: Observations, sleep: int)
    requires Fresh(st, repos)
    requires forall r :: r in st.tracker.statuses <==> r in repos
    ensures var r := Loop(st, repos, 0, o, sleep);
            var k := FirstStop(o, 0, |repos|);
            && r.events == st.events + Trace(repos, 0, k, o, sleep)
            && r.tracker.total == st.tracker.total && r.tracker.statuses.Keys == st.tracker.statuses.Keys
            && (forall j :: 0 <= j < |repos| ==>
                  && repos[j] in r.logs.groups && r.logs.groups[repos[j]] == []
                  && repos[j] in r.tracker.statuses
                  && (j < k && repos[j] !in repos[j + 1..k] ==>
                        r.tracker.statuses[repos[j]] == Status.ResultStatus(Succeeded(o.run(j).outcome)))
                  && (repos[j] !in repos[..k] ==> r.tracker.statuses[repos[j]] == Status.RepoStatus(false, Status.Pending)))
            && Status.Summary(r.tracker) == Status.Progress(st.tracker.total, |set x | x in repos[..k]|, 0)
  {
    var k := FirstStop(o, 0, |repos|);
    LoopTrace(st, repos, 0, o, sleep);
    LoopTracker(st, repos, 0, o, sleep);
    ResultsKeepShape(st.tracker, repos, 0, k, o);
    assert FreshTracker(st.tracker, repos) by {
      forall r | r in st.tracker.statuses ensures st.tracker.statuses[r] == Status.RepoStatus(false, Status.Pending) {
        var j :| 0 <= j < |repos| && repos[j] == r;
      }
    }
    ResultsEntries(st.tracker, repos, k, o);
    ResultsSummary(st.tracker, repos, k, o);
  }
}
