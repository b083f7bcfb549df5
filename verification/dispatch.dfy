/**
 * What the scheduler does around one repository, shared by the sequential
 * and the pooled mode: the per-repository worker, the status write, and the
 * drain of the repository's log group. The per-repository processor and the
 * stop flag are not called or read here: their results arrive as
 * `Observations`, indexed by the repository's position in the list.
 */
module Dispatch {
  import opened Wrappers
  import Strings
  import Logs
  import Status

  /** How a call of the per-repository processor ended. */
  datatype Outcome = Returned(ok: bool) | Raised(error: string)

  /**
   * What the scheduler and the worker write. The processor's own messages
   * are `Text`; `Show` gives each message's wording.
   */
  datatype Message =
    | Text(text: string)
    | AbortHint
    | AbortReminder
    | SequentialHeader
    | ParallelHeader(workers: int)
    | SequentialAbort
    | SubmissionAbort
    | AllDone
    | ElapsedNotice(seconds: string)
    | OverallDone(seconds: string)
    | ProcessingNotice(repo: string)
    | ErrorNotice(repo: string, error: string)
    | DoneNotice(success: bool)
    | CompletedRepoNotice(repo: string)
    | ProgressNotice(progress: Status.Progress)

  function Show(m: Message): string
  {
    match m
    case Text(s) => s
    case AbortHint => "\n[INFO] You can abort the operation at any time by typing 'q' and pressing Enter."
    case AbortReminder => "[INFO] To abort, type 'q' and press Enter."
    case SequentialHeader => "\n--- Starting GitHub Repository Variable/Secret Automation (Sequential Processing) ---"
    case ParallelHeader(w) =>
      "\n--- Starting GitHub Repository Variable/Secret Automation (Parallel Processing, "
      + (if w < 0 then "-" + Strings.NatToString(-w) else Strings.NatToString(w)) + " concurrent) ---"
    case SequentialAbort => "\nAbort command detected. Stopping sequential processing."
    case SubmissionAbort => "Abort command detected. Stopping submission of new repository tasks."
    case AllDone => "\n--- All repository processing completed ---"
    case ElapsedNotice(t) => "Elapsed time so far: " + t + " seconds"
    case OverallDone(t) => "\nOverall operation completed! Total time taken: " + t + " seconds"
    case ProcessingNotice(r) => "\n[INFO] To abort, type 'q' and press Enter: Currently processing " + r + "..."
    case ErrorNotice(r, e) => "Error processing repository '" + r + "': " + e
    case DoneNotice(ok) =>
      if ok then "Repository processing completed (Success: True)." else "Repository processing failed (Success: False)."
    case CompletedRepoNotice(r) => "Completed Repo: " + r
    case ProgressNotice(p) =>
      "[Progress] Total Repos: " + Strings.NatToString(p.total)
      + ", Completed: " + Strings.NatToString(p.completedOrFailed)
      + ", In Progress: " + Strings.NatToString(p.inProgress)
  }

  /** One processor call: the messages it stored under the repository's group, and how it ended. */
  datatype ProcessorRun = ProcessorRun(notes: seq<Message>, outcome: Outcome)

  /**
   * The values the run reads from outside: each processor call, the stop
   * flag at each place it is read, for the repository at a given position,
   * and the clock, as the elapsed seconds already formatted with two
   * decimals, when a finished worker is handled and at the very end.
   */
  datatype Observations = Observations(
    run: nat -> ProcessorRun,
    stopBeforeDispatch: nat -> bool,
    stopBeforePause: nat -> bool,
    stopAtWorkerEntry: nat -> bool,
    stopAtWorkerExit: nat -> bool,
    stopAfterStatus: nat -> bool,
    stopAfterHandling: nat -> bool,
    elapsedAtHandling: nat -> string,
    elapsedAtEnd: string)

  /** What the run did that a caller can see besides the output. */
  datatype Event =
    | StatusWritten(pos: nat, repo: string, success: bool)
    | LogsDrained(pos: nat, repo: string, lines: seq<Message>)
    | Paused(seconds: int)

  datatype RunState = RunState(tracker: Status.Tracker, logs: Logs.LogState<Message>, events: seq<Event>)

  /** The listed repositories each have an empty group and a pending, unsuccessful entry. */
  predicate Fresh(st: RunState, repos: seq<string>)
  {
    forall j :: 0 <= j < |repos| ==>
      && repos[j] in st.logs.groups && st.logs.groups[repos[j]] == []
      && repos[j] in st.tracker.statuses && st.tracker.statuses[repos[j]] == Status.RepoStatus(false, Status.Pending)
  }

  /** True only for a call that returned normally with a true result; an exception counts as failure. */
  function Succeeded(o: Outcome): bool
  {
    o.Returned? && o.ok
  }

  /** A message on the global channel. */
  function Say(st: RunState, message: Message): RunState
  {
    st.(logs := Logs.Add(st.logs, None, message, true, false))
  }

  /** A global message only appends a line to the output. */
  lemma SayFacts(st: RunState, message: Message)
    ensures var r := Say(st, message);
            && r.events == st.events && r.tracker == st.tracker && r.logs.groups == st.logs.groups
            && r.logs.out == st.logs.out + [Logs.Line(message)]
  {
  }

  /** A message stored under a repository's group. */
  function Store(st: RunState, repo: string, message: Message): RunState
  {
    st.(logs := Logs.Add(st.logs, Some(repo), message, true, false))
  }

  /** Records a repository's result in the tracker; a warning, if any, goes to the output. */
  function WriteStatus(st: RunState, pos: nat, repo: string, success: bool): (r: RunState)
    ensures r.tracker == Status.SetStatus(st.tracker, repo, success).tracker
    ensures r.logs.groups == st.logs.groups
    ensures r.events == st.events + [StatusWritten(pos, repo, success)]
  {
    var u := Status.SetStatus(st.tracker, repo, success);
    RunState(u.tracker, st.logs.(out := st.logs.out + (if u.warned then [Logs.StatusWarning(repo)] else [])), st.events + [StatusWritten(pos, repo, success)])
  }

  /**
   * Prints every message stored for a repository, in order, then empties its
   * group. The modelled writes are consecutive; the lock is taken per
   * message, so a line another thread prints meanwhile (the subprocess
   * helper's error lines, which are not modelled) could fall between them.
   */
  function Drain(st: RunState, pos: nat, repo: string): (r: RunState)
    ensures r.tracker == st.tracker
    ensures repo in st.logs.groups ==>
              r.logs.out == st.logs.out + Logs.Lines(st.logs.groups[repo])
              && r.logs.groups == st.logs.groups[repo := []]
    ensures repo !in st.logs.groups ==>
              r.logs.out == st.logs.out + [Logs.ClearWarning(repo)] && r.logs.groups == st.logs.groups
    ensures r.events == st.events + [LogsDrained(pos, repo, Logs.Get(st.logs, repo))]
  {
    var lines := Logs.Get(st.logs, repo);
    var printed := Logs.PrintAll(st.logs, lines);
    RunState(st.tracker, Logs.Clear(printed, repo), st.events + [LogsDrained(pos, repo, lines)])
  }

  /** The messages a processor call leaves in its repository's group, as the worker and the sequential loop add them. */
  function Collected(run: ProcessorRun, repo: string): seq<Message>
  {
    run.notes + (if run.outcome.Raised? then [ErrorNotice(repo, run.outcome.error)] else [])
  }

  /** Stores the processor's notes, then the error notice if it raised. */
  function RecordRun(st: RunState, repo: string, run: ProcessorRun): (r: RunState)
    ensures r.tracker == st.tracker && r.events == st.events
    ensures repo in st.logs.groups ==>
              r.logs.out == st.logs.out
              && r.logs.groups == st.logs.groups[repo := st.logs.groups[repo] + Collected(run, repo)]
    ensures repo !in st.logs.groups ==> r.logs.groups == st.logs.groups
  {
    var s := st.(logs := Logs.AddAll(st.logs, repo, run.notes));
    if run.outcome.Raised? then
      var e := ErrorNotice(repo, run.outcome.error);
      assert repo in st.logs.groups ==>
        st.logs.groups[repo] + run.notes + [e] == st.logs.groups[repo] + Collected(run, repo);
      Store(s, repo, e)
    else
      assert Collected(run, repo) == run.notes;
      s
  }

  /** The value the pooled worker returns: false when it saw the stop flag on entry, else the processor's result. */
  function WorkerResult(o: Observations, pos: nat): bool
  {
    !o.stopAtWorkerEntry(pos) && Succeeded(o.run(pos).outcome)
  }

  /** The messages a pooled worker leaves in its repository's group. */
  function WorkerLines(o: Observations, pos: nat, repo: string): seq<Message>
  {
    if o.stopAtWorkerEntry(pos) then []
    else
      o.run(pos).notes + [WorkerNotice(o.run(pos), repo)]
  }

  /** The notice the worker stores after the processor call: the result, or the error it raised. */
  function WorkerNotice(run: ProcessorRun, repo: string): Message
  {
    if run.outcome.Raised? then ErrorNotice(repo, run.outcome.error) else DoneNotice(run.outcome.ok)
  }

  /** The worker's processor call as seen in the logs: the processor's notes, then the worker's notice. */
  function RecordWork(st: RunState, repo: string, run: ProcessorRun): (r: RunState)
    ensures r.tracker == st.tracker && r.events == st.events
    ensures repo in st.logs.groups ==>
              r.logs.out == st.logs.out
              && r.logs.groups == st.logs.groups[repo := st.logs.groups[repo] + run.notes + [WorkerNotice(run, repo)]]
    ensures repo !in st.logs.groups ==> r.logs.groups == st.logs.groups
  {
    Store(st.(logs := Logs.AddAll(st.logs, repo, run.notes)), repo, WorkerNotice(run, repo))
  }

  /** The first half of a pooled worker: the stop check, then the in-progress mark. */
  function WorkerStart(st: RunState, o: Observations, pos: nat, repo: string): (r: RunState)
    ensures r.logs == st.logs && r.events == st.events
    ensures o.stopAtWorkerEntry(pos) ==> r.tracker == st.tracker
    ensures !o.stopAtWorkerEntry(pos) ==> r.tracker == Status.MarkInProgress(st.tracker, repo)
  {
    if o.stopAtWorkerEntry(pos) then st
    else st.(tracker := Status.MarkInProgress(st.tracker, repo))
  }

  /**
   * The second half: the processor call and its notices (skipped when the
   * worker saw the stop flag on entry), then the global completion line
   * unless the flag is set on exit.
   */
  function WorkerFinish(st: RunState, o: Observations, pos: nat, repo: string): (r: RunState)
    ensures r.tracker == st.tracker && r.events == st.events
    ensures o.stopAtWorkerEntry(pos) || repo !in st.logs.groups ==> r.logs.groups == st.logs.groups
    ensures !o.stopAtWorkerEntry(pos) && repo in st.logs.groups ==>
              r.logs.groups == st.logs.groups[repo := st.logs.groups[repo] + WorkerLines(o, pos, repo)]
  {
    var worked := if o.stopAtWorkerEntry(pos) then st else RecordWork(st, repo, o.run(pos));
    assert !o.stopAtWorkerEntry(pos) && repo in st.logs.groups ==>
      st.logs.groups[repo] + WorkerLines(o, pos, repo)
      == st.logs.groups[repo] + o.run(pos).notes + [WorkerNotice(o.run(pos), repo)];
    if o.stopAtWorkerExit(pos) then worked else Say(worked, CompletedRepoNotice(repo))
  }

  /**
   * The whole worker run without interleaving: a worker that sees the stop
   * flag on entry returns false and touches neither the tracker nor the
   * repository's group; otherwise it marks the repository in progress and
   * returns the processor's result, false if the processor raised.
   */
  lemma WorkerOutcome(st: RunState, o: Observations, pos: nat, repo: string)
    requires repo in st.logs.groups
    ensures var r := WorkerFinish(WorkerStart(st, o, pos, repo), o, pos, repo);
            && (o.stopAtWorkerEntry(pos) ==>
                  !WorkerResult(o, pos) && r.tracker == st.tracker && r.logs.groups == st.logs.groups)
            && (!o.stopAtWorkerEntry(pos) ==>
                  WorkerResult(o, pos) == Succeeded(o.run(pos).outcome)
                  && r.tracker == Status.MarkInProgress(st.tracker, repo)
                  && Logs.Get(r.logs, repo) == Logs.Get(st.logs, repo) + WorkerLines(o, pos, repo))
            && (o.run(pos).outcome.Raised? ==> !WorkerResult(o, pos))
  {
    var r := WorkerFinish(WorkerStart(st, o, pos, repo), o, pos, repo);
    if o.stopAtWorkerEntry(pos) {
      assert WorkerLines(o, pos, repo) == [];
      assert forall g :: Logs.Get(r.logs, g) == Logs.Get(st.logs, g);
      assert r.logs.groups == st.logs.groups;
    }
  }
}
