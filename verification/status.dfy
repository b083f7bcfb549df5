/**
 * The repository status tracker: a map from repository name to its success
 * flag and lifecycle stage, plus the repository count captured when the
 * tracker was initialized. The lock that guards it is not modelled; every
 * operation here is one critical section.
 */
module Status {

  datatype Lifecycle = Pending | InProgress | Completed | Failed

  datatype RepoStatus = RepoStatus(success: bool, status: Lifecycle)

  datatype Tracker = Tracker(statuses: map<string, RepoStatus>, total: nat)

  /** `(total, completed_or_failed, in_progress)` as the summary query returns it. */
  datatype Progress = Progress(total: nat, completedOrFailed: nat, inProgress: nat)

  /** A tracker after a status write, and whether the write printed the unknown-repository warning. */
  datatype StatusUpdate = StatusUpdate(tracker: Tracker, warned: bool)

  predicate IsTerminal(l: Lifecycle)
  {
    l == Completed || l == Failed
  }

  /** No name occurs twice. */
  predicate Distinct(repos: seq<string>)
  {
    forall i, j :: 0 <= i < j < |repos| ==> repos[i] != repos[j]
  }

  /** Every repository of the list pending and unsuccessful; the count is the list's length. */
  function Initialize(repos: seq<string>): (t: Tracker)
    ensures forall r :: r in t.statuses <==> r in repos
    ensures forall r :: r in t.statuses ==> t.statuses[r] == RepoStatus(false, Pending)
    ensures t.total == |repos|
  {
    Tracker(map r | r in repos :: RepoStatus(false, Pending), |repos|)
  }

  /** The entry a result write leaves: completed on success, failed otherwise. */
  function ResultStatus(success: bool): RepoStatus
  {
    RepoStatus(success, if success then Completed else Failed)
  }

  /**
   * Records a result: a known repository becomes completed on success and
   * failed otherwise, whatever its stage was; an unknown one only draws a warning.
   */
  function SetStatus(t: Tracker, repo: string, success: bool): (u: StatusUpdate)
    ensures u.tracker.total == t.total
    ensures u.tracker.statuses.Keys == t.statuses.Keys
    ensures repo in t.statuses ==>
              !u.warned && u.tracker.statuses[repo] == ResultStatus(success)
    ensures repo !in t.statuses ==> u.tracker == t && u.warned
    ensures forall r :: r in t.statuses && r != repo ==> u.tracker.statuses[r] == t.statuses[r]
  {
    if repo in t.statuses then
      StatusUpdate(t.(statuses := t.statuses[repo := ResultStatus(success)]), false)
    else
      StatusUpdate(t, true)
  }

  /** Moves a pending repository to in-progress; any other repository or stage is left as it is. */
  function MarkInProgress(t: Tracker, repo: string): (u: Tracker)
    ensures u.total == t.total
    ensures u.statuses.Keys == t.statuses.Keys
    ensures repo in t.statuses && t.statuses[repo].status == Pending ==>
              u.statuses[repo] == t.statuses[repo].(status := InProgress)
    ensures !(repo in t.statuses && t.statuses[repo].status == Pending) ==> u == t
    ensures forall r :: r in t.statuses && r != repo ==> u.statuses[r] == t.statuses[r]
  {
    if repo in t.statuses && t.statuses[repo].status == Pending then
      t.(statuses := t.statuses[repo := t.statuses[repo].(status := InProgress)])
    else t
  }

  /** The stored success flag, false for a repository the tracker does not know. */
  function OverallStatus(t: Tracker, repo: string): (b: bool)
    ensures b <==> repo in t.statuses && t.statuses[repo].success
  {
    if repo in t.statuses then t.statuses[repo].success else false
  }

  function Finished(t: Tracker): set<string>
  {
    set r | r in t.statuses && IsTerminal(t.statuses[r].status)
  }

  function Running(t: Tracker): set<string>
  {
    set r | r in t.statuses && t.statuses[r].status == InProgress
  }

  /** The progress summary: the initial count, then the finished and running entries. */
  function Summary(t: Tracker): (p: Progress)
    ensures p.total == t.total
    ensures p.completedOrFailed + p.inProgress <= |t.statuses|
  {
    assert Finished(t) !! Running(t);
    assert Finished(t) + Running(t) <= t.statuses.Keys;
    SubsetCard(Finished(t) + Running(t), t.statuses.Keys);
    Progress(t.total, |Finished(t)|, |Running(t)|)
  }

  /** A result write never leaves anything in progress that was not already. */
  lemma SetStatusNotRunning(t: Tracker, repo: string, success: bool)
    ensures Running(SetStatus(t, repo, success).tracker) <= Running(t)
  {
  }

  lemma SubsetCard<T>(a: set<T>, b: set<T>)
    requires a <= b
    ensures |a| <= |b|
  {
    assert b == a + (b - a);
  }

  /** A list has at most as many distinct names as entries, exactly as many when it has no duplicates. */
  lemma {:induction false} NamesCard(repos: seq<string>)
    ensures |set r | r in repos| <= |repos|
    ensures |set r | r in repos| == |repos| <==> Distinct(repos)
  {
    if |repos| > 0 {
      var tail := repos[1..];
      NamesCard(tail);
      var s := set r | r in repos;
      var s' := set r | r in tail;
      assert s == s' + {repos[0]};
      if repos[0] in tail {
        assert s == s';
        var k :| 0 <= k < |tail| && tail[k] == repos[0];
        assert repos[0] == repos[k + 1];
      } else {
        assert |s| == |s'| + 1;
        if Distinct(tail) {
          forall i, j | 0 <= i < j < |repos| ensures repos[i] != repos[j] {
            if i > 0 { assert repos[i] == tail[i - 1] && repos[j] == tail[j - 1]; }
            else { assert repos[j] == tail[j - 1]; }
          }
        }
        if Distinct(repos) {
          forall i, j | 0 <= i < j < |tail| ensures tail[i] != tail[j] {
            assert tail[i] == repos[i + 1] && tail[j] == repos[j + 1];
          }
        }
      }
    }
  }

  /**
   * A fresh tracker reports `(|repos|, 0, 0)`, and keeps fewer entries than
   * its count exactly when the list repeats a name.
   */
  lemma InitializeSummary(repos: seq<string>)
    ensures Summary(Initialize(repos)) == Progress(|repos|, 0, 0)
    ensures |Initialize(repos).statuses| <= Initialize(repos).total
    ensures |Initialize(repos).statuses| < Initialize(repos).total <==> !Distinct(repos)
  {
    var t := Initialize(repos);
    assert Finished(t) == {};
    assert Running(t) == {};
    assert t.statuses.Keys == set r | r in repos;
    NamesCard(repos);
  }

  /** Marking in progress twice is the same as marking once. */
  lemma MarkInProgressIdempotent(t: Tracker, repo: string)
    ensures MarkInProgress(MarkInProgress(t, repo), repo) == MarkInProgress(t, repo)
  {
  }

  /** A later status write overrides an earlier one for the same repository. */
  lemma LastWriteWins(t: Tracker, repo: string, first: bool, second: bool)
    ensures SetStatus(SetStatus(t, repo, first).tracker, repo, second).tracker
         == SetStatus(t, repo, second).tracker
  {
  }

  /** Marking a pending repository adds one to the in-progress count and nothing else. */
  lemma MarkInProgressSummary(t: Tracker, repo: string)
    ensures var p := Summary(t);
            var q := Summary(MarkInProgress(t, repo));
            q.total == p.total && q.completedOrFailed == p.completedOrFailed
            && q.inProgress == p.inProgress + (if repo in t.statuses && t.statuses[repo].status == Pending then 1 else 0)
  {
    var u := MarkInProgress(t, repo);
    if repo in t.statuses && t.statuses[repo].status == Pending {
      assert Finished(u) == Finished(t);
      assert Running(u) == Running(t) + {repo};
    }
  }

  /**
   * Writing a result for a known repository counts it as finished (once) and
   * no longer as running.
   */
  lemma SetStatusSummary(t: Tracker, repo: string, success: bool)
    requires repo in t.statuses
    ensures var old_ := t.statuses[repo].status;
            var p := Summary(t);
            var q := Summary(SetStatus(t, repo, success).tracker);
            q.total == p.total
            && q.completedOrFailed == p.completedOrFailed + (if IsTerminal(old_) then 0 else 1)
            && q.inProgress == p.inProgress - (if old_ == InProgress then 1 else 0)
  {
    var u := SetStatus(t, repo, success).tracker;
    assert Finished(u) == Finished(t) + {repo};
    assert Running(u) == Running(t) - {repo};
    if IsTerminal(t.statuses[repo].status) {
      assert repo in Finished(t);
      assert Finished(u) == Finished(t);
    } else {
      assert repo !in Finished(t);
      assert |Finished(u)| == |Finished(t)| + 1;
    }
    if t.statuses[repo].status == InProgress {
      assert repo in Running(t);
      assert |Running(u)| == |Running(t)| - 1;
    } else {
      assert Running(u) == Running(t);
    }
  }

  /**
   * The summary after a run over distinct names that finished the first k
   * of them and left the rest pending: `(total, k, 0)`.
   */
  lemma SummaryAfterRun(t: Tracker, repos: seq<string>, k: nat)
    requires Distinct(repos) && k <= |repos|
    requires forall r :: r in t.statuses <==> r in repos
    requires forall j :: 0 <= j < k ==> IsTerminal(t.statuses[repos[j]].status)
    requires forall j :: k <= j < |repos| ==> t.statuses[repos[j]].status == Pending
    ensures Summary(t) == Progress(t.total, k, 0)
  {
    var done := set r | r in repos[..k];
    forall r | r in Finished(t) ensures r in done {
      var j :| 0 <= j < |repos| && repos[j] == r;
      assert repos[..k][j] == r;
    }
    forall r | r in done ensures r in Finished(t) {
      var j :| 0 <= j < k && repos[..k][j] == r;
      assert repos[j] == r;
    }
    assert Finished(t) == done;
    forall r | r in t.statuses ensures t.statuses[r].status != InProgress {
      var j :| 0 <= j < |repos| && repos[j] == r;
    }
    assert Running(t) == {};
    assert Distinct(repos[..k]) by {
      forall i, j | 0 <= i < j < k ensures repos[..k][i] != repos[..k][j] {
        assert repos[..k][i] == repos[i] && repos[..k][j] == repos[j];
      }
    }
    NamesCard(repos[..k]);
  }

  /**
   * The summary of a tracker whose entries are finished exactly for the
   * names in `done` and pending for the others: `(total, |done|, 0)`.
   */
  lemma SummaryOfNames(t: Tracker, done: set<string>)
    requires done <= t.statuses.Keys
    requires forall r :: r in t.statuses && r in done ==> IsTerminal(t.statuses[r].status)
    requires forall r :: r in t.statuses && r !in done ==> t.statuses[r].status == Pending
    ensures Summary(t) == Progress(t.total, |done|, 0)
  {
    assert Finished(t) == done;
    assert Running(t) == {};
  }

  /** In a list without duplicates, a name does not occur in a slice that leaves its own position out. */
  lemma DistinctOutside(repos: seq<string>, j: nat, a: nat, b: nat)
    requires Distinct(repos) && j < |repos| && a <= b <= |repos| && !(a <= j < b)
    ensures repos[j] !in repos[a..b]
  {
    forall m | 0 <= m < b - a ensures repos[a..b][m] != repos[j] {
      assert repos[a..b][m] == repos[a + m];
    }
  }
}
