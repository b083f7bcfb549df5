/**
 * The per-repository plan (`process_single_repository` and its helpers)
 * and the organisation's repository list (`get_repositories_from_github`).
 * Every `gh` call's outcome is an input, and so is the JSON parser, given
 * as a function from text to the items iterating the parsed value yields
 * (None when parsing fails). A missing `gh` ends the program wherever it
 * is met (`Halt`). Log lines are not modelled.
 */
module GithubOps {
  import opened Wrappers
  import opened Strings
  import opened GhCommand
  import Dicts

  // Existing items

  /**
   * One item of a parsed `--json name` listing as the name comprehension
   * sees it: an object with a `name` field; an item for which `'name' in
   * item` is false (an object without the field, or a string or array not
   * containing "name"); or an item on which the comprehension raises
   * `TypeError` (a number, a boolean, null, or a string or array that
   * contains "name").
   */
  datatype ListEntry = Named(name: string) | Unnamed | Unsupported

  type ListParser = string -> Option<seq<ListEntry>>

  /** The item type argument: only "secret" and "variable" are known. */
  function ItemKind(itemType: string): Option<Kind>
  {
    if itemType == "secret" then Some(Secret)
    else if itemType == "variable" then Some(Variable)
    else None
  }

  function EntryNames(entries: seq<ListEntry>): (r: set<string>)
    ensures forall n :: n in r <==> Named(n) in entries
  {
    set e | e in entries && e.Named? :: e.name
  }

  /**
   * The names of a repository's existing items: none for an unknown item
   * type, a failed call, empty output, unparsable output or an item the
   * comprehension raises on (the handler returns an empty set); otherwise
   * the names of the named items. A missing `gh` ends the program.
   */
  function ExistingItems(itemType: string, repo: string, listed: Exec, parse: ListParser): (r: Flow<set<string>>)
    ensures r == Halt <==> ItemKind(itemType).Some? && listed.GhMissing?
    ensures ItemKind(itemType).None? ==> r == Next({})
    ensures ItemKind(itemType).Some? && !listed.GhMissing? ==>
              var out := RunGh(ListItems(ItemKind(itemType).value, repo), listed).value;
              && (out.Err? || out.value == "" || parse(out.value).None? ==> r == Next({}))
              && (out.Ok? && out.value != "" && parse(out.value).Some? ==>
                    var entries := parse(out.value).value;
                    && (Unsupported in entries ==> r == Next({}))
                    && (Unsupported !in entries ==> r.Next? && forall n :: n in r.value <==> Named(n) in entries))
  {
    match ItemKind(itemType)
    case None => Next({})
    case Some(kind) =>
      match RunGh(ListItems(kind, repo), listed)
      case Halt => Halt
      case Next(Err(_)) => Next({})
      case Next(Ok(out)) =>
        if out == "" then Next({})
        else match parse(out)
          case None => Next({})
          case Some(entries) => if Unsupported in entries then Next({}) else Next(EntryNames(entries))
  }

  /** The outcomes of one fetch: the secret listing and the variable listing. */
  datatype Fetch = Fetch(secrets: Exec, variables: Exec)

  // One item

  /** What the plan did for one item. */
  datatype Action =
    | Deleted(kind: Kind, name: string, ok: bool)
    | Wrote(kind: Kind, name: string, value: string, ok: bool)
    | Skipped(kind: Kind, name: string)

  /** Whether the helper returned True: a skip counts as success. */
  predicate Succeeded(a: Action)
  {
    a.Skipped? || a.ok
  }

  /** The command an action issued, if any. */
  function Issued(a: Action, repo: string): Option<Command>
  {
    match a
    case Deleted(kind, name, _) => Some(DeleteItem(kind, name, repo))
    case Wrote(kind, name, value, _) => Some(SetItem(kind, name, repo, value))
    case Skipped(_, _) => None
  }

  /** The outcome of every delete or set command. Each is issued at most once per repository. */
  type Calls = Command -> Exec

  /**
   * `delete_github_secret` / `delete_github_variable`: success exactly when
   * the call raised nothing; a missing `gh` ends the program.
   */
  function DeleteOne(kind: Kind, repo: string, name: string, calls: Calls): (s: Flow<Action>)
    ensures s == Halt <==> calls(DeleteItem(kind, name, repo)).GhMissing?
    ensures s.Next? ==> s.value.Deleted? && s.value.kind == kind && s.value.name == name
    ensures s.Next? ==> Issued(s.value, repo) == Some(DeleteItem(kind, name, repo))
    ensures s.Next? ==> (s.value.ok <==> RunGh(DeleteItem(kind, name, repo), calls(DeleteItem(kind, name, repo))).value.Ok?)
  {
    var c := DeleteItem(kind, name, repo);
    match RunGh(c, calls(c))
    case Halt => Halt
    case Next(res) => Next(Deleted(kind, name, res.Ok?))
  }

  /**
   * `set_github_secret` / `set_github_variable`: without `force` an item
   * already present is skipped (values are never compared) and no command
   * is issued; otherwise the set command is issued and succeeds exactly
   * when it raised nothing, and a missing `gh` ends the program.
   */
  function SetOne(kind: Kind, repo: string, name: string, value: string, force: bool, existing: set<string>, calls: Calls): (s: Flow<Action>)
    ensures s == Halt <==> !(!force && name in existing) && calls(SetItem(kind, name, repo, value)).GhMissing?
    ensures s.Next? ==> s.value.kind == kind && s.value.name == name && !s.value.Deleted?
    ensures s.Next? ==> (s.value.Skipped? <==> !force && name in existing)
    ensures s.Next? && s.value.Wrote? ==>
              && s.value.value == value
              && (s.value.ok <==> RunGh(SetItem(kind, name, repo, value), calls(SetItem(kind, name, repo, value))).value.Ok?)
  {
    if !force && name in existing then Next(Skipped(kind, name))
    else
      var c := SetItem(kind, name, repo, value);
      match RunGh(c, calls(c))
      case Halt => Halt
      case Next(res) => Next(Wrote(kind, name, value, res.Ok?))
  }

  // One repository

  /** What to do to every repository. */
  datatype Request = Request(
    deleteSecrets: seq<string>,
    deleteVariables: seq<string>,
    secretsToSet: Dicts.Pairs,
    variablesToSet: Dicts.Pairs,
    force: bool)

  /** The actions in the order they happened: secret deletes, variable deletes, secret sets, variable sets. */
  datatype Report = Report(
    secretDeletes: seq<Action>,
    variableDeletes: seq<Action>,
    secretSets: seq<Action>,
    variableSets: seq<Action>,
    success: bool)

  function Actions(r: Report): seq<Action>
  {
    r.secretDeletes + r.variableDeletes + r.secretSets + r.variableSets
  }

  /** The items the actions name. */
  function Names(acts: seq<Action>): (r: set<string>)
    ensures forall i :: 0 <= i < |acts| ==> acts[i].name in r
    ensures forall x :: x in r ==> exists i :: 0 <= i < |acts| && acts[i].name == x
  {
    if |acts| == 0 then {}
    else
      var init := acts[..|acts| - 1];
      assert forall i :: 0 <= i < |init| ==> init[i] == acts[i];
      Names(init) + {acts[|acts| - 1].name}
  }

  /** No two actions name the same item. */
  predicate DistinctNames(acts: seq<Action>)
  {
    forall i, j :: 0 <= i < j < |acts| ==> acts[i].name != acts[j].name
  }

  /** The items a delete list asks for that the fetch found, as `set(requested).intersection(existing)`. */
  function DeleteTargets(requested: seq<string>, existing: set<string>): (t: set<string>)
    ensures forall n :: n in t <==> n in requested && n in existing
  {
    set n | n in requested && n in existing
  }

  /** Whether deleting the targets meets a missing `gh`: some target's delete command does. */
  predicate DeletesHalt(kind: Kind, repo: string, targets: set<string>, calls: Calls)
  {
    exists n :: n in targets && calls(DeleteItem(kind, n, repo)).GhMissing?
  }

  /** Whether setting the items meets a missing `gh`: some item that is not skipped has its set command do so. */
  predicate SetsHalt(kind: Kind, repo: string, items: Dicts.Pairs, force: bool, existing: set<string>, calls: Calls)
  {
    exists i :: 0 <= i < |items| && !(!force && items[i].0 in existing) && calls(SetItem(kind, items[i].0, repo, items[i].1)).GhMissing?
  }

  /**
   * Deletes every target once, in whatever order the set yields them; a
   * failed delete does not stop the others, a missing `gh` ends the program.
   */
  method DeleteEach(kind: Kind, repo: string, targets: set<string>, calls: Calls) returns (r: Flow<seq<Action>>)
    ensures r == Halt <==> DeletesHalt(kind, repo, targets, calls)
    ensures r.Next? ==> |r.value| == |targets| && Names(r.value) == targets && DistinctNames(r.value)
    ensures r.Next? ==> forall i :: 0 <= i < |r.value| ==> DeleteOne(kind, repo, r.value[i].name, calls) == Next(r.value[i])
  {
    var acts: seq<Action> := [];
    var rest := targets;
    while rest != {}
      invariant rest <= targets
      invariant |acts| + |rest| == |targets|
      invariant Names(acts) == targets - rest
      invariant DistinctNames(acts)
      invariant forall i :: 0 <= i < |acts| ==> DeleteOne(kind, repo, acts[i].name, calls) == Next(acts[i])
      invariant forall n :: n in targets && n !in rest ==> !calls(DeleteItem(kind, n, repo)).GhMissing?
      decreases |rest|
    {
      var n :| n in rest;
      var s := DeleteOne(kind, repo, n, calls);
      if s == Halt {
        return Halt;
      }
      DeleteStep(targets, acts, rest, s.value);
      assert |rest - {n}| == |rest| - 1;
      acts := acts + [s.value];
      rest := rest - {n};
    }
    r := Next(acts);
  }

  /** Deleting one more target keeps the loop's invariant. */
  lemma DeleteStep(targets: set<string>, acts: seq<Action>, rest: set<string>, a: Action)
    requires a.name in rest && rest <= targets
    requires Names(acts) == targets - rest && DistinctNames(acts)
    ensures Names(acts + [a]) == targets - (rest - {a.name}) && DistinctNames(acts + [a])
  {
    assert (acts + [a])[..|acts|] == acts;
  }

  /**
   * Sets every requested item in the dictionary's order, each judged
   * against `existing`; a missing `gh` ends the program.
   */
  method SetEach(kind: Kind, repo: string, items: Dicts.Pairs, force: bool, existing: set<string>, calls: Calls)
    returns (r: Flow<seq<Action>>)
    ensures r == Halt <==> SetsHalt(kind, repo, items, force, existing, calls)
    ensures r.Next? ==> |r.value| == |items|
    ensures r.Next? ==> forall i :: 0 <= i < |items| ==> SetOne(kind, repo, items[i].0, items[i].1, force, existing, calls) == Next(r.value[i])
  {
    var acts: seq<Action> := [];
    var i := 0;
    while i < |items|
      invariant i <= |items| && |acts| == i
      invariant forall j :: 0 <= j < i ==> SetOne(kind, repo, items[j].0, items[j].1, force, existing, calls) == Next(acts[j])
    {
      var s := SetOne(kind, repo, items[i].0, items[i].1, force, existing, calls);
      if s == Halt {
        return Halt;
      }
      acts := acts + [s.value];
      i := i + 1;
    }
    r := Next(acts);
  }

  /**
   * Whether the delete half of a repository's plan meets a missing `gh`:
   * in the first fetch, or in a delete that fetch calls for. Failures do not
   * stop the plan, so each of these commands is issued unless an earlier
   * one ended the program.
   */
  predicate DeletesPlanHalts(repo: string, req: Request, first: Fetch, parse: ListParser, calls: Calls)
  {
    || first.secrets.GhMissing? || first.variables.GhMissing?
    || DeletesHalt(Secret, repo, DeleteTargets(req.deleteSecrets, ExistingItems("secret", repo, first.secrets, parse).value), calls)
    || DeletesHalt(Variable, repo, DeleteTargets(req.deleteVariables, ExistingItems("variable", repo, first.variables, parse).value), calls)
  }

  /** Whether the set half of a repository's plan meets a missing `gh`: in the second fetch, or in a set that is not skipped. */
  predicate SetsPlanHalts(repo: string, req: Request, second: Fetch, parse: ListParser, calls: Calls)
  {
    || second.secrets.GhMissing? || second.variables.GhMissing?
    || SetsHalt(Secret, repo, req.secretsToSet, req.force, ExistingItems("secret", repo, second.secrets, parse).value, calls)
    || SetsHalt(Variable, repo, req.variablesToSet, req.force, ExistingItems("variable", repo, second.variables, parse).value, calls)
  }

  /** Whether a repository's plan meets a missing `gh` anywhere. */
  predicate PlanHalts(repo: string, req: Request, first: Fetch, second: Fetch, parse: ListParser, calls: Calls)
  {
    DeletesPlanHalts(repo, req, first, parse, calls) || SetsPlanHalts(repo, req, second, parse, calls)
  }

  /** The delete half: fetch the existing items, then delete the requested ones that exist, secrets before variables. */
  method DeletePhase(repo: string, req: Request, first: Fetch, parse: ListParser, calls: Calls)
    returns (r: Flow<(seq<Action>, seq<Action>)>)
    ensures r == Halt <==> DeletesPlanHalts(repo, req, first, parse, calls)
    ensures r.Next? ==>
              var secrets := ExistingItems("secret", repo, first.secrets, parse).value;
              var variables := ExistingItems("variable", repo, first.variables, parse).value;
              && Names(r.value.0) == DeleteTargets(req.deleteSecrets, secrets)
              && Names(r.value.1) == DeleteTargets(req.deleteVariables, variables)
              && DistinctNames(r.value.0) && DistinctNames(r.value.1)
              && (forall i :: 0 <= i < |r.value.0| ==> DeleteOne(Secret, repo, r.value.0[i].name, calls) == Next(r.value.0[i]))
              && (forall i :: 0 <= i < |r.value.1| ==> DeleteOne(Variable, repo, r.value.1[i].name, calls) == Next(r.value.1[i]))
  {
    var fetched := ExistingItems("secret", repo, first.secrets, parse);
    if fetched == Halt {
      return Halt;
    }
    var secrets := fetched.value;
    fetched := ExistingItems("variable", repo, first.variables, parse);
    if fetched == Halt {
      return Halt;
    }
    var variables := fetched.value;
    var secretDeletes: seq<Action> := [];
    if |req.deleteSecrets| > 0 {
      var done := DeleteEach(Secret, repo, DeleteTargets(req.deleteSecrets, secrets), calls);
      if done == Halt {
        return Halt;
      }
      secretDeletes := done.value;
    }
    var variableDeletes: seq<Action> := [];
    if |req.deleteVariables| > 0 {
      var done := DeleteEach(Variable, repo, DeleteTargets(req.deleteVariables, variables), calls);
      if done == Halt {
        return Halt;
      }
      variableDeletes := done.value;
    }
    r := Next((secretDeletes, variableDeletes));
  }

  /** The set half: fetch again, then set the requested items, secrets before variables, against that fetch. */
  method SetPhase(repo: string, req: Request, second: Fetch, parse: ListParser, calls: Calls)
    returns (r: Flow<(seq<Action>, seq<Action>)>)
    ensures r == Halt <==> SetsPlanHalts(repo, req, second, parse, calls)
    ensures r.Next? ==>
              var secrets := ExistingItems("secret", repo, second.secrets, parse).value;
              var variables := ExistingItems("variable", repo, second.variables, parse).value;
              && |r.value.0| == |req.secretsToSet| && |r.value.1| == |req.variablesToSet|
              && (forall i :: 0 <= i < |req.secretsToSet| ==>
                    SetOne(Secret, repo, req.secretsToSet[i].0, req.secretsToSet[i].1, req.force, secrets, calls) == Next(r.value.0[i]))
              && (forall i :: 0 <= i < |req.variablesToSet| ==>
                    SetOne(Variable, repo, req.variablesToSet[i].0, req.variablesToSet[i].1, req.force, variables, calls) == Next(r.value.1[i]))
  {
    var fetched := ExistingItems("secret", repo, second.secrets, parse);
    if fetched == Halt {
      return Halt;
    }
    var secrets := fetched.value;
    fetched := ExistingItems("variable", repo, second.variables, parse);
    if fetched == Halt {
      return Halt;
    }
    var variables := fetched.value;
    var sets := SetEach(Secret, repo, req.secretsToSet, req.force, secrets, calls);
    if sets == Halt {
      return Halt;
    }
    var secretSets := sets.value;
    sets := SetEach(Variable, repo, req.variablesToSet, req.force, variables, calls);
    if sets == Halt {
      return Halt;
    }
    r := Next((secretSets, sets.value));
  }

  /**
   * One repository: fetch the existing items, delete the requested ones
   * that exist (secrets, then variables), fetch again, then set the
   * requested ones (secrets, then variables) against the second fetch. The
   * repository succeeds exactly when every helper did; a missing `gh`
   * anywhere in the plan ends the program instead.
   */
  method ProcessRepository(repo: string, req: Request, first: Fetch, second: Fetch, parse: ListParser, calls: Calls)
    returns (r: Flow<Report>)
    ensures r == Halt <==> PlanHalts(repo, req, first, second, parse, calls)
    ensures r.Next? ==>
              var secrets := ExistingItems("secret", repo, first.secrets, parse).value;
              var variables := ExistingItems("variable", repo, first.variables, parse).value;
              && Names(r.value.secretDeletes) == DeleteTargets(req.deleteSecrets, secrets)
              && Names(r.value.variableDeletes) == DeleteTargets(req.deleteVariables, variables)
    ensures r.Next? ==> DistinctNames(r.value.secretDeletes) && DistinctNames(r.value.variableDeletes)
    ensures r.Next? ==> forall a :: a in r.value.secretDeletes ==> DeleteOne(Secret, repo, a.name, calls) == Next(a)
    ensures r.Next? ==> forall a :: a in r.value.variableDeletes ==> DeleteOne(Variable, repo, a.name, calls) == Next(a)
    ensures r.Next? ==>
              var secrets := ExistingItems("secret", repo, second.secrets, parse).value;
              var variables := ExistingItems("variable", repo, second.variables, parse).value;
              && |r.value.secretSets| == |req.secretsToSet| && |r.value.variableSets| == |req.variablesToSet|
              && (forall i :: 0 <= i < |req.secretsToSet| ==>
                    SetOne(Secret, repo, req.secretsToSet[i].0, req.secretsToSet[i].1, req.force, secrets, calls) == Next(r.value.secretSets[i]))
              && (forall i :: 0 <= i < |req.variablesToSet| ==>
                    SetOne(Variable, repo, req.variablesToSet[i].0, req.variablesToSet[i].1, req.force, variables, calls) == Next(r.value.variableSets[i]))
    ensures r.Next? ==> (r.value.success <==> forall a :: a in Actions(r.value) ==> Succeeded(a))
  {
    var deletes := DeletePhase(repo, req, first, parse, calls);
    if deletes == Halt {
      return Halt;
    }
    var sets := SetPhase(repo, req, second, parse, calls);
    if sets == Halt {
      return Halt;
    }
    var secretDeletes, variableDeletes := deletes.value.0, deletes.value.1;
    var all := secretDeletes + variableDeletes + sets.value.0 + sets.value.1;
    var success := AllSucceeded(all);
    r := Next(Report(secretDeletes, variableDeletes, sets.value.0, sets.value.1, success));
    forall a | a in secretDeletes ensures DeleteOne(Secret, repo, a.name, calls) == Next(a) {
      var i :| 0 <= i < |secretDeletes| && secretDeletes[i] == a;
    }
    forall a | a in variableDeletes ensures DeleteOne(Variable, repo, a.name, calls) == Next(a) {
      var i :| 0 <= i < |variableDeletes| && variableDeletes[i] == a;
    }
  }

  /** Folds the helpers' results into one flag, as the `overall_success` updates do. */
  method AllSucceeded(acts: seq<Action>) returns (ok: bool)
    ensures ok <==> forall a :: a in acts ==> Succeeded(a)
  {
    ok := true;
    var i := 0;
    while i < |acts|
      invariant i <= |acts|
      invariant ok <==> forall j :: 0 <= j < i ==> Succeeded(acts[j])
    {
      if !Succeeded(acts[i]) {
        ok := false;
      }
      i := i + 1;
    }
  }

  /** No delete is issued when nothing is requested, and none for an item the first fetch did not find. */
  lemma NoNeedlessDeletes(req: Request, existing: set<string>, n: string)
    ensures DeleteTargets([], existing) == {}
    ensures n !in existing ==> n !in DeleteTargets(req.deleteSecrets, existing)
  {
  }

  // The organisation's repositories

  /**
   * One item of a parsed repository listing: the owner's login and the
   * name, each None when reading it raises (a missing key, or an item that
   * is not an object).
   */
  datatype RepoEntry = RepoEntry(owner: Option<string>, name: Option<string>)

  type RepoParser = string -> Option<seq<RepoEntry>>

  /** Whether both fields of an item can be read. */
  predicate Complete(e: RepoEntry)
  {
    e.owner.Some? && e.name.Some?
  }

  /** The number of items before the first one that cannot be read. */
  function CompletePrefix(entries: seq<RepoEntry>): (n: nat)
    ensures n <= |entries|
    ensures forall j :: 0 <= j < n ==> Complete(entries[j])
    ensures n < |entries| ==> !Complete(entries[n])
  {
    if |entries| == 0 || !Complete(entries[0]) then 0
    else
      assert forall j :: 1 <= j < |entries| ==> entries[1..][j - 1] == entries[j];
      1 + CompletePrefix(entries[1..])
  }

  /**
   * The `owner/name` strings of a listing. An item missing either field
   * raises, and the exception ends the listing, so exactly the items before
   * the first incomplete one count.
   */
  function ListedNames(entries: seq<RepoEntry>): (r: set<string>)
    ensures forall i :: 0 <= i < |entries| && Complete(entries[i]) && (forall j :: 0 <= j < i ==> Complete(entries[j]))
              ==> entries[i].owner.value + "/" + entries[i].name.value in r
    ensures forall x :: x in r ==>
              exists i :: 0 <= i < |entries| && Complete(entries[i]) && (forall j :: 0 <= j < i ==> Complete(entries[j]))
                          && x == entries[i].owner.value + "/" + entries[i].name.value
  {
    var n := CompletePrefix(entries);
    set i | 0 <= i < n :: entries[i].owner.value + "/" + entries[i].name.value
  }

  /**
   * One visibility's repositories: none when the call fails or its output
   * is empty or unparsable, otherwise the listed names; a missing `gh` ends
   * the program.
   */
  function ListingNames(org: string, visibility: Visibility, exec: Exec, parse: RepoParser): (r: Flow<set<string>>)
    ensures r == Halt <==> exec.GhMissing?
    ensures !exec.GhMissing? ==>
              var out := RunGh(ListRepos(org, visibility), exec).value;
              && (out.Err? || out.value == "" || parse(out.value).None? ==> r == Next({}))
              && (out.Ok? && out.value != "" && parse(out.value).Some? ==> r == Next(ListedNames(parse(out.value).value)))
  {
    match RunGh(ListRepos(org, visibility), exec)
    case Halt => Halt
    case Next(Err(_)) => Next({})
    case Next(Ok(out)) =>
      if out == "" then Next({})
      else match parse(out)
        case None => Next({})
        case Some(entries) => Next(ListedNames(entries))
  }

  /** Strictly increasing in Python's string order, hence without duplicates. */
  predicate StrictlySorted(xs: seq<string>)
  {
    forall i, j :: 0 <= i < j < |xs| ==> Less(xs[i], xs[j])
  }

  /** Inserts a new name into a sorted list at its place. */
  function Insert(xs: seq<string>, x: string): (r: seq<string>)
    requires StrictlySorted(xs) && x !in xs
    ensures StrictlySorted(r) && |r| == |xs| + 1
    ensures forall y :: y in r <==> y in xs || y == x
  {
    if |xs| == 0 then [x]
    else if Less(x, xs[0]) then
      assert forall j :: 0 <= j < |xs| ==> Less(x, xs[j]) by {
        forall j | 0 <= j < |xs| ensures Less(x, xs[j]) {
          if j > 0 { LessTransitive(x, xs[0], xs[j]); }
        }
      }
      [x] + xs
    else
      LessTotal(x, xs[0]);
      var tail := Insert(xs[1..], x);
      assert forall y :: y in tail ==> Less(xs[0], y);
      [xs[0]] + tail
  }

  /** `sorted(names)`: the set's members in increasing order, whatever order they are taken in. */
  method SortedNames(names: set<string>) returns (r: seq<string>)
    ensures StrictlySorted(r) && |r| == |names|
    ensures forall x :: x in r <==> x in names
  {
    r := [];
    var rest := names;
    while rest != {}
      invariant rest <= names
      invariant StrictlySorted(r) && |r| + |rest| == |names|
      invariant forall x :: x in r <==> x in names && x !in rest
      decreases |rest|
    {
      var x :| x in rest;
      r := Insert(r, x);
      rest := rest - {x};
    }
  }

  /** Two sorted lists with the same members are the same list: the sorted result does not depend on the order of the set. */
  lemma {:induction false} SortedUnique(a: seq<string>, b: seq<string>)
    requires StrictlySorted(a) && StrictlySorted(b)
    requires forall x :: x in a <==> x in b
    ensures a == b
  {
    if |a| > 0 { assert a[0] in b; }
    if |b| > 0 { assert b[0] in a; }
    if |a| > 0 && |b| > 0 {
      assert a[0] == b[0] by {
        assert a[0] in b && b[0] in a;
        var i :| 0 <= i < |b| && b[i] == a[0];
        var j :| 0 <= j < |a| && a[j] == b[0];
        if i > 0 && j > 0 {
          LessAsymmetric(b[0], a[0]);
        } else if i > 0 {
          LessIrreflexive(a[0]);
        }
      }
      forall x | x in a[1..] ensures x in b[1..] {
        var i :| 1 <= i < |a| && a[i] == x;
        assert x in a;
        var j :| 0 <= j < |b| && b[j] == x;
        if j == 0 { LessIrreflexive(x); }
        assert b[1..][j - 1] == x;
      }
      forall x | x in b[1..] ensures x in a[1..] {
        var j :| 1 <= j < |b| && b[j] == x;
        assert x in b;
        var i :| 0 <= i < |a| && a[i] == x;
        if i == 0 { LessIrreflexive(x); }
        assert a[1..][i - 1] == x;
      }
      SortedUnique(a[1..], b[1..]);
    }
  }

  /**
   * The organisation's repositories: the sorted, duplicate-free union of
   * the public and the private listing; a failed listing adds nothing and
   * does not prevent the other, and a missing `gh` ends the program.
   */
  method RepositoriesFromGithub(org: string, public: Exec, private: Exec, parse: RepoParser) returns (r: Flow<seq<string>>)
    ensures r == Halt <==> public.GhMissing? || private.GhMissing?
    ensures r.Next? ==> StrictlySorted(r.value)
    ensures r.Next? ==> forall x :: x in r.value <==>
              x in ListingNames(org, Public, public, parse).value || x in ListingNames(org, Private, private, parse).value
  {
    var publicNames := ListingNames(org, Public, public, parse);
    if publicNames == Halt {
      return Halt;
    }
    var privateNames := ListingNames(org, Private, private, parse);
    if privateNames == Halt {
      return Halt;
    }
    var repos := SortedNames(publicNames.value + privateNames.value);
    r := Next(repos);
  }
}
