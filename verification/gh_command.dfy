/**
 * The GitHub CLI commands the tool issues and how a finished `gh` call is
 * turned into output or an error (`run_gh_command`). Running the
 * subprocess is not part of this model: its outcome is an input.
 */
module GhCommand {
  import opened Wrappers
  import opened Strings

  datatype Kind = Secret | Variable
  datatype Visibility = Public | Private

  datatype Command =
    | ListItems(kind: Kind, repo: string)
    | DeleteItem(kind: Kind, name: string, repo: string)
    | SetItem(kind: Kind, name: string, repo: string, value: string)
    | ListRepos(org: string, visibility: Visibility)

  function KindWord(kind: Kind): string
  {
    match kind
    case Secret => "secret"
    case Variable => "variable"
  }

  /** The argument vector handed to the subprocess. */
  function Argv(c: Command): seq<string>
  {
    match c
    case ListItems(kind, repo) => ["gh", KindWord(kind), "list", "--repo", repo, "--json", "name"]
    case DeleteItem(kind, name, repo) => ["gh", KindWord(kind), "delete", name, "--repo", repo]
    case SetItem(kind, name, repo, value) => ["gh", KindWord(kind), "set", name, "--repo", repo, "--body", value]
    case ListRepos(org, visibility) =>
      ["gh", "repo", "list", org, "--json", "name,owner", "-L", "9999", "--visibility",
       if visibility == Public then "public" else "private"]
  }

  /**
   * How the subprocess call ended: normally, with a non-zero exit status
   * (and what it wrote to standard error, empty when nothing), without a
   * `gh` executable, or with any other exception.
   */
  datatype Exec = Exited(stdout: string, stderr: string) | ExitedWithError(stderr: string) | GhMissing | OtherFailure

  /** The exceptions a caller can catch. */
  datatype GhError = MissingValue | CommandFailed(stderr: string) | Unexpected

  /**
   * How a step that runs `gh` ends for its caller: with a value (`Next`),
   * or with the end of the program (`Halt`). A missing `gh` makes the
   * subprocess helper call `sys.exit(1)`; the `SystemExit` it raises is not
   * an `Exception`, so no handler of the program stops it and the program
   * ends with status 1.
   */
  datatype Flow<T> = Next(value: T) | Halt

  const NotFoundMarker := "HTTP 404"
  const MissingBodyMarker := "flag needs an argument: --body"

  /** Whether the joined command line mentions a deletion, the test the source applies. */
  predicate MentionsDelete(c: Command)
  {
    var line := Join(Argv(c), " ");
    Contains(line, "secret delete") || Contains(line, "variable delete")
  }

  /**
   * `run_gh_command` as written: a failed call whose stripped standard error
   * reports HTTP 404 counts as empty output whenever the joined command line
   * contains "secret delete" or "variable delete" anywhere, including inside
   * a value being set. A missing `gh` never reaches the handler for it
   * (`FileNotFoundError`): the subprocess helper has already ended the
   * program.
   */
  function RunGhAsWritten(c: Command, e: Exec): (r: Flow<Result<string, GhError>>)
    ensures r == Halt <==> e.GhMissing?
    ensures e.Exited? ==> r == Next(Ok(e.stdout))
    ensures e.ExitedWithError? ==>
              (r == Next(Ok("")) <==> Contains(Strip(e.stderr), NotFoundMarker) && MentionsDelete(c))
    ensures r.Next? && r.value.Ok? ==> e.Exited? || r.value.value == ""
    ensures e.OtherFailure? ==> r == Next(Err(Unexpected))
  {
    match e
    case Exited(out, _) => Next(Ok(out))
    case ExitedWithError(raw) =>
      var err := Strip(raw);
      if Contains(err, NotFoundMarker) && MentionsDelete(c) then Next(Ok(""))
      else if Contains(err, MissingBodyMarker) then Next(Err(MissingValue))
      else Next(Err(CommandFailed(err)))
    case GhMissing => Halt
    case OtherFailure => Next(Err(Unexpected))
  }

  /** The command line of a deletion. */
  lemma JoinedDelete(kind: Kind, name: string, repo: string)
    ensures Join(Argv(DeleteItem(kind, name, repo)), " ")
            == "gh" + " " + (KindWord(kind) + " " + ("delete" + " " + (name + " " + ("--repo" + " " + repo))))
  {
    var w := KindWord(kind);
    JoinCons("--repo", [repo], " ");
    JoinCons(name, ["--repo", repo], " ");
    JoinCons("delete", [name, "--repo", repo], " ");
    JoinCons(w, ["delete", name, "--repo", repo], " ");
    JoinCons("gh", [w, "delete", name, "--repo", repo], " ");
  }

  /** A set command whose value contains "secret delete" mentions a deletion. */
  lemma SetMentionsDelete(kind: Kind, name: string, repo: string, pre: string, post: string)
    ensures MentionsDelete(SetItem(kind, name, repo, pre + "secret delete" + post))
  {
    var value := pre + "secret delete" + post;
    ContainsInfix(pre, "secret delete", post);
    assert Argv(SetItem(kind, name, repo, value))[7] == value;
    JoinContains(Argv(SetItem(kind, name, repo, value)), " ", 7, "secret delete");
  }

  /**
   * A 404 when setting an item whose value contains "secret delete" is
   * taken for a harmless missing item: the failed set reports success,
   * where the corrected reading reports the failure.
   */
  lemma SetMisreadAsDelete(kind: Kind, name: string, repo: string, pre: string, post: string, stderr: string)
    requires Contains(Strip(stderr), NotFoundMarker)
    ensures RunGhAsWritten(SetItem(kind, name, repo, pre + "secret delete" + post), ExitedWithError(stderr)) == Next(Ok(""))
    ensures RunGh(SetItem(kind, name, repo, pre + "secret delete" + post), ExitedWithError(stderr)).Next?
    ensures RunGh(SetItem(kind, name, repo, pre + "secret delete" + post), ExitedWithError(stderr)).value.Err?
  {
    SetMentionsDelete(kind, name, repo, pre, post);
  }

  /**
   * `run_gh_command` as its comment intends: a 404 is benign only for a
   * deletion command. Otherwise as written: a 404 elsewhere, a missing
   * `--body` value and any other failure are exceptions the caller can
   * catch, and a missing `gh` ends the program.
   */
  function RunGh(c: Command, e: Exec): (r: Flow<Result<string, GhError>>)
    ensures r == Halt <==> e.GhMissing?
    ensures e.Exited? ==> r == Next(Ok(e.stdout))
    ensures e.ExitedWithError? ==>
              (r == Next(Ok("")) <==> c.DeleteItem? && Contains(Strip(e.stderr), NotFoundMarker))
    ensures e.ExitedWithError? && !(c.DeleteItem? && Contains(Strip(e.stderr), NotFoundMarker)) ==>
              (r == Next(Err(MissingValue)) <==> Contains(Strip(e.stderr), MissingBodyMarker))
    ensures r.Next? && r.value.Ok? ==> e.Exited? || r.value.value == ""
    ensures e.OtherFailure? ==> r == Next(Err(Unexpected))
  {
    match e
    case Exited(out, _) => Next(Ok(out))
    case ExitedWithError(raw) =>
      var err := Strip(raw);
      if Contains(err, NotFoundMarker) && c.DeleteItem? then Next(Ok(""))
      else if Contains(err, MissingBodyMarker) then Next(Err(MissingValue))
      else Next(Err(CommandFailed(err)))
    case GhMissing => Halt
    case OtherFailure => Next(Err(Unexpected))
  }

  /** Every deletion's command line mentions a deletion, so for deletions the two readings agree. */
  lemma DeleteMentionsDelete(kind: Kind, name: string, repo: string)
    ensures MentionsDelete(DeleteItem(kind, name, repo))
  {
    JoinedDelete(kind, name, repo);
    var w := KindWord(kind);
    var tail := " " + (name + " " + ("--repo" + " " + repo));
    assert Join(Argv(DeleteItem(kind, name, repo)), " ") == ("gh" + " ") + (w + " " + "delete") + tail;
    ContainsInfix("gh" + " ", w + " " + "delete", tail);
    assert w + " " + "delete" == "secret delete" || w + " " + "delete" == "variable delete";
  }

  /** The corrected reading differs from the written one only on non-deletions that mention a deletion. */
  lemma RunGhAgrees(c: Command, e: Exec)
    requires c.DeleteItem? || !MentionsDelete(c)
    ensures RunGh(c, e) == RunGhAsWritten(c, e)
  {
    if c.DeleteItem? {
      DeleteMentionsDelete(c.kind, c.name, c.repo);
    }
  }

  /** A 404 on a deletion is not an error: the item is already gone. */
  lemma MissingItemDeleteSucceeds(kind: Kind, name: string, repo: string, stderr: string)
    requires Contains(Strip(stderr), NotFoundMarker)
    ensures RunGh(DeleteItem(kind, name, repo), ExitedWithError(stderr)) == Next(Ok(""))
    ensures RunGhAsWritten(DeleteItem(kind, name, repo), ExitedWithError(stderr)) == Next(Ok(""))
  {
    DeleteMentionsDelete(kind, name, repo);
  }

  /** A failed call on anything but a deletion, a 404 included, stays an error the caller can catch. */
  lemma NotFoundElsewhereFails(c: Command, stderr: string)
    requires !c.DeleteItem?
    ensures RunGh(c, ExitedWithError(stderr)).Next? && RunGh(c, ExitedWithError(stderr)).value.Err?
  {
  }
}
