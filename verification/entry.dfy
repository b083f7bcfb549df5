/**
 * The entry point's choice of target repositories: the lines of a target
 * file (kept and stripped like a list file, each prefixed with the
 * organisation unless it already names an owner), or else the
 * organisation's listing; an unreadable target file, or a listing that
 * finds no `gh`, exits with status 1 and an empty list exits with status 0
 * before anything is processed.
 */
module Entry {
  import opened Wrappers
  import opened Strings
  import opened GhCommand
  import LineParsers
  import GithubOps

  /** An entry that already names an owner (it holds a `/`) is kept; any other is prefixed with the organisation and a `/`. */
  function NormalizeTarget(org: string, r: string): (t: string)
    ensures '/' in t
    ensures '/' in r ==> t == r
    ensures '/' !in r ==> |t| == |org| + 1 + |r| && t[|org|] == '/' && t[..|org|] == org && t[|org| + 1..] == r
  {
    if '/' in r then r else org + "/" + r
  }

  /** A normalized name is left alone by a second normalization. */
  lemma NormalizeIdempotent(org: string, r: string)
    ensures NormalizeTarget(org, NormalizeTarget(org, r)) == NormalizeTarget(org, r)
  {
  }

  /**
   * With an organisation without `/`, the owner and the name can be read
   * back from a prefixed entry: the first `/` sits right after the
   * organisation and the entry follows it.
   */
  lemma NormalizeSplits(org: string, r: string)
    requires '/' !in org && '/' !in r
    ensures var t := NormalizeTarget(org, r);
            IndexOf(t, '/') == Some(|org|) && t[..|org|] == org && t[|org| + 1..] == r
  {
    var t := NormalizeTarget(org, r);
    assert t[..|org|] == org;
    IndexOfFirst(t, '/', |org|);
  }

  /** The target repositories named by the lines of a target file, in file order. */
  function TargetRepositories(org: string, lines: seq<string>): (r: seq<string>)
    ensures |r| == |LineParsers.ListLines(lines)|
    ensures forall i :: 0 <= i < |r| ==> r[i] == NormalizeTarget(org, LineParsers.ListLines(lines)[i])
  {
    var kept := LineParsers.ListLines(lines);
    seq(|kept|, i requires 0 <= i < |kept| => NormalizeTarget(org, kept[i]))
  }

  /** One line gives one target when the list filter keeps it, and none otherwise. */
  lemma TargetOfLine(org: string, raw: string)
    ensures TargetRepositories(org, [raw])
            == if LineParsers.KeepListLine(raw) then [NormalizeTarget(org, Strip(raw))] else []
  {
    var one: seq<string> := [raw];
    assert one[1..] == [];
  }

  /** Lines are handled one by one: targets keep the file's order and multiplicity. */
  lemma TargetsAppend(org: string, a: seq<string>, b: seq<string>)
    ensures TargetRepositories(org, a + b) == TargetRepositories(org, a) + TargetRepositories(org, b)
  {
    LineParsers.ListLinesAppend(a, b);
  }

  /** Every kept line of the file yields its target. */
  lemma TargetsComplete(org: string, lines: seq<string>, i: nat)
    requires i < |lines| && LineParsers.KeepListLine(lines[i])
    ensures NormalizeTarget(org, Strip(lines[i])) in TargetRepositories(org, lines)
  {
    LineParsers.ListLinesComplete(lines, i);
    var kept := LineParsers.ListLines(lines);
    var k :| 0 <= k < |kept| && kept[k] == Strip(lines[i]);
    assert TargetRepositories(org, lines)[k] == NormalizeTarget(org, kept[k]);
  }

  /** Every target comes from a kept line of the file, and names an owner. */
  lemma TargetsSound(org: string, lines: seq<string>)
    ensures forall x :: x in TargetRepositories(org, lines) ==>
              '/' in x && exists i :: 0 <= i < |lines| && LineParsers.KeepListLine(lines[i]) && x == NormalizeTarget(org, Strip(lines[i]))
  {
    LineParsers.ListLinesSound(lines);
    var kept := LineParsers.ListLines(lines);
    forall x | x in TargetRepositories(org, lines)
      ensures exists i :: 0 <= i < |lines| && LineParsers.KeepListLine(lines[i]) && x == NormalizeTarget(org, Strip(lines[i]))
    {
      var k :| 0 <= k < |kept| && TargetRepositories(org, lines)[k] == x;
      assert kept[k] in kept;
    }
  }

  /** The `--tr` option: absent, or a file whose lines were read (None when reading raised). */
  datatype TargetOption = NoTargetFile | TargetFile(read: Option<seq<string>>)

  /** What the entry point does next. */
  datatype Choice = Exit(code: nat) | Proceed(repos: seq<string>)

  /**
   * The repositories to process: from the target file when one is given
   * (an unreadable file exits with status 1), otherwise from the
   * organisation's public and private listings (a missing `gh` in either
   * ends the program with status 1); an empty result exits with status 0.
   */
  method ChooseRepositories(org: string, tr: TargetOption, public: Exec, private: Exec, parse: GithubOps.RepoParser)
    returns (c: Choice)
    ensures c.Exit? ==> c.code == 0 || c.code == 1
    ensures c == Exit(1) <==> (tr.TargetFile? && tr.read.None?) || (tr.NoTargetFile? && (public.GhMissing? || private.GhMissing?))
    ensures c.Proceed? ==> c.repos != []
    ensures tr.TargetFile? && tr.read.Some? ==>
              var targets := TargetRepositories(org, tr.read.value);
              (c == Exit(0) <==> targets == []) && (c.Proceed? ==> c.repos == targets)
    ensures tr.NoTargetFile? && !public.GhMissing? && !private.GhMissing? ==>
              var listed := GithubOps.ListingNames(org, Public, public, parse).value + GithubOps.ListingNames(org, Private, private, parse).value;
              && (c == Exit(0) <==> listed == {})
              && (c.Proceed? ==> GithubOps.StrictlySorted(c.repos) && forall x :: x in c.repos <==> x in listed)
  {
    var repos: seq<string>;
    match tr {
      case TargetFile(read) =>
        if read.None? {
          return Exit(1);
        }
        repos := TargetRepositories(org, read.value);
      case NoTargetFile =>
        var fetched := GithubOps.RepositoriesFromGithub(org, public, private, parse);
        if fetched == Halt {
          return Exit(1);
        }
        repos := fetched.value;
        var listed := GithubOps.ListingNames(org, Public, public, parse).value + GithubOps.ListingNames(org, Private, private, parse).value;
        if repos == [] {
          assert forall x :: x !in listed;
        } else {
          assert repos[0] in listed;
        }
    }
    if repos == [] {
      return Exit(0);
    }
    c := Proceed(repos);
  }
}
