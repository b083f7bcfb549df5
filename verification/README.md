# GitHub secrets and variables automation — a Dafny model

This project models the core of a command-line tool. The tool sets and deletes GitHub Actions secrets and variables across the repositories of an organisation, by driving the `gh` CLI. The model covers:

- **the run configuration** (`core/configs.py`): the two bounds its constructor checks;
- **the grouped log collector** (`utils/logs.py`): per-repository buffers of messages, printed in order when a repository is done;
- **the repository status tracker and the scheduler** (`core/main_processor.py`):
  - the status tracker is a map from repository to success flag and stage, with the progress summary;
  - the sequential loop;
  - the pooled run, with its workers, submission loop and completion-order handling;
- **one repository's plan** (`core/github_operations.py`):
  - list the existing items, delete the requested ones that exist, list again, then set the requested ones (skipping existing ones unless forced);
  - the classification of a failed `gh` call;
  - the organisation's sorted repository list;
- **the two file readers** (`utils/utils.py`): `KEY=VALUE` settings files and one-item-per-line list files;
- **the entry point's choice of target repositories** (`main.py`).

Nothing is executed. Everything the program gets from outside enters the model as a parameter:

- what a `gh` call printed or raised;
- what the JSON parser returned;
- the lines of a file;
- whether the stop flag was set at each place it is read;
- the clock, as the elapsed-seconds text of the two timing lines;
- in pooled mode, the interleaving of the threads (a schedule).

Modules, one per file:

- `Wrappers`: `Option` and `Result`.
- `Seqs`: three sequence facts.
- `Strings`: Python's `isspace`/`strip`/`startswith`/`in`/`join` and string order.
- `Dicts`: Python's insertion-ordered `dict`.
- `Configs`.
- `Logs`.
- `Status`.
- `Dispatch`: what both modes do around one repository.
- `Sequential`.
- `Pooled`.
- `MainProcessor`.
- `GhCommand`.
- `GithubOps`.
- `LineParsers`.
- `Entry`.

Three readings of the code are worth knowing:

- The help text of the `--force` option describes the option the other way round. The model follows the code (`core/github_operations.py:159`): without `--force`, an item that already exists is skipped.
- The tracker is initialized from the list with a dict comprehension, so a repeated name keeps one entry. Its count is still the list's length (`Status.InitializeSummary`). A repeated name is processed once per occurrence. The sequential whole-run lemmas cover repeated names: a name ends with the result of its last processed position, and the summary counts distinct names. The pooled whole-run lemmas assume distinct names (see "Left out").
- A missing `gh` makes the subprocess helper call `sys.exit(1)` (`utils/utils.py:160-162`). `SystemExit` is not an `Exception`, so none of the `except Exception` handlers catches it, and the program ends with status 1. The `FileNotFoundError` handler of `run_gh_command` (`core/github_operations.py:119-121`) is never reached. In the model, a `gh` call that finds no `gh` is `Flow.Halt`, and every operation that makes such a call halts with it.

## Model

| member | source | states |
|---|---|---|
| Configs.NewConfig | core/configs.py:39-46 | a configuration is built exactly when max_workers is at least 1 and sleep_after_repo is not negative; every field is kept as given; when both bounds fail, the worker bound is the error reported |
| Configs.Defaults | core/configs.py:10-26 | the all-defaults configuration passes the constructor's check: one worker, no pause, no force, no organisation, empty lists and dictionaries |
| Logs.Get | utils/logs.py:60-71 | a group that was never initialized has no messages; a known group returns its buffer |
| Logs.Initialize | utils/logs.py:10-23 | afterwards the groups are exactly the given names, each empty, whatever groups existed before; nothing is printed |
| Logs.Add | utils/logs.py:26-58 | a stored message for a known group is appended to that group only; for an unknown group nothing is stored and a warning naming the group is printed; a global or unstored message is printed (as a prompt when asked) and storage is untouched |
| Logs.Clear | utils/logs.py:74-86 | a known group is emptied and nothing else changes; clearing an unknown group only prints a warning |
| Logs.AddAll | utils/logs.py:46-52 | storing a batch appends it to a known group in order and prints nothing; for an unknown group it stores nothing and warns once per message |
| Logs.PrintAll | utils/logs.py:53-58 | printing a batch writes one line per message in order and leaves storage untouched |
| Logs.AddEachIsAddAll | utils/logs.py:26-58 | calling add once per message has exactly the effect of the batch store, in groups and in output |
| Logs.PrintEachIsPrintAll | utils/logs.py:26-58 | printing messages one at a time has exactly the effect of the batch print |
| Logs.StoresCommute | utils/logs.py:46-52 | messages stored in two different groups do not interfere: either order gives the same collector, and each group holds only its own message |
| Status.Initialize | core/main_processor.py:274-284 | every listed repository, and no other, is pending and unsuccessful; the total is the list's length |
| Status.SetStatus | core/main_processor.py:286-299 | a known repository becomes completed on success and failed otherwise, from any stage; an unknown one leaves the tracker unchanged and draws the warning; no other entry, key or the total changes |
| Status.MarkInProgress | core/main_processor.py:301-308 | only a pending repository moves to in-progress; any other stage, or an unknown repository, leaves the tracker unchanged; other entries are untouched |
| Status.OverallStatus | core/main_processor.py:311-316 | true exactly for a known repository whose stored success flag is set |
| Status.Summary | core/main_processor.py:318-334 | the summary reports the initial total, and never counts more finished plus running entries than the tracker holds |
| Status.SetStatusNotRunning | core/main_processor.py:286-299 | a result write never adds a repository to the in-progress set |
| Status.NamesCard | core/main_processor.py:280-284 | a list has at most as many distinct names as entries, and exactly as many exactly when no name repeats |
| Status.InitializeSummary | core/main_processor.py:274-284 | a fresh tracker reports (list length, 0, 0), and holds fewer entries than its total exactly when the list repeats a name |
| Status.MarkInProgressIdempotent | core/main_processor.py:301-308 | marking a repository in progress twice is the same as marking it once |
| Status.LastWriteWins | core/main_processor.py:286-299 | of two result writes for one repository the second decides its entry |
| Status.MarkInProgressSummary | core/main_processor.py:318-334 | marking a pending repository raises the running count by one and changes nothing else in the summary; otherwise the summary is unchanged |
| Status.SetStatusSummary | core/main_processor.py:318-334 | a result write for a known repository counts it as finished (once, even if it was already finished) and no longer as running |
| Status.SummaryAfterRun | core/main_processor.py:318-334 | over distinct names where the first k finished and the rest are pending, the summary is (total, k, 0) |
| Status.SummaryOfNames | core/main_processor.py:318-334 | when exactly the names of a set are finished and the rest are pending, the summary is (total, size of the set, 0) |
| Dispatch.WriteStatus | core/main_processor.py:202-205 | the tracker becomes the status write's result, the log groups are untouched, and one status-write event is recorded |
| Dispatch.Drain | core/main_processor.py:206-210 | a repository's stored messages are printed consecutively in their order, then its group is emptied; the tracker is untouched; the drained messages are recorded |
| Dispatch.RecordRun | core/main_processor.py:193-205 | the processor's messages, then the error notice when it raised, are stored in the repository's group only |
| Dispatch.RecordWork | core/main_processor.py:128-148 | in a worker, the processor's messages and then the result or error notice are stored in the repository's group only |
| Dispatch.WorkerStart | core/main_processor.py:117-123 | a worker that sees the stop flag on entry changes nothing; otherwise it marks its repository in progress and touches no log |
| Dispatch.WorkerFinish | core/main_processor.py:128-155 | after an abort on entry the groups are untouched; otherwise exactly the worker's messages are appended to its repository's group; the tracker is never touched |
| Dispatch.WorkerOutcome | core/main_processor.py:95-155 | a whole worker: on a stop at entry it returns false and touches neither tracker nor group; otherwise it marks in progress, stores its messages, and returns the processor's result, false when the processor raised |
| Sequential.FirstStop | core/main_processor.py:186-189 | the loop processes exactly the positions before the first one at which the stop flag is seen |
| Sequential.StepEffect | core/main_processor.py:191-214 | one iteration writes the processor's result for its repository, drains exactly what it collected (leaving the groups as it found them), and records the pause when one is due |
| Sequential.LoopTrace | core/main_processor.py:186-214 | the loop leaves the groups as it found them, and records one status write and one drain of that repository's own messages per position before the first stop, in list order |
| Sequential.LoopTracker | core/main_processor.py:186-214 | the tracker after the loop is the result of writing each processed repository's result in list order |
| Sequential.ResultsEntries | core/main_processor.py:186-205 | after the result writes of the processed positions, a repository holds the result of its last processed position, and a name no processed position holds is still pending |
| Sequential.ResultsSummary | core/main_processor.py:318-334 | after the result writes of the processed positions, the summary counts each distinct processed name once as finished, and nothing as running |
| Sequential.LoopOutcome | core/main_processor.py:184-214 | from a fresh state, the positions before the first stop are processed in list order; a repository ends with the processor's result at its last such position (an exception counts as failure), a name no such position holds stays pending, every group ends empty, and the summary is (total, distinct names processed, 0) |
| Pooled.Submitted | core/main_processor.py:224-237 | exactly the repositories before the first stop seen by the submission loop are submitted |
| Pooled.StartKeeps | core/main_processor.py:117-123 | over distinct names, a worker's entry step, under any interleaving allowed so far, keeps every repository's group and entry as its schedule prefix predicts |
| Pooled.FinishKeeps | core/main_processor.py:128-155 | over distinct names, a worker's exit step keeps every repository's group and entry as its schedule prefix predicts |
| Pooled.HandleKeeps | core/main_processor.py:240-265 | over distinct names, the main thread's handling of a finished worker writes that worker's result, prints and empties its group, and keeps every other repository as predicted |
| Pooled.EndKeeps | core/main_processor.py:225-227 | leaving the submission loop touches no group and no entry |
| Pooled.RunKeeps | core/main_processor.py:222-265 | over distinct names, after every prefix of a schedule whose steps are each allowed, every repository's group and entry are as the prefix predicts, and the events are the handled workers' |
| Pooled.RunOutcome | core/main_processor.py:216-265 | under any complete interleaving, every submitted repository ends with its worker's result, every other stays pending, every group ends empty, and the events are one write and one drain of the worker's messages per handled worker, in handling order |
| Pooled.RunSummary | core/main_processor.py:240-258 | after a complete pooled run the summary counts every submitted repository as finished and none as running |
| Pooled.HandledNoPause | core/main_processor.py:216-265 | the pooled run records only status writes and drains: it never pauses between repositories |
| MainProcessor.Setup | core/main_processor.py:174-179 | set-up gives every listed repository an empty log group and a pending unsuccessful entry, with total equal to the list's length, and prints nothing |
| MainProcessor.Closing | core/main_processor.py:267-271 | both modes end by printing the closing line and then the overall elapsed-time line, and change nothing else |
| MainProcessor.SequentialOutcome | core/main_processor.py:162-271 | a one-worker run processes the positions before the first stop in order, once per occurrence; a name ends with the processor's result at its last processed position, names not reached stay pending, every group ends empty, the summary is (n, distinct names processed, 0), and the output ends with the closing line followed by the overall elapsed-time line |
| MainProcessor.PooledOutcome | core/main_processor.py:216-271 | a pooled run over distinct repositories, under any complete schedule, ends each submitted repository with its worker's result (failed when it saw the stop flag or the processor raised), leaves the rest pending, empties every group, reports (n, submitted, 0), and ends with the closing line followed by the overall elapsed-time line |
| MainProcessor.ProcessRepositoriesOutcome | core/main_processor.py:162-271 | exactly one worker runs the sequential loop, with its trace, last-result entries and distinct-name summary; any other count runs the pool, which over distinct names records no pause and ends each submitted repository with its worker's result and the rest pending, reporting (n, submitted, 0); every group ends empty in both; whatever the names, the output ends with the closing line and then the overall line |
| MainProcessor.PooledClosing | core/main_processor.py:216-271 | whatever the names and the schedule, a pooled run's output ends with the closing line and then the overall line |
| GhCommand.RunGhAsWritten | core/github_operations.py:100-124 | a missing gh ends the program, and nothing else does; a call that exits normally yields its output; a failed call yields empty output exactly when its stripped error mentions HTTP 404 and the joined command line mentions a deletion anywhere; any other failure is an error |
| GhCommand.SetMentionsDelete | core/github_operations.py:110 | a set command whose value contains "secret delete" passes the deletion test on the joined command line |
| GhCommand.SetMisreadAsDelete | core/github_operations.py:110-112 | a set whose value contains "secret delete" and whose failure mentions HTTP 404 is reported as success as written, and as a failure under the corrected reading |
| GhCommand.RunGh | core/github_operations.py:107-124 | corrected: a missing gh ends the program, and nothing else does; a failed call yields empty output exactly when it is a deletion and its stripped error mentions HTTP 404; otherwise it is the missing-value error exactly when the error mentions the missing --body argument, and another error otherwise |
| GhCommand.DeleteMentionsDelete | core/github_operations.py:127-149 | the joined command line of every deletion contains "secret delete" or "variable delete" |
| GhCommand.RunGhAgrees | core/github_operations.py:110-112 | the two readings agree on deletions and on every command whose line does not mention a deletion |
| GhCommand.MissingItemDeleteSucceeds | core/github_operations.py:110-112 | deleting an item that does not exist (HTTP 404) counts as success under both readings |
| GhCommand.NotFoundElsewhereFails | core/github_operations.py:110-118 | under the corrected reading, any failed call that is not a deletion is an error |
| GithubOps.EntryNames | core/github_operations.py:51 | the names are exactly those of the listed items that carry a name |
| GithubOps.ExistingItems | core/github_operations.py:16-55 | a missing gh ends the program; otherwise an unknown item type, a failed call, empty or unparsable output, or an item on which the name test or lookup raises gives no names at all; otherwise exactly the names of the named items |
| GithubOps.DeleteOne | core/github_operations.py:127-149 | a delete issues exactly its delete command; it ends the program exactly when gh is missing, and otherwise succeeds exactly when the call raised nothing |
| GithubOps.SetOne | core/github_operations.py:152-191 | an item is skipped exactly when force is off and it already exists; otherwise its set command is issued with the given value, ends the program exactly when gh is missing, and otherwise succeeds exactly when the call raised nothing |
| GithubOps.DeleteTargets | core/github_operations.py:280-295 | an item is deleted exactly when it was requested and the first listing found it |
| GithubOps.DeleteEach | core/github_operations.py:282-286 | the program ends exactly when some target's delete finds no gh; otherwise every target is deleted exactly once, whatever the order, and one failure does not stop the others |
| GithubOps.SetEach | core/github_operations.py:313-326 | the program ends exactly when some item that is not skipped finds no gh; otherwise every requested item is handled once, in the dictionary's order, against the given listing |
| GithubOps.DeletePhase | core/github_operations.py:274-305 | the program ends exactly when the first listing or a due delete finds no gh; otherwise the secret and variable deletes are exactly the requested items the first listing found, each deleted once |
| GithubOps.SetPhase | core/github_operations.py:308-328 | the program ends exactly when the second listing or a set that is not skipped finds no gh; otherwise every requested secret and variable is handled in order against the second listing |
| GithubOps.ProcessRepository | core/github_operations.py:247-336 | the program ends exactly when a listing, a due delete or a due set finds no gh; otherwise it deletes exactly the requested items the first listing found (secrets, then variables), sets every requested item against the second listing, and succeeds exactly when every delete and set did |
| GithubOps.AllSucceeded | core/github_operations.py:331-336 | the overall flag is true exactly when every action succeeded |
| GithubOps.NoNeedlessDeletes | core/github_operations.py:278-285 | no delete is issued when none is requested, nor for an item the first listing did not find |
| GithubOps.ListedNames | core/github_operations.py:208-210 | an item contributes owner/name exactly when it and every item before it carry both fields: the first item on which a lookup raises ends the listing, and the items before it stay added |
| GithubOps.ListingNames | core/github_operations.py:203-214 | a missing gh ends the program, and nothing else does; a failed call, empty output or unparsable output contributes no repositories; otherwise the listed names of the parsed items |
| GithubOps.Insert | core/github_operations.py:230 | inserting a new name into a sorted list keeps it strictly sorted and adds exactly that name |
| GithubOps.SortedNames | core/github_operations.py:230 | sorting a set of names gives a strictly increasing list of exactly its members |
| GithubOps.SortedUnique | core/github_operations.py:230 | two strictly sorted lists with the same members are equal, so the sorted list does not depend on the set's order |
| GithubOps.RepositoriesFromGithub | core/github_operations.py:194-236 | the program ends exactly when either listing finds no gh; otherwise the result is strictly sorted and holds exactly the names of the public and the private listing, and a failed listing adds nothing and does not prevent the other |
| Dicts.PutSpec | utils/utils.py:45-46 | an assignment keeps keys unique, reads back the new value, leaves other keys and their values alone, keeps a present key's position, and puts a new key last |
| LineParsers.QuotedWithChars | utils/utils.py:41-42 | the quote test holds exactly when the value is non-empty, starts with a quote character and ends with that same character |
| LineParsers.Unquote | utils/utils.py:41-43 | a value quoted at both ends with the same character loses exactly those two characters (a lone quote becomes empty); any other value is unchanged |
| LineParsers.ParseKeyValueLine | utils/utils.py:30-50 | a line is ignored exactly when it is blank or starts with # after stripping; it is rejected for a missing '=' exactly when otherwise it has none; a pair's key is non-empty, stripped and free of '=' |
| LineParsers.SplitAssignment | utils/utils.py:35-50 | a non-comment line fails exactly when it has no '='; a pair's key is non-empty, stripped and free of '=' |
| LineParsers.SplitSpec | utils/utils.py:35-47 | a line that is some text without '=', then '=', then any text splits at that first '=': the key is the first part stripped, an empty key gives no pair, and the value is the rest stripped and then unquoted |
| LineParsers.ParseSpec | utils/utils.py:30-50 | a settings line that, once stripped, is not a comment and has the form a=b with no '=' in a yields the key a stripped (or no pair when that is empty) and the value b stripped with one layer of matching single or double quotes removed |
| LineParsers.SplitExists | utils/utils.py:35-36 | every line holding an '=' has that form, so the two lemmas above cover every assignment line |
| LineParsers.ParseRender | utils/utils.py:30-50 | round trip: a line key="value" with a valid key, indented or padded with whitespace, reads back as exactly that key and value, whatever the value holds |
| LineParsers.UnquoteQuoted | utils/utils.py:39-43 | a double-quoted value reads back without its quotes and otherwise unchanged |
| LineParsers.CollectSpec | utils/utils.py:26-50 | collecting parsed lines gives each key once, with the value of its last assignment |
| LineParsers.ParseKeyValueLinesAbsent | utils/utils.py:26-50 | a settings file's dictionary holds each key once, and a key is absent exactly when no line assigns it |
| LineParsers.ParseKeyValueLinesLast | utils/utils.py:26-50 | a key assigned by several lines gets the value of the last of them |
| LineParsers.ReadKeyValuePairs | utils/utils.py:10-59 | no path or a read that raises gives an empty dictionary; otherwise the lines' settings |
| LineParsers.KeepListLineTest | utils/utils.py:81 | a list line is kept exactly when it is not blank after stripping and the unstripped line does not start with # |
| LineParsers.ListLines | utils/utils.py:81 | the list reader never returns more items than the file has lines |
| LineParsers.ListLinesAppend | utils/utils.py:80-81 | the filter works line by line: reading two pieces of a file in turn gives the list of the whole file |
| LineParsers.ListLinesSound | utils/utils.py:81 | every returned item is the stripped form of a kept line |
| LineParsers.ListLinesTrimmed | utils/utils.py:81 | every returned item is non-empty and has no surrounding whitespace |
| LineParsers.ListLinesComplete | utils/utils.py:81 | every kept line is returned, stripped |
| LineParsers.IndentedHash | utils/utils.py:31-33 | an indented # line is kept by the list reader (as #…), but ignored by the settings reader, which tests after stripping |
| LineParsers.ReadListFromFile | utils/utils.py:62-86 | no path or a read that raises gives an empty list; otherwise the kept lines, stripped, in order |
| Entry.NormalizeTarget | main.py:61 | a target always names an owner: an entry with '/' is kept as is, any other becomes organisation/entry |
| Entry.NormalizeIdempotent | main.py:61 | normalizing twice is normalizing once |
| Entry.NormalizeSplits | main.py:61 | when neither organisation nor entry contains '/', the first '/' of the target separates exactly the two |
| Entry.TargetRepositories | main.py:59-61 | one target per kept line, in file order, each the normalized stripped line |
| Entry.TargetOfLine | main.py:59-61 | a single line gives its normalized target when the list filter keeps it, and nothing otherwise |
| Entry.TargetsAppend | main.py:59-61 | targets keep the file's order and multiplicity: two pieces of a file give their targets in turn |
| Entry.TargetsComplete | main.py:59-61 | every kept line of the target file yields its target |
| Entry.TargetsSound | main.py:59-61 | every target names an owner and comes from a kept line |
| Entry.ChooseRepositories | main.py:56-72 | the program exits with status 1 exactly when the target file cannot be read or, without a target file, a listing finds no gh; a readable file gives its targets; without one, the sorted union of the listings; an empty choice exits with status 0 |

## Left out

- Subprocess execution, file opening, decoding (`errors='ignore'`) and line splitting: their outcomes are inputs.
- JSON parsing: an oracle function that returns the items iterating the parsed value yields, or None when parsing fails. For the item listings, each item is named, unnamed (the `'name' in item` test is false), or unsupported (the test, the lookup or the insertion into the set raises, as for a number or `null`, a string or list that contains "name", or an unhashable name). Names are taken to be strings; a name of another hashable type is not modelled (see the `except` path below). For the repository listings, a field is absent when looking it up raises, and otherwise it is the text the format string prints for it.
- Threads, locks and the thread pool: the pooled mode is a schedule of worker-entry, worker-exit, handling and end-of-submission steps, each allowed by the steps before it. Every tracker operation is one critical section.
- A processor call that ends the program, such as a missing `gh` inside the per-repository processor: `GithubOps.ProcessRepository` returns `Halt` for it, but the scheduler's `Outcome` has no such case. In the program, the `SystemExit` escapes the sequential loop's `except Exception`. In pooled mode the worker's `except Exception` does not catch it either, and `future.result()` (`core/main_processor.py:243-248`) re-raises it in the main thread. Any other exception is caught by the worker, so `future.result()` raises nothing else.
- Global lines printed by the subprocess helper (`utils/utils.py:157-158`, `164`) and the missing-`gh` line (`utils/utils.py:161`): they are not modelled. In pooled mode a worker thread prints them at once. The drain takes the lock once per message (`core/main_processor.py:252-253`), so such a line can fall between the lines of another repository's drained group. Only the modelled writes are consecutive.
- Pooled.RunOutcome: requires distinct repository names. With a repeated name, two workers share one tracker entry and one log group. Each handling prints and clears whatever the workers sharing the name have stored so far, and the entry ends with whichever result is handled last. The drain reads the group's live list between lock acquisitions (`utils/logs.py:71`, `core/main_processor.py:252-254`), so a message the other worker stores after the printing ends and before the clear is lost. None of this is stated.
- MainProcessor.ProcessRepositoriesOutcome: the pooled-mode facts other than the two closing lines are stated only over distinct repository names, for the reason given for Pooled.RunOutcome.
- Pooled.StartKeeps: requires distinct repository names, for the reason given for Pooled.RunOutcome.
- Pooled.FinishKeeps: requires distinct repository names, for the reason given for Pooled.RunOutcome.
- Pooled.HandleKeeps: requires distinct repository names, for the reason given for Pooled.RunOutcome.
- Pooled.RunKeeps: requires distinct repository names, for the reason given for Pooled.RunOutcome.
- Pooled.RunSummary: requires distinct repository names, for the same reason. The summary after a run with a repeated name is not stated.
- MainProcessor.PooledOutcome: requires distinct repository names, because it is built on Pooled.RunOutcome and Pooled.RunSummary.
- The keyboard listener thread and `stop_event`: the stop flag enters as observations indexed by repository position.
- `time.sleep`, because there is no clock: a pause appears only as an event. The elapsed seconds of the two timing lines enter as already-formatted text. Message wording is a `Message` datatype with `Show`; emoji and formatting are not checked.
- `completed_repos_count`: it is incremented and never read.
- The `except` path of `process_single_repository` (`core/github_operations.py:338-341`), which makes a repository fail without the remaining deletes and sets. The helpers catch their own exceptions. The logging of the fetched names (`core/github_operations.py:67`, `74`) runs outside them, and its `sort` and `join` raise when a listed name is not a string. The model takes every listed item name to be a string, so that path is never taken.
- `display_and_confirm_actions` (`core/github_operations.py:345-423`), the argument parser, `validate_file_path`, and the wiring of the other command-line options in `main.py`: these are user-interface code around the modelled core.
- The top-level copies `logs.py` and `configs.py`: they are the same as `utils/logs.py` and `core/configs.py`.
- Python's `int` is unbounded, so no width or wrap-around applies.
- Status.Summary: its own contract only bounds the counts. The counts after each operation are stated by InitializeSummary, MarkInProgressSummary, SetStatusSummary and SummaryAfterRun.
- LineParsers.ListLines: its own contract only bounds the length. The contents are stated by ListLinesSound, ListLinesComplete, ListLinesTrimmed and ListLinesAppend.
- GhCommand.RunGhAsWritten: the rest of the model uses the corrected `RunGh`. The two readings differ only on a non-deletion whose command line contains "secret delete" or "variable delete" (`GhCommand.RunGhAgrees`).
- GithubOps.SetOne: it uses the corrected `RunGh`. A set whose value contains "secret delete" or "variable delete" and that fails with HTTP 404 is a failure in the model. The program as written reports it as a success (`GhCommand.SetMisreadAsDelete`).
- LineParsers.ParseKeyValueLine and LineParsers.SplitAssignment: their own contracts state only when a line is ignored or rejected and the shape of a key. The key and the value are stated by ParseSpec and SplitSpec, for every line SplitExists covers.

## Findings

| source | as written | input that shows it | evidently intended | confidence | as-written member | corrected member |
|---|---|---|---|---|---|---|
| core/github_operations.py:110-112 | a failed `gh` call is treated as success when its error mentions "HTTP 404" and the whole joined command line contains "secret delete" or "variable delete", values included | `gh secret set NAME --repo R --body "x secret delete y"` failing with "HTTP 404: Not Found" | only a deletion command's 404 means the item is already gone; a failed set is an error | medium, not executed | GhCommand.RunGhAsWritten (lemma GhCommand.SetMisreadAsDelete) | GhCommand.RunGh |
