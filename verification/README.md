# bisect_b2g in Dafny

This project models the core of bisect_b2g. The tool bisects several
repositories at once: a B2G build pulls together gecko, gaia and others.

The model has two parts:

- **The history merge.** Each project's revisions form a forward-only chain. The merge builds one
  global history from them. Every line of that history holds one revision per project.
- **The bisection engine.** It binary-searches that history for the last line an
  evaluator passes. It records the indices it tested, passed and failed.

Both parts exist in two generations, and both are modelled:

- the package: `bisect_b2g/history.py` and `bisect_b2g/bisection.py`;
- the first-generation script: `bisection.py`.

Around the core sit the pure helpers:

- the text handling of `git log` output and commit ranges;
- the `next_rev` chain a project builds;
- the evaluator exit-code rules;
- the command environment and the option rules of `run_cmd`;
- the first-generation argument strings.

Modules and their files:

| file | module | models |
|---|---|---|
| `types.dfy` | `Types` | `Option` and `Result` |
| `strings.dfy` | `Strings` | the Python `str` operations used: `partition`, `startswith`/`endswith`, `strip`, `split`, string `<` |
| `chain.dfy` | `Chain`, `Chains`, `SeqFacts` | the linked revision lists (`N`, `Rev.next_rev`), `make_ll`, counts of remaining revisions |
| `repository.dfy` | `Repository` | `Rev`, `Rev.__str__`, `Project.rev_ll`, backend choice, `fix_git_timestamp`, the `git log` command and output splitting |
| `history.dfy` | `History` | `oldest`, `make_revision_linked_list`, `create_line`, `build_history` |
| `legacy_history.dfy` | `LegacyHistory` | the first-generation `build_history` with its inner `oldest` and `create_line` |
| `bisection.dfy` | `Bisection` | `Bisection.__init__`/`_bisect` and the first-generation `_bisect`/`bisect` |
| `evaluator.dfy` | `Evaluator` | `ScriptEvaluator.eval`, `InteractiveEvaluator.eval` |
| `util.dfy` | `Util` | `generate_env`, `run_cmd` |
| `legacy_args.dfy` | `LegacyArgs` | `parse_arg` up to its separators, the `git` uri clue, `make_arg`, `local_path_to_name` |

Modelling choices:

- A history line is generic (`L`) in the bisection engine.
- Dates are integer instants.
- The evaluator is a function of two things:
  - the number of evaluations made before the call;
  - the line under test.

  It covers both kinds of test evaluator: one that always answers the same
  way, and one that replays a fixed list of answers.
- Checking out a line is recorded: the engine's result lists the lines it checked out, in order.
- The package's `_bisect` keeps its lists on `self` and recurses as a tail
  call. The model passes those lists along as accumulators instead.
- The slice `history[middle:]` / `history[:middle]` with its offset becomes a
  `Window(lo, len)` of the whole history. The first-generation `_bisect` keeps
  working on slices. `Bisection.LegacyAgrees` proves the two settle on the same line,
  and `Bisection.LegacyCheckouts` that they check out the same lines in the same order.

Where the tool's evident design and its code disagree, the model follows the code:

- The package merge advances the head with the *earliest* date. It does not
  advance the most recent one.
  - A tie goes to the first head in list order, not to the project name.
- The package merge stops as soon as the first chain runs out, not when every chain has.
  - Its history is therefore not one line per revision.
  - The first-generation merge runs until every chain is spent. Only that one gives one line per revision.
- At the end of a search the package appends the found index once more, to
  both `order` and `pass_i`.
  - Three assertions of the package's own tests expect that trailing entry to be absent:
    `pass_i == []` in `test_all_bad` (bisect_b2g/tests/test_bisection.py:106),
    `order == [5, 2, 1]` (:117) and `order == [5, 2, 3, 4]` (:126).
  - `test_all_bad`'s `order == [5, 2, 1, 0]` (:107) does include it.
  - `Bisection.AllBad` and `Bisection.ThirdCallPasses` state the values the code produces.
- The script evaluator treats every non-zero status as a fail, not as an error.
- An interactive abort ends the process with `exit(1)`. It does not hand back a
  partial bisection state.
- An empty project list, an empty revision chain or an empty history is not reported as an error:
  - with no projects, the package merge calls `oldest([])`, which reads `ll[0]` and raises `IndexError`;
  - the merges dereference `None` for an empty chain;
  - the bisection indexes an empty list.

  Both are preconditions (`requires`) here.

## Model

| member | source | states |
|---|---|---|
| Chain.MakeLl | bisection.py:218-224 | following the links from the head built by `make_ll` gives back the list in order; the head holds `l[0]`; the empty list gives `None` |
| Chain.PushAllWalk | bisection.py:220-224 | pushing values one by one in front of a chain leaves them in reverse order ahead of the old chain, which is why `make_ll` walks the list reversed |
| Repository.RevStr | bisect_b2g/repository.py:236-237 | the string form is the project name, `@`, then the hash, with the `@` right after the name |
| Repository.RevStrPartition | bisect_b2g/repository.py:236-237 | for a project name without `@`, partitioning the string at `@` recovers name and hash |
| Repository.SelectBackend | bisect_b2g/repository.py:188-194 | `git` selects the git backend and `hg` the hg backend; every other string is refused |
| Repository.RevLl | bisect_b2g/repository.py:203-210 | following `next_rev` from the head reproduces the revision list with its hashes and dates in order; an empty list gives `None` |
| Repository.FixGitTimestamp | bisect_b2g/repository.py:96-103 | the result is one character shorter, has `T` at position 10, keeps positions 0-9 and 11-18, and shifts everything after position 19 down by one |
| Repository.FixGitTimestampExample | bisect_b2g/repository.py:97-99 | `2013-01-29 16:06:52 -0800` becomes `2013-01-29T16:06:52-0800` |
| Repository.FixGitTimestampInvertible | bisect_b2g/repository.py:96-103 | for a timestamp in git's layout, putting the two spaces back into the fixed form gives the original, so only those two characters change |
| Repository.CommitRange | bisect_b2g/repository.py:110-117 | the range is `end` alone when `start` has no parents, and `start^..end` otherwise |
| Repository.GitLogCommand | bisect_b2g/repository.py:106-120 | `--first-parent` is in the command exactly when merges are not followed; the command ends with `--date-order`, the commit range and the hash/date format |
| Strings.Strip | bisect_b2g/repository.py:111 | `strip()` returns the piece of the text that only whitespace surrounds; that piece neither starts nor ends with whitespace, and it is empty exactly for blank text |
| Strings.StripUnique | bisect_b2g/repository.py:122 | only one piece of a text is surrounded by whitespace alone and has non-whitespace ends, and it is what `strip()` returns |
| Repository.NonBlank | bisect_b2g/repository.py:122-125 | no kept line is empty, and there are no more kept lines than output lines |
| Repository.NonBlankAppend | bisect_b2g/repository.py:122-125 | filtering two runs of lines one after the other keeps the first run's lines before the second's, so kept lines stay in output order |
| Repository.NonBlankOne | bisect_b2g/repository.py:122-125 | a single line is dropped when it is blank and otherwise kept with its surrounding whitespace stripped |
| Repository.NonBlankCount | bisect_b2g/repository.py:122-125 | exactly one line is kept per output line that holds something besides whitespace |
| Repository.SplitLogLine | bisect_b2g/repository.py:126 | a log line is split at the first ` --- ` into the text before and after it; a line without the separator gives the whole line and an empty date |
| Repository.SplitLogOutput | bisect_b2g/repository.py:121-129 | there is one (hash, date) entry per non-blank output line, and entry k is the split at ` --- ` of the k-th stripped non-blank line |
| Repository.HeadsOfProjects | bisect_b2g/history.py:53 | the starting head of each project holds that project's first revision, every revision on its chain belongs to that project, and the heads name the projects in list order |
| Repository.AdvanceKeepsProjects | bisect_b2g/history.py:36-44 | moving one head on to its `next_rev` keeps every chain within its project and leaves the projects of the exhausted and active heads exactly as they were, in order |
| Repository.RetireKeepsProjects | bisection.py:255-258 | moving a head with no successor from the active heads to the end of the retired ones keeps every project as often as before |
| History.Insert | bisect_b2g/history.py:33-35 | inserting into a sorted line keeps it sorted and adds exactly the one element |
| History.Sort | bisect_b2g/history.py:33-47 | sorting gives a sorted permutation of the line |
| History.Oldest | bisect_b2g/history.py:7-19 | the chosen head has the earliest date, and every head before it in the list is strictly later, so the first of tied heads wins |
| History.OldestUnique | bisect_b2g/history.py:13-19 | earliest date plus first among ties pins down exactly one position, the one `oldest` returns |
| History.OldestSingle | bisect_b2g/history.py:9-11 | the only head of a one-element list is the oldest |
| History.MakeRevisionLinkedList | bisect_b2g/history.py:22-29 | the chain visits the project's revisions in their original order and is `None` exactly for an empty list |
| History.LineOf | bisect_b2g/history.py:32-47 | a line holds every exhausted and every current head, each exactly once, taken before the advance, and is sorted by project name |
| History.AdvanceOldest | bisect_b2g/history.py:36-44 | only the oldest head changes. It moves in place to its `next_rev`, or leaves `heads` for the end of `exhausted_heads` when it has none. Every other head keeps its place, and exactly one revision is consumed |
| History.Lines | bisect_b2g/history.py:55-56 | the loop emits lines exactly while no chain has run out; every line has one entry per project, sorted by name, and the first holds every starting head |
| History.InitialHeads | bisect_b2g/history.py:53 | there is one head per project, and following it gives that project's revisions |
| History.LinesKeepProjects | bisect_b2g/history.py:32-56 | every line the loop emits holds the projects of the starting exhausted and active heads, each exactly as often as there |
| History.BuildHistory | bisect_b2g/history.py:50-61 | the history is never empty; every line has one entry per project, sorted by project name, and holds every project exactly as often as the project list names it; the first line holds every project's first revision |
| History.ConsecutiveLinesAdvanceOne | bisect_b2g/history.py:36-56 | each line after the first is the previous line with exactly one revision replaced by its `next_rev` |
| History.FirstAdvance | bisect_b2g/history.py:36-44 | when the oldest head has a successor, the next line is this one with that head advanced |
| History.LinesLength | bisect_b2g/history.py:55-56 | the history is at least as long as the shortest chain and at most the total number of revisions minus the number of chains, plus one |
| History.HistoryLength | bisect_b2g/history.py:50-56 | the package history is at least as long as some project's revision list and at most the total number of revisions minus the number of projects, plus one |
| History.SingleChainLines | bisect_b2g/history.py:50-56 | a single chain gives one one-element line per revision, in chain order |
| History.SingleProjectHistory | bisect_b2g/history.py:50-56 | with one project of N revisions the history is N one-revision lines in the project's order |
| History.StopsAtFirstExhaustion | bisect_b2g/history.py:55-56 | with chains of one and two revisions the history has a single line: the loop stops at the first exhaustion |
| LegacyHistory.LatestFrom | bisection.py:238-243 | the scan ends on a head with the latest date, and every head before it is strictly earlier |
| LegacyHistory.Latest | bisection.py:234-243 | despite its name, the inner `oldest` picks a head with the latest date, the first such on a tie |
| LegacyHistory.StripOrder | bisection.py:245-268 | the recursion of `create_line` puts every active head into the line exactly once, from latest to earliest date |
| LegacyHistory.LastLeftLater | bisection.py:239-268 | of positions in list order, every one after the position the recursion leaves for last has a strictly later date: the inner `oldest` takes the first of tied latest heads out each time |
| LegacyHistory.AdvancedPosition | bisection.py:255-260 | the advanced head has the earliest date among the active heads, and every head after it in `rev_lists` is strictly later, so of tied earliest heads the last one in `rev_lists` is advanced |
| LegacyHistory.LineOf | bisection.py:245-268 | a line holds the retired heads in the order they ran out, then the active heads by non-increasing date, ending with the advanced one; every project contributes exactly one revision |
| LegacyHistory.AdvanceEarliest | bisection.py:255-260 | the earliest head moves to its successor in place, or leaves `rev_lists` for the end of `last_revs` when it has none; exactly one revision is consumed |
| LegacyHistory.Lines | bisection.py:270-271 | the loop emits one line per remaining revision, each with one revision per retired or active head, and the first holds exactly the revisions of those heads |
| LegacyHistory.LinesKeepProjects | bisection.py:245-271 | every line the loop emits holds the projects of the starting retired and active heads, each exactly as often as there |
| LegacyHistory.InitialHeads | bisection.py:231-232 | there is one chain per project; following the i-th gives the i-th project's revisions in order, and together the chains hold every revision |
| LegacyHistory.BuildHistory | bisection.py:227-273 | the first-generation history has one line per revision of every project; every line holds every project exactly as often as the project list names it, and the first line holds every project's first revision |
| Bisection.Half | bisect_b2g/bisection.py:209-214 | the half the search continues in is non-empty, strictly shorter, and inside the current window |
| Bisection.Visits | bisect_b2g/bisection.py:182-214 | the search visits at least one more index, and the last index visited lies inside the window |
| Bisection.FoundIndex | bisect_b2g/bisection.py:182-214 | the index the search settles on lies inside the starting window |
| Bisection.VisitsEnd | bisect_b2g/bisection.py:183-188 | the last index visited is the one the search settles on |
| Bisection.VisitCount | bisect_b2g/bisection.py:189-192 | a search over N lines makes between floor(log2 N) and ceil(log2 N) evaluations, as the "log2(N), others log2(N)-1" remark says |
| Bisection.BisectFrom | bisect_b2g/bisection.py:182-214 | the found index lies in the window and the found line is the history line at that index |
| Bisection.BisectEndsOnFound | bisect_b2g/bisection.py:183-188 | `order` has one entry per checkout plus a final entry, and that final entry is the found index |
| Bisection.BisectTested | bisect_b2g/bisection.py:195-205 | every line checked out is the history line at the matching `order` entry, and every tested index lies inside the history |
| Bisection.BisectSplits | bisect_b2g/bisection.py:209-214 | an evaluation passed exactly when its index lies at or before the found index |
| Bisection.BisectPartition | bisect_b2g/bisection.py:185-214 | every index in `order` is recorded exactly once in `pass_i` or in `fail_i` |
| Bisection.BisectFoundPassed | bisect_b2g/bisection.py:186-188 | `pass_i` ends with the found index, and `fail_i` never contains it |
| Bisection.BisectFoundAfterPass | bisect_b2g/bisection.py:209-211 | the found index is the first line or a line that passed during the search |
| Bisection.BisectFoundBeforeFail | bisect_b2g/bisection.py:212-214 | the line after the found index is past the end of the history or a line that failed |
| Bisection.Bisect | bisect_b2g/bisection.py:170-180 | the search starts on the whole non-empty history, and `found` is the history line at `found_i` |
| Bisection.BisectContract | bisect_b2g/bisection.py:170-214 | everything a whole bisection guarantees. Checkouts are the history lines at the recorded indices. Passes lie at or before the found index and failures after it. Each evaluated index is recorded once, with the found index appended to `pass_i` and absent from `fail_i`. The found index sits between a pass (or the first line) and a failure (or the last line). The evaluation count lies between floor(log2 N) and ceil(log2 N) |
| Bisection.LegacySearch | bisection.py:276-296 | fewer lines are checked out than the history holds |
| Bisection.LegacyBisect | bisection.py:299-300 | `bisect(history, script)` finds the line the package's `Bisection` finds, and checks out the same lines in the same order, when the evaluator passes on exit status 0 |
| Bisection.LegacyAgrees | bisection.py:276-296 | on a slice holding a window's lines, the slice-based first-generation search settles on the same line as the windowed one |
| Bisection.LegacyCheckouts | bisection.py:282-296 | on the slice holding a window's lines, the lines the slice-based search checks out with `set_rev` are those the windowed search appends to its checkouts |
| Bisection.LegacyMatchesPackage | bisection.py:276-300 | the slice-based search from evaluation 0 finds the same line as the package's `Bisection` with an evaluator that passes on exit status 0, and checks out the same lines in the same order |
| Bisection.MonotoneFindsBoundary | bisect_b2g/bisection.py:209-214 | when the evaluator passes exactly the lines before some boundary, the search settles on the last passing line, clamped to the window |
| Bisection.MonotoneBisect | bisect_b2g/bisection.py:170-214 | when the evaluator passes exactly the first b lines, the found index is b - 1, or 0 when no line passes |
| Bisection.AllGood | bisect_b2g/tests/test_bisection.py:87-96 | over ten lines with every verdict a pass, lines 5, 7, 8 and 9 are checked out, line 9 is found, and `order` equals `pass_i` |
| Bisection.AllBad | bisect_b2g/tests/test_bisection.py:98-108 | over ten lines with every verdict a fail, lines 5, 2 and 1 are checked out and line 0 is found; `order` is `[5, 2, 1, 0]`, and `pass_i` holds only the never-evaluated line 0 |
| Bisection.ThirdCallPasses | bisect_b2g/tests/test_bisection.py:110-117 | when only the third evaluation passes, lines 5, 2 and 1 are checked out and line 1 is found |
| Bisection.SecondAndThirdCallsPass | bisect_b2g/tests/test_bisection.py:119-126 | when only the second and third evaluations pass, lines 5, 2, 3 and 4 are checked out and line 3 is found |
| Evaluator.ScriptVerdict | bisect_b2g/evaluator.py:35-39 | a script exit status of 0 is a pass and any other status a fail |
| Evaluator.InteractiveOutcome | bisect_b2g/evaluator.py:94-105 | exit code 69 is a pass and 96 a fail, 0 aborts the run, and any other code is an error carrying that code; the four outcomes are disjoint and cover every code |
| Evaluator.MarkExitCode | bisect_b2g/evaluator.py:54-62 | the `good` and `bad` shell functions exit with a non-zero code, so neither can be mistaken for leaving the shell |
| Evaluator.MarkRoundTrip | bisect_b2g/evaluator.py:94-97 | typing `good` or `bad` in the session hands exactly that verdict back |
| Evaluator.VerdictOnlyFromMarks | bisect_b2g/evaluator.py:94-105 | a verdict comes only from the two marker codes; status 0 passes a script but aborts an interactive session |
| Util.DeleteKeys | bisect_b2g/util.py:18-21 | deleting keys one by one removes exactly the listed keys that were present, keeps every other value, and ignores absent keys |
| Util.GenerateEnv | bisect_b2g/util.py:12-22 | the environment has the keys of the base or the additions that are not deleted; a key takes the added value if there is one, else the base value |
| Util.GenerateEnvUnchanged | tests/test_util.py:26-28 | with nothing to add or delete the environment is the base one |
| Util.GenerateEnvAdd | tests/test_util.py:30-46 | an added variable appears with its value, overwriting an existing one |
| Util.GenerateEnvDelete | tests/test_util.py:48-53 | a deleted variable is absent and all others are unchanged; deleting an absent variable changes nothing |
| Util.GenerateEnvAddAndDelete | tests/test_util.py:55-65 | adding one variable and deleting another does both |
| Util.GenerateEnvAddThenDeleteSame | tests/test_util.py:67-76 | deletions apply after additions, so adding and deleting the same variable leaves it absent |
| Util.RunCmd | bisect_b2g/util.py:38-54 | asking to include and ignore stderr at once is refused. Otherwise stderr goes to devnull exactly when it is ignored or only the status is wanted, and merges into stdout exactly when it is included and not `rc_only`. `call` runs exactly for `rc_only`, `check_output` exactly when output is read without `rc_only`. The environment is the generated one |
| Util.RunCmdCases | bisect_b2g/util.py:41-54 | the defaults capture stdout only; `inc_err` without `ignore_err` merges stderr into stdout; `rc_only` returns the status; `inc_err` with the default `ignore_err` (true) is refused |
| LegacyArgs.StripVcsPrefix | bisection.py:346-354 | a leading `HG` selects hg and a leading `GIT` git (`HG` tried first), and the rest is the argument without that prefix; otherwise the argument is unchanged |
| LegacyArgs.SplitArg | bisection.py:356-364 | a split argument is uri, `@`, good, `..`, bad, each separator being the first of its kind; a missing `@`, or a missing `..` after it, gives no split |
| LegacyArgs.SplitArgUnique | bisection.py:356-364 | parts whose separators cannot be misread are split back out unchanged |
| LegacyArgs.ParseArg | bisection.py:346-364 | a parsed argument is the VCS prefix, uri, `@`, good, `..` and bad, with each separator the first of its kind; otherwise `InvalidArg` names the argument without its prefix, which lacks `@` or lacks `..` after it |
| LegacyArgs.MakeArg | bisection.py:406-410 | the argument is the local path, `@`, good, `..`, bad, with the `@` right after the path |
| LegacyArgs.ParseMakeArg | bisection.py:406-410 | `make_arg` is the reverse of the separator part of `parse_arg` (`LegacyArgs.ParseArg`) when the path has no `@` and no VCS prefix and `good` holds no `..` and does not end in `.` |
| LegacyArgs.MakeParseArg | bisection.py:406-410 | every argument the separator part of `parse_arg` (`LegacyArgs.ParseArg`) splits without a VCS prefix is written back unchanged by `make_arg` |
| LegacyArgs.UriVcsClue | bisection.py:376-380 | without a prefix, a uri starting `git://` or ending `.git` means git; a prefix is kept as given |
| LegacyArgs.PathTail | bisection.py:307 | the last path component holds no `/`, ends the path, and follows a `/` unless it is the whole path |
| LegacyArgs.PathTailOf | bisection.py:307 | the last component of `dir/name` is `name` |
| LegacyArgs.LocalPathToName | bisection.py:306-311 | as written: the last component, cut to its first four characters when it ends in `.git` |
| LegacyArgs.LocalPathToNameTruncates | bisection.py:308-309 | `repos/gecko.git` is named `geck` as written, where the corrected form gives `gecko` |
| LegacyArgs.LocalPathToNameFixed | bisection.py:306-311 | corrected: the last component with a trailing `.git` removed, so the name followed by `.git` is the component |
| LegacyArgs.LocalPathToNameFixedStripsSuffix | bisection.py:308-309 | the corrected name of `dir/name.git` is `name`, whatever its length |
| LegacyArgs.LocalPathToNameAgreesOnlyAtFour | bisection.py:308-309 | the code as written gives the intended name of `dir/name.git` exactly when `name` has four characters |

## Left out

- Running commands is not modelled: `subprocess`, git and hg `clone`/`fetch`/`checkout`/`reset`, `get_rev` and `resolve_tag`.
  - `set_rev` appears only as the record of checked-out lines, in both searches.
- Date parsing is not modelled: `isodate` and the XML of hg's `rev_list` are foreign libraries. Dates are integers.
- `os.environ`, `os.getcwd` and `os.path.exists` are parameters or not used.
- `uri_to_name` (bisection.py:314-325), a wrapper over `urlparse`.
  - It has the same `name[:4]` cut as `local_path_to_name`.
- The rest of `parse_arg` is not modelled.
  - Its host-name guessing iterates over the characters of the string `'hg.mozilla.org'`.
  - Its path-exists branch leaves `local_path` unbound.
  - `LegacyArgs.UriVcsClue` covers only the `git://`/`.git` clue. `LegacyArgs.ParseArg` stops after the separators.
- The interactive shell session, its temporary rc file and `generate_script` are not modelled.
  - Only the exit codes of its `good` and `bad` commands are.
- The Mako HTML report, `write` and `write_html` are not modelled.
- Logging, `print`, and the float-valued `max_recursions` progress counter, which affects only logging, are not modelled.
- `bisect.py` (an unfinished skeleton), `setup.py`, `tests/dumbo.py` and the `main()` option parsing are not modelled.
- Evaluators with other hidden state are not modelled. The engine takes any evaluator that is a function of the call number and the line.
  - An evaluator that raises is outside the model too: the interactive abort and error end the run before `_bisect` continues.
- Three wiring breaks in the source are not modelled.
  - `history.py` calls `project.rev_list()`, which the package `Project` lacks.
  - `ScriptEvaluator` unpacks a pair from `run_cmd(rc_only=True)`, which returns one integer.
  - `GitRepository.rev_list` takes `run_cmd(...)[1]` (bisect_b2g/repository.py:110-111 and 121). `run_cmd` returns the output string of `check_output` (bisect_b2g/util.py:51-59), so `[1]` is its second character.
  - The merge is modelled over revision lists, and the evaluator over a bare exit code.
- History.BuildHistory: requires at least one project, so the `IndexError` that `oldest([])` raises for an empty project list (bisect_b2g/history.py:13) is not modelled. `LegacyHistory.BuildHistory` does accept zero projects and returns `[]`, as the first-generation loop does.
- LegacyArgs.ParseMakeArg: the round trip is stated for the separator part of `parse_arg` only. The full `parse_arg` always sets `local_path` (bisection.py:403) to `<cwd>/repos/<name>` or to the text after `->` (bisection.py:369-374), so its results almost never meet `make_arg`'s `uri == local_path` assert (bisection.py:409). For example, `x.git@a..b` with no such path gives uri `x.git` and local_path `<cwd>/repos/x.gi`.
- Repository.CommitRange: takes the whole parents output, not its second character. As written, a root commit's output `"\n"` has one character, so `[1]` raises `IndexError`. For any other commit `[1]` is a hex digit, so the range is always `start^..end`.
- Repository.SplitLogOutput: takes the whole `git log` output, not its second character. As written, `raw_output` is one hex digit, which yields one line without ` --- ` and so an empty date.
- Repository.FixGitTimestamp: requires at least 20 characters, so the `IndexError` that shorter text raises is not modelled. That includes the empty date of a log line without ` --- `.
- Bisection.LegacySearch: its own contract only bounds the number of checkouts. What it finds and checks out is stated against the package's search by Bisection.LegacyAgrees, Bisection.LegacyCheckouts and Bisection.LegacyMatchesPackage.
- Object identity: `heads.index`, `rev_lists.index` and `o in prev` compare objects by identity.
  - Every node is a distinct object, so the model uses positions.
  - `o in prev` is always false, so the append is unconditional.
- The test suite's evaluator classes are not modelled as classes. The four scenario lemmas of `Bisection` take any evaluator that gives the same answers.
  - An evaluator that answers by call number, like `OrderedEvaluator`, is one of them.
  - The Mock project's `set_rev` calls are the recorded checkouts.

## Findings

| source | as written | input that shows it | evidently intended | confidence | as-written member | corrected member |
|---|---|---|---|---|---|---|
| bisection.py:308-309 | `tail[:4]` keeps the first four characters of a last path component ending in `.git` | `repos/gecko.git` gives `geck` | `tail[:-4]`, dropping the `.git` suffix, giving `gecko` (correct only by coincidence for four-letter names such as `gaia.git`) | high; not executed | LegacyArgs.LocalPathToName, LegacyArgs.LocalPathToNameTruncates | LegacyArgs.LocalPathToNameFixed, LegacyArgs.LocalPathToNameFixedStripsSuffix |
