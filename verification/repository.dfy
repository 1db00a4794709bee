/**
 * The pure parts of the package's repository layer (bisect_b2g/repository.py):
 * revisions, the `next_rev` chain a project builds from its revision list,
 * the choice of VCS backend, and the text handling inside
 * `GitRepository.rev_list`. Running git or hg is outside the model.
 */
module Repository {
  import opened Types
  import opened Chain
  import Strings
  import SeqFacts

  /**
   * One revision of one project. The project is identified by its name,
   * the only part of the project object the core reads; dates are
   * instants on an integer clock.
   */
  datatype Rev = Rev(hash: string, project: string, date: int)

  /** The package's `Rev` object: revision data plus its `next_rev` link. */
  type LinkedRev = Node<Rev>

  /** `Rev.__str__`: `<project name>@<hash>`. */
  function RevStr(r: Rev): (s: string)
    ensures |s| == |r.project| + 1 + |r.hash|
    ensures s[|r.project|] == '@'
  {
    r.project + "@" + r.hash
  }

  /** When the project name has no `@`, the string splits back into name and hash. */
  lemma RevStrPartition(r: Rev)
    requires '@' !in r.project
    ensures Strings.Partition(RevStr(r), "@") == (r.project, "@", r.hash)
  {
    var s := RevStr(r);
    forall j | 0 <= j < |r.project| ensures !Strings.OccursAt(s, "@", j) {
      assert s[j] == r.project[j];
    }
    assert Strings.OccursAt(s, "@", |r.project|);
    assert s[|r.project| + 1..] == r.hash;
  }

  function RevProject(r: Rev): string {
    r.project
  }

  function NodeData(n: LinkedRev): Rev {
    n.data
  }

  /** The project of each revision of `revs`, in order. */
  function ProjectsOf(revs: seq<Rev>): (names: seq<string>)
    ensures |names| == |revs|
    ensures forall i :: 0 <= i < |revs| ==> names[i] == revs[i].project
  {
    SeqFacts.Map(RevProject, revs)
  }

  /** The revision data held by the nodes `ns`. */
  function DataOf(ns: seq<LinkedRev>): (revs: seq<Rev>)
    ensures |revs| == |ns|
    ensures forall i :: 0 <= i < |ns| ==> revs[i] == ns[i].data
  {
    SeqFacts.Map(NodeData, ns)
  }

  /** The same nodes in another order hold the same projects. */
  lemma ProjectsPermutation(a: seq<LinkedRev>, b: seq<LinkedRev>)
    requires multiset(a) == multiset(b)
    ensures multiset(DataOf(a)) == multiset(DataOf(b))
    ensures multiset(ProjectsOf(DataOf(a))) == multiset(ProjectsOf(DataOf(b)))
  {
    SeqFacts.MapPermutation(NodeData, a, b);
    SeqFacts.MapPermutation(RevProject, DataOf(a), DataOf(b));
  }

  /** Every revision on the chain from `n` belongs to `n`'s project. */
  predicate OneProject(n: LinkedRev) {
    forall k :: 0 <= k < |Walk(Some(n))| ==> Walk(Some(n))[k].project == n.data.project
  }

  predicate AllOneProject(ns: seq<LinkedRev>) {
    forall i :: 0 <= i < |ns| ==> OneProject(ns[i])
  }

  /** A chain's successor node belongs to the same project and keeps to it. */
  lemma OneProjectNext(n: LinkedRev)
    requires OneProject(n) && n.next.Some?
    ensures OneProject(n.next.value) && n.next.value.data.project == n.data.project
  {
    var m := n.next.value;
    var after := Walk(Some(m));
    assert Walk(Some(n)) == [n.data] + after;
    assert after[0] == m.data && Walk(Some(n))[1] == m.data;
    forall k | 0 <= k < |after| ensures after[k].project == m.data.project {
      assert after[k] == Walk(Some(n))[k + 1];
    }
  }

  /**
   * Moving the head at `i` on to its successor leaves the projects of the
   * retired and active heads exactly as they were, and every chain still
   * keeps to one project.
   */
  lemma AdvanceKeepsProjects(retired: seq<LinkedRev>, heads: seq<LinkedRev>, i: nat)
    requires i < |heads| && heads[i].next.Some? && AllOneProject(heads)
    ensures AllOneProject(heads[i := heads[i].next.value])
    ensures ProjectsOf(DataOf(retired + heads[i := heads[i].next.value])) == ProjectsOf(DataOf(retired + heads))
  {
    OneProjectNext(heads[i]);
    var after := retired + heads[i := heads[i].next.value];
    forall k | 0 <= k < |after| ensures after[k].data.project == (retired + heads)[k].data.project {
    }
  }

  /**
   * Retiring the head at `i` to the end of the retired heads keeps the
   * multiset of projects, and every active chain still keeps to one
   * project.
   */
  lemma RetireKeepsProjects(retired: seq<LinkedRev>, heads: seq<LinkedRev>, i: nat)
    requires i < |heads| && AllOneProject(heads)
    ensures AllOneProject(heads[..i] + heads[i + 1..])
    ensures multiset(ProjectsOf(DataOf(retired + [heads[i]] + (heads[..i] + heads[i + 1..])))) ==
            multiset(ProjectsOf(DataOf(retired + heads)))
  {
    var rest := heads[..i] + heads[i + 1..];
    forall k | 0 <= k < |rest| ensures OneProject(rest[k]) {
      if k < i { assert rest[k] == heads[k]; } else { assert rest[k] == heads[k + 1]; }
    }
    SeqFacts.MultisetRemove(heads, i);
    assert retired + [heads[i]] + rest == retired + ([heads[i]] + rest);
    ProjectsPermutation(retired + [heads[i]] + rest, retired + heads);
  }

  /** A project with its revision list, oldest first (what `rev_list` returns). */
  datatype ProjectRevs = ProjectRevs(name: string, revList: seq<(string, int)>)

  /** The number of revisions over all projects. */
  function TotalRevs(projects: seq<ProjectRevs>): nat {
    if |projects| == 0 then 0 else |projects[0].revList| + TotalRevs(projects[1..])
  }

  /** The project names, in project order. */
  function Names(projects: seq<ProjectRevs>): (names: seq<string>)
    ensures |names| == |projects|
    ensures forall i :: 0 <= i < |projects| ==> names[i] == projects[i].name
  {
    seq(|projects|, i requires 0 <= i < |projects| => projects[i].name)
  }

  /** Every project's oldest revision; every revision list must be non-empty. */
  function FirstRevs(projects: seq<ProjectRevs>): (revs: seq<Rev>)
    requires forall i :: 0 <= i < |projects| ==> |projects[i].revList| > 0
    ensures |revs| == |projects|
  {
    seq(|projects|, i requires 0 <= i < |projects| =>
      Rev(projects[i].revList[0].0, projects[i].name, projects[i].revList[0].1))
  }

  /**
   * Heads whose chains walk the projects' revision lists hold every
   * project's first revision, one per project in project order, and each
   * chain keeps to its project.
   */
  lemma HeadsOfProjects(projects: seq<ProjectRevs>, heads: seq<LinkedRev>)
    requires |heads| == |projects|
    requires forall i :: 0 <= i < |projects| ==> Walk(Some(heads[i])) == RevsOf(projects[i].name, projects[i].revList)
    requires forall i :: 0 <= i < |projects| ==> |projects[i].revList| > 0
    ensures AllOneProject(heads)
    ensures DataOf(heads) == FirstRevs(projects)
    ensures ProjectsOf(DataOf(heads)) == Names(projects)
  {
    forall i | 0 <= i < |heads| ensures OneProject(heads[i]) && heads[i].data == FirstRevs(projects)[i] {
      assert Walk(Some(heads[i]))[0] == heads[i].data;
    }
  }

  datatype Backend = GitBackend | HgBackend

  /**
   * The repository class `Project.__init__` picks for its `vcs` string;
   * `None` stands for the logged error and `exit(1)`.
   */
  function SelectBackend(vcs: string): (b: Option<Backend>)
    ensures b == Some(GitBackend) <==> vcs == "git"
    ensures b == Some(HgBackend) <==> vcs == "hg"
    ensures b.None? <==> vcs != "git" && vcs != "hg"
  {
    if vcs == "git" then Some(GitBackend)
    else if vcs == "hg" then Some(HgBackend)
    else None
  }

  /** The revisions of `project` listed in `revList`, as `Rev` values. */
  function RevsOf(project: string, revList: seq<(string, int)>): (revs: seq<Rev>)
    ensures |revs| == |revList|
    ensures forall i :: 0 <= i < |revList| ==>
      revs[i] == Rev(revList[i].0, project, revList[i].1)
  {
    seq(|revList|, i requires 0 <= i < |revList| => Rev(revList[i].0, project, revList[i].1))
  }

  /**
   * `Project.rev_ll`: walks the repository's revision list backwards,
   * putting each new `Rev` in front of the previous head. Following
   * `next_rev` from the result yields the list's revisions in order; an
   * empty list gives `None`.
   */
  function RevLl(project: string, revList: seq<(string, int)>): (head: Option<LinkedRev>)
    ensures Walk(head) == RevsOf(project, revList)
    ensures head.None? <==> |revList| == 0
    ensures forall i :: 0 <= i < |revList| ==> Walk(head)[i].hash == revList[i].0
    ensures forall i :: 0 <= i < |revList| ==> Walk(head)[i].date == revList[i].1
  {
    MakeLl(RevsOf(project, revList))
  }

  /**
   * `fix_git_timestamp`: git prints `2013-01-29 16:06:52 -0800`; ISO 8601
   * wants `2013-01-29T16:06:52-0800`. Position 10 becomes `T` and the
   * character at position 19 is deleted. Shorter strings make Python
   * raise `IndexError`.
   */
  function FixGitTimestamp(ts: string): (r: string)
    requires |ts| >= 20
    ensures |r| == |ts| - 1
    ensures r[10] == 'T'
    ensures forall i :: 0 <= i < 19 && i != 10 ==> r[i] == ts[i]
    ensures forall i :: 19 <= i < |r| ==> r[i] == ts[i + 1]
  {
    ts[..10] + "T" + ts[11..19] + ts[20..]
  }

  lemma FixGitTimestampExample()
    ensures FixGitTimestamp("2013-01-29 16:06:52 -0800") == "2013-01-29T16:06:52-0800"
  {
  }

  /**
   * A timestamp in git's own layout (space at 10 and at 19) is recovered
   * from its fixed form by putting the two spaces back: nothing but those
   * two characters is lost.
   */
  lemma FixGitTimestampInvertible(ts: string)
    requires |ts| >= 20 && ts[10] == ' ' && ts[19] == ' '
    ensures var r := FixGitTimestamp(ts); r[..10] + " " + r[11..19] + " " + r[19..] == ts
  {
  }

  /** The separator `rev_list` puts between hash and date in `--pretty`. */
  const LogSeparator: string := " --- "

  /**
   * The commit range given to `git log`: `end` alone when `start` is a
   * root commit (its parent list, stripped, is empty), `start^..end`
   * otherwise, so that `start` itself is listed.
   */
  function CommitRange(start: string, end: string, parentsOfStart: string): (range: string)
    ensures Strings.IsBlank(parentsOfStart) ==> range == end
    ensures !Strings.IsBlank(parentsOfStart) ==> range == start + "^.." + end
  {
    if Strings.Strip(parentsOfStart) == "" then end else start + "^.." + end
  }

  /**
   * The `git log` command line of `GitRepository.rev_list`. `--first-parent`
   * is present exactly when merges are not followed.
   */
  function GitLogCommand(followMerges: bool, start: string, end: string, parentsOfStart: string): (cmd: seq<string>)
    ensures |cmd| == if followMerges then 5 else 6
    ensures cmd[..2] == ["git", "log"]
    ensures cmd[2] == "--first-parent" <==> !followMerges
    ensures cmd[|cmd| - 3] == "--date-order"
    ensures cmd[|cmd| - 2] == CommitRange(start, end, parentsOfStart)
    ensures cmd[|cmd| - 1] == "--pretty=%H" + LogSeparator + "%ci"
  {
    var tail := ["--date-order", CommitRange(start, end, parentsOfStart), "--pretty=%H" + LogSeparator + "%ci"];
    DateOrderIsNotFlag();
    var cmd := ["git", "log"] + (if followMerges then [] else ["--first-parent"]) + tail;
    CommandShape(followMerges, tail, cmd);
    cmd
  }

  lemma DateOrderIsNotFlag()
    ensures "--date-order" != "--first-parent"
  {
  }

  /** The shape of the command: `git log`, the optional flag, then the three-word tail. */
  lemma CommandShape(followMerges: bool, tail: seq<string>, cmd: seq<string>)
    requires |tail| == 3 && tail[0] != "--first-parent"
    requires cmd == ["git", "log"] + (if followMerges then [] else ["--first-parent"]) + tail
    ensures |cmd| == if followMerges then 5 else 6
    ensures cmd[..2] == ["git", "log"]
    ensures cmd[2] == "--first-parent" <==> !followMerges
    ensures cmd[|cmd| - 3] == tail[0] && cmd[|cmd| - 2] == tail[1] && cmd[|cmd| - 1] == tail[2]
  {
  }

  /** The stripped, non-blank lines of `lines`, in order. */
  function NonBlank(lines: seq<string>): (r: seq<string>)
    ensures |r| <= |lines|
    ensures forall k :: 0 <= k < |r| ==> r[k] != ""
  {
    if |lines| == 0 then []
    else
      var t := Strings.Strip(lines[0]);
      if t == "" then NonBlank(lines[1..]) else [t] + NonBlank(lines[1..])
  }

  /** How many of `lines` hold something besides whitespace. */
  function CountNonBlank(lines: seq<string>): nat {
    if |lines| == 0 then 0
    else (if Strings.IsBlank(lines[0]) then 0 else 1) + CountNonBlank(lines[1..])
  }

  /** The lines kept from `a + b` are those kept from `a`, then those kept from `b`. */
  lemma {:induction false} NonBlankAppend(a: seq<string>, b: seq<string>)
    ensures NonBlank(a + b) == NonBlank(a) + NonBlank(b)
    decreases |a|
  {
    if |a| == 0 {
      assert a + b == b;
    } else {
      assert (a + b)[0] == a[0];
      assert (a + b)[1..] == a[1..] + b;
      NonBlankAppend(a[1..], b);
    }
  }

  /** One line is kept, stripped, exactly when it holds something besides whitespace. */
  lemma NonBlankOne(line: string)
    ensures NonBlank([line]) == if Strings.IsBlank(line) then [] else [Strings.Strip(line)]
  {
    assert [line][1..] == [];
  }

  lemma {:induction false} NonBlankCount(lines: seq<string>)
    ensures |NonBlank(lines)| == CountNonBlank(lines)
    decreases |lines|
  {
    if |lines| > 0 {
      NonBlankCount(lines[1..]);
    }
  }

  /** One log line split at its first separator into hash and date text. */
  function SplitLogLine(line: string): (e: (string, string))
    ensures Strings.Find(line, LogSeparator).Some? ==>
      line == e.0 + LogSeparator + e.1 && |e.0| == Strings.Find(line, LogSeparator).value
    ensures Strings.Find(line, LogSeparator).None? ==> e == (line, "")
  {
    var (h, _, d) := Strings.Partition(line, LogSeparator);
    (h, d)
  }

  /**
   * The text handling of `rev_list`: split the output into lines, strip
   * them, drop blank ones, and split each at the first separator. There
   * is one entry per non-blank output line, in output order.
   */
  function SplitLogOutput(raw: string): (entries: seq<(string, string)>)
    ensures |entries| == CountNonBlank(Strings.Split(raw, '\n'))
    ensures |entries| == |LogLines(raw)|
    ensures forall k :: 0 <= k < |entries| ==> entries[k] == SplitLogLine(LogLines(raw)[k])
  {
    var lines := LogLines(raw);
    NonBlankCount(Strings.Split(raw, '\n'));
    seq(|lines|, k requires 0 <= k < |lines| => SplitLogLine(lines[k]))
  }

  /** The stripped non-blank lines of `git log` output. */
  function LogLines(raw: string): seq<string> {
    NonBlank(Strings.Split(raw, '\n'))
  }
}
