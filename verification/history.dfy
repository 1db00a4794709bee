/**
 * The package's history merge (bisect_b2g/history.py). Every project's
 * revisions form a `next_rev` chain; the merge repeatedly emits a line
 * holding each chain's current head (plus the heads of chains already
 * run out) and then advances the chain whose head is OLDEST. The loop
 * stops as soon as the first chain runs out.
 */
module History {
  import opened Types
  import opened Chain
  import opened Chains
  import opened Repository
  import Strings
  import SeqFacts

  /** The two keys `create_line` sorts a line by. */
  datatype SortKey = ByName | ByDate

  /** `a` sorts strictly before `b` under key `k`. */
  predicate Before(k: SortKey, a: LinkedRev, b: LinkedRev) {
    match k
    case ByName => Strings.Less(a.data.project, b.data.project)
    case ByDate => a.data.date < b.data.date
  }

  predicate Sorted(k: SortKey, s: seq<LinkedRev>) {
    forall i :: 0 < i < |s| ==> !Before(k, s[i], s[i - 1])
  }

  /** Inserts `x` after every element that does not sort after it (stable). */
  function Insert(k: SortKey, x: LinkedRev, s: seq<LinkedRev>): (r: seq<LinkedRev>)
    requires Sorted(k, s)
    ensures Sorted(k, r)
    ensures multiset(r) == multiset(s) + multiset{x}
    ensures |r| == |s| + 1
    ensures r[0] == x || (|s| > 0 && r[0] == s[0])
  {
    if |s| == 0 then [x]
    else if Before(k, x, s[0]) then
      Strings.LessAsymmetric(x.data.project, s[0].data.project);
      [x] + s
    else
      assert s == [s[0]] + s[1..];
      [s[0]] + Insert(k, x, s[1..])
  }

  /** Python's stable `sorted(s, key=...)` for the key `k`. */
  function Sort(k: SortKey, s: seq<LinkedRev>): (r: seq<LinkedRev>)
    ensures Sorted(k, r)
    ensures multiset(r) == multiset(s)
    ensures |r| == |s|
  {
    if |s| == 0 then []
    else
      assert s == s[..|s| - 1] + [s[|s| - 1]];
      Insert(k, s[|s| - 1], Sort(k, s[..|s| - 1]))
  }

  /** The scan of `oldest`, having looked at `heads[..k]` with `best` the winner so far. */
  function OldestFrom(heads: seq<LinkedRev>, best: nat, k: nat): (i: nat)
    requires best < k <= |heads|
    requires forall j :: 0 <= j < k ==> heads[best].data.date <= heads[j].data.date
    requires forall j :: 0 <= j < best ==> heads[j].data.date > heads[best].data.date
    ensures i < |heads|
    ensures forall j :: 0 <= j < |heads| ==> heads[i].data.date <= heads[j].data.date
    ensures forall j :: 0 <= j < i ==> heads[j].data.date > heads[i].data.date
    decreases |heads| - k
  {
    if k == |heads| then best
    else if heads[k].data.date < heads[best].data.date then OldestFrom(heads, k, k + 1)
    else OldestFrom(heads, best, k + 1)
  }

  /**
   * `oldest`: the position of a head with the earliest date. Because the
   * comparison is a strict `<`, the first such head wins a tie.
   */
  function Oldest(heads: seq<LinkedRev>): (i: nat)
    requires |heads| > 0
    ensures i < |heads|
    ensures forall j :: 0 <= j < |heads| ==> heads[i].data.date <= heads[j].data.date
    ensures forall j :: 0 <= j < i ==> heads[j].data.date > heads[i].data.date
  {
    if |heads| == 1 then 0 else OldestFrom(heads, 0, 1)
  }

  /** The two properties in `Oldest`'s contract single out one position. */
  lemma OldestUnique(heads: seq<LinkedRev>, i: nat)
    requires i < |heads|
    requires forall j :: 0 <= j < |heads| ==> heads[i].data.date <= heads[j].data.date
    requires forall j :: 0 <= j < i ==> heads[j].data.date > heads[i].data.date
    ensures Oldest(heads) == i
  {
  }

  /** `Oldest` of a one-element list is that element. */
  lemma OldestSingle(h: LinkedRev)
    ensures Oldest([h]) == 0
  {
  }

  /** `make_revision_linked_list`: the project's revisions as a `next_rev` chain. */
  function MakeRevisionLinkedList(p: ProjectRevs): (head: Option<LinkedRev>)
    ensures Walk(head) == RevsOf(p.name, p.revList)
    ensures head.None? <==> |p.revList| == 0
  {
    RevLl(p.name, p.revList)
  }

  /**
   * The line `create_line` returns for the given heads: every exhausted
   * and every current head, sorted by date and then (stably) by project
   * name, as the three `sorted` calls and the in-place `sort` do.
   */
  function LineOf(exhausted: seq<LinkedRev>, heads: seq<LinkedRev>): (line: seq<LinkedRev>)
    ensures multiset(line) == multiset(exhausted + heads)
    ensures |line| == |exhausted| + |heads|
    ensures Sorted(ByName, line)
  {
    var line := Sort(ByDate, Sort(ByName, exhausted + heads));
    var line' := Sort(ByName, line);
    Sort(ByName, line')
  }

  /** The exhausted heads and the heads still advancing. */
  datatype Heads = Heads(exhausted: seq<LinkedRev>, heads: seq<LinkedRev>)

  /**
   * The advance in `create_line`: the oldest head moves to its `next_rev`
   * in place, or, if it has none, leaves `heads` for the end of
   * `exhausted_heads`. Every other head stays where it was, and exactly
   * one node is consumed.
   */
  function AdvanceOldest(exhausted: seq<LinkedRev>, heads: seq<LinkedRev>): (r: Heads)
    requires |heads| > 0
    ensures var i := Oldest(heads);
      if heads[i].next.None? then
        r.exhausted == exhausted + [heads[i]] && r.heads == heads[..i] + heads[i + 1..]
      else
        r.exhausted == exhausted && r.heads == heads[i := heads[i].next.value]
    ensures |r.exhausted| + |r.heads| == |exhausted| + |heads|
    ensures Remaining(r.heads) == Remaining(heads) - 1
  {
    var i := Oldest(heads);
    var o := heads[i];
    if o.next.None? then
      RemainingRemove(heads, i);
      LenLast(o);
      Heads(exhausted + [o], heads[..i] + heads[i + 1..])
    else
      RemainingUpdate(heads, i, o.next.value);
      LenNext(o);
      Heads(exhausted, heads[i := o.next.value])
  }

  /** Every line of `h` has `width` entries and is sorted by project name. */
  predicate WellFormed(h: seq<seq<LinkedRev>>, width: nat) {
    forall k :: 0 <= k < |h| ==> |h[k]| == width && Sorted(ByName, h[k])
  }

  lemma WellFormedCons(line: seq<LinkedRev>, rest: seq<seq<LinkedRev>>, width: nat)
    requires |line| == width && Sorted(ByName, line)
    requires WellFormed(rest, width)
    ensures WellFormed([line] + rest, width)
  {
  }

  /**
   * The loop of `build_history`, with its guard written as in the source:
   * `len(heads) > len(heads) + len(exhausted_heads) - 1`. The guard holds
   * exactly while no chain has run out, so lines are emitted until the
   * first exhaustion and not after.
   */
  function Lines(exhausted: seq<LinkedRev>, heads: seq<LinkedRev>): (h: seq<seq<LinkedRev>>)
    requires |exhausted| == 0 ==> |heads| > 0
    ensures |h| > 0 <==> |exhausted| == 0
    ensures WellFormed(h, |exhausted| + |heads|)
    ensures |h| > 0 ==> multiset(h[0]) == multiset(exhausted + heads)
    decreases Remaining(heads)
  {
    if |heads| > |heads| + |exhausted| - 1 then
      var next := AdvanceOldest(exhausted, heads);
      var rest := Lines(next.exhausted, next.heads);
      var line := LineOf(exhausted, heads);
      WellFormedCons(line, rest, |exhausted| + |heads|);
      [line] + rest
    else
      []
  }

  /** The first head of every project's chain; every chain must be non-empty. */
  function InitialHeads(projects: seq<ProjectRevs>): (heads: seq<LinkedRev>)
    requires forall i :: 0 <= i < |projects| ==> |projects[i].revList| > 0
    ensures |heads| == |projects|
    ensures forall i :: 0 <= i < |projects| ==>
      Walk(Some(heads[i])) == RevsOf(projects[i].name, projects[i].revList)
  {
    seq(|projects|, i requires 0 <= i < |projects| => MakeRevisionLinkedList(projects[i]).value)
  }

  /** Every line of `h` holds the projects `m`, each as often as `m` counts it. */
  predicate ProjectsEveryLine(h: seq<seq<LinkedRev>>, m: multiset<string>) {
    forall k :: 0 <= k < |h| ==> multiset(ProjectsOf(DataOf(h[k]))) == m
  }

  lemma ProjectsEveryLineCons(line: seq<LinkedRev>, rest: seq<seq<LinkedRev>>, m: multiset<string>)
    requires multiset(ProjectsOf(DataOf(line))) == m && ProjectsEveryLine(rest, m)
    ensures ProjectsEveryLine([line] + rest, m)
  {
  }

  /**
   * Every line the loop emits holds the projects of the heads it started
   * from, each as often as there: advancing a head in place keeps its
   * project, because a chain never leaves its project.
   */
  lemma {:induction false} LinesKeepProjects(exhausted: seq<LinkedRev>, heads: seq<LinkedRev>)
    requires |exhausted| == 0 ==> |heads| > 0
    requires AllOneProject(heads)
    ensures ProjectsEveryLine(Lines(exhausted, heads), multiset(ProjectsOf(DataOf(exhausted + heads))))
    decreases Remaining(heads)
  {
    if |exhausted| == 0 {
      var m := multiset(ProjectsOf(DataOf(exhausted + heads)));
      var next := AdvanceOldest(exhausted, heads);
      var rest := Lines(next.exhausted, next.heads);
      var line := LineOf(exhausted, heads);
      assert Lines(exhausted, heads) == [line] + rest;
      ProjectsPermutation(line, exhausted + heads);
      var i := Oldest(heads);
      if heads[i].next.Some? {
        AdvanceKeepsProjects(exhausted, heads, i);
        LinesKeepProjects(next.exhausted, next.heads);
      } else {
        assert rest == [];
      }
      ProjectsEveryLineCons(line, rest, m);
    }
  }

  /**
   * `build_history`: the merged history. It is never empty, every line
   * has one entry per project sorted by project name, every line holds
   * each project exactly as often as the project list names it, and the
   * first line holds every project's first revision.
   */
  function BuildHistory(projects: seq<ProjectRevs>): (history: seq<seq<LinkedRev>>)
    requires |projects| > 0
    requires forall i :: 0 <= i < |projects| ==> |projects[i].revList| > 0
    ensures |history| > 0
    ensures WellFormed(history, |projects|)
    ensures ProjectsEveryLine(history, multiset(Names(projects)))
    ensures multiset(history[0]) == multiset(InitialHeads(projects))
    ensures multiset(DataOf(history[0])) == multiset(FirstRevs(projects))
  {
    var heads := InitialHeads(projects);
    HeadsOfProjects(projects, heads);
    LinesKeepProjects([], heads);
    assert [] + heads == heads;
    var history := Lines([], heads);
    ProjectsPermutation(history[0], heads);
    history
  }

  /** `b` is `a` with one revision `o` replaced by its `next_rev`. */
  ghost predicate AdvancedOnce(a: seq<LinkedRev>, b: seq<LinkedRev>) {
    exists o :: o in a && o.next.Some? &&
      multiset(b) == multiset(a) - multiset{o} + multiset{o.next.value}
  }

  /** Each line of `h` after the first is the one before it advanced once. */
  ghost predicate AdvancesOneAtATime(h: seq<seq<LinkedRev>>) {
    forall k :: 0 <= k < |h| - 1 ==> AdvancedOnce(h[k], h[k + 1])
  }

  lemma AdvancesOneAtATimeCons(line: seq<LinkedRev>, rest: seq<seq<LinkedRev>>)
    requires |rest| > 0 ==> AdvancedOnce(line, rest[0])
    requires AdvancesOneAtATime(rest)
    ensures AdvancesOneAtATime([line] + rest)
  {
  }

  /**
   * Consecutive lines of the history differ in exactly one project, whose
   * revision moved to its `next_rev`.
   */
  lemma {:induction false} ConsecutiveLinesAdvanceOne(heads: seq<LinkedRev>)
    requires |heads| > 0
    ensures AdvancesOneAtATime(Lines([], heads))
    decreases Remaining(heads)
  {
    var next := AdvanceOldest([], heads);
    var rest := Lines(next.exhausted, next.heads);
    var line := LineOf([], heads);
    assert Lines([], heads) == [line] + rest;
    if |rest| > 0 {
      ConsecutiveLinesAdvanceOne(next.heads);
      FirstAdvance(heads);
    }
    AdvancesOneAtATimeCons(line, rest);
  }

  /** When the loop goes on, the second line is the first with the oldest head advanced. */
  lemma FirstAdvance(heads: seq<LinkedRev>)
    requires |heads| > 0
    requires AdvanceOldest([], heads).exhausted == []
    ensures var next := AdvanceOldest([], heads);
      AdvancedOnce(LineOf([], heads), LineOf([], next.heads))
    ensures var o := heads[Oldest(heads)]; var next := AdvanceOldest([], heads);
      o.next.Some? &&
      multiset(LineOf([], next.heads)) == multiset(LineOf([], heads)) - multiset{o} + multiset{o.next.value}
  {
    var i := Oldest(heads);
    var o := heads[i];
    var next := AdvanceOldest([], heads);
    assert o.next.Some?;
    SeqFacts.MultisetUpdate(heads, i, o.next.value);
    assert [] + heads == heads;
    assert [] + next.heads == next.heads;
    assert o in multiset(LineOf([], heads));
  }

  /**
   * One advance happens per line except the last, and no chain is ever
   * advanced past its end before the loop stops: the history is at least
   * as long as the shortest chain and at most the total number of
   * revisions minus the number of chains, plus one.
   */
  lemma {:induction false} LinesLength(heads: seq<LinkedRev>)
    requires |heads| > 0
    ensures MinLen(heads) <= |Lines([], heads)| <= Remaining(heads) - |heads| + 1
    decreases Remaining(heads)
  {
    var next := AdvanceOldest([], heads);
    var rest := Lines(next.exhausted, next.heads);
    var i := Oldest(heads);
    var o := heads[i];
    if o.next.None? {
      LenLast(o);
    } else {
      LinesLength(next.heads);
      MinLenAdvance(heads, i);
    }
  }

  /** Advancing one chain shortens the shortest chain by at most one. */
  lemma MinLenAdvance(heads: seq<LinkedRev>, i: nat)
    requires i < |heads| && heads[i].next.Some?
    ensures MinLen(heads) <= MinLen(heads[i := heads[i].next.value]) + 1
  {
  }

  /** `h` is one single-revision line per element of `revs`, in order. */
  predicate OneLinePerRev(h: seq<seq<LinkedRev>>, revs: seq<Rev>) {
    && |h| == |revs|
    && forall k :: 0 <= k < |h| ==> |h[k]| == 1 && h[k][0].data == revs[k]
  }

  lemma OneLinePerRevCons(n: LinkedRev, rest: seq<seq<LinkedRev>>, revs: seq<Rev>)
    requires OneLinePerRev(rest, revs)
    ensures OneLinePerRev([[n]] + rest, [n.data] + revs)
  {
  }

  lemma {:induction false} RemainingInitialHeads(projects: seq<ProjectRevs>)
    requires forall i :: 0 <= i < |projects| ==> |projects[i].revList| > 0
    ensures Remaining(InitialHeads(projects)) == TotalRevs(projects)
    decreases |projects|
  {
    if |projects| > 0 {
      RemainingInitialHeads(projects[1..]);
      assert InitialHeads(projects)[1..] == InitialHeads(projects[1..]);
    }
  }

  /**
   * The package history is at least as long as some project's chain and
   * at most the total number of revisions minus the number of projects,
   * plus one; it reaches the sum of the chain lengths only for a single
   * project.
   */
  lemma HistoryLength(projects: seq<ProjectRevs>)
    requires |projects| > 0
    requires forall i :: 0 <= i < |projects| ==> |projects[i].revList| > 0
    ensures exists i :: 0 <= i < |projects| && |projects[i].revList| <= |BuildHistory(projects)|
    ensures |BuildHistory(projects)| <= TotalRevs(projects) - |projects| + 1
  {
    StartLength(projects);
    BuildIsLines(projects);
    var j :| 0 <= j < |projects| && |projects[j].revList| <= |Lines([], InitialHeads(projects))|;
    assert |projects[j].revList| <= |BuildHistory(projects)|;
  }

  /** The bounds of `HistoryLength`, for the loop run from the starting heads. */
  lemma StartLength(projects: seq<ProjectRevs>)
    requires |projects| > 0
    requires forall i :: 0 <= i < |projects| ==> |projects[i].revList| > 0
    ensures exists i :: 0 <= i < |projects| && |projects[i].revList| <= |Lines([], InitialHeads(projects))|
    ensures |Lines([], InitialHeads(projects))| <= TotalRevs(projects) - |projects| + 1
  {
    var heads := InitialHeads(projects);
    LinesLength(heads);
    RemainingInitialHeads(projects);
    var j :| 0 <= j < |heads| && MinLen(heads) == Len(heads[j]);
    assert Walk(Some(heads[j])) == RevsOf(projects[j].name, projects[j].revList);
    assert Len(heads[j]) == |projects[j].revList|;
  }

  /** `build_history` is the loop run from the projects' starting heads. */
  lemma BuildIsLines(projects: seq<ProjectRevs>)
    requires |projects| > 0
    requires forall i :: 0 <= i < |projects| ==> |projects[i].revList| > 0
    ensures BuildHistory(projects) == Lines([], InitialHeads(projects))
  {
  }

  /** A single chain of N revisions gives N one-element lines, in chain order. */
  lemma {:induction false} SingleChainLines(n: LinkedRev)
    ensures OneLinePerRev(Lines([], [n]), Walk(Some(n)))
    decreases Len(n)
  {
    var line := LineOf([], [n]);
    assert [] + [n] == [n];
    assert line == [n] by {
      assert multiset(line) == multiset{n};
      assert line[0] in multiset(line);
    }
    assert Oldest([n]) == 0;
    if n.next.None? {
      assert Lines([n], []) == [];
      assert Walk(n.next) == [];
      assert Lines([], [n]) == [[n]];
    } else {
      var n' := n.next.value;
      assert [n][0 := n'] == [n'];
      var rest := Lines([], [n']);
      assert Lines([], [n]) == [[n]] + rest;
      SingleChainLines(n');
      LenNext(n);
      OneLinePerRevCons(n, rest, Walk(Some(n')));
    }
  }

  /** With one project of N revisions the history is N one-revision lines in order. */
  lemma SingleProjectHistory(p: ProjectRevs)
    requires |p.revList| > 0
    ensures OneLinePerRev(BuildHistory([p]), RevsOf(p.name, p.revList))
  {
    var heads := InitialHeads([p]);
    assert heads == [heads[0]];
    BuildIsLines([p]);
    SingleChainLines(heads[0]);
    assert Walk(Some(heads[0])) == RevsOf(p.name, p.revList);
  }

  /**
   * The loop stops at the first exhaustion, even when other chains still
   * have revisions: project `a` has one revision dated 1 and `b` two dated
   * 2 and 3; the history is a single line and `b`'s last revision never
   * appears in it.
   */
  lemma StopsAtFirstExhaustion()
    ensures |BuildHistory([ProjectRevs("a", [("a1", 1)]), ProjectRevs("b", [("b1", 2), ("b2", 3)])])| == 1
  {
  }
}
