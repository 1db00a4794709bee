/**
 * The first-generation history merge (`build_history` in bisection.py).
 * Its inner `oldest` returns the head with the LATEST date; `create_line`
 * keeps moving the latest remaining head into the line until one head is
 * left, and that earliest head is the one advanced (or retired to
 * `last_revs` when it has no successor). The loop runs until every chain
 * is spent, so one line is emitted per revision.
 */
module LegacyHistory {
  import opened Types
  import opened Chain
  import opened Chains
  import opened Repository
  import SeqFacts

  /** Every entry of `ps` is a position in `revLists`. */
  predicate ValidPositions(revLists: seq<LinkedRev>, ps: seq<nat>) {
    forall j :: 0 <= j < |ps| ==> ps[j] < |revLists|
  }

  /** The date of the head at position `p`. */
  function DateAt(revLists: seq<LinkedRev>, p: nat): int
    requires p < |revLists|
  {
    revLists[p].data.date
  }

  /** The scan of the inner `oldest`, having looked at `ps[..k]` with `best` the winner so far. */
  function LatestFrom(revLists: seq<LinkedRev>, ps: seq<nat>, best: nat, k: nat): (o: nat)
    requires ValidPositions(revLists, ps)
    requires best < k <= |ps|
    requires forall j :: 0 <= j < k ==> DateAt(revLists, ps[j]) <= DateAt(revLists, ps[best])
    requires forall j :: 0 <= j < best ==> DateAt(revLists, ps[j]) < DateAt(revLists, ps[best])
    ensures o < |ps|
    ensures forall j :: 0 <= j < |ps| ==> DateAt(revLists, ps[j]) <= DateAt(revLists, ps[o])
    ensures forall j :: 0 <= j < o ==> DateAt(revLists, ps[j]) < DateAt(revLists, ps[o])
    decreases |ps| - k
  {
    if k == |ps| then best
    else if DateAt(revLists, ps[k]) > DateAt(revLists, ps[best]) then LatestFrom(revLists, ps, k, k + 1)
    else LatestFrom(revLists, ps, best, k + 1)
  }

  /**
   * The inner `oldest`, which despite its name picks the head with the
   * latest date; the comparison is a strict `>`, so the first such head
   * wins a tie. The result is a position in `ps`.
   */
  function Latest(revLists: seq<LinkedRev>, ps: seq<nat>): (o: nat)
    requires |ps| > 0 && ValidPositions(revLists, ps)
    ensures o < |ps|
    ensures forall j :: 0 <= j < |ps| ==> DateAt(revLists, ps[j]) <= DateAt(revLists, ps[o])
    ensures forall j :: 0 <= j < o ==> DateAt(revLists, ps[j]) < DateAt(revLists, ps[o])
  {
    if |ps| == 1 then 0 else LatestFrom(revLists, ps, 0, 1)
  }

  /** The heads at positions `order` have non-increasing dates. */
  predicate LatestFirst(revLists: seq<LinkedRev>, order: seq<nat>)
    requires ValidPositions(revLists, order)
  {
    forall a, b :: 0 <= a < b < |order| ==> DateAt(revLists, order[a]) >= DateAt(revLists, order[b])
  }

  /** Taking position `o` out of `ps` leaves valid positions. */
  lemma RemoveValid(revLists: seq<LinkedRev>, ps: seq<nat>, o: nat)
    requires ValidPositions(revLists, ps) && o < |ps|
    ensures ValidPositions(revLists, ps[..o] + ps[o + 1..])
  {
  }

  /** The heads still in play once the inner `oldest` has taken the latest out. */
  function Rest(revLists: seq<LinkedRev>, ps: seq<nat>): (rest: seq<nat>)
    requires |ps| > 1 && ValidPositions(revLists, ps)
    ensures |rest| == |ps| - 1 && ValidPositions(revLists, rest)
  {
    var o := Latest(revLists, ps);
    RemoveValid(revLists, ps, o);
    ps[..o] + ps[o + 1..]
  }

  /**
   * The bare recursion of `create_line` over the heads `ps` still in
   * play: each call moves the latest head to the end of `prev`; the one
   * left over comes last.
   */
  function RemovalOrder(revLists: seq<LinkedRev>, ps: seq<nat>): (order: seq<nat>)
    requires |ps| > 0 && ValidPositions(revLists, ps)
    ensures |order| == |ps|
    decreases |ps|
  {
    if |ps| == 1 then ps
    else [ps[Latest(revLists, ps)]] + RemovalOrder(revLists, Rest(revLists, ps))
  }

  /** The recursion's order is a permutation of `ps` from latest to earliest date. */
  lemma {:induction false} RemovalOrderFacts(revLists: seq<LinkedRev>, ps: seq<nat>)
    requires |ps| > 0 && ValidPositions(revLists, ps)
    ensures var order := RemovalOrder(revLists, ps);
      multiset(order) == multiset(ps) && ValidPositions(revLists, order) && LatestFirst(revLists, order)
    decreases |ps|
  {
    if |ps| > 1 {
      var o := Latest(revLists, ps);
      var rest := Rest(revLists, ps);
      SeqFacts.MultisetRemove(ps, o);
      RemovalOrderFacts(revLists, rest);
      var sub := RemovalOrder(revLists, rest);
      NoneLater(revLists, ps, o, sub);
      LatestFirstCons(revLists, ps[o], sub);
      assert RemovalOrder(revLists, ps) == [ps[o]] + sub;
    }
  }

  /**
   * The order in which the recursion of `create_line` puts the heads at
   * positions `ps` into the line: every one exactly once, from latest to
   * earliest date.
   */
  function StripOrder(revLists: seq<LinkedRev>, ps: seq<nat>): (order: seq<nat>)
    requires |ps| > 0 && ValidPositions(revLists, ps)
    ensures |order| == |ps|
    ensures multiset(order) == multiset(ps)
    ensures ValidPositions(revLists, order)
    ensures LatestFirst(revLists, order)
  {
    RemovalOrderFacts(revLists, ps);
    RemovalOrder(revLists, ps)
  }

  /** What is left once the latest head is taken out is no later than it. */
  lemma NoneLater(revLists: seq<LinkedRev>, ps: seq<nat>, o: nat, sub: seq<nat>)
    requires ValidPositions(revLists, ps) && o < |ps|
    requires forall j :: 0 <= j < |ps| ==> DateAt(revLists, ps[j]) <= DateAt(revLists, ps[o])
    requires multiset(sub) == multiset(ps[..o] + ps[o + 1..])
    ensures forall j :: 0 <= j < |sub| ==> sub[j] < |revLists| && DateAt(revLists, sub[j]) <= DateAt(revLists, ps[o])
  {
    forall j | 0 <= j < |sub|
      ensures sub[j] < |revLists| && DateAt(revLists, sub[j]) <= DateAt(revLists, ps[o])
    {
      var x := sub[j];
      assert x in multiset(ps[..o] + ps[o + 1..]);
      assert x in ps[..o] || x in ps[o + 1..];
      assert x in ps;
    }
  }

  lemma LatestFirstCons(revLists: seq<LinkedRev>, p: nat, sub: seq<nat>)
    requires p < |revLists| && ValidPositions(revLists, sub) && LatestFirst(revLists, sub)
    requires forall j :: 0 <= j < |sub| ==> DateAt(revLists, sub[j]) <= DateAt(revLists, p)
    ensures ValidPositions(revLists, [p] + sub) && LatestFirst(revLists, [p] + sub)
  {
  }

  /** The positions `0, 1, ..., n - 1`, the order of `rev_lists`. */
  function Positions(n: nat): (ps: seq<nat>)
    ensures |ps| == n
    ensures forall i :: 0 <= i < n ==> ps[i] == i
  {
    seq(n, i requires 0 <= i < n => i)
  }

  /** The revision data of the heads at positions `ps`. */
  function Pick(revLists: seq<LinkedRev>, ps: seq<nat>): (revs: seq<Rev>)
    requires ValidPositions(revLists, ps)
    ensures |revs| == |ps|
  {
    if |ps| == 0 then [] else [revLists[ps[0]].data] + Pick(revLists, ps[1..])
  }

  lemma {:induction false} PickIndex(revLists: seq<LinkedRev>, ps: seq<nat>, i: nat)
    requires ValidPositions(revLists, ps) && i < |ps|
    ensures Pick(revLists, ps)[i] == revLists[ps[i]].data
    decreases i
  {
    if i > 0 {
      PickIndex(revLists, ps[1..], i - 1);
    }
  }

  lemma ValidAppend(revLists: seq<LinkedRev>, a: seq<nat>, b: seq<nat>)
    requires ValidPositions(revLists, a) && ValidPositions(revLists, b)
    ensures ValidPositions(revLists, a + b)
  {
  }

  lemma {:induction false} PickAppend(revLists: seq<LinkedRev>, a: seq<nat>, b: seq<nat>)
    requires ValidPositions(revLists, a) && ValidPositions(revLists, b)
    ensures ValidPositions(revLists, a + b)
    ensures Pick(revLists, a + b) == Pick(revLists, a) + Pick(revLists, b)
    decreases |a|
  {
    ValidAppend(revLists, a, b);
    if |a| == 0 {
      assert a + b == b;
    } else {
      var tail := a[1..];
      ValidAppend(revLists, tail, b);
      assert (a + b)[1..] == tail + b;
      PickAppend(revLists, tail, b);
      var head := [revLists[a[0]].data];
      assert Pick(revLists, a + b) == head + Pick(revLists, tail + b);
      assert Pick(revLists, a) == head + Pick(revLists, tail);
      SeqFacts.AppendAssoc(head, Pick(revLists, tail), Pick(revLists, b));
    }
  }

  /** Dropping the position at index `i` drops its revision from the picked multiset. */
  lemma PickRemove(revLists: seq<LinkedRev>, b: seq<nat>, i: nat)
    requires ValidPositions(revLists, b) && i < |b|
    ensures ValidPositions(revLists, b[..i] + b[i + 1..])
    ensures multiset(Pick(revLists, b)) == multiset{revLists[b[i]].data} + multiset(Pick(revLists, b[..i] + b[i + 1..]))
  {
    SeqFacts.SplitAt(b, i);
    PickAppend(revLists, b[..i] + [b[i]], b[i + 1..]);
    PickAppend(revLists, b[..i], [b[i]]);
    PickAppend(revLists, b[..i], b[i + 1..]);
  }

  /** Picking the same positions in another order gives the same revisions. */
  lemma {:induction false} PickPermutation(revLists: seq<LinkedRev>, a: seq<nat>, b: seq<nat>)
    requires ValidPositions(revLists, a) && ValidPositions(revLists, b)
    requires multiset(a) == multiset(b)
    ensures multiset(Pick(revLists, a)) == multiset(Pick(revLists, b))
    decreases |a|
  {
    if |a| == 0 {
      assert |multiset(b)| == 0;
    } else {
      var x := a[0];
      assert x in multiset(b);
      var i :| 0 <= i < |b| && b[i] == x;
      SeqFacts.MultisetRemove(b, i);
      assert a == [x] + a[1..];
      PickRemove(revLists, b, i);
      PickPermutation(revLists, a[1..], b[..i] + b[i + 1..]);
    }
  }

  /** Picking every position in order gives the heads' own revisions. */
  lemma PickAll(revLists: seq<LinkedRev>)
    ensures ValidPositions(revLists, Positions(|revLists|))
    ensures Pick(revLists, Positions(|revLists|)) == DataOf(revLists)
  {
    var ps := Positions(|revLists|);
    forall i | 0 <= i < |ps| ensures Pick(revLists, ps)[i] == DataOf(revLists)[i] {
      PickIndex(revLists, ps, i);
    }
  }

  /** Heads picked latest-first give revisions with non-increasing dates. */
  lemma PickLatestFirst(revLists: seq<LinkedRev>, order: seq<nat>)
    requires ValidPositions(revLists, order) && LatestFirst(revLists, order)
    ensures forall a, b :: 0 <= a < b < |order| ==> Pick(revLists, order)[a].date >= Pick(revLists, order)[b].date
  {
    forall a, b | 0 <= a < b < |order| ensures Pick(revLists, order)[a].date >= Pick(revLists, order)[b].date {
      PickIndex(revLists, order, a);
      PickIndex(revLists, order, b);
    }
  }

  /** Appending a date-descending tail keeps it descending past the prefix. */
  lemma AppendDescending(prefix: seq<Rev>, tail: seq<Rev>)
    requires forall a, b :: 0 <= a < b < |tail| ==> tail[a].date >= tail[b].date
    ensures forall a, b :: |prefix| <= a < b < |prefix + tail| ==> (prefix + tail)[a].date >= (prefix + tail)[b].date
  {
  }

  /** The last position of a latest-first permutation of all positions holds the earliest date. */
  lemma LastIsEarliest(revLists: seq<LinkedRev>, order: seq<nat>)
    requires |order| > 0 && ValidPositions(revLists, order) && LatestFirst(revLists, order)
    requires multiset(order) == multiset(Positions(|revLists|))
    ensures forall j :: 0 <= j < |revLists| ==> revLists[order[|order| - 1]].data.date <= revLists[j].data.date
  {
    var ps := Positions(|revLists|);
    forall j | 0 <= j < |revLists|
      ensures revLists[order[|order| - 1]].data.date <= revLists[j].data.date
    {
      assert ps[j] == j;
      assert j in multiset(order);
      var m :| 0 <= m < |order| && order[m] == j;
      if m < |order| - 1 {
        assert DateAt(revLists, order[m]) >= DateAt(revLists, order[|order| - 1]);
      }
    }
  }

  /** The positions `ps` are in increasing order, as they are in `rev_lists`. */
  predicate Increasing(ps: seq<nat>) {
    forall a, b :: 0 <= a < b < |ps| ==> ps[a] < ps[b]
  }

  lemma RemoveIncreasing(ps: seq<nat>, o: nat)
    requires o < |ps| && Increasing(ps)
    ensures Increasing(ps[..o] + ps[o + 1..])
  {
  }

  /** Every position of `ps` after `last` holds a strictly later head. */
  predicate LaterAfter(revLists: seq<LinkedRev>, ps: seq<nat>, last: nat)
    requires ValidPositions(revLists, ps) && last < |revLists|
  {
    forall j :: 0 <= j < |ps| && ps[j] > last ==> DateAt(revLists, ps[j]) > DateAt(revLists, last)
  }

  /** The position `last`, left after removing the latest head `ps[o]`, beats every later position. */
  lemma StripStep(revLists: seq<LinkedRev>, ps: seq<nat>, o: nat, m: nat)
    requires ValidPositions(revLists, ps) && Increasing(ps) && o < |ps|
    requires forall j :: 0 <= j < o ==> DateAt(revLists, ps[j]) < DateAt(revLists, ps[o])
    requires forall j :: 0 <= j < |ps| ==> DateAt(revLists, ps[j]) <= DateAt(revLists, ps[o])
    requires m < |ps| - 1
    requires var rest := ps[..o] + ps[o + 1..];
      ValidPositions(revLists, rest) && LaterAfter(revLists, rest, rest[m])
    ensures LaterAfter(revLists, ps, (ps[..o] + ps[o + 1..])[m])
  {
    var rest := ps[..o] + ps[o + 1..];
    var last := rest[m];
    forall j | 0 <= j < |ps| && ps[j] > last
      ensures DateAt(revLists, ps[j]) > DateAt(revLists, last)
    {
      if j == o {
        if m < o {
          assert rest[m] == ps[m];
        }
      } else if j < o {
        assert rest[j] == ps[j];
      } else {
        assert rest[j - 1] == ps[j];
      }
    }
  }

  /**
   * The position `create_line`'s recursion leaves for last: the inner
   * `oldest` takes the latest head out until one is left.
   */
  function LastLeft(revLists: seq<LinkedRev>, ps: seq<nat>): (p: nat)
    requires |ps| > 0 && ValidPositions(revLists, ps)
    ensures p in ps
    decreases |ps|
  {
    if |ps| == 1 then ps[0]
    else
      var o := Latest(revLists, ps);
      var rest := Rest(revLists, ps);
      assert forall x :: x in rest ==> x in ps;
      LastLeft(revLists, rest)
  }

  /**
   * Of positions in increasing order, the one left for last has every
   * later position strictly later in date: among tied earliest heads,
   * the last one in `rev_lists` stays, because the inner `oldest` takes
   * the first of tied latest heads out each time.
   */
  lemma {:induction false} LastLeftLater(revLists: seq<LinkedRev>, ps: seq<nat>)
    requires |ps| > 0 && ValidPositions(revLists, ps) && Increasing(ps)
    ensures LaterAfter(revLists, ps, LastLeft(revLists, ps))
    decreases |ps|
  {
    if |ps| > 1 {
      var o := Latest(revLists, ps);
      var rest := Rest(revLists, ps);
      RemoveIncreasing(ps, o);
      LastLeftLater(revLists, rest);
      var m :| 0 <= m < |rest| && rest[m] == LastLeft(revLists, rest);
      StripStep(revLists, ps, o, m);
    }
  }

  /** The last position of `create_line`'s order is the one its recursion leaves. */
  lemma {:induction false} RemovalOrderLast(revLists: seq<LinkedRev>, ps: seq<nat>)
    requires |ps| > 0 && ValidPositions(revLists, ps)
    ensures RemovalOrder(revLists, ps)[|ps| - 1] == LastLeft(revLists, ps)
    decreases |ps|
  {
    if |ps| > 1 {
      RemovalOrderLast(revLists, Rest(revLists, ps));
      LastStep(revLists, ps);
    }
  }

  lemma LastStep(revLists: seq<LinkedRev>, ps: seq<nat>)
    requires |ps| > 1 && ValidPositions(revLists, ps)
    requires var rest := Rest(revLists, ps);
      RemovalOrder(revLists, rest)[|rest| - 1] == LastLeft(revLists, rest)
    ensures RemovalOrder(revLists, ps)[|ps| - 1] == LastLeft(revLists, ps)
  {
  }

  /** Over all positions, the one left for last is the last of the earliest heads. */
  lemma LastOfAll(revLists: seq<LinkedRev>)
    requires |revLists| > 0
    ensures var last := LastLeft(revLists, Positions(|revLists|));
      forall j :: last < j < |revLists| ==> revLists[last].data.date < revLists[j].data.date
  {
    var ps := Positions(|revLists|);
    LastLeftLater(revLists, ps);
    var last := LastLeft(revLists, ps);
    forall j | last < j < |revLists|
      ensures revLists[last].data.date < revLists[j].data.date
    {
      assert ps[j] == j;
    }
  }

  /**
   * The position of the head `create_line` advances: one with the
   * earliest date, and the last such in `rev_lists` order when several
   * heads share that date.
   */
  function AdvancedPosition(revLists: seq<LinkedRev>): (p: nat)
    requires |revLists| > 0
    ensures p < |revLists|
    ensures forall j :: 0 <= j < |revLists| ==> revLists[p].data.date <= revLists[j].data.date
    ensures forall j :: p < j < |revLists| ==> revLists[p].data.date < revLists[j].data.date
  {
    var ps := Positions(|revLists|);
    var order := StripOrder(revLists, ps);
    LastIsEarliest(revLists, order);
    RemovalOrderLast(revLists, ps);
    LastOfAll(revLists);
    order[|order| - 1]
  }

  /**
   * The line `create_line` appends: the retired heads in the order they
   * ran out, then the active heads from latest to earliest date, the
   * advanced head last. Every project contributes exactly one revision.
   */
  function LineOf(lastRevs: seq<LinkedRev>, revLists: seq<LinkedRev>): (line: seq<Rev>)
    requires |revLists| > 0
    ensures |line| == |lastRevs| + |revLists|
    ensures line[..|lastRevs|] == DataOf(lastRevs)
    ensures multiset(line) == multiset(DataOf(lastRevs + revLists))
    ensures forall a, b :: |lastRevs| <= a < b < |line| ==> line[a].date >= line[b].date
    ensures line[|line| - 1] == revLists[AdvancedPosition(revLists)].data
  {
    var ps := Positions(|revLists|);
    var order := StripOrder(revLists, ps);
    var picked := Pick(revLists, order);
    PickAll(revLists);
    PickPermutation(revLists, order, ps);
    PickLatestFirst(revLists, order);
    PickIndex(revLists, order, |order| - 1);
    SeqFacts.MapAppend(NodeData, lastRevs, revLists);
    AppendDescending(DataOf(lastRevs), picked);
    DataOf(lastRevs) + picked
  }

  /** The retired heads and the heads still advancing. */
  datatype Heads = Heads(lastRevs: seq<LinkedRev>, revLists: seq<LinkedRev>)

  /**
   * The advance at the end of `create_line`: the earliest head moves to
   * its successor in place, or leaves `rev_lists` for the end of
   * `last_revs` when it has none. Exactly one node is consumed.
   */
  function AdvanceEarliest(lastRevs: seq<LinkedRev>, revLists: seq<LinkedRev>): (r: Heads)
    requires |revLists| > 0
    ensures var p := AdvancedPosition(revLists);
      if revLists[p].next.None? then
        r.lastRevs == lastRevs + [revLists[p]] && r.revLists == revLists[..p] + revLists[p + 1..]
      else
        r.lastRevs == lastRevs && r.revLists == revLists[p := revLists[p].next.value]
    ensures |r.lastRevs| + |r.revLists| == |lastRevs| + |revLists|
    ensures Remaining(r.revLists) == Remaining(revLists) - 1
  {
    var p := AdvancedPosition(revLists);
    var o := revLists[p];
    if o.next.None? then
      RemainingRemove(revLists, p);
      LenLast(o);
      Heads(lastRevs + [o], revLists[..p] + revLists[p + 1..])
    else
      RemainingUpdate(revLists, p, o.next.value);
      LenNext(o);
      Heads(lastRevs, revLists[p := o.next.value])
  }

  /** Every line of `h` has `width` revisions. */
  predicate AllWidth(h: seq<seq<Rev>>, width: nat) {
    forall k :: 0 <= k < |h| ==> |h[k]| == width
  }

  lemma AllWidthCons(line: seq<Rev>, rest: seq<seq<Rev>>, width: nat)
    requires |line| == width && AllWidth(rest, width)
    ensures AllWidth([line] + rest, width)
  {
  }

  /**
   * The loop `while len(rev_lists) > 0`: one line per remaining node, each
   * with one revision per project.
   */
  function Lines(lastRevs: seq<LinkedRev>, revLists: seq<LinkedRev>): (h: seq<seq<Rev>>)
    ensures |h| == Remaining(revLists)
    ensures AllWidth(h, |lastRevs| + |revLists|)
    ensures |h| > 0 ==> multiset(h[0]) == multiset(DataOf(lastRevs + revLists))
    decreases Remaining(revLists)
  {
    if |revLists| > 0 then
      var next := AdvanceEarliest(lastRevs, revLists);
      var line := LineOf(lastRevs, revLists);
      var rest := Lines(next.lastRevs, next.revLists);
      AllWidthCons(line, rest, |lastRevs| + |revLists|);
      [line] + rest
    else
      []
  }

  /** Every line of `h` holds the projects `m`, each as often as `m` counts it. */
  predicate ProjectsEveryLine(h: seq<seq<Rev>>, m: multiset<string>) {
    forall k :: 0 <= k < |h| ==> multiset(ProjectsOf(h[k])) == m
  }

  lemma ProjectsEveryLineCons(line: seq<Rev>, rest: seq<seq<Rev>>, m: multiset<string>)
    requires multiset(ProjectsOf(line)) == m && ProjectsEveryLine(rest, m)
    ensures ProjectsEveryLine([line] + rest, m)
  {
  }

  /**
   * Every line the loop emits holds the projects of the retired and
   * active heads it started from, each as often as there: an advanced
   * head keeps its project, and a retired one moves to `last_revs`.
   */
  lemma {:induction false} LinesKeepProjects(lastRevs: seq<LinkedRev>, revLists: seq<LinkedRev>)
    requires AllOneProject(revLists)
    ensures ProjectsEveryLine(Lines(lastRevs, revLists), multiset(ProjectsOf(DataOf(lastRevs + revLists))))
    decreases Remaining(revLists)
  {
    if |revLists| > 0 {
      var m := multiset(ProjectsOf(DataOf(lastRevs + revLists)));
      var next := AdvanceEarliest(lastRevs, revLists);
      var line := LineOf(lastRevs, revLists);
      var rest := Lines(next.lastRevs, next.revLists);
      assert Lines(lastRevs, revLists) == [line] + rest;
      LineProjects(lastRevs, revLists);
      AdvanceProjects(lastRevs, revLists);
      LinesKeepProjects(next.lastRevs, next.revLists);
      ProjectsEveryLineCons(line, rest, m);
    }
  }

  /** A line holds the projects of the heads it was built from. */
  lemma LineProjects(lastRevs: seq<LinkedRev>, revLists: seq<LinkedRev>)
    requires |revLists| > 0
    ensures multiset(ProjectsOf(LineOf(lastRevs, revLists))) == multiset(ProjectsOf(DataOf(lastRevs + revLists)))
  {
    SeqFacts.MapPermutation(RevProject, LineOf(lastRevs, revLists), DataOf(lastRevs + revLists));
  }

  /** The advance at the end of `create_line` keeps every project's place. */
  lemma AdvanceProjects(lastRevs: seq<LinkedRev>, revLists: seq<LinkedRev>)
    requires |revLists| > 0 && AllOneProject(revLists)
    ensures var next := AdvanceEarliest(lastRevs, revLists);
      AllOneProject(next.revLists) &&
      multiset(ProjectsOf(DataOf(next.lastRevs + next.revLists))) == multiset(ProjectsOf(DataOf(lastRevs + revLists)))
  {
    var p := AdvancedPosition(revLists);
    if revLists[p].next.Some? {
      AdvanceKeepsProjects(lastRevs, revLists, p);
    } else {
      RetireKeepsProjects(lastRevs, revLists, p);
    }
  }

  /** `make_ll` over each project's revisions; every chain must be non-empty. */
  function InitialHeads(projects: seq<ProjectRevs>): (heads: seq<LinkedRev>)
    requires forall i :: 0 <= i < |projects| ==> |projects[i].revList| > 0
    ensures |heads| == |projects|
    ensures forall i :: 0 <= i < |projects| ==>
      Walk(Some(heads[i])) == RevsOf(projects[i].name, projects[i].revList)
    ensures Remaining(heads) == TotalRevs(projects)
    decreases |projects|
  {
    if |projects| == 0 then []
    else
      var head := MakeLl(RevsOf(projects[0].name, projects[0].revList));
      [head.value] + InitialHeads(projects[1..])
  }

  /**
   * `build_history`: one line per revision of every project, each line
   * holding every project exactly as often as the project list names it,
   * and the first line holding every project's first revision. With no
   * projects the loop never runs and the history is empty.
   */
  function BuildHistory(projects: seq<ProjectRevs>): (history: seq<seq<Rev>>)
    requires forall i :: 0 <= i < |projects| ==> |projects[i].revList| > 0
    ensures |history| == TotalRevs(projects)
    ensures AllWidth(history, |projects|)
    ensures ProjectsEveryLine(history, multiset(Names(projects)))
    ensures |projects| > 0 ==> |history| > 0 && multiset(history[0]) == multiset(FirstRevs(projects))
  {
    var heads := InitialHeads(projects);
    HeadsOfProjects(projects, heads);
    LinesKeepProjects([], heads);
    assert [] + heads == heads;
    Lines([], heads)
  }
}
