/**
 * The bisection engine (`Bisection._bisect` in bisect_b2g/bisection.py)
 * and its first-generation form (`_bisect` in bisection.py).
 *
 * The engine is generic over the line type `L` of the combined history.
 * The evaluator is a function of the number of evaluations made before
 * the call and the line under test. That covers evaluators that always
 * answer the same way and evaluators that replay a fixed sequence of
 * answers. The package recursion passes the slice `history[middle:]` or
 * `history[:middle]` together with its offset `offset_b` into the whole
 * history; here that slice is a `Window` of the whole history.
 */
module Bisection {
  import SeqFacts

  /**
   * What a bisection leaves behind: the found line and its index, the
   * visiting order, the indices that passed and failed, and the lines
   * checked out for evaluation, in order.
   */
  datatype Record<L> = Record(found: L, foundI: nat, order: seq<nat>, passI: seq<nat>, failI: seq<nat>, checkouts: seq<L>)

  /** The slice of `len` lines of the whole history that starts at index `lo` (`offset_b`). */
  datatype Window = Window(lo: nat, len: nat)

  /** The window is a non-empty slice of `history`. */
  predicate Inside<L>(w: Window, history: seq<L>)
  {
    0 < w.len && w.lo + w.len <= |history|
  }

  /** The index in the whole history of the window's middle line, `offset_b + len(history) // 2`. */
  function Mid(w: Window): nat
  {
    w.lo + w.len / 2
  }

  /**
   * The half the search continues in: `history[middle:]`, the middle line
   * included, when the middle line passed, and `history[:middle]` when it
   * failed.
   */
  function Half(w: Window, pass: bool): (h: Window)
    requires w.len > 1
    ensures 0 < h.len < w.len && w.lo <= h.lo && h.lo + h.len <= w.lo + w.len
  {
    if pass then Window(Mid(w), w.len - w.len / 2) else Window(w.lo, w.len / 2)
  }

  /** Every line checked out is the history line at the matching `order` entry, inside the window `w0`. */
  ghost predicate TestedWithin<L>(r: Record<L>, history: seq<L>, w0: Window)
  {
    |r.order| == |r.checkouts| + 1 &&
    (forall k {:trigger r.checkouts[k]} :: 0 <= k < |r.checkouts| ==>
      w0.lo <= r.order[k] < w0.lo + w0.len && r.order[k] < |history| && r.checkouts[k] == history[r.order[k]])
  }

  /** Every evaluation that passed lies at or before the found index, every failure after it. */
  predicate SplitsAtFound<L>(r: Record<L>, verdict: (nat, L) -> bool, num: nat)
    requires |r.order| == |r.checkouts| + 1
  {
    forall k {:trigger r.checkouts[k]} :: 0 <= k < |r.checkouts| ==> (verdict(num + k, r.checkouts[k]) <==> r.order[k] <= r.foundI)
  }

  /**
   * The indices `_bisect` has visited once it finishes the window `w`,
   * having visited `order` before: each window with more than one line
   * adds its middle index and continues in the half its verdict selects;
   * the last line standing is added at the end.
   */
  function Visits<L>(history: seq<L>, w: Window, num: nat, verdict: (nat, L) -> bool, order: seq<nat>): (all: seq<nat>)
    requires Inside(w, history)
    ensures |all| > |order| && w.lo <= all[|all| - 1] < w.lo + w.len
    decreases w.len
  {
    if w.len == 1 then order + [w.lo]
    else Visits(history, Half(w, verdict(num, history[Mid(w)])), num + 1, verdict, order + [Mid(w)])
  }

  /** The reference visiting order of a bisection of the window. */
  function VisitOrder<L>(history: seq<L>, w: Window, num: nat, verdict: (nat, L) -> bool): (order: seq<nat>)
    requires Inside(w, history)
  {
    Visits(history, w, num, verdict, [])
  }

  /** The index `_bisect` settles on: the window shrinks around it until one line is left. */
  function FoundIndex<L>(history: seq<L>, w: Window, num: nat, verdict: (nat, L) -> bool): (i: nat)
    requires Inside(w, history)
    ensures w.lo <= i < w.lo + w.len
    decreases w.len
  {
    if w.len == 1 then w.lo
    else FoundIndex(history, Half(w, verdict(num, history[Mid(w)])), num + 1, verdict)
  }

  /** The last index visited is the one the search settles on. */
  lemma {:induction false} VisitsEnd<L>(history: seq<L>, w: Window, num: nat, verdict: (nat, L) -> bool, order: seq<nat>)
    requires Inside(w, history)
    ensures var all := Visits(history, w, num, verdict, order);
      all[|all| - 1] == FoundIndex(history, w, num, verdict)
    decreases w.len
  {
    if w.len > 1 {
      VisitsEnd(history, Half(w, verdict(num, history[Mid(w)])), num + 1, verdict, order + [Mid(w)]);
    }
  }

  /** `2` to the power `e`. */
  function Pow2(e: nat): (p: nat)
    ensures p >= 1
  {
    if e == 0 then 1 else 2 * Pow2(e - 1)
  }

  /** The number of halvings that take `n` down to 1, rounding down: the floor of log2 n. */
  function Log2Floor(n: nat): nat
    requires n >= 1
  {
    if n == 1 then 0 else 1 + Log2Floor(n / 2)
  }

  /** The number of halvings that take `n` down to 1, rounding up: the ceiling of log2 n. */
  function Log2Ceil(n: nat): nat
    requires n >= 1
  {
    if n == 1 then 0 else 1 + Log2Ceil((n + 1) / 2)
  }

  /** `Log2Floor(n)` is the exponent of the largest power of two not above `n`. */
  lemma {:induction false} Log2FloorBounds(n: nat)
    requires n >= 1
    ensures Pow2(Log2Floor(n)) <= n < 2 * Pow2(Log2Floor(n))
  {
    if n > 1 {
      Log2FloorBounds(n / 2);
    }
  }

  /** `Log2Ceil(n)` is the exponent of the smallest power of two not below `n`. */
  lemma {:induction false} Log2CeilBounds(n: nat)
    requires n >= 1
    ensures n <= Pow2(Log2Ceil(n))
    ensures Log2Ceil(n) == 0 || Pow2(Log2Ceil(n) - 1) < n
  {
    if n > 1 {
      Log2CeilBounds((n + 1) / 2);
    }
  }

  lemma {:induction false} Log2FloorMonotone(m: nat, n: nat)
    requires 1 <= m <= n
    ensures Log2Floor(m) <= Log2Floor(n)
    decreases n
  {
    if m > 1 {
      Log2FloorMonotone(m / 2, n / 2);
    }
  }

  lemma {:induction false} Log2CeilMonotone(m: nat, n: nat)
    requires 1 <= m <= n
    ensures Log2Ceil(m) <= Log2Ceil(n)
    decreases n
  {
    if m > 1 {
      Log2CeilMonotone((m + 1) / 2, (n + 1) / 2);
    }
  }

  /** One halving step adds exactly one evaluation to either bound. */
  lemma LogStep(len: nat, sublen: nat)
    requires len > 1 && (sublen == len / 2 || sublen == len - len / 2)
    ensures Log2Floor(len) <= 1 + Log2Floor(sublen)
    ensures 1 + Log2Ceil(sublen) <= Log2Ceil(len)
  {
    assert len - len / 2 == (len + 1) / 2;
    Log2FloorMonotone(len / 2, sublen);
    Log2CeilMonotone(sublen, (len + 1) / 2);
  }

  /**
   * A search over `len` lines makes between floor(log2 len) and
   * ceil(log2 len) evaluations: it adds one visit per evaluation and one
   * for the line it settles on.
   */
  lemma {:induction false} VisitCount<L>(history: seq<L>, w: Window, num: nat, verdict: (nat, L) -> bool, order: seq<nat>)
    requires Inside(w, history)
    ensures |order| + Log2Floor(w.len) + 1 <= |Visits(history, w, num, verdict, order)| <= |order| + Log2Ceil(w.len) + 1
    decreases w.len
  {
    if w.len > 1 {
      var h := Half(w, verdict(num, history[Mid(w)]));
      VisitCount(history, h, num + 1, verdict, order + [Mid(w)]);
      LogStep(w.len, h.len);
    }
  }

  /**
   * `_bisect(history, num, offset_b)` on the window `w`, with the lists
   * the search has recorded so far. With one line left that line is
   * found, and its index is appended to `order` and `pass_i`. Otherwise
   * the middle line is checked out and evaluated and its index appended
   * to `order`; when it passes the index goes to `pass_i` and the search
   * continues in the upper half, the middle included, and when it fails
   * the index goes to `fail_i` and the search continues in the lower
   * half. The source's recursive call is a tail call, so the lists are
   * passed along instead of kept as attributes.
   */
  function BisectFrom<L>(history: seq<L>, w: Window, num: nat, verdict: (nat, L) -> bool,
                         order: seq<nat>, passI: seq<nat>, failI: seq<nat>, checkouts: seq<L>): (r: Record<L>)
    requires Inside(w, history)
    ensures w.lo <= r.foundI < w.lo + w.len && r.found == history[r.foundI]
    decreases w.len
  {
    if w.len == 1 then Record(history[w.lo], w.lo, order + [w.lo], passI + [w.lo], failI, checkouts)
    else
      var idx := Mid(w);
      var cur := history[idx];
      var pass := verdict(num, cur);
      BisectFrom(history, Half(w, pass), num + 1, verdict, order + [idx],
                 if pass then passI + [idx] else passI, if pass then failI else failI + [idx], checkouts + [cur])
  }

  /** The visiting order the search records is the reference one. */
  lemma {:induction false} BisectVisits<L>(history: seq<L>, w: Window, num: nat, verdict: (nat, L) -> bool,
      order: seq<nat>, passI: seq<nat>, failI: seq<nat>, checkouts: seq<L>)
    requires Inside(w, history)
    ensures BisectFrom(history, w, num, verdict, order, passI, failI, checkouts).order == Visits(history, w, num, verdict, order)
    decreases w.len
  {
    if w.len > 1 {
      var idx := Mid(w);
      var cur := history[idx];
      var pass := verdict(num, cur);
      BisectVisits(history, Half(w, pass), num + 1, verdict, order + [idx],
        if pass then passI + [idx] else passI, if pass then failI else failI + [idx], checkouts + [cur]);
    }
  }

  /**
   * `order` ends with the found index, one entry after the index of the
   * last line checked out.
   */
  lemma {:induction false} BisectEndsOnFound<L>(history: seq<L>, w: Window, num: nat, verdict: (nat, L) -> bool,
      order: seq<nat>, passI: seq<nat>, failI: seq<nat>, checkouts: seq<L>)
    requires Inside(w, history)
    requires |order| == |checkouts|
    ensures var r := BisectFrom(history, w, num, verdict, order, passI, failI, checkouts);
      |r.order| == |r.checkouts| + 1 && r.order[|r.checkouts|] == r.foundI
    decreases w.len
  {
    if w.len > 1 {
      var idx := Mid(w);
      var cur := history[idx];
      var pass := verdict(num, cur);
      BisectEndsOnFound(history, Half(w, pass), num + 1, verdict, order + [idx],
        if pass then passI + [idx] else passI, if pass then failI else failI + [idx], checkouts + [cur]);
    }
  }

  /**
   * Every line checked out is the history line at the matching `order`
   * entry, inside the window `w0` the search started from.
   */
  lemma {:induction false} BisectTested<L>(history: seq<L>, w0: Window, w: Window, num: nat, verdict: (nat, L) -> bool,
      order: seq<nat>, passI: seq<nat>, failI: seq<nat>, checkouts: seq<L>)
    requires Inside(w, history)
    requires Inside(w0, history) && w0.lo <= w.lo && w.lo + w.len <= w0.lo + w0.len
    requires |order| == |checkouts|
    requires forall k :: 0 <= k < |checkouts| ==> w0.lo <= order[k] < w0.lo + w0.len && checkouts[k] == history[order[k]]
    ensures TestedWithin(BisectFrom(history, w, num, verdict, order, passI, failI, checkouts), history, w0)
    decreases w.len
  {
    if w.len > 1 {
      var idx := Mid(w);
      var cur := history[idx];
      var pass := verdict(num, cur);
      BisectTested(history, w0, Half(w, pass), num + 1, verdict, order + [idx],
        if pass then passI + [idx] else passI, if pass then failI else failI + [idx], checkouts + [cur]);
    }
  }

  /**
   * Evaluation `k` (call number `num0 + k`) passed exactly when its index
   * lies at or before the found index: passes lie at or before the
   * window, failures at or after its end, and the window ends on the
   * found line.
   */
  lemma {:induction false} BisectSplits<L>(history: seq<L>, num0: nat, w: Window, num: nat, verdict: (nat, L) -> bool,
      order: seq<nat>, passI: seq<nat>, failI: seq<nat>, checkouts: seq<L>)
    requires Inside(w, history)
    requires |order| == |checkouts| && num == num0 + |checkouts|
    requires forall k :: 0 <= k < |checkouts| ==>
      (verdict(num0 + k, checkouts[k]) ==> order[k] <= w.lo) && (!verdict(num0 + k, checkouts[k]) ==> w.lo + w.len <= order[k])
    ensures var r := BisectFrom(history, w, num, verdict, order, passI, failI, checkouts);
      |r.order| == |r.checkouts| + 1 && SplitsAtFound(r, verdict, num0)
    decreases w.len
  {
    if w.len > 1 {
      var idx := Mid(w);
      var cur := history[idx];
      var pass := verdict(num, cur);
      BisectSplits(history, num0, Half(w, pass), num + 1, verdict, order + [idx],
        if pass then passI + [idx] else passI, if pass then failI else failI + [idx], checkouts + [cur]);
    }
  }

  /** Every visited index is recorded exactly once, as passed or as failed. */
  lemma {:induction false} BisectPartition<L>(history: seq<L>, w: Window, num: nat, verdict: (nat, L) -> bool,
      order: seq<nat>, passI: seq<nat>, failI: seq<nat>, checkouts: seq<L>)
    requires Inside(w, history)
    requires multiset(order) == multiset(passI) + multiset(failI)
    ensures var r := BisectFrom(history, w, num, verdict, order, passI, failI, checkouts);
      multiset(r.order) == multiset(r.passI) + multiset(r.failI)
    decreases w.len
  {
    if w.len > 1 {
      var idx := Mid(w);
      var cur := history[idx];
      var pass := verdict(num, cur);
      BisectPartition(history, Half(w, pass), num + 1, verdict, order + [idx],
        if pass then passI + [idx] else passI, if pass then failI else failI + [idx], checkouts + [cur]);
    }
  }

  /**
   * The found index is the last entry of `pass_i` and never an entry of
   * `fail_i`: failures recorded so far lie past the window.
   */
  lemma {:induction false} BisectFoundPassed<L>(history: seq<L>, w: Window, num: nat, verdict: (nat, L) -> bool,
      order: seq<nat>, passI: seq<nat>, failI: seq<nat>, checkouts: seq<L>)
    requires Inside(w, history)
    requires forall f :: f in failI ==> w.lo + w.len <= f
    ensures var r := BisectFrom(history, w, num, verdict, order, passI, failI, checkouts);
      |r.passI| > 0 && r.passI[|r.passI| - 1] == r.foundI && r.foundI !in r.failI
    decreases w.len
  {
    if w.len > 1 {
      var idx := Mid(w);
      var cur := history[idx];
      var pass := verdict(num, cur);
      BisectFoundPassed(history, Half(w, pass), num + 1, verdict, order + [idx],
        if pass then passI + [idx] else passI, if pass then failI else failI + [idx], checkouts + [cur]);
    }
  }

  /**
   * The found index is the first line of the starting window or a line
   * that passed before the search settled.
   */
  lemma {:induction false} BisectFoundAfterPass<L>(history: seq<L>, lo0: nat, w: Window, num: nat, verdict: (nat, L) -> bool,
      order: seq<nat>, passI: seq<nat>, failI: seq<nat>, checkouts: seq<L>)
    requires Inside(w, history)
    requires w.lo == lo0 || w.lo in passI
    ensures var r := BisectFrom(history, w, num, verdict, order, passI, failI, checkouts);
      |r.passI| > 0 && (r.foundI == lo0 || r.foundI in r.passI[..|r.passI| - 1])
    decreases w.len
  {
    if w.len > 1 {
      var idx := Mid(w);
      var cur := history[idx];
      var pass := verdict(num, cur);
      BisectFoundAfterPass(history, lo0, Half(w, pass), num + 1, verdict, order + [idx],
        if pass then passI + [idx] else passI, if pass then failI else failI + [idx], checkouts + [cur]);
    } else {
      var r := BisectFrom(history, w, num, verdict, order, passI, failI, checkouts);
      assert r.passI[..|r.passI| - 1] == passI;
    }
  }

  /**
   * The line after the found index is past the end of the starting
   * window or a line that failed.
   */
  lemma {:induction false} BisectFoundBeforeFail<L>(history: seq<L>, end0: nat, w: Window, num: nat, verdict: (nat, L) -> bool,
      order: seq<nat>, passI: seq<nat>, failI: seq<nat>, checkouts: seq<L>)
    requires Inside(w, history)
    requires w.lo + w.len == end0 || w.lo + w.len in failI
    ensures var r := BisectFrom(history, w, num, verdict, order, passI, failI, checkouts);
      r.foundI + 1 == end0 || r.foundI + 1 in r.failI
    decreases w.len
  {
    if w.len > 1 {
      var idx := Mid(w);
      var cur := history[idx];
      var pass := verdict(num, cur);
      BisectFoundBeforeFail(history, end0, Half(w, pass), num + 1, verdict, order + [idx],
        if pass then passI + [idx] else passI, if pass then failI else failI + [idx], checkouts + [cur]);
    }
  }

  /**
   * `Bisection.__init__`: the search starts over the whole history with
   * no evaluations made and nothing recorded. The source needs a
   * non-empty history (it takes the logarithm of its length and indexes
   * its middle line).
   */
  function Bisect<L>(history: seq<L>, verdict: (nat, L) -> bool): (r: Record<L>)
    requires |history| > 0
    ensures r.foundI < |history| && r.found == history[r.foundI]
    ensures r.order == VisitOrder(history, Window(0, |history|), 0, verdict)
    ensures r.foundI == FoundIndex(history, Window(0, |history|), 0, verdict)
  {
    var w := Window(0, |history|);
    BisectVisits(history, w, 0, verdict, [], [], [], []);
    BisectEndsOnFound(history, w, 0, verdict, [], [], [], []);
    VisitsEnd(history, w, 0, verdict, []);
    BisectFrom(history, w, 0, verdict, [], [], [], [])
  }

  /**
   * What a whole bisection guarantees: the lines checked out are the
   * history lines at the recorded indices, every evaluation that passed
   * lies at or before the found index and every failure after it, each
   * evaluated index is recorded once as passed or failed with the found
   * index appended to `pass_i` and absent from `fail_i`, the found index
   * is bracketed by a pass (or the first line) and a failure (or the last
   * line), and the number of evaluations lies between floor(log2 N) and
   * ceil(log2 N), the source's "Sometimes, we do log2(N), others
   * log2(N)-1".
   */
  lemma BisectContract<L>(history: seq<L>, verdict: (nat, L) -> bool)
    requires |history| > 0
    ensures var r := Bisect(history, verdict);
      TestedWithin(r, history, Window(0, |history|)) && r.order[|r.checkouts|] == r.foundI &&
      SplitsAtFound(r, verdict, 0) &&
      multiset(r.order) == multiset(r.passI) + multiset(r.failI) &&
      |r.passI| > 0 && r.passI[|r.passI| - 1] == r.foundI && r.foundI !in r.failI &&
      (r.foundI == 0 || r.foundI in r.passI[..|r.passI| - 1]) &&
      (r.foundI + 1 == |history| || r.foundI + 1 in r.failI) &&
      Log2Floor(|history|) <= |r.checkouts| <= Log2Ceil(|history|)
  {
    var w := Window(0, |history|);
    BisectTested(history, w, w, 0, verdict, [], [], [], []);
    BisectEndsOnFound(history, w, 0, verdict, [], [], [], []);
    BisectSplits(history, 0, w, 0, verdict, [], [], [], []);
    BisectPartition(history, w, 0, verdict, [], [], [], []);
    BisectFoundPassed(history, w, 0, verdict, [], [], [], []);
    BisectFoundAfterPass(history, 0, w, 0, verdict, [], [], [], []);
    BisectFoundBeforeFail(history, |history|, w, 0, verdict, [], [], [], []);
    VisitCount(history, w, 0, verdict, []);
  }

  /** An exit status of 0 is a pass, as in the first-generation `_bisect`. */
  function PassesOnZero<L>(rc: (nat, L) -> int): (nat, L) -> bool
  {
    (k: nat, line: L) => rc(k, line) == 0
  }

  /** What the first-generation search leaves behind: the found line and the lines checked out, in order. */
  datatype LegacyRun<L> = LegacyRun(found: L, checkouts: seq<L>)

  /**
   * The first-generation `_bisect(history, script, all_history, num)`:
   * the same search on slices. Every revision of the middle line is
   * checked out (`set_rev`) before the script runs, and evaluation
   * number `num` passes when `passes` says so. Fewer lines are checked
   * out than the history holds.
   */
  function LegacySearch<L>(history: seq<L>, num: nat, passes: (nat, L) -> bool): (r: LegacyRun<L>)
    requires |history| > 0
    ensures |r.checkouts| < |history|
    decreases |history|
  {
    var middle := |history| / 2;
    if |history| == 1 then LegacyRun(history[0], [])
    else
      var cur := history[middle];
      var half := if passes(num, cur) then history[middle..] else history[..middle];
      var sub := LegacySearch(half, num + 1, passes);
      LegacyRun(sub.found, [cur] + sub.checkouts)
  }

  /** One step of the slice-based search: the middle line is checked out first. */
  lemma LegacyStep<L>(history: seq<L>, num: nat, passes: (nat, L) -> bool)
    requires |history| > 1
    ensures var middle := |history| / 2;
      var half := if passes(num, history[middle]) then history[middle..] else history[..middle];
      LegacySearch(history, num, passes) == LegacyRun(LegacySearch(half, num + 1, passes).found,
        [history[middle]] + LegacySearch(half, num + 1, passes).checkouts)
  {
  }

  /**
   * `bisect(history, script)`: the slice-based search whose verdict is
   * the script's exit status `rc`, a pass when it is 0. It finds the
   * same line and checks out the same lines as the package's
   * `Bisection` given that evaluator.
   */
  function LegacyBisect<L>(history: seq<L>, rc: (nat, L) -> int): (r: LegacyRun<L>)
    requires |history| > 0
    ensures r.found == Bisect(history, PassesOnZero(rc)).found
    ensures r.checkouts == Bisect(history, PassesOnZero(rc)).checkouts
  {
    LegacyMatchesPackage(history, rc);
    LegacySearch(history, 0, PassesOnZero(rc))
  }

  /**
   * On a slice `s` holding the lines of window `w`, the slice-based
   * search settles where the windowed one does.
   */
  lemma {:induction false} LegacyAgrees<L>(history: seq<L>, s: seq<L>, w: Window, num: nat, verdict: (nat, L) -> bool)
    requires Inside(w, history)
    requires |s| == w.len && forall i :: 0 <= i < w.len ==> s[i] == history[w.lo + i]
    ensures LegacySearch(s, num, verdict).found == history[FoundIndex(history, w, num, verdict)]
    decreases w.len
  {
    if w.len > 1 {
      var middle := w.len / 2;
      assert s[middle] == history[Mid(w)];
      if verdict(num, history[Mid(w)]) {
        LegacyAgrees(history, s[middle..], Half(w, true), num + 1, verdict);
      } else {
        LegacyAgrees(history, s[..middle], Half(w, false), num + 1, verdict);
      }
    } else {
      assert s[0] == history[w.lo];
    }
  }

  /** The lines of the window `w`, as the slice the first-generation search works on. */
  function Slice<L>(history: seq<L>, w: Window): (s: seq<L>)
    requires Inside(w, history)
    ensures |s| == w.len && forall i :: 0 <= i < w.len ==> s[i] == history[w.lo + i]
  {
    history[w.lo..w.lo + w.len]
  }

  /** The slice of the half the search continues in is the matching half of the window's slice. */
  lemma SliceHalf<L>(history: seq<L>, w: Window, pass: bool)
    requires Inside(w, history) && w.len > 1
    ensures Slice(history, Half(w, pass)) ==
      if pass then Slice(history, w)[w.len / 2..] else Slice(history, w)[..w.len / 2]
  {
  }

  /**
   * On the slice holding the lines of window `w`, the slice-based search
   * checks out the lines the windowed one appends to its record.
   */
  lemma {:induction false} LegacyCheckouts<L>(history: seq<L>, w: Window, num: nat, verdict: (nat, L) -> bool,
      order: seq<nat>, passI: seq<nat>, failI: seq<nat>, checkouts: seq<L>)
    requires Inside(w, history)
    ensures BisectFrom(history, w, num, verdict, order, passI, failI, checkouts).checkouts ==
      checkouts + LegacySearch(Slice(history, w), num, verdict).checkouts
    decreases w.len
  {
    if w.len > 1 {
      var idx := Mid(w);
      var cur := history[idx];
      var pass := verdict(num, cur);
      SliceHalf(history, w, pass);
      LegacyStep(Slice(history, w), num, verdict);
      LegacyCheckouts(history, Half(w, pass), num + 1, verdict, order + [idx],
        if pass then passI + [idx] else passI, if pass then failI else failI + [idx], checkouts + [cur]);
      SeqFacts.AppendAssoc(checkouts, [cur], LegacySearch(Slice(history, Half(w, pass)), num + 1, verdict).checkouts);
    } else {
      assert checkouts + [] == checkouts;
    }
  }

  /**
   * `bisect(history, script)` finds the same line, and checks out the
   * same lines in the same order, as the package's `Bisection` given the
   * evaluator that passes on exit status 0.
   */
  lemma LegacyMatchesPackage<L>(history: seq<L>, rc: (nat, L) -> int)
    requires |history| > 0
    ensures LegacySearch(history, 0, PassesOnZero(rc)).found == Bisect(history, PassesOnZero(rc)).found
    ensures LegacySearch(history, 0, PassesOnZero(rc)).checkouts == Bisect(history, PassesOnZero(rc)).checkouts
  {
    WholeFound(history, PassesOnZero(rc));
    WholeCheckouts(history, PassesOnZero(rc));
  }

  lemma WholeFound<L>(history: seq<L>, verdict: (nat, L) -> bool)
    requires |history| > 0
    ensures LegacySearch(history, 0, verdict).found == Bisect(history, verdict).found
  {
    LegacyAgrees(history, history, Window(0, |history|), 0, verdict);
  }

  lemma WholeCheckouts<L>(history: seq<L>, verdict: (nat, L) -> bool)
    requires |history| > 0
    ensures LegacySearch(history, 0, verdict).checkouts == Bisect(history, verdict).checkouts
  {
    var w := Window(0, |history|);
    LegacyCheckouts(history, w, 0, verdict, [], [], [], []);
    assert Slice(history, w) == history;
    var c := LegacySearch(history, 0, verdict).checkouts;
    assert [] + c == c;
  }

  /**
   * With an evaluator that passes exactly the lines before index `b`, the
   * search settles on the last passing line, clamped to the window.
   */
  lemma {:induction false} MonotoneFindsBoundary<L>(history: seq<L>, w: Window, num: nat, verdict: (nat, L) -> bool, b: nat)
    requires Inside(w, history)
    requires forall k: nat, i :: w.lo <= i < w.lo + w.len ==> (verdict(k, history[i]) <==> i < b)
    ensures FoundIndex(history, w, num, verdict) ==
      if b <= w.lo then w.lo
      else if w.lo + w.len <= b then w.lo + w.len - 1
      else b - 1
    decreases w.len
  {
    if w.len > 1 {
      MonotoneFindsBoundary(history, Half(w, verdict(num, history[Mid(w)])), num + 1, verdict, b);
    }
  }

  /**
   * At the top level, with an evaluator that passes exactly the lines
   * before index `b`, the found line is the last passing one, or the
   * first line when none passes.
   */
  lemma MonotoneBisect<L>(history: seq<L>, verdict: (nat, L) -> bool, b: nat)
    requires 0 < |history| && b <= |history|
    requires forall k: nat, i :: 0 <= i < |history| ==> (verdict(k, history[i]) <==> i < b)
    ensures Bisect(history, verdict).foundI == if b == 0 then 0 else b - 1
  {
    MonotoneFindsBoundary(history, Window(0, |history|), 0, verdict, b);
  }

  /** The search of `AllGood` from its third window on. */
  lemma AllGoodTail<L>(history: seq<L>, verdict: (nat, L) -> bool)
    requires |history| == 10
    requires forall k: nat, line: L :: verdict(k, line)
    ensures BisectFrom(history, Window(7, 3), 2, verdict, [5, 7], [5, 7], [], [history[5], history[7]])
      == Record(history[9], 9, [5, 7, 8, 9, 9], [5, 7, 8, 9, 9], [], [history[5], history[7], history[8], history[9]])
  {
  }

  /**
   * `test_all_good`: with an evaluator that passes every line of a
   * ten-line history, the search climbs to the last line, checking out
   * lines 5, 7, 8 and 9, and every visit is recorded as a pass.
   */
  lemma AllGood<L>(history: seq<L>, verdict: (nat, L) -> bool)
    requires |history| == 10
    requires forall k: nat, line: L :: verdict(k, line)
    ensures var r := Bisect(history, verdict);
      r.foundI == 9 && r.found == history[9] && r.checkouts == [history[5], history[7], history[8], history[9]] &&
      r.order == [5, 7, 8, 9, 9] && r.passI == [5, 7, 8, 9, 9] && r.failI == []
  {
    assert verdict(0, history[5]);
    assert [] + [5] == [5];
    assert [] + [history[5]] == [history[5]];
    assert BisectFrom(history, Window(0, 10), 0, verdict, [], [], [], [])
        == BisectFrom(history, Window(5, 5), 1, verdict, [5], [5], [], [history[5]]);
    assert verdict(1, history[7]);
    assert [5] + [7] == [5, 7];
    assert [history[5]] + [history[7]] == [history[5], history[7]];
    assert BisectFrom(history, Window(5, 5), 1, verdict, [5], [5], [], [history[5]])
        == BisectFrom(history, Window(7, 3), 2, verdict, [5, 7], [5, 7], [], [history[5], history[7]]);
    AllGoodTail(history, verdict);
  }

  /**
   * `test_all_bad`: with an evaluator that fails every line, the search
   * descends to the first line, checking out lines 5, 2 and 1; the first
   * line is recorded as passed although it was never evaluated.
   */
  lemma AllBad<L>(history: seq<L>, verdict: (nat, L) -> bool)
    requires |history| == 10
    requires forall k: nat, line: L :: !verdict(k, line)
    ensures var r := Bisect(history, verdict);
      r.foundI == 0 && r.found == history[0] && r.checkouts == [history[5], history[2], history[1]] &&
      r.order == [5, 2, 1, 0] && r.passI == [0] && r.failI == [5, 2, 1]
  {
  }

  /** The search of `ThirdCallPasses` from its third window on. */
  lemma ThirdCallPassesTail<L>(history: seq<L>, verdict: (nat, L) -> bool)
    requires |history| == 10
    requires forall k: nat, line: L :: verdict(k, line) <==> k == 2
    ensures BisectFrom(history, Window(0, 2), 2, verdict, [5, 2], [], [5, 2], [history[5], history[2]])
      == Record(history[1], 1, [5, 2, 1, 1], [1, 1], [5, 2], [history[5], history[2], history[1]])
  {
  }

  /**
   * `test_true_on_2_of_10`: with an evaluator whose third answer (call
   * number 2) alone is a pass, lines 5, 2 and 1 are checked out and the
   * search settles on line 1, which `order` records a second time.
   */
  lemma ThirdCallPasses<L>(history: seq<L>, verdict: (nat, L) -> bool)
    requires |history| == 10
    requires forall k: nat, line: L :: verdict(k, line) <==> k == 2
    ensures var r := Bisect(history, verdict);
      r.foundI == 1 && r.found == history[1] && r.checkouts == [history[5], history[2], history[1]] &&
      r.order == [5, 2, 1, 1] && r.passI == [1, 1] && r.failI == [5, 2]
  {
    assert !verdict(0, history[5]);
    assert [] + [5] == [5];
    assert [] + [history[5]] == [history[5]];
    assert BisectFrom(history, Window(0, 10), 0, verdict, [], [], [], [])
        == BisectFrom(history, Window(0, 5), 1, verdict, [5], [], [5], [history[5]]);
    assert !verdict(1, history[2]);
    assert [5] + [2] == [5, 2];
    assert [history[5]] + [history[2]] == [history[5], history[2]];
    assert BisectFrom(history, Window(0, 5), 1, verdict, [5], [], [5], [history[5]])
        == BisectFrom(history, Window(0, 2), 2, verdict, [5, 2], [], [5, 2], [history[5], history[2]]);
    ThirdCallPassesTail(history, verdict);
  }

  /** The search of `SecondAndThirdCallsPass` from its third window on. */
  lemma SecondAndThirdCallsPassTail<L>(history: seq<L>, verdict: (nat, L) -> bool)
    requires |history| == 10
    requires forall k: nat, line: L :: verdict(k, line) <==> k == 1 || k == 2
    ensures BisectFrom(history, Window(2, 3), 2, verdict, [5, 2], [2], [5], [history[5], history[2]])
      == Record(history[3], 3, [5, 2, 3, 4, 3], [2, 3, 3], [5, 4], [history[5], history[2], history[3], history[4]])
  {
  }

  /**
   * `test_true_on_1_and_2_of_10`: with an evaluator whose second and
   * third answers alone are passes, lines 5, 2, 3 and 4 are checked out
   * and the search settles on line 3.
   */
  lemma SecondAndThirdCallsPass<L>(history: seq<L>, verdict: (nat, L) -> bool)
    requires |history| == 10
    requires forall k: nat, line: L :: verdict(k, line) <==> k == 1 || k == 2
    ensures var r := Bisect(history, verdict);
      r.foundI == 3 && r.found == history[3] && r.checkouts == [history[5], history[2], history[3], history[4]] &&
      r.order == [5, 2, 3, 4, 3] && r.passI == [2, 3, 3] && r.failI == [5, 4]
  {
    assert !verdict(0, history[5]);
    assert [] + [5] == [5];
    assert [] + [history[5]] == [history[5]];
    assert BisectFrom(history, Window(0, 10), 0, verdict, [], [], [], [])
        == BisectFrom(history, Window(0, 5), 1, verdict, [5], [], [5], [history[5]]);
    assert verdict(1, history[2]);
    assert [5] + [2] == [5, 2];
    assert [] + [2] == [2];
    assert [history[5]] + [history[2]] == [history[5], history[2]];
    assert BisectFrom(history, Window(0, 5), 1, verdict, [5], [], [5], [history[5]])
        == BisectFrom(history, Window(2, 3), 2, verdict, [5, 2], [2], [5], [history[5], history[2]]);
    SecondAndThirdCallsPassTail(history, verdict);
  }
}
