/**
 * Forward-only revision chains. Both generations of the bisector hold a
 * project's revisions in a hand-built singly linked list: `N(data, n)` in
 * the first script and `Rev(..., next_rev)` in the package. `Node<T>` is
 * that list cell; `None` plays the role of Python's `None` terminator.
 */
module Chain {
  import opened Types

  datatype Node<T> = Node(data: T, next: Option<Node<T>>)

  /** The values met when following `next` links from `head` until `None`. */
  function Walk<T>(head: Option<Node<T>>): seq<T>
    decreases head
  {
    match head
    case None => []
    case Some(n) => [n.data] + Walk(n.next)
  }

  /** Number of nodes from `n` to the end of its chain, `n` included. */
  function Len<T>(n: Node<T>): nat {
    |Walk(Some(n))|
  }

  /** `s` in reverse order, as Python's `reversed(s)` yields it. */
  function Reversed<T>(s: seq<T>): (r: seq<T>)
    ensures |r| == |s|
    ensures forall i :: 0 <= i < |s| ==> r[i] == s[|s| - 1 - i]
  {
    seq(|s|, i requires 0 <= i < |s| => s[|s| - 1 - i])
  }

  /**
   * The construction loop `for x in rl: head = N(x, head)`: every value of
   * `rl` in turn becomes the new head in front of the previous one.
   */
  function PushAll<T>(rl: seq<T>, head: Option<Node<T>>): Option<Node<T>>
    decreases |rl|
  {
    if |rl| == 0 then head else PushAll(rl[1..], Some(Node(rl[0], head)))
  }

  /** Pushing values one by one in front of a chain reverses them. */
  lemma {:induction false} PushAllWalk<T>(rl: seq<T>, head: Option<Node<T>>)
    ensures Walk(PushAll(rl, head)) == Reversed(rl) + Walk(head)
    decreases |rl|
  {
    if |rl| > 0 {
      PushAllWalk(rl[1..], Some(Node(rl[0], head)));
      assert Reversed(rl) == Reversed(rl[1..]) + [rl[0]];
    }
  }

  /**
   * `make_ll`: a linked list whose head holds `l[0]`; the empty list gives
   * `None`. Following the links reproduces `l` in order, and the walk ends
   * at a node whose `next` is `None`.
   */
  function MakeLl<T>(l: seq<T>): (head: Option<Node<T>>)
    ensures Walk(head) == l
    ensures head.None? <==> |l| == 0
    ensures head.Some? ==> head.value.data == l[0]
  {
    var rl := Reversed(l);
    PushAllWalk(rl, None);
    assert Reversed(rl) == l;
    PushAll(rl, None)
  }
}

/** Bookkeeping over several chains at once: how many nodes remain in total. */
module Chains {
  import opened Types
  import opened Chain

  /** Following a node's `next` leaves one node fewer. */
  lemma LenNext<T>(n: Node<T>)
    requires n.next.Some?
    ensures Len(n) == 1 + Len(n.next.value)
  {
  }

  /** A node without `next` is a chain of one. */
  lemma LenLast<T>(n: Node<T>)
    requires n.next.None?
    ensures Len(n) == 1
  {
    assert Walk(n.next) == [];
  }

  /** Total number of nodes reachable from the heads `hs`. */
  function Remaining<T>(hs: seq<Node<T>>): (total: nat)
    ensures total >= |hs|
  {
    if |hs| == 0 then 0 else Len(hs[0]) + Remaining(hs[1..])
  }

  lemma {:induction false} RemainingUpdate<T>(hs: seq<Node<T>>, i: nat, v: Node<T>)
    requires i < |hs|
    ensures Remaining(hs[i := v]) == Remaining(hs) - Len(hs[i]) + Len(v)
    decreases i
  {
    if i > 0 {
      RemainingUpdate(hs[1..], i - 1, v);
      assert hs[i := v][1..] == hs[1..][i - 1 := v];
    }
  }

  lemma {:induction false} RemainingRemove<T>(hs: seq<Node<T>>, i: nat)
    requires i < |hs|
    ensures Remaining(hs[..i] + hs[i + 1..]) == Remaining(hs) - Len(hs[i])
    decreases i
  {
    if i == 0 {
      assert hs[..0] + hs[1..] == hs[1..];
    } else {
      RemainingRemove(hs[1..], i - 1);
      assert (hs[..i] + hs[i + 1..])[1..] == hs[1..][..i - 1] + hs[1..][i..];
    }
  }

  /** The length of the shortest chain among the heads `hs`. */
  function MinLen<T>(hs: seq<Node<T>>): (m: nat)
    requires |hs| > 0
    ensures forall j :: 0 <= j < |hs| ==> m <= Len(hs[j])
    ensures exists j :: 0 <= j < |hs| && m == Len(hs[j])
  {
    if |hs| == 1 then Len(hs[0])
    else
      var rest := MinLen(hs[1..]);
      if Len(hs[0]) <= rest then Len(hs[0]) else rest
  }
}

/** Facts about sequences the merges rely on. */
module SeqFacts {

  /** A sequence is its prefix, one element and its suffix. */
  lemma SplitAt<T>(s: seq<T>, i: nat)
    requires i < |s|
    ensures s == s[..i] + [s[i]] + s[i + 1..]
  {
  }

  /** Replacing one element swaps it for the new one in the multiset. */
  lemma MultisetUpdate<T>(s: seq<T>, i: nat, v: T)
    requires i < |s|
    ensures multiset(s[i := v]) == multiset(s) - multiset{s[i]} + multiset{v}
  {
  }

  /** Removing one element takes it out of the multiset. */
  lemma MultisetRemove<T>(s: seq<T>, i: nat)
    requires i < |s|
    ensures multiset(s[..i] + s[i + 1..]) == multiset(s) - multiset{s[i]}
  {
    assert s == s[..i] + [s[i]] + s[i + 1..];
  }

  lemma AppendAssoc<T>(a: seq<T>, b: seq<T>, c: seq<T>)
    ensures a + b + c == a + (b + c)
  {
  }

  /** `f` applied to every element of `s`, in order. */
  function Map<A, B>(f: A -> B, s: seq<A>): (r: seq<B>)
    ensures |r| == |s|
    ensures forall i :: 0 <= i < |s| ==> r[i] == f(s[i])
  {
    seq(|s|, i requires 0 <= i < |s| => f(s[i]))
  }

  lemma MapAppend<A, B>(f: A -> B, a: seq<A>, b: seq<A>)
    ensures Map(f, a + b) == Map(f, a) + Map(f, b)
  {
  }

  /** Rearranging a sequence rearranges its image the same way. */
  lemma {:induction false} MapPermutation<A, B>(f: A -> B, a: seq<A>, b: seq<A>)
    requires multiset(a) == multiset(b)
    ensures multiset(Map(f, a)) == multiset(Map(f, b))
    decreases |a|
  {
    if |a| == 0 {
      assert |multiset(b)| == 0;
      assert b == [];
    } else {
      var x := a[0];
      assert x in multiset(b);
      var i :| 0 <= i < |b| && b[i] == x;
      MultisetRemove(b, i);
      assert a == [x] + a[1..];
      MapPermutation(f, a[1..], b[..i] + b[i + 1..]);
      MapAppend(f, [x], a[1..]);
      SplitAt(b, i);
      MapAppend(f, b[..i] + [x], b[i + 1..]);
      MapAppend(f, b[..i], [x]);
      MapAppend(f, b[..i], b[i + 1..]);
    }
  }
}
