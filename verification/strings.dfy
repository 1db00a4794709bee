/**
 * The handful of Python `str` operations the bisector relies on:
 * `partition`, `startswith`/`endswith`, `strip`, `split` on one character,
 * and the lexicographic order `sorted` uses on project names.
 */
module Strings {
  import opened Types

  /** `sep` occurs in `s` starting at position `i`. */
  predicate OccursAt(s: string, sep: string, i: nat) {
    i + |sep| <= |s| && s[i..i + |sep|] == sep
  }

  predicate StartsWith(s: string, prefix: string) {
    |prefix| <= |s| && s[..|prefix|] == prefix
  }

  predicate EndsWith(s: string, suffix: string) {
    |suffix| <= |s| && s[|s| - |suffix|..] == suffix
  }

  /** The first occurrence of `sep` at or after position `from`. */
  function FindFrom(s: string, sep: string, from: nat): (r: Option<nat>)
    requires |sep| > 0
    requires from <= |s|
    ensures r.Some? ==> from <= r.value && OccursAt(s, sep, r.value)
    ensures r.Some? ==> forall j :: from <= j < r.value ==> !OccursAt(s, sep, j)
    ensures r.None? ==> forall j: nat :: from <= j ==> !OccursAt(s, sep, j)
    decreases |s| - from
  {
    if from + |sep| > |s| then None
    else if s[from..from + |sep|] == sep then Some(from)
    else FindFrom(s, sep, from + 1)
  }

  /** Python's `s.find(sep)`, with `None` for -1. */
  function Find(s: string, sep: string): (r: Option<nat>)
    requires |sep| > 0
    ensures r.Some? ==> OccursAt(s, sep, r.value)
    ensures r.Some? ==> forall j :: 0 <= j < r.value ==> !OccursAt(s, sep, j)
    ensures r.None? ==> forall j: nat :: !OccursAt(s, sep, j)
  {
    FindFrom(s, sep, 0)
  }

  /**
   * Python's `s.partition(sep)`: the text before the first `sep`, `sep`
   * itself and the rest; or `(s, "", "")` when `sep` does not occur.
   * Python raises on an empty separator, hence the precondition.
   */
  function Partition(s: string, sep: string): (r: (string, string, string))
    requires |sep| > 0
    ensures r.0 + r.1 + r.2 == s
    ensures r.1 == sep || (r.1 == "" && r.0 == s && r.2 == "")
    ensures r.1 == sep <==> Find(s, sep).Some?
    ensures r.1 == sep ==> |r.0| == Find(s, sep).value
  {
    match Find(s, sep)
    case None => (s, "", "")
    case Some(i) =>
      assert s == s[..i] + sep + s[i + |sep|..];
      (s[..i], sep, s[i + |sep|..])
  }

  /** The characters Python's argument-less `strip()` removes. */
  predicate IsSpace(c: char) {
    c == ' ' || c == '\t' || c == '\n' || c == '\r' || c == '\U{000B}' || c == '\U{000C}'
  }

  predicate IsBlank(s: string) {
    forall k :: 0 <= k < |s| ==> IsSpace(s[k])
  }

  function LeadingSpaces(s: string): (n: nat)
    ensures n <= |s|
    ensures IsBlank(s[..n])
    ensures n < |s| ==> !IsSpace(s[n])
  {
    if |s| == 0 || !IsSpace(s[0]) then 0
    else
      var n := 1 + LeadingSpaces(s[1..]);
      assert forall k :: 1 <= k < n ==> s[..n][k] == s[1..][..n - 1][k - 1];
      n
  }

  function TrailingSpaces(s: string): (n: nat)
    ensures n <= |s|
    ensures IsBlank(s[|s| - n..])
    ensures n < |s| ==> !IsSpace(s[|s| - 1 - n])
  {
    if |s| == 0 || !IsSpace(s[|s| - 1]) then 0
    else
      var n := 1 + TrailingSpaces(s[..|s| - 1]);
      n
  }

  /** `r` is the piece of `s` that starts at `a`, with only whitespace around it. */
  predicate Trimmed(s: string, r: string, a: nat) {
    a + |r| <= |s| && r == s[a..a + |r|] && IsBlank(s[..a]) && IsBlank(s[a + |r|..])
  }

  /**
   * Python's argument-less `s.strip()`: the piece of `s` left once the
   * whitespace at both ends is cut off. It neither starts nor ends with
   * whitespace, and it is empty exactly for a blank `s`.
   */
  function Strip(s: string): (r: string)
    ensures exists a :: Trimmed(s, r, a)
    ensures |r| > 0 ==> !IsSpace(r[0]) && !IsSpace(r[|r| - 1])
    ensures r == "" <==> IsBlank(s)
  {
    var a := LeadingSpaces(s);
    var n := TrailingSpaces(s[a..]);
    TrailingOf(s, a);
    CutTrimmed(s, a, n);
    CutEnds(s, a, n);
    CutBlank(s, a, n);
    s[a..|s| - n]
  }

  /** The trailing whitespace of `s[a..]`, seen in `s`. */
  lemma TrailingOf(s: string, a: nat)
    requires a <= |s|
    ensures var n := TrailingSpaces(s[a..]);
      a + n <= |s| && IsBlank(s[|s| - n..]) && (a + n < |s| ==> !IsSpace(s[|s| - 1 - n]))
  {
    var n := TrailingSpaces(s[a..]);
    assert s[a..][|s| - a - n..] == s[|s| - n..];
    assert n < |s| - a ==> s[a..][|s| - a - 1 - n] == s[|s| - 1 - n];
  }

  /** Cutting whitespace-only ends off `s` leaves a trimmed piece. */
  lemma CutTrimmed(s: string, a: nat, n: nat)
    requires a + n <= |s| && IsBlank(s[..a]) && IsBlank(s[|s| - n..])
    ensures Trimmed(s, s[a..|s| - n], a)
  {
  }

  /** The cut piece starts and ends where the whitespace stops. */
  lemma CutEnds(s: string, a: nat, n: nat)
    requires a + n <= |s|
    requires a < |s| ==> !IsSpace(s[a])
    requires a + n < |s| ==> !IsSpace(s[|s| - 1 - n])
    ensures var r := s[a..|s| - n]; |r| > 0 ==> !IsSpace(r[0]) && !IsSpace(r[|r| - 1])
  {
  }

  /** The cut piece is empty exactly when `s` is blank. */
  lemma CutBlank(s: string, a: nat, n: nat)
    requires a + n <= |s| && IsBlank(s[..a]) && IsBlank(s[|s| - n..])
    requires a < |s| ==> !IsSpace(s[a])
    ensures s[a..|s| - n] == "" <==> IsBlank(s)
  {
    if a == |s| {
      assert s[..a] == s;
    } else {
      assert !IsSpace(s[a]);
    }
  }

  /**
   * Whitespace-free ends and whitespace-only surroundings single out one
   * piece of `s`: the one `Strip` returns.
   */
  lemma StripUnique(s: string, t: string, a: nat)
    requires Trimmed(s, t, a)
    requires |t| > 0 ==> !IsSpace(t[0]) && !IsSpace(t[|t| - 1])
    ensures t == Strip(s)
  {
    var r := Strip(s);
    var b: nat :| Trimmed(s, r, b);
    if |t| == 0 {
      forall k | 0 <= k < |s| ensures IsSpace(s[k]) {
        if k < a { assert s[k] == s[..a][k]; } else { assert s[k] == s[a..][k - a]; }
      }
    } else {
      assert s[a] == t[0];
      assert !IsBlank(s) by {
        assert !IsSpace(s[a]);
      }
      SameCut(s, t, a, r, b);
    }
  }

  /** Two trimmed pieces of `s` without whitespace at their ends are the same piece. */
  lemma SameCut(s: string, t: string, a: nat, r: string, b: nat)
    requires Trimmed(s, t, a) && |t| > 0 && !IsSpace(t[0]) && !IsSpace(t[|t| - 1])
    requires Trimmed(s, r, b) && |r| > 0 && !IsSpace(r[0]) && !IsSpace(r[|r| - 1])
    ensures t == r
  {
    assert s[a] == t[0] && s[b] == r[0];
    assert s[a + |t| - 1] == t[|t| - 1] && s[b + |r| - 1] == r[|r| - 1];
  }

  /** Joins pieces with `c` between neighbours; the inverse of `Split`. */
  function Join(parts: seq<string>, c: char): string
    requires |parts| > 0
  {
    if |parts| == 1 then parts[0] else parts[0] + [c] + Join(parts[1..], c)
  }

  /** Python's `s.split(c)` for a one-character separator. */
  function Split(s: string, c: char): (parts: seq<string>)
    ensures |parts| > 0
    ensures Join(parts, c) == s
    ensures forall k :: 0 <= k < |parts| ==> c !in parts[k]
    decreases |s|
  {
    match Find(s, [c])
    case None =>
      assert forall j :: 0 <= j < |s| ==> s[j] != c by {
        forall j | 0 <= j < |s| ensures s[j] != c {
          assert !OccursAt(s, [c], j);
        }
      }
      [s]
    case Some(i) =>
      assert forall j :: 0 <= j < i ==> s[j] != c by {
        forall j | 0 <= j < i ensures s[j] != c {
          assert !OccursAt(s, [c], j);
        }
      }
      var rest := Split(s[i + 1..], c);
      assert s == s[..i] + [c] + s[i + 1..];
      [s[..i]] + rest
  }

  /** Splitting what `Join` produced gives back the pieces. */
  lemma {:induction false} SplitJoin(parts: seq<string>, c: char)
    requires |parts| > 0
    requires forall k :: 0 <= k < |parts| ==> c !in parts[k]
    ensures Split(Join(parts, c), c) == parts
    decreases |parts|
  {
    var s := Join(parts, c);
    var p := parts[0];
    if |parts| == 1 {
      forall j: nat ensures !OccursAt(s, [c], j) {
        if j < |s| {
          assert s[j] != c;
        }
      }
    } else {
      assert s == p + [c] + Join(parts[1..], c);
      assert OccursAt(s, [c], |p|);
      forall j | 0 <= j < |p| ensures !OccursAt(s, [c], j) {
        assert s[j] == p[j];
      }
      assert s[|p| + 1..] == Join(parts[1..], c);
      SplitJoin(parts[1..], c);
    }
  }

  /** Python's `<` on strings: lexicographic order of the characters. */
  predicate Less(a: string, b: string)
    decreases |a|
  {
    |b| > 0 && (|a| == 0 || a[0] < b[0] || (a[0] == b[0] && Less(a[1..], b[1..])))
  }

  /** No two strings are each less than the other. */
  lemma {:induction false} LessAsymmetric(a: string, b: string)
    ensures !(Less(a, b) && Less(b, a))
    decreases |a|
  {
    if |a| > 0 && |b| > 0 && a[0] == b[0] {
      LessAsymmetric(a[1..], b[1..]);
    }
  }

  /** Any two different strings are ordered one way or the other. */
  lemma {:induction false} LessTotal(a: string, b: string)
    ensures a == b || Less(a, b) || Less(b, a)
    decreases |a|
  {
    if |a| > 0 && |b| > 0 && a[0] == b[0] {
      LessTotal(a[1..], b[1..]);
      if a[1..] == b[1..] {
        assert a == [a[0]] + a[1..] && b == [b[0]] + b[1..];
      }
    }
  }
}
