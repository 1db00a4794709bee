/**
 * The repository-argument strings of the first-generation script
 * (bisection.py): `[GIT|HG]LOCAL_PATH@GOOD..BAD`, their parsing up to the
 * two separators, the VCS clue in the uri, the argument built back from
 * its parts, and the project name taken from a local path.
 */
module LegacyArgs {
  import opened Types
  import opened Strings

  datatype Vcs = Git | Hg

  /** What `parse_arg` has read once both separators are found. */
  datatype ArgParts = ArgParts(vcs: Option<Vcs>, uri: string, good: string, bad: string)

  /** The `InvalidArg` exception, with the argument (prefix stripped) it names. */
  datatype InvalidArg = InvalidArg(arg: string)

  /**
   * The leading `HG` or `GIT` that fixes the VCS, and the rest of the
   * argument. `HG` is tried first.
   */
  function StripVcsPrefix(arg: string): (r: (Option<Vcs>, string))
    ensures r.0 == Some(Hg) <==> StartsWith(arg, "HG")
    ensures r.0 == Some(Git) <==> !StartsWith(arg, "HG") && StartsWith(arg, "GIT")
    ensures r.0 == Some(Hg) ==> arg == "HG" + r.1
    ensures r.0 == Some(Git) ==> arg == "GIT" + r.1
    ensures r.0.None? ==> r.1 == arg
  {
    if StartsWith(arg, "HG") then
      assert arg == "HG" + arg[2..];
      (Some(Hg), arg[2..])
    else if StartsWith(arg, "GIT") then
      assert arg == "GIT" + arg[3..];
      (Some(Git), arg[3..])
    else (None, arg)
  }

  /** `s` does not contain `sep` anywhere. */
  predicate Free(s: string, sep: string) {
    forall j :: 0 <= j < |s| ==> !OccursAt(s, sep, j)
  }

  /**
   * The first occurrence of `sep` in `a + sep + b` is the one between `a`
   * and `b` exactly when `a + sep[..|sep|-1]` does not contain `sep`.
   */
  predicate SplitsFirst(a: string, sep: string)
    requires |sep| > 0
  {
    Free(a + sep[..|sep| - 1], sep)
  }

  /**
   * The separator part of `parse_arg` on the argument `rest` left after
   * the VCS prefix: split at the first `@` into uri and revision range,
   * and the range at the first `..` into good and bad; `None` when either
   * separator is missing. The parts put back together give `rest`, and
   * each separator is the first of its kind.
   */
  function SplitArg(rest: string): (r: Option<(string, string, string)>)
    ensures r.Some? ==> rest == r.value.0 + "@" + r.value.1 + ".." + r.value.2
    ensures r.Some? ==> SplitsFirst(r.value.0, "@") && SplitsFirst(r.value.1, "..")
    ensures r.None? ==> Free(rest, "@") || Free(Partition(rest, "@").2, "..")
  {
    var (uri, x, revRange) := Partition(rest, "@");
    if x != "@" then None
    else
      var (good, y, bad) := Partition(revRange, "..");
      if y != ".." then None
      else
        FirstSplits(rest, "@");
        FirstSplits(revRange, "..");
        Some((uri, good, bad))
  }

  /** Where `partition` found `sep`, the text before it and `sep` minus its last character do not contain `sep`. */
  lemma FirstSplits(s: string, sep: string)
    requires |sep| > 0 && Partition(s, sep).1 == sep
    ensures SplitsFirst(Partition(s, sep).0, sep)
  {
    var a := Partition(s, sep).0;
    var t := a + sep[..|sep| - 1];
    forall j | 0 <= j < |t| ensures !OccursAt(t, sep, j) {
      if OccursAt(t, sep, j) {
        assert j < |a|;
        assert t[j..j + |sep|] == s[j..j + |sep|];
        assert OccursAt(s, sep, j);
        assert false;
      }
    }
  }

  /** A string splits only one way at the first occurrence of a separator. */
  lemma SplitUnique(a: string, sep: string, b: string, s: string)
    requires |sep| > 0 && s == a + sep + b && SplitsFirst(a, sep)
    ensures Partition(s, sep) == (a, sep, b)
  {
    assert s[|a|..|a| + |sep|] == sep;
    assert OccursAt(s, sep, |a|);
    forall j | 0 <= j < |a| ensures !OccursAt(s, sep, j) {
      var t := a + sep[..|sep| - 1];
      if OccursAt(s, sep, j) {
        assert s[j..j + |sep|] == t[j..j + |sep|];
        assert OccursAt(t, sep, j);
      }
    }
    var p := Partition(s, sep);
    assert |p.0| == |a|;
    assert p.0 == s[..|a|] == a;
    assert p.2 == s[|a| + |sep|..] == b;
  }

  /** Parts whose separators cannot be misread are split back out unchanged. */
  lemma SplitArgUnique(uri: string, good: string, bad: string)
    requires SplitsFirst(uri, "@") && SplitsFirst(good, "..")
    ensures SplitArg(uri + "@" + good + ".." + bad) == Some((uri, good, bad))
  {
    var range := good + ".." + bad;
    assert uri + "@" + good + ".." + bad == uri + "@" + range;
    SplitUnique(uri, "@", range, uri + "@" + range);
    SplitUnique(good, "..", bad, range);
  }

  /**
   * `parse_arg` up to the separators: the VCS prefix, then the uri, good
   * and bad parts; a missing separator raises `InvalidArg` naming the
   * argument with its prefix stripped.
   */
  function ParseArg(arg: string): (r: Result<ArgParts, InvalidArg>)
    ensures r.Ok? ==> r.value.vcs == StripVcsPrefix(arg).0
    ensures r.Ok? ==> StripVcsPrefix(arg).1 == r.value.uri + "@" + r.value.good + ".." + r.value.bad
    ensures r.Ok? ==> SplitsFirst(r.value.uri, "@") && SplitsFirst(r.value.good, "..")
    ensures r.Err? ==> r.error == InvalidArg(StripVcsPrefix(arg).1)
    ensures r.Err? ==> Free(StripVcsPrefix(arg).1, "@") || Free(Partition(StripVcsPrefix(arg).1, "@").2, "..")
  {
    var p := StripVcsPrefix(arg);
    match SplitArg(p.1)
    case None => Err(InvalidArg(p.1))
    case Some((uri, good, bad)) => Ok(ArgParts(p.0, uri, good, bad))
  }

  /** The argument `make_arg` builds from its data. */
  datatype ArgData = ArgData(uri: string, localPath: string, good: string, bad: string)

  /**
   * `make_arg`: `local_path@good..bad`. The source asserts that the uri is
   * the local path, the only form it can write back.
   */
  function MakeArg(d: ArgData): (s: string)
    requires d.uri == d.localPath
    ensures |s| == |d.localPath| + |d.good| + |d.bad| + 3
    ensures s[|d.localPath|] == '@'
  {
    d.localPath + "@" + d.good + ".." + d.bad
  }

  /** A prefix without `@` that `lp` does not start with is not a prefix of `lp` followed by `@`. */
  lemma NotPrefixBeforeAt(lp: string, rest: string, p: string)
    requires |rest| > 0 && rest[0] == '@' && '@' !in p && !StartsWith(lp, p)
    ensures !StartsWith(lp + rest, p)
  {
    var s := lp + rest;
    if |p| <= |lp| {
      assert |p| <= |s| ==> s[..|p|] == lp[..|p|];
    } else if |p| <= |s| {
      assert s[..|p|][|lp|] == '@';
    }
  }

  /**
   * `make_arg` is the reverse of the separator part of `parse_arg`
   * (`ParseArg`) when the separators cannot be misread: the path has no `@` and no VCS prefix, and `good` holds
   * no `..` and does not end in `.`.
   */
  lemma ParseMakeArg(d: ArgData)
    requires d.uri == d.localPath
    requires SplitsFirst(d.localPath, "@") && SplitsFirst(d.good, "..")
    requires !StartsWith(d.localPath, "HG") && !StartsWith(d.localPath, "GIT")
    ensures ParseArg(MakeArg(d)) == Ok(ArgParts(None, d.localPath, d.good, d.bad))
  {
    var rest := "@" + d.good + ".." + d.bad;
    assert MakeArg(d) == d.localPath + rest;
    NotPrefixBeforeAt(d.localPath, rest, "HG");
    NotPrefixBeforeAt(d.localPath, rest, "GIT");
    SplitArgUnique(d.localPath, d.good, d.bad);
  }

  /** Whatever `ParseArg` (the separator part of `parse_arg`) splits without a VCS prefix, `make_arg` writes back as it was. */
  lemma MakeParseArg(arg: string)
    requires ParseArg(arg).Ok? && ParseArg(arg).value.vcs.None?
    ensures var p := ParseArg(arg).value;
      MakeArg(ArgData(p.uri, p.uri, p.good, p.bad)) == arg
  {
  }

  /**
   * The part of the VCS guess the model covers: with no prefix, a uri
   * starting with `git://` or ending with `.git` means git; otherwise the
   * guess goes on to host names, which the model leaves out (`None`).
   */
  function UriVcsClue(vcs: Option<Vcs>, uri: string): (r: Option<Vcs>)
    ensures vcs.Some? ==> r == vcs
    ensures vcs.None? ==> (r == Some(Git) <==> StartsWith(uri, "git://") || EndsWith(uri, ".git"))
    ensures vcs.None? ==> r != Some(Hg)
  {
    if vcs.None? && (StartsWith(uri, "git://") || EndsWith(uri, ".git")) then Some(Git) else vcs
  }

  /** `os.path.split(lp)[1]`: everything after the last `/`. */
  function PathTail(lp: string): (tail: string)
    ensures '/' !in tail
    ensures EndsWith(lp, tail)
    ensures |tail| < |lp| ==> lp[|lp| - |tail| - 1] == '/'
  {
    if |lp| == 0 || lp[|lp| - 1] == '/' then ""
    else
      var init := lp[..|lp| - 1];
      var prev := PathTail(init);
      var tail := prev + [lp[|lp| - 1]];
      assert lp[|lp| - |tail|..] == init[|init| - |prev|..] + [lp[|lp| - 1]];
      assert |tail| < |lp| ==> lp[|lp| - |tail| - 1] == init[|init| - |prev| - 1];
      tail
  }

  /**
   * `local_path_to_name` as written: the last path component, cut to its
   * first four characters (`tail[:4]`) when it ends in `.git`.
   */
  function LocalPathToName(lp: string): (name: string)
    ensures EndsWith(PathTail(lp), ".git") ==> name == PathTail(lp)[..4]
    ensures !EndsWith(PathTail(lp), ".git") ==> name == PathTail(lp)
  {
    var tail := PathTail(lp);
    if EndsWith(tail, ".git") then tail[..4] else tail
  }

  /**
   * The bare clone `gecko.git` in any directory is named `geck`, where
   * `gecko` is meant.
   */
  lemma LocalPathToNameTruncates(dir: string)
    requires |dir| > 0 && dir[|dir| - 1] == '/'
    ensures LocalPathToName(dir + "gecko.git") == "geck"
    ensures LocalPathToNameFixed(dir + "gecko.git") == "gecko"
  {
    var name := "gecko";
    assert name + ".git" == "gecko.git";
    assert dir + "gecko.git" == dir + name + ".git";
    PathTailOf(dir, "gecko.git");
    LocalPathToNameFixedStripsSuffix(dir, name);
  }

  /** The last component of `dir/name` is `name`. */
  lemma {:induction false} PathTailOf(dir: string, name: string)
    requires |dir| > 0 && dir[|dir| - 1] == '/' && '/' !in name
    ensures PathTail(dir + name) == name
    decreases |name|
  {
    if |name| == 0 {
      assert dir + name == dir;
    } else {
      var init := name[..|name| - 1];
      assert (dir + name)[..|dir + name| - 1] == dir + init;
      PathTailOf(dir, init);
      assert init + [name[|name| - 1]] == name;
    }
  }

  /**
   * `local_path_to_name` as evidently intended: the last path component
   * with a trailing `.git` removed (`tail[:-4]`).
   */
  function LocalPathToNameFixed(lp: string): (name: string)
    ensures EndsWith(PathTail(lp), ".git") ==> name + ".git" == PathTail(lp)
    ensures !EndsWith(PathTail(lp), ".git") ==> name == PathTail(lp)
  {
    var tail := PathTail(lp);
    if EndsWith(tail, ".git") then tail[..|tail| - 4] else tail
  }

  /** The corrected name of `dir/name.git` is `name`, for a name of any length. */
  lemma LocalPathToNameFixedStripsSuffix(dir: string, name: string)
    requires |dir| > 0 && dir[|dir| - 1] == '/' && '/' !in name
    ensures LocalPathToNameFixed(dir + name + ".git") == name
  {
    assert '/' !in name + ".git";
    assert dir + name + ".git" == dir + (name + ".git");
    PathTailOf(dir, name + ".git");
    assert EndsWith(name + ".git", ".git");
  }

  /** The code as written agrees with the intended name exactly when the name has four characters. */
  lemma LocalPathToNameAgreesOnlyAtFour(dir: string, name: string)
    requires |dir| > 0 && dir[|dir| - 1] == '/' && '/' !in name
    ensures LocalPathToName(dir + name + ".git") == LocalPathToNameFixed(dir + name + ".git") <==> |name| == 4
  {
    assert '/' !in name + ".git";
    assert dir + name + ".git" == dir + (name + ".git");
    PathTailOf(dir, name + ".git");
    var tail := name + ".git";
    assert EndsWith(tail, ".git");
    LocalPathToNameFixedStripsSuffix(dir, name);
    if |name| != 4 {
      assert |tail[..4]| != |name|;
    }
  }
}
