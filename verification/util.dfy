/**
 * The command-running helpers of bisect_b2g/util.py: the environment a
 * command runs in, and the choices `run_cmd` makes from its options
 * before handing the command to `subprocess`. The process environment
 * `os.environ` is a parameter; starting the process is outside the model.
 */
module Util {
  import opened Types

  type Env = map<string, string>

  /** Deletes every key of `ds` that is present, one after the other. */
  function DeleteKeys(m: Env, ds: seq<string>): (r: Env)
    ensures forall k :: k in r <==> k in m && k !in ds
    ensures forall k :: k in r ==> r[k] == m[k]
    decreases |ds|
  {
    if |ds| == 0 then m
    else DeleteKeys(if ds[0] in m then m - {ds[0]} else m, ds[1..])
  }

  /**
   * `generate_env(env, delete_env)`: a copy of the process environment
   * `base`, updated with `env`, then with the keys of `deleteEnv`
   * removed. `None` for either argument is the empty map or list.
   */
  function GenerateEnv(base: Env, env: Env, deleteEnv: seq<string>): (full: Env)
    ensures forall k :: k in full <==> (k in base || k in env) && k !in deleteEnv
    ensures forall k :: k in full ==> full[k] == if k in env then env[k] else base[k]
  {
    DeleteKeys(base + env, deleteEnv)
  }

  /** With nothing to add or delete, the environment is the process's own. */
  lemma GenerateEnvUnchanged(base: Env)
    ensures GenerateEnv(base, map[], []) == base
  {
    var full := GenerateEnv(base, map[], []);
    assert full.Keys == base.Keys;
  }

  /** An added variable appears with its value, replacing any value it had. */
  lemma GenerateEnvAdd(base: Env, key: string, value: string)
    ensures GenerateEnv(base, map[key := value], []) == base[key := value]
  {
    var full := GenerateEnv(base, map[key := value], []);
    assert full.Keys == base[key := value].Keys;
  }

  /** A deleted variable is gone and every other one is kept; deleting an absent one changes nothing. */
  lemma GenerateEnvDelete(base: Env, key: string)
    ensures GenerateEnv(base, map[], [key]) == base - {key}
    ensures key !in base ==> GenerateEnv(base, map[], [key]) == base
  {
    var full := GenerateEnv(base, map[], [key]);
    assert full.Keys == (base - {key}).Keys;
  }

  /** Adding one variable and deleting another does both. */
  lemma GenerateEnvAddAndDelete(base: Env, add: string, value: string, del: string)
    requires add != del
    ensures GenerateEnv(base, map[add := value], [del]) == (base - {del})[add := value]
  {
    var full := GenerateEnv(base, map[add := value], [del]);
    assert full.Keys == (base - {del})[add := value].Keys;
  }

  /** Deletions come after additions: adding and deleting the same variable leaves it absent. */
  lemma GenerateEnvAddThenDeleteSame(base: Env, key: string, value: string)
    ensures GenerateEnv(base, map[key := value], [key]) == base - {key}
  {
    var full := GenerateEnv(base, map[key := value], [key]);
    assert full.Keys == (base - {key}).Keys;
  }

  /** `run_cmd`'s keyword options that decide how the command is run. */
  datatype RunOptions = RunOptions(readOut: bool, incErr: bool, ignoreErr: bool, rcOnly: bool)

  /** The defaults `read_out=True, inc_err=False, ignore_err=True, rc_only=False`. */
  const DefaultOptions := RunOptions(true, false, true, false)

  /** Where the command's standard error goes. */
  datatype Stderr = DevNull | IntoStdout | Inherited

  /**
   * The `subprocess` function that runs the command: `call` returns the
   * exit status, `check_output` the captured output, `check_call` nothing
   * (both raise on a non-zero status).
   */
  datatype Runner = Call | CheckOutput | CheckCall

  /** What `run_cmd` hands to `subprocess`. */
  datatype Invocation = Invocation(stderr: Stderr, runner: Runner, env: Env)

  /** The exception raised for asking to include and ignore standard error at once. */
  datatype RunCmdError = IncludeAndIgnoreStderr

  /**
   * `run_cmd`'s decisions: the environment from `generate_env`, the
   * refusal of `inc_err` together with `ignore_err`, where standard error
   * goes, and which `subprocess` function runs the command.
   */
  function RunCmd(o: RunOptions, base: Env, env: Env, deleteEnv: seq<string>): (r: Result<Invocation, RunCmdError>)
    ensures r.Err? <==> o.incErr && o.ignoreErr
    ensures r.Ok? ==> r.value.env == GenerateEnv(base, env, deleteEnv)
    ensures r.Ok? ==> (r.value.stderr == DevNull <==> o.ignoreErr || o.rcOnly)
    ensures r.Ok? ==> (r.value.stderr == IntoStdout <==> o.incErr && !o.rcOnly)
    ensures r.Ok? ==> (r.value.runner == Call <==> o.rcOnly)
    ensures r.Ok? ==> (r.value.runner == CheckOutput <==> !o.rcOnly && o.readOut)
  {
    var full := GenerateEnv(base, env, deleteEnv);
    if o.incErr && o.ignoreErr then Err(IncludeAndIgnoreStderr)
    else
      var stderr := if o.ignoreErr || o.rcOnly then DevNull else if o.incErr then IntoStdout else Inherited;
      var runner := if o.rcOnly then Call else if o.readOut then CheckOutput else CheckCall;
      Ok(Invocation(stderr, runner, full))
  }

  /**
   * Representative option combinations: the defaults capture standard
   * output only, `inc_err=True, ignore_err=False` merges standard error
   * into it, `rc_only=True` returns the exit status, and including and
   * ignoring standard error together is refused.
   */
  lemma RunCmdCases(base: Env)
    ensures RunCmd(DefaultOptions, base, map[], []) == Ok(Invocation(DevNull, CheckOutput, base))
    ensures RunCmd(DefaultOptions.(incErr := true, ignoreErr := false), base, map[], []) == Ok(Invocation(IntoStdout, CheckOutput, base))
    ensures RunCmd(DefaultOptions.(rcOnly := true), base, map[], []).Ok?
    ensures RunCmd(DefaultOptions.(rcOnly := true), base, map[], []).value.runner == Call
    ensures RunCmd(DefaultOptions.(incErr := true), base, map[], []) == Err(IncludeAndIgnoreStderr)
  {
    GenerateEnvUnchanged(base);
  }
}
