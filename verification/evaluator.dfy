/**
 * How an evaluator turns an exit code into a verdict
 * (bisect_b2g/evaluator.py). Running the script or the interactive shell
 * is outside the model; each evaluator is a rule over the exit code the
 * run produced.
 */
module Evaluator {

  /** The exit code of the interactive session's `good` command. */
  const GOOD: int := 69
  /** The exit code of the interactive session's `bad` command. */
  const BAD: int := 96

  /** `ScriptEvaluator.eval`: the lines under test are good when the script exits with status 0. */
  function ScriptVerdict(code: int): (pass: bool)
    ensures pass <==> code == 0
  {
    code == 0
  }

  /**
   * What an interactive session can end in: a verdict, the user leaving
   * the shell (which ends the whole bisection with `exit(1)`), or an
   * `EvaluatorError` carrying the unexpected code.
   */
  datatype Outcome = Verdict(pass: bool) | Abort | Unexpected(code: int)

  /** `InteractiveEvaluator.eval`: the outcome of the shell's exit code. */
  function InteractiveOutcome(code: int): (o: Outcome)
    ensures o == Verdict(true) <==> code == GOOD
    ensures o == Verdict(false) <==> code == BAD
    ensures o == Abort <==> code == 0
    ensures o.Unexpected? <==> code != GOOD && code != BAD && code != 0
    ensures o.Unexpected? ==> o.code == code
  {
    if code == GOOD then Verdict(true)
    else if code == BAD then Verdict(false)
    else if code == 0 then Abort
    else Unexpected(code)
  }

  /** The exit code of the `good` (true) or `bad` (false) shell function the session defines. */
  function MarkExitCode(good: bool): (code: int)
    ensures code != 0
  {
    if good then GOOD else BAD
  }

  /** Marking a line good or bad in the shell hands exactly that verdict back. */
  lemma MarkRoundTrip(good: bool)
    ensures InteractiveOutcome(MarkExitCode(good)) == Verdict(good)
  {
  }

  /**
   * A verdict comes only from the two marker codes, and plain `exit`
   * (status 0), which a script evaluator would take as a pass, ends the
   * interactive bisection instead.
   */
  lemma VerdictOnlyFromMarks(code: int)
    ensures InteractiveOutcome(code).Verdict? <==> exists good: bool :: code == MarkExitCode(good)
    ensures ScriptVerdict(0) && InteractiveOutcome(0) == Abort
  {
    if code == GOOD {
      assert code == MarkExitCode(true);
    } else if code == BAD {
      assert code == MarkExitCode(false);
    }
  }
}
