/**
 * The yes/no prompt both release scripts put before an irreversible step.
 * The answer is read as typed: no stripping and no case folding, and only
 * its beginning is looked at (`re.match` anchors at the start, not the end).
 */
module Confirm {
  import opened Options

  /**
   * The length of the match of the pattern `y(es)?` at the start of the
   * answer, or `None` when it does not match. The optional group is greedy,
   * so an answer starting with `yes` matches all three letters.
   */
  function MatchYes(answer: string): (m: Option<nat>)
    ensures m.Some? <==> StartsWith(answer, "y")
    ensures m == Some(3) <==> StartsWith(answer, "yes")
    ensures m.Some? ==> m.value == 1 || m.value == 3
  {
    if |answer| >= 1 && answer[0] == 'y' then
      if |answer| >= 3 && answer[1] == 'e' && answer[2] == 's' then Some(3) else Some(1)
    else None
  }

  /** `s` begins with `p`. */
  predicate StartsWith(s: string, p: string) {
    |p| <= |s| && s[..|p|] == p
  }

  /** The answer counts as a yes. */
  predicate Accepts(answer: string) {
    MatchYes(answer).Some?
  }

  /**
   * An answer is a yes exactly when its first character is a lower-case
   * `y`: the optional `es` never decides anything, whatever follows is
   * ignored, and neither a capital `Y` nor leading whitespace is forgiven.
   */
  lemma AcceptsFirstY(answer: string)
    ensures Accepts(answer) <==> answer != [] && answer[0] == 'y'
  {
  }

  /** `"yolo"` and `"yes please"` are yes; `"Y"`, `" y"`, `"no"` and the empty answer are not. */
  lemma AcceptExamples()
    ensures Accepts("yolo") && Accepts("yes please")
    ensures !Accepts("Y") && !Accepts(" y") && !Accepts("no") && !Accepts("")
  {
  }

  /** The exit status used when the caller does not pass one. */
  const DefaultAbortCode: int := 1

  /** How a prompt ends: the caller goes on, the caller is told no, or the program exits. */
  datatype Verdict = Proceed | Decline | Exit(code: int)

  /**
   * `confirm` of the Docker script. A yes proceeds (`True`); otherwise,
   * without an abort code the caller is told no (`False`), and with one the
   * program exits with that status.
   */
  function DockerConfirm(answer: string, codeAbort: Option<int>): (v: Verdict)
    ensures v == Proceed <==> answer != [] && answer[0] == 'y'
    ensures v == Decline <==> !(answer != [] && answer[0] == 'y') && codeAbort.None?
    ensures v.Exit? <==> !(answer != [] && answer[0] == 'y') && codeAbort.Some?
    ensures v.Exit? ==> v.code == codeAbort.value
  {
    AcceptsFirstY(answer);
    if Accepts(answer) then Proceed
    else match codeAbort
      case None => Decline
      case Some(code) => Exit(code)
  }

  /**
   * `confirm` of the PyPI script. It has no way to say no: anything but a
   * yes exits with the abort code.
   */
  function PypiConfirm(answer: string, codeAbort: int): (v: Verdict)
    ensures v != Decline
    ensures v == Proceed <==> answer != [] && answer[0] == 'y'
    ensures v.Exit? ==> v.code == codeAbort
  {
    AcceptsFirstY(answer);
    if Accepts(answer) then Proceed else Exit(codeAbort)
  }

  /** The PyPI prompt behaves as the Docker prompt given an abort code. */
  lemma PypiIsDockerWithCode(answer: string, codeAbort: int)
    ensures PypiConfirm(answer, codeAbort) == DockerConfirm(answer, Some(codeAbort))
  {
  }

  /** With the default abort code a refusal ends the program with status 1. */
  lemma RefusalExitsOne(answer: string)
    requires !(answer != [] && answer[0] == 'y')
    ensures DockerConfirm(answer, Some(DefaultAbortCode)) == Exit(1)
    ensures PypiConfirm(answer, DefaultAbortCode) == Exit(1)
  {
  }
}
