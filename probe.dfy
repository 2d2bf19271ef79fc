/**
 * The decision `execute_curl_commands_from_file` takes for each URL once
 * `curl -k -I` has run: the status line of the headers, success or
 * failure, and the lines reported. The batch script treats a `HTTP/2 403`
 * status as a failure; the manual script counts every exit code 0 as a
 * success.
 *
 * Running curl, reading the URL file and the loop over its lines are
 * outside the model: what one curl run gave is an input.
 */
module Probe {
  import opened Text

  /** What one `subprocess.run` of curl gave back. */
  datatype CurlRun = CurlRun(exitCode: int, stdout: string, stderr: string)

  /** How one URL is classed. */
  datatype Verdict = Success(status: string) | Forbidden(status: string) | CurlFailed(code: int)

  /** The status line reported when curl wrote nothing. */
  const NoStatusLine := "No HTTP Status Line"

  /** The one status line the batch script treats as a failure. */
  const Status403 := "HTTP/2 403"

  const RuleWidth: nat := 50

  /**
   * `result.stdout.splitlines()[0] if result.stdout else "No HTTP Status Line"`.
   */
  function StatusLine(stdout: string): (line: string)
    ensures stdout == [] ==> line == NoStatusLine
    ensures stdout != [] ==> StartsWith(stdout, line) && (|line| == |stdout| || IsLineBoundary(stdout[|line|]))
    ensures stdout != [] ==> forall k | 0 <= k < |line| :: !IsLineBoundary(line[k])
  {
    if stdout == [] then NoStatusLine else FirstLine(stdout)
  }

  /** The batch script's decision (`daddy.py`). */
  function BatchVerdict(run: CurlRun): (v: Verdict)
    ensures v.CurlFailed? <==> run.exitCode != 0
    ensures v.CurlFailed? ==> v.code == run.exitCode
    ensures !v.CurlFailed? ==> v.status == StatusLine(run.stdout)
    ensures v.Forbidden? <==> run.exitCode == 0 && StatusLine(run.stdout) == Status403
  {
    if run.exitCode != 0 then CurlFailed(run.exitCode)
    else
      var status := StatusLine(run.stdout);
      if status == Status403 then Forbidden(status) else Success(status)
  }

  /** The manual script's decision (`manual_daddy.py`): no special status. */
  function ManualVerdict(run: CurlRun): (v: Verdict)
    ensures v.CurlFailed? <==> run.exitCode != 0
    ensures v.CurlFailed? ==> v.code == run.exitCode
    ensures !v.CurlFailed? ==> v == Success(StatusLine(run.stdout))
  {
    if run.exitCode != 0 then CurlFailed(run.exitCode) else Success(StatusLine(run.stdout))
  }

  /** The first line printed for a verdict. */
  function VerdictLine(v: Verdict): string {
    match v
    case Success(status) => "  SUCCESS. " + status
    case Forbidden(status) => " FAILED. " + status
    case CurlFailed(code) => "  FAILED. Curl exited with code: " + ShowInt(code)
  }

  /** What a failed run wrote to each stream, stripped, for the streams that are not empty. */
  function StreamLines(run: CurlRun): (lines: seq<string>)
    ensures |lines| == (if run.stderr != [] then 1 else 0) + (if run.stdout != [] then 1 else 0)
  {
    (if run.stderr != [] then ["  Stderr: " + Strip(run.stderr)] else [])
    + (if run.stdout != [] then ["  Stdout (headers): " + Strip(run.stdout)] else [])
  }

  /**
   * The lines printed for one URL after the `Executing curl for:` line: the
   * verdict, for a failed run what curl wrote to each stream, then a rule of
   * 50 dashes.
   */
  function Report(run: CurlRun, v: Verdict): (lines: seq<string>)
    ensures 2 <= |lines| <= 4
    ensures lines[0] == VerdictLine(v) && lines[|lines| - 1] == Repeat('-', RuleWidth)
    ensures !v.CurlFailed? ==> |lines| == 2
    ensures v.CurlFailed? ==> lines[1..|lines| - 1] == StreamLines(run)
  {
    [VerdictLine(v)] + (if v.CurlFailed? then StreamLines(run) else []) + [Repeat('-', RuleWidth)]
  }

  /** In the manual script a run that exits with 0 is never a failure. */
  lemma ManualZeroSucceeds(run: CurlRun)
    requires run.exitCode == 0
    ensures ManualVerdict(run).Success?
    ensures Report(run, ManualVerdict(run)) == ["  SUCCESS. " + StatusLine(run.stdout), Repeat('-', RuleWidth)]
  {
  }

  /**
   * The two scripts class a run alike except when curl exits with 0 and the
   * first header line is exactly `HTTP/2 403`.
   */
  lemma VerdictsDiffer(run: CurlRun)
    ensures BatchVerdict(run) != ManualVerdict(run) <==>
            run.exitCode == 0 && StatusLine(run.stdout) == Status403
  {
  }

  /**
   * The status line is `HTTP/2 403` exactly when the headers start with it
   * and it is followed by a line boundary or the end of the output: a
   * `HTTP/2 4031` line, or `HTTP/2 403` after a blank line, is not it.
   */
  lemma Status403Exactly(stdout: string)
    ensures StatusLine(stdout) == Status403 <==>
            StartsWith(stdout, Status403) && (|stdout| == |Status403| || IsLineBoundary(stdout[|Status403|]))
  {
    if stdout != [] && StartsWith(stdout, Status403) && (|stdout| == |Status403| || IsLineBoundary(stdout[|Status403|])) {
      var line := FirstLine(stdout);
      NoBoundaryIn403();
      FirstLineUpTo(stdout, |Status403|);
      assert line == stdout[..|Status403|];
    }
  }

  /** `HTTP/2 403` holds no line boundary. */
  lemma NoBoundaryIn403()
    ensures forall k | 0 <= k < |Status403| :: !IsLineBoundary(Status403[k])
  {
  }

  /** The first line of a text with no boundary before `n` and one at `n` (or the end) has length `n`. */
  lemma FirstLineUpTo(s: string, n: nat)
    requires n <= |s|
    requires forall k | 0 <= k < n :: !IsLineBoundary(s[k])
    requires n == |s| || IsLineBoundary(s[n])
    ensures FirstLine(s) == s[..n]
  {
  }

  /** Without any output, both scripts report success with the placeholder status. */
  lemma SilentSuccess(run: CurlRun)
    requires run.exitCode == 0 && run.stdout == []
    ensures BatchVerdict(run) == ManualVerdict(run) == Success(NoStatusLine)
  {
  }
}
