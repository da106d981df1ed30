/** What `F3Worker.run` reports once f3probe has finished or failed to start:
    the exit-code branch after `process.wait()` and the FileNotFoundError
    handler, as the ordered list of signals the worker emits. */
module Runner {
  import opened Options
  import opened Text
  import opened Classifier

  /** How the probe process ended. */
  datatype Completion = Exited(code: int) | LaunchFailed

  /** The detail text of an error: the joined stderr, or the "no output" text
      used when stderr was empty. */
  datatype Detail = StderrText(text: string) | NoOutput

  /** The error messages the worker can emit. */
  datatype Failure =
    | AuthenticationError(detail: Detail)
    | PkexecNotFound
    | CommandError(code: int, detail: Detail)
    | F3NotFound
    | CapacityParseError

  /** The `finished` messages. */
  datatype Notice = CommandSuccess | FakeDetected

  /** One emitted signal: `finished`, `error` or `f3probe_result`. */
  datatype Event =
    | Finished(notice: Notice)
    | Error(failure: Failure)
    | ProbeResult(realCapacity: Option<string>, promisedCapacity: Option<string>, status: Status)

  /** The kind of a failure, its detail text left aside. */
  datatype Kind = AuthenticationKind | PkexecKind | CommandKind | F3Kind | ParseKind

  function KindOf(f: Failure): Kind {
    match f
    case AuthenticationError(_) => AuthenticationKind
    case PkexecNotFound => PkexecKind
    case CommandError(_, _) => CommandKind
    case F3NotFound => F3Kind
    case CapacityParseError => ParseKind
  }

  /** Each read line with its surrounding white space removed. */
  function StripAll(lines: seq<string>): (r: seq<string>)
    ensures |r| == |lines|
    ensures forall i :: 0 <= i < |lines| ==> r[i] == Strip(lines[i])
  {
    seq(|lines|, i requires 0 <= i < |lines| => Strip(lines[i]))
  }

  /** Mentions of an authentication failure, in lower case. */
  predicate MentionsAuthentication(low: string) {
    Contains(low, "polkit") || Contains(low, "authentication")
  }

  /** Mentions of a missing pkexec, in lower case. */
  predicate MentionsMissingPkexec(low: string) {
    Contains(low, "not found") && Contains(low, "pkexec")
  }

  /** `error_output`: the stderr lines joined by newlines, or the "no output"
      text when there were none. */
  function ErrorOutput(stderr: seq<string>): (d: Detail)
    ensures d == NoOutput <==> |stderr| == 0
    ensures |stderr| == 1 ==> d == StderrText(stderr[0])
  {
    if |stderr| == 0 then NoOutput else StderrText(Join(stderr, "\n"))
  }

  /** The single error of a failed run, chosen from the error output. The
      "no output" text, in either language, mentions neither polkit,
      authentication nor "not found", so it always gives the generic error. */
  function FailureOf(code: int, detail: Detail): (f: Failure)
    ensures detail == NoOutput ==> f == CommandError(code, NoOutput)
    ensures detail.StderrText? ==> var low := Lower(detail.text);
      && (f.AuthenticationError? <==> MentionsAuthentication(low))
      && (f == PkexecNotFound <==> !MentionsAuthentication(low) && MentionsMissingPkexec(low))
      && (f.CommandError? <==> !MentionsAuthentication(low) && !MentionsMissingPkexec(low))
    ensures f.AuthenticationError? || f.CommandError? ==> f.detail == detail
    ensures f.CommandError? ==> f.code == code
  {
    match detail
    case NoOutput => CommandError(code, NoOutput)
    case StderrText(text) =>
      var low := Lower(text);
      if MentionsAuthentication(low) then AuthenticationError(detail)
      else if MentionsMissingPkexec(low) then PkexecNotFound
      else CommandError(code, detail)
  }

  /** What `_parse_f3probe_output` emits for a classification: one
      capacity-parse error per unparsable shortfall line, then the result. */
  function ProbeEvents(c: Classification): (events: seq<Event>)
    ensures |events| == c.warnings + 1
    ensures forall i :: 0 <= i < c.warnings ==> events[i] == Error(CapacityParseError)
    ensures events[c.warnings] == ProbeResult(c.realCapacity, c.promisedCapacity, c.status)
  {
    seq(c.warnings, _ => Error(CapacityParseError)) + [ProbeResult(c.realCapacity, c.promisedCapacity, c.status)]
  }

  /** The signals emitted after the process ends, in order. */
  function Outcome(completion: Completion, stdout: seq<string>, stderr: seq<string>): (events: seq<Event>)
    ensures completion.LaunchFailed? ==> events == [Error(F3NotFound)]
    ensures completion.Exited? && completion.code != 0 && completion.code != 102 ==>
      events == [Error(FailureOf(completion.code, ErrorOutput(StripAll(stderr))))]
    ensures completion.Exited? && (completion.code == 0 || completion.code == 102) ==>
      var probe := ProbeEvents(Classify(StripAll(stdout)));
      && |events| == |probe| + (if completion.code == 102 then 2 else 1)
      && events[0] == Finished(CommandSuccess)
      && events[1..|probe| + 1] == probe
      && (completion.code == 102 ==> events[|events| - 1] == Finished(FakeDetected))
  {
    match completion
    case LaunchFailed => [Error(F3NotFound)]
    case Exited(code) =>
      if code == 0 || code == 102 then
        [Finished(CommandSuccess)] + ProbeEvents(Classify(StripAll(stdout))) + (if code == 102 then [Finished(FakeDetected)] else [])
      else [Error(FailureOf(code, ErrorOutput(StripAll(stderr))))]
  }

  // ---- properties ----

  /** A failed run emits exactly one error, never a result, and never the
      launch or parse errors. */
  lemma FailedRunOneError(code: int, stdout: seq<string>, stderr: seq<string>)
    requires code != 0 && code != 102
    ensures var events := Outcome(Exited(code), stdout, stderr);
      && |events| == 1 && events[0].Error?
      && events[0].failure != F3NotFound && events[0].failure != CapacityParseError
  {
  }

  /** Exit code 102 reports exactly what exit code 0 reports, whatever either
      stderr held, followed by the fake-device notice. */
  lemma Exit102ExtendsExit0(stdout: seq<string>, stderr: seq<string>, otherStderr: seq<string>)
    ensures Outcome(Exited(102), stdout, stderr) == Outcome(Exited(0), stdout, otherStderr) + [Finished(FakeDetected)]
  {
  }

  /** Exit code 102 does not decide the verdict: with nothing on stdout the
      result is still "test completed". */
  lemma Exit102KeepsVerdict(stderr: seq<string>)
    ensures Outcome(Exited(102), [], stderr)
      == [Finished(CommandSuccess), ProbeResult(None, None, TestCompleted), Finished(FakeDetected)]
  {
    EmptyTranscript();
    assert StripAll([]) == [];
  }

  /** Some stderr line mentions `phrase`, letter case aside. */
  ghost predicate AnyLineMentions(stderr: seq<string>, phrase: string) {
    exists i :: 0 <= i < |stderr| && Contains(Lower(stderr[i]), phrase)
  }

  /** The failure read line by line: none of the phrases spans a line break,
      so the joined detail mentions one exactly when some line does. */
  lemma FailureByLines(code: int, stderr: seq<string>)
    requires |stderr| > 0
    ensures var f := FailureOf(code, ErrorOutput(stderr));
      var auth := AnyLineMentions(stderr, "polkit") || AnyLineMentions(stderr, "authentication");
      && (f.AuthenticationError? <==> auth)
      && (f == PkexecNotFound <==>
            !auth && AnyLineMentions(stderr, "not found") && AnyLineMentions(stderr, "pkexec"))
      && (f.CommandError? <==>
            !auth && !(AnyLineMentions(stderr, "not found") && AnyLineMentions(stderr, "pkexec")))
  {
    JoinLowerContains(stderr, "polkit");
    JoinLowerContains(stderr, "authentication");
    JoinLowerContains(stderr, "not found");
    JoinLowerContains(stderr, "pkexec");
  }

  /** A successful run emits one capacity-parse error per shortfall line whose
      counts do not parse, then one result. */
  lemma ParseWarnings(lines: seq<string>)
    ensures var events := ProbeEvents(Classify(lines));
      && |events| == FailedCount(lines) + 1
      && (forall i :: 0 <= i < FailedCount(lines) ==> events[i] == Error(CapacityParseError))
      && events[|events| - 1].ProbeResult?
  {
  }

  /** The failure kind does not depend on letter case. */
  lemma {:induction false} CaseInsensitive(code: int, stderr: seq<string>, other: seq<string>)
    requires |stderr| == |other|
    requires forall i :: 0 <= i < |stderr| ==> Lower(stderr[i]) == Lower(other[i])
    ensures KindOf(FailureOf(code, ErrorOutput(stderr))) == KindOf(FailureOf(code, ErrorOutput(other)))
  {
    if |stderr| > 0 {
      LowerJoin(stderr, other);
    }
  }

  /** Lines that agree in lower case join to texts that agree in lower case. */
  lemma {:induction false} LowerJoin(a: seq<string>, b: seq<string>)
    requires |a| == |b|
    requires forall i :: 0 <= i < |a| ==> Lower(a[i]) == Lower(b[i])
    ensures Lower(Join(a, "\n")) == Lower(Join(b, "\n"))
    decreases |a|
  {
    if |a| > 1 {
      var n := |a| - 1;
      LowerJoin(a[..n], b[..n]);
      LowerConcat(Join(a[..n], "\n") + "\n", a[n]);
      LowerConcat(Join(b[..n], "\n") + "\n", b[n]);
      LowerConcat(Join(a[..n], "\n"), "\n");
      LowerConcat(Join(b[..n], "\n"), "\n");
    } else if |a| == 1 {
      assert Lower(a[0]) == Lower(b[0]);
    }
  }
}
