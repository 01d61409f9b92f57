/** The step handlers. The scenario context holds the one result of the last
    command run (`ctx.cmd_result`), which every run overwrites, and the
    multi-line text attached to the step (`ctx.text`). Running a command is
    left to a collaborator, given here as a function from the command line
    and an optional working directory to the captured result. */
module Steps {
  import opened Base
  import ExitCodes
  import History
  import Userinstalled

  /** What one run of a command captured. */
  datatype CommandResult = CommandResult(returncode: int, stdout: string, stderr: string)

  /** The stream a step looks at: the pattern admits only these two names. */
  datatype Stream = Stdout | Stderr

  /** The command runner: command line and working directory to the result. */
  type Runner = (string, Option<string>) -> CommandResult

  /** `getattr(ctx.cmd_result, stream)`. */
  function StreamText(r: CommandResult, stream: Stream): string {
    match stream
    case Stdout => r.stdout
    case Stderr => r.stderr
  }

  /** The scenario context shared by the steps of one scenario. */
  class Ctx {
    var cmdResult: Option<CommandResult>
    var text: Option<string>

    /** A fresh scenario: no command has run yet. */
    constructor (text: Option<string>)
      ensures cmdResult == None && this.text == text
    {
      cmdResult := None;
      this.text := text;
    }

    /** 'I run "{command}"': the new result replaces the previous one. */
    method RunCommand(run: Runner, command: string)
      modifies this`cmdResult
      ensures cmdResult == Some(run(command, None))
    {
      cmdResult := Some(run(command, None));
    }

    /** 'I successfully run "{command}" in repository "{repository}"': fails
        without running anything when the repository lookup gave no
        directory; otherwise runs there and requires exit code 0. */
    method SuccessfullyRunInRepository(run: Runner, command: string, repo: Option<string>) returns (o: Outcome)
      modifies this`cmdResult
      ensures repo.None? ==> o == Fail(MissingRepository) && cmdResult == old(cmdResult)
      ensures repo.Some? ==> cmdResult == Some(run(command, repo)) && o == ShouldPass()
      ensures o.Pass? <==> repo.Some? && run(command, repo).returncode == 0
    {
      if repo.None? {
        return Fail(MissingRepository);
      }
      cmdResult := Some(run(command, repo));
      o := ShouldPass();
    }

    /** 'I successfully run "{command}"': run, then "the command should pass". */
    method SuccessfullyRun(run: Runner, command: string) returns (o: Outcome)
      modifies this`cmdResult
      ensures cmdResult == Some(run(command, None))
      ensures o.Pass? <==> run(command, None).returncode == 0
    {
      RunCommand(run, command);
      o := ShouldPass();
    }

    /** "the command should pass": the last exit code is 0. */
    function ShouldPass(): (o: Outcome)
      reads this
      ensures cmdResult.None? ==> o == Fail(NoCommandResult)
      ensures cmdResult.Some? ==> (o.Pass? <==> cmdResult.value.returncode == 0)
    {
      match cmdResult
      case None => Fail(NoCommandResult)
      case Some(r) => Check(r.returncode == 0)
    }

    /** "the command should fail": the last exit code is not 0. */
    function ShouldFail(): (o: Outcome)
      reads this
      ensures cmdResult.None? ==> o == Fail(NoCommandResult)
      ensures cmdResult.Some? ==> (o.Pass? <==> cmdResult.value.returncode != 0)
    {
      match cmdResult
      case None => Fail(NoCommandResult)
      case Some(r) => Check(r.returncode != 0)
    }

    /** "the command exit code is {values}": the specification is read
        first, so a malformed one fails before the result is looked at. */
    function ExitCodeVerdict(values: string): Outcome
      reads this
    {
      match ExitCodes.ParseExitCodes(values)
      case Err(f) => Fail(f)
      case Ok(codes) =>
        match cmdResult
        case None => Fail(NoCommandResult)
        case Some(r) => Check(r.returncode in codes)
    }

    /** The step itself, building the code list with the source's loop. */
    method ExitCodeIs(values: string) returns (o: Outcome)
      ensures o == ExitCodeVerdict(values)
    {
      var codes := ExitCodes.CollectExitCodes(values);
      if codes.Err? {
        return Fail(codes.failure);
      }
      if cmdResult.None? {
        return Fail(NoCommandResult);
      }
      o := Check(cmdResult.value.returncode in codes.value);
    }

    /** "the command {stream} should match exactly": the step's text is
        required, then the stream must equal it. */
    function ShouldMatchExactly(stream: Stream): (o: Outcome)
      reads this
      ensures text.None? ==> o == Fail(MissingText)
      ensures text.Some? && cmdResult.None? ==> o == Fail(NoCommandResult)
      ensures o.Pass? <==> text.Some? && cmdResult.Some? && StreamText(cmdResult.value, stream) == text.value
    {
      match text
      case None => Fail(MissingText)
      case Some(expected) =>
        match cmdResult
        case None => Fail(NoCommandResult)
        case Some(r) => Check(StreamText(r, stream) == expected)
    }

    /** "the command {stream} should be empty": sets the step's text to ""
        and compares exactly, so it passes iff the stream is "". */
    method ShouldBeEmpty(stream: Stream) returns (o: Outcome)
      modifies this`text
      ensures text == Some("")
      ensures cmdResult.None? ==> o == Fail(NoCommandResult)
      ensures o.Pass? <==> cmdResult.Some? && StreamText(cmdResult.value, stream) == ""
    {
      text := Some("");
      o := ShouldMatchExactly(stream);
    }

    /** 'history should contain "{cmd}" with action "{act}" and "{alt}"
        packages': runs `dnf history` and matches its standard output. */
    method HistoryContains(run: Runner, cmd: string, act: string, alt: string) returns (o: Outcome)
      modifies this`cmdResult
      ensures cmdResult == Some(run("dnf history", None))
      ensures o == History.HistoryOutcome(run("dnf history", None).stdout, cmd, act, alt)
    {
      RunCommand(run, "dnf history");
      o := History.FindHistoryRow(cmdResult.value.stdout, cmd, act, alt);
    }

    /** "history userinstalled should": runs `dnf history userinstalled` and
        checks the `Match` and `Not match` packages of the step's table. */
    method UserinstalledMatch(run: Runner, matchPkgs: string, notMatchPkgs: string) returns (o: Outcome)
      modifies this`cmdResult
      ensures cmdResult == Some(run("dnf history userinstalled", None))
      ensures o == Userinstalled.UserinstalledOutcome(
        run("dnf history userinstalled", None).stdout, matchPkgs, notMatchPkgs)
    {
      RunCommand(run, "dnf history userinstalled");
      o := Userinstalled.CheckUserinstalled(cmdResult.value.stdout, matchPkgs, notMatchPkgs);
    }
  }

  /** Once a command has run, exactly one of "should pass" and "should fail"
      passes; before that, both fail for want of a result. */
  lemma PassXorFail(ctx: Ctx)
    ensures ctx.cmdResult.Some? ==> (ctx.ShouldPass().Pass? != ctx.ShouldFail().Pass?)
    ensures ctx.cmdResult.None? ==> ctx.ShouldPass() == ctx.ShouldFail() == Fail(NoCommandResult)
  {
  }

  /** A malformed exit-code list fails with the ValueError of `int()`
      whether or not a command has run: the list is read before the
      result is looked at. */
  lemma MalformedListFailsFirst(ctx: Ctx, values: string)
    requires ExitCodes.ParseExitCodes(values).Err?
    ensures ctx.ExitCodeVerdict(values) == Fail(InvalidInteger)
  {
    ExitCodes.ParseExitCodesError(values);
  }

  /** "the command exit code is 1,3,100-102" passes exactly for the exit
      codes 1, 3, 100, 101 and 102. */
  lemma ExitCodeExample(ctx: Ctx)
    requires ctx.cmdResult.Some?
    ensures ctx.ExitCodeVerdict("1,3,100-102").Pass? <==> ctx.cmdResult.value.returncode in {1, 3, 100, 101, 102}
  {
    ExitCodes.DocumentedExample();
    VerdictOfCodes(ctx, "1,3,100-102", [1, 3, 100, 101, 102]);
  }

  lemma VerdictOfCodes(ctx: Ctx, values: string, codes: seq<int>)
    requires ctx.cmdResult.Some? && ExitCodes.ParseExitCodes(values) == Ok(codes)
    ensures ctx.ExitCodeVerdict(values).Pass? <==> ctx.cmdResult.value.returncode in codes
  {
  }

  /** The exit-code step passes exactly when the code is contributed by one
      of the comma-separated pieces. */
  lemma ExitCodeVerdictIff(ctx: Ctx, values: string)
    requires ctx.cmdResult.Some?
    ensures var rs := ExitCodes.Contributions(values);
      ctx.ExitCodeVerdict(values).Pass? <==>
        (forall j :: 0 <= j < |rs| ==> rs[j].Ok?)
        && exists k :: 0 <= k < |rs| && rs[k].Ok? && ctx.cmdResult.value.returncode in rs[k].value
  {
    ExitCodes.ParseExitCodesMembers(values, ctx.cmdResult.value.returncode);
  }
}
