/** The command-line side of the command codec: `ExternalCommander <channel> <type> <method>
    [args...]` sends the type, the method and the arguments as one NUL-joined request and
    turns the response into an exit code and what is written to the console. Connecting,
    sending and receiving are one parameter, `exchange`, from the channel name and the request
    to the response or an exception. */
module CommanderProgram {
  import opened Base
  import opened Text
  import opened CommanderPlugin

  /** What is written to standard error: the usage text, `FAIL: detail`, a bare `FAIL`,
      `NOTHING` for an unknown status, or `ERROR: exception`. */
  datatype Diagnostic = Usage | FailWith(detail: string) | FailBare | Nothing | Error(ex: Exception)

  /** The exit code, the line written to standard output, if any, and the line written to
      standard error, if any. */
  datatype Exit = Exit(code: int, output: Option<string>, diagnostic: Option<Diagnostic>)

  /** The request for a command line: everything after the channel name, joined with NUL. */
  function PackArgs(args: seq<string>): (request: string)
    requires |args| >= 1
    ensures |args| >= 2 ==> args[1] <= request
    ensures |args| >= 3 ==> Separator in request
  {
    Join(args[1..], Separator)
  }

  /** How a response is classified by its first NUL-separated token: `FAIL` and any status
      other than `OK` exit with 1 and print nothing to standard output; `OK` exits with 0 and
      prints the second token when there is one, ignoring any later tokens. */
  function Classify(response: string): (e: Exit)
    ensures var tokens := Split(response, Separator);
      && (e.code == 0 <==> tokens[0] == "OK")
      && (e.code != 0 ==> e.code == 1 && e.output == None && e.diagnostic.Some?)
      && (e.code == 0 ==> e.diagnostic == None && (e.output.Some? <==> |tokens| > 1))
      && (e.output.Some? ==> e.output.value == tokens[1])
      && (tokens[0] == "FAIL" <==> e.diagnostic.Some? && (e.diagnostic.value.FailWith? || e.diagnostic.value.FailBare?))
    ensures var tokens := Split(response, Separator);
      tokens[0] == "FAIL" ==> e.diagnostic == Some(if |tokens| > 1 then FailWith(tokens[1]) else FailBare)
    ensures var tokens := Split(response, Separator);
      tokens[0] != "OK" && tokens[0] != "FAIL" ==> e == Exit(1, None, Some(Nothing))
    ensures response == "" ==> e == Exit(1, None, Some(Nothing))
  {
    var tokens := Split(response, Separator);
    var status := tokens[0];
    if status == "FAIL" then
      Exit(1, None, Some(if |tokens| > 1 then FailWith(tokens[1]) else FailBare))
    else if status != "OK" then
      Exit(1, None, Some(Nothing))
    else
      Exit(0, if |tokens| > 1 then Some(tokens[1]) else None, None)
  }

  /** The whole program: fewer than three arguments print the usage and exit with 1 without
      connecting; an exception while talking to the editor exits with 1; otherwise the
      response decides. */
  function Run(args: seq<string>, exchange: (string, string) -> Result<string>): (e: Exit)
    ensures e.code == 0 || e.code == 1
    ensures |args| < 3 ==> e == Exit(1, None, Some(Usage))
    ensures |args| >= 3 && exchange(args[0], PackArgs(args)).Failure? ==>
      e == Exit(1, None, Some(Error(exchange(args[0], PackArgs(args)).error)))
    ensures |args| >= 3 && exchange(args[0], PackArgs(args)).Success? ==>
      e == Classify(exchange(args[0], PackArgs(args)).value)
  {
    if |args| < 3 then Exit(1, None, Some(Usage))
    else
      match exchange(args[0], PackArgs(args))
      case Failure(ex) => Exit(1, None, Some(Error(ex)))
      case Success(response) => Classify(response)
  }

  // ---------------------------------------------------------------------------------------
  // The two sides together

  /** The call a command line asks for. */
  function Requested(args: seq<string>): Call
    requires |args| >= 3
  {
    Call(args[1], args[2], if |args| > 3 then Some(args[3..]) else None)
  }

  /** When no argument holds a NUL, the editor reads the request as exactly the type, the
      method and the remaining arguments of the command line, in order. */
  lemma RequestReachesServer(args: seq<string>)
    requires |args| >= 3 && NoneContains(args[1..], Separator)
    ensures ParseRequest(PackArgs(args)) == Success(Requested(args))
  {
    var call := Requested(args);
    assert Pieces(call) == args[1..];
    ParseJoin(call);
  }

  /** What the command line makes of each response the editor can send: exit code 0 for a
      method that returned, printing the first piece of its result when there is one, and
      exit code 1 with `FAIL: ` and the first piece of the exception text when it threw. */
  lemma ResponseClassified(result: Result<Option<string>>, show: Exception -> string)
    ensures var e := Classify(Respond(result, show));
      match result
      case Success(None) => e == Exit(0, None, None)
      case Success(Some(text)) => e == Exit(0, Some(Split(text, Separator)[0]), None)
      case Failure(ex) => e == Exit(1, None, Some(FailWith(Split(show(ex), Separator)[0])))
  {
    RespondTokens(result, show);
  }

  /** A result without NUL is printed whole. */
  lemma ResultPrintedWhole(text: string, show: Exception -> string)
    requires Separator !in text
    ensures Classify(Respond(Success(Some(text)), show)).output == Some(text)
  {
    ResponseClassified(Success(Some(text)), show);
    SplitNoSeparator(text, Separator);
  }

  /** End to end, over a channel that delivers the request and the response unchanged: a
      command line with no NUL in its arguments exits with 0 exactly when the method it names
      returns. */
  lemma CommandSucceeds(args: seq<string>, invoke: Call -> Result<Option<string>>,
                        show: Exception -> string)
    requires |args| >= 3 && NoneContains(args[1..], Separator)
    ensures Run(args, (channel, request) => Success(Respond(ExecuteResult(request, invoke), show))).code == 0
      <==> invoke(Requested(args)).Success?
  {
    RequestReachesServer(args);
    ResponseClassified(invoke(Requested(args)), show);
  }
}
