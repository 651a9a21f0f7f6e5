/** The editor side of the command codec. A request is a type name, a static method name and
    the method's string arguments, joined with NUL; the response is `OK`, `OK` NUL result, or
    `FAIL` NUL exception. Looking the method up and invoking it by reflection is a parameter,
    `invoke`, that returns the result's text, no result (null), or an exception; `show` is an
    exception's `ToString`. */
module CommanderPlugin {
  import opened Base
  import opened Text
  import Utf8

  /** The separator of requests and responses. */
  const Separator: char := Utf8.Nul

  /** What a request asks for: the type `typeName`, its static method `methodName`, and
      either a `string[]` argument (`Some`) or no arguments at all (`None`). */
  datatype Call = Call(typeName: string, methodName: string, args: Option<seq<string>>)

  /** The pieces a call is written as, in order. */
  function Pieces(call: Call): (p: seq<string>)
    ensures |p| >= 2 && p[0] == call.typeName && p[1] == call.methodName
  {
    [call.typeName, call.methodName] + (if call.args.Some? then call.args.value else [])
  }

  /** A call that a request can express: no piece holds the separator, and an argument array
      is never empty (a request with no arguments invokes the method without any). */
  predicate Expressible(call: Call)
  {
    NoneContains(Pieces(call), Separator) && call.args != Some([])
  }

  /** How `Execute` reads a request: split on NUL; token 0 names the type, token 1 the
      method (a request with no NUL has no token 1, and indexing it throws); any further
      tokens are the arguments. */
  function ParseRequest(request: string): (r: Result<Call>)
    ensures r.Failure? ==> r.error == IndexOutOfRange
    ensures r.Success? ==> Pieces(r.value) == Split(request, Separator) && r.value.args != Some([])
  {
    var tokens := Split(request, Separator);
    if |tokens| < 2 then Failure(IndexOutOfRange)
    else Success(Call(tokens[0], tokens[1], if |tokens| > 2 then Some(tokens[2..]) else None))
  }

  /** The result `Execute` returns or the exception it throws. */
  function ExecuteResult(request: string, invoke: Call -> Result<Option<string>>): (r: Result<Option<string>>)
    ensures Separator !in request ==> r == Failure(IndexOutOfRange)
    ensures Separator in request ==> ParseRequest(request).Success? && r == invoke(ParseRequest(request).value)
  {
    ParseFails(request);
    var call :- ParseRequest(request);
    invoke(call)
  }

  /** The response `ProcessRequest` builds from what `Execute` gave. */
  function Respond(result: Result<Option<string>>, show: Exception -> string): (response: string)
    ensures result.Success? ==> "OK" <= response
    ensures result.Failure? ==> "FAIL" + [Separator] <= response
    ensures response == "OK" <==> result == Success(None)
  {
    match result
    case Success(None) => "OK"
    case Success(Some(text)) => "OK" + [Separator] + text
    case Failure(e) => "FAIL" + [Separator] + show(e)
  }

  // ---------------------------------------------------------------------------------------
  // Operations

  /** The arguments past the type and method names, copied from the last one down. */
  method CopyArgs(tokens: seq<string>) returns (args: array<string>)
    requires |tokens| > 2
    ensures args[..] == tokens[2..]
  {
    args := new string[|tokens| - 2];
    var i := args.Length;
    while i > 0
      invariant 0 <= i <= args.Length
      invariant forall j :: i <= j < args.Length ==> args[j] == tokens[j + 2]
    {
      i := i - 1;
      args[i] := tokens[i + 2];
    }
  }

  /** Splits the request, copies the arguments and invokes the method: a request without a
      NUL throws before anything is invoked. */
  method Execute(packedArgs: string, invoke: Call -> Result<Option<string>>) returns (r: Result<Option<string>>)
    ensures ParseRequest(packedArgs).Failure? ==> r == Failure(IndexOutOfRange)
    ensures ParseRequest(packedArgs).Success? ==> r == invoke(ParseRequest(packedArgs).value)
  {
    var tokens := Split(packedArgs, Separator);
    if |tokens| < 2 {
      return Failure(IndexOutOfRange);
    }
    if |tokens| > 2 {
      var args := CopyArgs(tokens);
      r := invoke(Call(tokens[0], tokens[1], Some(args[..])));
    } else {
      r := invoke(Call(tokens[0], tokens[1], None));
    }
  }

  /** Executes the request and answers it; every exception becomes a `FAIL` response, so a
      response is always produced. */
  method ProcessRequest(packedArgs: string, invoke: Call -> Result<Option<string>>,
                        show: Exception -> string) returns (response: string)
    ensures response == Respond(ExecuteResult(packedArgs, invoke), show)
  {
    var result := Execute(packedArgs, invoke);
    match result
    case Success(None) =>
      response := "OK";
    case Success(Some(text)) =>
      response := "OK" + [Separator] + text;
    case Failure(e) =>
      response := "FAIL" + [Separator] + show(e);
  }

  // ---------------------------------------------------------------------------------------
  // Properties of the codec

  /** A request fails to parse exactly when it holds no NUL. */
  lemma ParseFails(request: string)
    ensures ParseRequest(request).Failure? <==> Separator !in request
  {
    SplitOnePiece(request, Separator);
  }

  /** Every expressible call is read back from its joined pieces. */
  lemma ParseJoin(call: Call)
    requires Expressible(call)
    ensures ParseRequest(Join(Pieces(call), Separator)) == Success(call)
  {
    var p := Pieces(call);
    SplitJoin(p, Separator);
    if call.args.Some? {
      assert p[2..] == call.args.value;
    }
  }

  /** Every request that parses is the join of the call it parses to, and that call is
      expressible. */
  lemma JoinParse(request: string)
    requires ParseRequest(request).Success?
    ensures Expressible(ParseRequest(request).value)
    ensures Join(Pieces(ParseRequest(request).value), Separator) == request
  {
    var tokens := Split(request, Separator);
    SplitPiecesFree(request, Separator);
    JoinSplit(request, Separator);
    assert Pieces(ParseRequest(request).value) == tokens;
  }

  /** The first NUL-separated token of a response is `OK` when `Execute` returned and `FAIL`
      when it threw; a second token is there exactly when there is a result or an exception,
      and it is the result's (or the exception text's) first piece. */
  lemma RespondTokens(result: Result<Option<string>>, show: Exception -> string)
    ensures var tokens := Split(Respond(result, show), Separator);
      && tokens[0] == (if result.Success? then "OK" else "FAIL")
      && (|tokens| > 1 <==> result != Success(None))
      && (result.Success? && result.value.Some? ==> tokens[1] == Split(result.value.value, Separator)[0])
      && (result.Failure? ==> tokens[1] == Split(show(result.error), Separator)[0])
  {
    match result
    case Success(None) =>
      SplitNoSeparator("OK", Separator);
    case Success(Some(text)) =>
      SplitPrefix("OK", text, Separator);
    case Failure(e) =>
      SplitPrefix("FAIL", show(e), Separator);
  }
}
