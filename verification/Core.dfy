/**
 * The text handling of ultimo\sdk\synology\ds\Core: how the trimmed output
 * of the DiskStation's CGI scripts and of the `id` command is turned into a
 * SynoToken, an authenticated user name, a user id and group lists.
 *
 * Running a command is not modelled: each operation receives the command's
 * already-trimmed output. json_decode is the parameter `decode`, and
 * authenticate.cgi is the parameter `authenticateCgi`, a function of the
 * QUERY_STRING it is run with.
 */
module Core {
  import opened Wrappers
  import opened Text
  import opened Json

  // ---------------------------------------------------------------------
  // getSynoToken
  // ---------------------------------------------------------------------

  /** The exception code getSynoToken throws with. */
  datatype ErrorCode = UnexpectedResponse | Unclassified

  /** The exceptions getSynoToken throws. */
  datatype Error =
    | EmptyResponse
    | InvalidResponse(data: string)
    | TokenRefused(result: Value, data: string)
  {
    /**
     * The failures before a truthy-or-falsy `success` was seen are unexpected
     * responses; the refusal is thrown without a code.
     */
    function Code(): (c: ErrorCode)
      ensures c == UnexpectedResponse <==> EmptyResponse? || InvalidResponse?
      ensures c == Unclassified <==> TokenRefused?
    {
      if TokenRefused? then Unclassified else UnexpectedResponse
    }

    /** The exception message; every failure after decoding carries the raw output. */
    function Message(): (m: string)
      ensures !EmptyResponse? ==> |m| >= |data| && m[|m| - |data|..] == data
    {
      match this
      case EmptyResponse => "Empty response"
      case InvalidResponse(data) => "Invalid response:\n" + data
      case TokenRefused(result, data) =>
        "Failed to get SynoToken, result=" + ToPhpString(result) + ":\n" + data
    }
  }

  /** A line ends the headers when trim leaves nothing of it. */
  predicate IsBlank(line: string)
  {
    |Trim(line)| == 0
  }

  /**
   * The body of an HTTP-shaped response: the lines after the first blank
   * line, untrimmed and in order; no body at all when no line is blank.
   */
  function Body(lines: seq<string>): (body: seq<string>)
    ensures |body| <= |lines| && body == lines[|lines| - |body|..]
  {
    if lines == [] then []
    else if IsBlank(lines[0]) then lines[1..]
    else Body(lines[1..])
  }

  /** The header-skipping loop of getSynoToken. */
  method ExtractBody(lines: seq<string>) returns (body: seq<string>)
    ensures body == Body(lines)
  {
    body := [];
    var headersRead := false;
    ghost var separatorAt := 0;
    for i := 0 to |lines|
      invariant !headersRead ==> body == [] && forall j :: 0 <= j < i ==> !IsBlank(lines[j])
      invariant headersRead ==> FirstBlankAt(lines, separatorAt) && separatorAt < i
      invariant headersRead ==> body == lines[separatorAt + 1..i]
    {
      var line := lines[i];
      if !headersRead {
        line := Trim(line);
        assert |line| == 0 <==> IsBlank(lines[i]);
        if |line| == 0 {
          headersRead := true;
          separatorAt := i;
        }
      } else {
        assert lines[separatorAt + 1..i + 1] == lines[separatorAt + 1..i] + [line];
        body := body + [line];
      }
    }
    if headersRead {
      BodyAtFirstBlank(lines, separatorAt);
    } else {
      BodyWithoutSeparator(lines);
    }
  }

  /**
   * The decision getSynoToken takes on the decoded body: a decode failure or
   * an unset `success` is an invalid response, a falsy `success` a refusal,
   * and otherwise the `SynoToken` field (null when absent) is the result.
   */
  function Decide(response: Option<Value>, data: string): (r: Result<Value, Error>)
    ensures r.Failure? ==> r.error.InvalidResponse? || r.error.TokenRefused?
    ensures r.Failure? ==> r.error.data == data
    ensures r.Failure? && r.error.InvalidResponse? <==>
              response.None? || !IsSet(response.value, "success")
    ensures r.Success? <==>
              response.Some? && IsSet(response.value, "success")
              && Truthy(Field(response.value, "success"))
    ensures r.Success? ==> r.value == Field(response.value, "SynoToken")
    ensures r.Failure? && r.error.TokenRefused? ==>
              r.error.result == Field(response.value, "result")
  {
    if response.None? || !IsSet(response.value, "success") then
      Failure(InvalidResponse(data))
    else if !Truthy(Field(response.value, "success")) then
      Failure(TokenRefused(Field(response.value, "result"), data))
    else
      Success(Field(response.value, "SynoToken"))
  }

  /**
   * What getSynoToken yields for the output `data` of login.cgi: the
   * specification the method GetSynoToken is proved against, stated on
   * values so that EmptyResponseIff, EmptyOutputRejected and
   * ComposedResponse can be proved about it.
   */
  function TokenOf(data: string, decode: string -> Option<Value>): Result<Value, Error>
  {
    var body := Body(Split(data, '\n'));
    if body == [] then Failure(EmptyResponse)
    else Decide(decode(Join(body, '\n')), data)
  }

  /** getSynoToken, given the trimmed output of login.cgi. */
  method GetSynoToken(data: string, decode: string -> Option<Value>)
    returns (r: Result<Value, Error>)
    ensures r == TokenOf(data, decode)
  {
    var lines := Split(data, '\n');
    var body := ExtractBody(lines);
    if body == [] {
      return Failure(EmptyResponse);
    }
    var response := decode(Join(body, '\n'));
    r := Decide(response, data);
  }

  /** Header lines before the first blank line never reach the body; later blank lines do. */
  lemma {:induction false} BodyAfterSeparator(headers: seq<string>, separator: string, rest: seq<string>)
    requires forall i :: 0 <= i < |headers| ==> !IsBlank(headers[i])
    requires IsBlank(separator)
    ensures Body(headers + [separator] + rest) == rest
    decreases |headers|
  {
    var lines := headers + [separator] + rest;
    if headers == [] {
      assert lines[1..] == rest;
    } else {
      assert lines[1..] == headers[1..] + [separator] + rest;
      BodyAfterSeparator(headers[1..], separator, rest);
    }
  }

  /** Without a blank line there is no body. */
  lemma {:induction false} BodyWithoutSeparator(lines: seq<string>)
    requires forall i :: 0 <= i < |lines| ==> !IsBlank(lines[i])
    ensures Body(lines) == []
    decreases |lines|
  {
    if lines != [] {
      BodyWithoutSeparator(lines[1..]);
    }
  }

  /** Line k is blank and no line before it is. */
  predicate FirstBlankAt(lines: seq<string>, k: nat)
  {
    k < |lines| && IsBlank(lines[k]) && forall j :: 0 <= j < k ==> !IsBlank(lines[j])
  }

  /** The body is exactly the lines after the first blank line. */
  lemma BodyAtFirstBlank(lines: seq<string>, k: nat)
    requires FirstBlankAt(lines, k)
    ensures Body(lines) == lines[k + 1..]
  {
    assert lines == lines[..k] + [lines[k]] + lines[k + 1..];
    BodyAfterSeparator(lines[..k], lines[k], lines[k + 1..]);
  }

  /** Some line other than the last is blank, so a body line follows it. */
  predicate SeparatorBeforeLast(lines: seq<string>)
  {
    exists k :: 0 <= k < |lines| - 1 && IsBlank(lines[k])
  }

  /** The body is empty exactly when no line but possibly the last is blank. */
  lemma {:induction false} BodyEmptyIff(lines: seq<string>)
    ensures Body(lines) == [] <==> !SeparatorBeforeLast(lines)
    decreases |lines|
  {
    if lines != [] && !IsBlank(lines[0]) {
      BodyEmptyIff(lines[1..]);
      if SeparatorBeforeLast(lines) {
        var k :| 0 <= k < |lines| - 1 && IsBlank(lines[k]);
        assert lines[1..][k - 1] == lines[k];
      }
      if SeparatorBeforeLast(lines[1..]) {
        var k :| 0 <= k < |lines| - 2 && IsBlank(lines[1..][k]);
        assert lines[k + 1] == lines[1..][k];
      }
    } else if lines != [] && |lines| > 1 {
      assert IsBlank(lines[0]);
    }
  }

  /**
   * getSynoToken fails with "Empty response" exactly when no line of the
   * output but possibly the last is blank after trimming.
   */
  lemma EmptyResponseIff(data: string, decode: string -> Option<Value>)
    ensures TokenOf(data, decode) == Failure(EmptyResponse) <==>
              !SeparatorBeforeLast(Split(data, '\n'))
  {
    var lines := Split(data, '\n');
    BodyEmptyIff(lines);
    var body := Body(lines);
    if body != [] {
      var r := Decide(decode(Join(body, '\n')), data);
      assert TokenOf(data, decode) == r;
      assert r != Failure(EmptyResponse);
    }
  }

  /** Empty output is one blank line with nothing after it. */
  lemma EmptyOutputRejected(decode: string -> Option<Value>)
    ensures TokenOf("", decode) == Failure(EmptyResponse)
  {
    assert Split("", '\n') == [""];
    assert IsBlank("");
  }

  /** The lines of a response built from header lines, a separator and a body text. */
  lemma ComposedLines(headers: seq<string>, separator: string, bodyText: string)
    requires forall i :: 0 <= i < |headers| ==> '\n' !in headers[i]
    requires '\n' !in separator
    ensures Split(Join(headers + [separator], '\n') + "\n" + bodyText, '\n')
              == headers + [separator] + Split(bodyText, '\n')
  {
    var top := headers + [separator];
    assert forall i :: 0 <= i < |top| ==> '\n' !in top[i] by {
      forall i | 0 <= i < |top|
        ensures '\n' !in top[i]
      {
        if i < |headers| {
          assert top[i] == headers[i];
        }
      }
    }
    SplitAfterJoined(top, '\n', bodyText);
  }

  /**
   * For a response made of header lines, a line that is blank after trimming
   * (such as "\r") and a body text, json_decode receives exactly the body
   * text, whatever the header lines are and whatever the body text holds.
   */
  lemma ComposedResponse(headers: seq<string>, separator: string, bodyText: string,
                         decode: string -> Option<Value>)
    requires forall i :: 0 <= i < |headers| ==> !IsBlank(headers[i]) && '\n' !in headers[i]
    requires IsBlank(separator) && '\n' !in separator
    ensures var data := Join(headers + [separator], '\n') + "\n" + bodyText;
      TokenOf(data, decode) == Decide(decode(bodyText), data)
  {
    var lines := Split(bodyText, '\n');
    ComposedLines(headers, separator, bodyText);
    BodyAfterSeparator(headers, separator, lines);
    JoinSplit(bodyText, '\n');
  }

  // ---------------------------------------------------------------------
  // authenticate
  // ---------------------------------------------------------------------

  /** The user name authenticate.cgi printed, or null for empty output. */
  function AuthenticatedUser(response: string): (user: Option<string>)
    ensures user.None? <==> response == ""
    ensures user.Some? ==> user.value == response
  {
    if response == "" then None else Some(response)
  }

  /** The QUERY_STRING authenticate exports before running authenticate.cgi. */
  function TokenQuery(token: Value): (q: string)
    ensures |q| >= 10 && q[..10] == "SynoToken=" && q[10..] == ToPhpString(token)
  {
    "SynoToken=" + ToPhpString(token)
  }

  /**
   * authenticate: fetch a SynoToken (its exceptions propagate), run
   * authenticate.cgi with it in QUERY_STRING, and read the user name.
   */
  method Authenticate(loginOutput: string, decode: string -> Option<Value>,
                      authenticateCgi: string -> string)
    returns (r: Result<Option<string>, Error>)
    ensures TokenOf(loginOutput, decode).Failure? ==>
              r == Failure(TokenOf(loginOutput, decode).error)
    ensures TokenOf(loginOutput, decode).Success? ==>
              r == Success(AuthenticatedUser(authenticateCgi(TokenQuery(TokenOf(loginOutput, decode).value))))
  {
    var token := GetSynoToken(loginOutput, decode);
    if token.Failure? {
      return Failure(token.error);
    }
    var response := authenticateCgi(TokenQuery(token.value));
    r := Success(AuthenticatedUser(response));
  }

  // ---------------------------------------------------------------------
  // getUserId, getUserGroupNames, getUserGroupIds
  // ---------------------------------------------------------------------

  /** getUserId, given the trimmed output of `id -u`: null unless it is numeric. */
  function UserId(output: string): (id: Option<int>)
    ensures id.Some? <==> IsIntegerLiteral(output)
    ensures output == "" ==> id.None?
    ensures IsDigits(output) ==> id == Some(DigitsValue(output))
  {
    if IsIntegerLiteral(output) then Some(LiteralValue(output)) else None
  }

  /** `id -u` printing a number's decimal spelling yields that number. */
  lemma UserIdOfDecimal(n: int)
    ensures UserId(IntToDecimal(n)) == Some(n)
  {
    IntDecimalRoundTrip(n);
  }

  /** getUserGroupNames, given the trimmed output of `id -Gn`: no empty-output guard. */
  function UserGroupNames(output: string): (names: seq<string>)
    ensures |names| >= 1
    ensures Join(names, ' ') == output
    ensures forall i :: 0 <= i < |names| ==> ' ' !in names[i]
  {
    JoinSplit(output, ' ');
    Split(output, ' ')
  }

  /** getUserGroupIds, given the trimmed output of `id -G`: the ids stay strings. */
  function UserGroupIds(output: string): (ids: seq<string>)
    ensures ids == [] <==> output == ""
    ensures ids != [] ==> Join(ids, ' ') == output
    ensures forall i :: 0 <= i < |ids| ==> ' ' !in ids[i]
  {
    if output == "" then []
    else
      JoinSplit(output, ' ');
      Split(output, ' ')
  }

  /**
   * The two group lookups agree except on empty output, where the names
   * come back as one empty name and the ids as no ids.
   */
  lemma GroupListsAgree(output: string)
    ensures output != "" ==> UserGroupNames(output) == UserGroupIds(output)
    ensures UserGroupNames("") == [""] && UserGroupIds("") == []
  {
    var names := UserGroupNames("");
    assert |names| >= 1 && Join(names, ' ') == "";
    SplitJoin(names, ' ');
  }
}
