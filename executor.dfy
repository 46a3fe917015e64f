/**
 * Test execution and validation (Agent/executor.py).
 *
 * The HTTP call itself is an input: `HttpOutcome` is either the transport
 * exception the request raised or the response received, together with
 * what `response.json()` does on it. `ExecuteApiTest` follows the source
 * step by step (a `passed` flag and a list of log messages updated by two
 * independent checks); `Report` states the same verdict declaratively, in
 * terms of the findings each check contributes, and the lemmas below are
 * about `Report`.
 */
module Executor {
  import opened Wrappers
  import opened PyText
  import opened Json
  import opened Generator

  /** What `response.json()` does: raise a decode error, or return the decoded value. */
  datatype ParsedBody = DecodeError(message: string) | Decoded(value: Json)

  /** The outcome of the one `requests.request` call. */
  datatype HttpOutcome =
    | TransportError(message: string)
    | Response(statusCode: int, content: seq<bv8>, text: string, json: ParsedBody)

  datatype Status = Success | Failure

  /** `response_body`: the decoded JSON when decoding succeeded, else the first characters of the text. */
  datatype ResponseBody = JsonBody(value: Json) | TextSample(text: string)

  /** The failure alert, naming the test and the URL it ran against. */
  datatype Alert = Alert(testName: string, url: string)

  /**
   * The dictionary the executor returns, plus the alert it emits. The
   * transport-failure dictionary has no `response_body` key (`None` here).
   */
  datatype TestReport = TestReport(
    testName: string,
    status: Status,
    log: string,
    httpStatus: Option<int>,
    responseBody: Option<ResponseBody>,
    alert: Option<Alert>)

  /** A log message, and whether the check that wrote it also cleared `passed`. */
  datatype Finding = Finding(message: string, failsTest: bool)

  const PassedLog: string := "Test passed all assertions."
  const InvalidJsonMessage: string := "Response was not valid JSON."
  const SampleLength: nat := 200

  /** `f"{base_url}{test_spec.endpoint}"`: plain concatenation, no slash handling. */
  function FullUrl(baseUrl: string, spec: TestSpec): (url: string)
    ensures |url| == |baseUrl| + |spec.endpoint|
    ensures url[..|baseUrl|] == baseUrl && url[|baseUrl|..] == spec.endpoint
  {
    baseUrl + spec.endpoint
  }

  function StatusMismatchMessage(expected: int, got: int): string {
    "Status Code Mismatch: Expected " + IntToStr(expected) + ", Got " + IntToStr(got)
  }

  function MissingKeyMessage(key: string): string {
    "Content Mismatch: Expected key '" + key + "' not found in response."
  }

  function ValidationErrorMessage(error: string): string {
    "Validation Error: " + error
  }

  // ---------------------------------------------------------------------------
  // The two checks, as the findings they contribute

  /** The status check: a failing finding exactly when the codes differ. */
  function StatusFindings(expected: int, got: int): seq<Finding> {
    if got != expected then [Finding(StatusMismatchMessage(expected, got), true)] else []
  }

  /**
   * The content check. A decoded value is tested with Python `in` only when
   * the expected key is non-empty; a `TypeError` from `in` is logged without
   * failing the test. A decode error fails the test only for a non-empty
   * body when 200 was expected.
   */
  function ContentFindings(key: string, expectedStatus: int, content: seq<bv8>, parsed: ParsedBody): seq<Finding> {
    match parsed
    case DecodeError(_) =>
      if |content| > 0 && expectedStatus == 200 then [Finding(InvalidJsonMessage, true)] else []
    case Decoded(v) =>
      if key == [] then []
      else
        match PyIn(key, v)
        case Contains(found) => if found then [] else [Finding(MissingKeyMessage(key), true)]
        case TypeError(e) => [Finding(ValidationErrorMessage(e), false)]
  }

  /** All findings of a received response, status check first. */
  function Findings(spec: TestSpec, code: int, content: seq<bv8>, parsed: ParsedBody): seq<Finding> {
    StatusFindings(spec.expectedStatusCode, code)
      + ContentFindings(spec.expectedResponseKey, spec.expectedStatusCode, content, parsed)
  }

  function Messages(fs: seq<Finding>): (ms: seq<string>)
    ensures |ms| == |fs| && forall i :: 0 <= i < |fs| ==> ms[i] == fs[i].message
  {
    seq(|fs|, i requires 0 <= i < |fs| => fs[i].message)
  }

  predicate AllPass(fs: seq<Finding>) {
    forall i :: 0 <= i < |fs| ==> !fs[i].failsTest
  }

  lemma AllPassAppend(fs: seq<Finding>, f: Finding)
    ensures AllPass(fs + [f]) <==> AllPass(fs) && !f.failsTest
  {
    var g := fs + [f];
    assert g[|fs|] == f;
    assert forall i :: 0 <= i < |fs| ==> g[i] == fs[i];
  }

  /** A failing first finding followed by at most one more: the log is the first message, then "; " and the second. */
  lemma LeadingFailureLog(m: string, rest: seq<Finding>)
    requires |rest| <= 1
    ensures !AllPass([Finding(m, true)] + rest)
    ensures RenderLog(Messages([Finding(m, true)] + rest)) == m + if rest == [] then "" else "; " + rest[0].message
  {
    var first := Finding(m, true);
    if rest == [] {
      assert [first] + rest == [first];
      LoneFailureLog(m);
    } else {
      assert [first] + rest == [first, rest[0]];
      FailureThenFindingLog(m, rest[0]);
    }
  }

  lemma LoneFailureLog(m: string)
    ensures !AllPass([Finding(m, true)])
    ensures RenderLog(Messages([Finding(m, true)])) == m + ""
  {
    FirstFails([Finding(m, true)]);
    assert Messages([Finding(m, true)]) == [m];
    assert m + "" == m;
  }

  lemma FailureThenFindingLog(m: string, g: Finding)
    ensures !AllPass([Finding(m, true), g])
    ensures RenderLog(Messages([Finding(m, true), g])) == m + ("; " + g.message)
  {
    FirstFails([Finding(m, true), g]);
    MessagesOfPair(Finding(m, true), g);
    JoinTwo(m, g.message, "; ");
    AppendAssoc(m, "; ", g.message);
  }

  lemma FirstFails(fs: seq<Finding>)
    requires fs != [] && fs[0].failsTest
    ensures !AllPass(fs)
  {
  }

  lemma MessagesOfPair(f: Finding, g: Finding)
    ensures Messages([f, g]) == [f.message, g.message]
  {
  }

  lemma AppendAssoc(a: string, b: string, c: string)
    ensures a + b + c == a + (b + c)
  {
  }

  /** The last finding's message closes the log, and a failing last finding fails the test. */
  lemma LastFindingLog(fs: seq<Finding>)
    requires fs != []
    ensures EndsWith(RenderLog(Messages(fs)), fs[|fs| - 1].message)
    ensures fs[|fs| - 1].failsTest ==> !AllPass(fs)
  {
    var ms := Messages(fs);
    assert ms[|ms| - 1] == fs[|fs| - 1].message;
  }

  /** `"; ".join(log_messages) if log_messages else "Test passed all assertions."` */
  function RenderLog(messages: seq<string>): string {
    if |messages| > 0 then Join(messages, "; ") else PassedLog
  }

  function BodySample(text: string, parsed: ParsedBody): ResponseBody {
    match parsed
    case Decoded(v) => JsonBody(v)
    case DecodeError(_) => TextSample(Slice(text, 0, SampleLength))
  }

  /** The verdict `execute_api_test` reaches for `spec` against `baseUrl` on the given HTTP outcome. */
  function Report(baseUrl: string, spec: TestSpec, outcome: HttpOutcome): TestReport {
    match outcome
    case TransportError(e) =>
      TestReport(spec.testName, Failure, "Request failed: " + e, None, None, None)
    case Response(code, content, text, parsed) =>
      var fs := Findings(spec, code, content, parsed);
      var status := if AllPass(fs) then Success else Failure;
      TestReport(
        spec.testName, status, RenderLog(Messages(fs)), Some(code), Some(BodySample(text, parsed)),
        if status == Failure then Some(Alert(spec.testName, FullUrl(baseUrl, spec))) else None)
  }

  // ---------------------------------------------------------------------------
  // execute_api_test

  /**
   * The validation steps for a received response: the status check, then
   * the content check with its three exception paths, each clearing
   * `passed` and appending to the log as the source does.
   */
  method Validate(spec: TestSpec, code: int, content: seq<bv8>, parsed: ParsedBody)
    returns (passed: bool, logMessages: seq<string>)
    ensures passed == AllPass(Findings(spec, code, content, parsed))
    ensures logMessages == Messages(Findings(spec, code, content, parsed))
  {
    passed := true;
    logMessages := [];
    ghost var findings: seq<Finding> := [];

    if code != spec.expectedStatusCode {
      passed := false;
      logMessages := logMessages + [StatusMismatchMessage(spec.expectedStatusCode, code)];
      findings := findings + [Finding(StatusMismatchMessage(spec.expectedStatusCode, code), true)];
      assert findings[0].failsTest;
    }
    assert findings == StatusFindings(spec.expectedStatusCode, code);
    assert passed == AllPass(findings);

    match parsed {
      case Decoded(v) =>
        if spec.expectedResponseKey != [] {
          match PyIn(spec.expectedResponseKey, v) {
            case Contains(found) =>
              if !found {
                passed := false;
                logMessages := logMessages + [MissingKeyMessage(spec.expectedResponseKey)];
                AllPassAppend(findings, Finding(MissingKeyMessage(spec.expectedResponseKey), true));
                findings := findings + [Finding(MissingKeyMessage(spec.expectedResponseKey), true)];
              }
            case TypeError(err) =>
              logMessages := logMessages + [ValidationErrorMessage(err)];
              AllPassAppend(findings, Finding(ValidationErrorMessage(err), false));
              findings := findings + [Finding(ValidationErrorMessage(err), false)];
          }
        }
      case DecodeError(_) =>
        if |content| > 0 && spec.expectedStatusCode == 200 {
          passed := false;
          logMessages := logMessages + [InvalidJsonMessage];
          AllPassAppend(findings, Finding(InvalidJsonMessage, true));
          findings := findings + [Finding(InvalidJsonMessage, true)];
        }
    }
    assert findings == Findings(spec, code, content, parsed);
  }

  /** `execute_api_test` on the outcome of its HTTP request. */
  method ExecuteApiTest(baseUrl: string, spec: TestSpec, outcome: HttpOutcome) returns (r: TestReport)
    ensures r == Report(baseUrl, spec, outcome)
  {
    var fullUrl := baseUrl + spec.endpoint;
    match outcome {
      case TransportError(e) =>
        return TestReport(spec.testName, Failure, "Request failed: " + e, None, None, None);
      case Response(code, content, text, parsed) =>
        var passed, logMessages := Validate(spec, code, content, parsed);
        var status := if passed then Success else Failure;
        var alert: Option<Alert> := None;
        if status == Failure {
          alert := Some(Alert(spec.testName, fullUrl));
        }
        var log := if |logMessages| > 0 then Join(logMessages, "; ") else PassedLog;
        var body := if parsed.Decoded? then JsonBody(parsed.value) else TextSample(Slice(text, 0, SampleLength));
        r := TestReport(spec.testName, status, log, Some(code), Some(body), alert);
    }
  }

  // ---------------------------------------------------------------------------
  // Properties of the verdict

  /** `key in v` is true, read off the kind of `v` directly: dict key, list element, or substring. */
  ghost predicate KeyFound(key: string, v: Json) {
    match v
    case Object(fields) => key in fields
    case Array(items) => Str(key) in items
    case Str(s) => exists i :: OccursAt(key, s, i)
    case _ => false
  }

  /** The content check clears `passed`: an undecodable non-empty body when 200 was expected, or a container lacking a non-empty key. */
  ghost predicate ContentFails(key: string, expectedStatus: int, content: seq<bv8>, parsed: ParsedBody) {
    match parsed
    case DecodeError(_) => |content| > 0 && expectedStatus == 200
    case Decoded(v) => key != [] && v.IsContainer() && !KeyFound(key, v)
  }

  predicate EndsWith(s: string, suffix: string) {
    |suffix| <= |s| && s[|s| - |suffix|..] == suffix
  }

  predicate StartsWith(s: string, prefix: string) {
    |prefix| <= |s| && s[..|prefix|] == prefix
  }

  /** The verdict of a received response, in terms of its findings. */
  lemma ReportFields(baseUrl: string, spec: TestSpec, code: int, content: seq<bv8>, text: string, parsed: ParsedBody)
    ensures var r := Report(baseUrl, spec, Response(code, content, text, parsed));
      var fs := Findings(spec, code, content, parsed);
      && r.status == (if AllPass(fs) then Success else Failure)
      && r.log == RenderLog(Messages(fs))
  {
  }

  /** Each check writes at most one message. */
  lemma ContentFindingsAtMostOne(key: string, expectedStatus: int, content: seq<bv8>, parsed: ParsedBody)
    ensures |ContentFindings(key, expectedStatus, content, parsed)| <= 1
    ensures |ContentFindings(key, expectedStatus, content, parsed)| == 1 ==>
      (ContentFindings(key, expectedStatus, content, parsed)[0].failsTest <==>
        ContentFails(key, expectedStatus, content, parsed))
    ensures |ContentFindings(key, expectedStatus, content, parsed)| == 0 ==>
      !ContentFails(key, expectedStatus, content, parsed)
  {
    match parsed
    case DecodeError(_) =>
    case Decoded(v) =>
      if key != [] {
        match v
        case Array(items) =>
          assert Str(key) in items <==> exists i :: 0 <= i < |items| && items[i] == Str(key);
        case _ =>
      }
  }

  /** A transport exception short-circuits: FAILURE, no HTTP status and no body, the error in the log, and no alert. */
  lemma TransportFailureShortCircuits(baseUrl: string, spec: TestSpec, e: string)
    ensures var r := Report(baseUrl, spec, TransportError(e));
      && r.testName == spec.testName
      && r.status == Failure
      && r.httpStatus == None
      && r.log == "Request failed: " + e
      && r.responseBody == None
      && r.alert == None
  {
  }

  /**
   * For a received response, SUCCESS exactly when the codes match and the
   * content check did not fail; the alert fires exactly on FAILURE and
   * names the test and `base_url + endpoint`.
   */
  lemma StatusReflectsChecks(baseUrl: string, spec: TestSpec, code: int, content: seq<bv8>, text: string, parsed: ParsedBody)
    ensures var r := Report(baseUrl, spec, Response(code, content, text, parsed));
      && r.testName == spec.testName
      && r.httpStatus == Some(code)
      && (r.status == Success <==>
          code == spec.expectedStatusCode
          && !ContentFails(spec.expectedResponseKey, spec.expectedStatusCode, content, parsed))
      && (r.alert.Some? <==> r.status == Failure)
      && (r.alert.Some? ==> r.alert.value == Alert(spec.testName, baseUrl + spec.endpoint))
  {
    var key, expected := spec.expectedResponseKey, spec.expectedStatusCode;
    var cf := ContentFindings(key, expected, content, parsed);
    var fs := Findings(spec, code, content, parsed);
    ContentFindingsAtMostOne(key, expected, content, parsed);
    if code != expected {
      assert fs[0].failsTest;
    } else {
      assert fs == cf;
    }
  }

  /**
   * A status mismatch fails the test, and its message, naming both codes,
   * opens the log. The content check still runs: its message, if any,
   * follows after "; ".
   */
  lemma StatusMismatchLoggedFirst(baseUrl: string, spec: TestSpec, code: int, content: seq<bv8>, text: string, parsed: ParsedBody)
    requires code != spec.expectedStatusCode
    ensures var r := Report(baseUrl, spec, Response(code, content, text, parsed));
      var m := StatusMismatchMessage(spec.expectedStatusCode, code);
      var cs := Messages(ContentFindings(spec.expectedResponseKey, spec.expectedStatusCode, content, parsed));
      && r.status == Failure
      && StartsWith(r.log, m)
      && r.log == m + (if cs == [] then "" else "; " + cs[0])
  {
    var cf := ContentFindings(spec.expectedResponseKey, spec.expectedStatusCode, content, parsed);
    var m := StatusMismatchMessage(spec.expectedStatusCode, code);
    ContentFindingsAtMostOne(spec.expectedResponseKey, spec.expectedStatusCode, content, parsed);
    assert Findings(spec, code, content, parsed) == [Finding(m, true)] + cf;
    LeadingFailureLog(m, cf);
    ReportFields(baseUrl, spec, code, content, text, parsed);
    var x := if cf == [] then "" else "; " + cf[0].message;
    assert (m + x)[..|m|] == m;
  }

  /**
   * A container without the (non-empty) expected key fails the test, and
   * the log ends with the message naming the key, whatever the status
   * check found.
   */
  lemma MissingKeyFails(baseUrl: string, spec: TestSpec, code: int, content: seq<bv8>, text: string, v: Json)
    requires spec.expectedResponseKey != [] && v.IsContainer() && !KeyFound(spec.expectedResponseKey, v)
    ensures var r := Report(baseUrl, spec, Response(code, content, text, Decoded(v)));
      r.status == Failure && EndsWith(r.log, MissingKeyMessage(spec.expectedResponseKey))
  {
    var f := Finding(MissingKeyMessage(spec.expectedResponseKey), true);
    MissingKeyFinding(spec.expectedResponseKey, spec.expectedStatusCode, content, v);
    ContentFindingEndsLog(baseUrl, spec, code, content, text, Decoded(v), f);
  }

  lemma MissingKeyFinding(key: string, expectedStatus: int, content: seq<bv8>, v: Json)
    requires key != [] && v.IsContainer() && !KeyFound(key, v)
    ensures ContentFindings(key, expectedStatus, content, Decoded(v)) == [Finding(MissingKeyMessage(key), true)]
  {
    if v.Array? {
      assert Str(key) !in v.items;
    }
  }

  /** A message from the content check closes the log, and fails the test when the finding does. */
  lemma ContentFindingEndsLog(baseUrl: string, spec: TestSpec, code: int, content: seq<bv8>, text: string, parsed: ParsedBody, f: Finding)
    requires ContentFindings(spec.expectedResponseKey, spec.expectedStatusCode, content, parsed) == [f]
    ensures var r := Report(baseUrl, spec, Response(code, content, text, parsed));
      EndsWith(r.log, f.message) && (f.failsTest ==> r.status == Failure)
  {
    var fs := Findings(spec, code, content, parsed);
    ReportFields(baseUrl, spec, code, content, text, parsed);
    assert fs[|fs| - 1] == f;
    LastFindingLog(fs);
  }

  /** The dict case of Python `in`: an object lacking the key fails the test. */
  lemma MissingObjectKeyFails(baseUrl: string, spec: TestSpec, code: int, content: seq<bv8>, text: string, fields: map<string, Json>)
    requires spec.expectedResponseKey != [] && spec.expectedResponseKey !in fields
    ensures var r := Report(baseUrl, spec, Response(code, content, text, Decoded(Object(fields))));
      r.status == Failure && EndsWith(r.log, MissingKeyMessage(spec.expectedResponseKey))
  {
    MissingKeyFails(baseUrl, spec, code, content, text, Object(fields));
  }

  /** An empty expected key is falsy: the content check adds nothing, whatever was decoded. */
  lemma EmptyKeySkipsContentCheck(baseUrl: string, spec: TestSpec, code: int, content: seq<bv8>, text: string, v: Json)
    requires spec.expectedResponseKey == []
    ensures var r := Report(baseUrl, spec, Response(code, content, text, Decoded(v)));
      && (r.status == Success <==> code == spec.expectedStatusCode)
      && r.log == (if code == spec.expectedStatusCode then PassedLog
                   else StatusMismatchMessage(spec.expectedStatusCode, code))
  {
    var fs := Findings(spec, code, content, Decoded(v));
    if code != spec.expectedStatusCode {
      assert fs[0].failsTest;
      assert Messages(fs) == [StatusMismatchMessage(spec.expectedStatusCode, code)];
    }
  }

  /**
   * A body `response.json()` cannot decode fails the test only when it is
   * non-empty and 200 was expected; otherwise it adds no message. This
   * holds whether or not an expected key is set, since the body is decoded
   * unconditionally.
   */
  lemma DecodeErrorPolicy(baseUrl: string, spec: TestSpec, code: int, content: seq<bv8>, text: string, e: string)
    ensures var r := Report(baseUrl, spec, Response(code, content, text, DecodeError(e)));
      var fails := |content| > 0 && spec.expectedStatusCode == 200;
      && (r.status == Failure <==> code != spec.expectedStatusCode || fails)
      && (code == spec.expectedStatusCode ==> r.log == if fails then InvalidJsonMessage else PassedLog)
      && (code != spec.expectedStatusCode && fails ==> EndsWith(r.log, InvalidJsonMessage))
      && (code != spec.expectedStatusCode ==>
            r.log == StatusMismatchMessage(spec.expectedStatusCode, code) + if fails then "; " + InvalidJsonMessage else "")
  {
    if code == spec.expectedStatusCode {
      DecodeErrorMatchedCode(baseUrl, spec, content, text, e);
    } else {
      DecodeErrorMismatchedCode(baseUrl, spec, code, content, text, e);
    }
  }

  lemma DecodeErrorMatchedCode(baseUrl: string, spec: TestSpec, content: seq<bv8>, text: string, e: string)
    ensures var r := Report(baseUrl, spec, Response(spec.expectedStatusCode, content, text, DecodeError(e)));
      var fails := |content| > 0 && spec.expectedStatusCode == 200;
      && (r.status == Failure <==> fails)
      && r.log == if fails then InvalidJsonMessage else PassedLog
  {
    var fails := |content| > 0 && spec.expectedStatusCode == 200;
    var fs := Findings(spec, spec.expectedStatusCode, content, DecodeError(e));
    ReportFields(baseUrl, spec, spec.expectedStatusCode, content, text, DecodeError(e));
    assert fs == if fails then [Finding(InvalidJsonMessage, true)] else [];
    assert fails ==> fs[0].failsTest && Messages(fs) == [InvalidJsonMessage];
  }

  lemma DecodeErrorMismatchedCode(baseUrl: string, spec: TestSpec, code: int, content: seq<bv8>, text: string, e: string)
    requires code != spec.expectedStatusCode
    ensures var r := Report(baseUrl, spec, Response(code, content, text, DecodeError(e)));
      && r.status == Failure
      && (|content| > 0 && spec.expectedStatusCode == 200 ==> EndsWith(r.log, InvalidJsonMessage))
      && r.log == StatusMismatchMessage(spec.expectedStatusCode, code)
                  + if |content| > 0 && spec.expectedStatusCode == 200 then "; " + InvalidJsonMessage else ""
  {
    var fails := |content| > 0 && spec.expectedStatusCode == 200;
    DecodeErrorFinding(spec.expectedResponseKey, spec.expectedStatusCode, content, e);
    StatusMismatchLoggedFirst(baseUrl, spec, code, content, text, DecodeError(e));
    if fails {
      ContentFindingEndsLog(baseUrl, spec, code, content, text, DecodeError(e), Finding(InvalidJsonMessage, true));
    }
  }

  lemma DecodeErrorFinding(key: string, expectedStatus: int, content: seq<bv8>, e: string)
    ensures var fails := |content| > 0 && expectedStatus == 200;
      && ContentFindings(key, expectedStatus, content, DecodeError(e))
         == (if fails then [Finding(InvalidJsonMessage, true)] else [])
      && Messages(ContentFindings(key, expectedStatus, content, DecodeError(e)))
         == (if fails then [InvalidJsonMessage] else [])
  {
  }

  /**
   * A number, bool or null with a non-empty expected key makes `in` raise
   * `TypeError`: a "Validation Error" closes the log, but the status is the
   * status check's alone.
   */
  lemma NonContainerLogsOnly(baseUrl: string, spec: TestSpec, code: int, content: seq<bv8>, text: string, v: Json)
    requires spec.expectedResponseKey != [] && !v.IsContainer()
    ensures var r := Report(baseUrl, spec, Response(code, content, text, Decoded(v)));
      var m := ValidationErrorMessage(NotIterableMessage(v.PyTypeName()));
      && (r.status == Success <==> code == spec.expectedStatusCode)
      && EndsWith(r.log, m)
      && (code == spec.expectedStatusCode ==> r.log == m)
  {
    var m := ValidationErrorMessage(NotIterableMessage(v.PyTypeName()));
    var f := Finding(m, false);
    NonContainerFinding(spec.expectedResponseKey, spec.expectedStatusCode, content, v);
    var fs := Findings(spec, code, content, Decoded(v));
    ReportFields(baseUrl, spec, code, content, text, Decoded(v));
    if code == spec.expectedStatusCode {
      assert fs == [f];
      assert Messages(fs) == [m];
    } else {
      var mm := StatusMismatchMessage(spec.expectedStatusCode, code);
      assert fs == [Finding(mm, true), f];
      assert fs[0].failsTest;
      assert Messages(fs) == [mm, m];
      JoinTwo(mm, m, "; ");
    }
  }

  lemma NonContainerFinding(key: string, expectedStatus: int, content: seq<bv8>, v: Json)
    requires key != [] && !v.IsContainer()
    ensures ContentFindings(key, expectedStatus, content, Decoded(v))
      == [Finding(ValidationErrorMessage(NotIterableMessage(v.PyTypeName())), false)]
  {
  }

  /** Expected code and (when a key is set) the key found: SUCCESS, the success message, no alert. */
  lemma MatchingResponsePasses(baseUrl: string, spec: TestSpec, content: seq<bv8>, text: string, v: Json)
    requires spec.expectedResponseKey == [] || (v.IsContainer() && KeyFound(spec.expectedResponseKey, v))
    ensures var r := Report(baseUrl, spec, Response(spec.expectedStatusCode, content, text, Decoded(v)));
      r.status == Success && r.log == PassedLog && r.alert == None
  {
    if v.Array? {
      assert spec.expectedResponseKey != [] ==> Str(spec.expectedResponseKey) in v.items;
    }
  }

  /** No message a check writes begins like the success message, whichever position it takes in the log. */
  lemma NoMessageIsSuccessText(spec: TestSpec, code: int, content: seq<bv8>, parsed: ParsedBody)
    ensures var fs := Findings(spec, code, content, parsed);
      forall i :: 0 <= i < |fs| ==> |fs[i].message| > 0 && fs[i].message[0] != PassedLog[0]
  {
    var k := spec.expectedResponseKey;
    var sf := StatusFindings(spec.expectedStatusCode, code);
    var cf := ContentFindings(k, spec.expectedStatusCode, content, parsed);
    assert StatusMismatchMessage(spec.expectedStatusCode, code)[0] == 'S';
    assert InvalidJsonMessage[0] == 'R';
    match parsed
    case DecodeError(_) =>
    case Decoded(v) =>
      if k != [] {
        match PyIn(k, v)
        case Contains(_) =>
          assert MissingKeyMessage(k)[0] == 'C';
        case TypeError(e) =>
          assert ValidationErrorMessage(e)[0] == 'V';
      }
    assert forall i :: 0 <= i < |cf| ==> |cf[i].message| > 0 && cf[i].message[0] != PassedLog[0];
    assert Findings(spec, code, content, parsed) == sf + cf;
  }

  /**
   * The log is exactly "Test passed all assertions." when no check wrote a
   * message, and otherwise the (at most two) messages joined with "; ".
   */
  lemma LogShape(baseUrl: string, spec: TestSpec, code: int, content: seq<bv8>, text: string, parsed: ParsedBody)
    ensures var r := Report(baseUrl, spec, Response(code, content, text, parsed));
      var fs := Findings(spec, code, content, parsed);
      && |fs| <= 2
      && (r.log == PassedLog <==> fs == [])
      && (fs != [] ==> r.log == Join(Messages(fs), "; "))
  {
    var fs := Findings(spec, code, content, parsed);
    var log := Report(baseUrl, spec, Response(code, content, text, parsed)).log;
    ContentFindingsAtMostOne(spec.expectedResponseKey, spec.expectedStatusCode, content, parsed);
    if fs != [] {
      NoMessageIsSuccessText(spec, code, content, parsed);
      var ms := Messages(fs);
      assert log == Join(ms, "; ");
      assert log[..|ms[0]|] == ms[0];
      assert log[0] == ms[0][0];
    }
  }

  /**
   * `response_body` is the decoded value when decoding succeeded, in full;
   * otherwise at most 200 characters, a prefix of the text (all of it when
   * the text is that short).
   */
  lemma ResponseBodySample(baseUrl: string, spec: TestSpec, code: int, content: seq<bv8>, text: string, parsed: ParsedBody)
    ensures var r := Report(baseUrl, spec, Response(code, content, text, parsed));
      && (parsed.Decoded? ==> r.responseBody == Some(JsonBody(parsed.value)))
      && (parsed.DecodeError? ==>
            && r.responseBody.Some? && r.responseBody.value.TextSample?
            && var t := r.responseBody.value.text;
            && |t| <= 200
            && StartsWith(text, t)
            && (|text| <= 200 ==> t == text)
            && (200 <= |text| ==> |t| == 200))
  {
    PrefixSlice(text, SampleLength);
  }
}
