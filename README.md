# AgentAI_APITest: test generation and test execution

This project models the two pieces of logic in the autonomous API-testing agent.

- **`generate_test_case`** (`Agent/ai_generator.py`) asks a language model for a test case. It strips the completion, removes every `'\n'` (other line-break characters such as `'\r'` stay), and takes the slice `[find('{') : rfind('}') + 1]`. That is the span from the first `{` to the last `}` when a `{` precedes the last `}`; without any `{` it is `"}"` or empty, and a `{` only after the last `}` gives the empty text. That text goes to `json.loads`, and the `TestSpec` record is built from the result. Any failure along the way yields one fixed fallback specification. This part is pure, so the model uses functions and lemmas (module `Generator`).
- **`execute_api_test`** (`Agent/executor.py`) runs one HTTP request for a `TestSpec` and validates the response:
  - a status-code check;
  - a content check that uses Python `in` on the decoded body, with its three exception paths;
  - a report with status, log, HTTP status and response body;
  - an alert on failure.

  This part is imperative: a `passed` flag and a message list are updated step by step. The model keeps that as the methods `Executor.Validate` and `Executor.ExecuteApiTest`. The verdict is stated declaratively through the *findings* each check contributes, that is, the message it writes and whether it fails the test. `Validate` is proved to leave `passed` and the message list equal to the verdict and messages of those findings. `ExecuteApiTest` is proved equal to the reference function `Executor.Report`. The properties are lemmas about `Report`.

Supporting modules:
- `PyText` models the CPython `str` built-ins the code relies on:
  - `strip`, using the full `isspace` character set;
  - `replace('\n', '')`;
  - `find` and `rfind`, each returning -1 when the character is absent;
  - slicing with negative and out-of-range bounds;
  - `"; ".join`;
  - `str()` of an `int`.
- `Json` models the decoded JSON values and Python `key in value` on them. That is key membership for a dict, element membership for a list, a substring test for a str, and a `TypeError` for `None`, `bool`, `int` and `float`.
- `Scenarios` states and proves the pipeline's results on concrete inputs.

Inputs the model takes as parameters:
- The language model is `llm: string -> Option<string>`, where `None` means the call raised. The prompt is not modelled.
- `json.loads` is `loads: string -> Option<Json>`, where `None` means decoding raised.
- The HTTP request is an `HttpOutcome`. It is either the message of a caught `requests.exceptions.RequestException`, or the status code, raw content, text and the result of `response.json()`. Other exceptions raised by the call propagate out of `execute_api_test`; the model has no outcome for them.

Points of the code's behaviour worth knowing:
- **No alert on transport errors.** On a transport error, `execute_api_test` returns its FAILURE dictionary at `Agent/executor.py:20-26`. That is before the alert at `Agent/executor.py:58-60`, so only failing received responses raise an alert. `Executor.TransportFailureShortCircuits` states `alert == None`, and `Executor.StatusReflectsChecks` states that the alert fires exactly on FAILURE for received responses.
- **No `url` in the result.** The returned dictionaries have no `url` key. The URL reaches only the alert, which is where `Executor.Alert` carries it.
- **No `response_body` on transport errors.** The transport-failure dictionary has no `response_body` key; `TestReport.responseBody` is `None` there.

## Model

| member | source | states |
|---|---|---|
| PyText.IsSpace | Agent/ai_generator.py:59 | no contract; the characters CPython's `str.isspace` accepts, which `strip()` removes; used by the contracts of `LStrip`, `RStrip`, `Strip` and `Cleaned` |
| PyText.OccursAtSubset | Agent/ai_generator.py:63 | every character of a slice occurring in a text is a character of that text |
| PyText.LStrip | Agent/ai_generator.py:59 | the result is a suffix of the input; everything removed is whitespace; the result does not start with whitespace |
| PyText.RStrip | Agent/ai_generator.py:59 | the result is a prefix of the input; everything removed is whitespace; the result does not end with whitespace |
| PyText.Strip | Agent/ai_generator.py:59 | `strip()` leaves a piece of the input with only whitespace around it, and no whitespace left at either end |
| PyText.StripIsPadded | Agent/ai_generator.py:59 | stripping the front and then the back of a text leaves the result surrounded by whitespace only |
| PyText.StripUnpadded | Agent/ai_generator.py:59 | a non-empty text with no whitespace at either end is its own `strip()` |
| PyText.Without | Agent/ai_generator.py:59 | no contract; deletes every `c` from the text, one character at a time; `RemoveAll` returns it, and `RemoveAllConcat` and `RemoveAllMultiset` give its meaning |
| PyText.RemoveAll | Agent/ai_generator.py:59 | `replace(c, '')` never lengthens; a character is in the result iff it is in the input and is not `c`; first and last non-`c` characters are kept; no `c` means no change |
| PyText.RemoveAllConcat | Agent/ai_generator.py:59 | deleting `c` from a concatenation is deleting it from each part and concatenating, so the kept characters stay in their order |
| PyText.RemoveAllMultiset | Agent/ai_generator.py:59 | every character other than `c` is kept exactly as often as it occurs, and `c` not at all |
| PyText.Find | Agent/ai_generator.py:61 | `find` gives -1 exactly when the character is absent, and otherwise the index of its first occurrence |
| PyText.RFind | Agent/ai_generator.py:62 | `rfind` gives -1 exactly when the character is absent, and otherwise the index of its last occurrence |
| PyText.SliceBound | Agent/ai_generator.py:63 | Python's bound resolution: counts from the end when negative, clamps to 0 and to the length |
| PyText.Slice | Agent/ai_generator.py:63 | `s[start:stop]` is the ordinary subsequence for in-range bounds; it always occurs in `s` at the resolved start; for any bounds, negative or out of range, it is the subsequence from the resolved start to the resolved stop, or empty when the resolved stop is not past the resolved start |
| PyText.NegativeStartSlice | Agent/ai_generator.py:61-63 | `"a}"[-1:2]` is `"}"`, the case of a missing `{` in front of a final `}` |
| PyText.PrefixSlice | Agent/executor.py:67 | `s[:n]` is a prefix of `s` of length at most `n`; it is all of `s` when `s` is that short, and exactly `n` long otherwise |
| PyText.Join | Agent/executor.py:65 | joining nothing gives the empty text; joining one part gives that part; the join starts with the first part and ends with the last |
| PyText.JoinTwo | Agent/executor.py:65 | joining two messages puts the separator between them |
| PyText.DigitChar | Agent/executor.py:36 | a digit value below 10 maps to a decimal digit character that reads back as the same value |
| PyText.NatToStr | Agent/executor.py:36 | the decimal text of a natural number is non-empty, all digits, and has no leading zero |
| PyText.IntToStr | Agent/executor.py:36 | `str(i)` is non-empty; it starts with `-` exactly for negative `i`; the rest is digits |
| PyText.NatToStrRoundTrip | Agent/executor.py:36 | reading the decimal text of `n` back gives `n` |
| PyText.IntToStrRoundTrip | Agent/executor.py:36 | `int(str(i)) == i` |
| PyText.IntToStrInjective | Agent/executor.py:36 | distinct codes print differently, so the mismatch message identifies both codes |
| Json.StrIn | Agent/executor.py:42 | no contract; `t in s` for two strings, tried at each start position; `StrInMeansOccurs` proves it equal to the existence of an occurrence, and `PyIn` uses it |
| Json.Json.PyTypeName | Agent/executor.py:42 | no contract; the Python type name of a JSON value (`NoneType`, `bool`, `int`, `float`, `str`, `list`, `dict`); `PyIn` names it in the `TypeError` for non-containers |
| Json.StrInMeansOccurs | Agent/executor.py:42 | the recursive substring test is true exactly when the key occurs at some position of the text |
| Json.PyIn | Agent/executor.py:42 | `key in v`: dict key membership; list element equality with the string; substring occurrence in a str; `TypeError` naming the type for null, bool and numbers |
| Generator.Cleaned | Agent/ai_generator.py:59 | the cleaned completion has no `'\n'` and neither starts nor ends with whitespace |
| Generator.BraceSlice | Agent/ai_generator.py:61-63 | the brace slice is empty, or occurs in the cleaned text at the resolved position of the first `{` |
| Generator.ExtractJsonCandidate | Agent/ai_generator.py:59-63 | the candidate has no `'\n'`, is empty or the piece of the cleaned completion starting where `find('{')` resolves to, and never starts or ends with whitespace |
| Generator.BraceSpan | Agent/ai_generator.py:61-63 | when a `{` precedes the last `}`, the candidate runs from the first `{` to the last `}`, opens with `{`, closes with `}`, has no `{` before it and no `}` after it |
| Generator.NoClosingBrace | Agent/ai_generator.py:62-63 | with no `}` the stop bound `rfind('}') + 1` is 0 and the candidate is empty |
| Generator.OpeningAfterClosing | Agent/ai_generator.py:61-63 | a first `{` after the last `}` gives an empty candidate |
| Generator.NoOpeningBrace | Agent/ai_generator.py:61-63 | with no `{` the start -1 resolves to the last position: the candidate is `"}"` if the text ends with `}`, and empty otherwise |
| Generator.BraceSliceEnds | Agent/ai_generator.py:61-63 | every non-empty candidate opens with a brace and closes with `}` |
| Generator.BraceSliceNoEdgeSpace | Agent/ai_generator.py:61-63 | the brace slice of any text has no whitespace at either end |
| Generator.WholeObjectCompletion | Agent/ai_generator.py:59-63 | a completion that is one braced text without `'\n'` or padding is passed whole to `json.loads` |
| Generator.WholeBraceSlice | Agent/ai_generator.py:61-63 | a text opening with `{` and closing with `}` is its own brace slice |
| Generator.Describes | Agent/ai_generator.py:10-17 | no contract; a decoded value describes a record when it is an object whose six fields carry the record's values with the declared kinds; `SpecFromJson`, `GenerateTestCase` and `ObjectDescribesSpec` are stated against it |
| Generator.SpecFromJson | Agent/ai_generator.py:10-17 | the record is built exactly when the decoded value is an object whose six fields have the declared types, and it then carries those values |
| Generator.DecodedCompletion | Agent/ai_generator.py:54-63 | no contract; the value `json.loads` returns for the candidate cut from the completion, or none when the model call or decoding raises; `GenerateTestCase`, `ModelFailureFallsBack` and `ParsedFieldsReturned` are stated against it |
| Generator.GenerateTestCase | Agent/ai_generator.py:19-77 | never fails: the result is the fallback or the specification the decoded completion describes; a describable completion is always returned; the fallback is returned when the model call or decoding raises |
| Generator.ModelFailureFallsBack | Agent/ai_generator.py:23-77 | a model call that raises yields exactly the fallback specification |
| Generator.SchemaFailureFallsBack | Agent/ai_generator.py:65-77 | a decoded value that describes no `TestSpec` yields exactly the fallback specification |
| Generator.ParsedFieldsReturned | Agent/ai_generator.py:63-65 | after a successful decode and construction, the six returned fields equal the object's six fields |
| Generator.NoClosingBraceFallsBack | Agent/ai_generator.py:61-77 | a cleaned completion without `}` gives the empty candidate, which `json.loads` rejects, so the fallback is returned |
| Executor.FullUrl | Agent/executor.py:10 | the tested URL is the base URL followed by the endpoint, with no slash normalisation |
| Executor.StatusMismatchMessage | Agent/executor.py:36 | no contract; the f-string naming the expected and the received code, each printed by `IntToStr`, which `IntToStrInjective` shows distinct for distinct codes; `NotFoundLogText` spells out one instance |
| Executor.MissingKeyMessage | Agent/executor.py:45 | no contract; the f-string naming the missing key; `MissingKeyFinding` and `NotFoundLogText` are stated with it |
| Executor.ValidationErrorMessage | Agent/executor.py:52 | no contract; `"Validation Error: "` followed by the exception text; `NonContainerFinding` and `NonContainerLogsOnly` are stated with it |
| Executor.StatusFindings | Agent/executor.py:33-37 | no contract; the status check as findings: one failing mismatch message exactly when the codes differ; described by `StatusMismatchLoggedFirst` and `StatusReflectsChecks` |
| Executor.ContentFindings | Agent/executor.py:40-52 | no contract; the content check with its three exception paths: missing key, invalid JSON for a non-empty body when 200 was expected, and the logged `TypeError` of `in`; described by `ContentFindingsAtMostOne`, `MissingKeyFinding`, `DecodeErrorFinding`, `NonContainerFinding` and `EmptyKeySkipsContentCheck` |
| Executor.Findings | Agent/executor.py:29-52 | no contract; the status findings followed by the content findings, in the order both checks append to the log; `Validate` is proved equal to it, and `ReportFields` and `NoMessageIsSuccessText` describe it |
| Executor.Messages | Agent/executor.py:29-52 | the log messages are the findings' messages, in order |
| Executor.AllPass | Agent/executor.py:29-56 | no contract; `passed` stays true exactly when no finding fails the test; `AllPassAppend` gives its step rule and `Validate` ties it to the `passed` flag |
| Executor.AllPassAppend | Agent/executor.py:29-52 | appending a finding keeps `passed` true exactly when it was true and the new finding does not fail the test |
| Executor.LeadingFailureLog | Agent/executor.py:33-37 | a failing first finding followed by at most one more fails the test, and the log is its message, then `"; "` and the second message if there is one |
| Executor.LastFindingLog | Agent/executor.py:65 | the last finding's message closes the log, and a failing last finding fails the test |
| Executor.RenderLog | Agent/executor.py:65 | no contract; `"; ".join(messages)` when there are messages, the success text otherwise; described by `LogShape`, `LeadingFailureLog` and `LastFindingLog` |
| Executor.BodySample | Agent/executor.py:67 | no contract; the decoded value, or the first 200 characters of the text when decoding failed; described by `ResponseBodySample` |
| Executor.Report | Agent/executor.py:6-68 | no contract; the declarative verdict `execute_api_test` returns, with the alert it prints on failure; `ExecuteApiTest` is proved equal to it, and `ReportFields`, `TransportFailureShortCircuits`, `StatusReflectsChecks`, `LogShape` and `ResponseBodySample` describe it |
| Executor.Validate | Agent/executor.py:29-52 | after both checks, `passed` is true exactly when no finding fails the test, and the message list is the findings' messages in order |
| Executor.ExecuteApiTest | Agent/executor.py:6-68 | the step-by-step execution returns exactly the reference verdict `Report` |
| Executor.ReportFields | Agent/executor.py:56-65 | for a received response, the status is SUCCESS iff no finding fails the test, and the log renders the findings' messages |
| Executor.ContentFindingsAtMostOne | Agent/executor.py:40-52 | the content check writes at most one message; a message it writes fails the test exactly in the failing cases; and when it writes no message the check did not fail |
| Executor.ContentFindingEndsLog | Agent/executor.py:40-65 | a message from the content check closes the log, and fails the test when its finding does |
| Executor.TransportFailureShortCircuits | Agent/executor.py:20-26 | a transport error gives FAILURE, no HTTP status, no body, the log `"Request failed: " + message`, and no alert |
| Executor.StatusReflectsChecks | Agent/executor.py:33-60 | SUCCESS iff the codes match and the content check did not fail; the HTTP status is the response's; the alert fires iff FAILURE and names the test and `base_url + endpoint` |
| Executor.StatusMismatchLoggedFirst | Agent/executor.py:33-46 | a status mismatch fails the test, its message opens the log, and the content message, if any, follows after `"; "` |
| Executor.MissingKeyFails | Agent/executor.py:42-46 | a container without the non-empty expected key fails the test, and the log ends with the message naming the key |
| Executor.MissingKeyFinding | Agent/executor.py:42-46 | a container without the non-empty expected key gives exactly one failing finding, the message naming the key |
| Executor.MissingObjectKeyFails | Agent/executor.py:42-46 | an object lacking the non-empty expected key fails the test, and the log ends with the message naming the key |
| Executor.EmptyKeySkipsContentCheck | Agent/executor.py:42 | for a decoded body, an empty expected key adds no content message: the verdict and log depend on the status check alone |
| Executor.DecodeErrorPolicy | Agent/executor.py:41-50 | an undecodable body fails the test iff it is non-empty and 200 was expected, whatever the expected key; otherwise it adds no message; the log is exactly the status message (if any) followed by the invalid-JSON message (if the body fails) |
| Executor.DecodeErrorFinding | Agent/executor.py:47-50 | the content check on an undecodable body gives one failing invalid-JSON finding when the body is non-empty and 200 was expected, and no finding otherwise |
| Executor.DecodeErrorMatchedCode | Agent/executor.py:47-65 | with the expected code, an undecodable body gives the invalid-JSON log exactly when it fails, and the success log otherwise |
| Executor.DecodeErrorMismatchedCode | Agent/executor.py:33-50 | with a code mismatch the test fails, and the log is the mismatch message, followed by `"; "` and the invalid-JSON message exactly when the body is non-empty and 200 was expected |
| Executor.NonContainerLogsOnly | Agent/executor.py:42-52 | a null, bool or number with a non-empty key logs the `TypeError` as a validation error, and the status comes from the status check alone |
| Executor.NonContainerFinding | Agent/executor.py:42-52 | the content check on a non-container writes exactly one non-failing validation-error message |
| Executor.MatchingResponsePasses | Agent/executor.py:33-65 | the expected code with the key found (or no key set) gives SUCCESS, the success log and no alert |
| Executor.NoMessageIsSuccessText | Agent/executor.py:33-65 | every message a check writes, first or second in the log, is non-empty and begins unlike "Test passed all assertions.", so a failing or logged check is never mistaken for the success text |
| Executor.LogShape | Agent/executor.py:65 | at most two messages; the log is the success text iff there are none, and otherwise their `"; "` join |
| Executor.ResponseBodySample | Agent/executor.py:67 | the body is the decoded value when decoding succeeded; otherwise a text prefix of at most 200 characters, the whole text when it is that short |
| Scenarios.CompletionIsWholeObject | Agent/ai_generator.py:59-63 | a one-line JSON completion is passed whole to `json.loads` |
| Scenarios.ObjectDescribesSpec | Agent/ai_generator.py:10-17 | the decoded "Get user" object describes the matching `TestSpec` |
| Scenarios.GeneratesGetUser | Agent/ai_generator.py:54-65 | that completion generates exactly that specification |
| Scenarios.GetUserFound | Agent/executor.py:33-68 | a 200 response carrying `id` gives SUCCESS, status 200, the success log and no alert |
| Scenarios.CodeTexts | Agent/executor.py:36 | `str(200)` is `"200"` and `str(404)` is `"404"` |
| Scenarios.NotFoundContentFinding | Agent/executor.py:42-46 | an error object without `id` gives the missing-key finding |
| Scenarios.GetUserNotFound | Agent/executor.py:33-68 | a 404 error object gives FAILURE, status 404, both messages joined in order, and an alert on `base_url + /users/1` |
| Scenarios.NotFoundLogText | Agent/executor.py:36-45 | the two messages of that scenario, joined with `"; "`, spell out the codes 200 and 404 and the key `id` |

## Left out

- The prompt text, the LangChain `OpenAI` client and `chain.invoke` (`Agent/ai_generator.py:24-54`) are foreign, nondeterministic calls. They are the `llm` parameter.
- `json.loads` is a foreign parser. It is the `loads` parameter; no JSON text syntax is modelled.
- `requests.request`, its 10-second timeout and the network are I/O. The outcome of the call is the `HttpOutcome` input. The method and payload sent are therefore not modelled.
- Exceptions from `requests.request` other than `requests.exceptions.RequestException`, such as a `ValueError` for an invalid method name, are not caught at Agent/executor.py:20 and propagate out of `execute_api_test`. The model does not represent them: every `HttpOutcome` yields a report.
- The alert `print` (`Agent/executor.py:60`) and the error `print` (`Agent/ai_generator.py:68`) are output. Only the alert's condition and the test name and URL it names are modelled.
- `response.json()` raising an exception other than a decode error is not modelled. In the source, that exception is logged as a validation error and the body falls back to the text.
- JSON floats are modelled as mathematical reals. Only the distinction between `int` and `float` is used, to choose the type name in the `TypeError`.
- The `TypeError` wording is CPython 3's `argument of type 'T' is not iterable`.
- Text is modelled as sequences of characters. `text[:200]` counts characters, as Python `str` does.
- Generator.SpecFromJson: builds the record only from values of exactly the declared kinds. Pydantic's lax coercions, such as numeric strings or integral floats for `expected_status_code`, are not modelled.
- `models.py`: its declarations are not used by the pipeline, so it has no behaviour to model.
- `scheduler.py`: APScheduler registration and a background timer are concurrency and a foreign library. The job itself only composes the two modelled functions with prints.
- `main.py`: FastAPI endpoints and the uvicorn server are not part of this model.
