/**
 * The pipeline's results on concrete inputs, stated and proved: a model completion
 * describing a "Get user" test, then two responses of the tested service.
 */
module Scenarios {
  import opened Wrappers
  import opened PyText
  import opened Json
  import opened Generator
  import opened Executor

  const CompletionHead: string := "{\"test_name\":\"Get user\"," + "\"http_method\":\"GET\","
  const CompletionMiddle: string := "\"endpoint\":\"/users/1\"," + "\"payload\":{},"
  const CompletionTail: string := "\"expected_status_code\":200," + "\"expected_response_key\":\"id\"}"
  const GetUserCompletion: string := CompletionHead + CompletionMiddle + CompletionTail

  /** What `json.loads` makes of `GetUserCompletion`. */
  const GetUserObject: Json := Object(map[
    "test_name" := Str("Get user"),
    "http_method" := Str("GET"),
    "endpoint" := Str("/users/1"),
    "payload" := Object(map[]),
    "expected_status_code" := Num(Int(200)),
    "expected_response_key" := Str("id")])

  const GetUserSpec: TestSpec := TestSpec("Get user", "GET", "/users/1", map[], 200, "id")

  lemma CompletionIsWholeObject()
    ensures ExtractJsonCandidate(GetUserCompletion) == GetUserCompletion
  {
    var raw := GetUserCompletion;
    HeadShape();
    MiddleShape();
    TailShape();
    assert raw[0] == CompletionHead[0];
    assert raw[|raw| - 1] == CompletionTail[|CompletionTail| - 1];
    WholeObjectCompletion(raw);
  }

  lemma HeadShape()
    ensures CompletionHead != [] && CompletionHead[0] == '{' && '\n' !in CompletionHead
  {
  }

  lemma MiddleShape()
    ensures '\n' !in CompletionMiddle
  {
  }

  lemma TailShape()
    ensures CompletionTail != [] && CompletionTail[|CompletionTail| - 1] == '}' && '\n' !in CompletionTail
  {
  }

  lemma ObjectDescribesSpec()
    ensures Describes(GetUserObject, GetUserSpec)
  {
    var f := GetUserObject.fields;
    assert f["test_name"] == Str("Get user");
    assert f["http_method"] == Str("GET");
    assert f["endpoint"] == Str("/users/1");
    assert f["payload"] == Object(map[]);
    assert f["expected_status_code"] == Num(Int(200));
    assert f["expected_response_key"] == Str("id");
  }

  /** The completion is taken whole, and the specification it describes is returned. */
  lemma GeneratesGetUser(description: string, llm: string -> Option<string>, loads: string -> Option<Json>)
    requires llm(description) == Some(GetUserCompletion)
    requires loads(GetUserCompletion) == Some(GetUserObject)
    ensures GenerateTestCase(description, llm, loads) == GetUserSpec
  {
    CompletionIsWholeObject();
    ObjectDescribesSpec();
  }

  /** The service answers 200 with `{"id": 1, "name": "a"}`: SUCCESS with status 200. */
  lemma GetUserFound(baseUrl: string, content: seq<bv8>, text: string)
    ensures var r := Report(baseUrl, GetUserSpec,
      Response(200, content, text, Decoded(Object(map["id" := Num(Int(1)), "name" := Str("a")]))));
      r.status == Success && r.httpStatus == Some(200) && r.log == PassedLog && r.alert == None
  {
  }

  lemma CodeTexts()
    ensures IntToStr(200) == "200" && IntToStr(404) == "404"
  {
    assert NatToStr(20) == "20";
    assert NatToStr(40) == "40";
  }

  const NotFoundBody: map<string, Json> := map["error" := Str("not found")]

  lemma NotFoundContentFinding(content: seq<bv8>)
    ensures ContentFindings("id", 200, content, Decoded(Object(NotFoundBody)))
      == [Finding(MissingKeyMessage("id"), true)]
  {
    assert "id" !in NotFoundBody;
  }

  /** The service answers 404 with `{"error": "not found"}`: FAILURE with status 404, and both checks logged. */
  lemma GetUserNotFound(baseUrl: string, content: seq<bv8>, text: string)
    ensures var r := Report(baseUrl, GetUserSpec, Response(404, content, text, Decoded(Object(NotFoundBody))));
      && r.status == Failure
      && r.httpStatus == Some(404)
      && r.log == "Status Code Mismatch: Expected " + "200" + ", Got " + "404" + "; "
                  + "Content Mismatch: Expected key '" + "id" + "' not found in response."
      && r.alert == Some(Alert("Get user", baseUrl + "/users/1"))
  {
    NotFoundContentFinding(content);
    StatusMismatchLoggedFirst(baseUrl, GetUserSpec, 404, content, text, Decoded(Object(NotFoundBody)));
    NotFoundLogText();
  }

  lemma NotFoundLogText()
    ensures StatusMismatchMessage(200, 404) + ("; " + MissingKeyMessage("id"))
      == "Status Code Mismatch: Expected " + "200" + ", Got " + "404" + "; "
         + "Content Mismatch: Expected key '" + "id" + "' not found in response."
  {
    CodeTexts();
    var a := "Status Code Mismatch: Expected " + "200" + ", Got " + "404";
    var b := "Content Mismatch: Expected key '" + "id" + "' not found in response.";
    assert a + ("; " + b) == a + "; " + b;
  }
}
