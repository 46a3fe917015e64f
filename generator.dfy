/**
 * Test generation (Agent/ai_generator.py): the test specification record,
 * the extraction of a JSON object from the raw model completion, and the
 * policy that turns every failure into one fixed fallback specification.
 *
 * The language model and `json.loads` are parameters: `llm` maps the API
 * description to the completion text, or to `None` when the call raises;
 * `loads` maps a text to the decoded value, or to `None` when decoding
 * raises. Building the record from the decoded value (pydantic's role) is
 * `SpecFromJson`.
 */
module Generator {
  import opened Wrappers
  import opened PyText
  import opened Json

  /** One HTTP test to run; the six fields of the `TestSpec` record. */
  datatype TestSpec = TestSpec(
    testName: string,
    httpMethod: string,
    endpoint: string,
    payload: map<string, Json>,
    expectedStatusCode: int,
    expectedResponseKey: string)

  /** The specification returned whenever generation fails. */
  const Fallback: TestSpec := TestSpec("Fallback Test", "GET", "/health", map[], 200, "status")

  // ---------------------------------------------------------------------------
  // Extraction of the JSON candidate from the completion

  /** `raw.strip().replace('\n', '')`. */
  function Cleaned(raw: string): (s: string)
    ensures '\n' !in s
    ensures s == [] || (!IsSpace(s[0]) && !IsSpace(s[|s| - 1]))
  {
    RemoveAll(Strip(raw), '\n')
  }

  /** `s[s.find('{') : s.rfind('}') + 1]`. */
  function BraceSlice(s: string): (c: string)
    ensures c == [] || OccursAt(c, s, SliceBound(Find(s, '{'), |s|))
    ensures forall x :: x in c ==> x in s
  {
    var c := Slice(s, Find(s, '{'), RFind(s, '}') + 1);
    if c != [] then OccursAtSubset(c, s, SliceBound(Find(s, '{'), |s|)); c else c
  }

  /**
   * The JSON candidate taken from a raw completion: the brace slice of the
   * cleaned text. It occurs in the cleaned text where the first `{` is, or
   * at the last position when there is none.
   */
  function ExtractJsonCandidate(raw: string): (c: string)
    ensures '\n' !in c
    ensures var s := Cleaned(raw); c == [] || OccursAt(c, s, SliceBound(Find(s, '{'), |s|))
    ensures c == [] || (!IsSpace(c[0]) && !IsSpace(c[|c| - 1]))
  {
    var s := Cleaned(raw);
    BraceSliceNoEdgeSpace(s);
    BraceSlice(s)
  }

  /** When a `{` occurs before the last `}`, the slice runs from the first `{` to the last `}`. */
  lemma BraceSpan(s: string)
    requires 0 <= Find(s, '{') < RFind(s, '}')
    ensures var c, i, j := BraceSlice(s), Find(s, '{'), RFind(s, '}');
      && c == s[i..j + 1]
      && c[0] == '{'
      && c[|c| - 1] == '}'
      && (forall k :: 0 <= k < i ==> s[k] != '{')
      && (forall k :: j < k < |s| ==> s[k] != '}')
  {
    var i, j := Find(s, '{'), RFind(s, '}');
    assert SliceBound(i, |s|) == i && SliceBound(j + 1, |s|) == j + 1;
    assert BraceSlice(s) == s[i..j + 1];
  }

  /** Without any `}` the stop bound is 0, so the slice is empty. */
  lemma NoClosingBrace(s: string)
    requires '}' !in s
    ensures RFind(s, '}') + 1 == 0
    ensures BraceSlice(s) == []
  {
  }

  /** A `{` only after the last `}` gives an empty slice. */
  lemma OpeningAfterClosing(s: string)
    requires '}' in s
    requires Find(s, '{') > RFind(s, '}')
    ensures BraceSlice(s) == []
  {
  }

  /**
   * Without any `{`, `find` yields -1, which Python resolves to the last
   * position: the slice is `"}"` if the text ends with `}`, and empty
   * otherwise.
   */
  lemma NoOpeningBrace(s: string)
    requires '{' !in s && '}' in s
    ensures BraceSlice(s) == if s[|s| - 1] == '}' then "}" else ""
  {
    if s[|s| - 1] == '}' {
      assert RFind(s, '}') == |s| - 1;
    } else {
      assert RFind(s, '}') < |s| - 1;
    }
  }

  /** A non-empty slice opens with a brace and closes with `}`. */
  lemma BraceSliceEnds(s: string)
    ensures var c := BraceSlice(s);
      c == [] || ((c[0] == '{' || c[0] == '}') && c[|c| - 1] == '}')
  {
    var i, j := Find(s, '{'), RFind(s, '}');
    if '}' !in s {
      NoClosingBrace(s);
    } else if i == -1 {
      NoOpeningBrace(s);
    } else if i < j {
      BraceSpan(s);
    } else {
      assert i != j;
      OpeningAfterClosing(s);
    }
  }

  /** A brace slice of any text has no whitespace at either end. */
  lemma BraceSliceNoEdgeSpace(s: string)
    ensures var c := BraceSlice(s);
      c == [] || (!IsSpace(c[0]) && !IsSpace(c[|c| - 1]))
  {
    BraceSliceEnds(s);
    assert !IsSpace('{') && !IsSpace('}');
  }

  /** A completion that is one JSON object, with no `'\n'` and no padding, is its own candidate. */
  lemma WholeObjectCompletion(raw: string)
    requires |raw| >= 2 && raw[0] == '{' && raw[|raw| - 1] == '}' && '\n' !in raw
    ensures ExtractJsonCandidate(raw) == raw
  {
    assert !IsSpace('{') && !IsSpace('}');
    StripUnpadded(raw);
    assert Cleaned(raw) == raw;
    WholeBraceSlice(raw);
  }

  /** A text opening with `{` and closing with `}` is its own brace slice. */
  lemma WholeBraceSlice(s: string)
    requires |s| >= 2 && s[0] == '{' && s[|s| - 1] == '}'
    ensures BraceSlice(s) == s
  {
    assert Find(s, '{') == 0;
    assert RFind(s, '}') == |s| - 1;
    assert s[0..|s|] == s;
  }

  // ---------------------------------------------------------------------------
  // Building the record from a decoded value

  /** `j` is a JSON object whose six `TestSpec` fields hold exactly the values of `t`, each of its declared type. */
  predicate Describes(j: Json, t: TestSpec) {
    && j.Object?
    && "test_name" in j.fields && j.fields["test_name"] == Str(t.testName)
    && "http_method" in j.fields && j.fields["http_method"] == Str(t.httpMethod)
    && "endpoint" in j.fields && j.fields["endpoint"] == Str(t.endpoint)
    && "payload" in j.fields && j.fields["payload"] == Object(t.payload)
    && "expected_status_code" in j.fields && j.fields["expected_status_code"] == Num(Int(t.expectedStatusCode))
    && "expected_response_key" in j.fields && j.fields["expected_response_key"] == Str(t.expectedResponseKey)
  }

  /** `TestSpec(**test_data)`: succeeds exactly when the value describes a specification, which it then returns. */
  function SpecFromJson(j: Json): (r: Option<TestSpec>)
    ensures forall t :: r == Some(t) <==> Describes(j, t)
  {
    if j.Object?
      && "test_name" in j.fields && j.fields["test_name"].Str?
      && "http_method" in j.fields && j.fields["http_method"].Str?
      && "endpoint" in j.fields && j.fields["endpoint"].Str?
      && "payload" in j.fields && j.fields["payload"].Object?
      && "expected_status_code" in j.fields && j.fields["expected_status_code"].Num?
      && j.fields["expected_status_code"].n.Int?
      && "expected_response_key" in j.fields && j.fields["expected_response_key"].Str?
    then
      Some(TestSpec(
        j.fields["test_name"].s,
        j.fields["http_method"].s,
        j.fields["endpoint"].s,
        j.fields["payload"].fields,
        j.fields["expected_status_code"].n.i,
        j.fields["expected_response_key"].s))
    else
      None
  }

  // ---------------------------------------------------------------------------
  // generate_test_case

  /** What `json.loads` returned inside the try block, or `None` if the model call or decoding raised. */
  function DecodedCompletion(description: string, llm: string -> Option<string>, loads: string -> Option<Json>): Option<Json> {
    match llm(description)
    case None => None
    case Some(raw) => loads(ExtractJsonCandidate(raw))
  }

  /**
   * `generate_test_case`: the specification the decoded completion
   * describes when there is one, the fallback otherwise. It is total: no
   * failure reaches the caller.
   */
  function GenerateTestCase(description: string, llm: string -> Option<string>, loads: string -> Option<Json>): (r: TestSpec)
    ensures var d := DecodedCompletion(description, llm, loads);
      r == Fallback || (d.Some? && Describes(d.value, r))
    ensures forall t :: var d := DecodedCompletion(description, llm, loads);
      d.Some? && Describes(d.value, t) ==> r == t
    ensures DecodedCompletion(description, llm, loads).None? ==> r == Fallback
  {
    match DecodedCompletion(description, llm, loads)
    case None => Fallback
    case Some(j) => SpecFromJson(j).GetOr(Fallback)
  }

  /** A failing model call yields the fallback. */
  lemma ModelFailureFallsBack(description: string, llm: string -> Option<string>, loads: string -> Option<Json>)
    requires llm(description) == None
    ensures GenerateTestCase(description, llm, loads) == Fallback
  {
  }

  /** A decoded value that is not a well-typed `TestSpec` object yields the fallback. */
  lemma SchemaFailureFallsBack(description: string, llm: string -> Option<string>, loads: string -> Option<Json>)
    requires DecodedCompletion(description, llm, loads).Some?
    requires forall t :: !Describes(DecodedCompletion(description, llm, loads).value, t)
    ensures GenerateTestCase(description, llm, loads) == Fallback
  {
  }

  /** On a successful decode and construction, the returned specification carries the object's six fields. */
  lemma ParsedFieldsReturned(description: string, llm: string -> Option<string>, loads: string -> Option<Json>, raw: string, j: Json)
    requires llm(description) == Some(raw)
    requires loads(ExtractJsonCandidate(raw)) == Some(j)
    requires SpecFromJson(j).Some?
    ensures var r := GenerateTestCase(description, llm, loads);
      && j.Object?
      && j.fields["test_name"] == Str(r.testName)
      && j.fields["http_method"] == Str(r.httpMethod)
      && j.fields["endpoint"] == Str(r.endpoint)
      && j.fields["payload"] == Object(r.payload)
      && j.fields["expected_status_code"] == Num(Int(r.expectedStatusCode))
      && j.fields["expected_response_key"] == Str(r.expectedResponseKey)
  {
    assert DecodedCompletion(description, llm, loads) == Some(j);
    assert Describes(j, SpecFromJson(j).value);
  }

  /**
   * A completion without `}` yields the fallback: its candidate is empty,
   * and `json.loads('')` raises.
   */
  lemma NoClosingBraceFallsBack(description: string, llm: string -> Option<string>, loads: string -> Option<Json>, raw: string)
    requires loads("") == None
    requires llm(description) == Some(raw)
    requires '}' !in Cleaned(raw)
    ensures GenerateTestCase(description, llm, loads) == Fallback
  {
    NoClosingBrace(Cleaned(raw));
  }
}
