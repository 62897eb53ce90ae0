/** The part of `get_gemini_response` that runs once the model has answered:
    reject an empty answer, check the fields of an answer that parses as
    JSON, and otherwise salvage the first `{` ... last `}` span of the text. */
module Response {
  import opened Wrappers
  import opened Strings
  import opened Schema

  const ErrorPrefix: string := "Error generating response: "
  const EmptyResponse: string := "Empty response received from Gemini"
  const MissingField: string := "Missing required field: "
  const NoJson: string := "Could not extract valid JSON response"

  datatype ScalarKind = Int | Float | Bool | Null

  /** What `json.loads` returned, kept to what the test `field in value`
      looks at: the keys of an object, the string elements of an array (no
      other element can equal a field name), the text of a string (where
      `in` is a substring test), or a scalar (where `in` raises). */
  datatype JsonValue =
    | JObject(keys: set<string>)
    | JArray(strings: set<string>)
    | JString(text: string)
    | JScalar(kind: ScalarKind)

  /** The outcome of `json.loads(response.text)`: a value, the
      `JSONDecodeError` that sends the text to repair, or any other
      exception (such as a `RecursionError` on very deep nesting). */
  datatype ParseOutcome = Parsed(value: JsonValue) | DecodeError | ParseRaised(message: string)

  function TypeName(k: ScalarKind): string {
    match k
    case Int => "int"
    case Float => "float"
    case Bool => "bool"
    case Null => "NoneType"
  }

  /** `field in value` for a value that supports the test. */
  predicate Has(v: JsonValue, field: string)
    requires !v.JScalar?
  {
    match v
    case JObject(keys) => field in keys
    case JArray(strings) => field in strings
    case JString(text) => IsInfix(field, text)
  }

  /** The position of the first field the value lacks, or the number of
      fields when it has them all. */
  function FirstMissing(v: JsonValue, fields: seq<string>): (k: nat)
    requires !v.JScalar?
    ensures k <= |fields|
    ensures forall j :: 0 <= j < k ==> Has(v, fields[j])
    ensures k < |fields| ==> !Has(v, fields[k])
  {
    if fields == [] || !Has(v, fields[0]) then 0 else 1 + FirstMissing(v, fields[1..])
  }

  /** The loop `for field in required_fields: if field not in response_json:
      raise ValueError(...)`: the first absent field, in list order, is the
      one reported; on a scalar the very first test raises a `TypeError`. */
  function CheckFields(v: JsonValue, fields: seq<string>): (r: Result<()>)
    ensures v.JScalar? ==>
              r == if fields == [] then Ok(())
                   else Err("argument of type '" + TypeName(v.kind) + "' is not iterable")
    ensures !v.JScalar? ==>
              r == if FirstMissing(v, fields) == |fields| then Ok(())
                   else Err(MissingField + fields[FirstMissing(v, fields)])
  {
    if fields == [] then Ok(())
    else match v
      case JScalar(k) => Err("argument of type '" + TypeName(k) + "' is not iterable")
      case _ =>
        if !Has(v, fields[0]) then Err(MissingField + fields[0])
        else CheckFields(v, fields[1..])
  }

  /** The index of the first `c` in `s`, or `|s|` when there is none. */
  function FirstIndex(s: string, c: char): (k: nat)
    ensures k <= |s|
    ensures forall j :: 0 <= j < k ==> s[j] != c
    ensures k < |s| ==> s[k] == c
  {
    if s == [] || s[0] == c then 0 else 1 + FirstIndex(s[1..], c)
  }

  /** The index of the last `c` in `s`, or -1 when there is none. */
  function LastIndex(s: string, c: char): (k: int)
    ensures -1 <= k < |s|
    ensures forall j :: k < j < |s| ==> s[j] != c
    ensures k >= 0 ==> s[k] == c
  {
    if s == [] then -1
    else if s[|s| - 1] == c then |s| - 1
    else LastIndex(s[..|s| - 1], c)
  }

  /** Some `{` comes before some `}`: the pattern `\{.*\}` (with `.`
      matching newlines) matches somewhere in the text. */
  ghost predicate HasBraceSpan(text: string) {
    exists i, j :: 0 <= i < j < |text| && text[i] == '{' && text[j] == '}'
  }

  /** `re.search(r'\{.*\}', text, re.DOTALL)`: the leftmost match starts at
      the first `{` and, `.*` being greedy, ends at the last `}`. */
  function Repair(text: string): (r: Option<string>)
    ensures r.None? <==> !HasBraceSpan(text)
    ensures r.Some? ==>
              && |r.value| >= 2 && r.value[0] == '{' && r.value[|r.value| - 1] == '}'
              && var k := FirstIndex(text, '{');
                 OccursAt(r.value, text, k) && '}' !in text[k + |r.value|..]
  {
    var i := FirstIndex(text, '{');
    var j := LastIndex(text, '}');
    if i < j then
      assert text[i..j + 1][0] == text[i];
      Some(text[i..j + 1])
    else
      None
  }

  /** The salvaged span is itself left as it is by a second repair. */
  lemma RepairIdempotent(text: string)
    requires Repair(text).Some?
    ensures Repair(Repair(text).value) == Repair(text)
  {
    var r := Repair(text).value;
    assert FirstIndex(r, '{') == 0;
    assert LastIndex(r, '}') == |r| - 1;
    assert r[0..|r|] == r;
  }

  /** The handling of the model's answer text: an empty text is an error
      before any parsing; a text that parses must carry every required field
      and is then returned unchanged; a text that does not parse is cut down
      to its first `{` ... last `}` span, which is not checked further. Every
      failure comes back with the message prefix "Error generating response: ". */
  function HandleResponse(text: string, parse: ParseOutcome): (r: Result<string>)
    ensures r.Err? ==> StartsWith(ErrorPrefix, r.message)
    ensures text == [] ==> r == Err(ErrorPrefix + EmptyResponse)
    ensures text != [] && parse.Parsed? ==>
              (r.Ok? <==> CheckFields(parse.value, RequiredFields).Ok?) && (r.Ok? ==> r.value == text)
    ensures text != [] && parse.Parsed? && parse.value.JObject? ==>
              (r.Ok? <==> forall f :: f in RequiredFields ==> f in parse.value.keys)
    ensures text != [] && parse.DecodeError? ==>
              (r.Ok? <==> HasBraceSpan(text)) && (r.Ok? ==> Repair(text) == Some(r.value))
    ensures text != [] && parse.Parsed? && r.Err? ==>
              r.message == ErrorPrefix + CheckFields(parse.value, RequiredFields).message
    ensures text != [] && parse.DecodeError? && r.Err? ==> r.message == ErrorPrefix + NoJson
    ensures text != [] && parse.ParseRaised? ==> r == Err(ErrorPrefix + parse.message)
  {
    if text == [] then Err(ErrorPrefix + EmptyResponse)
    else match parse
      case Parsed(v) =>
        (match CheckFields(v, RequiredFields)
         case Ok(_) => Ok(text)
         case Err(m) => Err(ErrorPrefix + m))
      case DecodeError =>
        (match Repair(text)
         case Some(span) => Ok(span)
         case None => Err(ErrorPrefix + NoJson))
      case ParseRaised(m) => Err(ErrorPrefix + m)
  }

  /** Among all the places where `\{.*\}` matches, the salvaged span starts
      leftmost and, from there, reaches furthest. */
  lemma RepairLeftmostLongest(text: string, k: nat, l: nat)
    requires k + 2 <= l <= |text| && text[k] == '{' && text[l - 1] == '}'
    ensures Repair(text).Some?
    ensures FirstIndex(text, '{') <= k
    ensures l <= FirstIndex(text, '{') + |Repair(text).value|
  {
    assert HasBraceSpan(text) by {
      assert 0 <= k < l - 1 < |text| && text[k] == '{' && text[l - 1] == '}';
    }
  }

  /** `ScoreExplanation` is not required: an object with the four required
      keys only is accepted, and the text is passed on unchanged. */
  lemma ScoreExplanationOptional(text: string)
    requires text != []
    ensures HandleResponse(text, Parsed(JObject({JdMatch, MissingKeywords, MatchingKeywords, ProfileSummary})))
            == Ok(text)
  {
  }

  /** The fields are checked in order and the first absent one is named; the
      repair branch does not rescue an answer that parsed. */
  lemma FirstAbsentFieldNamed(text: string)
    requires text != []
    ensures HandleResponse(text, Parsed(JObject({JdMatch, ProfileSummary})))
            == Err(ErrorPrefix + MissingField + MissingKeywords)
  {
    var v := JObject({JdMatch, ProfileSummary});
    assert FirstMissing(v, RequiredFields) == 1 by {
      assert Has(v, RequiredFields[0]) && !Has(v, RequiredFields[1]);
    }
  }

  /** An answer that parses to a JSON string passes the check when the
      string mentions every field name, since `in` on a string looks for a
      substring. */
  lemma StringAnswerAccepted(text: string, s: string)
    requires text != [] && forall f :: f in RequiredFields ==> IsInfix(f, s)
    ensures HandleResponse(text, Parsed(JString(s))) == Ok(text)
  {
  }

  /** An answer that parses to a number fails on the first membership test. */
  lemma NumberAnswerRejected(text: string)
    requires text != []
    ensures HandleResponse(text, Parsed(JScalar(Int)))
            == Err(ErrorPrefix + "argument of type 'int' is not iterable")
  {
    assert RequiredFields != [];
    assert CheckFields(JScalar(Int), RequiredFields) == Err("argument of type 'int' is not iterable");
  }

  /** Text that does not parse is cut down to its braces and returned without
      any check of its fields. */
  lemma RepairedSpanNotChecked()
    ensures HandleResponse("Sure: {}", DecodeError) == Ok("{}")
  {
    var t := "Sure: {}";
    assert FirstIndex(t, '{') == 6;
    assert LastIndex(t, '}') == 7;
    assert t[6..8] == "{}";
    assert Repair(t) == Some("{}");
  }
}
