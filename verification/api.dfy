/**
 The backend route `POST /api/ai/suggest`: request validation, the
 defaulting and filtering of the check list, and the mapping of the model
 call's outcome to an HTTP status and body.
 */
module Api {
  import opened Wrappers
  import opened Json
  import opened JsString
  import opened Checks
  import opened Gemini

  /** A JSON response body. */
  datatype Body =
    | ErrorBody(message: string)          // `{ error: true, message }`
    | SuggestionBody(items: seq<Json>)    // `{ suggestion: items }`

  datatype HttpReply = HttpReply(status: nat, body: Body)

  const TextRequired: string := "Input text is required."
  const NoValidCheck: string :=
    "At least one valid check type is required (grammar, spelling, style, clarity)."
  const ServerError: string := "Server error processing your request. Please try again."

  /** `Array.isArray(checks) && checks.length > 0 ? checks : [defaults]`. */
  function ChecksToPerform(checks: Json): (r: seq<Json>)
    ensures checks.JArray? && |checks.items| > 0 ==> r == checks.items
    ensures !checks.JArray? || |checks.items| == 0 ==>
              |r| == |DefaultNames| && forall k :: 0 <= k < |r| ==> r[k] == JString(DefaultNames[k])
  {
    if checks.JArray? && |checks.items| > 0 then checks.items
    else [JString("grammar"), JString("spelling"), JString("style"), JString("clarity")]
  }

  /** `validCheckTypes.includes(check)`: strict equality, so only strings qualify. */
  predicate IsValidCheck(v: Json)
  {
    v.JString? && IsValidName(v.s)
  }

  /** `checksToPerform.filter(check => validCheckTypes.includes(check))`. */
  function ValidChecks(xs: seq<Json>): (r: seq<string>)
    ensures |r| <= |xs|
    ensures forall k :: 0 <= k < |r| ==> IsValidName(r[k])
  {
    if |xs| == 0 then []
    else
      var rest := ValidChecks(xs[1..]);
      if IsValidCheck(xs[0]) then [xs[0].s] + rest else rest
  }

  /** Each valid name survives the filter as often as it was sent, and
      nothing else survives. */
  lemma {:induction false} ValidChecksCounts(xs: seq<Json>, n: string)
    ensures multiset(ValidChecks(xs))[n] == if IsValidName(n) then multiset(xs)[JString(n)] else 0
    decreases |xs|
  {
    if |xs| > 0 {
      ValidChecksCounts(xs[1..], n);
      assert xs == [xs[0]] + xs[1..];
    }
  }

  /** Filtering keeps the input order: it distributes over concatenation. */
  lemma {:induction false} ValidChecksAppend(a: seq<Json>, b: seq<Json>)
    ensures ValidChecks(a + b) == ValidChecks(a) + ValidChecks(b)
    decreases |a|
  {
    if |a| > 0 {
      assert (a + b)[0] == a[0] && (a + b)[1..] == a[1..] + b;
      ValidChecksAppend(a[1..], b);
    } else {
      assert a + b == b;
    }
  }

  /** The status for an error message. The source tests the substrings with
      successive `if`s, so a later match overrides an earlier one: billing
      beats quota beats an invalid key beats a missing key. */
  function StatusFor(message: string): (code: nat)
    ensures Contains(message, "billing") ==> code == 402
    ensures !Contains(message, "billing") && Contains(message, "quota") ==> code == 429
    ensures (!Contains(message, "billing") && !Contains(message, "quota") && Contains(message, "not valid"))
              ==> code == 403
    ensures (&& !Contains(message, "billing") && !Contains(message, "quota") && !Contains(message, "not valid")
             && Contains(message, "API Key is missing"))
              ==> code == 401
    ensures (&& !Contains(message, "billing") && !Contains(message, "quota") && !Contains(message, "not valid")
             && !Contains(message, "API Key is missing"))
              ==> code == 500
  {
    var code := 500;
    var code := if Contains(message, "API Key is missing") then 401 else code;
    var code := if Contains(message, "not valid") then 403 else code;
    var code := if Contains(message, "quota") then 429 else code;
    if Contains(message, "billing") then 402 else code
  }

  /** The route handler. `text` and `checks` are the request body's
      properties, `apiKey` the `X-User-API-Key` header. */
  function HandleSuggest(text: Json, checks: Json, apiKey: Option<string>, call: ProviderCall,
                         parse: string -> Option<Json>): (r: HttpReply)
    // validation comes first
    ensures !Truthy(text) ==> r == HttpReply(400, ErrorBody(TextRequired))
    ensures Truthy(text) && ValidChecks(ChecksToPerform(checks)) == [] ==>
              r == HttpReply(400, ErrorBody(NoValidCheck))
    // past validation, the reply mirrors the model call
    ensures Truthy(text) && ValidChecks(ChecksToPerform(checks)) != [] ==>
              match GetGeminiSuggestion(apiKey, call, parse)
              case Suggestion(items) => r == HttpReply(200, SuggestionBody(items))
              case Error(m) => r == HttpReply(StatusFor(m), ErrorBody(m))
              case Rejected => r == HttpReply(500, ErrorBody(ServerError))
    // only errors use error statuses
    ensures r.status == 200 <==> r.body.SuggestionBody?
  {
    if !Truthy(text) then HttpReply(400, ErrorBody(TextRequired))
    else if ValidChecks(ChecksToPerform(checks)) == [] then HttpReply(400, ErrorBody(NoValidCheck))
    else
      match GetGeminiSuggestion(apiKey, call, parse)
      case Suggestion(items) => HttpReply(200, SuggestionBody(items))
      case Error(m) => HttpReply(StatusFor(m), ErrorBody(m))
      case Rejected => HttpReply(500, ErrorBody(ServerError))
  }

  /** A request that fails validation never reaches the model. */
  lemma InvalidRequestIgnoresProvider(text: Json, checks: Json, apiKey: Option<string>,
                                      c1: ProviderCall, c2: ProviderCall,
                                      p1: string -> Option<Json>, p2: string -> Option<Json>)
    requires !Truthy(text) || ValidChecks(ChecksToPerform(checks)) == []
    ensures HandleSuggest(text, checks, apiKey, c1, p1) == HandleSuggest(text, checks, apiKey, c2, p2)
    ensures HandleSuggest(text, checks, apiKey, c1, p1).status == 400
  {
  }

  /** An omitted or empty check list asks for all four checks, in order. */
  lemma DefaultChecksAllValid(checks: Json)
    requires !checks.JArray? || |checks.items| == 0
    ensures ValidChecks(ChecksToPerform(checks)) == DefaultNames
  {
    var xs := ChecksToPerform(checks);
    forall k | 0 <= k < |xs| ensures xs[k].JString? && IsValidName(xs[k].s) {
      assert xs[k].s == DefaultNames[k];
    }
    AllValidKept(xs);
  }

  /** A list of valid names passes the filter untouched. */
  lemma {:induction false} AllValidKept(xs: seq<Json>)
    requires forall k :: 0 <= k < |xs| ==> xs[k].JString? && IsValidName(xs[k].s)
    ensures |ValidChecks(xs)| == |xs|
    ensures forall k :: 0 <= k < |xs| ==> ValidChecks(xs)[k] == xs[k].s
    decreases |xs|
  {
    if |xs| > 0 {
      AllValidKept(xs[1..]);
      var r := ValidChecks(xs);
      assert r == [xs[0].s] + ValidChecks(xs[1..]);
      forall k | 1 <= k < |xs| ensures r[k] == xs[k].s {
        assert xs[1..][k - 1] == xs[k];
      }
    }
  }

  // Which keywords each user message contains. A keyword is found where the
  // message was spelled around it; a missing keyword is shown by one of its
  // letters that the message lacks. Each letter is checked on its own, with
  // the message passed as a parameter, to keep the literal searches small.

  lemma MissingKeyStatus()
    ensures StatusFor(MissingKey) == 401
  {
    var m := MissingKey;
    ContainsAround("", "API Key is missing", ". Please add it in the " + "extension settings.");
    assert m == "" + "API Key is missing" + (". Please add it in the " + "extension settings.");
    MissingKeyLacksB(m);
    MissingKeyLacksQ(m);
    MissingKeyLacksV(m);
    NotContainsByChar(m, "billing", 'b');
    NotContainsByChar(m, "quota", 'q');
    NotContainsByChar(m, "not valid", 'v');
  }

  lemma InvalidKeyStatus()
    ensures StatusFor(InvalidKey) == 403
  {
    var m := InvalidKey;
    var pre := "Error: The provided " + "API Key is ";
    var post := ". Please check your key in the " + "extension settings.";
    ContainsAround(pre, "not valid", post);
    assert m == pre + "not valid" + post;
    InvalidKeyLacksB(m);
    InvalidKeyLacksQ(m);
    NotContainsByChar(m, "billing", 'b');
    NotContainsByChar(m, "quota", 'q');
  }

  lemma QuotaStatus()
    ensures StatusFor(QuotaExceeded) == 429
  {
    var m := QuotaExceeded;
    var pre := "Error: Your Gemini " + "API key has exceeded " + "its ";
    ContainsAround(pre, "quota", " limit.");
    assert m == pre + "quota" + " limit.";
    QuotaLacksB(m);
    NotContainsByChar(m, "billing", 'b');
  }

  lemma BillingStatus()
    ensures StatusFor(BillingIssue) == 402
  {
    var m := BillingIssue;
    var pre := "Error: There might " + "be a ";
    var post := " issue associated " + "with your API key.";
    ContainsAround(pre, "billing", post);
    assert m == pre + "billing" + post;
  }

  lemma GenericStatus()
    ensures StatusFor(GenericFailure) == 500
  {
    var m := GenericFailure;
    GenericLacksB(m);
    GenericLacksQ(m);
    GenericLacksL(m);
    GenericLacksK(m);
    NotContainsByChar(m, "billing", 'b');
    NotContainsByChar(m, "quota", 'q');
    NotContainsByChar(m, "not valid", 'l');
    NotContainsByChar(m, "API Key is missing", 'K');
  }

  lemma MissingKeyLacksB(m: string)
    requires m == MissingKey
    ensures 'b' !in m
  {
  }

  lemma MissingKeyLacksQ(m: string)
    requires m == MissingKey
    ensures 'q' !in m
  {
  }

  lemma MissingKeyLacksV(m: string)
    requires m == MissingKey
    ensures 'v' !in m
  {
  }

  lemma InvalidKeyLacksB(m: string)
    requires m == InvalidKey
    ensures 'b' !in m
  {
  }

  lemma InvalidKeyLacksQ(m: string)
    requires m == InvalidKey
    ensures 'q' !in m
  {
  }

  lemma QuotaLacksB(m: string)
    requires m == QuotaExceeded
    ensures 'b' !in m
  {
  }

  lemma GenericLacksB(m: string)
    requires m == GenericFailure
    ensures 'b' !in m
  {
  }

  lemma GenericLacksQ(m: string)
    requires m == GenericFailure
    ensures 'q' !in m
  {
  }

  lemma GenericLacksL(m: string)
    requires m == GenericFailure
    ensures 'l' !in m
  {
  }

  lemma GenericLacksK(m: string)
    requires m == GenericFailure
    ensures 'K' !in m
  {
  }

  /** The route and the model call together: a valid request fails with 401
      for a missing key, 403 for a key the provider rejects, 429 for an
      exhausted quota, 402 for a billing problem and 500 for anything else. */
  lemma ProviderErrorStatus(text: Json, checks: Json, apiKey: Option<string>, call: ProviderCall,
                            parse: string -> Option<Json>)
    requires Truthy(text) && ValidChecks(ChecksToPerform(checks)) != []
    ensures var status := HandleSuggest(text, checks, apiKey, call, parse).status;
            && (KeyMissing(apiKey) ==> status == 401)
            && (!KeyMissing(apiKey) && call.Replied? ==> status == 200)
            && (!KeyMissing(apiKey) && call.FailedWithoutMessage? ==> status == 500)
            && (!KeyMissing(apiKey) && call.Failed? ==>
                  var m := call.message;
                  && (Contains(m, "API key not valid") ==> status == 403)
                  && (!Contains(m, "API key not valid") && Contains(m, "quota") ==> status == 429)
                  && ((!Contains(m, "API key not valid") && !Contains(m, "quota") && Contains(m, "billing"))
                        ==> status == 402)
                  && ((!Contains(m, "API key not valid") && !Contains(m, "quota") && !Contains(m, "billing"))
                        ==> status == 500))
  {
    MissingKeyStatus();
    InvalidKeyStatus();
    QuotaStatus();
    BillingStatus();
    GenericStatus();
  }
}
