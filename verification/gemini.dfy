/**
 The backend's call to the language model (`getGeminiSuggestion`): the
 missing-key guard, the normalisation of the reply into a list, and the
 translation of provider errors into one of a fixed set of user messages.
 The call itself and `JSON.parse` are inputs.
 */
module Gemini {
  import opened Wrappers
  import opened Json
  import opened JsString

  /** How the provider call went. */
  datatype ProviderCall =
    | Replied(text: Option<string>)   // `response.text`, `None` when undefined
    | Failed(message: string)          // the call threw an error with this `message`
    | FailedWithoutMessage             // the call threw something without a `message`

  /** What `getGeminiSuggestion` settles to. */
  datatype Outcome =
    | Suggestion(items: seq<Json>)   // `{ error: false, suggestion: items }`
    | Error(message: string)         // `{ error: true, message }`
    | Rejected                       // the promise rejects: `error.message.includes` on `undefined`

  // The user messages, spelled in pieces so that each keyword the route
  // later searches for is a piece of its own.
  const MissingKey: string := "API Key is missing" + ". Please add it in the " + "extension settings."
  const InvalidKey: string :=
    "Error: The provided " + "API Key is " + "not valid" + ". Please check your key in the " + "extension settings."
  const QuotaExceeded: string := "Error: Your Gemini " + "API key has exceeded " + "its " + "quota" + " limit."
  const BillingIssue: string := "Error: There might " + "be a " + "billing" + " issue associated " + "with your API key."
  const GenericFailure: string :=
    "Error generating " + "suggestion due to an " + "issue with the AI " + "service or your " + "API key."

  /** The messages an error result can carry. */
  predicate IsUserMessage(m: string)
  {
    m == MissingKey || m == InvalidKey || m == QuotaExceeded || m == BillingIssue || m == GenericFailure
  }

  /** The parameter default `["grammar", "spelling", "style", "clarity"]` for omitted checks. */
  function EffectiveChecks(checks: Option<seq<string>>): (r: seq<string>)
    ensures checks.Some? ==> r == checks.value
    ensures checks.None? ==> r == ["grammar", "spelling", "style", "clarity"]
  {
    checks.GetOr(["grammar", "spelling", "style", "clarity"])
  }

  /** The user message for a provider error, by case-sensitive substring
      search, first match wins: an invalid key, then quota, then billing. */
  function Classify(providerMessage: string): (m: string)
    ensures IsUserMessage(m) && m != MissingKey
    ensures Contains(providerMessage, "API key not valid") <==> m == InvalidKey
    ensures m == QuotaExceeded <==>
              !Contains(providerMessage, "API key not valid") && Contains(providerMessage, "quota")
    ensures m == BillingIssue <==>
              && !Contains(providerMessage, "API key not valid") && !Contains(providerMessage, "quota")
              && Contains(providerMessage, "billing")
    ensures m == GenericFailure <==>
              && !Contains(providerMessage, "API key not valid") && !Contains(providerMessage, "quota")
              && !Contains(providerMessage, "billing")
  {
    MessagesDistinct();
    if Contains(providerMessage, "API key not valid") then InvalidKey
    else if Contains(providerMessage, "quota") then QuotaExceeded
    else if Contains(providerMessage, "billing") then BillingIssue
    else GenericFailure
  }

  /** The five user messages are pairwise different. */
  lemma MessagesDistinct()
    ensures MissingKey != InvalidKey && MissingKey != QuotaExceeded && MissingKey != BillingIssue
    ensures MissingKey != GenericFailure && InvalidKey != QuotaExceeded && InvalidKey != BillingIssue
    ensures InvalidKey != GenericFailure && QuotaExceeded != BillingIssue && QuotaExceeded != GenericFailure
    ensures BillingIssue != GenericFailure
  {
    assert MissingKey[0] == 'A' && InvalidKey[0] == 'E' && QuotaExceeded[0] == 'E';
    assert BillingIssue[0] == 'E' && GenericFailure[0] == 'E';
    assert InvalidKey[7] == 'T' && QuotaExceeded[7] == 'Y' && BillingIssue[7] == 'T' && GenericFailure[7] == 'e';
    assert InvalidKey[8] == 'h' && BillingIssue[8] == 'h';
    assert |InvalidKey| != |BillingIssue|;
  }

  /** The reply text, trimmed and parsed, if it parses to a list; otherwise
      no suggestions. `parse` is `JSON.parse`, `None` when it throws. */
  function ParseSuggestions(text: Option<string>, parse: string -> Option<Json>): (r: seq<Json>)
    ensures text.Some? && parse(Trim(text.value)).Some? && parse(Trim(text.value)).value.JArray? ==>
              r == parse(Trim(text.value)).value.items
    ensures r != [] ==> text.Some? && parse(Trim(text.value)) == Some(JArray(r))
  {
    if text.None? then []   // `undefined.trim()` throws inside the parsing `try`
    else
      match parse(Trim(text.value))
      case Some(JArray(items)) => items
      case _ => []
  }

  /** A key that is absent or empty counts as missing (`!userApiKey`). */
  predicate KeyMissing(apiKey: Option<string>)
  {
    apiKey.None? || apiKey.value == ""
  }

  function GetGeminiSuggestion(apiKey: Option<string>, call: ProviderCall,
                               parse: string -> Option<Json>): (r: Outcome)
    // no key: the missing-key error, and the provider is not consulted
    ensures KeyMissing(apiKey) ==> r == Error(MissingKey)
    // every error carries one of the fixed user messages
    ensures r.Error? ==> IsUserMessage(r.message)
    ensures r.Error? && r.message == MissingKey ==> KeyMissing(apiKey)
    // a reply always gives a list, never an error
    ensures !KeyMissing(apiKey) && call.Replied? ==> r.Suggestion?
    ensures r.Suggestion? ==> call.Replied? && r.items == ParseSuggestions(call.text, parse)
    ensures !KeyMissing(apiKey) && call.Failed? ==> r == Error(Classify(call.message))
    ensures r.Rejected? <==> !KeyMissing(apiKey) && call.FailedWithoutMessage?
  {
    if KeyMissing(apiKey) then Error(MissingKey)
    else
      match call
      case Replied(text) => Suggestion(ParseSuggestions(text, parse))
      case Failed(message) => Error(Classify(message))
      case FailedWithoutMessage => Rejected
  }

  /** With no key the outcome does not depend on the provider at all. */
  lemma MissingKeyIgnoresProvider(apiKey: Option<string>, c1: ProviderCall, c2: ProviderCall,
                                  p1: string -> Option<Json>, p2: string -> Option<Json>)
    requires KeyMissing(apiKey)
    ensures GetGeminiSuggestion(apiKey, c1, p1) == GetGeminiSuggestion(apiKey, c2, p2)
  {
  }

  /** Surrounding white space in the reply does not change the suggestions. */
  lemma PaddingIgnored(pad1: string, body: string, pad2: string, parse: string -> Option<Json>)
    requires forall k :: 0 <= k < |pad1| ==> IsWhiteSpace(pad1[k])
    requires forall k :: 0 <= k < |pad2| ==> IsWhiteSpace(pad2[k])
    requires body == [] || (!IsWhiteSpace(body[0]) && !IsWhiteSpace(body[|body| - 1]))
    ensures ParseSuggestions(Some(pad1 + body + pad2), parse) == ParseSuggestions(Some(body), parse)
  {
    TrimUnique(pad1 + body + pad2, |pad1|, body);
    TrimUnique(body, 0, body);
  }
}
