/**
 The background script's analysis cache (`analyzeText` and the `onMessage`
 listener). The cache maps a key built from the text and the check list to
 the suggestion list last sent for it. The network round trip is an input:
 `Response` is what `fetch` and `response.json()` produced.
 */
module Background {
  import opened Wrappers
  import opened Json
  import opened JsString

  type Cache = map<string, seq<Json>>

  /** `${text}-${checks.join(",")}`: the check list is joined in the order given. */
  function CacheKey(text: string, checks: seq<string>): string
  {
    text + "-" + Join(checks, ",")
  }

  /** What the backend request came back with. */
  datatype Response =
    | Failed(status: int, message: Json)   // `!response.ok`; `message` is the error body's `message`
    | Succeeded(suggestion: Json)           // the body's `suggestion` property (`JNull` when absent)
    | Threw                                 // `fetch` or `response.json()` threw

  /** What goes back to the tab: the `analysisResult` suggestions and,
      for a rejected key, the `apiKeyIssue` notice sent before it. */
  datatype Reply = Reply(suggestions: seq<Json>, apiKeyNotice: Option<Json>)

  const GeneralIssueTitle: string := "General improvement"
  const GeneralIssueType: string := "general"
  const GeneralIssueNote: string := "The backend returned a non-array suggestion"

  /** The single issue that wraps a suggestion which is not a list. */
  function GeneralIssue(text: string): Json
  {
    JObject([("issue", JString(GeneralIssueTitle)), ("suggestion", JString(text)),
             ("type", JString(GeneralIssueType)), ("explanation", JString(GeneralIssueNote))])
  }

  /** `JSON.stringify`, which is not modelled, is passed in as `stringify`. */
  function Normalize(suggestion: Json, stringify: Json -> string): (r: seq<Json>)
    ensures suggestion.JArray? ==> r == suggestion.items
    ensures !Truthy(suggestion) ==> r == []
    ensures Truthy(suggestion) && !suggestion.JArray? ==>
              && |r| == 1
              && r[0] == GeneralIssue(if suggestion.JString? then suggestion.s else stringify(suggestion))
  {
    if !Truthy(suggestion) then []
    else if suggestion.JArray? then suggestion.items
    else if suggestion.JString? then [GeneralIssue(suggestion.s)]
    else [GeneralIssue(stringify(suggestion))]
  }

  /** A key that is absent or empty counts as no key (`!apiKey`). */
  predicate HasKey(apiKey: Option<string>)
  {
    apiKey.Some? && apiKey.value != ""
  }

  /** One `analyzeText` message: the next cache and the reply sent.
      `response` is only looked at when a request is actually made. */
  function Analyze(cache: Cache, text: string, checks: seq<string>, apiKey: Option<string>,
                   response: Response, stringify: Json -> string): (r: (Cache, Reply))
    // a hit replays the cached list and touches nothing else
    ensures CacheKey(text, checks) in cache ==>
              r == (cache, Reply(cache[CacheKey(text, checks)], None))
    // every miss that does not store anything replies with an empty list
    ensures r.0 == cache ==> (CacheKey(text, checks) in cache || r.1.suggestions == [])
    // only a response that arrived and parsed is stored, and what is stored is what is sent
    ensures r.0 != cache ==>
              && CacheKey(text, checks) !in cache && HasKey(apiKey) && response.Succeeded?
              && r.0 == cache[CacheKey(text, checks) := r.1.suggestions]
    ensures CacheKey(text, checks) !in cache && HasKey(apiKey) && response.Succeeded? ==>
              r.0 == cache[CacheKey(text, checks) := Normalize(response.suggestion, stringify)]
    // a rejected key (401 or 403) is reported to the tab; nothing else is
    ensures r.1.apiKeyNotice.Some? <==>
              && CacheKey(text, checks) !in cache && HasKey(apiKey)
              && response.Failed? && (response.status == 401 || response.status == 403)
    ensures r.1.apiKeyNotice.Some? ==> r.1.apiKeyNotice.value == response.message
  {
    var key := CacheKey(text, checks);
    if key in cache then (cache, Reply(cache[key], None))
    else if !HasKey(apiKey) then (cache, Reply([], None))
    else
      match response
      case Failed(status, message) =>
        var notice := if status == 401 || status == 403 then Some(message) else None;
        (cache, Reply([], notice))
      case Succeeded(suggestion) =>
        var suggestions := Normalize(suggestion, stringify);
        (cache[key := suggestions], Reply(suggestions, None))
      case Threw => (cache, Reply([], None))
  }

  /** With no key, no request is made: the reply is empty whatever the backend would have said. */
  lemma NoKeyNoRequest(cache: Cache, text: string, checks: seq<string>, apiKey: Option<string>,
                       r1: Response, r2: Response, stringify: Json -> string)
    requires CacheKey(text, checks) !in cache && !HasKey(apiKey)
    ensures Analyze(cache, text, checks, apiKey, r1, stringify) == (cache, Reply([], None))
    ensures Analyze(cache, text, checks, apiKey, r1, stringify) == Analyze(cache, text, checks, apiKey, r2, stringify)
  {
  }

  /** After a successful analysis, asking again for the same text and checks
      replays the stored list without a request, whatever the key or the backend. */
  lemma SecondAskIsReplayed(cache: Cache, text: string, checks: seq<string>, apiKey: Option<string>,
                            suggestion: Json, apiKey2: Option<string>, response2: Response,
                            stringify: Json -> string)
    requires HasKey(apiKey)
    ensures var (c1, reply1) := Analyze(cache, text, checks, apiKey, Succeeded(suggestion), stringify);
            Analyze(c1, text, checks, apiKey2, response2, stringify) == (c1, reply1)
  {
  }

  /** The `onMessage` actions that touch the cache. */
  datatype Message =
    | AnalyzeText(text: string, checks: seq<string>)
    | SettingChanged
    | ApiKeyChanged
    | LanguageChanged
    | OtherAction

  /** The cache after the listener handles a message other than `analyzeText`
      (`analyzeText` is `Analyze`): a new key or language empties it. */
  function OnMessage(cache: Cache, m: Message): (r: Cache)
    requires !m.AnalyzeText?
    ensures m.ApiKeyChanged? || m.LanguageChanged? ==> r == map[]
    ensures m.SettingChanged? || m.OtherAction? ==> r == cache
  {
    if m.ApiKeyChanged? || m.LanguageChanged? then map[] else cache
  }

  /** After a key or language change nothing is replayed: the next ask goes to the backend. */
  lemma ChangeForcesRefetch(cache: Cache, m: Message, text: string, checks: seq<string>,
                            apiKey: Option<string>, response: Response, stringify: Json -> string)
    requires m.ApiKeyChanged? || m.LanguageChanged?
    ensures HasKey(apiKey) && response.Succeeded? ==>
              Analyze(OnMessage(cache, m), text, checks, apiKey, response, stringify).1.suggestions
                == Normalize(response.suggestion, stringify)
  {
  }

  /** Check names never contain the separator, and the content script never sends an empty list. */
  predicate SeparableChecks(checks: seq<string>)
  {
    |checks| > 0 && forall k :: 0 <= k < |checks| ==> ',' !in checks[k]
  }

  /** For one text, the key determines the check list: the same checks in a
      different order are cached separately. */
  lemma {:induction false} KeyDeterminesChecks(text: string, a: seq<string>, b: seq<string>)
    requires SeparableChecks(a) && SeparableChecks(b)
    requires CacheKey(text, a) == CacheKey(text, b)
    ensures a == b
  {
    var prefix := text + "-";
    assert CacheKey(text, a) == prefix + Join(a, ",");
    assert CacheKey(text, b) == prefix + Join(b, ",");
    assert Join(a, ",") == CacheKey(text, a)[|prefix|..];
    assert Join(b, ",") == CacheKey(text, b)[|prefix|..];
    SplitJoin(a, ',');
    SplitJoin(b, ',');
  }
}
