# TextWarden core in Dafny

TextWarden is a browser extension with a small backend. It underlines
grammar, spelling, style and clarity issues in text fields and offers
replacements produced by a language model. This project models the
decision logic of that system as pure Dafny functions and proves
properties about them:

- **Content script** (`extension/scripts/content.js`):
  - locating the occurrences of an issue's text;
  - applying one suggestion;
  - applying all suggestions from the end of the text towards its start;
  - the gate that decides whether an analysis request is sent, and with which checks;
  - the one-second input debounce shared by all fields;
  - the placement of the suggestion popup.
- **Background script** (`extension/scripts/background.js`):
  - the analysis cache, keyed by text and check list;
  - clearing that cache when the key or the language changes.
- **Backend** (`backend/utils/gemini.js`, `backend/routes/api.js`):
  - the missing-key guard;
  - normalising the model's reply into a list;
  - translating provider errors into user messages;
  - the route's validation, check defaulting and filtering, and HTTP status mapping.
- **Options page and popup** (`extension/settings/settings.js`, `extension/popup/popup.js`):
  - adding and removing disabled sites;
  - the per-site toggle;
  - defaulting of stored settings;
  - the API key status.
- **Backend test scripts** (`backend/test-prompt.js`, `backend/test-json-response.js`):
  - parsing the comma-separated check list;
  - pulling a JSON array out of a chatty model reply.

Layout, one module per file:

| file | module | models |
|---|---|---|
| `wrappers.dfy` | `Wrappers` | `Option` |
| `seqs.dfy` | `Seqs` | lists without duplicates |
| `json.dfy` | `Json` | JSON values and JavaScript truthiness |
| `js_string.dfy` | `JsString` | `indexOf`, `includes`, `replace` with a string pattern, `trim`, `toLowerCase`, `join`, `split` |
| `checks.dfy` | `Checks` | the four check types and their names |
| `text_edit.dfy` | `TextEdit` | finding and applying suggestions |
| `analysis_gate.dfy` | `AnalysisGate` | the content script's `analyzeText` gate |
| `debounce.dfy` | `Debounce` | the text-field listeners as a state machine |
| `popup_position.dfy` | `PopupPosition` | `calculatePopupPosition` |
| `background.dfy` | `Background` | the analysis cache |
| `gemini.dfy` | `Gemini` | `getGeminiSuggestion` |
| `api.dfy` | `Api` | `POST /api/ai/suggest` |
| `sites.dfy` | `Sites` | the disabled-sites list on the options page |
| `popup.dfy` | `Popup` | the toolbar popup |
| `prompt_checks.dfy` | `PromptChecks` | the check-list prompt of `test-prompt.js` |
| `json_extract.dfy` | `JsonExtract` | the reply parsing of `test-json-response.js` |

External effects are inputs:

- Storage reads are `Option` or `map` values.
- The outcome of `fetch` is a `Response` value.
- The outcome of the model call is a `ProviderCall` value.
- `JSON.parse` is a function `string -> Option<Json>`, returning `None` where it throws.
- `JSON.stringify` is a function `Json -> string`.
- The debounce timeout is an explicit `TimerFired` event.

## Model

| member | source | states |
|---|---|---|
| TextEdit.FindAllOccurrences | extension/scripts/content.js:996-1004 | Lists every position where the needle occurs, overlapping matches included, in strictly increasing order, and nothing else. |
| TextEdit.ApplySuggestion | extension/scripts/content.js:759-778 | Nothing is written unless both the issue and the suggestion are non-empty. Otherwise the first occurrence of the issue text is replaced by the suggestion. If the issue text is absent, the text is written back unchanged. |
| TextEdit.SortDescendingBy | extension/scripts/content.js:826-831 | The result is a permutation of the input, ordered by non-increasing key. Entries with equal keys keep their input order (the sort is stable). |
| TextEdit.ApplyAllSuggestions | extension/scripts/content.js:821-846 | An empty list does nothing. Otherwise the reported count is the number of applicable suggestions, whatever the order. When nothing is applicable the text comes back unchanged. |
| TextEdit.CountApplicableExtremes | extension/scripts/content.js:837-846 | The applied count equals the list length exactly when no entry is skipped. It is zero exactly when every entry is skipped. |
| TextEdit.ReorderingKeepsCount | extension/scripts/content.js:826-846 | Reordering the suggestions does not change how many are applied. A list of inapplicable entries leaves the text alone in any order. |
| TextEdit.CountPermutation | extension/scripts/content.js:835-846 | Two lists with the same elements have the same number of applicable entries. |
| TextEdit.ApplyAllReplacesSpansAtOnce | extension/scripts/content.js:824-846 | Sorting by position from the end achieves its purpose when the suggestions are applicable, present, distinct and non-overlapping: the result equals replacing every first occurrence of the original text at once. |
| TextEdit.SpansFollowOccurrences | extension/scripts/content.js:835-843 | Each step of the loop finds its issue text at its original first occurrence, because every later edit lies to its left. |
| AnalysisGate.RequestedChecks | extension/scripts/content.js:198-203 | The list holds exactly the enabled checks, in the fixed grammar, spelling, style, clarity order. |
| AnalysisGate.AnalysisRequest | extension/scripts/content.js:194-213 | No request when disabled, when the text is shorter than 5 characters, or when no check is on. Otherwise the request carries a non-empty, ordered list of exactly the enabled checks. |
| AnalysisGate.RequestIsCanonical | extension/scripts/content.js:198-205 | The settings alone fix the requested list: it is the only ordered list of the enabled checks. |
| AnalysisGate.SameOrderedMembers | extension/scripts/content.js:198-203 | Two rank-ordered check lists with the same members are equal. |
| Debounce.Step | extension/scripts/content.js:152-191 | A field is tracked once, and its initial text is analysed iff the script is enabled and the text is non-empty. An enabled input on a tracked field replaces the one pending timeout. A disabled input changes nothing. When the timeout fires, the captured text is analysed iff it is non-empty and differs from the field's last text, and only then becomes the last text. |
| Debounce.BurstKeepsLast | extension/scripts/content.js:168-182 | A burst of inputs sends no analysis and leaves only the last input pending. |
| Debounce.BurstAnalysesOnce | extension/scripts/content.js:168-182 | A burst of inputs followed by the timeout gives at most one analysis. That analysis is of the last input's text, and happens iff the text is non-empty and new for its field. |
| Debounce.EchoSuppressed | extension/scripts/content.js:177-180 | Retyping the text last analysed for a field sends nothing. |
| PopupPosition.ClampInto | extension/scripts/content.js:1157-1164 | The clamp never goes below the lower bound. It stays within the upper bound when the range is non-empty, and leaves a value inside the range unchanged. |
| PopupPosition.CalculatePopupPosition | extension/scripts/content.js:1096-1167 | The popup goes above iff there is no room below and more room above. It goes left iff there is no room to the right and more room on the left. It never passes the top-left margin. It stays inside the bottom-right margin whenever the viewport can hold it. |
| PopupPosition.AnchoredWhenItFits | extension/scripts/content.js:1134-1164 | When the anchored coordinate fits, it is used unclamped: left- or right-aligned with the field, 5 pixels below or above it. |
| PopupPosition.DefaultPlacement | extension/scripts/content.js:1119-1129 | A field with room below and to the right gets the below-right placement. |
| Background.Normalize | extension/scripts/background.js:97-125 | A list passes through. A falsy suggestion gives no issues. Any other value becomes one "General improvement" issue carrying the string, or the stringified value. |
| Background.Analyze | extension/scripts/background.js:48-136 | A cache hit replays the stored list and sends no request. Only a successful response is stored, and what is stored is what is sent. Every other miss replies with an empty list. The key notice is sent iff the backend answered 401 or 403. |
| Background.NoKeyNoRequest | extension/scripts/background.js:58-65 | Without a key the reply is empty and does not depend on the backend. |
| Background.SecondAskIsReplayed | extension/scripts/background.js:49-54 | After a successful analysis, the same text and checks are answered from the cache, whatever the key or the backend. |
| Background.OnMessage | extension/scripts/background.js:32-40 | A key change or a language change empties the cache. A settings change or any other action leaves it alone. |
| Background.ChangeForcesRefetch | extension/scripts/background.js:34-40 | After a key or language change, the next successful ask returns the backend's fresh answer. |
| Background.KeyDeterminesChecks | extension/scripts/background.js:50 | For one text, the cache key determines the check list, order included. |
| Gemini.EffectiveChecks | backend/utils/gemini.js:20-24 | Omitted checks default to all four names. |
| Gemini.Classify | backend/utils/gemini.js:124-143 | The message is, in priority order, the invalid-key one iff "API key not valid" occurs; the quota one iff "quota" occurs and no earlier pattern does; the billing one iff "billing" occurs and neither earlier pattern does; the generic one otherwise. |
| Gemini.MessagesDistinct | backend/utils/gemini.js:28-139 | The five user messages are pairwise different. |
| Gemini.ParseSuggestions | backend/utils/gemini.js:98-120 | The trimmed reply is used when it parses to a list. A missing reply, a parse failure or a non-list gives an empty list. |
| Gemini.GetGeminiSuggestion | backend/utils/gemini.js:20-144 | No key gives the missing-key error, with no provider call. A reply always gives a list. A provider error gives its classified message. An error without a message makes the promise reject. Every error carries one of the fixed messages. |
| Gemini.MissingKeyIgnoresProvider | backend/utils/gemini.js:25-33 | With no key the outcome does not depend on the provider. |
| Gemini.PaddingIgnored | backend/utils/gemini.js:104 | White space around the reply does not change the suggestions. |
| Api.ChecksToPerform | backend/routes/api.js:45-48 | A non-empty array is used as sent. Anything else gives the four default names. |
| Api.ValidChecks | backend/routes/api.js:51-54 | The filtered list holds only known check names. |
| Api.ValidChecksCounts | backend/routes/api.js:51-54 | Each known name survives as often as it was sent, and nothing else survives. |
| Api.ValidChecksAppend | backend/routes/api.js:52-54 | Filtering keeps the order sent. |
| Api.DefaultChecksAllValid | backend/routes/api.js:45-54 | An omitted or empty list asks for all four checks, in order. |
| Api.StatusFor | backend/routes/api.js:70-74 | Later tests override earlier ones. "billing" gives 402, then "quota" 429, then "not valid" 403, then "API Key is missing" 401. Anything else gives 500. |
| Api.HandleSuggest | backend/routes/api.js:31-88 | A falsy text is refused with 400 first. Then a list with no known check is refused with 400. Past validation, the reply mirrors the model call: suggestions with 200, an error with its status, a rejection with 500 and the server-error message. A status of 200 goes with a suggestion body and with nothing else. |
| Api.InvalidRequestIgnoresProvider | backend/routes/api.js:37-62 | A request that fails validation never reaches the model and gets 400. |
| Api.MissingKeyStatus | backend/routes/api.js:71-74 | The missing-key message maps to 401. |
| Api.InvalidKeyStatus | backend/routes/api.js:71-74 | The invalid-key message maps to 403. |
| Api.QuotaStatus | backend/routes/api.js:71-74 | The quota message maps to 429. |
| Api.BillingStatus | backend/routes/api.js:71-74 | The billing message maps to 402. |
| Api.GenericStatus | backend/routes/api.js:70-74 | The generic message maps to 500. |
| Api.ProviderErrorStatus | backend/routes/api.js:64-87 | For a valid request the status is: 401 for a missing key; 200 for a reply; 403 for a rejected key; 429 for a quota; 402 for billing; 500 for any other provider error or one without a message. |
| Sites.Remove | extension/settings/settings.js:98 | The result holds exactly the listed sites other than the removed one. |
| Sites.RemoveAppend | extension/settings/settings.js:98 | Removal keeps the order of what stays. |
| Sites.RemoveAbsent | extension/settings/settings.js:98 | Removing an unlisted site changes nothing. |
| Sites.RemoveKeepsNoDuplicates | extension/settings/settings.js:93-101 | Removal keeps a duplicate-free list duplicate-free. |
| Sites.AddSite | extension/settings/settings.js:117-140 | An entry that is blank once trimmed is refused. So is one already listed. Otherwise the trimmed, lower-cased entry goes at the end. A refused entry leaves the list alone. |
| Sites.AddKeepsNoDuplicates | extension/settings/settings.js:117-140 | Adding never introduces a duplicate. |
| Sites.AddThenRemove | extension/settings/settings.js:93-140 | Removing a site just added restores the list. |
| Sites.NormalizeIgnoresCaseAndBlanks | extension/settings/settings.js:118 | Any blanks before an entry and any blanks after it, chosen independently, are dropped, and the entry is stored in lower case. So entries differing only in surrounding blanks are the same site. |
| Popup.CheckSiteDisabled | extension/popup/popup.js:50-62 | The site counts as disabled iff there is a hostname and it is listed. |
| Popup.ToggleSite | extension/popup/popup.js:196-231 | Without a hostname nothing happens. Otherwise the hostname's membership flips, the other sites are untouched, and the tab is told the new state. |
| Popup.ToggleTwiceRestores | extension/popup/popup.js:203-214 | Switching a site off and on again restores the list. |
| Popup.ToggleKeepsNoDuplicates | extension/popup/popup.js:203-214 | The toggle keeps a duplicate-free list duplicate-free. |
| Popup.ToggleThenCheck | extension/popup/popup.js:203-231 | After a toggle, the flag sent to the tab agrees with the popup's own check, and that check has flipped. |
| Popup.FlagOrDefault | extension/popup/popup.js:100-109 | Only a stored `false` switches a setting off. |
| Popup.LoadSettings | extension/popup/popup.js:100-109 | Each setting is on unless the stored value under its key is `false`. |
| Popup.FreshInstallRequestsAll | extension/scripts/content.js:36-40 | With nothing stored, every check is requested, in order. |
| Popup.ApiKeyStatus | extension/popup/popup.js:123-134 | The key shows as not set iff it is absent or empty. |
| Popup.KeyStatusMatchesBackground | extension/popup/popup.js:123-134 | The popup shows a key as set exactly when the background script would use it. |
| PromptChecks.Entries | backend/test-prompt.js:141 | One entry per comma-separated piece, trimmed and lower-cased. |
| PromptChecks.KeepValid | backend/test-prompt.js:144-145 | The filtered list holds only known names. |
| PromptChecks.KeepValidCounts | backend/test-prompt.js:144-145 | Each known name survives as often as entered, and nothing else survives. |
| PromptChecks.KeepValidAppend | backend/test-prompt.js:145 | Filtering keeps the entry order. |
| PromptChecks.ParseCheckList | backend/test-prompt.js:135-150 | The list is never empty and holds only known names. A blank entry gives the defaults. Otherwise the recognised entries come back in the order typed, or the defaults if none survive. |
| PromptChecks.ParseJoinedNames | backend/test-prompt.js:137-150 | Typing known names separated by commas gives exactly that list back. |
| JsonExtract.ArrayMatch | backend/test-json-response.js:118 | The match of the bracket pattern exists iff some `[` is followed by a `]`. It starts at the leftmost possible start and, from there, is the longest match. |
| JsonExtract.ArrayCandidate | backend/test-json-response.js:118-120 | A candidate exists iff the pattern matches. It is a piece of the reply that starts with `[` and ends with `]`. |
| JsonExtract.TestJsonResponse | backend/test-json-response.js:92-128 | A reply that parses once trimmed, and whose elements all print if it is an array, is reported as it is and never cut down. Extraction is tried exactly when the parse fails or printing an element throws. Printing throws for a `null` element, or for an `issue`, `type`, `explanation` or `suggestion` property that is an object with its own `toString`, or an array holding one. The extraction reports the candidate's parse, or that no array was found. |
| JsonExtract.ListReplyReadEitherWay | backend/test-json-response.js:92-128 | A bracketed list between blanks gives the same array either way. It is reported directly when every element prints. When one does not, the extraction cuts out exactly that list and reports it. |
| JsonExtract.CandidateInProse | backend/test-json-response.js:117-124 | Prose without brackets around a bracketed list does not hide it: the candidate is exactly the list. |

## Left out

- Text lengths and string positions count characters. JavaScript counts UTF-16 code units, so `text.length < 5` and `indexOf` differ for text outside the Basic Multilingual Plane.
- `toLowerCase` maps only ASCII `A`-`Z`. Other letters are left as they are.
- `String.prototype.replace` treats `$&`, `$1` and similar sequences in the replacement as patterns. The model inserts the suggestion literally.
- DOM work is not modelled: finding fields, highlight overlays, markers, popup contents, scroll and resize handlers, and writing `value` or `textContent` back into the element (including the element-type test). The outcomes say whether text is written and an `input` event dispatched.
- Real time is not modelled. The one-second `setTimeout` is the `TimerFired` event, and element ids generated with `Math.random` are not modelled.
- Storage is not modelled as a system. `chrome.storage` reads and writes are values in and out, and failed storage reads (the `catch` branches that log and fall back) are left out.
- `JSON.parse` and `JSON.stringify` are uninterpreted parameters, as is the language-model SDK call. The prompt text sent to the model is not modelled.
- Pixel arithmetic is done on reals, not IEEE doubles.
- Suggestions whose `issue` or `suggestion` is not a string are not modelled. A missing property is read as the empty string, and the apply-all loop skips both alike (extension/scripts/content.js:838). The sort key differs: `indexOf(undefined)` at extension/scripts/content.js:828 searches for the text "undefined", while the model searches for "" and gets 0. This cannot change the result. Such entries are skipped, and the sort is stable, so the other entries keep the same relative order whatever key a skipped entry gets.
- TextEdit.FindAllOccurrences: requires a non-empty needle. With an empty needle the source loop never ends, and callers never pass one.
- TextEdit.ApplyAllReplacesSpansAtOnce: holds only under its stated hypotheses (applicable, present, distinct, non-overlapping suggestions). Overlapping or repeated issue texts can make the loop edit text an earlier replacement produced.
- Re-analysis when `settingsUpdated` arrives, and the background `handleSettingChange` (whose effect on the cache is none), are not modelled beyond `OnMessage` leaving the cache alone.
- The correction and suggestion statistics counters, and the `/health` endpoint, are not modelled.
- Console logging is not modelled anywhere.
- For the JSON response script, only what it concludes is modelled, not the text it prints for each suggestion. Whether that printing throws is modelled, because a throw sends the reply to the extraction. A reply that is not a string at all is not modelled.
- Background.Analyze: each analysis runs as one atomic step. In the source it awaits storage (extension/scripts/background.js:58) and the backend (:68, :82, :95) between the cache test at :51 and the store at :128. Messages and other analyses can run during those awaits. Two overlapping misses for the same key each call the backend, and both store their answers.
- Background.ChangeForcesRefetch: holds only for an analysis that starts after the cache is cleared. If a key or language change clears the cache while an analysis is awaiting, the store at extension/scripts/background.js:128 puts that analysis's answer back. The answer was obtained with the old key or language, so the next ask can replay it from the cache.
