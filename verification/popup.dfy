/**
 The toolbar popup's decisions: the per-site on/off toggle, whether the
 current site is switched off, the defaulting of the stored settings and
 the API key status line. Storage reads are inputs: `None` stands for a
 key that was never stored.
 */
module Popup {
  import opened Wrappers
  import opened Json
  import opened Sites
  import opened Seqs
  import opened Checks
  import opened AnalysisGate
  import Background

  /** The hostname of the active tab; absent or empty when there is none. */
  predicate HasHost(hostname: Option<string>)
  {
    hostname.Some? && hostname.value != ""
  }

  /** `checkSiteDisabled`: whether the current site is on the stored list. */
  function CheckSiteDisabled(sites: seq<string>, hostname: Option<string>): (b: bool)
    ensures b ==> HasHost(hostname)
    ensures HasHost(hostname) ==> (b <==> hostname.value in sites)
  {
    HasHost(hostname) && hostname.value in sites
  }

  /** The click handler of the site button: the list to store and the
      `isDisabled` flag sent to the tab, if anything happens at all. */
  function ToggleSite(sites: seq<string>, hostname: Option<string>): (r: (seq<string>, Option<bool>))
    // without a hostname nothing is stored and nothing is sent
    ensures !HasHost(hostname) ==> r == (sites, None)
    // otherwise the hostname's membership flips, and the tab is told the new state
    ensures HasHost(hostname) ==>
              && (hostname.value in r.0 <==> hostname.value !in sites)
              && r.1 == Some(hostname.value in r.0)
    // the other sites are untouched
    ensures HasHost(hostname) && hostname.value in sites ==> r.0 == Remove(sites, hostname.value)
    ensures HasHost(hostname) && hostname.value !in sites ==> r.0 == sites + [hostname.value]
  {
    if !HasHost(hostname) then (sites, None)
    else
      var h := hostname.value;
      if h in sites then (Remove(sites, h), Some(false))
      else (sites + [h], Some(true))
  }

  /** Switching a site off and on again restores the stored list. */
  lemma ToggleTwiceRestores(sites: seq<string>, hostname: Option<string>)
    requires HasHost(hostname) && hostname.value !in sites
    ensures ToggleSite(ToggleSite(sites, hostname).0, hostname).0 == sites
  {
    var h := hostname.value;
    RemoveAppend(sites, [h], h);
    RemoveAbsent(sites, h);
    assert Remove([h], h) == [];
    assert sites + [] == sites;
  }

  /** The toggle keeps a duplicate-free list duplicate-free. */
  lemma ToggleKeepsNoDuplicates(sites: seq<string>, hostname: Option<string>)
    requires NoDuplicates(sites)
    ensures NoDuplicates(ToggleSite(sites, hostname).0)
  {
    if HasHost(hostname) {
      var h := hostname.value;
      if h in sites {
        RemoveKeepsNoDuplicates(sites, h);
      } else {
        var r := sites + [h];
        forall i, j | 0 <= i < j < |r| ensures r[i] != r[j] {
          if j == |sites| { assert r[i] == sites[i]; }
        }
      }
    }
  }

  /** After a toggle, the popup's own check agrees with the flag sent to the tab. */
  lemma ToggleThenCheck(sites: seq<string>, hostname: Option<string>)
    requires HasHost(hostname)
    ensures var (after, sent) := ToggleSite(sites, hostname);
            sent == Some(CheckSiteDisabled(after, hostname))
            && CheckSiteDisabled(after, hostname) == !CheckSiteDisabled(sites, hostname)
  {
  }

  /** `settings.x !== false`: only a stored `false` switches a setting off. */
  function FlagOrDefault(stored: Option<Json>): (b: bool)
    ensures !b <==> stored == Some(JBool(false))
  {
    !(stored.Some? && stored.value == JBool(false))
  }

  /** The stored settings (`enabled`, `grammarCheck`, `spellingCheck`,
      `styleCheck`, `clarityCheck`), as the popup and the content script read them. */
  function LoadSettings(stored: map<string, Json>): (s: Settings)
    ensures s.enabled <==> !("enabled" in stored && stored["enabled"] == JBool(false))
    ensures s.grammar <==> !("grammarCheck" in stored && stored["grammarCheck"] == JBool(false))
    ensures s.spelling <==> !("spellingCheck" in stored && stored["spellingCheck"] == JBool(false))
    ensures s.style <==> !("styleCheck" in stored && stored["styleCheck"] == JBool(false))
    ensures s.clarity <==> !("clarityCheck" in stored && stored["clarityCheck"] == JBool(false))
  {
    Settings(
      FlagOrDefault(Lookup(stored, "enabled")),
      FlagOrDefault(Lookup(stored, "grammarCheck")),
      FlagOrDefault(Lookup(stored, "spellingCheck")),
      FlagOrDefault(Lookup(stored, "styleCheck")),
      FlagOrDefault(Lookup(stored, "clarityCheck")))
  }

  function Lookup(stored: map<string, Json>, key: string): (v: Option<Json>)
    ensures v.Some? <==> key in stored
    ensures v.Some? ==> v.value == stored[key]
  {
    if key in stored then Some(stored[key]) else None
  }

  /** A fresh install stores nothing, and then every check is requested. */
  lemma FreshInstallRequestsAll(text: string)
    requires |text| >= MinLength
    ensures AnalysisRequest(LoadSettings(map[]), text) == Some([Grammar, Spelling, Style, Clarity])
  {
    var s := LoadSettings(map[]);
    RequestIsCanonical(s, text, [Grammar, Spelling, Style, Clarity]);
  }

  datatype KeyStatus = NotSet | KeySet

  /** `updateApiKeyStatus`: whether a key is stored; the key is not validated. */
  function ApiKeyStatus(apiKey: Option<string>): (k: KeyStatus)
    ensures k == NotSet <==> apiKey.None? || apiKey.value == ""
  {
    if apiKey.None? || apiKey.value == "" then NotSet else KeySet
  }

  /** The popup shows a key as set exactly when the background script would send requests with it. */
  lemma KeyStatusMatchesBackground(apiKey: Option<string>)
    ensures ApiKeyStatus(apiKey) == KeySet <==> Background.HasKey(apiKey)
  {
  }
}
