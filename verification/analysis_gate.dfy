/**
 The gate in front of an analysis request in the content script
 (`analyzeText`): whether a request is sent at all, and which checks it
 asks for.
 */
module AnalysisGate {
  import opened Checks
  import opened Wrappers

  /** The content script's settings after `settings.x !== false` defaulting. */
  datatype Settings = Settings(enabled: bool, grammar: bool, spelling: bool, style: bool, clarity: bool)

  /** Shortest text that is sent for analysis. */
  const MinLength: nat := 5

  /** Whether check `c` is switched on. */
  predicate Enabled(s: Settings, c: CheckType)
  {
    match c
    case Grammar => s.grammar
    case Spelling => s.spelling
    case Style => s.style
    case Clarity => s.clarity
  }

  /** The checks are listed in strictly increasing rank. */
  predicate InRankOrder(checks: seq<CheckType>)
  {
    forall i, j :: 0 <= i < j < |checks| ==> Rank(checks[i]) < Rank(checks[j])
  }

  /** The check list built by pushing each enabled check in turn. */
  function RequestedChecks(s: Settings): (checks: seq<CheckType>)
    ensures forall c :: c in checks <==> Enabled(s, c)
    ensures InRankOrder(checks)
  {
    (if s.grammar then [Grammar] else [])
    + (if s.spelling then [Spelling] else [])
    + (if s.style then [Style] else [])
    + (if s.clarity then [Clarity] else [])
  }

  /** `analyzeText(element, text)`: `Some(checks)` when a request carrying
      `checks` is sent, `None` when nothing is sent. */
  function AnalysisRequest(s: Settings, text: string): (r: Option<seq<CheckType>>)
    ensures r.None? <==> !s.enabled || |text| < MinLength || forall c :: !Enabled(s, c)
    ensures r.Some? ==> |r.value| > 0 && InRankOrder(r.value)
    ensures r.Some? ==> forall c :: c in r.value <==> Enabled(s, c)
  {
    if !s.enabled || |text| < MinLength then None
    else
      var checks := RequestedChecks(s);
      if |checks| == 0 then None
      else
        assert Enabled(s, checks[0]);
        Some(checks)
  }

  /** The request's check list is the only list holding exactly the enabled
      checks in rank order: it is fixed by the settings alone. */
  lemma RequestIsCanonical(s: Settings, text: string, checks: seq<CheckType>)
    requires AnalysisRequest(s, text).Some?
    requires forall c :: c in checks <==> Enabled(s, c)
    requires InRankOrder(checks)
    ensures AnalysisRequest(s, text).value == checks
  {
    SameOrderedMembers(AnalysisRequest(s, text).value, checks);
  }

  /** Two rank-ordered lists with the same members are equal. */
  lemma {:induction false} SameOrderedMembers(a: seq<CheckType>, b: seq<CheckType>)
    requires InRankOrder(a) && InRankOrder(b)
    requires forall c :: c in a <==> c in b
    ensures a == b
    decreases |a|
  {
    if |b| > 0 {
      assert b[0] in a;
    }
    if |a| > 0 {
      assert a[0] in b;
      HeadIsLeast(a, b[0]);
      HeadIsLeast(b, a[0]);
      assert a[0] == b[0];
      forall c ensures c in a[1..] <==> c in b[1..] {
        TailMembers(a, c);
        TailMembers(b, c);
      }
      SameOrderedMembers(a[1..], b[1..]);
      assert a == [a[0]] + a[1..] && b == [b[0]] + b[1..];
    }
  }

  /** The head of a rank-ordered list has the least rank of its members. */
  lemma HeadIsLeast(a: seq<CheckType>, c: CheckType)
    requires InRankOrder(a) && c in a
    ensures Rank(a[0]) <= Rank(c)
  {
    var k :| 0 <= k < |a| && a[k] == c;
    if k > 0 { assert Rank(a[0]) < Rank(a[k]); }
  }

  /** In a rank-ordered list the head does not repeat in the tail. */
  lemma TailMembers(a: seq<CheckType>, c: CheckType)
    requires InRankOrder(a) && |a| > 0
    ensures c in a[1..] <==> c in a && c != a[0]
  {
    if c in a[1..] {
      var k :| 0 <= k < |a[1..]| && a[1..][k] == c;
      assert Rank(a[0]) < Rank(a[k + 1]);
    }
    if c in a && c != a[0] {
      var k :| 0 <= k < |a| && a[k] == c;
      assert a[1..][k - 1] == c;
    }
  }
}
