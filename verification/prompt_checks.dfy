/**
 The check-list prompt of the backend's interactive prompt test script:
 a comma-separated entry, each item trimmed and lower-cased, unknown names
 dropped, and the default list whenever nothing usable remains.
 */
module PromptChecks {
  import opened JsString
  import opened Checks

  /** `input.split(',').map(check => check.trim().toLowerCase())`. */
  function Entries(input: string): (r: seq<string>)
    ensures |r| == |Split(input, ',')|
    ensures forall k :: 0 <= k < |r| ==> r[k] == TrimLower(Split(input, ',')[k])
  {
    var pieces := Split(input, ',');
    seq(|pieces|, k requires 0 <= k < |pieces| => TrimLower(pieces[k]))
  }

  /** `checks.filter(check => validCheckTypes.includes(check))`. */
  function KeepValid(xs: seq<string>): (r: seq<string>)
    ensures |r| <= |xs|
    ensures forall k :: 0 <= k < |r| ==> IsValidName(r[k])
  {
    if |xs| == 0 then []
    else if IsValidName(xs[0]) then [xs[0]] + KeepValid(xs[1..])
    else KeepValid(xs[1..])
  }

  /** Each valid name survives the filter as often as it was entered, and nothing else does. */
  lemma {:induction false} KeepValidCounts(xs: seq<string>, n: string)
    ensures multiset(KeepValid(xs))[n] == if IsValidName(n) then multiset(xs)[n] else 0
    decreases |xs|
  {
    if |xs| > 0 {
      KeepValidCounts(xs[1..], n);
      assert xs == [xs[0]] + xs[1..];
    }
  }

  /** Filtering keeps the entry order: it distributes over concatenation. */
  lemma {:induction false} KeepValidAppend(a: seq<string>, b: seq<string>)
    ensures KeepValid(a + b) == KeepValid(a) + KeepValid(b)
    decreases |a|
  {
    if |a| > 0 {
      assert (a + b)[0] == a[0] && (a + b)[1..] == a[1..] + b;
      KeepValidAppend(a[1..], b);
    } else {
      assert a + b == b;
    }
  }

  /** The check list the script asks the model for. */
  function ParseCheckList(input: string): (r: seq<string>)
    // never empty, and only known names
    ensures |r| > 0 && forall k :: 0 <= k < |r| ==> IsValidName(r[k])
    // a blank entry means the defaults
    ensures Trim(input) == "" ==> r == DefaultNames
    // otherwise the recognised entries in the order typed, or the defaults if there are none
    ensures Trim(input) != "" && KeepValid(Entries(input)) != [] ==> r == KeepValid(Entries(input))
    ensures Trim(input) != "" && KeepValid(Entries(input)) == [] ==> r == DefaultNames
  {
    if Trim(input) == "" then DefaultNames
    else
      var checks := KeepValid(Entries(input));
      if checks == [] then DefaultNames else checks
  }

  /** Typing a list of check names separated by commas gives exactly that list back. */
  lemma ParseJoinedNames(names: seq<string>)
    requires |names| > 0 && forall k :: 0 <= k < |names| ==> IsValidName(names[k])
    ensures ParseCheckList(Join(names, ",")) == names
  {
    forall k | 0 <= k < |names| ensures NormalEntry(names[k]) {
      NameIsNormal(names[k]);
    }
    EntriesOfJoin(names);
    JoinNotBlank(names);
    AllValidKept(names);
  }

  /** An entry that normalisation leaves alone, free of commas and starting with a letter. */
  predicate NormalEntry(n: string)
  {
    ',' !in n && TrimLower(n) == n && |n| > 0 && !IsWhiteSpace(n[0])
  }

  lemma EntriesOfJoin(names: seq<string>)
    requires |names| > 0 && forall k :: 0 <= k < |names| ==> NormalEntry(names[k])
    ensures Entries(Join(names, ",")) == names
  {
    SplitJoin(names, ',');
  }

  lemma JoinNotBlank(names: seq<string>)
    requires |names| > 0 && NormalEntry(names[0])
    ensures Trim(Join(names, ",")) != ""
  {
    var input := Join(names, ",");
    JoinStartsWithFirst(names, ",");
    var i :| IsCoreOf(input, Trim(input), i);
  }

  /** A list of known names passes the filter untouched. */
  lemma {:induction false} AllValidKept(xs: seq<string>)
    requires forall k :: 0 <= k < |xs| ==> IsValidName(xs[k])
    ensures KeepValid(xs) == xs
    decreases |xs|
  {
    if |xs| > 0 {
      AllValidKept(xs[1..]);
      assert xs == [xs[0]] + xs[1..];
    }
  }

  /** A non-empty run of lower-case ASCII letters. */
  predicate LowerWord(n: string)
  {
    |n| > 0 && forall i :: 0 <= i < |n| ==> 'a' <= n[i] <= 'z'
  }

  /** A check name is already in normal form. */
  lemma NameIsNormal(n: string)
    requires IsValidName(n)
    ensures NormalEntry(n)
  {
    NamesAreWords(n);
    WordIsNormal(n);
  }

  lemma WordIsNormal(n: string)
    requires LowerWord(n)
    ensures NormalEntry(n)
  {
    assert Trimmed(n) && IsCoreOf(n, n, 0);
    TrimUnique(n, 0, n);
    assert ToLower(n) == n;
  }

  lemma NamesAreWords(n: string)
    requires IsValidName(n)
    ensures LowerWord(n)
  {
    var k :| 0 <= k < |DefaultNames| && DefaultNames[k] == n;
    if k == 0 { assert LowerWord("grammar"); }
    else if k == 1 { assert LowerWord("spelling"); }
    else if k == 2 { assert LowerWord("style"); }
    else { assert LowerWord("clarity"); }
  }

  /** A join starts with the first piece. */
  lemma JoinStartsWithFirst(names: seq<string>, sep: string)
    requires |names| > 0 && |names[0]| > 0
    ensures |Join(names, sep)| > 0 && Join(names, sep)[0] == names[0][0]
  {
  }
}
