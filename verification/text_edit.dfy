/**
 The text-editing core of the content script: locating every occurrence of
 an issue's quoted text, applying one suggestion, and applying a batch of
 suggestions from the end of the text towards its start.
 */
module TextEdit {
  import opened JsString
  import opened Seqs

  /** One suggestion object as the content script reads it. A missing
      `issue` or `suggestion` property is the empty string here: the script
      tests both with `!x`, which treats `undefined` and `""` alike. */
  datatype Issue = Issue(issue: string, suggestion: string)

  /** Only a suggestion with both texts present can be applied. */
  predicate Applicable(s: Issue)
  {
    s.issue != "" && s.suggestion != ""
  }

  /** `findAllOccurrences(text, subtext)`: repeated `indexOf` starting one
      position after the previous match, so overlapping matches are listed.
      Callers never pass an empty needle (a marker is only drawn for a
      non-empty issue text), and with one the loop would not stop. */
  method FindAllOccurrences(text: string, sub: string) returns (indices: seq<nat>)
    requires |sub| > 0
    ensures forall k :: 0 <= k < |indices| ==> OccursAt(text, sub, indices[k])
    ensures forall k, l :: 0 <= k < l < |indices| ==> indices[k] < indices[l]
    ensures forall i :: OccursAt(text, sub, i) ==> i in indices
  {
    indices := [];
    var from := 0;
    var index := IndexOf(text, sub, from);
    while index != -1
      invariant FoundBefore(text, sub, from, indices)
      invariant index == IndexOf(text, sub, from)
      decreases |text| - from
    {
      FoundNext(text, sub, from, indices);
      indices := indices + [index];
      from := index + 1;
      index := IndexOf(text, sub, from);
    }
  }

  /** `indices` lists, in increasing order, exactly the occurrences of `sub` that start before `from`. */
  predicate FoundBefore(text: string, sub: string, from: nat, indices: seq<nat>)
  {
    && from <= |text|
    && (forall k :: 0 <= k < |indices| ==> OccursAt(text, sub, indices[k]) && indices[k] < from)
    && (forall k, l :: 0 <= k < l < |indices| ==> indices[k] < indices[l])
    && (forall i :: 0 <= i < from && OccursAt(text, sub, i) ==> i in indices)
  }

  /** One round of the loop: the next match is recorded and the search moves past it. */
  lemma FoundNext(text: string, sub: string, from: nat, indices: seq<nat>)
    requires |sub| > 0
    requires FoundBefore(text, sub, from, indices)
    requires IndexOf(text, sub, from) != -1
    ensures var index := IndexOf(text, sub, from);
            && from <= index < |text|
            && FoundBefore(text, sub, index + 1, indices + [index])
  {
    var index := IndexOf(text, sub, from);
    var next := indices + [index];
    assert forall k :: 0 <= k < |indices| ==> next[k] == indices[k];
    forall i | 0 <= i < index + 1 && OccursAt(text, sub, i)
      ensures i in next
    {
      if i < from {
        assert i in indices;
      }
    }
  }

  /** What applying one suggestion does to the field. */
  datatype ApplyOutcome =
    | Ignored                  // nothing written, no `input` event
    | Written(newText: string) // text written back and one `input` event dispatched

  /** `applySuggestion(element, suggestion)`: replace the first occurrence of
      the issue text by the suggestion; the text is written back (and the
      `input` event fired) even when the issue text no longer occurs. */
  function ApplySuggestion(text: string, s: Issue): (o: ApplyOutcome)
    ensures o.Ignored? <==> !Applicable(s)
    ensures o.Written? && !Contains(text, s.issue) ==> o.newText == text
    ensures o.Written? && Contains(text, s.issue) ==>
              exists p :: IsFirstOccurrence(text, s.issue, p)
                          && o.newText == text[..p] + s.suggestion + text[p + |s.issue|..]
  {
    if s.suggestion == "" then Ignored
    else if s.issue == "" then Ignored
    else Written(ReplaceFirst(text, s.issue, s.suggestion))
  }

  /** The sort key of `applyAllSuggestions`: `text.indexOf(issue)` in the text
      as it was before any edit. */
  function Position(text: string, s: Issue): int
  {
    IndexOf(text, s.issue, 0)
  }

  /** Keys never increase from left to right. */
  predicate SortedDescending(key: Issue -> int, xs: seq<Issue>)
  {
    forall i, j :: 0 <= i < j < |xs| ==> key(xs[i]) >= key(xs[j])
  }

  /** The entries of `xs` whose key is `k`, in their order in `xs`. */
  function WithKey(key: Issue -> int, xs: seq<Issue>, k: int): seq<Issue>
  {
    if |xs| == 0 then []
    else (if key(xs[0]) == k then [xs[0]] else []) + WithKey(key, xs[1..], k)
  }

  lemma WithKeyCons(key: Issue -> int, y: Issue, ys: seq<Issue>, k: int)
    ensures WithKey(key, [y] + ys, k) == (if key(y) == k then [y] else []) + WithKey(key, ys, k)
  {
    assert ([y] + ys)[1..] == ys;
  }

  /** Inserts `x` before the first entry whose key is not greater than its own. */
  function Insert(key: Issue -> int, x: Issue, sorted: seq<Issue>): (r: seq<Issue>)
    requires SortedDescending(key, sorted)
    ensures multiset(r) == multiset(sorted) + multiset{x}
    ensures SortedDescending(key, r)
    ensures forall k :: WithKey(key, r, k) == (if key(x) == k then [x] else []) + WithKey(key, sorted, k)
  {
    if |sorted| == 0 then [x]
    else if key(x) >= key(sorted[0]) then
      InsertInFront(key, x, sorted);
      [x] + sorted
    else
      var rest := Insert(key, x, sorted[1..]);
      InsertBehind(key, x, sorted, rest);
      [sorted[0]] + rest
  }

  lemma InsertInFront(key: Issue -> int, x: Issue, sorted: seq<Issue>)
    requires SortedDescending(key, sorted)
    requires |sorted| > 0 && key(x) >= key(sorted[0])
    ensures SortedDescending(key, [x] + sorted)
    ensures forall k :: WithKey(key, [x] + sorted, k) == (if key(x) == k then [x] else []) + WithKey(key, sorted, k)
  {
    forall k ensures WithKey(key, [x] + sorted, k) == (if key(x) == k then [x] else []) + WithKey(key, sorted, k) {
      WithKeyCons(key, x, sorted, k);
    }
  }

  lemma InsertBehind(key: Issue -> int, x: Issue, sorted: seq<Issue>, rest: seq<Issue>)
    requires SortedDescending(key, sorted)
    requires |sorted| > 0 && key(x) < key(sorted[0])
    requires multiset(rest) == multiset(sorted[1..]) + multiset{x}
    requires SortedDescending(key, rest)
    requires forall k :: WithKey(key, rest, k) == (if key(x) == k then [x] else []) + WithKey(key, sorted[1..], k)
    ensures multiset([sorted[0]] + rest) == multiset(sorted) + multiset{x}
    ensures SortedDescending(key, [sorted[0]] + rest)
    ensures forall k :: WithKey(key, [sorted[0]] + rest, k)
                        == (if key(x) == k then [x] else []) + WithKey(key, sorted, k)
  {
    var y := sorted[0];
    assert sorted == [y] + sorted[1..];
    InsertBehindSorted(key, x, sorted, rest);
    forall k ensures WithKey(key, [y] + rest, k) == (if key(x) == k then [x] else []) + WithKey(key, sorted, k) {
      InsertBehindStable(key, x, sorted, rest, k);
    }
    assert multiset([y] + rest) == multiset{y} + multiset(rest);
  }

  lemma InsertBehindSorted(key: Issue -> int, x: Issue, sorted: seq<Issue>, rest: seq<Issue>)
    requires SortedDescending(key, sorted)
    requires |sorted| > 0 && key(x) < key(sorted[0])
    requires multiset(rest) == multiset(sorted[1..]) + multiset{x}
    requires SortedDescending(key, rest)
    ensures SortedDescending(key, [sorted[0]] + rest)
  {
    var y := sorted[0];
    forall j | 0 <= j < |rest| ensures key(rest[j]) <= key(y) {
      assert rest[j] in multiset(rest);
      if rest[j] != x {
        assert rest[j] in multiset(sorted[1..]);
        var i :| 0 <= i < |sorted[1..]| && sorted[1..][i] == rest[j];
        assert sorted[1..][i] == sorted[i + 1];
      }
    }
  }

  lemma InsertBehindStable(key: Issue -> int, x: Issue, sorted: seq<Issue>, rest: seq<Issue>, k: int)
    requires |sorted| > 0 && key(x) < key(sorted[0])
    requires WithKey(key, rest, k) == (if key(x) == k then [x] else []) + WithKey(key, sorted[1..], k)
    ensures WithKey(key, [sorted[0]] + rest, k) == (if key(x) == k then [x] else []) + WithKey(key, sorted, k)
  {
    var y := sorted[0];
    assert sorted == [y] + sorted[1..];
    WithKeyCons(key, y, rest, k);
    WithKeyCons(key, y, sorted[1..], k);
  }

  /** A stable sort by descending key, as `Array.prototype.sort` with the
      comparator `(a, b) => key(b) - key(a)`: sorted, a permutation of the
      input, and entries with equal keys keep their input order. */
  function SortDescendingBy(key: Issue -> int, xs: seq<Issue>): (r: seq<Issue>)
    ensures multiset(r) == multiset(xs)
    ensures forall s :: s in r <==> s in xs
    ensures SortedDescending(key, r)
    ensures forall k :: WithKey(key, r, k) == WithKey(key, xs, k)
  {
    if |xs| == 0 then []
    else
      var tail := SortDescendingBy(key, xs[1..]);
      var r := Insert(key, xs[0], tail);
      SortStep(key, xs, tail, r);
      r
  }

  lemma SortStep(key: Issue -> int, xs: seq<Issue>, tail: seq<Issue>, r: seq<Issue>)
    requires |xs| > 0
    requires multiset(tail) == multiset(xs[1..])
    requires forall k :: WithKey(key, tail, k) == WithKey(key, xs[1..], k)
    requires multiset(r) == multiset(tail) + multiset{xs[0]}
    requires forall k :: WithKey(key, r, k) == (if key(xs[0]) == k then [xs[0]] else []) + WithKey(key, tail, k)
    ensures multiset(r) == multiset(xs)
    ensures forall s :: s in r <==> s in xs
    ensures forall k :: WithKey(key, r, k) == WithKey(key, xs, k)
  {
    assert xs == [xs[0]] + xs[1..];
    assert multiset(xs) == multiset{xs[0]} + multiset(xs[1..]);
    forall k ensures WithKey(key, r, k) == WithKey(key, xs, k) {
      WithKeyCons(key, xs[0], xs[1..], k);
    }
    forall s ensures s in r <==> s in xs {
      assert s in r <==> s in multiset(r);
      assert s in xs <==> s in multiset(xs);
    }
  }

  /** The order `applyAllSuggestions` works in: by descending first-occurrence
      position in the pre-edit text. */
  function SortByPositionDescending(text: string, xs: seq<Issue>): seq<Issue>
  {
    SortDescendingBy(s => Position(text, s), xs)
  }

  /** The loop of `applyAllSuggestions`: skip inapplicable entries, otherwise
      replace the first occurrence in the running text. */
  function ReplaceEach(text: string, xs: seq<Issue>): string
    decreases |xs|
  {
    if |xs| == 0 then text
    else
      var next := if Applicable(xs[0]) then ReplaceFirst(text, xs[0].issue, xs[0].suggestion) else text;
      ReplaceEach(next, xs[1..])
  }

  /** The number of entries the loop does not skip. */
  function CountApplicable(xs: seq<Issue>): (n: nat)
    ensures n <= |xs|
  {
    if |xs| == 0 then 0
    else (if Applicable(xs[0]) then 1 else 0) + CountApplicable(xs[1..])
  }

  /** The count is the length exactly when no entry is skipped, and zero
      exactly when every entry is skipped. */
  lemma {:induction false} CountApplicableExtremes(xs: seq<Issue>)
    ensures CountApplicable(xs) == |xs| <==> forall i :: 0 <= i < |xs| ==> Applicable(xs[i])
    ensures CountApplicable(xs) == 0 <==> forall i :: 0 <= i < |xs| ==> !Applicable(xs[i])
  {
    if |xs| > 0 {
      CountApplicableExtremes(xs[1..]);
      assert forall i :: 1 <= i < |xs| ==> xs[i] == xs[1..][i - 1];
    }
  }

  /** What applying all suggestions does to the field. */
  datatype ApplyAllOutcome =
    | NothingToApply                               // empty list: nothing written, no event
    | AllWritten(newText: string, appliedCount: nat) // text written, one `input` event

  /** `applyAllSuggestions(element, suggestions)`. */
  function ApplyAllSuggestions(text: string, xs: seq<Issue>): (o: ApplyAllOutcome)
    ensures o.NothingToApply? <==> |xs| == 0
    ensures o.AllWritten? ==> o.appliedCount == CountApplicable(xs)
    ensures o.AllWritten? && (forall i :: 0 <= i < |xs| ==> !Applicable(xs[i])) ==> o.newText == text
  {
    if |xs| == 0 then NothingToApply
    else
      var sorted := SortByPositionDescending(text, xs);
      ReorderingKeepsCount(text, xs, sorted);
      AllWritten(ReplaceEach(text, sorted), CountApplicable(sorted))
  }

  lemma ReorderingKeepsCount(text: string, xs: seq<Issue>, ys: seq<Issue>)
    requires multiset(xs) == multiset(ys)
    ensures CountApplicable(ys) == CountApplicable(xs)
    ensures (forall i :: 0 <= i < |xs| ==> !Applicable(xs[i])) ==> ReplaceEach(text, ys) == text
  {
    CountPermutation(xs, ys);
    if forall i :: 0 <= i < |xs| ==> !Applicable(xs[i]) {
      forall i | 0 <= i < |ys| ensures !Applicable(ys[i]) {
        assert ys[i] in multiset(xs);
      }
      SkippedOnly(text, ys);
    }
  }

  lemma {:induction false} CountPermutation(xs: seq<Issue>, ys: seq<Issue>)
    requires multiset(xs) == multiset(ys)
    ensures CountApplicable(xs) == CountApplicable(ys)
    decreases |xs|
  {
    if |xs| == 0 {
      assert |ys| == |multiset(ys)| == 0;
    } else {
      var x := xs[0];
      assert x in multiset(ys);
      var i :| 0 <= i < |ys| && ys[i] == x;
      var ys' := ys[..i] + ys[i + 1..];
      RemoveSame(xs, ys, i);
      CountPermutation(xs[1..], ys');
      CountRemoveAt(ys, i);
    }
  }

  lemma RemoveSame(xs: seq<Issue>, ys: seq<Issue>, i: nat)
    requires multiset(xs) == multiset(ys)
    requires |xs| > 0 && i < |ys| && ys[i] == xs[0]
    ensures multiset(xs[1..]) == multiset(ys[..i] + ys[i + 1..])
  {
    var x := xs[0];
    assert ys == ys[..i] + [x] + ys[i + 1..];
    assert xs == [x] + xs[1..];
    assert multiset(ys) == multiset(ys[..i]) + multiset{x} + multiset(ys[i + 1..]);
    assert multiset(xs) == multiset{x} + multiset(xs[1..]);
    assert multiset(ys[..i] + ys[i + 1..]) == multiset(ys[..i]) + multiset(ys[i + 1..]);
    assert multiset(xs[1..]) == multiset(xs) - multiset{x};
    assert multiset(ys[..i]) + multiset(ys[i + 1..]) == multiset(ys) - multiset{x};
  }

  lemma CountRemoveAt(ys: seq<Issue>, i: nat)
    requires i < |ys|
    ensures CountApplicable(ys) == (if Applicable(ys[i]) then 1 else 0) + CountApplicable(ys[..i] + ys[i + 1..])
  {
    var pre, x, post := ys[..i], ys[i], ys[i + 1..];
    assert ys[i..] == [x] + post;
    assert ys == pre + ys[i..];
    CountSplit(pre, [x] + post);
    CountCons(x, post);
    CountSplit(pre, post);
  }

  lemma CountCons(x: Issue, xs: seq<Issue>)
    ensures CountApplicable([x] + xs) == (if Applicable(x) then 1 else 0) + CountApplicable(xs)
  {
    assert ([x] + xs)[1..] == xs;
  }

  lemma {:induction false} CountSplit(a: seq<Issue>, b: seq<Issue>)
    ensures CountApplicable(a + b) == CountApplicable(a) + CountApplicable(b)
    decreases |a|
  {
    if |a| == 0 {
      assert a + b == b;
    } else {
      assert (a + b)[1..] == a[1..] + b;
      CountSplit(a[1..], b);
    }
  }

  lemma {:induction false} SkippedOnly(text: string, xs: seq<Issue>)
    ensures (forall i :: 0 <= i < |xs| ==> !Applicable(xs[i])) ==> ReplaceEach(text, xs) == text
    decreases |xs|
  {
    if |xs| > 0 {
      SkippedOnly(text, xs[1..]);
    }
  }

  // ---------------------------------------------------------------------
  // Applying from the end equals replacing every span at once
  // ---------------------------------------------------------------------

  /** Replace `len` characters at `pos` by `rep`. */
  datatype Edit = Edit(pos: int, len: int, rep: string)

  /** Edits inside a text of length `n`, each lying wholly to the left of every edit listed before it. */
  predicate RightToLeft(n: nat, edits: seq<Edit>)
  {
    && (forall i :: 0 <= i < |edits| ==> 0 <= edits[i].pos && 0 <= edits[i].len && edits[i].pos + edits[i].len <= n)
    && (forall i, j :: 0 <= i < j < |edits| ==> edits[j].pos + edits[j].len <= edits[i].pos)
  }

  /** Every edit performed on the ORIGINAL positions, independently of the
      others: the rightmost span is cut out and the rest of the edits act on
      the untouched text before it. No searching is involved. */
  function ReplaceSpans(text: string, edits: seq<Edit>): string
    requires RightToLeft(|text|, edits)
    decreases |edits|
  {
    if |edits| == 0 then text
    else
      var e := edits[0];
      assert RightToLeft(e.pos, edits[1..]) by {
        assert forall i :: 0 <= i < |edits[1..]| ==> edits[1..][i] == edits[i + 1];
      }
      ReplaceSpans(text[..e.pos], edits[1..]) + e.rep + text[e.pos + e.len..]
  }

  /** The span each suggestion's first occurrence covers in the pre-edit text. */
  function SpansOf(text: string, xs: seq<Issue>): (edits: seq<Edit>)
    ensures |edits| == |xs|
    ensures forall i :: 0 <= i < |xs| ==>
              edits[i] == Edit(Position(text, xs[i]), |xs[i].issue|, xs[i].suggestion)
  {
    if |xs| == 0 then []
    else [Edit(Position(text, xs[0]), |xs[0].issue|, xs[0].suggestion)] + SpansOf(text, xs[1..])
  }

  /** The spans of the suggestions in the order `applyAllSuggestions` visits them. */
  function SortedSpans(text: string, xs: seq<Issue>): seq<Edit>
  {
    SpansOf(text, SortByPositionDescending(text, xs))
  }

  /** `edits` is how the loop will act on the first `b` characters of
      `text`: every entry is applicable, each edit replaces the first
      occurrence of its entry's issue text by its suggestion, and the edits
      run from right to left inside `text[..b]`. */
  predicate ReplacementPlan(text: string, b: nat, xs: seq<Issue>, edits: seq<Edit>)
  {
    && b <= |text|
    && |edits| == |xs|
    && (forall i :: 0 <= i < |xs| ==>
          && Applicable(xs[i])
          && IsFirstOccurrence(text, xs[i].issue, edits[i].pos)
          && edits[i].len == |xs[i].issue|
          && edits[i].rep == xs[i].suggestion)
    && RightToLeft(b, edits)
  }

  /** First occurrences of distinct suggestions do not overlap. */
  predicate DisjointFirstOccurrences(text: string, xs: seq<Issue>)
  {
    forall a, b :: a in xs && b in xs && a != b ==>
      Position(text, a) + |a.issue| <= Position(text, b) || Position(text, b) + |b.issue| <= Position(text, a)
  }

  /** The claim behind sorting from the end: when every suggestion is
      applicable, its issue text is present, no two first occurrences overlap
      and no suggestion is listed twice, `applyAllSuggestions` gives the text
      obtained by replacing every first occurrence at once. */
  lemma ApplyAllReplacesSpansAtOnce(text: string, xs: seq<Issue>)
    requires |xs| > 0
    requires forall s :: s in xs ==> Applicable(s) && Contains(text, s.issue)
    requires NoDuplicates(xs)
    requires DisjointFirstOccurrences(text, xs)
    ensures RightToLeft(|text|, SortedSpans(text, xs))
    ensures ApplyAllSuggestions(text, xs) == AllWritten(ReplaceSpans(text, SortedSpans(text, xs)), |xs|)
  {
    var sorted := SortByPositionDescending(text, xs);
    var edits := SortedSpans(text, xs);
    SortedFirstOccurrences(text, xs);
    assert ReplaceEach(text, sorted) == ReplaceSpans(text, edits) by {
      EditsOnWholeText(text, sorted, edits);
    }
    assert CountApplicable(sorted) == |xs| by {
      CountPermutation(xs, sorted);
      forall i | 0 <= i < |xs| ensures Applicable(xs[i]) {
        assert xs[i] in xs;
      }
      CountApplicableExtremes(xs);
    }
    assert ApplyAllSuggestions(text, xs) == AllWritten(ReplaceEach(text, sorted), CountApplicable(sorted));
  }

  /** Sorting present, pairwise disjoint, distinct suggestions by position
      from the end gives a replacement plan for the whole text. */
  lemma SortedFirstOccurrences(text: string, xs: seq<Issue>)
    requires forall s :: s in xs ==> Applicable(s) && Contains(text, s.issue)
    requires NoDuplicates(xs)
    requires DisjointFirstOccurrences(text, xs)
    ensures ReplacementPlan(text, |text|, SortByPositionDescending(text, xs), SortedSpans(text, xs))
  {
    var sorted := SortByPositionDescending(text, xs);
    var edits := SpansOf(text, sorted);
    forall i | 0 <= i < |sorted|
      ensures Applicable(sorted[i]) && IsFirstOccurrence(text, sorted[i].issue, edits[i].pos)
      ensures 0 <= edits[i].pos && edits[i].pos + edits[i].len <= |text|
    {
      assert sorted[i] in xs;
      IndexOfIsFirst(text, sorted[i].issue);
    }
    SortedPairsDisjoint(text, xs);
  }

  /** After sorting, every first occurrence ends before the one listed ahead of it begins. */
  lemma SortedPairsDisjoint(text: string, xs: seq<Issue>)
    requires forall s :: s in xs ==> Applicable(s)
    requires NoDuplicates(xs)
    requires DisjointFirstOccurrences(text, xs)
    ensures var sorted := SortByPositionDescending(text, xs);
            forall i, j :: 0 <= i < j < |sorted| ==>
              Position(text, sorted[j]) + |sorted[j].issue| <= Position(text, sorted[i])
  {
    var key := s => Position(text, s);
    var sorted := SortDescendingBy(key, xs);
    assert SortedDescending(key, sorted);
    PermutationNoDuplicates(xs, sorted);
    forall i, j | 0 <= i < j < |sorted|
      ensures Position(text, sorted[j]) + |sorted[j].issue| <= Position(text, sorted[i])
    {
      assert key(sorted[i]) >= key(sorted[j]);
      assert sorted[i] in xs && sorted[j] in xs;
      assert Applicable(sorted[i]);
    }
  }

  /** The text the loop carries to the right of the next edit once edit `e`
      is done: its suggestion, the untouched text after it up to `b`, then
      the tail. */
  function Carry(text: string, b: nat, tail: string, e: Edit): string
    requires 0 <= e.pos && 0 <= e.len && e.pos + e.len <= b <= |text|
  {
    e.rep + text[e.pos + e.len..b] + tail
  }

  /** The induction behind `ApplyAllReplacesSpansAtOnce`: working on the
      first `b` characters of the original text followed by any tail, each
      step of the loop finds its issue text exactly at its original first
      occurrence, because every later span lies to its left. */
  lemma {:induction false} SpansFollowOccurrences(text: string, b: nat, tail: string, xs: seq<Issue>, edits: seq<Edit>)
    requires ReplacementPlan(text, b, xs, edits)
    ensures ReplaceEach(text[..b] + tail, xs) == ReplaceSpans(text[..b], edits) + tail
    decreases |xs|
  {
    if |xs| > 0 {
      StepFacts(text, b, tail, xs, edits);
      SpansFollowOccurrences(text, edits[0].pos, Carry(text, b, tail, edits[0]), xs[1..], edits[1..]);
    }
  }

  /** `SpansFollowOccurrences` for the whole text and no tail. */
  lemma EditsOnWholeText(text: string, xs: seq<Issue>, edits: seq<Edit>)
    requires ReplacementPlan(text, |text|, xs, edits)
    ensures ReplaceEach(text, xs) == ReplaceSpans(text, edits)
  {
    assert text[..|text|] == text;
    assert text[..|text|] + [] == text;
    SpansFollowOccurrences(text, |text|, [], xs, edits);
  }

  /** One step of the induction: the loop and the simultaneous replacement
      both handle the rightmost edit and leave the same prefix and carry. */
  lemma StepFacts(text: string, b: nat, tail: string, xs: seq<Issue>, edits: seq<Edit>)
    requires |xs| > 0
    requires ReplacementPlan(text, b, xs, edits)
    ensures ReplacementPlan(text, edits[0].pos, xs[1..], edits[1..])
    ensures ReplaceEach(text[..b] + tail, xs)
            == ReplaceEach(text[..edits[0].pos] + Carry(text, b, tail, edits[0]), xs[1..])
    ensures ReplaceSpans(text[..b], edits) + tail
            == ReplaceSpans(text[..edits[0].pos], edits[1..]) + Carry(text, b, tail, edits[0])
  {
    RestOfPlan(text, b, xs, edits);
    FirstStep(text, b, tail, xs, edits[0]);
    PeelWithTail(text, b, tail, edits);
  }

  /** One step of the loop over an applicable entry. */
  lemma ReplaceEachApplies(text: string, xs: seq<Issue>, next: string)
    requires |xs| > 0 && Applicable(xs[0])
    requires next == ReplaceFirst(text, xs[0].issue, xs[0].suggestion)
    ensures ReplaceEach(text, xs) == ReplaceEach(next, xs[1..])
  {
  }

  /** Dropping the rightmost edit leaves a plan for the text before it. */
  lemma RestOfPlan(text: string, b: nat, xs: seq<Issue>, edits: seq<Edit>)
    requires |xs| > 0
    requires ReplacementPlan(text, b, xs, edits)
    ensures ReplacementPlan(text, edits[0].pos, xs[1..], edits[1..])
  {
    assert IsFirstOccurrence(text, xs[0].issue, edits[0].pos);
    assert forall i :: 0 <= i < |xs| - 1 ==> xs[1..][i] == xs[i + 1] && edits[1..][i] == edits[i + 1];
  }

  /** The loop's first step on `text[..b] + tail` replaces the first
      occurrence, where edit `e` sits, and leaves the prefix before it untouched. */
  lemma FirstStep(text: string, b: nat, tail: string, xs: seq<Issue>, e: Edit)
    requires b <= |text|
    requires |xs| > 0 && Applicable(xs[0])
    requires IsFirstOccurrence(text, xs[0].issue, e.pos)
    requires e.len == |xs[0].issue| && e.rep == xs[0].suggestion && e.pos + e.len <= b
    ensures ReplaceEach(text[..b] + tail, xs) == ReplaceEach(text[..e.pos] + Carry(text, b, tail, e), xs[1..])
  {
    ReplaceFirstInPrefix(text, b, tail, xs[0], e);
    ReplaceEachApplies(text[..b] + tail, xs, text[..e.pos] + Carry(text, b, tail, e));
  }

  /** Peeling the rightmost edit off a list, with a tail carried along. */
  lemma PeelWithTail(text: string, b: nat, tail: string, edits: seq<Edit>)
    requires b <= |text|
    requires |edits| > 0 && RightToLeft(b, edits)
    requires RightToLeft(edits[0].pos, edits[1..])
    ensures ReplaceSpans(text[..b], edits) + tail
            == ReplaceSpans(text[..edits[0].pos], edits[1..]) + Carry(text, b, tail, edits[0])
  {
    Peel(text, b, edits);
    Regroup(text, b, tail, edits[0], ReplaceSpans(text[..b], edits), ReplaceSpans(text[..edits[0].pos], edits[1..]));
  }

  lemma Regroup(text: string, b: nat, tail: string, e: Edit, whole: string, done: string)
    requires 0 <= e.pos && 0 <= e.len && e.pos + e.len <= b <= |text|
    requires whole == done + e.rep + text[e.pos + e.len..b]
    ensures whole + tail == done + Carry(text, b, tail, e)
  {
  }

  /** One unfolding of `ReplaceSpans` on a prefix of the text. */
  lemma Peel(text: string, b: nat, edits: seq<Edit>)
    requires b <= |text|
    requires |edits| > 0 && RightToLeft(b, edits)
    requires RightToLeft(edits[0].pos, edits[1..])
    ensures ReplaceSpans(text[..b], edits)
            == ReplaceSpans(text[..edits[0].pos], edits[1..]) + edits[0].rep + text[edits[0].pos + edits[0].len..b]
  {
    var e := edits[0];
    assert text[..b][..e.pos] == text[..e.pos];
    assert text[..b][e.pos + e.len..] == text[e.pos + e.len..b];
  }

  /** Replacing inside `text[..b] + tail` the issue text of `x`, whose first
      occurrence in `text` is where edit `e` sits, cuts out exactly that occurrence. */
  lemma ReplaceFirstInPrefix(text: string, b: nat, tail: string, x: Issue, e: Edit)
    requires b <= |text|
    requires IsFirstOccurrence(text, x.issue, e.pos)
    requires e.len == |x.issue| && e.rep == x.suggestion && e.pos + e.len <= b
    ensures ReplaceFirst(text[..b] + tail, x.issue, x.suggestion) == text[..e.pos] + Carry(text, b, tail, e)
  {
    var cur := text[..b] + tail;
    FirstOccurrenceInPrefix(text, b, tail, x.issue, e.pos);
    assert ReplaceFirst(cur, x.issue, x.suggestion) == cur[..e.pos] + x.suggestion + cur[e.pos + e.len..];
    SpliceInPrefix(text, b, tail, e);
  }

  /** Splicing at edit `e` inside `text[..b] + tail` keeps `text[..e.pos]` and carries the rest. */
  lemma SpliceInPrefix(text: string, b: nat, tail: string, e: Edit)
    requires 0 <= e.pos && 0 <= e.len && e.pos + e.len <= b <= |text|
    ensures var cur := text[..b] + tail;
            cur[..e.pos] + e.rep + cur[e.pos + e.len..] == text[..e.pos] + Carry(text, b, tail, e)
  {
    var cur := text[..b] + tail;
    assert cur[..e.pos] == text[..e.pos];
    assert cur[e.pos + e.len..] == text[e.pos + e.len..b] + tail;
  }

  /** A first occurrence ending by `b` is still the first one in `text[..b] + tail`. */
  lemma FirstOccurrenceInPrefix(text: string, b: nat, tail: string, sub: string, p: nat)
    requires b <= |text|
    requires IsFirstOccurrence(text, sub, p)
    requires p + |sub| <= b
    ensures IsFirstOccurrence(text[..b] + tail, sub, p)
  {
    var l := |sub|;
    var cur := text[..b] + tail;
    assert cur[p..p + l] == text[p..p + l];
    forall j | 0 <= j < p ensures !OccursAt(cur, sub, j) {
      assert !OccursAt(text, sub, j);
      assert cur[j..j + l] == text[j..j + l];
    }
  }

}
