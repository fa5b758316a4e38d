/**
 The JavaScript string primitives the extension and the backend rely on:
 `indexOf`, `includes`, `replace` with a string pattern, `trim`,
 `toLowerCase`, `split` on a one-character separator and `join`.
 A string is a sequence of characters; `replace` is the literal replacement
 (no `$` patterns in the replacement text).
 */
module JsString {

  /** `sub` occurs in `text` starting at index `i`. */
  predicate OccursAt(text: string, sub: string, i: int)
  {
    0 <= i && i + |sub| <= |text| && text[i..i + |sub|] == sub
  }

  /** The least index `>= from` where `sub` occurs, or -1. */
  function IndexOfFrom(text: string, sub: string, from: nat): (r: int)
    ensures r == -1 || (from <= r && OccursAt(text, sub, r))
    ensures r == -1 ==> forall j :: from <= j ==> !OccursAt(text, sub, j)
    ensures r != -1 ==> forall j :: from <= j < r ==> !OccursAt(text, sub, j)
    decreases |text| - from
  {
    if from + |sub| > |text| then -1
    else if OccursAt(text, sub, from) then from
    else IndexOfFrom(text, sub, from + 1)
  }

  /** `text.indexOf(sub, from)`: the search starts at `from` clamped to `[0, |text|]`. */
  function IndexOf(text: string, sub: string, from: int): (r: int)
    ensures var start := Clamp(from, |text|);
            && (r == -1 <==> forall j :: start <= j ==> !OccursAt(text, sub, j))
            && (r != -1 ==> start <= r && OccursAt(text, sub, r))
            && (r != -1 ==> forall j :: start <= j < r ==> !OccursAt(text, sub, j))
  {
    IndexOfFrom(text, sub, Clamp(from, |text|))
  }

  function Clamp(i: int, hi: nat): (c: nat)
    ensures c <= hi
    ensures 0 <= i <= hi ==> c == i
  {
    if i < 0 then 0 else if i > hi then hi else i
  }

  /** `text.includes(sub)`. */
  function Contains(text: string, sub: string): (b: bool)
    ensures b <==> exists i :: OccursAt(text, sub, i)
  {
    IndexOf(text, sub, 0) != -1
  }

  /** `p` is where `sub` first occurs in `text`. */
  predicate IsFirstOccurrence(text: string, sub: string, p: int)
  {
    OccursAt(text, sub, p) && forall j :: 0 <= j < p ==> !OccursAt(text, sub, j)
  }

  /** `text.replace(pattern, replacement)` for a string pattern: only the
      first occurrence is replaced; an absent pattern leaves the text as is. */
  function ReplaceFirst(text: string, pattern: string, replacement: string): (r: string)
    ensures !Contains(text, pattern) ==> r == text
    ensures forall p :: IsFirstOccurrence(text, pattern, p)
                        ==> r == text[..p] + replacement + text[p + |pattern|..]
  {
    var p := IndexOf(text, pattern, 0);
    if p == -1 then text
    else
      assert forall q :: IsFirstOccurrence(text, pattern, q) ==> q == p;
      text[..p] + replacement + text[p + |pattern|..]
  }

  /** The first occurrence of a present pattern is what `indexOf` finds. */
  lemma IndexOfIsFirst(text: string, sub: string)
    requires Contains(text, sub)
    ensures IsFirstOccurrence(text, sub, IndexOf(text, sub, 0))
  {
  }

  /** A pattern with a character the text lacks does not occur in it. */
  lemma NotContainsByChar(text: string, sub: string, c: char)
    requires c in sub && c !in text
    ensures !Contains(text, sub)
  {
  }

  /** A text built around a pattern contains it. */
  lemma ContainsAround(pre: string, sub: string, post: string)
    ensures Contains(pre + sub + post, sub)
  {
    assert (pre + sub + post)[|pre|..|pre| + |sub|] == sub;
    assert OccursAt(pre + sub + post, sub, |pre|);
  }

  /** The characters `String.prototype.trim` removes: ECMAScript WhiteSpace
      (including every space separator) and LineTerminator. */
  predicate IsWhiteSpace(c: char)
  {
    || c == '\t' || c == '\n' || c == '\U{000B}' || c == '\U{000C}' || c == '\r' || c == ' '
    || c == '\U{00A0}' || c == '\U{1680}' || ('\U{2000}' <= c <= '\U{200A}')
    || c == '\U{2028}' || c == '\U{2029}' || c == '\U{202F}' || c == '\U{205F}'
    || c == '\U{3000}' || c == '\U{FEFF}'
  }

  function TrimStart(s: string): (r: string)
    ensures |r| <= |s| && r == s[|s| - |r|..]
    ensures forall i :: 0 <= i < |s| - |r| ==> IsWhiteSpace(s[i])
    ensures r == [] || !IsWhiteSpace(r[0])
  {
    if |s| > 0 && IsWhiteSpace(s[0]) then
      var r := TrimStart(s[1..]);
      assert forall i :: 1 <= i < |s| - |r| ==> s[i] == s[1..][i - 1];
      r
    else s
  }

  function TrimEnd(s: string): (r: string)
    ensures |r| <= |s| && r == s[..|r|]
    ensures forall i :: |r| <= i < |s| ==> IsWhiteSpace(s[i])
    ensures r == [] || !IsWhiteSpace(r[|r| - 1])
  {
    if |s| > 0 && IsWhiteSpace(s[|s| - 1]) then TrimEnd(s[..|s| - 1]) else s
  }

  /** `r` is the run `s[i..i + |r|]` and everything of `s` around it is white space. */
  predicate IsCoreOf(s: string, r: string, i: int)
  {
    && 0 <= i <= |s| - |r| && r == s[i..i + |r|]
    && (forall k :: 0 <= k < i ==> IsWhiteSpace(s[k]))
    && (forall k :: i + |r| <= k < |s| ==> IsWhiteSpace(s[k]))
  }

  /** `s.trim()`: the run of `s` that neither starts nor ends with white space,
      with only white space around it. */
  function Trim(s: string): (r: string)
    ensures exists i :: IsCoreOf(s, r, i)
    ensures Trimmed(r)
  {
    var t := TrimStart(s);
    var r := TrimEnd(t);
    CoreOfBoth(s, t, r);
    r
  }

  /** Neither end of `r` is white space. */
  predicate Trimmed(r: string)
  {
    r == [] || (!IsWhiteSpace(r[0]) && !IsWhiteSpace(r[|r| - 1]))
  }

  /** A string has only one trimmed core, so `Trim` is determined by it. */
  lemma TrimUnique(s: string, i: int, r: string)
    requires IsCoreOf(s, r, i) && Trimmed(r)
    ensures Trim(s) == r
  {
    var t := Trim(s);
    var j :| IsCoreOf(s, t, j);
    CoreUnique(s, r, i, t, j);
  }

  lemma CoreUnique(s: string, r1: string, i1: int, r2: string, i2: int)
    requires IsCoreOf(s, r1, i1) && Trimmed(r1)
    requires IsCoreOf(s, r2, i2) && Trimmed(r2)
    ensures r1 == r2
  {
    if r1 != [] && r2 != [] {
      assert s[i1] == r1[0] && s[i2] == r2[0];
      assert i1 == i2;
      assert s[i1 + |r1| - 1] == r1[|r1| - 1] && s[i2 + |r2| - 1] == r2[|r2| - 1];
      assert |r1| == |r2|;
    }
  }

  /** Trimming the front and then the back of `s` leaves a core of `s`. */
  lemma CoreOfBoth(s: string, t: string, r: string)
    requires |t| <= |s| && t == s[|s| - |t|..]
    requires forall i :: 0 <= i < |s| - |t| ==> IsWhiteSpace(s[i])
    requires |r| <= |t| && r == t[..|r|]
    requires forall i :: |r| <= i < |t| ==> IsWhiteSpace(t[i])
    ensures IsCoreOf(s, r, |s| - |t|)
  {
    var i := |s| - |t|;
    forall k | i + |r| <= k < |s| ensures IsWhiteSpace(s[k]) {
      assert s[k] == t[k - i];
    }
  }

  /** `c.toLowerCase()` on the ASCII range. */
  function LowerChar(c: char): char
  {
    if 'A' <= c <= 'Z' then (c as int + 32) as char else c
  }

  /** `s.toLowerCase()`, ASCII letters only. */
  function ToLower(s: string): (r: string)
    ensures |r| == |s|
    ensures forall i :: 0 <= i < |s| ==> r[i] == LowerChar(s[i])
  {
    seq(|s|, i requires 0 <= i < |s| => LowerChar(s[i]))
  }

  /** `s.trim().toLowerCase()`: how a typed entry is normalised before it is compared. */
  function TrimLower(s: string): string
  {
    ToLower(Trim(s))
  }

  /** `pieces.join(sep)`. */
  function Join(pieces: seq<string>, sep: string): string
  {
    if |pieces| == 0 then ""
    else if |pieces| == 1 then pieces[0]
    else pieces[0] + sep + Join(pieces[1..], sep)
  }

  /** `s.split(sep)` for a one-character separator: the maximal runs between
      separators, always at least one (possibly empty) piece. */
  function Split(s: string, sep: char): (pieces: seq<string>)
    ensures |pieces| >= 1
    ensures forall k :: 0 <= k < |pieces| ==> sep !in pieces[k]
    decreases |s|
  {
    if sep !in s then [s]
    else
      var i := FirstIndex(s, sep);
      [s[..i]] + Split(s[i + 1..], sep)
  }

  /** Index of the first `c` in `s`. */
  function FirstIndex(s: string, c: char): (i: nat)
    requires c in s
    ensures i < |s| && s[i] == c && c !in s[..i]
  {
    if s[0] == c then 0 else 1 + FirstIndex(s[1..], c)
  }

  /** Index of the last `c` in `s`. */
  function LastIndex(s: string, c: char): (i: nat)
    requires c in s
    ensures i < |s| && s[i] == c && c !in s[i + 1..]
  {
    if s[|s| - 1] == c then |s| - 1
    else
      assert c in s[..|s| - 1] by { assert s == s[..|s| - 1] + [s[|s| - 1]]; }
      var i := LastIndex(s[..|s| - 1], c);
      assert s[i + 1..] == s[..|s| - 1][i + 1..] + [s[|s| - 1]];
      i
  }

  /** Joining pieces free of the separator and splitting again gives the pieces back. */
  lemma {:induction false} SplitJoin(pieces: seq<string>, sep: char)
    requires |pieces| > 0
    requires forall k :: 0 <= k < |pieces| ==> sep !in pieces[k]
    ensures Split(Join(pieces, [sep]), sep) == pieces
    decreases |pieces|
  {
    if |pieces| > 1 {
      var p, rest := pieces[0], pieces[1..];
      assert Join(pieces, [sep]) == p + [sep] + Join(rest, [sep]);
      SplitAtFirst(p, sep, Join(rest, [sep]));
      SplitJoin(rest, sep);
      assert pieces == [p] + rest;
    }
  }

  /** Splitting `p + [sep] + t` where `p` has no separator cuts off `p`. */
  lemma SplitAtFirst(p: string, sep: char, t: string)
    requires sep !in p
    ensures Split(p + [sep] + t, sep) == [p] + Split(t, sep)
  {
    var s := p + [sep] + t;
    assert s[|p|] == sep && s[..|p|] == p;
    assert FirstIndex(s, sep) == |p|;
    assert s[|p| + 1..] == t;
  }
}
