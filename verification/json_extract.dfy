/**
 How the backend's JSON response test script reads a model reply: parse
 the trimmed reply and print each suggestion of an array; only if either
 throws, cut out the text matched by the regular expression
 `/\[[\s\S]*\]/` (from the first `[` that has a `]` after it to the last
 `]`) and parse that. `JSON.parse` is an input: `None` when it throws.
 */
module JsonExtract {
  import opened Wrappers
  import opened Json
  import opened JsString

  /** `s[i..j]` is a match of `/\[[\s\S]*\]/`: it starts with `[` and ends with `]`. */
  predicate IsArrayMatch(s: string, i: int, j: int)
  {
    0 <= i && i + 2 <= j <= |s| && s[i] == '[' && s[j - 1] == ']'
  }

  /** The match a JavaScript regular expression reports: the leftmost start
      and, the `*` being greedy, the longest match from there. */
  function ArrayMatch(s: string): (m: Option<(nat, nat)>)
    ensures m.None? <==> forall i, j :: !IsArrayMatch(s, i, j)
    ensures m.Some? ==> IsArrayMatch(s, m.value.0, m.value.1)
    ensures m.Some? ==> forall i, j :: IsArrayMatch(s, i, j) ==>
                          m.value.0 < i || (m.value.0 == i && j <= m.value.1)
  {
    if '[' !in s then None
    else
      var i := FirstIndex(s, '[');
      if ']' !in s[i + 1..] then
        NoCloseAfterFirstOpen(s, i);
        None
      else
        var j := LastIndex(s, ']');
        assert j > i by {
          var k :| 0 <= k < |s[i + 1..]| && s[i + 1..][k] == ']';
          assert s[i + 1 + k] == ']';
        }
        LeftmostLongest(s, i, j);
        assert IsArrayMatch(s, i, j + 1);
        Some((i, j + 1))
  }

  /** With no `]` after the first `[`, nothing matches. */
  lemma NoCloseAfterFirstOpen(s: string, i: nat)
    requires i < |s| && s[i] == '[' && '[' !in s[..i] && ']' !in s[i + 1..]
    ensures forall a, b :: !IsArrayMatch(s, a, b)
  {
    forall a, b ensures !IsArrayMatch(s, a, b) {
      if 0 <= a < i { assert s[..i][a] == s[a]; }
      if i + 1 <= b - 1 < |s| { assert s[i + 1..][b - 1 - (i + 1)] == s[b - 1]; }
    }
  }

  /** The first `[` and the last `]` after it bound every other match. */
  lemma LeftmostLongest(s: string, i: nat, j: nat)
    requires i < j < |s| && s[i] == '[' && '[' !in s[..i] && s[j] == ']' && ']' !in s[j + 1..]
    ensures forall a, b :: IsArrayMatch(s, a, b) ==> i < a || (i == a && b <= j + 1)
  {
    forall a | 0 <= a < i ensures s[a] != '[' { assert s[..i][a] == s[a]; }
    forall k | j < k < |s| ensures s[k] != ']' { assert s[j + 1..][k - (j + 1)] == s[k]; }
  }

  /** `responseText.match(/\[[\s\S]*\]/)?.[0]`. */
  function ArrayCandidate(s: string): (c: Option<string>)
    ensures c.Some? <==> exists i, j :: IsArrayMatch(s, i, j)
    ensures c.Some? ==> |c.value| >= 2 && c.value[0] == '[' && c.value[|c.value| - 1] == ']'
    ensures c.Some? ==> Contains(s, c.value)
  {
    match ArrayMatch(s)
    case None => None
    case Some((i, j)) =>
      assert s[i..j][0] == s[i] && s[i..j][j - i - 1] == s[j - 1];
      assert OccursAt(s, s[i..j], i);
      Some(s[i..j])
  }

  /** Template-literal conversion (`${v}`) of a parsed value throws a
      TypeError on an object with its own `toString` property: a parsed
      value is never callable, so neither that property nor the inherited
      `valueOf` yields a primitive. An array converts by joining its
      elements, so it throws when one of them does (`null` joins as "").
      Every other value converts. */
  predicate ConversionThrows(v: Json)
    decreases v
  {
    match v
    case JArray(items) => exists k :: 0 <= k < |items| && ConversionThrows(items[k])
    case JObject(fields) => Property(fields, "toString").Some?
    case _ => false
  }

  /** The object's `key` property is present and cannot be printed. */
  predicate FieldThrows(fields: seq<(string, Json)>, key: string)
  {
    Property(fields, key).Some? && ConversionThrows(Property(fields, key).value)
  }

  /** Printing one element of a parsed array throws: reading a property of
      `null` does, and so does printing an `issue`, `type`, `explanation` or
      `suggestion` property that cannot be converted. A property missing
      from an object, or read from another primitive or from an array, is
      `undefined` and prints. */
  predicate PrintThrows(e: Json)
  {
    || e.JNull?
    || (e.JObject? && (|| FieldThrows(e.fields, "issue") || FieldThrows(e.fields, "type")
                       || FieldThrows(e.fields, "explanation") || FieldThrows(e.fields, "suggestion")))
  }

  /** The first `try` runs to its end: the trimmed reply parses and, when it
      is an array, printing every element goes through. Anything else lands
      in the `catch`, which tries the extraction. */
  predicate FirstTrySucceeds(first: Option<Json>)
  {
    match first
    case None => false
    case Some(JArray(items)) => PrintsAll(items)
    case Some(_) => true
  }

  /** `suggestions.forEach` prints every element without throwing. */
  predicate PrintsAll(items: seq<Json>)
  {
    forall k :: 0 <= k < |items| ==> !PrintThrows(items[k])
  }

  /** What the script reports about a reply. */
  datatype Report =
    | ParsedArray(items: seq<Json>)               // the trimmed reply is a JSON array
    | ParsedNotArray(value: Json)                 // the trimmed reply is JSON, but not an array
    | ExtractedParsed(candidate: string, value: Json)
    | ExtractedUnparsable(candidate: string)      // the cut-out text does not parse either
    | NoArrayFound                                // nothing to cut out

  function TestJsonResponse(reply: string, parse: string -> Option<Json>): (r: Report)
    // a reply that parses and prints as a whole is reported as it is, never cut down or coerced
    ensures FirstTrySucceeds(parse(Trim(reply))) ==>
              match parse(Trim(reply)).value
              case JArray(items) => r == ParsedArray(items)
              case v => r == ParsedNotArray(v)
    // a reply that does not parse always goes to the extraction
    ensures parse(Trim(reply)).None? ==> !r.ParsedArray? && !r.ParsedNotArray?
    // an array reply with an element that does not print goes there too
    ensures parse(Trim(reply)).Some? && parse(Trim(reply)).value.JArray? &&
            !PrintsAll(parse(Trim(reply)).value.items) ==>
              !r.ParsedArray? && !r.ParsedNotArray?
    // and extraction happens only in those cases
    ensures (r.ExtractedParsed? || r.ExtractedUnparsable? || r.NoArrayFound?) <==> !FirstTrySucceeds(parse(Trim(reply)))
    ensures r.NoArrayFound? <==> !FirstTrySucceeds(parse(Trim(reply))) && ArrayCandidate(reply).None?
    ensures r.ExtractedParsed? ==>
              Some(r.candidate) == ArrayCandidate(reply) && parse(r.candidate) == Some(r.value)
    ensures r.ExtractedUnparsable? ==>
              Some(r.candidate) == ArrayCandidate(reply) && parse(r.candidate).None?
  {
    Conclude(parse(Trim(reply)), ArrayCandidate(reply), parse)
  }

  /** The report, from what `JSON.parse` made of the trimmed reply and from
      the text the regular expression cut out. */
  function Conclude(first: Option<Json>, candidate: Option<string>, parse: string -> Option<Json>): (r: Report)
    ensures FirstTrySucceeds(first) ==>
              match first.value
              case JArray(items) => r == ParsedArray(items)
              case v => r == ParsedNotArray(v)
    ensures (r.ExtractedParsed? || r.ExtractedUnparsable? || r.NoArrayFound?) <==> !FirstTrySucceeds(first)
    ensures r.NoArrayFound? <==> !FirstTrySucceeds(first) && candidate.None?
    ensures r.ExtractedParsed? ==> Some(r.candidate) == candidate && parse(r.candidate) == Some(r.value)
    ensures r.ExtractedUnparsable? ==> Some(r.candidate) == candidate && parse(r.candidate).None?
  {
    if FirstTrySucceeds(first) then
      match first.value
      case JArray(items) => ParsedArray(items)
      case v => ParsedNotArray(v)
    else
      match candidate
      case None => NoArrayFound
      case Some(text) =>
        match parse(text)
        case Some(v) => ExtractedParsed(text, v)
        case None => ExtractedUnparsable(text)
  }

  /** A reply that is a bracketed list between blanks is read as the same
      array either way: directly when its elements print, and through the
      extraction, which cuts out exactly the list, when one of them does not. */
  lemma ListReplyReadEitherWay(pad1: string, list: string, pad2: string, parse: string -> Option<Json>)
    requires forall k :: 0 <= k < |pad1| ==> IsWhiteSpace(pad1[k])
    requires forall k :: 0 <= k < |pad2| ==> IsWhiteSpace(pad2[k])
    requires |list| >= 2 && list[0] == '[' && list[|list| - 1] == ']'
    ensures parse(list).Some? && parse(list).value.JArray? ==>
              var items := parse(list).value.items;
              TestJsonResponse(pad1 + list + pad2, parse)
                == if PrintsAll(items) then ParsedArray(items)
                   else ExtractedParsed(list, JArray(items))
  {
    PaddedList(pad1, list, pad2);
    ReadEitherWay(pad1 + list + pad2, list, parse);
  }

  /** The same for any reply that trims to what the extraction cuts out. */
  lemma ReadEitherWay(reply: string, list: string, parse: string -> Option<Json>)
    requires Trim(reply) == list && ArrayCandidate(reply) == Some(list)
    ensures parse(list).Some? && parse(list).value.JArray? ==>
              var items := parse(list).value.items;
              TestJsonResponse(reply, parse)
                == if PrintsAll(items) then ParsedArray(items) else ExtractedParsed(list, JArray(items))
  {
    assert TestJsonResponse(reply, parse) == Conclude(parse(list), Some(list), parse);
    if parse(list).Some? && parse(list).value.JArray? {
      ConcludeEitherWay(parse(list).value.items, list, parse);
    }
  }

  /** The core of the above, once trimming and the extraction agree on the list. */
  lemma ConcludeEitherWay(items: seq<Json>, list: string, parse: string -> Option<Json>)
    requires parse(list) == Some(JArray(items))
    ensures Conclude(Some(JArray(items)), Some(list), parse)
              == if PrintsAll(items) then ParsedArray(items) else ExtractedParsed(list, JArray(items))
  {
  }

  /** Blanks around a bracketed list: trimming and the extraction both give the list. */
  lemma PaddedList(pad1: string, list: string, pad2: string)
    requires forall k :: 0 <= k < |pad1| ==> IsWhiteSpace(pad1[k])
    requires forall k :: 0 <= k < |pad2| ==> IsWhiteSpace(pad2[k])
    requires |list| >= 2 && list[0] == '[' && list[|list| - 1] == ']'
    ensures Trim(pad1 + list + pad2) == list
    ensures ArrayCandidate(pad1 + list + pad2) == Some(list)
  {
    var reply := pad1 + list + pad2;
    assert IsCoreOf(reply, list, |pad1|) by {
      assert reply[|pad1|..|pad1| + |list|] == list;
    }
    TrimUnique(reply, |pad1|, list);
    assert '[' !in pad1 by {
      forall k | 0 <= k < |pad1| ensures pad1[k] != '[' { assert IsWhiteSpace(pad1[k]); }
    }
    assert ']' !in pad2 by {
      forall k | 0 <= k < |pad2| ensures pad2[k] != ']' { assert IsWhiteSpace(pad2[k]); }
    }
    CandidateInProse(pad1, list, pad2);
  }

  /** Prose around a bracketed list does not hide it: the candidate is
      exactly the list when the prose holds no brackets. */
  lemma CandidateInProse(before: string, list: string, after: string)
    requires |list| >= 2 && list[0] == '[' && list[|list| - 1] == ']'
    requires '[' !in before && ']' !in after
    ensures ArrayCandidate(before + list + after) == Some(list)
  {
    var s := before + list + after;
    var i, j := |before|, |before| + |list|;
    assert s[i..j] == list;
    assert IsArrayMatch(s, i, j);
    var m := ArrayMatch(s);
    var (a, b) := m.value;
    forall k | 0 <= k < i ensures s[k] != '[' { assert s[k] == before[k]; }
    forall k | j <= k < |s| ensures s[k] != ']' { assert s[k] == after[k - j]; }
    assert a == i && b == j;
  }
}
