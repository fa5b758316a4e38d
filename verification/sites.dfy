/**
 The list of sites on which the extension is switched off, as the options
 page edits it (`addSite`, `removeSite`). The stored list is a plain value:
 each operation takes the list read from storage and returns the list to
 write back.
 */
module Sites {
  import opened JsString
  import opened Seqs

  /** `sites.filter(s => s !== site)`. */
  function Remove(sites: seq<string>, site: string): (r: seq<string>)
    ensures forall s :: s in r <==> s in sites && s != site
    ensures |r| <= |sites|
  {
    if |sites| == 0 then []
    else if sites[0] == site then Remove(sites[1..], site)
    else [sites[0]] + Remove(sites[1..], site)
  }

  /** Removal keeps the order of what stays: it distributes over concatenation. */
  lemma {:induction false} RemoveAppend(a: seq<string>, b: seq<string>, site: string)
    ensures Remove(a + b, site) == Remove(a, site) + Remove(b, site)
    decreases |a|
  {
    if |a| > 0 {
      assert (a + b)[0] == a[0] && (a + b)[1..] == a[1..] + b;
      RemoveAppend(a[1..], b, site);
    } else {
      assert a + b == b;
    }
  }

  /** Removing a site that is not listed leaves the list as it is. */
  lemma {:induction false} RemoveAbsent(sites: seq<string>, site: string)
    requires site !in sites
    ensures Remove(sites, site) == sites
    decreases |sites|
  {
    if |sites| > 0 {
      assert site !in sites[1..];
      RemoveAbsent(sites[1..], site);
      assert sites == [sites[0]] + sites[1..];
    }
  }

  /** Removal keeps a duplicate-free list duplicate-free. */
  lemma {:induction false} RemoveKeepsNoDuplicates(sites: seq<string>, site: string)
    requires NoDuplicates(sites)
    ensures NoDuplicates(Remove(sites, site))
    decreases |sites|
  {
    if |sites| > 0 {
      RemoveKeepsNoDuplicates(sites[1..], site);
      assert sites[0] !in sites[1..];
    }
  }

  datatype AddStatus = EmptyEntry | AlreadyListed | Added

  /** `addSite`: the list to keep and how the entry was handled. */
  function AddSite(sites: seq<string>, input: string): (r: (seq<string>, AddStatus))
    // an entry that is empty once trimmed is refused
    ensures r.1 == EmptyEntry <==> TrimLower(input) == ""
    // so is one already listed
    ensures r.1 == AlreadyListed <==> TrimLower(input) != "" && TrimLower(input) in sites
    // a refused entry leaves the list alone; an accepted one goes at the end
    ensures r.1 != Added ==> r.0 == sites
    ensures r.1 == Added ==> r.0 == sites + [TrimLower(input)] && TrimLower(input) !in sites
  {
    var site := TrimLower(input);
    if site == "" then (sites, EmptyEntry)
    else if site in sites then (sites, AlreadyListed)
    else (sites + [site], Added)
  }

  /** Adding never introduces a duplicate. */
  lemma AddKeepsNoDuplicates(sites: seq<string>, input: string)
    requires NoDuplicates(sites)
    ensures NoDuplicates(AddSite(sites, input).0)
  {
    var (r, status) := AddSite(sites, input);
    if status == Added {
      var site := TrimLower(input);
      forall i, j | 0 <= i < j < |r| ensures r[i] != r[j] {
        if j == |sites| { assert r[i] == sites[i]; }
      }
    }
  }

  /** Adding a site and then removing it gives back the original list. */
  lemma AddThenRemove(sites: seq<string>, input: string)
    ensures AddSite(sites, input).1 == Added ==> Remove(AddSite(sites, input).0, TrimLower(input)) == sites
  {
    var site := TrimLower(input);
    if AddSite(sites, input).1 == Added {
      RemoveAppend(sites, [site], site);
      RemoveAbsent(sites, site);
      assert Remove([site], site) == [];
      assert sites + [] == sites;
    }
  }

  /** Entries differing only in surrounding blanks and letter case are the same site. */
  lemma NormalizeIgnoresCaseAndBlanks(input: string, pad1: string, pad2: string)
    requires forall k :: 0 <= k < |pad1| ==> IsWhiteSpace(pad1[k])
    requires forall k :: 0 <= k < |pad2| ==> IsWhiteSpace(pad2[k])
    requires Trimmed(input)
    ensures TrimLower(pad1 + input + pad2) == ToLower(input)
  {
    assert IsCoreOf(pad1 + input + pad2, input, |pad1|) by {
      assert (pad1 + input + pad2)[|pad1|..|pad1| + |input|] == input;
    }
    TrimUnique(pad1 + input + pad2, |pad1|, input);
  }
}
