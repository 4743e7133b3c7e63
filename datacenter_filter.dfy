/**
 * The datacenter filter (`_filter_datacenters`): keeps the datacenters
 * whose upper-cased string form is one of the comma-separated entries of
 * the upper-cased allow-list. The allow-list is the value of an
 * environment variable in the source; here it is a parameter.
 */
module DatacenterFilter {
  import opened Wrappers
  import opened Provider
  import opened Text

  /** The entries a configured allow-list stands for: upper-cased, comma-split, untrimmed. */
  function AllowEntries(allowList: string): seq<string>
  {
    Split(Upper(allowList), ',')
  }

  /** The datacenters of `dcs` whose upper-cased string form is in `entries`, in order. */
  function Select(dcs: seq<Datacenter>, entries: seq<string>): (r: seq<Datacenter>)
    ensures forall d :: d in r <==> d in dcs && Upper(d.id) in entries
    ensures |r| <= |dcs|
  {
    if dcs == [] then []
    else
      assert dcs == [dcs[0]] + dcs[1..];
      (if Upper(dcs[0].id) in entries then [dcs[0]] else []) + Select(dcs[1..], entries)
  }

  /** Selection keeps the relative order: it distributes over concatenation. */
  lemma {:induction false} SelectAppend(a: seq<Datacenter>, b: seq<Datacenter>, entries: seq<string>)
    ensures Select(a + b, entries) == Select(a, entries) + Select(b, entries)
  {
    if a != [] {
      var rest := Select(a[1..], entries);
      var head := if Upper(a[0].id) in entries then [a[0]] else [];
      assert (a + b)[0] == a[0];
      assert (a + b)[1..] == a[1..] + b;
      SelectAppend(a[1..], b, entries);
      calc {
        Select(a + b, entries);
        head + Select(a[1..] + b, entries);
        head + (rest + Select(b, entries));
        (head + rest) + Select(b, entries);
      }
    } else {
      assert a + b == b;
    }
  }

  /** `sub` can be obtained from `s` by deleting elements (order kept). */
  predicate IsSubsequence<T(==)>(sub: seq<T>, s: seq<T>)
  {
    if sub == [] then true
    else if s == [] then false
    else (sub[0] == s[0] && IsSubsequence(sub[1..], s[1..])) || IsSubsequence(sub, s[1..])
  }

  /** The selected datacenters form a subsequence of the input. */
  lemma {:induction false} SelectIsSubsequence(dcs: seq<Datacenter>, entries: seq<string>)
    ensures IsSubsequence(Select(dcs, entries), dcs)
  {
    if dcs != [] {
      var rest := Select(dcs[1..], entries);
      SelectIsSubsequence(dcs[1..], entries);
      if Upper(dcs[0].id) in entries {
        assert Select(dcs, entries) == [dcs[0]] + rest;
        assert ([dcs[0]] + rest)[1..] == rest;
      } else {
        assert Select(dcs, entries) == rest;
        if rest != [] {
          assert IsSubsequence(rest, dcs[1..]);
        }
      }
    }
  }

  /** Selecting with entries that list every datacenter keeps the list unchanged. */
  lemma {:induction false} SelectAll(dcs: seq<Datacenter>, entries: seq<string>)
    requires forall i :: 0 <= i < |dcs| ==> Upper(dcs[i].id) in entries
    ensures Select(dcs, entries) == dcs
  {
    if dcs != [] {
      SelectAll(dcs[1..], entries);
    }
  }

  /**
   * `_filter_datacenters`: an absent or empty allow-list (falsy in the
   * source) leaves the datacenters unchanged; otherwise exactly the listed
   * datacenters remain, in their original order.
   */
  function FilterDatacenters(dcs: seq<Datacenter>, allowList: Option<string>): (r: seq<Datacenter>)
    ensures (allowList.None? || allowList.value == "") ==> r == dcs
    ensures allowList.Some? && allowList.value != "" ==>
      forall d :: d in r <==> d in dcs && Upper(d.id) in AllowEntries(allowList.value)
    ensures |r| <= |dcs|
  {
    if allowList.Some? && allowList.value != "" then Select(dcs, AllowEntries(allowList.value))
    else dcs
  }

  /** An upper-cased name is in a list of upper-cased pieces iff one piece matches it ignoring case. */
  lemma {:induction false} InUpperEach(x: string, parts: seq<string>)
    ensures Upper(x) in UpperEach(parts) <==> exists e :: e in parts && Upper(e) == Upper(x)
  {
    if parts != [] {
      InUpperEach(x, parts[1..]);
      assert UpperEach(parts) == [Upper(parts[0])] + UpperEach(parts[1..]);
      assert forall e :: e in parts <==> e == parts[0] || e in parts[1..];
    }
  }

  /**
   * The comparison is case-insensitive on both sides: a datacenter is
   * listed iff some comma-separated entry of the allow-list equals its
   * string form up to case.
   */
  lemma ListedIffEntryMatches(id: string, allowList: string)
    ensures Upper(id) in AllowEntries(allowList)
        <==> exists e :: e in Split(allowList, ',') && Upper(e) == Upper(id)
  {
    SplitUpper(allowList, ',');
    InUpperEach(id, Split(allowList, ','));
  }

  /** With `WA1,UC1` configured and WA1, UC1, NY1 available, only WA1 and UC1 are kept. */
  lemma ScenarioTwoOfThree()
    ensures FilterDatacenters(
              [Datacenter("WA1", []), Datacenter("UC1", []), Datacenter("NY1", [])],
              Some("WA1,UC1"))
         == [Datacenter("WA1", []), Datacenter("UC1", [])]
  {
    UpperUnchanged("WA1,UC1");
    SplitTwo("WA1,UC1", "WA1", "UC1");
    SelectScenario(AllowEntries("WA1,UC1"));
  }

  /** The selection step of `ScenarioTwoOfThree`, with the parsed entries as a parameter. */
  lemma SelectScenario(entries: seq<string>)
    requires entries == ["WA1", "UC1"]
    ensures Select([Datacenter("WA1", []), Datacenter("UC1", []), Datacenter("NY1", [])], entries)
         == [Datacenter("WA1", []), Datacenter("UC1", [])]
  {
    var wa, uc, ny := Datacenter("WA1", []), Datacenter("UC1", []), Datacenter("NY1", []);
    UpperUnchanged("NY1");
    UpperUnchanged("WA1");
    UpperUnchanged("UC1");
    assert Select([ny], entries) == [];
    assert [uc, ny][1..] == [ny];
    assert Select([uc, ny], entries) == [uc];
    assert [wa, uc, ny][1..] == [uc, ny];
  }

  /** Entries are not trimmed: a space after the comma makes the entry miss. */
  lemma ScenarioNoTrimming()
    ensures FilterDatacenters([Datacenter("UC1", [])], Some("wa1, uc1")) == []
  {
    UpperNoTrimming("wa1, uc1");
    SplitTwo("WA1, UC1", "WA1", " UC1");
    SelectNoTrimming(AllowEntries("wa1, uc1"));
  }

  /** The upper-casing step of `ScenarioNoTrimming`. */
  lemma UpperNoTrimming(s: string)
    requires s == "wa1, uc1"
    ensures Upper(s) == "WA1, UC1"
  {
  }

  /** The selection step of `ScenarioNoTrimming`, with the parsed entries as a parameter. */
  lemma SelectNoTrimming(entries: seq<string>)
    requires entries == ["WA1", " UC1"]
    ensures Select([Datacenter("UC1", [])], entries) == []
  {
    UpperUnchanged("UC1");
    assert "UC1" != " UC1" && "UC1" != "WA1";
  }

  /** A string with no lower-case letter is its own upper-case form. */
  lemma UpperUnchanged(s: string)
    requires forall i :: 0 <= i < |s| ==> !('a' <= s[i] <= 'z')
    ensures Upper(s) == s
  {
  }

  /** Splitting `a,b` where neither contains a comma gives the two pieces. */
  lemma SplitTwo(s: string, a: string, b: string)
    requires s == a + "," + b && ',' !in a && ',' !in b
    ensures Split(s, ',') == [a, b]
  {
    SplitJoin([a, b], ',');
  }
}
