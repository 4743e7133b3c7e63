/**
 * `_find_all_groups`: filter the datacenters, walk each one's group tree,
 * drop the datacenters that produced nothing, and merge the rest.
 */
module Inventory {
  import opened Wrappers
  import opened Provider
  import opened Text
  import opened DatacenterFilter
  import opened GroupWalker
  import opened Nesting
  import opened GroupMerge

  /** A walker map with its member lists read as host lists of server names. */
  function ToHosts(m: GroupMap): HostsMap
  {
    map k | k in m :: Atoms(m[k])
  }

  /**
   * The lifted map has the walker's keys; each host list is flat already,
   * so the merge's flattening keeps it as it is, and it holds exactly the
   * member names, in order.
   */
  lemma ToHostsFlat(m: GroupMap, k: string)
    ensures k in ToHosts(m) <==> k in m
    ensures k in m ==> Flatten(ToHosts(m)[k]) == ToHosts(m)[k] && Leaves(ToHosts(m)[k]) == m[k]
  {
    if k in m {
      AtomsFlat(m[k]);
    }
  }

  function HostsOf(walked: Option<GroupMap>): Option<HostsMap>
  {
    if walked.Some? then Some(ToHosts(walked.value)) else None
  }

  /** `[_find_groups_for_datacenter(dc) for dc in datacenters]` */
  function WalkAll(dcs: seq<Datacenter>): (r: seq<Option<HostsMap>>)
    ensures |r| == |dcs|
  {
    seq(|dcs|, i requires 0 <= i < |dcs| => HostsOf(Walk(dcs[i].id, dcs[i].groups)))
  }

  /** `[result for result in results if result]`: drops `None` and empty maps, keeps order. */
  function NonEmptyResults(results: seq<Option<HostsMap>>): (r: seq<HostsMap>)
    ensures forall i :: 0 <= i < |r| ==> r[i] != map[]
    ensures |r| <= |results|
  {
    if results == [] then []
    else
      var last := results[|results| - 1];
      var init := results[..|results| - 1];
      NonEmptyResults(init) + (if last.Some? && last.value != map[] then [last.value] else [])
  }

  lemma WalkAllSnoc(dcs: seq<Datacenter>, i: int)
    requires 0 <= i < |dcs|
    ensures WalkAll(dcs[..i + 1]) == WalkAll(dcs[..i]) + [HostsOf(Walk(dcs[i].id, dcs[i].groups))]
  {
    var left := WalkAll(dcs[..i + 1]);
    var right := WalkAll(dcs[..i]) + [HostsOf(Walk(dcs[i].id, dcs[i].groups))];
    assert |left| == |right|;
    forall j | 0 <= j < |left| ensures left[j] == right[j] {
      assert dcs[..i + 1][j] == dcs[j];
    }
  }

  /** Every result with `None` read as an empty map. */
  function Present(results: seq<Option<HostsMap>>): (r: seq<HostsMap>)
    ensures |r| == |results|
  {
    seq(|results|, i requires 0 <= i < |results| => if results[i].Some? then results[i].value else map[])
  }

  /** Dropping the empty results before merging changes nothing in the merge. */
  lemma {:induction false} DropEmptyKeepsMerge(results: seq<Option<HostsMap>>)
    ensures Merge(NonEmptyResults(results)) == Merge(Present(results))
  {
    if results != [] {
      var n := |results| - 1;
      var init := results[..n];
      var last := Present(results)[n];
      DropEmptyKeepsMerge(init);
      PresentSnoc(results);
      NonEmptySnoc(results);
      MergeSnoc(Present(init), last);
      var merged := Merge(Present(init));
      assert Merge(Present(results)) == AddGroups(merged, last, last.Keys);
      var kept := NonEmptyResults(init);
      if last == map[] {
        assert kept + [] == kept;
        assert NonEmptyResults(results) == kept;
        AddNothing(merged, last);
        assert Merge(Present(results)) == merged;
      } else {
        assert NonEmptyResults(results) == kept + [last];
        MergeSnoc(kept, last);
        assert Merge(kept + [last]) == AddGroups(merged, last, last.Keys);
      }
    }
  }

  lemma PresentSnoc(results: seq<Option<HostsMap>>)
    requires results != []
    ensures Present(results) == Present(results[..|results| - 1]) + [Present(results)[|results| - 1]]
  {
    var n := |results| - 1;
    assert Present(results)[..n] == Present(results[..n]);
    assert Present(results) == Present(results)[..n] + [Present(results)[n]];
  }

  lemma NonEmptySnoc(results: seq<Option<HostsMap>>)
    requires results != []
    ensures var last := Present(results)[|results| - 1];
      NonEmptyResults(results) == NonEmptyResults(results[..|results| - 1]) + (if last == map[] then [] else [last])
  {
  }

  /** What a datacenter contributes to the merge is its walk, `None` or not. */
  lemma PresentWalk(dcs: seq<Datacenter>, i: int)
    requires 0 <= i < |dcs|
    ensures Present(WalkAll(dcs))[i] == ToHosts(Collect(dcs[i].id, dcs[i].groups))
  {
    if Walk(dcs[i].id, dcs[i].groups).None? {
      assert ToHosts(map[]) == map[];
    }
  }

  /** Key `k`'s server names in one datacenter's walk: there are some exactly when the walk has the key. */
  function Hosted(d: Datacenter, k: string): (r: seq<V>)
    ensures r != [] <==> k in Collect(d.id, d.groups)
  {
    var walked := Collect(d.id, d.groups);
    if k in walked then
      CollectNonEmpty(d.id, d.groups, k);
      Atoms(walked[k])
    else []
  }

  /**
   * Key `k`'s server names from each datacenter's walk, concatenated in
   * datacenter order; server names only.
   */
  function DatacenterHosts(dcs: seq<Datacenter>, k: string): (r: seq<V>)
    ensures forall j :: 0 <= j < |r| ==> r[j].Atom?
  {
    if dcs == [] then []
    else DatacenterHosts(dcs[..|dcs| - 1], k) + Hosted(dcs[|dcs| - 1], k)
  }

  /** A key some datacenter's walk has gets at least that datacenter's server names. */
  lemma {:induction false} DatacenterHostsHas(dcs: seq<Datacenter>, k: string, i: int)
    requires 0 <= i < |dcs| && Hosted(dcs[i], k) != []
    ensures DatacenterHosts(dcs, k) != []
  {
    var n := |dcs| - 1;
    if i < n {
      assert dcs[..n][i] == dcs[i];
      DatacenterHostsHas(dcs[..n], k, i);
    }
  }

  lemma {:induction false} GatherWalks(dcs: seq<Datacenter>, k: string)
    ensures Gather(Present(WalkAll(dcs)), k) == DatacenterHosts(dcs, k)
  {
    if dcs != [] {
      var n := |dcs| - 1;
      var present := Present(WalkAll(dcs));
      assert present[..n] == Present(WalkAll(dcs[..n]));
      GatherWalks(dcs[..n], k);
      PresentWalk(dcs, n);
      var walked := Collect(dcs[n].id, dcs[n].groups);
      if k in walked {
        AtomsFlat(walked[k]);
      }
    }
  }

  /** The non-empty walk results of the selected datacenters, in datacenter order. */
  function Kept(dcs: seq<Datacenter>, allowList: Option<string>): seq<HostsMap>
  {
    NonEmptyResults(WalkAll(FilterDatacenters(dcs, allowList)))
  }

  /**
   * Merging the kept results in datacenter order puts under each key the
   * server names of that key from every selected datacenter, one of which
   * has the key.
   */
  lemma KeptHosts(dcs: seq<Datacenter>, allowList: Option<string>, k: string)
    requires k in Merge(Kept(dcs, allowList))
    ensures Merge(Kept(dcs, allowList))[k] == DatacenterHosts(FilterDatacenters(dcs, allowList), k)
    ensures DatacenterHosts(FilterDatacenters(dcs, allowList), k) != []
  {
    var selected := FilterDatacenters(dcs, allowList);
    var present := Present(WalkAll(selected));
    DropEmptyKeepsMerge(WalkAll(selected));
    MergeAt(present, k);
    GatherWalks(selected, k);
    var i :| 0 <= i < |present| && k in present[i];
    PresentWalk(selected, i);
    assert Hosted(selected[i], k) != [];
    DatacenterHostsHas(selected, k, i);
  }

  /**
   * The group map `_find_all_groups` returns when the kept results are
   * merged in datacenter order: every group has at least one host, and
   * every host is a server name.
   */
  function AllGroups(dcs: seq<Datacenter>, allowList: Option<string>): (r: HostsMap)
    ensures forall k :: k in r ==> r[k] != [] && forall j :: 0 <= j < |r[k]| ==> r[k][j].Atom?
  {
    var r := Merge(Kept(dcs, allowList));
    assert forall k :: k in r ==> r[k] != [] && forall j :: 0 <= j < |r[k]| ==> r[k][j].Atom? by {
      forall k | k in r ensures r[k] != [] && forall j :: 0 <= j < |r[k]| ==> r[k][j].Atom? {
        KeptHosts(dcs, allowList, k);
      }
    }
    r
  }

  /**
   * The inventory's keys are exactly the bare and datacenter-qualified
   * names of the readable, non-empty `default` groups of the selected
   * datacenters.
   */
  lemma AllGroupsKeys(dcs: seq<Datacenter>, allowList: Option<string>, k: string)
    ensures k in AllGroups(dcs, allowList) <==>
      exists d, g :: d in FilterDatacenters(dcs, allowList) && g in PostOrder(d.groups) && Writer(d.id, g, k)
  {
    var selected := FilterDatacenters(dcs, allowList);
    var present := Present(WalkAll(selected));
    DropEmptyKeepsMerge(WalkAll(selected));
    MergeAt(present, k);
    if k in AllGroups(dcs, allowList) {
      var i :| 0 <= i < |present| && k in present[i];
      PresentWalk(selected, i);
      CollectKeys(selected[i].id, selected[i].groups, k);
      var g :| g in PostOrder(selected[i].groups) && Writer(selected[i].id, g, k);
      assert selected[i] in selected;
    }
    if exists d, g :: d in selected && g in PostOrder(d.groups) && Writer(d.id, g, k) {
      var d, g :| d in selected && g in PostOrder(d.groups) && Writer(d.id, g, k);
      var i :| 0 <= i < |selected| && selected[i] == d;
      PresentWalk(selected, i);
      CollectKeys(d.id, d.groups, k);
      assert k in present[i];
    }
  }

  /**
   * Under each key the inventory holds that key's server names from every
   * selected datacenter, concatenated in datacenter order, without
   * deduplication.
   */
  lemma AllGroupsHosts(dcs: seq<Datacenter>, allowList: Option<string>, k: string)
    requires k in AllGroups(dcs, allowList)
    ensures AllGroups(dcs, allowList)[k] == DatacenterHosts(FilterDatacenters(dcs, allowList), k)
  {
    KeptHosts(dcs, allowList, k);
  }

  /**
   * `sorted(lst)` may merge the kept results in any order. Whatever the
   * order, the inventory has the same keys, and under each key the same
   * server names, as many times each, as the merge in datacenter order;
   * every group has at least one host and every host is a server name.
   */
  lemma SortedMerge(dcs: seq<Datacenter>, allowList: Option<string>, ordered: seq<HostsMap>, k: string)
    requires multiset(ordered) == multiset(Kept(dcs, allowList))
    ensures k in Merge(ordered) <==> k in AllGroups(dcs, allowList)
    ensures k in Merge(ordered) ==>
      multiset(Merge(ordered)[k]) == multiset(DatacenterHosts(FilterDatacenters(dcs, allowList), k))
    ensures k in Merge(ordered) ==>
      Merge(ordered)[k] != [] && forall j :: 0 <= j < |Merge(ordered)[k]| ==> Merge(ordered)[k][j].Atom?
  {
    MergePermutation(ordered, Kept(dcs, allowList), k);
    if k in Merge(ordered) {
      var hosts := Merge(ordered)[k];
      var expected := AllGroups(dcs, allowList)[k];
      AllGroupsHosts(dcs, allowList, k);
      assert multiset(hosts) == multiset(expected);
      assert |hosts| == |multiset(hosts)| == |multiset(expected)| == |expected|;
      forall j | 0 <= j < |hosts| ensures hosts[j].Atom? {
        assert hosts[j] in multiset(expected);
      }
    }
  }

  /**
   * `_find_all_groups`, with the datacenter list and the allow-list as
   * inputs. The kept results are merged in some order standing for
   * `sorted()`'s.
   */
  method FindAllGroups(dcs: seq<Datacenter>, allowList: Option<string>) returns (groups: HostsMap)
    ensures exists ordered :: multiset(ordered) == multiset(Kept(dcs, allowList)) && groups == Merge(ordered)
    ensures forall k :: k in groups <==> k in AllGroups(dcs, allowList)
    ensures forall k :: k in groups ==> multiset(groups[k]) == multiset(AllGroups(dcs, allowList)[k])
    ensures forall k :: k in groups ==> groups[k] != [] && forall j :: 0 <= j < |groups[k]| ==> groups[k][j].Atom?
  {
    var datacenters := FilterDatacenters(dcs, allowList);
    var results: seq<Option<HostsMap>> := [];
    for i := 0 to |datacenters|
      invariant results == WalkAll(datacenters[..i])
    {
      var walked := FindGroupsForDatacenter(datacenters[i]);
      results := results + [HostsOf(walked)];
      WalkAllSnoc(datacenters, i);
    }
    assert datacenters[..|datacenters|] == datacenters;
    var kept := NonEmptyResults(results);
    assert multiset(kept) == multiset(Kept(dcs, allowList));
    var ordered :| multiset(ordered) == multiset(kept);
    groups := ParseGroupsResultToDict(ordered);
    forall k | true
      ensures k in groups <==> k in AllGroups(dcs, allowList)
      ensures k in groups ==> multiset(groups[k]) == multiset(AllGroups(dcs, allowList)[k])
      ensures k in groups ==> groups[k] != [] && forall j :: 0 <= j < |groups[k]| ==> groups[k][j].Atom?
    {
      SortedMerge(dcs, allowList, ordered, k);
      if k in groups {
        AllGroupsHosts(dcs, allowList, k);
      }
    }
  }

  /**
   * One datacenter `WA1` with one `default` group `webservers` holding two
   * servers, and no allow-list: the inventory has the bare and the
   * qualified key, both with the two servers.
   */
  lemma ScenarioSingleGroup()
    ensures var servers := ["WA1ABC01", "WA1ABC02"];
      var dc := Datacenter("WA1", [Group("webservers", "default", [], Some(servers))]);
      AllGroups([dc], None) == map["webservers" := Atoms(servers), "WA1_webservers" := Atoms(servers)]
  {
    var servers := ["WA1ABC01", "WA1ABC02"];
    var g := Group("webservers", "default", [], Some(servers));
    var dc := Datacenter("WA1", [g]);
    ScenarioWalk(g, servers);
    var expected := map["webservers" := Atoms(servers), "WA1_webservers" := Atoms(servers)];
    ScenarioHosts(servers, expected);
    SingleDatacenter(dc);
    MergeOfAtoms(expected);
  }

  /** With one datacenter, the merge input is its walk when that is non-empty. */
  lemma SingleDatacenter(dc: Datacenter)
    requires Collect(dc.id, dc.groups) != map[]
    ensures AllGroups([dc], None) == Merge([ToHosts(Collect(dc.id, dc.groups))])
  {
    var walked := Collect(dc.id, dc.groups);
    var hosts := ToHosts(walked);
    assert FilterDatacenters([dc], None) == [dc];
    assert Walk(dc.id, dc.groups) == Some(walked);
    var results := WalkAll([dc]);
    assert results[0] == Some(hosts);
    assert results == [Some(hosts)];
    NonEmptyOne(hosts);
  }

  lemma NonEmptyOne(hosts: HostsMap)
    requires hosts != map[]
    ensures NonEmptyResults([Some(hosts)]) == [hosts]
  {
    assert [Some(hosts)][..0] == [];
  }

  lemma ScenarioHosts(servers: seq<string>, expected: HostsMap)
    requires expected == map["webservers" := Atoms(servers), "WA1_webservers" := Atoms(servers)]
    ensures ToHosts(map["webservers" := servers, "WA1_webservers" := servers]) == expected
    ensures forall k :: k in expected ==> forall j :: 0 <= j < |expected[k]| ==> expected[k][j].Atom?
  {
  }

  lemma ScenarioWalk(g: Group, servers: seq<string>)
    requires servers == ["WA1ABC01", "WA1ABC02"]
    requires g == Group("webservers", "default", [], Some(servers))
    ensures Collect("WA1", [g]) == map["webservers" := servers, "WA1_webservers" := servers]
  {
    assert Upper("WA1") == "WA1" by {
      UpperUnchanged("WA1");
    }
    assert QualifiedKey("WA1", "webservers") == "WA1_webservers";
    assert [g][..0] == [];
    assert Contributes(g);
  }
}
