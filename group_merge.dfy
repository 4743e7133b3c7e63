/**
 * The cross-datacenter merge (`_parse_groups_result_to_dict`) and the
 * server set extraction (`_get_servers_from_groups`).
 */
module GroupMerge {
  import opened Nesting

  /** Group key to host list, as the merge reads and writes it. */
  type HostsMap = map<string, seq<V>>

  /**
   * `acc` after the merge has processed the keys `done` of one input map
   * `m`: each processed key's flattened hosts are appended to what `acc`
   * holds under it (or to the empty list for a new key).
   */
  function AddGroups(acc: HostsMap, m: HostsMap, done: set<string>): (r: HostsMap)
    requires done <= m.Keys
  {
    map k | k in acc.Keys + done ::
      (if k in acc then acc[k] else []) + (if k in done then Flatten(m[k]) else [])
  }

  /** Processing no keys leaves the accumulator unchanged. */
  lemma AddNothing(acc: HostsMap, m: HostsMap)
    ensures AddGroups(acc, m, {}) == acc
  {
    var r := AddGroups(acc, m, {});
    assert r.Keys == acc.Keys;
    forall k | k in r ensures r[k] == acc[k] {
      assert acc[k] + [] == acc[k];
    }
  }

  /** Processing one more key appends its flattened hosts under that key. */
  lemma AddOne(acc: HostsMap, m: HostsMap, done: set<string>, g: string)
    requires done <= m.Keys && g in m && g !in done
    ensures var cur := AddGroups(acc, m, done);
      AddGroups(acc, m, done + {g}) == cur[g := (if g in cur then cur[g] else []) + Flatten(m[g])]
  {
    var cur := AddGroups(acc, m, done);
    var next := AddGroups(acc, m, done + {g});
    var expected := cur[g := (if g in cur then cur[g] else []) + Flatten(m[g])];
    assert next.Keys == expected.Keys;
    forall k | k in next ensures next[k] == expected[k] {
      if k == g {
        var base := if g in acc then acc[g] else [];
        assert next[k] == base + Flatten(m[g]);
        assert g in cur ==> cur[g] == base + [];
      } else {
        assert next[k] == cur[k];
      }
    }
  }

  /**
   * The merge of a sequence of per-datacenter maps, folded in sequence
   * order. Every merged host list is flat: it is a concatenation of
   * flattened lists.
   */
  function Merge(results: seq<HostsMap>): (r: HostsMap)
    ensures forall k :: k in r ==> IsFlat(r[k])
  {
    if results == [] then map[]
    else
      var last := results[|results| - 1];
      var before := Merge(results[..|results| - 1]);
      var r := AddGroups(before, last, last.Keys);
      assert forall k :: k in r ==> IsFlat(r[k]) by {
        forall k | k in r ensures IsFlat(r[k]) {
          FlatAppend(if k in before then before[k] else [], if k in last then Flatten(last[k]) else []);
        }
      }
      r
  }

  /** Merging one more map folds its keys into the merge of the ones before. */
  lemma MergeSnoc(results: seq<HostsMap>, m: HostsMap)
    ensures Merge(results + [m]) == AddGroups(Merge(results), m, m.Keys)
  {
    assert (results + [m])[..|results|] == results;
  }

  /** A single map of server-name lists merges to itself. */
  lemma MergeOfAtoms(m: HostsMap)
    requires forall k :: k in m ==> forall j :: 0 <= j < |m[k]| ==> m[k][j].Atom?
    ensures Merge([m]) == m
  {
    MergeSnoc([], m);
    assert [] + [m] == [m];
    var r := AddGroups(map[], m, m.Keys);
    forall k | k in m ensures r[k] == m[k] {
      if m[k] != [] {
        assert m[k][0].Atom?;
      }
      assert [] + m[k] == m[k];
    }
  }

  /** An empty input map contributes nothing to the merge. */
  lemma MergeEmptyLast(results: seq<HostsMap>)
    ensures Merge(results + [map[]]) == Merge(results)
  {
    MergeSnoc(results, map[]);
    AddNothing(Merge(results), map[]);
  }

  /** Key `k`'s flattened hosts from every input that has it, concatenated in order. */
  function Gather(results: seq<HostsMap>, k: string): seq<V>
  {
    if results == [] then []
    else
      var last := results[|results| - 1];
      Gather(results[..|results| - 1], k) + (if k in last then Flatten(last[k]) else [])
  }

  /** Number of hosts key `k` has across the inputs. */
  function HostCount(results: seq<HostsMap>, k: string): nat
  {
    if results == [] then 0
    else
      var last := results[|results| - 1];
      HostCount(results[..|results| - 1], k) + (if k in last then |last[k]| else 0)
  }

  /**
   * The merged key set is the union of the inputs' key sets, and under
   * each key the merge holds the concatenation, in input order, of that
   * key's flattened hosts from each input.
   */
  lemma {:induction false} MergeAt(results: seq<HostsMap>, k: string)
    ensures k in Merge(results) <==> exists i :: 0 <= i < |results| && k in results[i]
    ensures k in Merge(results) ==> Merge(results)[k] == Gather(results, k)
  {
    if results != [] {
      var n := |results| - 1;
      var init := results[..n];
      MergeAt(init, k);
      MergeStep(results, k);
      assert forall i :: 0 <= i < n ==> init[i] == results[i];
      InSomeStep(results, k);
      if k !in Merge(init) {
        GatherAbsent(init, k);
      }
    }
  }

  /** One step of the fold, seen from a single key. */
  lemma MergeStep(results: seq<HostsMap>, k: string)
    requires results != []
    ensures var init := Merge(results[..|results| - 1]);
      var last := results[|results| - 1];
      && (k in Merge(results) <==> k in init || k in last)
      && (k in Merge(results) ==>
            Merge(results)[k] == (if k in init then init[k] else []) + (if k in last then Flatten(last[k]) else []))
  {
  }

  lemma InSomeStep(results: seq<HostsMap>, k: string)
    requires results != []
    ensures (exists i :: 0 <= i < |results| && k in results[i]) <==>
      (exists i :: 0 <= i < |results| - 1 && k in results[i]) || k in results[|results| - 1]
  {
  }

  lemma {:induction false} GatherAbsent(results: seq<HostsMap>, k: string)
    requires forall i :: 0 <= i < |results| ==> k !in results[i]
    ensures Gather(results, k) == []
  {
    if results != [] {
      var n := |results| - 1;
      assert forall i :: 0 <= i < n ==> results[..n][i] == results[i];
      GatherAbsent(results[..n], k);
    }
  }

  lemma {:induction false} GatherAppend(a: seq<HostsMap>, b: seq<HostsMap>, k: string)
    ensures Gather(a + b, k) == Gather(a, k) + Gather(b, k)
  {
    if b == [] {
      assert a + b == a;
    } else {
      var n := |b| - 1;
      assert (a + b)[..|a + b| - 1] == a + b[..n];
      assert (a + b)[|a + b| - 1] == b[n];
      GatherAppend(a, b[..n], k);
    }
  }

  /** Removing input `j` removes exactly its hosts from the gathered hosts of each key. */
  lemma GatherSplit(b: seq<HostsMap>, j: int, k: string)
    requires 0 <= j < |b|
    ensures multiset(Gather(b, k)) == multiset(Gather(b[..j] + b[j + 1..], k)) + multiset(Gather([b[j]], k))
  {
    assert b == (b[..j] + [b[j]]) + b[j + 1..];
    GatherAppend(b[..j] + [b[j]], b[j + 1..], k);
    GatherAppend(b[..j], [b[j]], k);
    GatherAppend(b[..j], b[j + 1..], k);
  }

  lemma DropOne(b: seq<HostsMap>, j: int)
    requires 0 <= j < |b|
    ensures multiset(b[..j] + b[j + 1..]) == multiset(b) - multiset{b[j]}
  {
    assert b == b[..j] + [b[j]] + b[j + 1..];
    assert multiset(b) == multiset(b[..j]) + multiset{b[j]} + multiset(b[j + 1..]);
  }

  /**
   * Reordering the inputs reorders the gathered hosts of each key and
   * nothing more: the same hosts, as many times each.
   */
  lemma {:induction false} GatherPermutation(a: seq<HostsMap>, b: seq<HostsMap>, k: string)
    requires multiset(a) == multiset(b)
    ensures multiset(Gather(a, k)) == multiset(Gather(b, k))
    decreases |a|
  {
    if a == [] {
      assert |multiset(b)| == 0;
    } else {
      var n := |a| - 1;
      var last := a[n];
      assert last in multiset(b);
      var j :| 0 <= j < |b| && b[j] == last;
      DropOne(a, n);
      DropOne(b, j);
      assert a[..n] + a[n + 1..] == a[..n];
      GatherPermutation(a[..n], b[..j] + b[j + 1..], k);
      GatherSplit(a, n, k);
      GatherSplit(b, j, k);
    }
  }

  /**
   * The merge does not depend on the order of its inputs beyond the order
   * within each host list: any permutation of the inputs gives the same
   * keys, and the same hosts under each key.
   */
  lemma MergePermutation(a: seq<HostsMap>, b: seq<HostsMap>, k: string)
    requires multiset(a) == multiset(b)
    ensures k in Merge(a) <==> k in Merge(b)
    ensures k in Merge(a) ==> multiset(Merge(a)[k]) == multiset(Merge(b)[k])
  {
    MergeAt(a, k);
    MergeAt(b, k);
    if exists i :: 0 <= i < |a| && k in a[i] {
      var i :| 0 <= i < |a| && k in a[i];
      assert a[i] in multiset(b);
      var j :| 0 <= j < |b| && b[j] == a[i];
    }
    if exists j :: 0 <= j < |b| && k in b[j] {
      var j :| 0 <= j < |b| && k in b[j];
      assert b[j] in multiset(a);
      var i :| 0 <= i < |a| && a[i] == b[j];
    }
    GatherPermutation(a, b, k);
  }

  /** All host lists of all inputs hold server names only. */
  predicate AtomHosts(results: seq<HostsMap>)
  {
    forall i, k :: 0 <= i < |results| && k in results[i] ==>
      forall j :: 0 <= j < |results[i][k]| ==> results[i][k][j].Atom?
  }

  /**
   * With plain server-name lists as input, nothing is deduplicated or
   * dropped: the merged list of a key is as long as that key's lists put
   * together.
   */
  lemma {:induction false} GatherCount(results: seq<HostsMap>, k: string)
    requires AtomHosts(results)
    ensures |Gather(results, k)| == HostCount(results, k)
  {
    if results != [] {
      var n := |results| - 1;
      var last := results[n];
      assert AtomHosts(results[..n]) by {
        forall i, key | 0 <= i < n && key in results[..n][i]
          ensures forall j :: 0 <= j < |results[..n][i][key]| ==> results[..n][i][key][j].Atom?
        {
          assert results[..n][i] == results[i];
        }
      }
      GatherCount(results[..n], k);
      if k in last {
        var hosts := last[k];
        if hosts != [] {
          assert hosts[0].Atom?;
          assert IsFlat(hosts);
        }
      }
    }
  }

  /** `_parse_groups_result_to_dict`: appends each input's flattened hosts per key. */
  method ParseGroupsResultToDict(results: seq<HostsMap>) returns (merged: HostsMap)
    ensures merged == Merge(results)
  {
    merged := map[];
    for i := 0 to |results|
      invariant merged == Merge(results[..i])
    {
      merged := MergeOne(merged, results[i]);
      assert results[..i + 1][..i] == results[..i];
    }
    assert results[..|results|] == results;
  }

  /** The inner loop of the merge: every key of `groups`, in the dict's (unspecified) order. */
  method MergeOne(start: HostsMap, groups: HostsMap) returns (merged: HostsMap)
    ensures merged == AddGroups(start, groups, groups.Keys)
  {
    merged := start;
    var pending := groups.Keys;
    ghost var done: set<string> := {};
    AddNothing(start, groups);
    while pending != {}
      invariant done + pending == groups.Keys && done !! pending
      invariant merged == AddGroups(start, groups, done)
      decreases pending
    {
      var group :| group in pending;
      AddOne(start, groups, done, group);
      ghost var existing := if group in merged then merged[group] else [];
      if group !in merged {
        merged := merged[group := []];
      }
      var hosts := FlattenList(groups[group]);
      merged := merged[group := merged[group] + hosts];
      assert merged[group] == existing + Flatten(groups[group]);
      pending := pending - {group};
      done := done + {group};
    }
  }

  /** The host lists of the groups, in the given key order, each as one container. */
  function HostLists(groups: HostsMap, order: seq<string>): (r: seq<V>)
    requires forall k :: k in order ==> k in groups
    ensures |r| == |order|
    ensures forall i :: 0 <= i < |order| ==> r[i] == Nested(groups[order[i]])
  {
    if order == [] then [] else [Nested(groups[order[0]])] + HostLists(groups, order[1..])
  }

  /**
   * `_get_servers_from_groups`: the set of values in the flattening of the
   * groups' host lists. `order` is the dict's iteration order: it lists
   * every key of `groups`.
   */
  function ServersFromGroups(groups: HostsMap, order: seq<string>): (r: set<V>)
    requires forall k :: k in groups <==> k in order
    ensures forall v, n :: v in r && n in LeavesOf(v) ==> exists k :: k in groups && n in Leaves(groups[k])
  {
    var lists := HostLists(groups, order);
    var flat := Flatten(lists);
    var r := set v | v in flat;
    assert forall v, n :: v in r && n in LeavesOf(v) ==> exists k :: k in groups && n in Leaves(groups[k]) by {
      forall v, n | v in r && n in LeavesOf(v) ensures exists k :: k in groups && n in Leaves(groups[k]) {
        InLeaves(flat, v, n);
        FlattenLeaves(lists);
        HostListsLeaves(groups, order, n);
      }
    }
    r
  }

  /** Every atom of the listed host lists is an atom of some group's hosts. */
  lemma {:induction false} HostListsLeaves(groups: HostsMap, order: seq<string>, n: string)
    requires forall k :: k in order ==> k in groups
    requires n in Leaves(HostLists(groups, order))
    ensures exists k :: k in groups && n in Leaves(groups[k])
  {
    var lists := HostLists(groups, order);
    assert lists[1..] == HostLists(groups, order[1..]);
    if n !in LeavesOf(lists[0]) {
      HostListsLeaves(groups, order[1..], n);
    }
  }

  /**
   * For host lists of server names, the server set is exactly the set of
   * names in some group's host list, whatever the iteration order.
   */
  lemma ServersOfAtomGroups(groups: HostsMap, order: seq<string>, v: V)
    requires forall k :: k in groups <==> k in order
    requires forall k :: k in groups ==> forall j :: 0 <= j < |groups[k]| ==> groups[k][j].Atom?
    ensures v in ServersFromGroups(groups, order) <==> exists k :: k in groups && v in groups[k]
  {
    var lists := HostLists(groups, order);
    if order == [] {
      assert groups == map[];
    } else {
      assert lists[0].Nested?;
      assert !IsFlat(lists);
      var chained := Chain(lists);
      assert Flatten(lists) == Flatten(chained);
      ChainMembership(lists, v);
      forall w | w in chained ensures w.Atom? {
        ChainMembership(lists, w);
      }
      if chained != [] {
        assert chained[0] in chained;
        assert IsFlat(chained);
      }
      if exists k :: k in groups && v in groups[k] {
        var k :| k in groups && v in groups[k];
        var i :| 0 <= i < |order| && order[i] == k;
        assert v in lists[i].items;
      }
    }
  }
}
