/**
 * The group tree walker (`_find_all_servers_for_group` and
 * `_find_groups_for_datacenter`): a recursive descent over one
 * datacenter's group tree that maps group keys to member lists.
 *
 * `Collect` mirrors the recursion of the source. Its meaning is given by
 * `Writes`, a flat fold over the post-order listing of the tree
 * (`PostOrder`): each readable, non-empty `default` group writes its
 * member list under its bare name and under its datacenter-qualified name,
 * and a later write to the same key replaces an earlier one.
 */
module GroupWalker {
  import opened Wrappers
  import opened Provider
  import opened Text

  /** Group key to member list (the `{'hosts': ...}` wrapper is implicit). */
  type GroupMap = map<string, seq<string>>

  /** `str(datacenter).upper() + '_' + group.name`. */
  function QualifiedKey(dc: string, name: string): (k: string)
    ensures |k| > |name|
  {
    Upper(dc) + "_" + name
  }

  /** A group records its own membership: `default` type, readable, non-empty. */
  predicate Contributes(g: Group)
  {
    g.typ == "default" && g.servers.Some? && |g.servers.value| > 0
  }

  /** `g` writes key `k` itself. */
  predicate Writer(dc: string, g: Group, k: string)
  {
    Contributes(g) && (k == g.name || k == QualifiedKey(dc, g.name))
  }

  /** A group's own contribution on top of what is already collected. */
  function Own(dc: string, g: Group, acc: GroupMap): (r: GroupMap)
    ensures forall k :: k in r <==> k in acc || Writer(dc, g, k)
    ensures Contributes(g) ==>
      && g.name in r && r[g.name] == g.servers.value
      && QualifiedKey(dc, g.name) in r && r[QualifiedKey(dc, g.name)] == g.servers.value
    ensures forall k :: k in acc && !Writer(dc, g, k) ==> r[k] == acc[k]
  {
    if Contributes(g) then
      acc[g.name := g.servers.value][QualifiedKey(dc, g.name) := g.servers.value]
    else acc
  }

  /**
   * The map `_find_all_servers_for_group` builds for one level: each group
   * in turn merges its subgroups' map, then adds its own contribution.
   */
  function Collect(dc: string, groups: seq<Group>): GroupMap
    decreases groups
  {
    if groups == [] then map[]
    else
      var last := groups[|groups| - 1];
      Own(dc, last, Collect(dc, groups[..|groups| - 1]) + Collect(dc, last.subgroups))
  }

  /**
   * The walker's answer: `None` when nothing was collected (an empty dict
   * is falsy), so a returned map is never empty, and none of its member
   * lists is empty either.
   */
  function Walk(dc: string, groups: seq<Group>): (r: Option<GroupMap>)
    ensures r.Some? ==> r.value != map[] && forall k :: k in r.value ==> r.value[k] != []
  {
    var m := Collect(dc, groups);
    assert forall k :: k in m ==> m[k] != [] by {
      forall k | k in m ensures m[k] != [] {
        CollectNonEmpty(dc, groups, k);
      }
    }
    if m == map[] then None else Some(m)
  }

  /** Every group of the forest, each after all groups below it, siblings in order. */
  function PostOrder(groups: seq<Group>): seq<Group>
    decreases groups
  {
    if groups == [] then []
    else
      var last := groups[|groups| - 1];
      PostOrder(groups[..|groups| - 1]) + PostOrder(last.subgroups) + [last]
  }

  /** The writes of the groups of `s`, in order, on top of `acc`. */
  function Writes(dc: string, s: seq<Group>, acc: GroupMap): GroupMap
  {
    if s == [] then acc
    else Own(dc, s[|s| - 1], Writes(dc, s[..|s| - 1], acc))
  }

  /** `g` writes `k` and nothing after position `i` of `s` writes it again. */
  predicate LastWriter(dc: string, s: seq<Group>, i: int, k: string)
  {
    0 <= i < |s| && Writer(dc, s[i], k) && forall j :: i < j < |s| ==> !Writer(dc, s[j], k)
  }

  lemma {:induction false} WritesAppend(dc: string, a: seq<Group>, b: seq<Group>, acc: GroupMap)
    ensures Writes(dc, a + b, acc) == Writes(dc, b, Writes(dc, a, acc))
  {
    if b == [] {
      assert a + b == a;
    } else {
      assert (a + b)[..|a + b| - 1] == a + b[..|b| - 1];
      assert (a + b)[|a + b| - 1] == b[|b| - 1];
      WritesAppend(dc, a, b[..|b| - 1], acc);
    }
  }

  /** Writing on top of `acc` is writing on an empty map and laying the result over `acc`. */
  lemma {:induction false} WritesOver(dc: string, s: seq<Group>, acc: GroupMap)
    ensures Writes(dc, s, acc) == acc + Writes(dc, s, map[])
  {
    if s != [] {
      var g := s[|s| - 1];
      WritesOver(dc, s[..|s| - 1], acc);
      var inner := Writes(dc, s[..|s| - 1], map[]);
      if Contributes(g) {
        var v := g.servers.value;
        assert (acc + inner)[g.name := v][QualifiedKey(dc, g.name) := v]
            == acc + inner[g.name := v][QualifiedKey(dc, g.name) := v];
      }
    }
  }

  /** The recursive walk is the flat fold of writes over the post-order listing. */
  lemma {:induction false} CollectIsWrites(dc: string, groups: seq<Group>)
    ensures Collect(dc, groups) == Writes(dc, PostOrder(groups), map[])
    decreases groups
  {
    if groups != [] {
      var last := groups[|groups| - 1];
      var init := groups[..|groups| - 1];
      CollectIsWrites(dc, init);
      CollectIsWrites(dc, last.subgroups);
      var before := Writes(dc, PostOrder(init), map[]);
      WritesOver(dc, PostOrder(last.subgroups), before);
      WritesAppend(dc, PostOrder(init), PostOrder(last.subgroups), map[]);
      var listed := PostOrder(init) + PostOrder(last.subgroups);
      assert (listed + [last])[..|listed + [last]| - 1] == listed;
    }
  }

  /** A key is in the folded map iff it was there before or some group of `s` writes it. */
  lemma {:induction false} WritesKeys(dc: string, s: seq<Group>, acc: GroupMap, k: string)
    ensures k in Writes(dc, s, acc) <==> k in acc || exists i :: 0 <= i < |s| && Writer(dc, s[i], k)
  {
    if s != [] {
      var init := s[..|s| - 1];
      WritesKeys(dc, init, acc, k);
      if exists i :: 0 <= i < |s| && Writer(dc, s[i], k) {
        var i :| 0 <= i < |s| && Writer(dc, s[i], k);
        if i < |s| - 1 {
          assert init[i] == s[i];
        }
      }
      if exists i :: 0 <= i < |init| && Writer(dc, init[i], k) {
        var i :| 0 <= i < |init| && Writer(dc, init[i], k);
        assert s[i] == init[i];
      }
    }
  }

  /** The value under a key is the member list of the last group that wrote it. */
  lemma {:induction false} WritesValue(dc: string, s: seq<Group>, acc: GroupMap, i: int, k: string)
    requires LastWriter(dc, s, i, k)
    ensures k in Writes(dc, s, acc) && Writes(dc, s, acc)[k] == s[i].servers.value
  {
    var n := |s| - 1;
    var init := s[..n];
    if i < n {
      assert LastWriter(dc, init, i, k) by {
        forall j | i < j < |init| ensures !Writer(dc, init[j], k) {
          assert init[j] == s[j];
        }
      }
      WritesValue(dc, init, acc, i, k);
      assert !Writer(dc, s[n], k);
    } else if k == s[i].name {
      assert Writes(dc, s, acc)[k] == s[i].servers.value;
    }
  }

  /**
   * The walk's keys are exactly the bare and datacenter-qualified names of
   * the readable, non-empty `default` groups anywhere in the tree.
   */
  lemma CollectKeys(dc: string, groups: seq<Group>, k: string)
    ensures k in Collect(dc, groups) <==> exists g :: g in PostOrder(groups) && Writer(dc, g, k)
  {
    CollectIsWrites(dc, groups);
    WritesKeys(dc, PostOrder(groups), map[], k);
  }

  /**
   * Under each key the walk holds the member list of the last group, in
   * post-order, that wrote the key: later writes overwrite earlier ones.
   */
  lemma CollectValue(dc: string, groups: seq<Group>, i: int, k: string)
    requires LastWriter(dc, PostOrder(groups), i, k)
    ensures k in Collect(dc, groups) && Collect(dc, groups)[k] == PostOrder(groups)[i].servers.value
  {
    CollectIsWrites(dc, groups);
    WritesValue(dc, PostOrder(groups), map[], i, k);
  }

  /** A key some group of `s` writes has a last writer in `s`. */
  lemma {:induction false} LastWriterExists(dc: string, s: seq<Group>, j: int, k: string) returns (i: int)
    requires 0 <= j < |s| && Writer(dc, s[j], k)
    ensures LastWriter(dc, s, i, k)
  {
    var n := |s| - 1;
    if Writer(dc, s[n], k) {
      i := n;
    } else {
      i := LastWriterExists(dc, s[..n], j, k);
    }
  }

  /**
   * Every key of the walk has a last writer in post-order, and holds that
   * group's member list.
   */
  lemma CollectLast(dc: string, groups: seq<Group>, k: string) returns (i: int)
    requires k in Collect(dc, groups)
    ensures LastWriter(dc, PostOrder(groups), i, k)
    ensures Collect(dc, groups)[k] == PostOrder(groups)[i].servers.value
  {
    var s := PostOrder(groups);
    CollectKeys(dc, groups, k);
    var g :| g in s && Writer(dc, g, k);
    var j :| 0 <= j < |s| && s[j] == g;
    i := LastWriterExists(dc, s, j, k);
    CollectValue(dc, groups, i, k);
  }

  /** The walk records no empty member list: only a non-empty list is ever written. */
  lemma CollectNonEmpty(dc: string, groups: seq<Group>, k: string)
    requires k in Collect(dc, groups)
    ensures Collect(dc, groups)[k] != []
  {
    var i := CollectLast(dc, groups, k);
  }

  /** The walk reports a map exactly when some group in the tree records membership. */
  lemma WalkSomeIff(dc: string, groups: seq<Group>)
    ensures Walk(dc, groups).Some? <==> exists g :: g in PostOrder(groups) && Contributes(g)
  {
    if exists g :: g in PostOrder(groups) && Contributes(g) {
      var g :| g in PostOrder(groups) && Contributes(g);
      assert Writer(dc, g, g.name);
      CollectKeys(dc, groups, g.name);
    }
    if Walk(dc, groups).Some? {
      var k :| k in Collect(dc, groups);
      CollectKeys(dc, groups, k);
    }
  }

  /**
   * `_find_all_servers_for_group`: walks one level of groups, descending
   * into subgroups first, skipping non-`default` and unreadable groups.
   */
  method FindAllServersForGroup(dc: string, groups: seq<Group>) returns (r: Option<GroupMap>)
    ensures r == Walk(dc, groups)
    decreases groups
  {
    var result: GroupMap := map[];
    for i := 0 to |groups|
      invariant result == Collect(dc, groups[..i])
    {
      var group := groups[i];
      assert groups[..i + 1][..i] == groups[..i];
      ghost var before := result;
      if |group.subgroups| > 0 {
        var subResult := FindAllServersForGroup(dc, group.subgroups);
        if subResult.Some? {
          result := result + subResult.value;
        }
      }
      assert result == before + Collect(dc, group.subgroups);
      result := RecordOwn(dc, group, result);
    }
    assert groups[..|groups|] == groups;
    if result != map[] {
      r := Some(result);
    } else {
      r := None;
    }
  }

  /**
   * The second half of one loop iteration: skip a group that is not
   * `default` or whose servers cannot be read, and record a non-empty
   * member list under both keys.
   */
  method RecordOwn(dc: string, group: Group, acc: GroupMap) returns (result: GroupMap)
    ensures result == Own(dc, group, acc)
  {
    result := acc;
    if group.typ != "default" {
      return;
    }
    match group.servers {
      case None =>
        return;
      case Some(servers) =>
        if |servers| > 0 {
          result := result[group.name := servers];
          result := result[QualifiedKey(dc, group.name) := servers];
        }
    }
  }

  /** `_find_groups_for_datacenter`: walks the datacenter's top-level groups. */
  method FindGroupsForDatacenter(dc: Datacenter) returns (r: Option<GroupMap>)
    ensures r == Walk(dc.id, dc.groups)
    ensures r.Some? ==> r.value != map[]
  {
    var result := FindAllServersForGroup(dc.id, dc.groups);
    if result.Some? && result.value != map[] {
      r := result;
    } else {
      r := None;
    }
  }
}
