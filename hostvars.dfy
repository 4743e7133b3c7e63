/**
 * Hostvar enrichment (`_find_hostvars_single_server` and the fold in
 * `_find_all_hostvars_for_servers`). The detail request of each server is
 * an input (`fetch`); the worker pool is replaced by a sequential map in
 * server order, which is the order `Pool.map` returns its results in.
 */
module Hostvars {
  import opened Wrappers
  import opened Provider

  /** `{'ipAddress': ..., 'clc_data': ...}` */
  datatype HostVar = HostVar(ipAddress: string, clcData: ServerRecord)

  /** The one-entry dict `{server.name: HostVar}` a successful server yields. */
  datatype HostEntry = HostEntry(name: string, vars: HostVar)

  /** `data['details']['ipAddresses']`, or `None` where a key is missing. */
  function AddressList(rec: ServerRecord): Option<seq<Address>>
  {
    if rec.details.Some? then rec.details.value.ipAddresses else None
  }

  /**
   * `_find_hostvars_single_server` without the request: a failed request,
   * a missing field (KeyError) and an empty address list all yield
   * nothing; otherwise the server's display name with the internal
   * address of its first address entry and the whole record.
   */
  function HostvarsSingleServer(f: Fetch): (r: Option<HostEntry>)
    ensures r.Some? <==>
      && f.Fetched?
      && AddressList(f.record).Some?
      && |AddressList(f.record).value| > 0
      && AddressList(f.record).value[0].internal.Some?
    ensures r.Some? ==>
      && r.value.name == f.record.name
      && r.value.vars.ipAddress == AddressList(f.record).value[0].internal.value
      && r.value.vars.clcData == f.record
  {
    match f
    case FetchFailed => None
    case Fetched(rec) =>
      match AddressList(rec)
      case None => None
      case Some(addrs) =>
        if |addrs| == 0 then None
        else
          match addrs[0].internal
          case None => None
          case Some(ip) => Some(HostEntry(rec.name, HostVar(ip, rec)))
  }

  /** Result `i` is a success and no success after it and before `bound` carries the same name. */
  predicate LastBefore(results: seq<Option<HostEntry>>, bound: int, i: int)
  {
    && 0 <= i < bound <= |results|
    && results[i].Some?
    && forall j :: i < j < bound && results[j].Some? ==> results[j].value.name != results[i].value.name
  }

  /** Result `i` is the last success carrying its name. */
  predicate LastEntry(results: seq<Option<HostEntry>>, i: int)
  {
    LastBefore(results, |results|, i)
  }

  /** Some result before `bound` is a success named `n`. */
  predicate NamedBefore(results: seq<Option<HostEntry>>, bound: int, n: string)
    requires bound <= |results|
  {
    exists j :: 0 <= j < bound && results[j].Some? && results[j].value.name == n
  }

  /**
   * The fold of `_find_all_hostvars_for_servers`: the keys are exactly the
   * names of the successful results, and each holds the variables of the
   * last success with that name.
   */
  method FoldHostvars(results: seq<Option<HostEntry>>) returns (hostvars: map<string, HostVar>)
    ensures forall n :: n in hostvars <==> NamedBefore(results, |results|, n)
    ensures forall i :: LastEntry(results, i) ==>
      results[i].value.name in hostvars && hostvars[results[i].value.name] == results[i].value.vars
  {
    hostvars := map[];
    for i := 0 to |results|
      invariant forall n :: n in hostvars <==> NamedBefore(results, i, n)
      invariant forall j :: LastBefore(results, i, j) ==>
        results[j].value.name in hostvars && hostvars[results[j].value.name] == results[j].value.vars
    {
      if results[i].Some? {
        var entry := results[i].value;
        hostvars := hostvars[entry.name := entry.vars];
      }
      forall n ensures NamedBefore(results, i + 1, n) <==> NamedBefore(results, i, n) || (results[i].Some? && results[i].value.name == n) {
        NamedStep(results, i, n);
      }
      forall j | LastBefore(results, i + 1, j) && j < i
        ensures LastBefore(results, i, j) && !(results[i].Some? && results[i].value.name == results[j].value.name)
      {
      }
    }
  }

  lemma NamedStep(results: seq<Option<HostEntry>>, i: int, n: string)
    requires 0 <= i < |results|
    ensures NamedBefore(results, i + 1, n) <==> NamedBefore(results, i, n) || (results[i].Some? && results[i].value.name == n)
  {
    if NamedBefore(results, i + 1, n) && !(results[i].Some? && results[i].value.name == n) {
      var j :| 0 <= j < i + 1 && results[j].Some? && results[j].value.name == n;
      assert NamedBefore(results, i, n);
    }
  }

  /** Every name that some success carries has a last success carrying it. */
  lemma {:induction false} LastWith(results: seq<Option<HostEntry>>, n: string) returns (i: int)
    requires NamedBefore(results, |results|, n)
    ensures LastEntry(results, i) && results[i].value.name == n
  {
    var last := |results| - 1;
    if results[last].Some? && results[last].value.name == n {
      i := last;
    } else {
      var init := results[..last];
      var j :| 0 <= j < |results| && results[j].Some? && results[j].value.name == n;
      assert init[j] == results[j];
      i := LastWith(init, n);
      assert forall k :: 0 <= k < last ==> init[k] == results[k];
      assert LastBefore(init, last, i);
    }
  }

  /** The per-server results, in server order (`Pool.map`). */
  function Extracted(servers: seq<string>, fetch: string -> Fetch): (r: seq<Option<HostEntry>>)
    ensures |r| == |servers|
  {
    seq(|servers|, i requires 0 <= i < |servers| => HostvarsSingleServer(fetch(servers[i])))
  }

  /**
   * `_find_all_hostvars_for_servers`: one detail request per server id, in
   * order, folded into a table keyed by display name. A name is in the
   * table iff some server's request succeeded with a usable first address
   * under that name, and it holds the variables of the last such server.
   */
  method FindAllHostvarsForServers(servers: seq<string>, fetch: string -> Fetch)
    returns (hostvars: map<string, HostVar>)
    ensures forall n :: n in hostvars <==> NamedBefore(Extracted(servers, fetch), |servers|, n)
    ensures forall n :: n in hostvars ==>
      exists i :: LastEntry(Extracted(servers, fetch), i)
               && Extracted(servers, fetch)[i] == Some(HostEntry(n, hostvars[n]))
  {
    var results := Extracted(servers, fetch);
    hostvars := FoldHostvars(results);
    forall n | n in hostvars
      ensures exists i :: LastEntry(results, i) && results[i] == Some(HostEntry(n, hostvars[n]))
    {
      var i := LastWith(results, n);
      assert results[i] == Some(HostEntry(n, hostvars[n]));
    }
  }
}
