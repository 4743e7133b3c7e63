/**
 * The flatten utilities (`_is_list_flat`, `_flatten_list`). A value is
 * either atomic (a string, for this inventory) or a container; Python's
 * lists, tuples, dicts and files are all containers here.
 */
module Nesting {

  datatype V = Atom(name: string) | Nested(items: seq<V>)

  /** Number of constructors in a value; it bounds how often flattening can strip a level. */
  function Size(v: V): nat
  {
    match v
    case Atom(_) => 1
    case Nested(items) => 1 + SeqSize(items)
  }

  function SeqSize(s: seq<V>): nat
  {
    if s == [] then 0 else Size(s[0]) + SeqSize(s[1..])
  }

  lemma {:induction false} SeqSizeAppend(a: seq<V>, b: seq<V>)
    ensures SeqSize(a + b) == SeqSize(a) + SeqSize(b)
  {
    if a != [] {
      assert (a + b)[1..] == a[1..] + b;
      SeqSizeAppend(a[1..], b);
    } else {
      assert a + b == b;
    }
  }

  /** The list counts as flat when it is empty or ANY element is atomic. */
  predicate IsFlat(s: seq<V>)
  {
    |s| == 0 || exists i :: 0 <= i < |s| && s[i].Atom?
  }

  /** `list(itertools.chain.from_iterable(s))` for a list of containers. */
  function Chain(s: seq<V>): (r: seq<V>)
    requires forall i :: 0 <= i < |s| ==> s[i].Nested?
    ensures SeqSize(r) + |s| == SeqSize(s)
  {
    if s == [] then []
    else
      SeqSizeAppend(s[0].items, Chain(s[1..]));
      s[0].items + Chain(s[1..])
  }

  /** An element of a chained list comes from one of the containers, and every such element is kept. */
  lemma {:induction false} ChainMembership(s: seq<V>, v: V)
    requires forall i :: 0 <= i < |s| ==> s[i].Nested?
    ensures v in Chain(s) <==> exists i :: 0 <= i < |s| && v in s[i].items
  {
    if s != [] {
      ChainMembership(s[1..], v);
      if exists i :: 0 <= i < |s| && v in s[i].items {
        var i :| 0 <= i < |s| && v in s[i].items;
        if i > 0 {
          assert s[1..][i - 1] == s[i];
        }
      }
      if exists i :: 0 <= i < |s| - 1 && v in s[1..][i].items {
        var i :| 0 <= i < |s| - 1 && v in s[1..][i].items;
        assert s[i + 1] == s[1..][i];
      }
    }
  }

  /** Strip one nesting level at a time until the list is flat. */
  function Flatten(s: seq<V>): (r: seq<V>)
    ensures IsFlat(r)
    ensures IsFlat(s) ==> r == s
    decreases SeqSize(s)
  {
    if IsFlat(s) then s else Flatten(Chain(s))
  }

  /** Flattening is idempotent. */
  lemma FlattenIdempotent(s: seq<V>)
    ensures Flatten(Flatten(s)) == Flatten(s)
  {
    var r := Flatten(s);
    assert IsFlat(r);
  }

  /** The atoms of a value, depth first, left to right. */
  function LeavesOf(v: V): seq<string>
  {
    match v
    case Atom(x) => [x]
    case Nested(items) => Leaves(items)
  }

  function Leaves(s: seq<V>): seq<string>
  {
    if s == [] then [] else LeavesOf(s[0]) + Leaves(s[1..])
  }

  lemma {:induction false} LeavesAppend(a: seq<V>, b: seq<V>)
    ensures Leaves(a + b) == Leaves(a) + Leaves(b)
  {
    if a != [] {
      assert (a + b)[1..] == a[1..] + b;
      LeavesAppend(a[1..], b);
    } else {
      assert a + b == b;
    }
  }

  lemma {:induction false} ChainLeaves(s: seq<V>)
    requires forall i :: 0 <= i < |s| ==> s[i].Nested?
    ensures Leaves(Chain(s)) == Leaves(s)
  {
    if s != [] {
      ChainLeaves(s[1..]);
      LeavesAppend(s[0].items, Chain(s[1..]));
    }
  }

  /** Flattening drops nothing and reorders nothing: the atoms stay the same, in order. */
  lemma {:induction false} FlattenLeaves(s: seq<V>)
    ensures Leaves(Flatten(s)) == Leaves(s)
    decreases SeqSize(s)
  {
    if !IsFlat(s) {
      ChainLeaves(s);
      FlattenLeaves(Chain(s));
    }
  }

  /** Concatenating two flat lists gives a flat list. */
  lemma FlatAppend(a: seq<V>, b: seq<V>)
    requires IsFlat(a) && IsFlat(b)
    ensures IsFlat(a + b)
  {
    if a == [] {
      assert a + b == b;
    } else {
      var i :| 0 <= i < |a| && a[i].Atom?;
      assert (a + b)[i] == a[i];
    }
  }

  /** Every atom of a member of a list is an atom of the list. */
  lemma {:induction false} InLeaves(s: seq<V>, v: V, n: string)
    requires v in s && n in LeavesOf(v)
    ensures n in Leaves(s)
  {
    if s[0] != v {
      InLeaves(s[1..], v, n);
    }
  }

  /** A list of atoms, one per name. */
  function Atoms(names: seq<string>): (r: seq<V>)
    ensures |r| == |names|
    ensures forall i :: 0 <= i < |names| ==> r[i] == Atom(names[i])
  {
    if names == [] then [] else [Atom(names[0])] + Atoms(names[1..])
  }

  /** A list of atoms is its own flattening, and its leaves are its names. */
  lemma {:induction false} AtomsFlat(names: seq<string>)
    ensures Flatten(Atoms(names)) == Atoms(names)
    ensures Leaves(Atoms(names)) == names
  {
    if names != [] {
      assert Atoms(names)[0].Atom?;
      AtomsFlat(names[1..]);
      assert Atoms(names)[1..] == Atoms(names[1..]);
    }
  }

  /** When flattening ends with atoms only, it has produced exactly the atoms of the input. */
  lemma {:induction false} FlattenToAtoms(s: seq<V>)
    requires forall i :: 0 <= i < |Flatten(s)| ==> Flatten(s)[i].Atom?
    ensures Flatten(s) == Atoms(Leaves(s))
  {
    var r := Flatten(s);
    FlattenLeaves(s);
    AtomsOnly(r);
  }

  lemma {:induction false} AtomsOnly(s: seq<V>)
    requires forall i :: 0 <= i < |s| ==> s[i].Atom?
    ensures s == Atoms(Leaves(s))
  {
    if s != [] {
      AtomsOnly(s[1..]);
      assert Leaves(s) == [s[0].name] + Leaves(s[1..]);
    }
  }

  /** `_is_list_flat`: scans until it meets an atomic element. */
  method IsListFlat(s: seq<V>) returns (result: bool)
    ensures result <==> (|s| == 0 || exists i :: 0 <= i < |s| && s[i].Atom?)
  {
    result := |s| == 0;
    var i := 0;
    while i < |s| && !result
      invariant 0 <= i <= |s|
      invariant result <==> (|s| == 0 || exists j :: 0 <= j < i && s[j].Atom?)
    {
      result := result || s[i].Atom?;
      i := i + 1;
    }
  }

  /** `_flatten_list`: chains the list while it is not flat. */
  method FlattenList(s: seq<V>) returns (r: seq<V>)
    ensures r == Flatten(s)
  {
    r := s;
    var flat := IsListFlat(r);
    while !flat
      invariant Flatten(r) == Flatten(s)
      invariant flat == IsFlat(r)
      decreases SeqSize(r)
    {
      r := Chain(r);
      flat := IsListFlat(r);
    }
  }
}
