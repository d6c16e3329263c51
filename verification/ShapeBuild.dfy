/**
 The comparable form of a storage type (src/josuke/check.py, `_shape`): solc's table of types, keyed
 by ids that change with every compilation, becomes a graph numbered in the order it is walked.

 A table's entries are nodes too, whose types are ids of the table instead of indices.
 */
module ShapeBuild {
  import opened Shapes
  import opened Wrappers

  type Table = map<nat, Node>

  /** The types a node is made of, in the order they are added. */
  function Parts(node: Node): seq<nat> {
    match node
    case Mapping(_, key, value) => [key, value]
    case DynamicArray(_, base) => [base]
    case Array(_, base, _) => [base]
    case Struct(_, members) => seq(|members|, k requires 0 <= k < |members| => members[k].target)
    case _ => []
  }

  /** The node made of these types instead. */
  function WithParts(node: Node, parts: seq<nat>): (r: Node)
    requires |parts| == |Parts(node)|
  {
    match node
    case Mapping(size, _, _) => Mapping(size, parts[0], parts[1])
    case DynamicArray(size, _) => DynamicArray(size, parts[0])
    case Array(size, _, length) => Array(size, parts[0], length)
    case Struct(size, members) =>
      Struct(size, seq(|members|, k requires 0 <= k < |members| => members[k].(target := parts[k])))
    case _ => node
  }

  /** Every type an entry is made of is in the table, as in what solc writes. */
  ghost predicate TableClosed(types: Table) {
    forall t, u :: t in types && u in Parts(types[t]) ==> u in types
  }

  /** The graph so far, with entries still being filled in, and the index each type got. */
  datatype Build = Build(nodes: seq<Option<Node>>, indices: map<nat, nat>)

  ghost function Unseen(types: Table, b: Build): nat {
    |types.Keys - b.indices.Keys|
  }

  lemma UnseenFewer(types: Table, b: Build, r: Build)
    requires b.indices.Keys <= r.indices.Keys
    ensures Unseen(types, r) <= Unseen(types, b)
    ensures (exists t :: t in types && t in r.indices && t !in b.indices) ==> Unseen(types, r) < Unseen(types, b)
  {
    var x, y := types.Keys - r.indices.Keys, types.Keys - b.indices.Keys;
    assert y == x + (y - x);
    if t :| t in types && t in r.indices && t !in b.indices {
      assert t in y - x;
    }
  }

  function Open(b: Build, t: nat): Build {
    Build(b.nodes + [None], b.indices[t := |b.nodes|])
  }

  /** `add`: the index of a type, once everything it is made of has one. */
  function AddType(types: Table, b: Build, t: nat): (r: (Build, nat))
    requires TableClosed(types) && t in types && b.indices.Keys <= types.Keys
    ensures b.indices.Keys <= r.0.indices.Keys <= types.Keys && |b.nodes| <= |r.0.nodes|
    decreases Unseen(types, b), 0
  {
    if t in b.indices then (b, b.indices[t]) else
    var index, start := |b.nodes|, Open(b, t);
    UnseenFewer(types, b, start);
    var (b1, parts) := AddAll(types, start, Parts(types[t]));
    (Build(b1.nodes[index := Some(WithParts(types[t], parts))], b1.indices), index)
  }

  /** The types in turn. */
  function AddAll(types: Table, b: Build, ids: seq<nat>): (r: (Build, seq<nat>))
    requires TableClosed(types) && b.indices.Keys <= types.Keys && forall t :: t in ids ==> t in types
    ensures b.indices.Keys <= r.0.indices.Keys <= types.Keys && |b.nodes| <= |r.0.nodes| && |r.1| == |ids|
    decreases Unseen(types, b), 1, |ids|
  {
    if ids == [] then (b, []) else
    var n := |ids| - 1;
    var (b1, front) := AddAll(types, b, ids[..n]);
    UnseenFewer(types, b, b1);
    var (b2, last) := AddType(types, b1, ids[n]);
    (b2, front + [last])
  }

  lemma AddTypeNew(types: Table, b: Build, t: nat)
    requires TableClosed(types) && t in types && b.indices.Keys <= types.Keys && t !in b.indices
    ensures Open(b, t).indices.Keys <= types.Keys && (forall u :: u in Parts(types[t]) ==> u in types)
    ensures Unseen(types, Open(b, t)) < Unseen(types, b)
    ensures var (b1, parts) := AddAll(types, Open(b, t), Parts(types[t]));
      AddType(types, b, t) == (Build(b1.nodes[|b.nodes| := Some(WithParts(types[t], parts))], b1.indices), |b.nodes|)
  {
    UnseenFewer(types, b, Open(b, t));
  }

  lemma AddAllSnoc(types: Table, b: Build, ids: seq<nat>)
    requires TableClosed(types) && b.indices.Keys <= types.Keys && ids != [] && forall t :: t in ids ==> t in types
    ensures var n := |ids| - 1;
      var (b1, front) := AddAll(types, b, ids[..n]);
      && Unseen(types, b1) <= Unseen(types, b)
      && AddAll(types, b, ids) == (AddType(types, b1, ids[n]).0, front + [AddType(types, b1, ids[n]).1])
  {
    UnseenFewer(types, b, AddAll(types, b, ids[..|ids| - 1]).0);
  }

  /** The nodes, once every one is filled in. */
  function Filled(nodes: seq<Option<Node>>): Graph {
    seq(|nodes|, i requires 0 <= i < |nodes| => nodes[i].GetOr(Bytes(0)))
  }

  const EMPTY := Build([], map[])

  /** `_shape` */
  function Shape(types: Table, t: nat): Graph
    requires TableClosed(types) && t in types
  {
    Filled(AddType(types, EMPTY, t).0.nodes)
  }

  // ---------------------------------------------------------------------- faithful

  function Lookup(ids: seq<nat>, indices: map<nat, nat>): (r: seq<nat>)
    requires forall t :: t in ids ==> t in indices
    ensures |r| == |ids|
  {
    seq(|ids|, k requires 0 <= k < |ids| => indices[ids[k]])
  }

  /** The node of a type is its entry, with its types' indices in place of their ids. */
  ghost predicate Done(types: Table, nodes: seq<Option<Node>>, indices: map<nat, nat>, t: nat) {
    && t in types && t in indices && indices[t] < |nodes|
    && (forall u :: u in Parts(types[t]) ==> u in indices)
    && nodes[indices[t]] == Some(WithParts(types[t], Lookup(Parts(types[t]), indices)))
  }

  /** Each type has one index, and each index one type. */
  ghost predicate Numbered(b: Build) {
    && (forall t :: t in b.indices ==> b.indices[t] < |b.nodes|)
    && (forall t, u :: t in b.indices && u in b.indices && b.indices[t] == b.indices[u] ==> t == u)
    && (forall k :: 0 <= k < |b.nodes| ==> Indexed(b.indices, k))
  }

  ghost predicate Indexed(indices: map<nat, nat>, k: nat) {
    exists t :: t in indices && indices[t] == k
  }

  ghost predicate Extends(b: Build, r: Build) {
    && (forall t :: t in b.indices ==> t in r.indices && r.indices[t] == b.indices[t])
    && |b.nodes| <= |r.nodes| && (forall k :: 0 <= k < |b.nodes| ==> r.nodes[k] == b.nodes[k])
  }

  /** What adding types keeps of what is there, and all that it adds is done. */
  ghost predicate Added(types: Table, b: Build, r: Build) {
    && Numbered(r) && Extends(b, r)
    && (forall t :: t in r.indices && t !in b.indices ==>
          Done(types, r.nodes, r.indices, t) && r.indices[t] >= |b.nodes|)
  }

  lemma DoneExtends(types: Table, b: Build, r: Build, t: nat)
    requires Done(types, b.nodes, b.indices, t) && Extends(b, r)
    ensures Done(types, r.nodes, r.indices, t)
  {
    assert Lookup(Parts(types[t]), r.indices) == Lookup(Parts(types[t]), b.indices);
  }

  lemma {:induction false} AddTypeDone(types: Table, b: Build, t: nat)
    requires TableClosed(types) && t in types && b.indices.Keys <= types.Keys && Numbered(b)
    ensures var r := AddType(types, b, t);
      Added(types, b, r.0) && t in r.0.indices && r.0.indices[t] == r.1
    decreases Unseen(types, b), 0
  {
    if t !in b.indices {
      var start := Open(b, t);
      UnseenFewer(types, b, start);
      OpenNumbered(b, t);
      AddAllDone(types, start, Parts(types[t]));
      var (b1, parts) := AddAll(types, start, Parts(types[t]));
      FillDone(types, b, t, b1, parts);
    }
  }

  lemma OpenNumbered(b: Build, t: nat)
    requires Numbered(b) && t !in b.indices
    ensures Numbered(Open(b, t)) && Extends(b, Open(b, t))
  {
    var r := Open(b, t);
    forall k | 0 <= k < |r.nodes|
      ensures Indexed(r.indices, k)
    {
      if k < |b.nodes| {
        assert Indexed(b.indices, k);
        var u :| u in b.indices && b.indices[u] == k;
        assert u in r.indices && r.indices[u] == k;
      } else {
        assert t in r.indices && r.indices[t] == k;
      }
    }
  }

  lemma FillDone(types: Table, b: Build, t: nat, b1: Build, parts: seq<nat>)
    requires t in types && Numbered(b) && t !in b.indices && Added(types, Open(b, t), b1)
    requires (forall u :: u in Parts(types[t]) ==> u in b1.indices) && parts == Lookup(Parts(types[t]), b1.indices)
    ensures var r := Build(b1.nodes[|b.nodes| := Some(WithParts(types[t], parts))], b1.indices);
      Added(types, b, r) && r.indices[t] == |b.nodes|
  {
    var index, node := |b.nodes|, WithParts(types[t], parts);
    var r := Build(b1.nodes[index := Some(node)], b1.indices);
    var start := Open(b, t);
    hide Parts, Lookup, WithParts;
    assert t in start.indices && start.indices[t] == index && b1.indices[t] == index;
    forall k | 0 <= k < index
      ensures r.nodes[k] == b.nodes[k]
    {
      assert b1.nodes[k] == start.nodes[k];
    }
    forall u | u in b.indices
      ensures u in r.indices && r.indices[u] == b.indices[u]
    {
      assert u in start.indices;
    }
    forall u | u in r.indices && u !in b.indices
      ensures Done(types, r.nodes, r.indices, u) && r.indices[u] >= |b.nodes|
    {
      if u != t {
        assert u !in start.indices;
        FillKeeps(types, b1.nodes, b1.indices, u, index, node);
      }
    }
    NumberedKeeps(b1, r);
  }

  lemma FillKeeps(types: Table, nodes: seq<Option<Node>>, indices: map<nat, nat>, u: nat, index: nat, node: Node)
    requires Done(types, nodes, indices, u) && index < |nodes| && indices[u] != index
    ensures Done(types, nodes[index := Some(node)], indices, u)
  {
  }

  lemma NumberedKeeps(b: Build, r: Build)
    requires Numbered(b) && r.indices == b.indices && |r.nodes| == |b.nodes|
    ensures Numbered(r)
  {
  }

  lemma {:induction false} AddAllDone(types: Table, b: Build, ids: seq<nat>)
    requires TableClosed(types) && b.indices.Keys <= types.Keys && Numbered(b) && forall t :: t in ids ==> t in types
    ensures var r := AddAll(types, b, ids);
      && Added(types, b, r.0) && (forall t :: t in ids ==> t in r.0.indices)
      && r.1 == Lookup(ids, r.0.indices)
    decreases Unseen(types, b), 1, |ids|
  {
    if ids != [] {
      var n := |ids| - 1;
      AddAllDone(types, b, ids[..n]);
      var (b1, front) := AddAll(types, b, ids[..n]);
      UnseenFewer(types, b, b1);
      AddTypeDone(types, b1, ids[n]);
      var (b2, last) := AddType(types, b1, ids[n]);
      AddedTwice(types, b, b1, b2);
      LookupSnoc(ids, b1, b2);
    }
  }

  lemma AddedTwice(types: Table, b: Build, b1: Build, b2: Build)
    requires Added(types, b, b1) && Added(types, b1, b2)
    ensures Added(types, b, b2)
  {
    forall t | t in b2.indices && t !in b.indices
      ensures Done(types, b2.nodes, b2.indices, t) && b2.indices[t] >= |b.nodes|
    {
      if t in b1.indices {
        DoneExtends(types, b1, b2, t);
      }
    }
  }

  lemma LookupSnoc(ids: seq<nat>, b1: Build, b2: Build)
    requires ids != [] && Extends(b1, b2) && ids[|ids| - 1] in b2.indices
    requires forall t :: t in ids[..|ids| - 1] ==> t in b1.indices
    ensures forall t :: t in ids ==> t in b2.indices
    ensures Lookup(ids, b2.indices) == Lookup(ids[..|ids| - 1], b1.indices) + [b2.indices[ids[|ids| - 1]]]
  {
    var n := |ids| - 1;
    forall k | 0 <= k < n
      ensures ids[k] in b1.indices
    {
      assert ids[..n][k] == ids[k];
    }
  }

  /** The node is the entry in every respect, with its types' indices in place of their ids. */
  ghost predicate Renumbered(node: Node, entry: Node, indices: map<nat, nat>) {
    match entry
    case Mapping(size, key, value) =>
      key in indices && value in indices && node == Mapping(size, indices[key], indices[value])
    case DynamicArray(size, base) => base in indices && node == DynamicArray(size, indices[base])
    case Array(size, base, length) => base in indices && node == Array(size, indices[base], length)
    case Struct(size, members) =>
      && node.Struct? && node.size == size && |node.members| == |members|
      && forall k :: 0 <= k < |members| ==>
           && members[k].target in indices
           && node.members[k]
              == Member(members[k].name, members[k].slot, members[k].offset, indices[members[k].target])
    case Bytes(size) => node == Bytes(size)
    case Enum(size, names) => node == Enum(size, names)
    case Function(size, internal) => node == Function(size, internal)
    case Value(size, kind) => node == Value(size, kind)
  }

  /** What an entry is made of, by its parts, is what it is made of. */
  lemma WithPartsRenumbers(entry: Node, indices: map<nat, nat>)
    requires forall u :: u in Parts(entry) ==> u in indices
    ensures Renumbered(WithParts(entry, Lookup(Parts(entry), indices)), entry, indices)
  {
    if entry.Struct? {
      var parts := Parts(entry);
      forall k | 0 <= k < |entry.members|
        ensures entry.members[k].target in indices
      {
        assert parts[k] in parts;
      }
    } else {
      assert forall k :: 0 <= k < |Parts(entry)| ==> Parts(entry)[k] in Parts(entry);
    }
  }

  /** And only one node is the entry renumbered. */
  lemma RenumberedOnce(a: Node, b: Node, entry: Node, indices: map<nat, nat>)
    requires Renumbered(a, entry, indices) && Renumbered(b, entry, indices)
    ensures a == b
  {
    if entry.Struct? {
      assert a.members == b.members;
    }
  }

  /** A type the entry refers to. */
  predicate RefersTo(entry: Node, u: nat) {
    match entry
    case Mapping(_, key, value) => u == key || u == value
    case DynamicArray(_, base) => u == base
    case Array(_, base, _) => u == base
    case Struct(_, members) => exists k :: 0 <= k < |members| && members[k].target == u
    case _ => false
  }

  lemma PartsRefer(entry: Node, u: nat)
    ensures u in Parts(entry) <==> RefersTo(entry, u)
  {
    if entry.Struct? {
      var parts := Parts(entry);
      assert forall k :: 0 <= k < |parts| ==> parts[k] == entry.members[k].target;
    }
  }

  /** One type leads to another by the types that entries refer to, each to the next. */
  ghost predicate Leads(types: Table, t: nat, u: nat) {
    exists chain :: Chain(types, t, u, chain)
  }

  ghost predicate Chain(types: Table, t: nat, u: nat, chain: seq<nat>) {
    && chain != [] && chain[0] == t && chain[|chain| - 1] == u
    && forall k :: 0 <= k < |chain| - 1 ==> Link(types, chain, k)
  }

  predicate Link(types: Table, chain: seq<nat>, k: nat)
    requires k + 1 < |chain|
  {
    chain[k] in types && RefersTo(types[chain[k]], chain[k + 1])
  }

  lemma LeadsSelf(types: Table, t: nat)
    ensures Leads(types, t, t)
  {
    assert Chain(types, t, t, [t]);
  }

  lemma LeadsVia(types: Table, t: nat, v: nat, u: nat)
    requires t in types && RefersTo(types[t], v) && Leads(types, v, u)
    ensures Leads(types, t, u)
  {
    var chain :| Chain(types, v, u, chain);
    var longer := [t] + chain;
    forall k | 0 <= k < |longer| - 1
      ensures Link(types, longer, k)
    {
      if k > 0 {
        assert Link(types, chain, k - 1);
      }
    }
    assert Chain(types, t, u, longer);
  }

  /** Every type a build gains is one that one of these leads to. */
  ghost predicate LedTo(types: Table, b: Build, r: Build, ids: seq<nat>) {
    forall u :: u in r.indices && u !in b.indices ==> exists k :: 0 <= k < |ids| && Leads(types, ids[k], u)
  }

  lemma {:induction false} AddTypeLeads(types: Table, b: Build, t: nat)
    requires TableClosed(types) && t in types && b.indices.Keys <= types.Keys
    ensures LedTo(types, b, AddType(types, b, t).0, [t])
    decreases Unseen(types, b), 0
  {
    hide Leads, Parts;
    if t !in b.indices {
      UnseenFewer(types, b, Open(b, t));
      AddAllLeads(types, Open(b, t), Parts(types[t]));
      var r := AddType(types, b, t).0;
      forall u | u in r.indices && u !in b.indices
        ensures Leads(types, [t][0], u)
      {
        if u == t {
          LeadsSelf(types, t);
        } else {
          var parts := Parts(types[t]);
          var k :| 0 <= k < |parts| && Leads(types, parts[k], u);
          PartsRefer(types[t], parts[k]);
          LeadsVia(types, t, parts[k], u);
        }
      }
    }
  }

  lemma {:induction false} AddAllLeads(types: Table, b: Build, ids: seq<nat>)
    requires TableClosed(types) && b.indices.Keys <= types.Keys && forall t :: t in ids ==> t in types
    ensures LedTo(types, b, AddAll(types, b, ids).0, ids)
    decreases Unseen(types, b), 1, |ids|
  {
    hide Leads, TableClosed, LedTo;
    if ids != [] {
      var n := |ids| - 1;
      AddAllLeads(types, b, ids[..n]);
      AddAllSnoc(types, b, ids);
      var b1 := AddAll(types, b, ids[..n]).0;
      AddTypeLeads(types, b1, ids[n]);
      hide AddAll, AddType, Unseen;
      LedTwice(types, b, b1, AddAll(types, b, ids).0, ids);
    } else {
      LedNowhere(types, b);
    }
  }

  lemma LedNowhere(types: Table, b: Build)
    ensures LedTo(types, b, b, [])
  {
  }

  lemma LedTwice(types: Table, b: Build, b1: Build, b2: Build, ids: seq<nat>)
    requires ids != [] && LedTo(types, b, b1, ids[..|ids| - 1]) && LedTo(types, b1, b2, [ids[|ids| - 1]])
    ensures LedTo(types, b, b2, ids)
  {
    hide Leads;
    forall u | u in b2.indices && u !in b.indices
      ensures exists k :: 0 <= k < |ids| && Leads(types, ids[k], u)
    {
      if u in b1.indices {
        var k :| 0 <= k < |ids[..|ids| - 1]| && Leads(types, ids[..|ids| - 1][k], u);
        assert ids[k] == ids[..|ids| - 1][k];
      } else {
        assert Leads(types, [ids[|ids| - 1]][0], u);
      }
    }
  }

  /**
   The graph has one node for each type that `t` leads to, `t` first: the entry in every respect, with its
   types' indices in place of their ids.
   */
  ghost predicate Presents(g: Graph, types: Table, t: nat, indices: map<nat, nat>) {
    && WellFormed(g) && t in indices && indices[t] == 0
    && (forall u, v :: u in indices && v in indices && indices[u] == indices[v] ==> u == v)
    && (forall k :: 0 <= k < |g| ==> Indexed(indices, k))
    && (forall u :: u in indices ==> u in types && indices[u] < |g|)
    && (forall u :: u in indices ==> Renumbered(g[indices[u]], types[u], indices))
    && (forall u :: u in indices ==> Leads(types, t, u))
  }

  /** The shape is the type's part of the table, each type once however often it is referred to. */
  lemma {:induction false} ShapeFaithful(types: Table, t: nat)
    requires TableClosed(types) && t in types
    ensures Presents(Shape(types, t), types, t, AddType(types, EMPTY, t).0.indices)
  {
    AddTypeDone(types, EMPTY, t);
    AddTypeLeads(types, EMPTY, t);
    FirstIndex(types, t);
    hide TableClosed, AddType, Leads;
    assert forall u :: u in AddType(types, EMPTY, t).0.indices ==> Leads(types, [t][0], u);
    var b := AddType(types, EMPTY, t).0;
    forall u | u in b.indices
      ensures Done(types, b.nodes, b.indices, u)
    {
    }
    FilledPresents(types, b, t);
  }

  lemma FilledPresents(types: Table, b: Build, t: nat)
    requires Numbered(b) && b.nodes != [] && t in b.indices && b.indices[t] == 0
    requires forall u :: u in b.indices ==> Done(types, b.nodes, b.indices, u) && Leads(types, t, u)
    ensures Presents(Filled(b.nodes), types, t, b.indices)
  {
    var g := Filled(b.nodes);
    hide Parts, WithParts, Closed, Lookup, Renumbered, Leads;
    forall k | 0 <= k < |g|
      ensures Closed(g[k], |g|)
    {
      assert Indexed(b.indices, k);
      var u :| u in b.indices && b.indices[u] == k;
      NodeClosed(types, b, u);
    }
    forall u | u in b.indices
      ensures Renumbered(g[b.indices[u]], types[u], b.indices)
    {
      assert Done(types, b.nodes, b.indices, u);
      WithPartsRenumbers(types[u], b.indices);
    }
  }

  lemma NodeClosed(types: Table, b: Build, u: nat)
    requires Numbered(b) && Done(types, b.nodes, b.indices, u)
    ensures Closed(b.nodes[b.indices[u]].GetOr(Bytes(0)), |b.nodes|)
  {
    PartsClosed(types[u], Lookup(Parts(types[u]), b.indices), |b.nodes|);
  }

  lemma FirstIndex(types: Table, t: nat)
    requires TableClosed(types) && t in types
    ensures AddType(types, EMPTY, t).1 == 0 && |AddType(types, EMPTY, t).0.nodes| > 0
  {
  }

  lemma PartsClosed(node: Node, parts: seq<nat>, n: nat)
    requires |parts| == |Parts(node)| && forall k :: 0 <= k < |parts| ==> parts[k] < n
    ensures Closed(WithParts(node, parts), n)
  {
  }

  // ---------------------------------------------------------------------- canonical

  /** `other` is the same table with other ids: another compilation of the same types. */
  ghost predicate Relabels(types: Table, other: Table, ids: map<nat, nat>) {
    && (forall t :: t in types ==> t in ids && ids[t] in other)
    && (forall t, u :: t in types && u in types && ids[t] == ids[u] ==> t == u)
    && (forall t, u :: t in types && u in Parts(types[t]) ==> u in ids)
    && (forall t :: t in types ==> Renumbered(other[ids[t]], types[t], ids))
  }

  lemma RelabelsEntry(types: Table, other: Table, ids: map<nat, nat>, t: nat)
    requires Relabels(types, other, ids) && t in types
    ensures other[ids[t]] == WithParts(types[t], Lookup(Parts(types[t]), ids))
  {
    WithPartsRenumbers(types[t], ids);
    RenumberedOnce(other[ids[t]], WithParts(types[t], Lookup(Parts(types[t]), ids)), types[t], ids);
  }

  /** Two builds that have come equally far. */
  ghost predicate Matches(types: Table, ids: map<nat, nat>, b: Build, c: Build)
    requires forall t :: t in types ==> t in ids
  {
    && b.nodes == c.nodes
    && (forall t :: t in types ==> (t in b.indices <==> ids[t] in c.indices))
    && (forall t :: t in types && t in b.indices ==> c.indices[ids[t]] == b.indices[t])
  }

  lemma PartsOfWith(node: Node, parts: seq<nat>)
    requires |parts| == |Parts(node)|
    ensures Parts(WithParts(node, parts)) == parts
  {
  }

  lemma WithPartsTwice(node: Node, parts: seq<nat>, more: seq<nat>)
    requires |parts| == |more| == |Parts(node)|
    ensures |Parts(WithParts(node, parts))| == |more|
    ensures WithParts(WithParts(node, parts), more) == WithParts(node, more)
  {
  }

  lemma {:induction false} AddTypeCanonical(types: Table, other: Table, ids: map<nat, nat>, b: Build, c: Build, t: nat)
    requires TableClosed(types) && TableClosed(other) && Relabels(types, other, ids) && t in types
    requires b.indices.Keys <= types.Keys && c.indices.Keys <= other.Keys && Matches(types, ids, b, c)
    ensures var r, s := AddType(types, b, t), AddType(other, c, ids[t]);
      Matches(types, ids, r.0, s.0) && r.1 == s.1
    decreases Unseen(types, b), 0
  {
    hide AddType, AddAll, TableClosed, Parts, WithParts, Unseen, Lookup;
    if t in b.indices {
      AddTypeSeen(types, b, t);
      AddTypeSeen(other, c, ids[t]);
    } else {
      var parts := Lookup(Parts(types[t]), ids);
      RelabelsEntry(types, other, ids, t);
      PartsOfWith(types[t], parts);
      AddTypeNew(types, b, t);
      AddTypeNew(other, c, ids[t]);
      OpenMatches(types, other, ids, b, c, t);
      AddAllCanonical(types, other, ids, Open(b, t), Open(c, ids[t]), Parts(types[t]));
      WithPartsTwice(types[t], parts, AddAll(types, Open(b, t), Parts(types[t])).1);
    }
  }

  lemma AddTypeSeen(types: Table, b: Build, t: nat)
    requires TableClosed(types) && t in types && b.indices.Keys <= types.Keys && t in b.indices
    ensures AddType(types, b, t) == (b, b.indices[t])
  {
  }

  lemma OpenMatches(types: Table, other: Table, ids: map<nat, nat>, b: Build, c: Build, t: nat)
    requires Relabels(types, other, ids) && Matches(types, ids, b, c) && t in types
    ensures Matches(types, ids, Open(b, t), Open(c, ids[t]))
  {
    hide Parts, WithParts, Lookup;
  }

  lemma {:induction false} AddAllCanonical(types: Table, other: Table, ids: map<nat, nat>, b: Build, c: Build,
                                           ts: seq<nat>)
    requires TableClosed(types) && TableClosed(other) && Relabels(types, other, ids)
    requires forall t :: t in ts ==> t in types
    requires b.indices.Keys <= types.Keys && c.indices.Keys <= other.Keys && Matches(types, ids, b, c)
    ensures forall t :: t in Lookup(ts, ids) ==> t in other
    ensures var r, s := AddAll(types, b, ts), AddAll(other, c, Lookup(ts, ids));
      Matches(types, ids, r.0, s.0) && r.1 == s.1
    decreases Unseen(types, b), 1, |ts|
  {
    hide AddType, AddAll, TableClosed, Parts, WithParts, Unseen;
    LookupIn(types, other, ids, ts);
    if ts == [] {
      AddAllNone(types, b);
      AddAllNone(other, c);
      assert Lookup(ts, ids) == [];
    } else {
      var n := |ts| - 1;
      AddAllSnoc(types, b, ts);
      AddAllSnoc(other, c, Lookup(ts, ids));
      assert Lookup(ts, ids)[..n] == Lookup(ts[..n], ids);
      hide Lookup, Matches;
      AddAllCanonical(types, other, ids, b, c, ts[..n]);
      AddTypeCanonical(types, other, ids, AddAll(types, b, ts[..n]).0, AddAll(other, c, Lookup(ts[..n], ids)).0, ts[n]);
    }
  }

  lemma AddAllNone(types: Table, b: Build)
    requires TableClosed(types) && b.indices.Keys <= types.Keys
    ensures AddAll(types, b, []) == (b, [])
  {
  }

  lemma LookupIn(types: Table, other: Table, ids: map<nat, nat>, ts: seq<nat>)
    requires Relabels(types, other, ids) && forall t :: t in ts ==> t in types
    ensures forall t :: t in Lookup(ts, ids) ==> t in other
  {
    hide Parts, WithParts;
  }

  /** The shape does not depend on the ids, so types compiled apart compare equal when they are. */
  lemma {:induction false} ShapeCanonical(types: Table, other: Table, ids: map<nat, nat>, t: nat)
    requires TableClosed(types) && TableClosed(other) && Relabels(types, other, ids) && t in types
    ensures Shape(other, ids[t]) == Shape(types, t)
  {
    AddTypeCanonical(types, other, ids, EMPTY, EMPTY, t);
  }
}
