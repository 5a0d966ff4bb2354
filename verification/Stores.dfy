/** The graph store behind the bulk writers: per-item tolerant, with positional results. */
module Stores {
  import opened Options

  /** A node to write; `embed` asks the store to index its text as well. */
  datatype Node = Node(id: string, body: string, embed: bool)

  datatype Edge = Edge(source: string, target: string, relation: string)

  /** The outcome of one row of a bulk write. */
  datatype Row = Stored | Refused(id: Option<string>, error: string)

  /** The nodes after the accepted rows of a bulk write: an upsert by id, in order. */
  function Upserted(nodes: map<string, Node>, items: seq<Node>, rows: seq<Row>): map<string, Node>
    requires |rows| == |items|
  {
    if items == [] then nodes
    else
      var n := |items| - 1;
      var before := Upserted(nodes, items[..n], rows[..n]);
      if rows[n].Stored? then before[items[n].id := items[n]] else before
  }

  function Linked(edges: set<Edge>, items: seq<Edge>, rows: seq<Row>): set<Edge>
    requires |rows| == |items|
  {
    edges + set i | 0 <= i < |items| && rows[i].Stored? :: items[i]
  }

  /** A refused node row names its node. */
  ghost predicate RowsName(items: seq<Node>, rows: seq<Row>)
  {
    |rows| == |items| && forall i :: 0 <= i < |rows| && rows[i].Refused? ==> rows[i].id == Some(items[i].id)
  }

  predicate Present(nodes: map<string, Node>, e: Edge)
  {
    e.source in nodes && e.target in nodes
  }

  /** The rows a reliable store gives for edges: accepted exactly with both endpoints present. */
  ghost predicate RowsByPresence(nodes: map<string, Node>, items: seq<Edge>, rows: seq<Row>)
  {
    |rows| == |items| && forall i :: 0 <= i < |rows| ==> (rows[i].Stored? <==> Present(nodes, items[i]))
  }

  function Flatten<T>(calls: seq<seq<T>>): seq<T>
  {
    if calls == [] then [] else Flatten(calls[..|calls| - 1]) + calls[|calls| - 1]
  }

  /** A store. A reliable one refuses nothing but an edge without its endpoints; any
      other may also refuse rows for reasons of its own. */
  class Store {
    const reliable: bool
    var nodes: map<string, Node>
    var edges: set<Edge>
    ghost var nodeCalls: seq<seq<Node>>
    ghost var edgeCalls: seq<seq<Edge>>

    constructor (reliable: bool)
      ensures this.reliable == reliable && nodes == map[] && edges == {} && nodeCalls == [] && edgeCalls == []
    {
      this.reliable := reliable;
      nodes, edges, nodeCalls, edgeCalls := map[], {}, [], [];
    }

    method BulkStoreNodes(items: seq<Node>) returns (rows: seq<Row>)
      modifies this
      ensures |rows| == |items| && RowsName(items, rows)
      ensures nodes == Upserted(old(nodes), items, rows) && edges == old(edges)
      ensures nodeCalls == old(nodeCalls) + [items] && edgeCalls == old(edgeCalls)
      ensures reliable ==> forall i :: 0 <= i < |rows| ==> rows[i].Stored?
    {
      rows := [];
      for i := 0 to |items|
        invariant |rows| == i && RowsName(items[..i], rows)
        invariant nodes == Upserted(old(nodes), items[..i], rows) && edges == old(edges)
        invariant nodeCalls == old(nodeCalls) && edgeCalls == old(edgeCalls)
        invariant reliable ==> forall j :: 0 <= j < i ==> rows[j].Stored?
      {
        assert items[..i + 1][..i] == items[..i];
        ghost var rows0 := rows;
        var fails: bool := *;
        if fails && !reliable {
          rows := rows + [Refused(Some(items[i].id), "refused")];
        } else {
          nodes := nodes[items[i].id := items[i]];
          rows := rows + [Stored];
        }
        assert rows[..i] == rows0;
      }
      assert items[..|items|] == items;
      nodeCalls := nodeCalls + [items];
    }

    method BulkStoreEdges(items: seq<Edge>) returns (rows: seq<Row>)
      modifies this
      ensures |rows| == |items|
      ensures nodes == old(nodes) && edges == Linked(old(edges), items, rows)
      ensures nodeCalls == old(nodeCalls) && edgeCalls == old(edgeCalls) + [items]
      ensures forall i :: 0 <= i < |rows| && rows[i].Stored? ==> Present(nodes, items[i])
      ensures reliable ==> RowsByPresence(nodes, items, rows)
    {
      rows := [];
      for i := 0 to |items|
        invariant |rows| == i && nodes == old(nodes) && nodeCalls == old(nodeCalls) && edgeCalls == old(edgeCalls)
        invariant edges == old(edges) + set j | 0 <= j < i && rows[j].Stored? :: items[j]
        invariant forall j :: 0 <= j < i && rows[j].Stored? ==> Present(nodes, items[j])
        invariant reliable ==> forall j :: 0 <= j < i ==> (rows[j].Stored? <==> Present(nodes, items[j]))
      {
        var fails: bool := *;
        if !Present(nodes, items[i]) {
          rows := rows + [Refused(None, "edge endpoint missing")];
        } else if fails && !reliable {
          rows := rows + [Refused(None, "refused")];
        } else {
          edges := edges + {items[i]};
          rows := rows + [Stored];
        }
      }
      edgeCalls := edgeCalls + [items];
    }
  }

  lemma {:induction false} UpsertedAppend(
    nodes: map<string, Node>, a: seq<Node>, ra: seq<Row>, b: seq<Node>, rb: seq<Row>)
    requires |ra| == |a| && |rb| == |b|
    ensures Upserted(nodes, a + b, ra + rb) == Upserted(Upserted(nodes, a, ra), b, rb)
  {
    if b == [] {
      assert a + b == a && ra + rb == ra;
    } else {
      var n := |b| - 1;
      assert (a + b)[..|a + b| - 1] == a + b[..n] && (ra + rb)[..|a + b| - 1] == ra + rb[..n];
      UpsertedAppend(nodes, a, ra, b[..n], rb[..n]);
    }
  }

  lemma LinkedAppend(edges: set<Edge>, a: seq<Edge>, ra: seq<Row>, b: seq<Edge>, rb: seq<Row>)
    requires |ra| == |a| && |rb| == |b|
    ensures Linked(edges, a + b, ra + rb) == Linked(Linked(edges, a, ra), b, rb)
  {
    var all, rows := a + b, ra + rb;
    forall e ensures e in Linked(edges, all, rows) <==> e in Linked(Linked(edges, a, ra), b, rb) {
      if i :| 0 <= i < |b| && rb[i].Stored? && b[i] == e {
        assert all[|a| + i] == e && rows[|a| + i].Stored?;
      }
      if i :| 0 <= i < |a| && ra[i].Stored? && a[i] == e {
        assert all[i] == e && rows[i].Stored?;
      }
    }
  }

  lemma FlattenAppend<T>(calls: seq<seq<T>>, c: seq<T>)
    ensures Flatten(calls + [c]) == Flatten(calls) + c
  {
    assert (calls + [c])[..|calls|] == calls;
  }
}
