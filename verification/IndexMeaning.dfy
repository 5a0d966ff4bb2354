/** What an index run leaves under each id, and which files it writes. */
module IndexMeaning {
  import opened Strings
  import opened Stores
  import opened IndexCore

  /** The last node of the list with its id. */
  ghost predicate LastIn(items: seq<Node>, k: nat)
  {
    k < |items| && forall j :: k < j < |items| ==> items[j].id != items[k].id
  }

  lemma {:induction false} UpsertLast(nodes: map<string, Node>, items: seq<Node>, k: nat)
    requires LastIn(items, k)
    ensures items[k].id in UpsertAll(nodes, items) && UpsertAll(nodes, items)[items[k].id] == items[k]
  {
    var n := |items| - 1;
    if k < n {
      assert items[..n][k] == items[k] && forall j :: k < j < n ==> items[..n][j] == items[j];
      UpsertLast(nodes, items[..n], k);
    }
  }

  lemma {:induction false} UpsertOther(nodes: map<string, Node>, items: seq<Node>, id: string)
    requires forall n :: n in items ==> n.id != id
    ensures id in UpsertAll(nodes, items) <==> id in nodes
    ensures id in nodes ==> UpsertAll(nodes, items)[id] == nodes[id]
  {
    if items != [] {
      var n := |items| - 1;
      assert items == items[..n] + [items[n]];
      UpsertOther(nodes, items[..n], id);
    }
  }

  /** The last node of its id in all files: no later one in its file, none in later files. */
  ghost predicate LastBuilt(batches: seq<IndexItem>, i: nat, k: nat)
  {
    && i < |batches| && LastIn(batches[i].nodes, k)
    && forall j, n :: i < j < |batches| && n in batches[j].nodes ==> n.id != batches[i].nodes[k].id
  }

  ghost predicate Built(batches: seq<IndexItem>, id: string)
  {
    exists b, n :: b in batches && n in b.nodes && n.id == id
  }

  lemma {:induction false} BuiltLast(base: map<string, Node>, batches: seq<IndexItem>, i: nat, k: nat)
    requires LastBuilt(batches, i, k)
    ensures var n := batches[i].nodes[k];
      var final := UpsertAll(base, NoEmbed(NodesOf(batches)));
      n.id in final && final[n.id] == n.(embed := false)
  {
    var m := |batches| - 1;
    var x := batches[i].nodes[k];
    var before := NodesOf(batches[..m]);
    NoEmbedAppend(before, batches[m].nodes);
    UpsertAllAppend(base, NoEmbed(before), NoEmbed(batches[m].nodes));
    var base' := UpsertAll(base, NoEmbed(before));
    if i == m {
      UpsertLast(base', NoEmbed(batches[m].nodes), k);
    } else {
      assert LastBuilt(batches[..m], i, k);
      BuiltLast(base, batches[..m], i, k);
      forall n | n in NoEmbed(batches[m].nodes) ensures n.id != x.id {
        var j :| 0 <= j < |batches[m].nodes| && NoEmbed(batches[m].nodes)[j] == n;
        assert batches[m].nodes[j] in batches[m].nodes;
      }
      UpsertOther(base', NoEmbed(batches[m].nodes), x.id);
    }
  }

  lemma NotBuilt(base: map<string, Node>, batches: seq<IndexItem>, id: string)
    requires !Built(batches, id)
    ensures var final := UpsertAll(base, NoEmbed(NodesOf(batches)));
      (id in final <==> id in base) && (id in base ==> final[id] == base[id])
  {
    InBatches(batches);
    var ns := NodesOf(batches);
    forall n | n in NoEmbed(ns) ensures n.id != id {
      var j :| 0 <= j < |ns| && NoEmbed(ns)[j] == n;
      assert ns[j] in ns;
      var b :| b in batches && ns[j] in b.nodes;
    }
    UpsertOther(base, NoEmbed(ns), id);
  }

  /** The id holds that node. */
  predicate Holds(nodes: map<string, Node>, n: Node)
  {
    n.id in nodes && nodes[n.id] == n
  }

  /** A built id holds its last node, without embedding. */
  ghost predicate BuiltHeld(final: map<string, Node>, batches: seq<IndexItem>)
  {
    forall i: nat, k: nat :: LastBuilt(batches, i, k) ==>
      Holds(final, Node(batches[i].nodes[k].id, batches[i].nodes[k].body, false))
  }

  /** Any other id of a folder or import node holds the last of those, as it was sent. */
  ghost predicate AuxHeld(final: map<string, Node>, aux: seq<Node>, batches: seq<IndexItem>)
  {
    forall k: nat :: LastIn(aux, k) && !Built(batches, aux[k].id) ==> Holds(final, aux[k])
  }

  /** An id that was not sent is as it was. */
  ghost predicate RestHeld(nodes: map<string, Node>, final: map<string, Node>, aux: seq<Node>, batches: seq<IndexItem>)
  {
    forall id :: !Built(batches, id) && (forall n :: n in aux ==> n.id != id) ==>
      (id in final <==> id in nodes) && (id in nodes ==> final[id] == nodes[id])
  }

  lemma FinalExactly(nodes: map<string, Node>, aux: seq<Node>, batches: seq<IndexItem>)
    ensures var final := FinalNodes(nodes, aux, batches);
      BuiltHeld(final, batches) && AuxHeld(final, aux, batches) && RestHeld(nodes, final, aux, batches)
  {
    hide UpsertAll, NodesOf, Built;
    var base := UpsertAll(nodes, aux);
    var final := FinalNodes(nodes, aux, batches);
    forall i: nat, k: nat | LastBuilt(batches, i, k)
      ensures Holds(final, Node(batches[i].nodes[k].id, batches[i].nodes[k].body, false))
    {
      BuiltLast(base, batches, i, k);
    }
    forall k: nat | LastIn(aux, k) && !Built(batches, aux[k].id) ensures Holds(final, aux[k]) {
      UpsertLast(nodes, aux, k);
      NotBuilt(base, batches, aux[k].id);
    }
    forall id | !Built(batches, id) && (forall n :: n in aux ==> n.id != id)
      ensures (id in final <==> id in nodes) && (id in nodes ==> final[id] == nodes[id])
    {
      UpsertOther(nodes, aux, id);
      NotBuilt(base, batches, id);
    }
  }

  function Same(b: IndexItem): IndexItem
  {
    b
  }

  lemma {:induction false} WrittenStep(items: seq<IndexItem>, b: IndexItem)
    ensures Written(items + [b]) == Written(items) + if b.write then [b] else []
  {
    if items == [] {
      assert items + [b] == [b] && [b][1..] == [];
    } else {
      assert (items + [b])[1..] == items[1..] + [b];
      WrittenStep(items[1..], b);
    }
  }

  /** The files of the run are those with the write flag, in their order. */
  lemma {:induction false} WrittenExactly(items: seq<IndexItem>)
    ensures Picks(items, (b: IndexItem) => b.write, Same, Written(items))
  {
    hide HowMany, Written;
    if items == [] {
      PicksNone((b: IndexItem) => b.write, Same);
      NothingWritten();
    } else {
      var n := |items| - 1;
      assert items == items[..n] + [items[n]];
      WrittenExactly(items[..n]);
      WrittenStep(items[..n], items[n]);
      PicksMore(items, (b: IndexItem) => b.write, Same, Written(items[..n]));
    }
  }

  lemma NothingWritten()
    ensures Written([]) == []
  {
  }

  lemma {:induction false} JoinCountExactly(ids: set<string>, es: seq<Edge>)
    ensures JoinCount(ids, es) == HowMany(es, (e: Edge) => e.source in ids && e.target in ids)
  {
    if es != [] {
      JoinCountExactly(ids, es[..|es| - 1]);
      HowManyMore(es, (e: Edge) => e.source in ids && e.target in ids);
    }
  }
}
