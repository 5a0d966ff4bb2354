/** The two-pass index write: every node before the first edge, then every file with its edges. */
module IndexCore {
  import opened Options
  import opened Stores
  import opened BatchWriters

  /** One parsed file, what its batch holds, and whether this run writes it. */
  datatype IndexItem = IndexItem(abs: string, nodes: seq<Node>, edges: seq<Edge>, write: bool)

  datatype IndexResult = IndexResult(filesIndexed: int, nodesWritten: nat, edgesWritten: int, errors: seq<BatchError>)

  function Written(items: seq<IndexItem>): (r: seq<IndexItem>)
    ensures forall b :: b in r <==> b in items && b.write
  {
    if items == [] then []
    else (if items[0].write then [items[0]] else []) + Written(items[1..])
  }

  function NodesOf(batches: seq<IndexItem>): seq<Node>
  {
    if batches == [] then [] else NodesOf(batches[..|batches| - 1]) + batches[|batches| - 1].nodes
  }

  function EdgesOf(batches: seq<IndexItem>): seq<Edge>
  {
    if batches == [] then [] else EdgesOf(batches[..|batches| - 1]) + batches[|batches| - 1].edges
  }

  function PathsOf(batches: seq<IndexItem>): (r: seq<string>)
    ensures |r| == |batches| && forall i :: 0 <= i < |batches| ==> r[i] == batches[i].abs
  {
    seq(|batches|, i requires 0 <= i < |batches| => batches[i].abs)
  }

  function NoEmbed(nodes: seq<Node>): (r: seq<Node>)
    ensures |r| == |nodes| && forall i :: 0 <= i < |nodes| ==> r[i] == nodes[i].(embed := false)
  {
    seq(|nodes|, i requires 0 <= i < |nodes| => nodes[i].(embed := false))
  }

  function IdSet(nodes: seq<Node>): set<string>
  {
    set n | n in nodes :: n.id
  }

  /** The upsert of a whole list, nothing refused. */
  function UpsertAll(nodes: map<string, Node>, items: seq<Node>): map<string, Node>
  {
    if items == [] then nodes
    else UpsertAll(nodes, items[..|items| - 1])[items[|items| - 1].id := items[|items| - 1]]
  }

  /** The edges with every edge of the list added whose endpoints are among the ids. */
  function Joined(edges: set<Edge>, ids: set<string>, es: seq<Edge>): set<Edge>
  {
    edges + set e | e in es && e.source in ids && e.target in ids
  }

  // ---- Upserts ---------------------------------------------------------------------------

  lemma {:induction false} NothingRefused(nodes: map<string, Node>, items: seq<Node>, rows: seq<Row>)
    requires |rows| == |items| && forall i :: 0 <= i < |rows| ==> rows[i].Stored?
    ensures Upserted(nodes, items, rows) == UpsertAll(nodes, items)
  {
    if items != [] {
      NothingRefused(nodes, items[..|items| - 1], rows[..|items| - 1]);
    }
  }

  lemma {:induction false} UpsertAllAppend(nodes: map<string, Node>, a: seq<Node>, b: seq<Node>)
    ensures UpsertAll(nodes, a + b) == UpsertAll(UpsertAll(nodes, a), b)
  {
    if b == [] {
      assert a + b == a;
    } else {
      assert (a + b)[..|a + b| - 1] == a + b[..|b| - 1];
      UpsertAllAppend(nodes, a, b[..|b| - 1]);
    }
  }

  /** What an upsert leaves under an id: the last item with that id, else what was there. */
  lemma {:induction false} UpsertAllAt(nodes: map<string, Node>, items: seq<Node>, id: string)
    ensures id in UpsertAll(nodes, items) <==> id in nodes || id in IdSet(items)
    ensures id !in IdSet(items) && id in nodes ==> UpsertAll(nodes, items)[id] == nodes[id]
    ensures id in IdSet(items) ==>
      id in UpsertAll(nodes, items) && UpsertAll(nodes, items)[id] in items &&
      UpsertAll(nodes, items)[id].id == id
  {
    if items != [] {
      var n := |items| - 1;
      assert items == items[..n] + [items[n]];
      UpsertAllAt(nodes, items[..n], id);
      assert id in IdSet(items) <==> id in IdSet(items[..n]) || id == items[n].id by {
        if id == items[n].id { assert items[n] in items; }
      }
    }
  }

  lemma UpsertAllKeys(nodes: map<string, Node>, items: seq<Node>)
    ensures UpsertAll(nodes, items).Keys == nodes.Keys + IdSet(items)
  {
    hide UpsertAll, IdSet;
    forall id ensures id in UpsertAll(nodes, items).Keys <==> id in nodes.Keys + IdSet(items) {
      UpsertAllAt(nodes, items, id);
    }
  }

  /** Writing a list again without embedding leaves what only that writing would leave. */
  lemma {:induction false} RewriteIsLast(nodes: map<string, Node>, items: seq<Node>)
    ensures UpsertAll(UpsertAll(nodes, items), NoEmbed(items)) == UpsertAll(nodes, NoEmbed(items))
  {
    var twice, once := UpsertAll(UpsertAll(nodes, items), NoEmbed(items)), UpsertAll(nodes, NoEmbed(items));
    IdsKept(items);
    forall id ensures id in twice <==> id in once {
      UpsertAllAt(UpsertAll(nodes, items), NoEmbed(items), id);
      UpsertAllAt(nodes, items, id);
      UpsertAllAt(nodes, NoEmbed(items), id);
    }
    forall id | id in once ensures twice[id] == once[id] {
      if id in IdSet(NoEmbed(items)) { LastWins(UpsertAll(nodes, items), nodes, NoEmbed(items), id); }
      UpsertAllAt(UpsertAll(nodes, items), NoEmbed(items), id);
      UpsertAllAt(nodes, items, id);
      UpsertAllAt(nodes, NoEmbed(items), id);
    }
  }

  lemma IdsKept(items: seq<Node>)
    ensures IdSet(NoEmbed(items)) == IdSet(items)
  {
    forall id ensures id in IdSet(NoEmbed(items)) <==> id in IdSet(items) {
      if n :| n in items && n.id == id {
        var i :| 0 <= i < |items| && items[i] == n;
        assert NoEmbed(items)[i].id == id && NoEmbed(items)[i] in NoEmbed(items);
      }
    }
  }

  lemma {:induction false} LastWins(m: map<string, Node>, m': map<string, Node>, items: seq<Node>, id: string)
    requires id in IdSet(items)
    ensures id in UpsertAll(m, items) && id in UpsertAll(m', items) &&
      UpsertAll(m, items)[id] == UpsertAll(m', items)[id]
  {
    var n := |items| - 1;
    assert items == items[..n] + [items[n]];
    if id != items[n].id {
      assert id in IdSet(items[..n]);
      LastWins(m, m', items[..n], id);
    }
  }

  // ---- What was sent ------------------------------------------------------------------------

  /** Everything queued was sent, in order, but for what is still pending. */
  ghost predicate SentUpTo<T>(before: seq<seq<T>>, after: seq<seq<T>>, queued: seq<T>, pending: seq<T>)
  {
    |pending| <= |queued| && queued[|queued| - |pending|..] == pending
    && SentInOrder(before, after, queued[..|queued| - |pending|])
  }

  lemma Queue<T>(before: seq<seq<T>>, after: seq<seq<T>>, queued: seq<T>, pending: seq<T>, more: seq<T>)
    requires SentUpTo(before, after, queued, pending)
    ensures SentUpTo(before, after, queued + more, pending + more)
  {
    hide SentInOrder;
    var q, p := queued + more, pending + more;
    assert q[..|q| - |p|] == queued[..|queued| - |pending|];
    assert q[|q| - |p|..] == p;
  }

  lemma FlattenConcat<T>(a: seq<seq<T>>, b: seq<seq<T>>)
    ensures Flatten(a + b) == Flatten(a) + Flatten(b)
  {
    if b == [] {
      assert a + b == a;
    } else {
      var n := |b| - 1;
      assert a + b == (a + b[..n]) + [b[n]];
      FlattenConcat(a, b[..n]);
      FlattenAppend(a + b[..n], b[n]);
    }
  }

  lemma SendPending<T>(before: seq<seq<T>>, after: seq<seq<T>>, now: seq<seq<T>>, queued: seq<T>, pending: seq<T>)
    requires SentUpTo(before, after, queued, pending) && SentInOrder(after, now, pending)
    ensures SentUpTo(before, now, queued, [])
  {
    hide Flatten;
    var n := |before|;
    assert now[n..] == after[n..] + now[|after|..] && now[..n] == before;
    FlattenConcat(after[n..], now[|after|..]);
    assert queued[..|queued|] == queued[..|queued| - |pending|] + pending;
  }

  lemma SentAll<T>(before: seq<seq<T>>, after: seq<seq<T>>, queued: seq<T>)
    requires SentUpTo(before, after, queued, [])
    ensures SentInOrder(before, after, queued)
  {
    assert queued[..|queued|] == queued;
  }

  // ---- What was joined -----------------------------------------------------------------------

  lemma LinkedJoins(edges: set<Edge>, nodes: map<string, Node>, items: seq<Edge>, rows: seq<Row>)
    requires RowsByPresence(nodes, items, rows)
    ensures Linked(edges, items, rows) == Joined(edges, nodes.Keys, items)
  {
    forall e ensures e in Linked(edges, items, rows) <==> e in Joined(edges, nodes.Keys, items) {
      if e in items && e.source in nodes && e.target in nodes {
        var i :| 0 <= i < |items| && items[i] == e;
        assert rows[i].Stored?;
      }
    }
  }

  lemma JoinedAppend(edges: set<Edge>, ids: set<string>, a: seq<Edge>, b: seq<Edge>)
    ensures Joined(edges, ids, a + b) == Joined(Joined(edges, ids, a), ids, b)
  {
  }

  // ---- A flush with nothing refused --------------------------------------------------------------

  lemma {:induction false} NoFailures(rows: seq<Row>)
    requires forall i :: 0 <= i < |rows| ==> rows[i].Stored?
    ensures FailedNodes(rows) == map[] && RefusedCount(rows) == 0
  {
    if rows != [] { NoFailures(rows[..|rows| - 1]); }
  }

  lemma {:induction false} NoEdgeErrors(files: seq<PendingFile>, edges: seq<Edge>, rows: seq<Row>)
    requires |rows| == |edges| && forall i :: 0 <= i < |rows| ==> rows[i].Stored?
    ensures EdgeErrors(files, edges, rows) == []
  {
    if rows != [] { NoEdgeErrors(files, edges[..|edges| - 1], rows[..|rows| - 1]); }
  }

  /** Entries that `addAux` made. */
  ghost predicate AuxOnly(files: seq<PendingFile>)
  {
    forall f :: f in files ==> f.aux && f.nodeIds == []
  }

  /** Auxiliary entries never land. */
  lemma {:induction false} AuxNeverLands(files: seq<PendingFile>, failed: map<string, string>, blamed: set<string>)
    requires AuxOnly(files)
    ensures LandedFiles(files, failed, blamed) == []
  {
    if files != [] {
      assert files[|files| - 1].aux;
      AuxNeverLands(files[..|files| - 1], failed, blamed);
    }
  }

  // ---- Pass 1: nodes -----------------------------------------------------------------------------------

  /** What holds throughout the node pass, `queued` being all it has queued. */
  ghost predicate NodePhase(w: BatchWriter, nodes0: map<string, Node>, nodeCalls0: seq<seq<Node>>, queued: seq<Node>)
    reads w, w.store
  {
    && w.Valid() && w.pendingEdges == [] && AuxOnly(w.pendingFiles)
    && SentUpTo(nodeCalls0, w.store.nodeCalls, queued, w.pendingNodes)
    && (w.store.reliable ==> UpsertAll(w.store.nodes, w.pendingNodes) == UpsertAll(nodes0, queued))
  }

  method QueueNodes(w: BatchWriter, name: string, nodes: seq<Node>,
                    ghost nodes0: map<string, Node>, ghost nodeCalls0: seq<seq<Node>>, ghost queued: seq<Node>)
    requires NodePhase(w, nodes0, nodeCalls0, queued)
    modifies w`pendingNodes, w`pendingEdges, w`pendingFiles
    ensures NodePhase(w, nodes0, nodeCalls0, queued + nodes)
  {
    hide SentUpTo, UpsertAll;
    Queue(nodeCalls0, w.store.nodeCalls, queued, w.pendingNodes, nodes);
    UpsertAllAppend(w.store.nodes, w.pendingNodes, nodes);
    UpsertAllAppend(nodes0, queued, nodes);
    assert w.pendingEdges + [] == [];
    w.AddAux(name, nodes, []);
  }

  lemma SentNoEdges(before: seq<seq<Edge>>, after: seq<seq<Edge>>)
    requires SentInOrder(before, after, [])
    ensures after == before
  {
    var tail := after[|before|..];
    assert after == after[..|before|] + tail;
  }

  method FlushNodes(
    w: BatchWriter, ghost nodes0: map<string, Node>, ghost nodeCalls0: seq<seq<Node>>, ghost queued: seq<Node>)
    requires NodePhase(w, nodes0, nodeCalls0, queued)
    modifies w, w.store
    ensures NodePhase(w, nodes0, nodeCalls0, queued) && w.pendingNodes == [] && w.pendingFiles == []
    ensures w.store.edges == old(w.store.edges) && w.store.edgeCalls == old(w.store.edgeCalls)
    ensures w.errors == old(w.errors) && w.filesDoneTotal == old(w.filesDoneTotal) && w.edgesTotal == old(w.edgesTotal)
  {
    hide SentUpTo, UpsertAll, Upserted, SentInOrder, LandedFiles, NodeErrors, FailedNodes, RowsName, RowsByPresence,
      Present;
    ghost var files, pending, was, calls := w.pendingFiles, w.pendingNodes, w.store.nodes, w.store.nodeCalls;
    ghost var edgeCalls := w.store.edgeCalls;
    var landed, nodeRows, edgeRows := w.Flush();
    SendPending(nodeCalls0, calls, w.store.nodeCalls, queued, pending);
    SentNoEdges(edgeCalls, w.store.edgeCalls);
    AuxNeverLands(files, FailedNodes(nodeRows), Blamed([]));
    NodeErrorsExactlyWhen(files, FailedNodes(nodeRows));
    if w.store.reliable {
      NothingRefused(was, pending, nodeRows);
    }
    UpsertNothing(w.store.nodes);
  }

  lemma UpsertNothing(nodes: map<string, Node>)
    ensures UpsertAll(nodes, []) == nodes
  {
  }

  function NodeFlushEvery(batchSize: Option<int>): nat
  {
    if batchSize.None? then 50 else if batchSize.value < 1 then 1 else batchSize.value
  }

  lemma NothingOf(batches: seq<IndexItem>)
    ensures NodesOf(batches[..0]) == [] && EdgesOf(batches[..0]) == [] && PathsOf(batches[..0]) == []
    ensures Flatten<string>([]) == []
  {
  }

  lemma NodesOfNext(batches: seq<IndexItem>, i: nat)
    requires i < |batches|
    ensures NodesOf(batches[..i + 1]) == NodesOf(batches[..i]) + batches[i].nodes
    ensures EdgesOf(batches[..i + 1]) == EdgesOf(batches[..i]) + batches[i].edges
  {
    assert batches[..i + 1][..i] == batches[..i];
  }

  lemma StartNodes(w: BatchWriter)
    requires w.Valid() && w.pendingFiles == []
    ensures NodePhase(w, w.store.nodes, w.store.nodeCalls, [])
  {
    SentNothing(w.store.nodeCalls);
  }

  method NodePass(w: BatchWriter, aux: seq<Node>, batches: seq<IndexItem>, batchSize: Option<int>)
    requires w.Valid() && w.pendingFiles == []
    modifies w, w.store
    ensures w.Valid() && w.pendingFiles == []
    ensures SentInOrder(old(w.store.nodeCalls), w.store.nodeCalls, aux + NodesOf(batches))
    ensures w.store.reliable ==> w.store.nodes == UpsertAll(old(w.store.nodes), aux + NodesOf(batches))
    ensures w.store.edges == old(w.store.edges) && w.store.edgeCalls == old(w.store.edgeCalls)
    ensures w.errors == old(w.errors) && w.filesDoneTotal == old(w.filesDoneTotal) && w.edgesTotal == old(w.edgesTotal)
  {
    hide SentUpTo, UpsertAll, SentInOrder, NodesOf;
    ghost var nodes0, nodeCalls0 := w.store.nodes, w.store.nodeCalls;
    var nodeBuffered := 0;
    StartNodes(w);
    if |aux| > 0 {
      QueueNodes(w, "<gf3-folder-import-nodes>", aux, nodes0, nodeCalls0, []);
      assert [] + aux == aux;
    }
    NothingOf(batches);
    assert aux + NodesOf(batches[..0]) == aux;
    for i := 0 to |batches|
      invariant NodePhase(w, nodes0, nodeCalls0, aux + NodesOf(batches[..i]))
      invariant w.store.edges == old(w.store.edges) && w.store.edgeCalls == old(w.store.edgeCalls)
      invariant w.errors == old(w.errors) && w.filesDoneTotal == old(w.filesDoneTotal) &&
        w.edgesTotal == old(w.edgesTotal)
    {
      var b := batches[i];
      QueueNodes(w, "<nodes:" + b.abs + ">", b.nodes, nodes0, nodeCalls0, aux + NodesOf(batches[..i]));
      NodesOfNext(batches, i);
      assert aux + NodesOf(batches[..i]) + b.nodes == aux + NodesOf(batches[..i + 1]);
      nodeBuffered := nodeBuffered + 1;
      if nodeBuffered >= NodeFlushEvery(batchSize) {
        FlushNodes(w, nodes0, nodeCalls0, aux + NodesOf(batches[..i + 1]));
        nodeBuffered := 0;
      }
    }
    assert batches[..|batches|] == batches;
    FlushNodes(w, nodes0, nodeCalls0, aux + NodesOf(batches));
    UpsertNothing(w.store.nodes);
    SentAll(nodeCalls0, w.store.nodeCalls, aux + NodesOf(batches));
  }

  // ---- Pass 2: edges -----------------------------------------------------------------------------------

  /** Where the edge pass started. */
  datatype Start = Start(
    nodes: map<string, Node>, edges: set<Edge>, nodeCalls: seq<seq<Node>>, edgeCalls: seq<seq<Edge>>,
    edgesTotal: int, filesDone: nat, errors: seq<BatchError>)

  predicate AllJoin(ids: set<string>, es: seq<Edge>)
  {
    forall e :: e in es ==> e.source in ids && e.target in ids
  }

  /** How many edges of the list have both endpoints among the ids. */
  function JoinCount(ids: set<string>, es: seq<Edge>): nat
  {
    if es == [] then 0
    else
      var e := es[|es| - 1];
      JoinCount(ids, es[..|es| - 1]) + if e.source in ids && e.target in ids then 1 else 0
  }

  lemma {:induction false} JoinCountAppend(ids: set<string>, a: seq<Edge>, b: seq<Edge>)
    ensures JoinCount(ids, a + b) == JoinCount(ids, a) + JoinCount(ids, b)
  {
    if b == [] {
      assert a + b == a;
    } else {
      assert (a + b)[..|a + b| - 1] == a + b[..|b| - 1];
      JoinCountAppend(ids, a, b[..|b| - 1]);
    }
  }

  lemma {:induction false} AcceptedCount(nodes: map<string, Node>, items: seq<Edge>, rows: seq<Row>)
    requires RowsByPresence(nodes, items, rows)
    ensures |items| - RefusedCount(rows) == JoinCount(nodes.Keys, items)
  {
    if items != [] {
      AcceptedCount(nodes, items[..|items| - 1], rows[..|rows| - 1]);
    }
  }

  /** What holds throughout the edge pass, `nodes` and `edges` being all it has queued. */
  ghost predicate EdgePhase(w: BatchWriter, s: Start, nodes: seq<Node>, edges: seq<Edge>)
    reads w, w.store
  {
    && w.Valid()
    && SentUpTo(s.nodeCalls, w.store.nodeCalls, nodes, w.pendingNodes)
    && SentUpTo(s.edgeCalls, w.store.edgeCalls, edges, w.pendingEdges)
    && (w.store.reliable ==>
          var ids := s.nodes.Keys;
          && w.store.nodes.Keys == ids && IdSet(w.pendingNodes) <= ids
          && UpsertAll(w.store.nodes, w.pendingNodes) == UpsertAll(s.nodes, nodes)
          && Joined(w.store.edges, ids, w.pendingEdges) == Joined(s.edges, ids, edges)
          && w.edgesTotal + JoinCount(ids, w.pendingEdges) == s.edgesTotal + JoinCount(ids, edges))
  }

  /** What holds besides while no queued edge dangles: every file lands. */
  ghost predicate CleanPhase(w: BatchWriter, s: Start, landed: seq<string>, paths: seq<string>)
    reads w
  {
    && AllJoin(s.nodes.Keys, w.pendingEdges)
    && landed + LandedFiles(w.pendingFiles, map[], {}) == paths
    && w.filesDoneTotal == s.filesDone + |landed| && w.errors == s.errors
  }

  lemma IdSetAppend(a: seq<Node>, b: seq<Node>)
    ensures IdSet(a + b) == IdSet(a) + IdSet(b)
  {
  }

  /** What queueing does to the quantities the edge pass keeps. */
  lemma QueueEdges(s: Start, storeNodes: map<string, Node>, storeEdges: set<Edge>, pendingNodes: seq<Node>,
                   pendingEdges: seq<Edge>,
                   nodes: seq<Node>, edges: seq<Edge>, moreNodes: seq<Node>, moreEdges: seq<Edge>, total: int)
    requires UpsertAll(storeNodes, pendingNodes) == UpsertAll(s.nodes, nodes)
    requires Joined(storeEdges, s.nodes.Keys, pendingEdges) == Joined(s.edges, s.nodes.Keys, edges)
    requires total + JoinCount(s.nodes.Keys, pendingEdges) == s.edgesTotal + JoinCount(s.nodes.Keys, edges)
    ensures UpsertAll(storeNodes, pendingNodes + moreNodes) == UpsertAll(s.nodes, nodes + moreNodes)
    ensures Joined(storeEdges, s.nodes.Keys, pendingEdges + moreEdges) ==
      Joined(s.edges, s.nodes.Keys, edges + moreEdges)
    ensures total + JoinCount(s.nodes.Keys, pendingEdges + moreEdges) ==
      s.edgesTotal + JoinCount(s.nodes.Keys, edges + moreEdges)
  {
    hide UpsertAll, JoinCount, Joined;
    UpsertAllAppend(storeNodes, pendingNodes, moreNodes);
    UpsertAllAppend(s.nodes, nodes, moreNodes);
    JoinedAppend(storeEdges, s.nodes.Keys, pendingEdges, moreEdges);
    JoinedAppend(s.edges, s.nodes.Keys, edges, moreEdges);
    JoinCountAppend(s.nodes.Keys, pendingEdges, moreEdges);
    JoinCountAppend(s.nodes.Keys, edges, moreEdges);
  }

  /** What a flush of a reliable store does to them. */
  lemma FlushEdges(s: Start, storeNodes: map<string, Node>, storeEdges: set<Edge>, pendingNodes: seq<Node>,
                   pendingEdges: seq<Edge>,
                   nodeRows: seq<Row>, edgeRows: seq<Row>)
    requires storeNodes.Keys == s.nodes.Keys && IdSet(pendingNodes) <= s.nodes.Keys
    requires |nodeRows| == |pendingNodes| && forall i :: 0 <= i < |nodeRows| ==> nodeRows[i].Stored?
    requires RowsByPresence(Upserted(storeNodes, pendingNodes, nodeRows), pendingEdges, edgeRows)
    ensures Upserted(storeNodes, pendingNodes, nodeRows) == UpsertAll(storeNodes, pendingNodes)
    ensures Upserted(storeNodes, pendingNodes, nodeRows).Keys == s.nodes.Keys
    ensures |edgeRows| == |pendingEdges| && Linked(storeEdges, pendingEdges, edgeRows) ==
      Joined(storeEdges, s.nodes.Keys, pendingEdges)
    ensures |pendingEdges| - RefusedCount(edgeRows) == JoinCount(s.nodes.Keys, pendingEdges)
  {
    hide Upserted, UpsertAll, Linked, Joined, RefusedCount, JoinCount;
    NothingRefused(storeNodes, pendingNodes, nodeRows);
    UpsertAllKeys(storeNodes, pendingNodes);
    var now := Upserted(storeNodes, pendingNodes, nodeRows);
    assert now.Keys == s.nodes.Keys;
    LinkedJoins(storeEdges, now, pendingEdges, edgeRows);
    AcceptedCount(now, pendingEdges, edgeRows);
  }

  /** With nothing refused and no dangling edge, every file of the flush lands. */
  lemma CleanFlush(
    nodes: map<string, Node>, files: seq<PendingFile>, edges: seq<Edge>, nodeRows: seq<Row>, edgeRows: seq<Row>)
    requires AllJoin(nodes.Keys, edges) && RowsByPresence(nodes, edges, edgeRows)
    requires forall i :: 0 <= i < |nodeRows| ==> nodeRows[i].Stored?
    ensures FailedNodes(nodeRows) == map[] && EdgeErrors(files, edges, edgeRows) == [] && NodeErrors(files, map[]) == []
    ensures LandedFiles(files, FailedNodes(nodeRows), Blamed(EdgeErrors(files, edges, edgeRows))) ==
      LandedFiles(files, map[], {})
  {
    hide FailedNodes, EdgeErrors, NodeErrors, LandedFiles;
    NoFailures(nodeRows);
    forall i | 0 <= i < |edgeRows| ensures edgeRows[i].Stored? { assert edges[i] in edges; }
    NoEdgeErrors(files, edges, edgeRows);
    NodeErrorsExactlyWhen(files, map[]);
    assert Blamed(EdgeErrors(files, edges, edgeRows)) == {};
  }

  method FinishEdges(w: BatchWriter, ghost s: Start, ghost clean: bool, ghost nodes: seq<Node>, ghost edges: seq<Edge>,
                     ghost soFar: seq<string>, ghost paths: seq<string>)
    returns (landed: seq<string>)
    requires EdgePhase(w, s, nodes, edges) && (clean ==> w.store.reliable && CleanPhase(w, s, soFar, paths))
    modifies w, w.store
    ensures EdgePhase(w, s, nodes, edges) && w.pendingNodes == [] && w.pendingEdges == [] && w.pendingFiles == []
    ensures clean ==> CleanPhase(w, s, soFar + landed, paths) && soFar + landed == paths
  {
    hide SentUpTo, SentInOrder, UpsertAll, Upserted, Linked, Joined, JoinCount, RefusedCount, RowsName, RowsByPresence;
    hide LandedFiles, FailedNodes, EdgeErrors, NodeErrors, Blamed, Present;
    ghost var files, pn, pe := w.pendingFiles, w.pendingNodes, w.pendingEdges;
    ghost var was, wasE, nc, ec := w.store.nodes, w.store.edges, w.store.nodeCalls, w.store.edgeCalls;
    ghost var nodeRows, edgeRows;
    landed, nodeRows, edgeRows := w.Flush();
    SendPending(s.nodeCalls, nc, w.store.nodeCalls, nodes, pn);
    SendPending(s.edgeCalls, ec, w.store.edgeCalls, edges, pe);
    NothingLeft(w.store.nodes, w.store.edges, s.nodes.Keys);
    if w.store.reliable {
      FlushEdges(s, was, wasE, pn, pe, nodeRows, edgeRows);
      if clean {
        CleanFlush(w.store.nodes, files, pe, nodeRows, edgeRows);
      }
    }
  }

  lemma NothingLeft(nodes: map<string, Node>, edges: set<Edge>, ids: set<string>)
    ensures UpsertAll(nodes, []) == nodes && Joined(edges, ids, []) == edges && JoinCount(ids, []) == 0
    ensures IdSet([]) == {} && AllJoin(ids, []) && LandedFiles([], map[], {}) == []
  {
  }

  lemma OneMoreFile(files: seq<PendingFile>, path: string, ids: seq<string>)
    ensures LandedFiles(files + [PendingFile(path, ids, false)], map[], {}) == LandedFiles(files, map[], {}) + [path]
  {
    var f := PendingFile(path, ids, false);
    NoneFailed(ids, map[]);
    assert (files + [f])[..|files|] == files;
  }

  lemma OneMoreAux(files: seq<PendingFile>, name: string)
    ensures LandedFiles(files + [PendingFile(name, [], true)], map[], {}) == LandedFiles(files, map[], {})
  {
    assert (files + [PendingFile(name, [], true)])[..|files|] == files;
  }

  method AddFile(w: BatchWriter, b: IndexItem, ghost s: Start, ghost clean: bool, ghost nodes: seq<Node>,
                 ghost edges: seq<Edge>,
                 ghost soFar: seq<string>, ghost paths: seq<string>)
    returns (landed: seq<string>)
    requires EdgePhase(w, s, nodes, edges) && (clean ==> w.store.reliable && CleanPhase(w, s, soFar, paths))
    requires w.store.reliable ==> IdSet(b.nodes) <= s.nodes.Keys
    requires clean ==> AllJoin(s.nodes.Keys, b.edges)
    modifies w, w.store
    ensures EdgePhase(w, s, nodes + NoEmbed(b.nodes), edges + b.edges)
    ensures clean ==> CleanPhase(w, s, soFar + landed, paths + [b.abs])
  {
    hide SentUpTo, SentInOrder, UpsertAll, Upserted, Linked, Joined, JoinCount, RefusedCount, RowsName, RowsByPresence;
    hide LandedFiles, FailedNodes, EdgeErrors, NodeErrors, Blamed, Present;
    var sent := NoEmbed(b.nodes);
    ghost var f := PendingFile(b.abs, Ids(sent), false);
    ghost var files, pn, pe := w.pendingFiles + [f], w.pendingNodes + sent, w.pendingEdges + b.edges;
    ghost var was, wasE, nc, ec := w.store.nodes, w.store.edges, w.store.nodeCalls, w.store.edgeCalls;
    Queue(s.nodeCalls, nc, nodes, w.pendingNodes, sent);
    Queue(s.edgeCalls, ec, edges, w.pendingEdges, b.edges);
    IdsKept(b.nodes);
    IdSetAppend(w.pendingNodes, sent);
    OneMoreFile(w.pendingFiles, b.abs, Ids(sent));
    if w.store.reliable {
      QueueEdges(s, was, wasE, w.pendingNodes, w.pendingEdges, nodes, edges, sent, b.edges, w.edgesTotal);
    }
    ghost var flushed, nodeRows, edgeRows;
    landed, flushed, nodeRows, edgeRows := w.Add(b.abs, sent, b.edges);
    if flushed {
      SendPending(s.nodeCalls, nc, w.store.nodeCalls, nodes + sent, pn);
      SendPending(s.edgeCalls, ec, w.store.edgeCalls, edges + b.edges, pe);
      NothingLeft(w.store.nodes, w.store.edges, s.nodes.Keys);
      if w.store.reliable {
        FlushEdges(s, was, wasE, pn, pe, nodeRows, edgeRows);
        if clean {
          CleanFlush(w.store.nodes, files, pe, nodeRows, edgeRows);
        }
      }
    }
  }

  lemma NoEmbedAppend(a: seq<Node>, b: seq<Node>)
    ensures NoEmbed(a + b) == NoEmbed(a) + NoEmbed(b)
  {
  }

  lemma StartEdges(w: BatchWriter, s: Start)
    requires w.Valid() && w.pendingFiles == []
    requires s == Start(w.store.nodes, w.store.edges, w.store.nodeCalls, w.store.edgeCalls, w.edgesTotal,
      w.filesDoneTotal, w.errors)
    ensures EdgePhase(w, s, [], []) && CleanPhase(w, s, [], [])
  {
    SentNothing(w.store.nodeCalls);
    SentNothing(w.store.edgeCalls);
  }

  method QueueFolderEdges(w: BatchWriter, edges: seq<Edge>, ghost s: Start, ghost clean: bool)
    requires EdgePhase(w, s, [], []) && (clean ==> CleanPhase(w, s, [], []) && AllJoin(s.nodes.Keys, edges))
    modifies w`pendingNodes, w`pendingEdges, w`pendingFiles
    ensures EdgePhase(w, s, [], edges) && (clean ==> CleanPhase(w, s, [], []))
  {
    hide SentUpTo, UpsertAll, Joined, JoinCount, LandedFiles;
    Queue(s.nodeCalls, w.store.nodeCalls, [], w.pendingNodes, []);
    Queue(s.edgeCalls, w.store.edgeCalls, [], w.pendingEdges, edges);
    if w.store.reliable {
      QueueEdges(s, w.store.nodes, w.store.edges, w.pendingNodes, w.pendingEdges, [], [], [], edges, w.edgesTotal);
    }
    OneMoreAux(w.pendingFiles, "<gf3-folder-import-edges>");
    IdSetAppend(w.pendingNodes, []);
    assert [] + edges == edges && w.pendingNodes + [] == w.pendingNodes;
    ghost var none: seq<Node> := [];
    assert none + none == none;
    w.AddAux("<gf3-folder-import-edges>", [], edges);
  }

  /** The `onLanded` calls say what landed, and none is empty. */
  function Report(calls: seq<seq<string>>, landed: seq<string>): (r: seq<seq<string>>)
    ensures Flatten(r) == Flatten(calls) + landed
    ensures (forall c :: c in calls ==> c != []) ==> forall c :: c in r ==> c != []
  {
    if |landed| > 0 then
      FlattenAppend(calls, landed);
      calls + [landed]
    else calls
  }

  method EdgePass(w: BatchWriter, folderEdges: seq<Edge>, batches: seq<IndexItem>)
    returns (landedCalls: seq<seq<string>>)
    requires w.Valid() && w.pendingFiles == []
    requires w.store.reliable ==> IdSet(NodesOf(batches)) <= w.store.nodes.Keys
    modifies w, w.store
    ensures w.Valid() && w.pendingFiles == []
    ensures SentInOrder(old(w.store.nodeCalls), w.store.nodeCalls, NoEmbed(NodesOf(batches)))
    ensures SentInOrder(old(w.store.edgeCalls), w.store.edgeCalls, folderEdges + EdgesOf(batches))
    ensures forall c :: c in landedCalls ==> c != []
    ensures var ids, edges := old(w.store.nodes).Keys, folderEdges + EdgesOf(batches);
      w.store.reliable ==>
        && w.store.nodes == UpsertAll(old(w.store.nodes), NoEmbed(NodesOf(batches)))
        && w.store.edges == Joined(old(w.store.edges), ids, edges)
        && w.edgesTotal == old(w.edgesTotal) + JoinCount(ids, edges)
        && (AllJoin(ids, edges) ==>
              && Flatten(landedCalls) == PathsOf(batches) && w.errors == old(w.errors)
              && w.filesDoneTotal == old(w.filesDoneTotal) + |batches|)
  {
    hide EdgePhase, CleanPhase, UpsertAll, Joined, JoinCount, SentInOrder, NodesOf, EdgesOf, Flatten;
    ghost var s := Start(w.store.nodes, w.store.edges, w.store.nodeCalls, w.store.edgeCalls, w.edgesTotal,
      w.filesDoneTotal, w.errors);
    ghost var clean := w.store.reliable && AllJoin(s.nodes.Keys, folderEdges + EdgesOf(batches));
    StartEdges(w, s);
    if |folderEdges| > 0 {
      QueueFolderEdges(w, folderEdges, s, clean);
    }
    landedCalls := [];
    NothingOf(batches);
    assert folderEdges + EdgesOf(batches[..0]) == folderEdges;
    for i := 0 to |batches|
      invariant EdgePhase(w, s, NoEmbed(NodesOf(batches[..i])), folderEdges + EdgesOf(batches[..i]))
      invariant clean ==> CleanPhase(w, s, Flatten(landedCalls), PathsOf(batches[..i]))
      invariant forall c :: c in landedCalls ==> c != []
    {
      var b := batches[i];
      NodesOfNext(batches, i);
      PrefixOf(batches, i);
      NoEmbedAppend(NodesOf(batches[..i]), b.nodes);
      assert folderEdges + EdgesOf(batches[..i]) + b.edges == folderEdges + EdgesOf(batches[..i + 1]);
      assert PathsOf(batches[..i + 1]) == PathsOf(batches[..i]) + [b.abs];
      var landed := AddFile(w, b, s, clean, NoEmbed(NodesOf(batches[..i])), folderEdges + EdgesOf(batches[..i]),
        Flatten(landedCalls), PathsOf(batches[..i]));
      landedCalls := Report(landedCalls, landed);
    }
    assert batches[..|batches|] == batches;
    var landed := FinishEdges(w, s, clean, NoEmbed(NodesOf(batches)), folderEdges + EdgesOf(batches),
      Flatten(landedCalls), PathsOf(batches));
    landedCalls := Report(landedCalls, landed);
    EdgesDone(w, s, NoEmbed(NodesOf(batches)), folderEdges + EdgesOf(batches));
    if clean {
      CleanDone(w, s, Flatten(landedCalls), PathsOf(batches));
    }
  }

  /** Every batch is part of what is queued in all. */
  lemma {:induction false} PrefixOf(batches: seq<IndexItem>, i: nat)
    requires i < |batches|
    ensures IdSet(batches[i].nodes) <= IdSet(NodesOf(batches))
    ensures forall e :: e in batches[i].edges ==> e in EdgesOf(batches)
    decreases |batches|
  {
    var n := |batches| - 1;
    IdSetAppend(NodesOf(batches[..n]), batches[n].nodes);
    if i < n { PrefixOf(batches[..n], i); }
  }

  lemma EdgesDone(w: BatchWriter, s: Start, nodes: seq<Node>, edges: seq<Edge>)
    requires EdgePhase(w, s, nodes, edges) && w.pendingNodes == [] && w.pendingEdges == []
    ensures SentInOrder(s.nodeCalls, w.store.nodeCalls, nodes) && SentInOrder(s.edgeCalls, w.store.edgeCalls, edges)
    ensures w.Valid()
    ensures w.store.reliable ==>
      && w.store.nodes == UpsertAll(s.nodes, nodes) && w.store.edges == Joined(s.edges, s.nodes.Keys, edges)
      && w.edgesTotal == s.edgesTotal + JoinCount(s.nodes.Keys, edges)
  {
    hide SentInOrder;
    SentAll(s.nodeCalls, w.store.nodeCalls, nodes);
    SentAll(s.edgeCalls, w.store.edgeCalls, edges);
    NothingLeft(w.store.nodes, w.store.edges, s.nodes.Keys);
  }

  lemma CleanDone(w: BatchWriter, s: Start, landed: seq<string>, paths: seq<string>)
    requires CleanPhase(w, s, landed, paths) && landed == paths
    ensures w.filesDoneTotal == s.filesDone + |paths| && w.errors == s.errors
  {
  }

  // ---- The run -----------------------------------------------------------------------------------------------

  /** The nodes a whole run leaves. */
  function FinalNodes(nodes: map<string, Node>, aux: seq<Node>, batches: seq<IndexItem>): map<string, Node>
  {
    UpsertAll(UpsertAll(nodes, aux), NoEmbed(NodesOf(batches)))
  }

  method CountNodes(batches: seq<IndexItem>) returns (count: nat)
    ensures count == |NodesOf(batches)|
  {
    count := 0;
    for i := 0 to |batches|
      invariant count == |NodesOf(batches[..i])|
    {
      NodesOfNext(batches, i);
      count := count + |batches[i].nodes|;
    }
    assert batches[..|batches|] == batches;
  }

  method IndexRepoFiles(w: BatchWriter, folderNodes: seq<Node>, importNodes: seq<Node>, folderEdges: seq<Edge>,
                        items: seq<IndexItem>, batchSize: Option<int>)
    returns (result: IndexResult, landedCalls: seq<seq<string>>)
    requires w.Valid() && w.pendingFiles == []
    modifies w, w.store
    ensures var aux, batches := folderNodes + importNodes, Written(items);
      && SentInOrder(old(w.store.nodeCalls), w.store.nodeCalls, aux + NodesOf(batches) + NoEmbed(NodesOf(batches)))
      && SentInOrder(old(w.store.edgeCalls), w.store.edgeCalls, folderEdges + EdgesOf(batches))
      && (forall c :: c in landedCalls ==> c != [])
      && result.nodesWritten == |aux| + |NodesOf(batches)|
      && (w.store.reliable ==>
            var ids, edges := old(w.store.nodes).Keys + IdSet(aux) + IdSet(NodesOf(batches)),
              folderEdges + EdgesOf(batches);
            && w.store.nodes == FinalNodes(old(w.store.nodes), aux, batches) && w.store.nodes.Keys == ids
            && w.store.edges == Joined(old(w.store.edges), ids, edges)
            && result.edgesWritten == old(w.edgesTotal) + JoinCount(ids, edges)
            && (AllJoin(ids, edges) ==>
                  && Flatten(landedCalls) == PathsOf(batches) && result.errors == old(w.errors)
                  && result.filesIndexed == old(w.filesDoneTotal) + |batches|))
  {
    hide UpsertAll, Joined, JoinCount, SentInOrder, NodesOf, EdgesOf, Flatten, IdSet;
    var batches := Written(items);
    ghost var aux, nodes0, nodeCalls0 := folderNodes + importNodes, w.store.nodes, w.store.nodeCalls;
    NodePass(w, folderNodes + importNodes, batches, batchSize);
    UpsertAllKeys(nodes0, aux + NodesOf(batches));
    IdSetAppend(aux, NodesOf(batches));
    ghost var nodeCalls1, ids := w.store.nodeCalls, nodes0.Keys + IdSet(aux) + IdSet(NodesOf(batches));
    assert nodes0.Keys + (IdSet(aux) + IdSet(NodesOf(batches))) == ids;
    assert w.store.reliable ==> w.store.nodes.Keys == ids;
    landedCalls := EdgePass(w, folderEdges, batches);
    SentTwice(nodeCalls0, nodeCalls1, w.store.nodeCalls, aux + NodesOf(batches), NoEmbed(NodesOf(batches)));
    UpsertAllAppend(nodes0, aux, NodesOf(batches));
    RewriteIsLast(UpsertAll(nodes0, aux), NodesOf(batches));
    UpsertAllKeys(nodes0, aux);
    UpsertAllKeys(UpsertAll(nodes0, aux), NoEmbed(NodesOf(batches)));
    IdsKept(NodesOf(batches));
    var count := CountNodes(batches);
    result := IndexResult(w.filesDoneTotal, |folderNodes| + |importNodes| + count, w.edgesTotal, w.errors);
  }

  lemma SentTwice<T>(a: seq<seq<T>>, b: seq<seq<T>>, c: seq<seq<T>>, x: seq<T>, y: seq<T>)
    requires SentInOrder(a, b, x) && SentInOrder(b, c, y)
    ensures SentInOrder(a, c, x + y)
  {
    hide Flatten;
    assert c[|a|..] == b[|a|..] + c[|b|..] && c[..|a|] == a;
    FlattenConcat(b[|a|..], c[|b|..]);
  }

  // ---- Order and batch size do not matter -------------------------------------------------------------------

  /** Nodes under one id are the same node, whichever file brings them. */
  ghost predicate Agree(nodes: seq<Node>)
  {
    forall m, n :: m in nodes && n in nodes && m.id == n.id ==> m.body == n.body
  }

  lemma {:induction false} InBatches(batches: seq<IndexItem>)
    ensures forall n :: n in NodesOf(batches) <==> exists b :: b in batches && n in b.nodes
    ensures forall e :: e in EdgesOf(batches) <==> exists b :: b in batches && e in b.edges
  {
    if batches != [] {
      var k := |batches| - 1;
      InBatches(batches[..k]);
      assert batches == batches[..k] + [batches[k]];
      forall n ensures n in NodesOf(batches) <==> exists b :: b in batches && n in b.nodes {
        if n in NodesOf(batches) {
          if n in NodesOf(batches[..k]) {
            var b :| b in batches[..k] && n in b.nodes;
            assert b in batches;
          } else {
            assert batches[k] in batches && n in batches[k].nodes;
          }
        }
        if b :| b in batches && n in b.nodes {
          assert b in batches[..k] || b == batches[k];
        }
      }
      forall e ensures e in EdgesOf(batches) <==> exists b :: b in batches && e in b.edges {
        if e in EdgesOf(batches) {
          if e in EdgesOf(batches[..k]) {
            var b :| b in batches[..k] && e in b.edges;
            assert b in batches;
          } else {
            assert batches[k] in batches && e in batches[k].edges;
          }
        }
        if b :| b in batches && e in b.edges {
          assert b in batches[..k] || b == batches[k];
        }
      }
    }
  }

  /** Two orders of the same files leave the same edges, and the same nodes when no two
      files disagree about a node. */
  lemma OrderDoesNotMatter(nodes: map<string, Node>, edges: set<Edge>, aux: seq<Node>, folderEdges: seq<Edge>,
                           items: seq<IndexItem>, items': seq<IndexItem>)
    requires forall b :: b in items <==> b in items'
    ensures var batches, batches' := Written(items), Written(items');
      var ids := nodes.Keys + IdSet(aux) + IdSet(NodesOf(batches));
      && IdSet(NodesOf(batches)) == IdSet(NodesOf(batches'))
      && Joined(edges, ids, folderEdges + EdgesOf(batches)) == Joined(edges, ids, folderEdges + EdgesOf(batches'))
      && (Agree(NodesOf(batches)) ==> FinalNodes(nodes, aux, batches) == FinalNodes(nodes, aux, batches'))
  {
    var batches, batches' := Written(items), Written(items');
    var ns, ns' := NodesOf(batches), NodesOf(batches');
    SameContents(batches, batches');
    assert IdSet(ns) == IdSet(ns');
    assert forall e :: e in folderEdges + EdgesOf(batches) <==> e in folderEdges + EdgesOf(batches');
    if Agree(ns) {
      hide UpsertAll, NodesOf, EdgesOf;
      var base := UpsertAll(nodes, aux);
      var a, b := UpsertAll(base, NoEmbed(ns)), UpsertAll(base, NoEmbed(ns'));
      IdsKept(ns);
      IdsKept(ns');
      UpsertAllKeys(base, NoEmbed(ns));
      UpsertAllKeys(base, NoEmbed(ns'));
      forall id | id in a ensures a[id] == b[id] {
        SameNode(base, ns, ns', id);
      }
    }
  }

  lemma SameContents(batches: seq<IndexItem>, batches': seq<IndexItem>)
    requires forall b :: b in batches <==> b in batches'
    ensures forall n :: n in NodesOf(batches) <==> n in NodesOf(batches')
    ensures forall e :: e in EdgesOf(batches) <==> e in EdgesOf(batches')
  {
    InBatches(batches);
    InBatches(batches');
  }

  lemma SameNode(base: map<string, Node>, ns: seq<Node>, ns': seq<Node>, id: string)
    requires Agree(ns) && (forall n :: n in ns <==> n in ns')
    requires id in UpsertAll(base, NoEmbed(ns)) && id in UpsertAll(base, NoEmbed(ns'))
    ensures UpsertAll(base, NoEmbed(ns))[id] == UpsertAll(base, NoEmbed(ns'))[id]
  {
    hide UpsertAll;
    UpsertAllAt(base, NoEmbed(ns), id);
    UpsertAllAt(base, NoEmbed(ns'), id);
    IdsKept(ns);
    IdsKept(ns');
    assert IdSet(ns) == IdSet(ns');
    if id in IdSet(ns) {
      var x, y := UpsertAll(base, NoEmbed(ns))[id], UpsertAll(base, NoEmbed(ns'))[id];
      Origin(ns, x);
      Origin(ns', y);
    }
  }

  lemma Origin(ns: seq<Node>, x: Node)
    requires x in NoEmbed(ns)
    ensures exists n :: n in ns && n.id == x.id && n.body == x.body
    ensures !x.embed
  {
    var i :| 0 <= i < |ns| && NoEmbed(ns)[i] == x;
    assert ns[i] in ns;
  }
}
