/** The batch accumulator between the parser and the bulk endpoints of the store. */
module BatchWriters {
  import opened Options
  import opened Stores

  const PER_CALL_CAP: nat := 1000

  const UNKNOWN_FILE := "<unknown \U{2014} symbol-to-symbol cross-file edge>"

  /** What a batch remembers of one queued file. */
  datatype PendingFile = PendingFile(absPath: string, nodeIds: seq<string>, aux: bool)

  datatype ItemKind = NodeItem | EdgeItem

  datatype BatchError = BatchError(filePath: string, item: ItemKind, error: string)

  function Ids(nodes: seq<Node>): (r: seq<string>)
    ensures |r| == |nodes| && forall i :: 0 <= i < |nodes| ==> r[i] == nodes[i].id
  {
    seq(|nodes|, i requires 0 <= i < |nodes| => nodes[i].id)
  }

  // ---- What the results of a flush mean ------------------------------------------------

  /** The refused nodes by id, each with its last error. */
  function FailedNodes(rows: seq<Row>): map<string, string>
  {
    if rows == [] then map[]
    else
      var before, r := FailedNodes(rows[..|rows| - 1]), rows[|rows| - 1];
      if r.Refused? && r.id.Some? && r.id.value != "" then before[r.id.value := r.error] else before
  }

  predicate Owns(f: PendingFile, e: Edge)
  {
    e.source in f.nodeIds || e.target in f.nodeIds
  }

  /** `fileForEdge`: the first file of the batch that owns an endpoint. */
  function FileForEdge(files: seq<PendingFile>, e: Edge): string
  {
    if files == [] then UNKNOWN_FILE
    else if Owns(files[0], e) then files[0].absPath
    else FileForEdge(files[1..], e)
  }

  /** The errors of the refused edges, in order, blamed on their files. */
  function EdgeErrors(files: seq<PendingFile>, edges: seq<Edge>, rows: seq<Row>): seq<BatchError>
    requires |rows| == |edges|
  {
    if edges == [] then []
    else
      var n := |edges| - 1;
      EdgeErrors(files, edges[..n], rows[..n]) +
      if rows[n].Refused? then [BatchError(FileForEdge(files, edges[n]), EdgeItem, rows[n].error)] else []
  }

  function Blamed(errors: seq<BatchError>): set<string>
  {
    set e | e in errors :: e.filePath
  }

  /** The first of a file's nodes that was refused. */
  function FirstFailed(ids: seq<string>, failed: map<string, string>): Option<string>
  {
    if ids == [] then None else if ids[0] in failed then Some(ids[0]) else FirstFailed(ids[1..], failed)
  }

  predicate Lands(f: PendingFile, failed: map<string, string>, blamed: set<string>)
  {
    FirstFailed(f.nodeIds, failed).None? && !f.aux && f.absPath !in blamed
  }

  function LandedFiles(files: seq<PendingFile>, failed: map<string, string>, blamed: set<string>): seq<string>
  {
    if files == [] then []
    else
      var n := |files| - 1;
      LandedFiles(files[..n], failed, blamed) + if Lands(files[n], failed, blamed) then [files[n].absPath] else []
  }

  function NodeErrors(files: seq<PendingFile>, failed: map<string, string>): seq<BatchError>
  {
    if files == [] then []
    else
      var n := |files| - 1;
      var id := FirstFailed(files[n].nodeIds, failed);
      NodeErrors(files[..n], failed) +
      if id.Some? && id.value in failed then [BatchError(files[n].absPath, NodeItem, failed[id.value])] else []
  }

  // ---- Landing is safe ---------------------------------------------------------------------

  lemma {:induction false} FailedNodesAre(nodes: seq<Node>, rows: seq<Row>)
    requires RowsName(nodes, rows)
    ensures forall id :: id in FailedNodes(rows) <==>
      id != "" && exists i :: 0 <= i < |rows| && rows[i].Refused? && nodes[i].id == id
  {
    if rows != [] {
      var n := |rows| - 1;
      FailedNodesAre(nodes[..n], rows[..n]);
      forall id ensures id in FailedNodes(rows) <==>
                        id != "" && exists i :: 0 <= i < |rows| && rows[i].Refused? && nodes[i].id == id
      {
        if id in FailedNodes(rows[..n]) {
          var i :| 0 <= i < n && rows[..n][i].Refused? && nodes[..n][i].id == id;
          assert rows[i].Refused? && nodes[i].id == id;
        }
        if i :| id != "" && 0 <= i < |rows| && rows[i].Refused? && nodes[i].id == id {
          if i < n { assert rows[..n][i].Refused? && nodes[..n][i].id == id; }
        }
      }
    }
  }

  lemma {:induction false} NoneFailed(ids: seq<string>, failed: map<string, string>)
    ensures FirstFailed(ids, failed).None? <==> forall id :: id in ids ==> id !in failed
    ensures FirstFailed(ids, failed).Some? ==> FirstFailed(ids, failed).value in failed
  {
    if ids != [] {
      NoneFailed(ids[1..], failed);
      assert ids == [ids[0]] + ids[1..];
    }
  }

  lemma {:induction false} LandedIs(
    files: seq<PendingFile>, failed: map<string, string>, blamed: set<string>, p: string)
    ensures p in LandedFiles(files, failed, blamed) <==>
      exists f :: f in files && f.absPath == p && Lands(f, failed, blamed)
  {
    hide Lands;
    if files != [] {
      var n := |files| - 1;
      assert files == files[..n] + [files[n]];
      LandedIs(files[..n], failed, blamed, p);
      if f :| f in files && f.absPath == p && Lands(f, failed, blamed) {
        assert f in files[..n] || f == files[n];
      }
    }
  }

  /** Every node of the batch with that id was accepted. */
  ghost predicate Acknowledged(nodes: seq<Node>, rows: seq<Row>, id: string)
  {
    |rows| == |nodes| && forall i :: 0 <= i < |nodes| && nodes[i].id == id ==> rows[i].Stored?
  }

  /** A file lands exactly when it is no auxiliary entry, no rejected edge is blamed on
      its path, and every row written for one of its nodes was accepted. */
  lemma LandsExactlyWhen(nodes: seq<Node>, rows: seq<Row>, f: PendingFile, blamed: set<string>)
    requires RowsName(nodes, rows) && forall id :: id in f.nodeIds ==> id != ""
    ensures Lands(f, FailedNodes(rows), blamed) <==>
            !f.aux && f.absPath !in blamed && forall id :: id in f.nodeIds ==> Acknowledged(nodes, rows, id)
  {
    var failed := FailedNodes(rows);
    FailedNodesAre(nodes, rows);
    NoneFailed(f.nodeIds, failed);
    forall id | id in f.nodeIds ensures id !in failed <==> Acknowledged(nodes, rows, id) {}
  }

  lemma {:induction false} EdgeErrorsAre(files: seq<PendingFile>, edges: seq<Edge>, rows: seq<Row>, p: string)
    requires |rows| == |edges|
    ensures p in Blamed(EdgeErrors(files, edges, rows)) <==>
            exists i :: 0 <= i < |edges| && rows[i].Refused? && FileForEdge(files, edges[i]) == p
  {
    if edges != [] {
      var n := |edges| - 1;
      EdgeErrorsAre(files, edges[..n], rows[..n], p);
      var before, all := EdgeErrors(files, edges[..n], rows[..n]), EdgeErrors(files, edges, rows);
      assert forall e :: e in all <==>
        e in before ||
        (rows[n].Refused? && e == BatchError(FileForEdge(files, edges[n]), EdgeItem, rows[n].error));
      if i :| 0 <= i < |edges| && rows[i].Refused? && FileForEdge(files, edges[i]) == p {
        if i < n { assert rows[..n][i].Refused? && edges[..n][i] == edges[i]; }
        else {
          var e := BatchError(FileForEdge(files, edges[n]), EdgeItem, rows[n].error);
          assert e in all;
        }
      }
      if p in Blamed(all) {
        var e :| e in all && e.filePath == p;
        if e in before { assert p in Blamed(before); }
      }
    }
  }

  /** The file a rejected edge is blamed on: the first of the batch that owns an endpoint. */
  lemma {:induction false} FirstOwner(files: seq<PendingFile>, e: Edge, i: nat)
    requires i < |files| && Owns(files[i], e) && forall j :: 0 <= j < i ==> !Owns(files[j], e)
    ensures FileForEdge(files, e) == files[i].absPath
  {
    if i > 0 { FirstOwner(files[1..], e, i - 1); }
  }

  /** For each rejected edge with an owned endpoint, the flush does not land the first
      file of the batch that owns one. */
  lemma RejectedEdgeHoldsItsFile(
    files: seq<PendingFile>, failed: map<string, string>, edges: seq<Edge>, rows: seq<Row>, k: nat, i: nat)
    requires |rows| == |edges| && k < |edges| && rows[k].Refused?
    requires i < |files| && Owns(files[i], edges[k]) && forall j :: 0 <= j < i ==> !Owns(files[j], edges[k])
    ensures files[i].absPath !in LandedFiles(files, failed, Blamed(EdgeErrors(files, edges, rows)))
  {
    FirstOwner(files, edges[k], i);
    EdgeErrorsAre(files, edges, rows, files[i].absPath);
    LandedIs(files, failed, Blamed(EdgeErrors(files, edges, rows)), files[i].absPath);
  }

  /** Only the first owner is held back: a later file can land although an edge out of
      one of its own nodes was rejected in the same flush. */
  lemma LaterOwnerCanLand()
    ensures var a, b := PendingFile("a", ["x"], false), PendingFile("b", ["y"], false);
      var e, refused := Edge("y", "x", "calls"), Refused(None, "refused");
      && Owns(b, e)
      && LandedFiles([a, b], map[], Blamed(EdgeErrors([a, b], [e], [refused]))) == ["b"]
  {
    var a, b := PendingFile("a", ["x"], false), PendingFile("b", ["y"], false);
    var e, refused := Edge("y", "x", "calls"), Refused(None, "refused");
    FirstOwner([a, b], e, 0);
    var blamed := Blamed(EdgeErrors([a, b], [e], [refused]));
    EdgeErrorsAre([a, b], [e], [refused], "a");
    EdgeErrorsAre([a, b], [e], [refused], "b");
    assert [refused][0].Refused? && FileForEdge([a, b], [e][0]) == "a";
    assert !Lands(a, map[], blamed) && Lands(b, map[], blamed);
    hide Lands, EdgeErrors, Blamed;
    assert [a, b][..1] == [a] && [a][..0] == [];
    assert LandedFiles([a], map[], blamed) == [];
    assert LandedFiles([a, b], map[], blamed) == ["b"];
  }

  // ---- When every owner is held back -----------------------------------------------------------

  /** Entries made by `addAux` own nothing. */
  ghost predicate AuxOwnNothing(files: seq<PendingFile>)
  {
    forall f :: f in files && f.aux ==> f.nodeIds == []
  }

  /** Whatever is refused, no file of the batch lands that owns an endpoint of a rejected edge. */
  ghost predicate HoldsOwners(files: seq<PendingFile>, edges: seq<Edge>)
  {
    forall failed: map<string, string>, rows: seq<Row>, k, f ::
      |rows| == |edges| && 0 <= k < |edges| && rows[k].Refused? && f in files && Owns(f, edges[k]) ==>
      f.absPath !in LandedFiles(files, failed, Blamed(EdgeErrors(files, edges, rows)))
  }

  /** Whatever is refused, no file of the batch lands that a rejected edge leads out of. */
  ghost predicate HoldsSources(files: seq<PendingFile>, edges: seq<Edge>)
  {
    forall failed: map<string, string>, rows: seq<Row>, k, f ::
      |rows| == |edges| && 0 <= k < |edges| && rows[k].Refused? && f in files && edges[k].source in f.nodeIds ==>
      f.absPath !in LandedFiles(files, failed, Blamed(EdgeErrors(files, edges, rows)))
  }

  /** The owners of an edge of the batch all have the path the edge is blamed on. */
  ghost predicate OwnersAgree(files: seq<PendingFile>, edges: seq<Edge>)
  {
    forall k, f :: 0 <= k < |edges| && f in files && Owns(f, edges[k]) ==> f.absPath == FileForEdge(files, edges[k])
  }

  ghost predicate SourcesBlamed(files: seq<PendingFile>, edges: seq<Edge>)
  {
    forall k, f :: 0 <= k < |edges| && f in files && edges[k].source in f.nodeIds ==>
      f.absPath == FileForEdge(files, edges[k])
  }

  /** The rows that refuse one edge of the batch. */
  function RefuseOne(n: nat, k: nat): (rows: seq<Row>)
    ensures |rows| == n && forall i :: 0 <= i < n ==> (rows[i].Refused? <==> i == k)
  {
    seq(n, i => if i == k then Refused(None, "refused") else Stored)
  }

  /** A path blamed for a rejected edge does not land. */
  lemma BlamedStays(files: seq<PendingFile>, failed: map<string, string>, edges: seq<Edge>, rows: seq<Row>, k: nat)
    requires |rows| == |edges| && k < |edges| && rows[k].Refused?
    ensures FileForEdge(files, edges[k]) !in LandedFiles(files, failed, Blamed(EdgeErrors(files, edges, rows)))
  {
    var p := FileForEdge(files, edges[k]);
    EdgeErrorsAre(files, edges, rows, p);
    LandedIs(files, failed, Blamed(EdgeErrors(files, edges, rows)), p);
  }

  /** With that one edge refused, a file with nodes of its own lands unless it is blamed for it. */
  lemma OthersLand(files: seq<PendingFile>, edges: seq<Edge>, k: nat, f: PendingFile)
    requires AuxOwnNothing(files) && k < |edges| && f in files && f.nodeIds != []
    requires f.absPath != FileForEdge(files, edges[k])
    ensures f.absPath in LandedFiles(files, map[], Blamed(EdgeErrors(files, edges, RefuseOne(|edges|, k))))
  {
    var rows := RefuseOne(|edges|, k);
    EdgeErrorsAre(files, edges, rows, f.absPath);
    NoneFailed(f.nodeIds, map[]);
    LandedIs(files, map[], Blamed(EdgeErrors(files, edges, rows)), f.absPath);
  }

  /** The flush holds back every owner of a rejected edge, whatever is refused, if and only
      if the owners of each queued edge all have the path it is blamed on. */
  lemma HoldsOwnersExactlyWhen(files: seq<PendingFile>, edges: seq<Edge>)
    requires AuxOwnNothing(files)
    ensures HoldsOwners(files, edges) <==> OwnersAgree(files, edges)
  {
    hide LandedFiles, EdgeErrors, Blamed, FileForEdge;
    if OwnersAgree(files, edges) {
      forall failed: map<string, string>, rows: seq<Row>, k, f |
        |rows| == |edges| && 0 <= k < |edges| && rows[k].Refused? && f in files && Owns(f, edges[k])
        ensures f.absPath !in LandedFiles(files, failed, Blamed(EdgeErrors(files, edges, rows)))
      {
        BlamedStays(files, failed, edges, rows, k);
      }
    }
    if HoldsOwners(files, edges) {
      forall k, f | 0 <= k < |edges| && f in files && Owns(f, edges[k])
        ensures f.absPath == FileForEdge(files, edges[k])
      {
        if f.absPath != FileForEdge(files, edges[k]) {
          OthersLand(files, edges, k, f);
        }
      }
    }
  }

  /** A file that lost an outgoing edge is held back, whatever is refused, if and only if
      each queued edge is blamed on every file it leads out of. */
  lemma HoldsSourcesExactlyWhen(files: seq<PendingFile>, edges: seq<Edge>)
    requires AuxOwnNothing(files)
    ensures HoldsSources(files, edges) <==> SourcesBlamed(files, edges)
  {
    hide LandedFiles, EdgeErrors, Blamed, FileForEdge;
    if SourcesBlamed(files, edges) {
      forall failed: map<string, string>, rows: seq<Row>, k, f |
        |rows| == |edges| && 0 <= k < |edges| && rows[k].Refused? && f in files && edges[k].source in f.nodeIds
        ensures f.absPath !in LandedFiles(files, failed, Blamed(EdgeErrors(files, edges, rows)))
      {
        BlamedStays(files, failed, edges, rows, k);
      }
    }
    if HoldsSources(files, edges) {
      forall k, f | 0 <= k < |edges| && f in files && edges[k].source in f.nodeIds
        ensures f.absPath == FileForEdge(files, edges[k])
      {
        if f.absPath != FileForEdge(files, edges[k]) {
          OthersLand(files, edges, k, f);
        }
      }
    }
  }

  /** A refused node shows in the errors exactly when a file of the batch owns it: those of
      auxiliary entries never do. */
  lemma {:induction false} NodeErrorsExactlyWhen(files: seq<PendingFile>, failed: map<string, string>)
    ensures NodeErrors(files, failed) == [] <==> forall f, id :: f in files && id in f.nodeIds ==> id !in failed
  {
    if files != [] {
      var n := |files| - 1;
      assert files == files[..n] + [files[n]];
      NodeErrorsExactlyWhen(files[..n], failed);
      NoneFailed(files[n].nodeIds, failed);
    }
  }

  // ---- Counting -------------------------------------------------------------------------------

  function RefusedCount(rows: seq<Row>): nat
  {
    if rows == [] then 0 else RefusedCount(rows[..|rows| - 1]) + if rows[|rows| - 1].Refused? then 1 else 0
  }

  /** No id was refused twice in the batch. */
  ghost predicate RefusedOnce(nodes: seq<Node>, rows: seq<Row>)
    requires |rows| == |nodes|
  {
    forall i, j :: 0 <= i < j < |rows| && rows[i].Refused? && rows[j].Refused? ==> nodes[i].id != nodes[j].id
  }

  /** The node counter adds the rows less the refused ids; that is the number of rows
      accepted exactly when no id was refused twice. */
  lemma {:induction false} NodeCountExact(nodes: seq<Node>, rows: seq<Row>)
    requires RowsName(nodes, rows) && forall n :: n in nodes ==> n.id != ""
    ensures |FailedNodes(rows)| <= RefusedCount(rows)
    ensures |FailedNodes(rows)| == RefusedCount(rows) <==> RefusedOnce(nodes, rows)
  {
    if rows == [] {
      assert RefusedOnce(nodes, rows);
    }
    hide RefusedOnce;
    if rows != [] {
      var n := |rows| - 1;
      assert RowsName(nodes[..n], rows[..n]) && (rows[n].Refused? ==> rows[n].id == Some(nodes[n].id));
      hide RowsName;
      NodeCountExact(nodes[..n], rows[..n]);
      FailedNodesAre(nodes[..n], rows[..n]);
      var before, id := FailedNodes(rows[..n]), nodes[n].id;
      assert nodes[n] in nodes;
      if rows[n].Refused? {
        assert FailedNodes(rows) == before[id := rows[n].error];
        AddedKey(before, id, rows[n].error);
        if id in before {
          RefusedTwice(nodes, rows, n);
        } else {
          OnceStep(nodes, rows, n);
        }
      } else {
        OnceStep(nodes, rows, n);
      }
    }
  }

  lemma AddedKey(m: map<string, string>, k: string, v: string)
    ensures |m[k := v]| == if k in m then |m| else |m| + 1
  {
    assert m[k := v].Keys == m.Keys + {k};
    if k in m { assert m.Keys + {k} == m.Keys; }
    assert |m| == |m.Keys| && |m[k := v]| == |m[k := v].Keys|;
  }

  lemma RefusedTwice(nodes: seq<Node>, rows: seq<Row>, n: nat)
    requires RowsName(nodes, rows) && |rows| == n + 1 && rows[n].Refused?
    requires nodes[n].id in FailedNodes(rows[..n])
    ensures !RefusedOnce(nodes, rows)
  {
    FailedNodesAre(nodes[..n], rows[..n]);
    var i :| 0 <= i < n && rows[..n][i].Refused? && nodes[..n][i].id == nodes[n].id;
    assert rows[i].Refused? && nodes[i].id == nodes[n].id;
  }

  lemma OnceStep(nodes: seq<Node>, rows: seq<Row>, n: nat)
    requires RowsName(nodes, rows) && |rows| == n + 1
    requires rows[n].Refused? ==> nodes[n].id == "" || nodes[n].id !in FailedNodes(rows[..n])
    requires nodes[n].id != ""
    ensures RefusedOnce(nodes, rows) <==> RefusedOnce(nodes[..n], rows[..n])
  {
    FailedNodesAre(nodes[..n], rows[..n]);
    if RefusedOnce(nodes[..n], rows[..n]) {
      forall i, j | 0 <= i < j < |rows| && rows[i].Refused? && rows[j].Refused? ensures nodes[i].id != nodes[j].id {
        if j == n {
          assert rows[..n][i].Refused? && nodes[..n][i].id == nodes[i].id;
        } else {
          assert rows[..n][i].Refused? && rows[..n][j].Refused? && nodes[..n][i].id != nodes[..n][j].id;
        }
      }
    }
    if RefusedOnce(nodes, rows) {
      forall i, j | 0 <= i < j < n && rows[..n][i].Refused? && rows[..n][j].Refused?
        ensures nodes[..n][i].id != nodes[..n][j].id
      {
        assert rows[i].Refused? && rows[j].Refused?;
      }
    }
  }

  // ---- The writer --------------------------------------------------------------------------------

  /** The calls made since `before`: they send `items`, in order, in chunks of at most the cap. */
  ghost predicate SentInOrder<T>(before: seq<seq<T>>, after: seq<seq<T>>, items: seq<T>)
  {
    && |before| <= |after| && after[..|before|] == before
    && Flatten(after[|before|..]) == items
    && forall c :: c in after[|before|..] ==> 0 < |c| <= 1000
  }

  /** Each of those calls but the last is as long as it may be. */
  ghost predicate FullCalls<T>(before: seq<seq<T>>, after: seq<seq<T>>)
  {
    |before| <= |after| && forall k :: |before| <= k < |after| - 1 ==> |after[k]| == 1000
  }

  /** So far all are. */
  ghost predicate AllFull<T>(before: seq<seq<T>>, after: seq<seq<T>>)
  {
    |before| <= |after| && forall k :: |before| <= k < |after| ==> |after[k]| == 1000
  }

  lemma FullMore<T>(before: seq<seq<T>>, after: seq<seq<T>>, chunk: seq<T>)
    requires AllFull(before, after)
    ensures FullCalls(before, after + [chunk]) && (|chunk| == 1000 ==> AllFull(before, after + [chunk]))
  {
  }

  lemma SentNothing<T>(calls: seq<seq<T>>)
    ensures SentInOrder(calls, calls, [])
  {
    assert calls[|calls|..] == [];
  }

  lemma FullNothing<T>(calls: seq<seq<T>>)
    ensures FullCalls(calls, calls) && AllFull(calls, calls)
  {
  }

  lemma SentMore<T>(before: seq<seq<T>>, after: seq<seq<T>>, items: seq<T>, chunk: seq<T>)
    requires SentInOrder(before, after, items) && 0 < |chunk| <= PER_CALL_CAP
    ensures SentInOrder(before, after + [chunk], items + chunk)
  {
    var tail := after[|before|..];
    assert (after + [chunk])[|before|..] == tail + [chunk];
    assert (after + [chunk])[..|before|] == before;
    FlattenAppend(tail, chunk);
  }

  lemma RowsNameAppend(a: seq<Node>, ra: seq<Row>, b: seq<Node>, rb: seq<Row>)
    requires RowsName(a, ra) && RowsName(b, rb)
    ensures RowsName(a + b, ra + rb)
  {
  }

  lemma NothingPending(nodes: map<string, Node>, edges: set<Edge>)
    ensures RowsName([], []) && RowsByPresence(nodes, [], []) && Linked(edges, [], []) == edges
    ensures Upserted(nodes, [], []) == nodes
    ensures FailedNodes([]) == map[] && EdgeErrors([], [], []) == [] && NodeErrors([], map[]) == [] &&
      RefusedCount([]) == 0
    ensures forall blamed :: LandedFiles([], map[], blamed) == []
  {
  }

  class BatchWriter {
    const store: Store
    const batchSize: nat
    var pendingNodes: seq<Node>
    var pendingEdges: seq<Edge>
    var pendingFiles: seq<PendingFile>
    var filesDoneTotal: nat
    var nodesTotal: int
    var edgesTotal: int
    var errors: seq<BatchError>

    /** Nothing is pending without a file entry, and auxiliary entries own nothing. */
    ghost predicate Valid()
      reads this
    {
      batchSize >= 1 && (pendingFiles == [] ==> pendingNodes == [] && pendingEdges == []) && AuxOwnNothing(pendingFiles)
    }

    constructor (store: Store, batchSize: Option<int>)
      ensures Valid() && this.store == store
      ensures this.batchSize == if batchSize.None? then 50 else if batchSize.value < 1 then 1 else batchSize.value
      ensures pendingFiles == [] && filesDoneTotal == 0 && nodesTotal == 0 && edgesTotal == 0 && errors == []
    {
      this.store := store;
      this.batchSize := if batchSize.None? then 50 else if batchSize.value < 1 then 1 else batchSize.value;
      pendingNodes, pendingEdges, pendingFiles, errors := [], [], [], [];
      filesDoneTotal, nodesTotal, edgesTotal := 0, 0, 0;
    }

    /** Queues a contribution that belongs to no file. */
    method AddAux(name: string, nodes: seq<Node>, edges: seq<Edge>)
      requires Valid()
      modifies this`pendingNodes, this`pendingEdges, this`pendingFiles
      ensures Valid()
      ensures pendingNodes == old(pendingNodes) + nodes && pendingEdges == old(pendingEdges) + edges
      ensures pendingFiles == old(pendingFiles) + [PendingFile(name, [], true)]
    {
      pendingNodes := pendingNodes + nodes;
      pendingEdges := pendingEdges + edges;
      pendingFiles := pendingFiles + [PendingFile(name, [], true)];
    }

    method SendNodes(items: seq<Node>) returns (rows: seq<Row>)
      modifies store
      ensures |rows| == |items| && RowsName(items, rows)
      ensures store.nodes == Upserted(old(store.nodes), items, rows) && store.edges == old(store.edges)
      ensures store.reliable ==> forall i :: 0 <= i < |rows| ==> rows[i].Stored?
      ensures SentInOrder(old(store.nodeCalls), store.nodeCalls, items) && store.edgeCalls == old(store.edgeCalls)
      ensures FullCalls(old(store.nodeCalls), store.nodeCalls)
    {
      hide FullCalls, AllFull, SentInOrder, RowsName, Upserted;
      rows := [];
      var i := 0;
      SentNothing(store.nodeCalls);
      FullNothing(store.nodeCalls);
      NothingPending(store.nodes, store.edges);
      while i < |items|
        invariant i <= |items| && |rows| == i && RowsName(items[..i], rows)
        invariant store.nodes == Upserted(old(store.nodes), items[..i], rows) && store.edges == old(store.edges)
        invariant store.reliable ==> forall j :: 0 <= j < |rows| ==> rows[j].Stored?
        invariant SentInOrder(old(store.nodeCalls), store.nodeCalls, items[..i]) &&
          store.edgeCalls == old(store.edgeCalls)
        invariant FullCalls(old(store.nodeCalls), store.nodeCalls) &&
          (i < |items| ==> AllFull(old(store.nodeCalls), store.nodeCalls))
      {
        var end := if i + PER_CALL_CAP < |items| then i + PER_CALL_CAP else |items|;
        var chunk := items[i..end];
        SentMore(old(store.nodeCalls), store.nodeCalls, items[..i], chunk);
        FullMore(old(store.nodeCalls), store.nodeCalls, chunk);
        var r := store.BulkStoreNodes(chunk);
        UpsertedAppend(old(store.nodes), items[..i], rows, chunk, r);
        RowsNameAppend(items[..i], rows, chunk, r);
        assert items[..end] == items[..i] + chunk;
        rows := rows + r;
        i := end;
      }
      assert items[..|items|] == items;
    }

    method SendEdges(items: seq<Edge>) returns (rows: seq<Row>)
      modifies store
      ensures |rows| == |items|
      ensures store.nodes == old(store.nodes) && store.edges == Linked(old(store.edges), items, rows)
      ensures forall i :: 0 <= i < |rows| && rows[i].Stored? ==> Present(store.nodes, items[i])
      ensures store.reliable ==> RowsByPresence(store.nodes, items, rows)
      ensures SentInOrder(old(store.edgeCalls), store.edgeCalls, items) && store.nodeCalls == old(store.nodeCalls)
      ensures FullCalls(old(store.edgeCalls), store.edgeCalls)
    {
      hide FullCalls, AllFull, SentInOrder, Present, Linked;
      rows := [];
      var i := 0;
      SentNothing(store.edgeCalls);
      FullNothing(store.edgeCalls);
      NothingPending(store.nodes, store.edges);
      while i < |items|
        invariant i <= |items| && |rows| == i
        invariant store.nodes == old(store.nodes) && store.edges == Linked(old(store.edges), items[..i], rows)
        invariant forall j :: 0 <= j < i && rows[j].Stored? ==> Present(store.nodes, items[j])
        invariant store.reliable ==> forall j :: 0 <= j < i ==> (rows[j].Stored? <==> Present(store.nodes, items[j]))
        invariant SentInOrder(old(store.edgeCalls), store.edgeCalls, items[..i]) &&
          store.nodeCalls == old(store.nodeCalls)
        invariant FullCalls(old(store.edgeCalls), store.edgeCalls) &&
          (i < |items| ==> AllFull(old(store.edgeCalls), store.edgeCalls))
      {
        var end := if i + PER_CALL_CAP < |items| then i + PER_CALL_CAP else |items|;
        var chunk := items[i..end];
        SentMore(old(store.edgeCalls), store.edgeCalls, items[..i], chunk);
        FullMore(old(store.edgeCalls), store.edgeCalls, chunk);
        var r := store.BulkStoreEdges(chunk);
        LinkedAppend(old(store.edges), items[..i], rows, chunk, r);
        assert items[..end] == items[..i] + chunk;
        rows := rows + r;
        i := end;
      }
      assert items[..|items|] == items;
    }

    /** Sends everything pending and says which files landed. */
    method Flush() returns (landed: seq<string>, ghost nodeRows: seq<Row>, ghost edgeRows: seq<Row>)
      requires Valid()
      modifies this, store
      ensures Valid() && pendingNodes == [] && pendingEdges == [] && pendingFiles == []
      ensures |nodeRows| == |old(pendingNodes)| && RowsName(old(pendingNodes), nodeRows)
      ensures |edgeRows| == |old(pendingEdges)|
      ensures store.nodes == Upserted(old(store.nodes), old(pendingNodes), nodeRows)
      ensures store.edges == Linked(old(store.edges), old(pendingEdges), edgeRows)
      ensures forall i :: 0 <= i < |edgeRows| && edgeRows[i].Stored? ==> Present(store.nodes, old(pendingEdges)[i])
      ensures store.reliable ==> forall i :: 0 <= i < |nodeRows| ==> nodeRows[i].Stored?
      ensures store.reliable ==> RowsByPresence(store.nodes, old(pendingEdges), edgeRows)
      ensures SentInOrder(old(store.nodeCalls), store.nodeCalls, old(pendingNodes))
      ensures SentInOrder(old(store.edgeCalls), store.edgeCalls, old(pendingEdges))
      ensures FullCalls(old(store.nodeCalls), store.nodeCalls) && FullCalls(old(store.edgeCalls), store.edgeCalls)
      ensures var edgeErrors := EdgeErrors(old(pendingFiles), old(pendingEdges), edgeRows);
        && landed == LandedFiles(old(pendingFiles), FailedNodes(nodeRows), Blamed(edgeErrors))
        && errors == old(errors) + edgeErrors + NodeErrors(old(pendingFiles), FailedNodes(nodeRows))
      ensures filesDoneTotal == old(filesDoneTotal) + |landed|
      ensures nodesTotal == old(nodesTotal) + |old(pendingNodes)| - |FailedNodes(nodeRows)|
      ensures edgesTotal == old(edgesTotal) + |old(pendingEdges)| - RefusedCount(edgeRows)
    {
      hide SentInOrder, FullCalls, RowsName, RowsByPresence, Linked, Lands, FileForEdge, FirstFailed, Blamed, Present;
      hide Upserted, FailedNodes, EdgeErrors, NodeErrors, LandedFiles, RefusedCount;
      if pendingFiles == [] {
        SentNothing(store.nodeCalls);
        SentNothing(store.edgeCalls);
        FullNothing(store.nodeCalls);
        FullNothing(store.edgeCalls);
        NothingPending(store.nodes, store.edges);
        return [], [], [];
      }
      var files, nodes, edges := pendingFiles, pendingNodes, pendingEdges;
      pendingFiles, pendingNodes, pendingEdges := [], [], [];
      var rows := SendNodes(nodes);
      var failed := CollectFailures(rows);
      var rowsE := SendEdges(edges);
      nodeRows, edgeRows := rows, rowsE;
      var failedEdges, blamed := BlameEdges(files, edges, rowsE);
      landed := Settle(files, failed, blamed);
      filesDoneTotal := filesDoneTotal + |landed|;
      nodesTotal := nodesTotal + |nodes| - |failed|;
      edgesTotal := edgesTotal + |edges| - failedEdges;
    }

    method CollectFailures(rows: seq<Row>) returns (failed: map<string, string>)
      ensures failed == FailedNodes(rows)
    {
      failed := map[];
      for i := 0 to |rows|
        invariant failed == FailedNodes(rows[..i])
      {
        assert rows[..i + 1][..i] == rows[..i];
        if rows[i].Refused? && rows[i].id.Some? && rows[i].id.value != "" {
          failed := failed[rows[i].id.value := rows[i].error];
        }
      }
      assert rows[..|rows|] == rows;
    }

    /** Records the refused edges and blames each on a file. */
    method BlameEdges(files: seq<PendingFile>, edges: seq<Edge>, rows: seq<Row>)
      returns (failedEdges: nat, blamed: set<string>)
      requires |rows| == |edges|
      modifies this`errors
      ensures errors == old(errors) + EdgeErrors(files, edges, rows)
      ensures failedEdges == RefusedCount(rows) && blamed == Blamed(EdgeErrors(files, edges, rows))
    {
      failedEdges, blamed := 0, {};
      for i := 0 to |edges|
        invariant errors == old(errors) + EdgeErrors(files, edges[..i], rows[..i])
        invariant failedEdges == RefusedCount(rows[..i]) && blamed == Blamed(EdgeErrors(files, edges[..i], rows[..i]))
      {
        assert rows[..i + 1][..i] == rows[..i] && edges[..i + 1][..i] == edges[..i];
        if rows[i].Refused? {
          var path := FileForEdge(files, edges[i]);
          failedEdges := failedEdges + 1;
          var e := BatchError(path, EdgeItem, rows[i].error);
          BlamedStep(EdgeErrors(files, edges[..i], rows[..i]), e);
          blamed := blamed + {path};
          errors := errors + [e];
        }
      }
      assert edges[..|edges|] == edges && rows[..|rows|] == rows;
    }

    /** The landed files, and the errors of those that lost a node. */
    method Settle(files: seq<PendingFile>, failed: map<string, string>, blamed: set<string>)
      returns (landed: seq<string>)
      modifies this`errors
      ensures landed == LandedFiles(files, failed, blamed)
      ensures errors == old(errors) + NodeErrors(files, failed)
    {
      landed := [];
      for i := 0 to |files|
        invariant landed == LandedFiles(files[..i], failed, blamed)
        invariant errors == old(errors) + NodeErrors(files[..i], failed)
      {
        assert files[..i + 1][..i] == files[..i];
        var f := files[i];
        NoneFailed(f.nodeIds, failed);
        var id := FirstFailed(f.nodeIds, failed);
        if id.Some? {
          errors := errors + [BatchError(f.absPath, NodeItem, failed[id.value])];
          continue;
        }
        if f.aux || f.absPath in blamed {
          continue;
        }
        landed := landed + [f.absPath];
      }
      assert files[..|files|] == files;
    }

    /** Queues one file; flushes when the batch is full. */
    method Add(absPath: string, nodes: seq<Node>, edges: seq<Edge>)
      returns (landed: seq<string>, ghost flushed: bool, ghost nodeRows: seq<Row>, ghost edgeRows: seq<Row>)
      requires Valid()
      modifies this, store
      ensures Valid()
      ensures var f := PendingFile(absPath, Ids(nodes), false);
        var files, allNodes, allEdges := old(pendingFiles) + [f], old(pendingNodes) + nodes, old(pendingEdges) + edges;
        flushed == (|files| >= batchSize) &&
        if flushed then
          && pendingNodes == [] && pendingEdges == [] && pendingFiles == []
          && |nodeRows| == |allNodes| && RowsName(allNodes, nodeRows) && |edgeRows| == |allEdges|
          && store.nodes == Upserted(old(store.nodes), allNodes, nodeRows)
          && store.edges == Linked(old(store.edges), allEdges, edgeRows)
          && (store.reliable ==> forall i :: 0 <= i < |nodeRows| ==> nodeRows[i].Stored?)
          && (store.reliable ==> RowsByPresence(store.nodes, allEdges, edgeRows))
          && SentInOrder(old(store.nodeCalls), store.nodeCalls, allNodes)
          && SentInOrder(old(store.edgeCalls), store.edgeCalls, allEdges)
          && landed == LandedFiles(files, FailedNodes(nodeRows), Blamed(EdgeErrors(files, allEdges, edgeRows)))
          && errors == old(errors) + EdgeErrors(files, allEdges, edgeRows) + NodeErrors(files, FailedNodes(nodeRows))
          && filesDoneTotal == old(filesDoneTotal) + |landed|
          && nodesTotal == old(nodesTotal) + |allNodes| - |FailedNodes(nodeRows)|
          && edgesTotal == old(edgesTotal) + |allEdges| - RefusedCount(edgeRows)
        else
          && pendingNodes == allNodes && pendingEdges == allEdges && pendingFiles == files && landed == []
          && errors == old(errors) && filesDoneTotal == old(filesDoneTotal)
          && nodesTotal == old(nodesTotal) && edgesTotal == old(edgesTotal)
          && store.nodes == old(store.nodes) && store.edges == old(store.edges)
          && store.nodeCalls == old(store.nodeCalls) && store.edgeCalls == old(store.edgeCalls)
    {
      hide SentInOrder, RowsName, RowsByPresence, LandedFiles, FailedNodes, EdgeErrors, NodeErrors, Blamed, Upserted,
        Linked, RefusedCount;
      pendingNodes := pendingNodes + nodes;
      pendingEdges := pendingEdges + edges;
      pendingFiles := pendingFiles + [PendingFile(absPath, Ids(nodes), false)];
      flushed := |pendingFiles| >= batchSize;
      if |pendingFiles| >= batchSize {
        landed, nodeRows, edgeRows := Flush();
      } else {
        landed, nodeRows, edgeRows := [], [], [];
      }
    }
  }

  lemma BlamedStep(errors: seq<BatchError>, e: BatchError)
    ensures Blamed(errors + [e]) == Blamed(errors) + {e.filePath}
  {
    assert forall x :: x in errors + [e] <==> x in errors || x == e;
  }
}
