/** What a flush reports, entry by entry and without the functions that compute it. */
module BatchMeaning {
  import opened Options
  import opened Strings
  import opened Stores
  import opened BatchWriters

  // ---- Refused edges -------------------------------------------------------------------------

  /** A queued edge with its row. */
  function Zip(edges: seq<Edge>, rows: seq<Row>): (r: seq<(Edge, Row)>)
    requires |rows| == |edges|
    ensures |r| == |edges| && forall i :: 0 <= i < |r| ==> r[i] == (edges[i], rows[i])
  {
    seq(|edges|, i requires 0 <= i < |edges| => (edges[i], rows[i]))
  }

  /** One of the edge's ends is a node of the file. */
  predicate HasEnd(f: PendingFile, e: Edge)
  {
    e.source in f.nodeIds || e.target in f.nodeIds
  }

  /** The path of the first file of the batch with an end of the edge; without one, no file. */
  ghost predicate BlamedOn(files: seq<PendingFile>, e: Edge, path: string)
  {
    if exists f :: f in files && HasEnd(f, e) then
      exists i :: 0 <= i < |files| && HasEnd(files[i], e) && path == files[i].absPath &&
        forall j :: 0 <= j < i ==> !HasEnd(files[j], e)
    else path == "<unknown \U{2014} symbol-to-symbol cross-file edge>"
  }

  lemma {:induction false} BlameExactly(files: seq<PendingFile>, e: Edge)
    ensures BlamedOn(files, e, FileForEdge(files, e))
  {
    if files != [] && !Owns(files[0], e) {
      BlameExactly(files[1..], e);
      assert files == [files[0]] + files[1..];
      if exists f :: f in files && HasEnd(f, e) {
        var f :| f in files && HasEnd(f, e);
        assert f in files[1..];
        var i :| 0 <= i < |files[1..]| && HasEnd(files[1..][i], e) &&
          FileForEdge(files[1..], e) == files[1..][i].absPath &&
          forall j :: 0 <= j < i ==> !HasEnd(files[1..][j], e);
        assert files[i + 1] == files[1..][i];
        forall j | 0 <= j < i + 1 ensures !HasEnd(files[j], e) {
          if j > 0 { assert files[j] == files[1..][j - 1]; }
        }
      }
    } else if files != [] {
      assert files[0] in files && HasEnd(files[0], e);
    }
  }

  /** One error for each refused edge, in order: the edge's file and the store's reason. */
  lemma {:induction false} EdgeErrorsExactly(files: seq<PendingFile>, edges: seq<Edge>, rows: seq<Row>)
    requires |rows| == |edges|
    ensures Picks(Zip(edges, rows), (x: (Edge, Row)) => x.1.Refused?,
                  (x: (Edge, Row)) => BatchError(FileForEdge(files, x.0), EdgeItem,
                    if x.1.Refused? then x.1.error else ""),
                  EdgeErrors(files, edges, rows))
    ensures RefusedCount(rows) == HowMany(rows, (r: Row) => r.Refused?)
  {
    hide FileForEdge, HowMany;
    var p := (x: (Edge, Row)) => x.1.Refused?;
    var f := (x: (Edge, Row)) => BatchError(FileForEdge(files, x.0), EdgeItem, if x.1.Refused? then x.1.error else "");
    if edges == [] {
      assert Zip(edges, rows) == [];
      PicksNone(p, f);
      NoneOfNothing((r: Row) => r.Refused?);
    } else {
      var n := |edges| - 1;
      EdgeErrorsExactly(files, edges[..n], rows[..n]);
      assert Zip(edges, rows)[..n] == Zip(edges[..n], rows[..n]);
      PicksMore(Zip(edges, rows), p, f, EdgeErrors(files, edges[..n], rows[..n]));
      HowManyMore(rows, (r: Row) => r.Refused?);
    }
  }

  lemma NoneOfNothing<T(!new)>(p: T -> bool)
    ensures HowMany([], p) == 0
  {
  }

  // ---- Refused nodes ----------------------------------------------------------------------------

  /** The store's last reason for refusing the id. */
  ghost predicate LastReason(rows: seq<Row>, id: string, reason: string)
  {
    exists i :: 0 <= i < |rows| && rows[i] == Refused(Some(id), reason) &&
      forall j :: i < j < |rows| ==> rows[j].Stored? || rows[j].id != Some(id)
  }

  ghost predicate IsRefused(rows: seq<Row>, id: string)
  {
    id != "" && exists r :: r in rows && r.Refused? && r.id == Some(id)
  }

  /** The refused ids are those the rows name, each with its last reason. */
  lemma {:induction false} FailedExactly(rows: seq<Row>, id: string)
    ensures id in FailedNodes(rows) <==> IsRefused(rows, id)
    ensures id in FailedNodes(rows) ==> LastReason(rows, id, FailedNodes(rows)[id])
  {
    if rows != [] {
      var n := |rows| - 1;
      assert rows == rows[..n] + [rows[n]];
      FailedExactly(rows[..n], id);
      if id in FailedNodes(rows) {
        if rows[n].Refused? && rows[n].id == Some(id) {
          assert rows[n] == Refused(Some(id), FailedNodes(rows)[id]);
        } else {
          var i :| 0 <= i < n && rows[..n][i] == Refused(Some(id), FailedNodes(rows)[id]) &&
            forall j :: i < j < n ==> rows[..n][j].Stored? || rows[..n][j].id != Some(id);
          assert rows[i] == Refused(Some(id), FailedNodes(rows)[id]);
          forall j | i < j < |rows| ensures rows[j].Stored? || rows[j].id != Some(id) {
            if j < n { assert rows[..n][j] == rows[j]; }
          }
        }
      }
    }
  }

  /** The file names a refused node. */
  ghost predicate Loses(f: PendingFile, rows: seq<Row>)
  {
    exists id :: id in f.nodeIds && IsRefused(rows, id)
  }

  /** The first refused node of the file, and the reason. */
  ghost predicate FirstLoss(f: PendingFile, rows: seq<Row>, error: BatchError)
  {
    exists i :: 0 <= i < |f.nodeIds| && IsRefused(rows, f.nodeIds[i]) &&
      (forall j :: 0 <= j < i ==> !IsRefused(rows, f.nodeIds[j])) &&
      error.filePath == f.absPath && error.item == NodeItem && LastReason(rows, f.nodeIds[i], error.error)
  }

  function ErrorOf(f: PendingFile, failed: map<string, string>): BatchError
  {
    var id := FirstFailed(f.nodeIds, failed);
    BatchError(f.absPath, NodeItem, if id.Some? && id.value in failed then failed[id.value] else "")
  }

  /** The first of the ids that failed. */
  ghost predicate FirstLost(ids: seq<string>, failed: map<string, string>, i: nat)
  {
    i < |ids| && ids[i] in failed && forall j :: 0 <= j < i ==> ids[j] !in failed
  }

  lemma {:induction false} FirstFailedIs(ids: seq<string>, failed: map<string, string>) returns (i: nat)
    requires exists id :: id in ids && id in failed
    ensures FirstLost(ids, failed, i) && FirstFailed(ids, failed) == Some(ids[i])
  {
    if ids[0] in failed {
      i := 0;
    } else {
      var id :| id in ids && id in failed;
      assert ids == [ids[0]] + ids[1..];
      var k := FirstFailedIs(ids[1..], failed);
      i := k + 1;
      forall j | 0 <= j < i ensures ids[j] !in failed { if j > 0 { assert ids[j] == ids[1..][j - 1]; } }
    }
  }

  lemma ErrorExactly(f: PendingFile, rows: seq<Row>)
    ensures Loses(f, rows) <==> FirstFailed(f.nodeIds, FailedNodes(rows)).Some?
    ensures Loses(f, rows) ==> FirstLoss(f, rows, ErrorOf(f, FailedNodes(rows)))
  {
    var failed := FailedNodes(rows);
    forall id ensures id in failed <==> IsRefused(rows, id) { FailedExactly(rows, id); }
    NoneFailed(f.nodeIds, failed);
    hide FailedNodes, IsRefused, FirstFailed;
    if Loses(f, rows) {
      var i := FirstFailedIs(f.nodeIds, failed);
      FailedExactly(rows, f.nodeIds[i]);
    }
  }

  /** One error for each file that lost a node, in order: its first lost node and the last reason. */
  lemma {:induction false} NodeErrorsExactly(files: seq<PendingFile>, rows: seq<Row>)
    ensures Picks(files, f => Loses(f, rows), f => ErrorOf(f, FailedNodes(rows)), NodeErrors(files, FailedNodes(rows)))
  {
    hide HowMany, FailedNodes, FirstFailed, Loses;
    var p, e := f => Loses(f, rows), f => ErrorOf(f, FailedNodes(rows));
    if files == [] {
      PicksNone(p, e);
    } else {
      var n := |files| - 1;
      NodeErrorsExactly(files[..n], rows);
      ErrorExactly(files[n], rows);
      NoneFailed(files[n].nodeIds, FailedNodes(rows));
      PicksMore(files, p, e, NodeErrors(files[..n], FailedNodes(rows)));
    }
  }

  function PathOf(f: PendingFile): string
  {
    f.absPath
  }

  // ---- Landed files ----------------------------------------------------------------------------------

  /** A file lands if it is no auxiliary entry, lost no node, and no refused edge is blamed on it. */
  ghost predicate MayLand(
    f: PendingFile, files: seq<PendingFile>, nodeRows: seq<Row>, edges: seq<Edge>, edgeRows: seq<Row>)
    requires |edgeRows| == |edges|
  {
    && !f.aux && !Loses(f, nodeRows)
    && forall k :: 0 <= k < |edges| && edgeRows[k].Refused? ==> !BlamedOn(files, edges[k], f.absPath)
  }

  lemma {:induction false} BlamedOnce(files: seq<PendingFile>, e: Edge, p: string, q: string)
    requires BlamedOn(files, e, p) && BlamedOn(files, e, q)
    ensures p == q
  {
    if f :| f in files && HasEnd(f, e) {
      var i :| 0 <= i < |files| && HasEnd(files[i], e) && p == files[i].absPath &&
        forall j :: 0 <= j < i ==> !HasEnd(files[j], e);
      var k :| 0 <= k < |files| && HasEnd(files[k], e) && q == files[k].absPath &&
        forall j :: 0 <= j < k ==> !HasEnd(files[j], e);
    }
  }

  lemma LandsIsMay(
    f: PendingFile, files: seq<PendingFile>, nodeRows: seq<Row>, edges: seq<Edge>, edgeRows: seq<Row>)
    requires |edgeRows| == |edges|
    ensures Lands(f, FailedNodes(nodeRows), Blamed(EdgeErrors(files, edges, edgeRows))) <==>
            MayLand(f, files, nodeRows, edges, edgeRows)
  {
    hide FailedNodes, EdgeErrors, Blamed, BlamedOn, Loses, FirstFailed, FileForEdge;
    ErrorExactly(f, nodeRows);
    EdgeErrorsAre(files, edges, edgeRows, f.absPath);
    forall k | 0 <= k < |edges|
      ensures FileForEdge(files, edges[k]) == f.absPath <==> BlamedOn(files, edges[k], f.absPath)
    {
      BlameExactly(files, edges[k]);
      if BlamedOn(files, edges[k], f.absPath) { BlamedOnce(files, edges[k], f.absPath, FileForEdge(files, edges[k])); }
    }
  }

  lemma {:induction false} LandedPicks(files: seq<PendingFile>, failed: map<string, string>, blamed: set<string>)
    ensures Picks(files, f => Lands(f, failed, blamed), PathOf, LandedFiles(files, failed, blamed))
  {
    hide HowMany, Lands;
    var p, g := f => Lands(f, failed, blamed), PathOf;
    if files == [] {
      PicksNone(p, g);
    } else {
      LandedPicks(files[..|files| - 1], failed, blamed);
      PicksMore(files, p, g, LandedFiles(files[..|files| - 1], failed, blamed));
    }
  }

  /** The landed files are those that may land, in the order in which they were queued. */
  lemma LandedExactly(files: seq<PendingFile>, nodeRows: seq<Row>, edges: seq<Edge>, edgeRows: seq<Row>)
    requires |edgeRows| == |edges|
    ensures Picks(files, f => MayLand(f, files, nodeRows, edges, edgeRows), PathOf,
                  LandedFiles(files, FailedNodes(nodeRows), Blamed(EdgeErrors(files, edges, edgeRows))))
  {
    hide FailedNodes, EdgeErrors, Blamed, LandedFiles, MayLand, Lands, HowMany;
    var failed, blamed := FailedNodes(nodeRows), Blamed(EdgeErrors(files, edges, edgeRows));
    LandedPicks(files, failed, blamed);
    forall f ensures Lands(f, failed, blamed) <==> MayLand(f, files, nodeRows, edges, edgeRows) {
      LandsIsMay(f, files, nodeRows, edges, edgeRows);
    }
    SamePicks(files, f => Lands(f, failed, blamed), f => MayLand(f, files, nodeRows, edges, edgeRows), PathOf,
              LandedFiles(files, failed, blamed));
  }

  lemma SamePicks<T(!new), U(!new)>(xs: seq<T>, p: T -> bool, q: T -> bool, f: T -> U, ys: seq<U>)
    requires Picks(xs, p, f, ys) && forall x :: p(x) <==> q(x)
    ensures Picks(xs, q, f, ys)
  {
    forall s: seq<T> ensures HowMany(s, p) == HowMany(s, q) {
      assert (set k | 0 <= k < |s| && p(s[k])) == (set k | 0 <= k < |s| && q(s[k]));
    }
    hide HowMany;
  }
}
