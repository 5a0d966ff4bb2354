/** Co-loading the memory files of a group: every member's nodes, then every member's edges. */
module MemorySync {
  import opened Options
  import Strings
  import OrderedMaps
  import opened Stores

  /** A parsed node line; a field that is no string is `None`. `vector` says whether the
      line carries a usable embedding. */
  datatype NodeLine = NodeLine(id: Option<string>, kind: Option<string>, body: string, vector: bool)

  datatype EdgeRecord = EdgeRecord(source: Option<string>, target: Option<string>, relation: Option<string>)

  /** A parsed member file; `code` is the node lines of its code graph, if it has one. */
  datatype Member = Member(path: string, project: string, header: Option<int>, nodes: seq<NodeLine>,
                           edges: seq<EdgeRecord>, code: seq<NodeLine>)

  /** What `buildStoreNodeInput` makes of a line. */
  datatype Input = Input(id: string, kind: string, body: string, project: string)

  datatype ImportError = ImportError(id: string, error: string)

  datatype ImportResult = ImportResult(nodeCount: nat, edgeCount: nat, skipped: nat, errors: seq<ImportError>,
                                       deferred: seq<Edge>)

  const EMPTY := ImportResult(0, 0, 0, [], [])

  datatype BulkRow =
    | Written(id: Option<string>)
    | WrongDimension(id: Option<string>)
    | Failed(id: Option<string>, error: string)

  datatype EdgeOutcome = Persisted | EndpointMissing | Broken(error: string)

  function Given(s: Option<string>): Option<string>
  {
    if s == Some("") then None else s
  }

  predicate Shaped(line: NodeLine)
  {
    Given(line.id).Some? && Given(line.kind).Some?
  }

  /** A line that `ingestPendingNodes` hands to the store. */
  predicate Importable(line: NodeLine, allowed: set<string>)
  {
    Shaped(line) && line.kind.value in allowed
  }

  function Text(s: Option<string>): string
  {
    if s.Some? then s.value else ""
  }

  function Build(line: NodeLine, project: string): Input
  {
    Input(Text(line.id), Text(line.kind), line.body, project)
  }

  // ---- The store -------------------------------------------------------------------------

  /** The writer of a group load. A reliable one upserts every node, save that vectors of a
      foreign model are refused, and accepts an edge exactly when both endpoints exist. */
  class GroupStore {
    const reliable: bool
    const bulk: bool
    var nodes: map<string, Input>
    var edges: set<Edge>

    constructor (reliable: bool, bulk: bool)
      ensures this.reliable == reliable && this.bulk == bulk && nodes == map[] && edges == {}
    {
      this.reliable, this.bulk := reliable, bulk;
      nodes, edges := map[], {};
    }

    method StoreNode(input: Input) returns (error: Option<string>)
      modifies this`nodes
      ensures nodes == if error.None? then old(nodes)[input.id := input] else old(nodes)
      ensures reliable ==> error.None?
    {
      var fails: bool := *;
      if fails && !reliable { return Some("refused"); }
      nodes := nodes[input.id := input];
      return None;
    }

    method BulkStoreNodesWithVectors(items: seq<Input>) returns (rows: seq<BulkRow>)
      modifies this`nodes
      ensures |rows| == |items|
      ensures forall i :: 0 <= i < |rows| ==> rows[i].id.None? || rows[i].id == Some(items[i].id)
      ensures reliable ==> forall i :: 0 <= i < |rows| ==> !rows[i].Failed?
      ensures nodes == Kept(old(nodes), items, rows)
    {
      rows := [];
      for i := 0 to |items|
        invariant |rows| == i
        invariant forall j :: 0 <= j < i ==> rows[j].id.None? || rows[j].id == Some(items[j].id)
        invariant reliable ==> forall j :: 0 <= j < i ==> !rows[j].Failed?
        invariant nodes == Kept(old(nodes), items[..i], rows)
      {
        var mismatch: bool, fails: bool, named: bool := *, *, *;
        var id := if named then Some(items[i].id) else None;
        ghost var was := rows;
        if mismatch {
          rows := rows + [WrongDimension(id)];
        } else if fails && !reliable {
          rows := rows + [Failed(id, "refused")];
        } else {
          nodes := nodes[items[i].id := items[i]];
          rows := rows + [Written(id)];
        }
        assert rows[..i] == was && items[..i + 1][..i] == items[..i];
      }
      assert items[..|items|] == items;
    }

    method StoreEdge(e: Edge) returns (outcome: EdgeOutcome)
      modifies this`edges
      ensures outcome.Persisted? ==> edges == old(edges) + {e}
      ensures !outcome.Persisted? ==> edges == old(edges)
      ensures reliable ==> outcome == if e.source in nodes && e.target in nodes then Persisted else EndpointMissing
    {
      var fails: bool := *;
      if fails && !reliable { return Broken("refused"); }
      if e.source !in nodes || e.target !in nodes { return EndpointMissing; }
      edges := edges + {e};
      return Persisted;
    }
  }

  function Kept(nodes: map<string, Input>, items: seq<Input>, rows: seq<BulkRow>): map<string, Input>
    requires |rows| == |items|
  {
    if items == [] then nodes
    else
      var n := |items| - 1;
      var before := Kept(nodes, items[..n], rows[..n]);
      if rows[n].Written? then before[items[n].id := items[n]] else before
  }

  // ---- First declarer ------------------------------------------------------------------------

  predicate DeclaresIn(lines: seq<NodeLine>, id: string)
  {
    exists k :: 0 <= k < |lines| && Given(lines[k].id) == Some(id)
  }

  /** The first member, in load order, with a line of that id. */
  function Declarer(members: seq<Member>, id: string): (d: nat)
    ensures d <= |members| && (d < |members| ==> DeclaresIn(members[d].nodes, id))
    ensures forall j :: 0 <= j < d ==> !DeclaresIn(members[j].nodes, id)
  {
    if members == [] then 0
    else if DeclaresIn(members[0].nodes, id) then 0
    else 1 + Declarer(members[1..], id)
  }

  function Owner(members: seq<Member>, id: string): Option<string>
  {
    var d := Declarer(members, id);
    if d < |members| then Some(members[d].path) else None
  }

  /** The lines of a member that the ownership guard keeps. */
  function Owned(members: seq<Member>, path: string, lines: seq<NodeLine>): seq<NodeLine>
  {
    if lines == [] then []
    else
      var line := lines[|lines| - 1];
      var id := Given(line.id);
      Owned(members, path, lines[..|lines| - 1]) +
      if id.None? || Owner(members, id.value) == Some(path) then [line] else []
  }

  /** What the guard has recorded in the middle of a member: earlier members, then its lines so far. */
  ghost predicate OwnersAt(owner: map<string, string>, members: seq<Member>, i: nat, k: nat)
    requires i < |members| && k <= |members[i].nodes|
  {
    forall id ::
      Lookup(owner, id) ==
      if Declarer(members, id) < i then Owner(members, id)
      else if DeclaresIn(members[i].nodes[..k], id) then Some(members[i].path) else None
  }

  ghost predicate OwnersOf(owner: map<string, string>, members: seq<Member>, i: nat)
  {
    forall id :: Lookup(owner, id) == if Declarer(members, id) < i then Owner(members, id) else None
  }

  lemma DeclaresMore(lines: seq<NodeLine>, k: nat, id: string)
    requires k < |lines|
    ensures DeclaresIn(lines[..k + 1], id) <==> DeclaresIn(lines[..k], id) || Given(lines[k].id) == Some(id)
  {
    var a, b := lines[..k + 1], lines[..k];
    if j :| 0 <= j < |a| && Given(a[j].id) == Some(id) {
      if j < k { assert Given(b[j].id) == Some(id); }
    }
    if j :| 0 <= j < |b| && Given(b[j].id) == Some(id) { assert Given(a[j].id) == Some(id); }
    if Given(lines[k].id) == Some(id) { assert Given(a[k].id) == Some(id); }
  }

  lemma OwnersEnter(owner: map<string, string>, members: seq<Member>, i: nat)
    requires i < |members| && OwnersOf(owner, members, i)
    ensures OwnersAt(owner, members, i, 0)
  {
  }

  lemma OwnersLeave(owner: map<string, string>, members: seq<Member>, i: nat)
    requires i < |members| && OwnersAt(owner, members, i, |members[i].nodes|)
    ensures OwnersOf(owner, members, i + 1)
  {
    assert members[i].nodes[..|members[i].nodes|] == members[i].nodes;
    forall id ensures Lookup(owner, id) == if Declarer(members, id) < i + 1 then Owner(members, id) else None {
      var d := Declarer(members, id);
      if d > i { assert !DeclaresIn(members[i].nodes, id); }
    }
  }

  /** The guard's test on a line is the test for the owner of its id. */
  lemma OwnerTest(owner: map<string, string>, members: seq<Member>, i: nat, k: nat)
    requires i < |members| && k < |members[i].nodes| && OwnersAt(owner, members, i, k)
    requires Given(members[i].nodes[k].id).Some?
    ensures var id := members[i].nodes[k].id.value;
      && (Owner(members, id) == Some(members[i].path) <==> id !in owner || owner[id] == members[i].path)
      && OwnersAt(if id in owner then owner else owner[id := members[i].path], members, i, k + 1)
  {
    var lines, path := members[i].nodes, members[i].path;
    var id := lines[k].id.value;
    assert Given(lines[k].id) == Some(id);
    assert DeclaresIn(lines, id);
    var d := Declarer(members, id);
    assert d <= i;
    assert Lookup(owner, id) == if d < i then Owner(members, id) else if DeclaresIn(lines[..k], id) then Some(path)
      else None;
    var owner' := if id in owner then owner else owner[id := path];
    forall x ensures Lookup(owner', x) ==
      if Declarer(members, x) < i then Owner(members, x) else if DeclaresIn(lines[..k + 1], x) then Some(path) else None
    {
      DeclaresMore(lines, k, x);
      assert Lookup(owner, x) == if Declarer(members, x) < i then Owner(members, x)
        else if DeclaresIn(lines[..k], x) then Some(path) else None;
    }
  }

  lemma OwnersSkip(owner: map<string, string>, members: seq<Member>, i: nat, k: nat)
    requires i < |members| && k < |members[i].nodes| && OwnersAt(owner, members, i, k)
    requires Given(members[i].nodes[k].id).None?
    ensures OwnersAt(owner, members, i, k + 1)
  {
    forall x ensures Lookup(owner, x) ==
      if Declarer(members, x) < i then Owner(members, x)
        else if DeclaresIn(members[i].nodes[..k + 1], x) then Some(members[i].path) else None
    {
      DeclaresMore(members[i].nodes, k, x);
      assert Lookup(owner, x) ==
        if Declarer(members, x) < i then Owner(members, x)
          else if DeclaresIn(members[i].nodes[..k], x) then Some(members[i].path) else None;
    }
  }

  /** First declarer wins: a member keeps a line exactly when no member before it declared the id. */
  method DropForeign(members: seq<Member>) returns (kept: seq<seq<NodeLine>>)
    ensures |kept| == |members|
    ensures forall i :: 0 <= i < |members| ==> kept[i] == Owned(members, members[i].path, members[i].nodes)
  {
    hide OwnersAt, OwnersOf, Owner;
    kept := [];
    var owner: map<string, string> := map[];
    assert OwnersOf(owner, members, 0) by { NoOwners(members); }
    for i := 0 to |members|
      invariant |kept| == i && OwnersOf(owner, members, i)
      invariant forall j :: 0 <= j < i ==> kept[j] == Owned(members, members[j].path, members[j].nodes)
    {
      var m, mine := members[i], [];
      OwnersEnter(owner, members, i);
      for k := 0 to |m.nodes|
        invariant OwnersAt(owner, members, i, k) && mine == Owned(members, m.path, m.nodes[..k])
      {
        assert m.nodes[..k + 1][..k] == m.nodes[..k];
        var id := Given(m.nodes[k].id);
        if id.None? {
          OwnersSkip(owner, members, i, k);
          mine := mine + [m.nodes[k]];
        } else {
          OwnerTest(owner, members, i, k);
          if id.value !in owner {
            owner := owner[id.value := m.path];
            mine := mine + [m.nodes[k]];
          } else if owner[id.value] == m.path {
            mine := mine + [m.nodes[k]];
          }
        }
      }
      assert m.nodes[..|m.nodes|] == m.nodes;
      OwnersLeave(owner, members, i);
      kept := kept + [mine];
    }
  }

  lemma NoOwners(members: seq<Member>)
    ensures OwnersOf(map[], members, 0)
  {
  }

  // ---- Ingest: which lines -------------------------------------------------------------------------

  function Importables(lines: seq<NodeLine>, allowed: set<string>): (r: seq<NodeLine>)
    ensures forall x :: x in r <==> x in lines && Importable(x, allowed)
  {
    if lines == [] then []
    else
      var line := lines[|lines| - 1];
      assert lines == lines[..|lines| - 1] + [line];
      Importables(lines[..|lines| - 1], allowed) + if Importable(line, allowed) then [line] else []
  }

  function SkippedCount(lines: seq<NodeLine>, allowed: set<string>): nat
  {
    if lines == [] then 0
    else
      var line := lines[|lines| - 1];
      SkippedCount(lines[..|lines| - 1], allowed) + if Shaped(line) && line.kind.value !in allowed then 1 else 0
  }

  function ShapeErrors(lines: seq<NodeLine>): seq<ImportError>
  {
    if lines == [] then []
    else
      var line := lines[|lines| - 1];
      ShapeErrors(lines[..|lines| - 1]) + if Shaped(line) then [] else [ShapeError(line)]
  }

  function ShapeError(line: NodeLine): ImportError
  {
    ImportError(if line.id.Some? then line.id.value else "<missing-id>", "node missing id or type")
  }

  lemma {:induction false} EveryLineOnce(lines: seq<NodeLine>, allowed: set<string>)
    ensures |Importables(lines, allowed)| + SkippedCount(lines, allowed) + |ShapeErrors(lines)| == |lines|
  {
    if lines != [] { EveryLineOnce(lines[..|lines| - 1], allowed); }
  }

  /** The last line with that id. */
  function Find(lines: seq<NodeLine>, id: string): (r: Option<NodeLine>)
    ensures r.Some? ==> r.value in lines && Given(r.value.id) == Some(id)
    ensures r.None? ==> forall x :: x in lines ==> Given(x.id) != Some(id)
  {
    if lines == [] then None
    else
      var line := lines[|lines| - 1];
      assert lines == lines[..|lines| - 1] + [line];
      if Given(line.id) == Some(id) then Some(line) else Find(lines[..|lines| - 1], id)
  }

  /** No two different lines share an id. */
  ghost predicate OneLineEach(lines: seq<NodeLine>)
  {
    forall x, y :: x in lines && y in lines && Given(x.id).Some? && Given(x.id) == Given(y.id) ==> x == y
  }

  /** What a store holds under an id after the lines were written to it. */
  function Under(before: map<string, Input>, lines: seq<NodeLine>, project: string, id: string): Option<Input>
  {
    var line := Find(lines, id);
    if line.Some? then Some(Build(line.value, project)) else Lookup(before, id)
  }

  ghost predicate Wrote(before: map<string, Input>, after: map<string, Input>, lines: seq<NodeLine>, project: string)
  {
    forall id :: Lookup(after, id) == Under(before, lines, project, id)
  }

  lemma WroteNothing(nodes: map<string, Input>, project: string)
    ensures Wrote(nodes, nodes, [], project)
  {
  }

  lemma WroteOne(before: map<string, Input>, now: map<string, Input>, lines: seq<NodeLine>, k: nat, project: string)
    requires k < |lines| && Wrote(before, now, lines[..k], project) && Shaped(lines[k])
    ensures Wrote(before, now[lines[k].id.value := Build(lines[k], project)], lines[..k + 1], project)
  {
    assert lines[..k + 1][..k] == lines[..k];
    var after := now[lines[k].id.value := Build(lines[k], project)];
    forall id ensures Lookup(after, id) == Under(before, lines[..k + 1], project, id) {
      assert Lookup(now, id) == Under(before, lines[..k], project, id);
    }
  }

  /** Two writes in any split of the lines amount to one, when no two lines share an id. */
  lemma WroteBoth(n0: map<string, Input>, n1: map<string, Input>, n2: map<string, Input>,
                  a: seq<NodeLine>, b: seq<NodeLine>, all: seq<NodeLine>, project: string)
    requires Wrote(n0, n1, a, project) && Wrote(n1, n2, b, project) && OneLineEach(all)
    requires forall x :: x in all <==> x in a || x in b
    ensures Wrote(n0, n2, all, project)
  {
    hide Find;
    forall id ensures Lookup(n2, id) == Under(n0, all, project, id) {
      assert Lookup(n2, id) == Under(n1, b, project, id) && Lookup(n1, id) == Under(n0, a, project, id);
      var f, fa, fb := Find(all, id), Find(a, id), Find(b, id);
    }
  }

  // ---- Ingest: the passes ------------------------------------------------------------------------------

  lemma OneMoreLine(lines: seq<NodeLine>, i: nat, allowed: set<string>)
    requires i < |lines|
    ensures Importables(lines[..i + 1], allowed) == Importables(lines[..i], allowed) +
      if Importable(lines[i], allowed) then [lines[i]] else []
    ensures SkippedCount(lines[..i + 1], allowed) ==
            SkippedCount(lines[..i], allowed) + if Shaped(lines[i]) && lines[i].kind.value !in allowed then 1 else 0
    ensures ShapeErrors(lines[..i + 1]) == ShapeErrors(lines[..i]) + if Shaped(lines[i]) then []
      else [ShapeError(lines[i])]
  {
    assert lines[..i + 1][..i] == lines[..i];
  }

  method Prepare(lines: seq<NodeLine>, allowed: set<string>, result: ImportResult)
    returns (prepared: seq<NodeLine>, out: ImportResult)
    ensures prepared == Importables(lines, allowed)
    ensures out == result.(skipped := result.skipped + SkippedCount(lines, allowed),
      errors := result.errors + ShapeErrors(lines))
  {
    hide Importables, SkippedCount, ShapeErrors;
    prepared, out := [], result;
    NoLines(allowed);
    for i := 0 to |lines|
      invariant prepared == Importables(lines[..i], allowed)
      invariant out == result.(skipped := result.skipped + SkippedCount(lines[..i], allowed),
        errors := result.errors + ShapeErrors(lines[..i]))
    {
      OneMoreLine(lines, i, allowed);
      var line := lines[i];
      if !Shaped(line) {
        out := out.(errors := out.errors + [ShapeError(line)]);
        continue;
      }
      if line.kind.value !in allowed {
        out := out.(skipped := out.skipped + 1);
        continue;
      }
      prepared := prepared + [line];
    }
    assert lines[..|lines|] == lines;
  }

  method Partition(prepared: seq<NodeLine>, bulkAvailable: bool)
    returns (withVec: seq<NodeLine>, withoutVec: seq<NodeLine>)
    ensures |withVec| + |withoutVec| == |prepared|
    ensures forall x :: x in prepared <==> x in withVec || x in withoutVec
    ensures !bulkAvailable ==> withVec == []
  {
    withVec, withoutVec := [], [];
    for i := 0 to |prepared|
      invariant |withVec| + |withoutVec| == i
      invariant forall x :: x in prepared[..i] <==> x in withVec || x in withoutVec
      invariant !bulkAvailable ==> withVec == []
    {
      assert prepared[..i + 1] == prepared[..i] + [prepared[i]];
      if bulkAvailable && prepared[i].vector {
        withVec := withVec + [prepared[i]];
      } else {
        withoutVec := withoutVec + [prepared[i]];
      }
    }
    assert prepared[..|prepared|] == prepared;
  }

  /** Every line of the batch was counted, as a node or as an error. */
  predicate Counted(before: ImportResult, after: ImportResult, lines: nat)
  {
    && after.nodeCount + |after.errors| == before.nodeCount + |before.errors| + lines
    && after.skipped == before.skipped && after.edgeCount == before.edgeCount && after.deferred == before.deferred
    && before.errors <= after.errors
  }

  method StoreSerial(store: GroupStore, lines: seq<NodeLine>, project: string, result: ImportResult)
    returns (out: ImportResult)
    requires forall x :: x in lines ==> Shaped(x)
    modifies store`nodes
    ensures Counted(result, out, |lines|)
    ensures store.reliable ==>
      Wrote(old(store.nodes), store.nodes, lines, project) &&
      out == result.(nodeCount := result.nodeCount + |lines|)
  {
    hide Wrote;
    out := result;
    WroteNothing(store.nodes, project);
    for i := 0 to |lines|
      invariant Counted(result, out, i)
      invariant store.reliable ==>
        Wrote(old(store.nodes), store.nodes, lines[..i], project) &&
        out == result.(nodeCount := result.nodeCount + i)
    {
      assert lines[i] in lines;
      ghost var now := store.nodes;
      var error := store.StoreNode(Build(lines[i], project));
      if error.None? {
        out := out.(nodeCount := out.nodeCount + 1);
      } else {
        out := out.(errors := out.errors + [ImportError(Text(lines[i].id), error.value)]);
      }
      if store.reliable {
        WroteOne(old(store.nodes), now, lines, i, project);
      }
    }
    assert lines[..|lines|] == lines;
  }

  function Inputs(lines: seq<NodeLine>, project: string): (r: seq<Input>)
    ensures |r| == |lines| && forall i :: 0 <= i < |lines| ==> r[i] == Build(lines[i], project)
  {
    seq(|lines|, i requires 0 <= i < |lines| => Build(lines[i], project))
  }

  /** A line of that id that the bulk call wrote or the fallback has reached. */
  ghost predicate Reached(lines: seq<NodeLine>, rows: seq<BulkRow>, i: nat, id: string)
    requires |rows| == |lines|
  {
    exists k :: 0 <= k < |lines| && Given(lines[k].id) == Some(id) && (rows[k].Written? || k < i)
  }

  ghost predicate Stitched(before: map<string, Input>, now: map<string, Input>, lines: seq<NodeLine>,
                           rows: seq<BulkRow>, i: nat, project: string)
    requires |rows| == |lines|
  {
    forall id :: Lookup(now, id) == if Reached(lines, rows, i, id) then Under(before, lines, project, id)
      else Lookup(before, id)
  }

  lemma ReachedStep(lines: seq<NodeLine>, rows: seq<BulkRow>, id: string)
    requires |rows| == |lines| > 0
    ensures var n := |lines| - 1;
      Reached(lines, rows, 0, id) <==>
        Reached(lines[..n], rows[..n], 0, id) ||
        (rows[n].Written? && Given(lines[n].id) == Some(id))
  {
    var n := |lines| - 1;
    var a, ra := lines[..n], rows[..n];
    if k :| 0 <= k < |lines| && Given(lines[k].id) == Some(id) && rows[k].Written? {
      if k < n { assert Given(a[k].id) == Some(id) && ra[k].Written?; }
    }
    if k :| 0 <= k < n && Given(a[k].id) == Some(id) && ra[k].Written? {
      assert Given(lines[k].id) == Some(id) && rows[k].Written?;
    }
    if rows[n].Written? && Given(lines[n].id) == Some(id) { assert Reached(lines, rows, 0, id); }
  }

  ghost predicate Copied(after: map<string, Input>, lines: seq<NodeLine>, project: string, id: string)
  {
    exists x :: x in lines && Given(x.id) == Some(id) && Lookup(after, id) == Some(Build(x, project))
  }

  lemma {:induction false} KeptAt(
    before: map<string, Input>, lines: seq<NodeLine>, rows: seq<BulkRow>, project: string, id: string)
    requires |rows| == |lines| && (forall x :: x in lines ==> Shaped(x))
    ensures var after := Kept(before, Inputs(lines, project), rows);
      if Reached(lines, rows, 0, id) then Copied(after, lines, project, id) else Lookup(after, id) == Lookup(before, id)
  {
    hide Reached;
    if lines == [] {
      assert !Reached(lines, rows, 0, id) by { NoneReached(rows, id); }
    } else {
      var n := |lines| - 1;
      KeptAt(before, lines[..n], rows[..n], project, id);
      ReachedStep(lines, rows, id);
      assert Inputs(lines, project)[..n] == Inputs(lines[..n], project);
      assert lines == lines[..n] + [lines[n]] && lines[n] in lines;
      var was, now := Kept(before, Inputs(lines[..n], project), rows[..n]), Kept(before, Inputs(lines, project), rows);
      assert now == if rows[n].Written? then was[lines[n].id.value := Build(lines[n], project)] else was;
      hide Kept;
      if rows[n].Written? && lines[n].id.value == id {
        assert Lookup(now, id) == Some(Build(lines[n], project));
      } else if Reached(lines, rows, 0, id) {
        var x :| x in lines[..n] && Given(x.id) == Some(id) && Lookup(was, id) == Some(Build(x, project));
        assert x in lines;
      }
    }
  }

  lemma NoneReached(rows: seq<BulkRow>, id: string)
    requires rows == []
    ensures !Reached([], rows, 0, id)
  {
  }

  lemma BulkWrote(before: map<string, Input>, lines: seq<NodeLine>, rows: seq<BulkRow>, project: string)
    requires |rows| == |lines| && (forall x :: x in lines ==> Shaped(x)) && OneLineEach(lines)
    ensures Stitched(before, Kept(before, Inputs(lines, project), rows), lines, rows, 0, project)
  {
    var after := Kept(before, Inputs(lines, project), rows);
    forall id
      ensures Lookup(after, id) == if Reached(lines, rows, 0, id) then Under(before, lines, project, id)
        else Lookup(before, id)
    {
      KeptAt(before, lines, rows, project, id);
      hide Kept, Find;
      if Reached(lines, rows, 0, id) {
        var x :| x in lines && Given(x.id) == Some(id) && Lookup(after, id) == Some(Build(x, project));
        assert Find(lines, id) == Some(x);
      }
    }
  }

  /** The line at a position is reached now; the fallback wrote it if the bulk call had not. */
  lemma StitchOne(before: map<string, Input>, now: map<string, Input>, lines: seq<NodeLine>, rows: seq<BulkRow>, i: nat,
                  project: string)
    requires |rows| == |lines| && i < |lines| && OneLineEach(lines) && Shaped(lines[i])
    requires Stitched(before, now, lines, rows, i, project)
    ensures rows[i].Written? ==> Stitched(before, now, lines, rows, i + 1, project)
    ensures Stitched(before, now[lines[i].id.value := Build(lines[i], project)], lines, rows, i + 1, project)
  {
    hide Find;
    var key := lines[i].id.value;
    assert lines[i] in lines && Find(lines, key) == Some(lines[i]);
    assert Reached(lines, rows, i + 1, key);
    forall id ensures Reached(lines, rows, i + 1, id) <==> Reached(lines, rows, i, id) || id == key {
      if k :| 0 <= k < |lines| && Given(lines[k].id) == Some(id) && (rows[k].Written? || k < i + 1) {
        assert k == i || rows[k].Written? || k < i;
      }
    }
    if rows[i].Written? { assert Reached(lines, rows, i, key); }
    hide Reached;
  }

  lemma StitchedAll(
    before: map<string, Input>, now: map<string, Input>, lines: seq<NodeLine>, rows: seq<BulkRow>, project: string)
    requires |rows| == |lines| && Stitched(before, now, lines, rows, |lines|, project)
    ensures Wrote(before, now, lines, project)
  {
    forall id ensures Lookup(now, id) == Under(before, lines, project, id) {
      var f := Find(lines, id);
      if f.Some? {
        var k :| 0 <= k < |lines| && lines[k] == f.value;
        assert Reached(lines, rows, |lines|, id);
      }
    }
  }

  method IndexById(lines: seq<NodeLine>) returns (byId: map<string, NodeLine>)
    requires forall x :: x in lines ==> Shaped(x)
    ensures forall id :: id in byId <==> Find(lines, id).Some?
    ensures forall id :: id in byId ==> byId[id] == Find(lines, id).value
  {
    byId := map[];
    for i := 0 to |lines|
      invariant forall id :: id in byId <==> Find(lines[..i], id).Some?
      invariant forall id :: id in byId ==> byId[id] == Find(lines[..i], id).value
    {
      assert lines[i] in lines;
      assert lines[..i + 1][..i] == lines[..i];
      byId := byId[lines[i].id.value := lines[i]];
    }
    assert lines[..|lines|] == lines;
  }

  /** The batch with vectors; a line whose vector has a foreign dimension is stored again without it. */
  method StoreBulk(store: GroupStore, lines: seq<NodeLine>, project: string, result: ImportResult)
    returns (out: ImportResult)
    requires forall x :: x in lines ==> Shaped(x)
    modifies store`nodes
    ensures Counted(result, out, |lines|)
    ensures store.reliable ==> out == result.(nodeCount := result.nodeCount + |lines|)
    ensures store.reliable && OneLineEach(lines) ==> Wrote(old(store.nodes), store.nodes, lines, project)
  {
    hide Wrote, Stitched, OneLineEach, Kept, Find;
    ghost var before := store.nodes;
    var rows := store.BulkStoreNodesWithVectors(Inputs(lines, project));
    ghost var clear := store.reliable && OneLineEach(lines);
    if clear { BulkWrote(before, lines, rows, project); }
    var byId := IndexById(lines);
    out := result;
    for i := 0 to |rows|
      invariant Counted(result, out, i)
      invariant store.reliable ==> out == result.(nodeCount := result.nodeCount + i)
      invariant clear ==> Stitched(before, store.nodes, lines, rows, i, project)
    {
      assert lines[i] in lines;
      var id := if rows[i].id.Some? then rows[i].id.value else Text(lines[i].id);
      assert id == lines[i].id.value;
      var p := if id in byId then byId[id] else lines[i];
      assert clear ==> p == lines[i] by { if clear { SameLine(lines, p, lines[i]); } }
      if clear { StitchOne(before, store.nodes, lines, rows, i, project); }
      match rows[i]
      case Written(_) =>
        out := out.(nodeCount := out.nodeCount + 1);
      case WrongDimension(_) =>
        var error := store.StoreNode(Build(p, project));
        if error.None? {
          out := out.(nodeCount := out.nodeCount + 1);
        } else {
          out := out.(errors := out.errors + [ImportError(Text(p.id), "re-embed fallback failed: " + error.value)]);
        }
      case Failed(_, error) =>
        out := out.(errors := out.errors + [ImportError(Text(p.id), error)]);
    }
    if clear { StitchedAll(before, store.nodes, lines, rows, project); }
  }

  /** One member's lines: shape errors, skipped types, then the writes without and with vectors. */
  method Ingest(
    store: GroupStore, project: string, lines: seq<NodeLine>, header: int, allowed: set<string>, result: ImportResult)
    returns (out: ImportResult)
    modifies store`nodes
    ensures out.nodeCount + out.skipped + |out.errors| == result.nodeCount + result.skipped + |result.errors| + |lines|
    ensures out.skipped == result.skipped + SkippedCount(lines, allowed)
    ensures result.errors + ShapeErrors(lines) <= out.errors
    ensures out.edgeCount == result.edgeCount && out.deferred == result.deferred
    ensures store.reliable ==>
      out.nodeCount == result.nodeCount + |Importables(lines, allowed)| &&
      out.errors == result.errors + ShapeErrors(lines)
    ensures store.reliable && OneLineEach(Importables(lines, allowed)) ==>
      Wrote(old(store.nodes), store.nodes, Importables(lines, allowed), project)
  {
    hide Wrote, OneLineEach, Importables, SkippedCount, ShapeErrors;
    EveryLineOnce(lines, allowed);
    if |lines| == 0 {
      NoLines(allowed);
      WroteNothing(store.nodes, project);
      return result;
    }
    var prepared, r := Prepare(lines, allowed, result);
    var withVec, withoutVec := Partition(prepared, header >= 2 && store.bulk);
    ghost var n0 := store.nodes;
    out := StoreSerial(store, withoutVec, project, r);
    ghost var n1 := store.nodes;
    if |withVec| == 0 {
      WroteNothing(n1, project);
    } else {
      out := StoreBulk(store, withVec, project, out);
    }
    if store.reliable && OneLineEach(prepared) {
      SubLines(prepared, withVec);
      WroteBoth(n0, n1, store.nodes, withoutVec, withVec, prepared, project);
    }
  }

  lemma NoLines(allowed: set<string>)
    ensures Importables([], allowed) == [] && SkippedCount([], allowed) == 0 && ShapeErrors([]) == []
  {
  }

  lemma SubLines(all: seq<NodeLine>, some: seq<NodeLine>)
    requires OneLineEach(all) && forall x :: x in some ==> x in all
    ensures OneLineEach(some)
  {
  }

  lemma SameLine(lines: seq<NodeLine>, x: NodeLine, y: NodeLine)
    requires OneLineEach(lines) && x in lines && y in lines && Given(x.id).Some? && Given(x.id) == Given(y.id)
    ensures x == y
  {
  }

  // ---- Edges -------------------------------------------------------------------------------------------

  function EdgeOf(r: EdgeRecord): Option<Edge>
  {
    if Given(r.source).Some? && Given(r.target).Some? && Given(r.relation).Some?
    then Some(Edge(r.source.value, r.target.value, r.relation.value)) else None
  }

  function EdgeName(source: Option<string>, target: Option<string>): string
  {
    (if source.Some? then source.value else "?") + "\U{2192}" + (if target.Some? then target.value else "?")
  }

  predicate Joins(ids: set<string>, r: EdgeRecord)
  {
    EdgeOf(r).Some? && EdgeOf(r).value.source in ids && EdgeOf(r).value.target in ids
  }

  /** The edges of the well-formed lines whose endpoints are both among the ids, or not. */
  function EdgesWhere(lines: seq<EdgeRecord>, ids: set<string>, joined: bool): seq<Edge>
  {
    if lines == [] then []
    else
      var line := lines[|lines| - 1];
      EdgesWhere(lines[..|lines| - 1], ids, joined) +
      if EdgeOf(line).Some? && Joins(ids, line) == joined then [EdgeOf(line).value] else []
  }

  lemma {:induction false} EdgesWhereIs(lines: seq<EdgeRecord>, ids: set<string>, joined: bool, e: Edge)
    ensures e in EdgesWhere(lines, ids, joined) <==>
      exists x :: x in lines && EdgeOf(x) == Some(e) && Joins(ids, x) == joined
  {
    if lines != [] {
      var n := |lines| - 1;
      assert lines == lines[..n] + [lines[n]];
      EdgesWhereIs(lines[..n], ids, joined, e);
      if x :| x in lines && EdgeOf(x) == Some(e) && Joins(ids, x) == joined { assert x in lines[..n] || x == lines[n]; }
      hide Joins, EdgeOf;
    }
  }

  function Malformed(lines: seq<EdgeRecord>): seq<ImportError>
  {
    if lines == [] then []
    else
      var line := lines[|lines| - 1];
      Malformed(lines[..|lines| - 1]) +
      if EdgeOf(line).Some? then [] else [ImportError(EdgeName(line.source, line.target),
        "edge missing sourceId, targetId, or relation")]
  }

  /** What a reliable store makes of edge lines: persisted, deferred or malformed. */
  function EdgesApplied(result: ImportResult, lines: seq<EdgeRecord>, ids: set<string>): ImportResult
  {
    result.(edgeCount := result.edgeCount + |EdgesWhere(lines, ids, true)|,
            deferred := result.deferred + EdgesWhere(lines, ids, false),
            errors := result.errors + Malformed(lines))
  }

  /** Every edge line was counted once: persisted, deferred or an error. */
  predicate EdgesCounted(before: ImportResult, after: ImportResult, lines: nat)
  {
    && after.edgeCount + |after.deferred| + |after.errors| ==
      before.edgeCount + |before.deferred| + |before.errors| + lines
    && after.nodeCount == before.nodeCount && after.skipped == before.skipped
  }

  method ImportEdgeLine(store: GroupStore, line: EdgeRecord, result: ImportResult) returns (out: ImportResult)
    modifies store`edges
    ensures EdgesCounted(result, out, 1)
    ensures store.reliable ==> out == EdgesApplied(result, [line], store.nodes.Keys)
    ensures store.reliable ==>
      store.edges == old(store.edges) +
      if Joins(store.nodes.Keys, line) then {EdgeOf(line).value} else {}
  {
    OneEdge(line, store.nodes.Keys);
    hide EdgesWhere, Malformed;
    if EdgeOf(line).None? {
      return result.(errors := result.errors +
        [ImportError(EdgeName(line.source, line.target), "edge missing sourceId, targetId, or relation")]);
    }
    var e := EdgeOf(line).value;
    var outcome := store.StoreEdge(e);
    match outcome
    case Persisted => return result.(edgeCount := result.edgeCount + 1);
    case EndpointMissing => return result.(deferred := result.deferred + [e]);
    case Broken(error) => return result.(errors := result.errors +
      [ImportError(EdgeName(line.source, line.target), error)]);
  }

  lemma OneEdge(line: EdgeRecord, ids: set<string>)
    ensures forall j ::
      EdgesWhere([line], ids, j) ==
      if EdgeOf(line).Some? && Joins(ids, line) == j then [EdgeOf(line).value] else []
    ensures Malformed([line]) == if EdgeOf(line).Some? then []
      else [ImportError(EdgeName(line.source, line.target), "edge missing sourceId, targetId, or relation")]
  {
    assert [line][..0] == [];
  }

  lemma {:induction false} EdgesConcat(a: seq<EdgeRecord>, b: seq<EdgeRecord>, ids: set<string>)
    ensures forall j :: EdgesWhere(a + b, ids, j) == EdgesWhere(a, ids, j) + EdgesWhere(b, ids, j)
    ensures Malformed(a + b) == Malformed(a) + Malformed(b)
  {
    if b == [] {
      assert a + b == a;
    } else {
      assert (a + b)[..|a + b| - 1] == a + b[..|b| - 1];
      EdgesConcat(a, b[..|b| - 1], ids);
    }
  }

  lemma AppliedAppend(result: ImportResult, a: seq<EdgeRecord>, b: seq<EdgeRecord>, ids: set<string>)
    ensures EdgesApplied(result, a + b, ids) == EdgesApplied(EdgesApplied(result, a, ids), b, ids)
    ensures forall e :: e in EdgesWhere(a + b, ids, true) <==>
      e in EdgesWhere(a, ids, true) || e in EdgesWhere(b, ids, true)
  {
    hide EdgesWhere, Malformed;
    EdgesConcat(a, b, ids);
    assert EdgesWhere(a + b, ids, true) == EdgesWhere(a, ids, true) + EdgesWhere(b, ids, true);
    assert EdgesWhere(a + b, ids, false) == EdgesWhere(a, ids, false) + EdgesWhere(b, ids, false);
  }

  method ApplyEdges(store: GroupStore, lines: seq<EdgeRecord>, result: ImportResult) returns (out: ImportResult)
    modifies store`edges
    ensures EdgesCounted(result, out, |lines|)
    ensures store.reliable ==> out == EdgesApplied(result, lines, store.nodes.Keys)
    ensures store.reliable ==> store.edges == old(store.edges) + set e | e in EdgesWhere(lines, store.nodes.Keys, true)
  {
    hide EdgesApplied;
    out := result;
    ghost var ids := store.nodes.Keys;
    assert EdgesApplied(result, [], ids) == result by { NothingApplied(result, ids); }
    for i := 0 to |lines|
      invariant EdgesCounted(result, out, i)
      invariant store.reliable ==> out == EdgesApplied(result, lines[..i], ids)
      invariant store.reliable ==> store.edges == old(store.edges) + set e | e in EdgesWhere(lines[..i], ids, true)
    {
      assert lines[..i + 1][..i] == lines[..i];
      assert lines[..i + 1] == lines[..i] + [lines[i]];
      AppliedAppend(result, lines[..i], [lines[i]], ids);
      out := ImportEdgeLine(store, lines[i], out);
    }
    assert lines[..|lines|] == lines;
  }

  lemma NothingApplied(result: ImportResult, ids: set<string>)
    ensures EdgesApplied(result, [], ids) == result && EdgesWhere([], ids, true) == []
  {
  }

  function AllEdges(members: seq<Member>): seq<EdgeRecord>
  {
    if members == [] then [] else AllEdges(members[..|members| - 1]) + members[|members| - 1].edges
  }

  // ---- The load ------------------------------------------------------------------------------------------

  ghost predicate DistinctPaths(members: seq<Member>)
  {
    forall i, j :: 0 <= i < j < |members| ==> members[i].path != members[j].path
  }

  ghost predicate OneLineEachIn(members: seq<Member>)
  {
    forall m :: m in members ==> OneLineEach(m.nodes)
  }

  /** Under each id: the copy of its first declarer, if that line is importable; else what was there. */
  function FinalCopy(nodes: map<string, Input>, members: seq<Member>, allowed: set<string>, id: string): Option<Input>
  {
    var d := Declarer(members, id);
    if d == |members| then Lookup(nodes, id)
    else Under(nodes, Importables(members[d].nodes, allowed), members[d].project, id)
  }

  lemma {:induction false} OwnedIs(members: seq<Member>, path: string, lines: seq<NodeLine>)
    ensures forall x :: x in Owned(members, path, lines) <==>
                        x in lines && (Given(x.id).None? || Owner(members, Given(x.id).value) == Some(path))
  {
    if lines != [] {
      OwnedIs(members, path, lines[..|lines| - 1]);
      assert lines == lines[..|lines| - 1] + [lines[|lines| - 1]];
    }
  }

  /** What a member may write under an id, after the guard: all it has if it is the first
      declarer, and otherwise nothing. */
  lemma FoundOwned(members: seq<Member>, i: nat, allowed: set<string>, id: string)
    requires i < |members| && DistinctPaths(members) && OneLineEach(members[i].nodes)
    ensures var m := members[i];
      Find(Importables(Owned(members, m.path, m.nodes), allowed), id) ==
      if Declarer(members, id) == i then Find(Importables(m.nodes, allowed), id) else None
  {
    hide Owned, Find, Importables;
    var m, d := members[i], Declarer(members, id);
    var own, all := Importables(Owned(members, m.path, m.nodes), allowed), Importables(m.nodes, allowed);
    OwnedIs(members, m.path, m.nodes);
    var f, g := Find(own, id), Find(all, id);
    if d == i && g.Some? {
      assert Owner(members, id) == Some(m.path);
      assert g.value in own;
    }
    if f.Some? {
      assert f.value in own && f.value in m.nodes && Given(f.value.id) == Some(id);
      assert Owner(members, id) == Some(m.path);
      assert d == i;
      assert f.value in all && g.Some? && g.value in m.nodes;
    }
  }

  lemma OwnedOneEach(members: seq<Member>, i: nat, allowed: set<string>)
    requires i < |members| && OneLineEach(members[i].nodes)
    ensures OneLineEach(Importables(Owned(members, members[i].path, members[i].nodes), allowed))
  {
    hide Owned, Importables;
    OwnedIs(members, members[i].path, members[i].nodes);
  }

  /** The store once the first members are in. */
  ghost predicate Loaded(
    before: map<string, Input>, now: map<string, Input>, members: seq<Member>, allowed: set<string>, i: nat)
  {
    forall id :: Lookup(now, id) == if Declarer(members, id) < i then FinalCopy(before, members, allowed, id)
      else Lookup(before, id)
  }

  lemma LoadOne(before: map<string, Input>, was: map<string, Input>, now: map<string, Input>, members: seq<Member>,
                allowed: set<string>, i: nat)
    requires i < |members| && DistinctPaths(members) && OneLineEach(members[i].nodes)
    requires Loaded(before, was, members, allowed, i)
    requires Wrote(was, now, Importables(Owned(members, members[i].path, members[i].nodes), allowed),
      members[i].project)
    ensures Loaded(before, now, members, allowed, i + 1)
  {
    hide Owned, Find, Importables, DistinctPaths, OneLineEach;
    forall id
      ensures Lookup(now, id) == if Declarer(members, id) < i + 1 then FinalCopy(before, members, allowed, id)
        else Lookup(before, id)
    {
      FoundOwned(members, i, allowed, id);
    }
  }

  /** The counts of a member: every line once as ingested, skipped or error, and skipped those
      of another type; a reliable store ingests every importable line. */
  ghost predicate LinesCounted(r: ImportResult, lines: seq<NodeLine>, allowed: set<string>, reliable: bool)
  {
    && r.nodeCount + r.skipped + |r.errors| == |lines| && r.skipped == SkippedCount(lines, allowed)
    && (reliable ==> r.nodeCount == |Importables(lines, allowed)| && r.errors == ShapeErrors(lines))
  }

  // ---- What a load leaves, field by field ----------------------------------------------------------------

  /** A line with an id and a type that may be imported. */
  predicate Good(x: NodeLine, allowed: set<string>)
  {
    x.id.Some? && x.id.value != "" && x.kind.Some? && x.kind.value != "" && x.kind.value in allowed
  }

  /** No member before this one has a line of that id. */
  ghost predicate FirstWith(members: seq<Member>, i: nat, id: string)
  {
    forall j, y :: 0 <= j < i && j < |members| && y in members[j].nodes ==> y.id != Some(id)
  }

  ghost predicate SavedAs(nodes: map<string, Input>, x: NodeLine, project: string)
    requires x.id.Some? && x.kind.Some?
  {
    && x.id.value in nodes
    && var n := nodes[x.id.value];
       n.id == x.id.value && n.kind == x.kind.value && n.body == x.body && n.project == project
  }

  /** Every good line of an id that no earlier member has is saved with its id, its type and its
      text, for its member's project; under every other id the store is as it was. */
  ghost predicate SavedLines(
    before: map<string, Input>, after: map<string, Input>, members: seq<Member>, allowed: set<string>)
  {
    && (forall i, x ::
          0 <= i < |members| && x in members[i].nodes && Good(x, allowed) && FirstWith(members, i, x.id.value) ==>
          SavedAs(after, x, members[i].project))
    && (forall id ::
          (forall i, x ::
             0 <= i < |members| && x in members[i].nodes && x.id == Some(id) && Good(x, allowed) ==>
             !FirstWith(members, i, id)) ==>
          (id in after <==> id in before) && (id in after ==> after[id] == before[id]))
  }

  lemma LineOfId(lines: seq<NodeLine>, id: string)
    requires DeclaresIn(lines, id)
    ensures exists y :: y in lines && y.id == Some(id)
  {
    var l :| 0 <= l < |lines| && Given(lines[l].id) == Some(id);
    assert lines[l] in lines;
  }

  lemma FirstIsDeclarer(members: seq<Member>, i: nat, x: NodeLine)
    requires i < |members| && x in members[i].nodes && Given(x.id).Some?
    ensures FirstWith(members, i, x.id.value) <==> Declarer(members, x.id.value) == i
  {
    var id := x.id.value;
    var k :| 0 <= k < |members[i].nodes| && members[i].nodes[k] == x;
    assert Given(members[i].nodes[k].id) == Some(id);
    assert DeclaresIn(members[i].nodes, id);
    var d := Declarer(members, id);
    if d < |members| { LineOfId(members[d].nodes, id); }
    if d == i {
      forall j, y | 0 <= j < i && y in members[j].nodes ensures y.id != Some(id) {
        var l :| 0 <= l < |members[j].nodes| && members[j].nodes[l] == y;
        assert !DeclaresIn(members[j].nodes, id);
      }
    }
  }

  lemma FinalIsSaved(before: map<string, Input>, after: map<string, Input>, members: seq<Member>, allowed: set<string>,
                     i: nat, x: NodeLine)
    requires forall id :: Lookup(after, id) == FinalCopy(before, members, allowed, id)
    requires i < |members| && OneLineEach(members[i].nodes) && x in members[i].nodes && Good(x, allowed)
    requires FirstWith(members, i, x.id.value)
    ensures SavedAs(after, x, members[i].project)
  {
    FirstIsDeclarer(members, i, x);
    var id, lines := x.id.value, Importables(members[i].nodes, allowed);
    hide Importables;
    assert x in lines;
    var f := Find(lines, id);
    assert f.value in members[i].nodes && f.value == x;
    assert Lookup(after, id) == Some(Build(x, members[i].project));
  }

  lemma GoodLine(lines: seq<NodeLine>, x: NodeLine, all: seq<NodeLine>, allowed: set<string>)
    requires lines == Importables(all, allowed) && x in lines
    ensures x in all && Good(x, allowed)
  {
  }

  lemma OthersAsBefore(
    before: map<string, Input>, after: map<string, Input>, members: seq<Member>, allowed: set<string>, id: string)
    requires Lookup(after, id) == FinalCopy(before, members, allowed, id)
    requires forall i, x :: 0 <= i < |members| && x in members[i].nodes && x.id == Some(id) && Good(x, allowed) ==>
                        !FirstWith(members, i, id)
    ensures (id in after <==> id in before) && (id in after ==> after[id] == before[id])
  {
    var d := Declarer(members, id);
    if d < |members| {
      var lines := Importables(members[d].nodes, allowed);
      hide Importables;
      var f := Find(lines, id);
      if f.Some? {
        GoodLine(lines, f.value, members[d].nodes, allowed);
        FirstIsDeclarer(members, d, f.value);
      }
    }
  }

  lemma LoadSaves(before: map<string, Input>, after: map<string, Input>, members: seq<Member>, allowed: set<string>)
    requires forall id :: Lookup(after, id) == FinalCopy(before, members, allowed, id)
    requires OneLineEachIn(members)
    ensures SavedLines(before, after, members, allowed)
  {
    hide FinalCopy, FirstWith, SavedAs, OneLineEach;
    forall i, x | 0 <= i < |members| && x in members[i].nodes && Good(x, allowed) && FirstWith(members, i, x.id.value)
      ensures SavedAs(after, x, members[i].project)
    {
      assert members[i] in members;
      FinalIsSaved(before, after, members, allowed, i, x);
    }
    forall id | forall i, x :: 0 <= i < |members| && x in members[i].nodes && x.id == Some(id) && Good(x, allowed) ==>
                        !FirstWith(members, i, id)
      ensures (id in after <==> id in before) && (id in after ==> after[id] == before[id])
    {
      OthersAsBefore(before, after, members, allowed, id);
    }
  }

  method LoadGroup(store: GroupStore, members: seq<Member>, allowed: set<string>)
    returns (ok: bool, results: seq<ImportResult>, edgeResult: ImportResult, collisions: seq<Collision>)
    modifies store`nodes, store`edges
    ensures ok <==> members != []
    ensures ok ==> CollisionsOf(members, collisions)
    ensures !ok ==> store.nodes == old(store.nodes) && store.edges == old(store.edges)
    ensures ok ==> |results| == |members|
    ensures ok ==> forall i :: 0 <= i < |members| ==>
      LinesCounted(results[i], Owned(members, members[i].path, members[i].nodes), allowed, store.reliable)
    ensures ok ==> edgeResult.edgeCount + |edgeResult.deferred| + |edgeResult.errors| == |AllEdges(members)|
    ensures ok && store.reliable ==> edgeResult == EdgesApplied(EMPTY, AllEdges(members), store.nodes.Keys)
    ensures ok && store.reliable ==>
      store.edges ==
      old(store.edges) + set e | e in EdgesWhere(AllEdges(members), store.nodes.Keys, true)
    ensures ok && store.reliable && DistinctPaths(members) && OneLineEachIn(members) ==>
      && (forall id :: Lookup(store.nodes, id) == FinalCopy(old(store.nodes), members, allowed, id))
      && SavedLines(old(store.nodes), store.nodes, members, allowed)
  {
    hide *;
    if |members| == 0 { return false, [], EMPTY, []; }
    ok := true;
    collisions := DetectCollisions(members);
    var kept := DropForeign(members);
    results := LoadNodes(store, members, kept, allowed);
    if store.reliable && DistinctPaths(members) && OneLineEachIn(members) {
      LoadSaves(old(store.nodes), store.nodes, members, allowed);
    }
    edgeResult := PoolEdges(store, members);
    NothingCounted();
  }

  lemma NothingCounted()
    ensures forall r, n: nat :: EdgesCounted(EMPTY, r, n) ==> r.edgeCount + |r.deferred| + |r.errors| == n
  {
  }

  /** Every member's nodes, as far as the guard left them. */
  method LoadNodes(store: GroupStore, members: seq<Member>, kept: seq<seq<NodeLine>>, allowed: set<string>)
    returns (results: seq<ImportResult>)
    requires |kept| == |members| && forall i :: 0 <= i < |members| ==>
      kept[i] == Owned(members, members[i].path, members[i].nodes)
    modifies store`nodes
    ensures |results| == |members|
    ensures forall i :: 0 <= i < |members| ==>
      LinesCounted(results[i], Owned(members, members[i].path, members[i].nodes), allowed, store.reliable)
    ensures store.reliable && DistinctPaths(members) && OneLineEachIn(members) ==>
      forall id :: Lookup(store.nodes, id) == FinalCopy(old(store.nodes), members, allowed, id)
  {
    hide Owned, DistinctPaths, OneLineEach, Wrote, Loaded, FinalCopy, Importables, SkippedCount, ShapeErrors;
    ghost var before := store.nodes;
    ghost var clear := store.reliable && DistinctPaths(members) && OneLineEachIn(members);
    results := [];
    StartLoad(before, members, allowed);
    for i := 0 to |members|
      invariant |results| == i
      invariant forall j :: 0 <= j < i ==>
        LinesCounted(results[j], Owned(members, members[j].path, members[j].nodes), allowed, store.reliable)
      invariant clear ==> Loaded(before, store.nodes, members, allowed, i)
    {
      var m := members[i];
      ghost var was := store.nodes;
      if clear {
        assert m in members;
        OwnedOneEach(members, i, allowed);
      }
      var result := Ingest(store, m.project, kept[i], if m.header.Some? then m.header.value else 1, allowed, EMPTY);
      results := results + [result];
      if clear { LoadOne(before, was, store.nodes, members, allowed, i); }
    }
    if clear { EndLoad(before, store.nodes, members, allowed); }
  }

  lemma StartLoad(nodes: map<string, Input>, members: seq<Member>, allowed: set<string>)
    ensures Loaded(nodes, nodes, members, allowed, 0)
  {
  }

  lemma EndLoad(before: map<string, Input>, now: map<string, Input>, members: seq<Member>, allowed: set<string>)
    requires Loaded(before, now, members, allowed, |members|)
    ensures forall id :: Lookup(now, id) == FinalCopy(before, members, allowed, id)
  {
    hide Importables;
    forall id ensures Lookup(now, id) == FinalCopy(before, members, allowed, id) {
      assert Lookup(now, id) == if Declarer(members, id) < |members| then FinalCopy(before, members, allowed, id)
        else Lookup(before, id);
    }
  }

  /** Every member's edges, once all nodes are in. */
  method PoolEdges(store: GroupStore, members: seq<Member>) returns (edgeResult: ImportResult)
    modifies store`edges
    ensures EdgesCounted(EMPTY, edgeResult, |AllEdges(members)|)
    ensures store.reliable ==> edgeResult == EdgesApplied(EMPTY, AllEdges(members), store.nodes.Keys)
    ensures store.reliable ==>
      store.edges == old(store.edges) +
      set e | e in EdgesWhere(AllEdges(members), store.nodes.Keys, true)
  {
    hide EdgesApplied, EdgesWhere;
    edgeResult := EMPTY;
    NothingApplied(EMPTY, store.nodes.Keys);
    for i := 0 to |members|
      invariant EdgesCounted(EMPTY, edgeResult, |AllEdges(members[..i])|)
      invariant store.reliable ==> edgeResult == EdgesApplied(EMPTY, AllEdges(members[..i]), store.nodes.Keys)
      invariant store.reliable ==>
        store.edges ==
        old(store.edges) + set e | e in EdgesWhere(AllEdges(members[..i]), store.nodes.Keys, true)
    {
      assert members[..i + 1][..i] == members[..i];
      AppliedAppend(EMPTY, AllEdges(members[..i]), members[i].edges, store.nodes.Keys);
      edgeResult := ApplyEdges(store, members[i].edges, edgeResult);
    }
    assert members[..|members|] == members;
  }

  // ---- What the counts and reports mean ------------------------------------------------------------------

  predicate Nameless(x: NodeLine)
  {
    x.id.None? || x.id.value == "" || x.kind.None? || x.kind.value == ""
  }

  predicate OtherType(x: NodeLine, allowed: set<string>)
  {
    !Nameless(x) && x.kind.value !in allowed
  }

  predicate FaultOf(x: NodeLine, er: ImportError)
  {
    && Nameless(x) && er.error == "node missing id or type"
    && er.id == if x.id.Some? then x.id.value else "<missing-id>"
  }

  /** The ingested, skipped and faulty lines are those with an importable type, with another
      type, and without id or type; each of these is reported under its id. */
  lemma {:induction false} CountsExactly(lines: seq<NodeLine>, allowed: set<string>)
    ensures |Importables(lines, allowed)| == Strings.HowMany(lines, x => Good(x, allowed))
    ensures SkippedCount(lines, allowed) == Strings.HowMany(lines, x => OtherType(x, allowed))
    ensures |ShapeErrors(lines)| == Strings.HowMany(lines, x => Nameless(x))
    ensures forall er :: er in ShapeErrors(lines) ==> exists x :: x in lines && FaultOf(x, er)
  {
    if lines != [] {
      var n := |lines| - 1;
      CountsExactly(lines[..n], allowed);
      Strings.HowManyMore(lines, x => Good(x, allowed));
      Strings.HowManyMore(lines, x => OtherType(x, allowed));
      Strings.HowManyMore(lines, x => Nameless(x));
      forall er | er in ShapeErrors(lines) ensures exists x :: x in lines && FaultOf(x, er) {
        if er in ShapeErrors(lines[..n]) {
          var x :| x in lines[..n] && FaultOf(x, er);
          assert x in lines;
        } else {
          assert lines[n] in lines && FaultOf(lines[n], er);
        }
      }
    }
  }

  predicate Full(l: EdgeRecord)
  {
    && l.source.Some? && l.source.value != "" && l.target.Some? && l.target.value != ""
    && l.relation.Some? && l.relation.value != ""
  }

  predicate Between(l: EdgeRecord, ids: set<string>)
  {
    Full(l) && l.source.value in ids && l.target.value in ids
  }

  predicate Dangling(l: EdgeRecord, ids: set<string>)
  {
    Full(l) && !(l.source.value in ids && l.target.value in ids)
  }

  predicate Writes(l: EdgeRecord, e: Edge)
  {
    l == EdgeRecord(Some(e.source), Some(e.target), Some(e.relation))
  }

  /** An edge line that lacks an end or its relation is reported under both ends, a question mark
      for one it does not have. */
  predicate EdgeFault(l: EdgeRecord, er: ImportError)
  {
    && !Full(l) && er.error == "edge missing sourceId, targetId, or relation"
    && (l.source.Some? && l.target.Some? ==> er.id == l.source.value + "\U{2192}" + l.target.value)
    && (l.source.Some? && l.target.None? ==> er.id == l.source.value + "\U{2192}?")
    && (l.source.None? && l.target.Some? ==> er.id == "?\U{2192}" + l.target.value)
    && (l.source.None? && l.target.None? ==> er.id == "?\U{2192}?")
  }

  /** Persisted are the full lines between stored ids, deferred the other full ones, and the
      rest are errors. */
  lemma {:induction false} EdgesExactly(lines: seq<EdgeRecord>, ids: set<string>)
    ensures var r := EdgesApplied(EMPTY, lines, ids);
      && r.edgeCount == Strings.HowMany(lines, l => Between(l, ids))
      && |r.deferred| == Strings.HowMany(lines, l => Dangling(l, ids))
      && |r.errors| == Strings.HowMany(lines, l => !Full(l))
      && (forall er :: er in r.errors ==> exists l :: l in lines && EdgeFault(l, er))
      && (forall e :: e in r.deferred <==> exists l :: l in lines && Dangling(l, ids) && Writes(l, e))
      && (forall e :: e in EdgesWhere(lines, ids, true) <==> exists l :: l in lines && Between(l, ids) && Writes(l, e))
  {
    hide EdgesWhere, Malformed;
    EdgeCounts(lines, ids);
    EdgeFaults(lines);
    forall e
      ensures e in EdgesWhere(lines, ids, false) <==> exists l :: l in lines && Dangling(l, ids) && Writes(l, e)
    {
      EdgesWhereIs(lines, ids, false, e);
      if l :| l in lines && Dangling(l, ids) && Writes(l, e) { assert EdgeOf(l) == Some(e); }
    }
    forall e ensures e in EdgesWhere(lines, ids, true) <==> exists l :: l in lines && Between(l, ids) && Writes(l, e) {
      EdgesWhereIs(lines, ids, true, e);
      if l :| l in lines && Between(l, ids) && Writes(l, e) { assert EdgeOf(l) == Some(e); }
    }
  }

  lemma {:induction false} EdgeFaults(lines: seq<EdgeRecord>)
    ensures forall er :: er in Malformed(lines) ==> exists l :: l in lines && EdgeFault(l, er)
  {
    if lines != [] {
      var n := |lines| - 1;
      var line := lines[n];
      EdgeFaults(lines[..n]);
      forall er | er in Malformed(lines) ensures exists l :: l in lines && EdgeFault(l, er) {
        if er in Malformed(lines[..n]) {
          var l :| l in lines[..n] && EdgeFault(l, er);
          assert l in lines;
        } else {
          NamedFault(line, er);
          assert line in lines;
        }
      }
    }
  }

  lemma NamedFault(line: EdgeRecord, er: ImportError)
    requires EdgeOf(line).None?
    requires er == ImportError(EdgeName(line.source, line.target), "edge missing sourceId, targetId, or relation")
    ensures EdgeFault(line, er)
  {
    assert "?" + "\U{2192}" == "?\U{2192}" && "?" + "\U{2192}" + "?" == "?\U{2192}?" && "\U{2192}" + "?" == "\U{2192}?";
    assert line.source.Some? && line.target.None? ==>
      line.source.value + "\U{2192}" + "?" == line.source.value + "\U{2192}?";
  }

  lemma {:induction false} EdgeCounts(lines: seq<EdgeRecord>, ids: set<string>)
    ensures |EdgesWhere(lines, ids, true)| == Strings.HowMany(lines, l => Between(l, ids))
    ensures |EdgesWhere(lines, ids, false)| == Strings.HowMany(lines, l => Dangling(l, ids))
    ensures |Malformed(lines)| == Strings.HowMany(lines, l => !Full(l))
  {
    if lines != [] {
      var n := |lines| - 1;
      EdgeCounts(lines[..n], ids);
      Strings.HowManyMore(lines, l => Between(l, ids));
      Strings.HowManyMore(lines, l => Dangling(l, ids));
      Strings.HowManyMore(lines, l => !Full(l));
    }
  }

  // ---- What the counts leave out ----------------------------------------------------------------------

  /** A line is counted unless the guard dropped it: the counts of a member add up to its
      lines exactly when no line of it belongs to another member. */
  lemma {:induction false} DroppedAreUncounted(members: seq<Member>, path: string, lines: seq<NodeLine>)
    ensures |Owned(members, path, lines)| <= |lines|
    ensures |Owned(members, path, lines)| == |lines| <==>
            forall x :: x in lines ==> Given(x.id).None? || Owner(members, Given(x.id).value) == Some(path)
  {
    hide Owner;
    if lines != [] {
      var n := |lines| - 1;
      assert lines == lines[..n] + [lines[n]];
      DroppedAreUncounted(members, path, lines[..n]);
    }
  }

  // ---- The collision report -----------------------------------------------------------------------------

  datatype Collision = Collision(id: string, members: set<string>)

  /** The lines the report is made of. */
  function Lines(m: Member): seq<NodeLine>
  {
    m.nodes + m.code
  }

  /** The files that declare an id. */
  function Paths(members: seq<Member>, id: string): set<string>
  {
    if members == [] then {}
    else
      var m := members[|members| - 1];
      Paths(members[..|members| - 1], id) + if DeclaresIn(Lines(m), id) then {m.path} else {}
  }

  lemma {:induction false} PathsAre(members: seq<Member>, id: string)
    ensures forall p :: p in Paths(members, id) <==> exists m :: m in members && DeclaresIn(Lines(m), id) && m.path == p
  {
    hide DeclaresIn, Lines;
    if members != [] {
      var n := |members| - 1;
      assert members == members[..n] + [members[n]];
      PathsAre(members[..n], id);
      forall p
        ensures p in Paths(members, id) <==> exists m :: m in members && DeclaresIn(Lines(m), id) && m.path == p
      {
        if m :| m in members && DeclaresIn(Lines(m), id) && m.path == p { assert m in members[..n] || m == members[n]; }
        if m :| m in members[..n] && DeclaresIn(Lines(m), id) && m.path == p { assert m in members; }
        if DeclaresIn(Lines(members[n]), id) && members[n].path == p { assert members[n] in members; }
      }
    }
  }

  /** `idToMembers` has the files of each id that was met. */
  ghost predicate Recorded(members: seq<Member>, idToMembers: OrderedMaps.Map<string, set<string>>)
  {
    idToMembers.Ok() && forall id :: idToMembers.Get(id, {}) == Paths(members, id)
  }

  /** A member of which the first lines were met. */
  function Met(m: Member, k: nat): Member
    requires k <= |Lines(m)|
  {
    m.(nodes := Lines(m)[..k], code := [])
  }

  lemma PathsStep(members: seq<Member>, m: Member, id: string)
    ensures Paths(members + [m], id) == Paths(members, id) + if DeclaresIn(Lines(m), id) then {m.path} else {}
  {
    assert (members + [m])[..|members|] == members;
  }

  lemma RecordLine(members: seq<Member>, m: Member, k: nat, was: OrderedMaps.Map<string, set<string>>,
                   now: OrderedMaps.Map<string, set<string>>)
    requires k < |Lines(m)| && Recorded(members + [Met(m, k)], was)
    requires var id := Given(Lines(m)[k].id);
      now == if id.None? then was else was.Set(id.value, was.Get(id.value, {}) + {m.path})
    ensures Recorded(members + [Met(m, k + 1)], now)
  {
    hide Paths, DeclaresIn;
    var given := Given(Lines(m)[k].id);
    if given.Some? { OrderedMaps.SetOk(was, given.value, was.Get(given.value, {}) + {m.path}); }
    forall id ensures now.Get(id, {}) == Paths(members + [Met(m, k + 1)], id) {
      assert was.Get(id, {}) == Paths(members + [Met(m, k)], id);
      PathsStep(members, Met(m, k), id);
      PathsStep(members, Met(m, k + 1), id);
      assert Lines(Met(m, k)) == Lines(m)[..k] && Lines(Met(m, k + 1)) == Lines(m)[..k + 1];
      DeclaresMore(Lines(m), k, id);
    }
  }

  /** A member is recorded alike before its first line and not at all, and after its last line
      and whole. */
  lemma RecordEnds(members: seq<Member>, m: Member, now: OrderedMaps.Map<string, set<string>>)
    ensures Recorded(members, now) <==> Recorded(members + [Met(m, 0)], now)
    ensures Recorded(members + [Met(m, |Lines(m)|)], now) <==> Recorded(members + [m], now)
  {
    hide Paths, DeclaresIn;
    forall id ensures Paths(members, id) == Paths(members + [Met(m, 0)], id)
      && Paths(members + [Met(m, |Lines(m)|)], id) == Paths(members + [m], id)
    {
      PathsStep(members, Met(m, 0), id);
      PathsStep(members, Met(m, |Lines(m)|), id);
      PathsStep(members, m, id);
      assert Lines(Met(m, 0)) == [] && Lines(Met(m, |Lines(m)|)) == Lines(m);
      NoneDeclared(id);
    }
  }

  lemma NoneDeclared(id: string)
    ensures !DeclaresIn([], id)
  {
  }

  lemma RecordedStart()
    ensures Recorded([], OrderedMaps.Empty())
  {
  }

  /** `collisions` reports, once each, those of the listed ids that more than one file
      declares, with those files. */
  ghost predicate Reports(members: seq<Member>, ids: seq<string>, collisions: seq<Collision>)
  {
    && (forall c :: c in collisions ==> c.id in ids && c.members == Paths(members, c.id) && |c.members| > 1)
    && (forall id :: id in ids && |Paths(members, id)| > 1 ==> exists c :: c in collisions && c.id == id)
    && (forall i, j :: 0 <= i < j < |collisions| ==> collisions[i].id != collisions[j].id)
  }

  lemma ReportsOneMore(
    members: seq<Member>, ids: seq<string>, id: string, was: seq<Collision>, now: seq<Collision>)
    requires Reports(members, ids, was) && id !in ids
    requires now == if |Paths(members, id)| > 1 then was + [Collision(id, Paths(members, id))] else was
    ensures Reports(members, ids + [id], now)
  {
    hide Paths;
    if |Paths(members, id)| > 1 {
      var c := Collision(id, Paths(members, id));
      OtherIds(was, c);
      ReportedStill(members, ids, was, c);
    } else {
      assert forall x :: x in ids + [id] <==> x in ids || x == id;
    }
  }

  lemma ReportedStill(members: seq<Member>, ids: seq<string>, was: seq<Collision>, c: Collision)
    requires Reports(members, ids, was)
    ensures forall x :: x in ids + [c.id] && |Paths(members, x)| > 1 ==> exists d :: d in was + [c] && d.id == x
  {
    hide Paths;
    forall x | x in ids + [c.id] && |Paths(members, x)| > 1 ensures exists d :: d in was + [c] && d.id == x {
      if x == c.id {
        assert c in was + [c];
      } else {
        var d :| d in was && d.id == x;
        assert d in was + [c];
      }
    }
  }

  lemma OtherIds(was: seq<Collision>, c: Collision)
    requires forall i, j :: 0 <= i < j < |was| ==> was[i].id != was[j].id
    requires forall x :: x in was ==> x.id != c.id
    ensures var now := was + [c]; forall i, j :: 0 <= i < j < |now| ==> now[i].id != now[j].id
  {
    forall k | 0 <= k < |was| ensures was[k].id != c.id { assert was[k] in was; }
  }

  /** The report: the ids that more than one file declares, each once, with those files. */
  ghost predicate CollisionsOf(members: seq<Member>, collisions: seq<Collision>)
  {
    && (forall c :: c in collisions ==> c.members == Paths(members, c.id) && |c.members| > 1)
    && (forall id :: |Paths(members, id)| > 1 ==> exists c :: c in collisions && c.id == id)
    && (forall i, j :: 0 <= i < j < |collisions| ==> collisions[i].id != collisions[j].id)
  }

  method DetectCollisions(members: seq<Member>) returns (collisions: seq<Collision>)
    ensures CollisionsOf(members, collisions)
  {
    hide Recorded, Paths, DeclaresIn, Reports, CollisionsOf;
    var idToMembers: OrderedMaps.Map<string, set<string>> := OrderedMaps.Empty();
    RecordedStart();
    for i := 0 to |members|
      invariant Recorded(members[..i], idToMembers)
    {
      var m := members[i];
      var lines := Lines(m);
      RecordEnds(members[..i], m, idToMembers);
      for k := 0 to |lines|
        invariant Recorded(members[..i] + [Met(m, k)], idToMembers)
      {
        ghost var was := idToMembers;
        var id := Given(lines[k].id);
        if id.Some? {
          idToMembers := idToMembers.Set(id.value, idToMembers.Get(id.value, {}) + {m.path});
        }
        RecordLine(members[..i], m, k, was, idToMembers);
      }
      RecordEnds(members[..i], m, idToMembers);
      assert members[..i] + [m] == members[..i + 1];
    }
    assert members[..|members|] == members;
    var keys := idToMembers.keys;
    RecordedKeys(members, idToMembers);
    collisions := [];
    NoneReported(members);
    for i := 0 to |keys|
      invariant Reports(members, keys[..i], collisions)
    {
      var paths := idToMembers.Get(keys[i], {});
      assert keys[..i + 1] == keys[..i] + [keys[i]];
      ReportsOneMore(members, keys[..i], keys[i], collisions,
        if |paths| > 1 then collisions + [Collision(keys[i], paths)] else collisions);
      if |paths| > 1 {
        collisions := collisions + [Collision(keys[i], paths)];
      }
    }
    assert keys[..|keys|] == keys;
    AllReported(members, keys, collisions);
  }

  lemma NoneReported(members: seq<Member>)
    ensures Reports(members, [], [])
  {
  }

  lemma RecordedKeys(members: seq<Member>, idToMembers: OrderedMaps.Map<string, set<string>>)
    requires Recorded(members, idToMembers)
    ensures Strings.Distinct(idToMembers.keys)
    ensures forall id :: idToMembers.Get(id, {}) == Paths(members, id)
    ensures forall id :: |Paths(members, id)| > 1 ==> id in idToMembers.keys
  {
    hide Paths;
    forall id | |Paths(members, id)| > 1 ensures id in idToMembers.keys {
      assert idToMembers.Get(id, {}) == Paths(members, id);
    }
  }

  lemma AllReported(members: seq<Member>, ids: seq<string>, collisions: seq<Collision>)
    requires Reports(members, ids, collisions) && forall id :: |Paths(members, id)| > 1 ==> id in ids
    ensures CollisionsOf(members, collisions)
  {
    hide Paths;
  }

  /** The guard drops a line of that id. */
  ghost predicate Drops(members: seq<Member>, id: string)
  {
    exists m, line :: m in members && line in m.nodes && Given(line.id) == Some(id) &&
      Owner(members, id) != Some(m.path)
  }

  /** A code graph has the id, and another file declares it too. */
  ghost predicate CodeClash(members: seq<Member>, id: string)
  {
    exists m, n :: m in members && n in members && DeclaresIn(m.code, id) && DeclaresIn(Lines(n), id) &&
      m.path != n.path
  }

  lemma DeclaresEither(m: Member, id: string)
    ensures DeclaresIn(Lines(m), id) <==> DeclaresIn(m.nodes, id) || DeclaresIn(m.code, id)
  {
    var n := |m.nodes|;
    if k :| 0 <= k < |Lines(m)| && Given(Lines(m)[k].id) == Some(id) {
      if k >= n { assert Given(m.code[k - n].id) == Some(id); }
    }
    if k :| 0 <= k < n && Given(m.nodes[k].id) == Some(id) { assert Given(Lines(m)[k].id) == Some(id); }
    if k :| 0 <= k < |m.code| && Given(m.code[k].id) == Some(id) { assert Given(Lines(m)[n + k].id) == Some(id); }
  }

  lemma TwoPaths(members: seq<Member>, id: string, m: Member, n: Member)
    requires m in members && n in members && m.path != n.path
    requires DeclaresIn(Lines(m), id) && DeclaresIn(Lines(n), id)
    ensures |Paths(members, id)| > 1
  {
    PathsAre(members, id);
    hide Paths, DeclaresIn;
    assert {m.path, n.path} <= Paths(members, id);
    SmallerSet({m.path, n.path}, Paths(members, id));
  }

  lemma DropMeansTwo(members: seq<Member>, id: string)
    requires Drops(members, id)
    ensures |Paths(members, id)| > 1
  {
    var m, line :| m in members && line in m.nodes && Given(line.id) == Some(id) && Owner(members, id) != Some(m.path);
    var k :| 0 <= k < |m.nodes| && m.nodes[k] == line;
    assert DeclaresIn(m.nodes, id);
    var i :| 0 <= i < |members| && members[i] == m;
    var d := members[Declarer(members, id)];
    assert d in members;
    DeclaresEither(m, id);
    DeclaresEither(d, id);
    TwoPaths(members, id, m, d);
  }

  lemma TwoMeansEither(members: seq<Member>, id: string)
    requires |Paths(members, id)| > 1
    ensures Drops(members, id) || CodeClash(members, id)
  {
    PathsAre(members, id);
    var paths := Paths(members, id);
    hide Paths, Lines, DeclaresIn;
    var d := Declarer(members, id);
    var first := if d < |members| then members[d].path else "";
    AnotherOne(paths, first);
    var p :| p in paths && p != first;
    var m :| m in members && DeclaresIn(Lines(m), id) && m.path == p;
    DeclaresEither(m, id);
    if DeclaresIn(m.nodes, id) {
      DropsOne(members, id, m);
    } else {
      AnotherOne(paths, p);
      var q :| q in paths && q != p;
      var n :| n in members && DeclaresIn(Lines(n), id) && n.path == q;
      assert CodeClash(members, id);
    }
  }

  lemma DropsOne(members: seq<Member>, id: string, m: Member)
    requires m in members && DeclaresIn(m.nodes, id) && Owner(members, id) != Some(m.path)
    ensures Drops(members, id)
  {
    var k :| 0 <= k < |m.nodes| && Given(m.nodes[k].id) == Some(id);
    assert m.nodes[k] in m.nodes;
  }

  /** An id is reported exactly when the guard drops a line of it or a code graph shares it with
      another file. */
  lemma ReportedExactlyWhenDropped(members: seq<Member>, id: string)
    ensures |Paths(members, id)| > 1 <==> Drops(members, id) || CodeClash(members, id)
  {
    hide Paths, Drops, DeclaresIn, Lines;
    if Drops(members, id) { DropMeansTwo(members, id); }
    if CodeClash(members, id) {
      var m, n :| m in members && n in members && DeclaresIn(m.code, id) && DeclaresIn(Lines(n), id) &&
        m.path != n.path;
      DeclaresEither(m, id);
      TwoPaths(members, id, m, n);
    }
    if |Paths(members, id)| > 1 { TwoMeansEither(members, id); }
  }

  lemma AnotherOne(s: set<string>, x: string)
    requires |s| > 1
    ensures exists y :: y in s && y != x
  {
    assert |{x}| == 1;
    if !exists y :: y in s && y != x { SmallerSet(s, {x}); }
  }

  lemma SmallerSet(a: set<string>, b: set<string>)
    requires a <= b
    ensures |a| <= |b|
  {
    assert b == a + (b - a);
  }

  // ---- Member order -----------------------------------------------------------------------------------------

  predicate HasCopy(m: Member, allowed: set<string>, id: string)
  {
    Find(Importables(m.nodes, allowed), id).Some?
  }

  /** The members that declare an id agree whether it can be imported. */
  ghost predicate AgreedOn(members: seq<Member>, allowed: set<string>, id: string)
  {
    forall m, n :: m in members && n in members && DeclaresIn(m.nodes, id) && DeclaresIn(n.nodes, id) ==>
      (HasCopy(m, allowed, id) <==> HasCopy(n, allowed, id))
  }

  /** They agree on every id that the store does not have. */
  ghost predicate Agreed(before: map<string, Input>, members: seq<Member>, allowed: set<string>)
  {
    forall id :: id !in before ==> AgreedOn(members, allowed, id)
  }

  lemma CopyIsDeclared(m: Member, allowed: set<string>, id: string)
    requires HasCopy(m, allowed, id)
    ensures DeclaresIn(m.nodes, id)
  {
    var line := Find(Importables(m.nodes, allowed), id).value;
    var k :| 0 <= k < |m.nodes| && m.nodes[k] == line;
  }

  /** When they agree, an id is there in the end if it was, or some member has a copy of it. */
  lemma PresentWhen(before: map<string, Input>, members: seq<Member>, allowed: set<string>, id: string)
    requires id in before || AgreedOn(members, allowed, id)
    ensures FinalCopy(before, members, allowed, id).Some? <==>
      id in before || exists m :: m in members && HasCopy(m, allowed, id)
  {
    hide Find, Importables;
    var d := Declarer(members, id);
    if m :| id !in before && m in members && HasCopy(m, allowed, id) {
      CopyIsDeclared(m, allowed, id);
      var j :| 0 <= j < |members| && members[j] == m;
      assert d < |members| && members[d] in members;
      assert HasCopy(members[d], allowed, id);
    }
    if d < |members| {
      assert members[d] in members;
    }
  }

  lemma {:induction false} AllEdgesAre(members: seq<Member>, x: EdgeRecord)
    ensures x in AllEdges(members) <==> exists m :: m in members && x in m.edges
  {
    if members != [] {
      var n := |members| - 1;
      AllEdgesAre(members[..n], x);
      assert members == members[..n] + [members[n]];
      if m :| m in members && x in m.edges { assert m in members[..n] || m == members[n]; }
      if x in AllEdges(members[..n]) { var m :| m in members[..n] && x in m.edges; assert m in members; }
      if x in members[n].edges { assert members[n] in members; }
    }
  }

  /** Loaded in any order, a group leaves the same ids and persists the same edges. */
  lemma MemberOrderDoesNotMatter(before: map<string, Input>, members: seq<Member>, members': seq<Member>,
                                 allowed: set<string>,
                                 ids: set<string>, ids': set<string>)
    requires (forall m :: m in members <==> m in members') && Agreed(before, members, allowed)
    requires forall id :: id in ids <==> FinalCopy(before, members, allowed, id).Some?
    requires forall id :: id in ids' <==> FinalCopy(before, members', allowed, id).Some?
    ensures ids == ids'
    ensures forall e :: e in EdgesWhere(AllEdges(members), ids, true) <==>
      e in EdgesWhere(AllEdges(members'), ids', true)
  {
    forall id ensures id in ids <==> id in ids' {
      SameIds(before, members, members', allowed, id);
    }
    forall x ensures x in AllEdges(members) <==> x in AllEdges(members') {
      AllEdgesAre(members, x);
      AllEdgesAre(members', x);
    }
    hide Agreed, FinalCopy, AllEdges, EdgesWhere, Joins, EdgeOf;
    forall e
      ensures e in EdgesWhere(AllEdges(members), ids, true) <==> e in EdgesWhere(AllEdges(members'), ids', true)
    {
      EdgesWhereIs(AllEdges(members), ids, true, e);
      EdgesWhereIs(AllEdges(members'), ids', true, e);
    }
  }

  /** Two lists of the same members leave an id alike, when its declarers agree or the store has it. */
  lemma SameIds(
    before: map<string, Input>, members: seq<Member>, members': seq<Member>, allowed: set<string>, id: string)
    requires (forall m :: m in members <==> m in members') && (id in before || AgreedOn(members, allowed, id))
    ensures FinalCopy(before, members, allowed, id).Some? <==> FinalCopy(before, members', allowed, id).Some?
  {
    hide HasCopy, DeclaresIn, FinalCopy;
    assert AgreedOn(members, allowed, id) ==> AgreedOn(members', allowed, id);
    PresentWhen(before, members, allowed, id);
    PresentWhen(before, members', allowed, id);
  }

  /** Members whose lines are all importable agree. */
  lemma WellFormedAgree(before: map<string, Input>, members: seq<Member>, allowed: set<string>)
    requires forall m, x :: m in members && x in m.nodes ==> Importable(x, allowed)
    ensures Agreed(before, members, allowed)
  {
    forall m, id | m in members && DeclaresIn(m.nodes, id) ensures HasCopy(m, allowed, id) {
      var k :| 0 <= k < |m.nodes| && Given(m.nodes[k].id) == Some(id);
      assert m.nodes[k] in Importables(m.nodes, allowed);
    }
  }

  /** Every load order leaves the ids that this one leaves. */
  ghost predicate OrderFree(before: map<string, Input>, members: seq<Member>, allowed: set<string>)
  {
    forall ms, id :: multiset(ms) == multiset(members) ==>
      (FinalCopy(before, ms, allowed, id).Some? <==> FinalCopy(before, members, allowed, id).Some?)
  }

  /** A declarer in front decides: an id the store did not have is there in the end exactly
      when that member has a copy of it. */
  lemma FrontDecides(before: map<string, Input>, m: Member, rest: seq<Member>, allowed: set<string>, id: string)
    requires DeclaresIn(m.nodes, id) && id !in before
    ensures FinalCopy(before, [m] + rest, allowed, id).Some? <==> HasCopy(m, allowed, id)
  {
    hide Find, Importables;
    assert ([m] + rest)[0] == m;
    assert Declarer([m] + rest, id) == 0;
  }

  lemma ToFront(members: seq<Member>, m: Member) returns (rest: seq<Member>)
    requires m in members
    ensures multiset([m] + rest) == multiset(members)
  {
    var i :| 0 <= i < |members| && members[i] == m;
    rest := members[..i] + members[i + 1..];
    assert members == members[..i] + [m] + members[i + 1..];
  }

  /** The ownership guard runs before the type filter, so an order can lose an id: every
      order leaves the same ids if and only if the declarers of each id the store did not
      have agree whether it can be imported. */
  lemma OrderFreeExactlyWhen(before: map<string, Input>, members: seq<Member>, allowed: set<string>)
    ensures OrderFree(before, members, allowed) <==> Agreed(before, members, allowed)
  {
    hide FinalCopy, HasCopy, DeclaresIn;
    if Agreed(before, members, allowed) {
      forall ms, id | multiset(ms) == multiset(members)
        ensures FinalCopy(before, ms, allowed, id).Some? <==> FinalCopy(before, members, allowed, id).Some?
      {
        Strings.SameElements(ms, members);
        SameIds(before, members, ms, allowed, id);
      }
    }
    if OrderFree(before, members, allowed) {
      forall m, n, id | id !in before && m in members && n in members && DeclaresIn(m.nodes, id) &&
        DeclaresIn(n.nodes, id)
        ensures HasCopy(m, allowed, id) <==> HasCopy(n, allowed, id)
      {
        var a := ToFront(members, m);
        var b := ToFront(members, n);
        FrontDecides(before, m, a, allowed, id);
        FrontDecides(before, n, b, allowed, id);
      }
    }
  }

  /** So for two members: both orders leave the same ids exactly when the two agree. */
  lemma TwoOrders(before: map<string, Input>, a: Member, b: Member, allowed: set<string>)
    ensures (forall id :: FinalCopy(before, [a, b], allowed, id).Some? <==>
      FinalCopy(before, [b, a], allowed, id).Some?) <==>
            Agreed(before, [a, b], allowed)
  {
    hide FinalCopy, HasCopy, DeclaresIn;
    OrderFreeExactlyWhen(before, [a, b], allowed);
    assert multiset([b, a]) == multiset([a, b]);
    if forall id :: FinalCopy(before, [a, b], allowed, id).Some? <==> FinalCopy(before, [b, a], allowed, id).Some? {
      forall id | id !in before && DeclaresIn(a.nodes, id) && DeclaresIn(b.nodes, id)
        ensures HasCopy(a, allowed, id) <==> HasCopy(b, allowed, id)
      {
        FrontDecides(before, a, [b], allowed, id);
        FrontDecides(before, b, [a], allowed, id);
        assert [a] + [b] == [a, b] && [b] + [a] == [b, a];
      }
    }
  }

  /** An order that keeps an id and one that loses it: the same id with a type that is not
      imported in one member, and with one that is in the other. */
  lemma LostInOneOrder(allowed: set<string>)
    requires "decision" in allowed && "note" !in allowed
    ensures var x, y := NodeLine(Some("x"), Some("note"), "", false), NodeLine(Some("x"), Some("decision"), "", false);
      var a, b := Member("a", "a", None, [x], [], []), Member("b", "b", None, [y], [], []);
      && FinalCopy(map[], [a, b], allowed, "x") == None
      && FinalCopy(map[], [b, a], allowed, "x") == Some(Input("x", "decision", "", "b"))
  {
    var x, y := NodeLine(Some("x"), Some("note"), "", false), NodeLine(Some("x"), Some("decision"), "", false);
    var a, b := Member("a", "a", None, [x], [], []), Member("b", "b", None, [y], [], []);
    assert Given(a.nodes[0].id) == Some("x") && Given(b.nodes[0].id) == Some("x");
    assert DeclaresIn(a.nodes, "x") && DeclaresIn(b.nodes, "x");
    assert [x][..0] == [] && [y][..0] == [];
  }
}
