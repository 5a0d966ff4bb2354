/** Resumed index runs as a state machine: edits, parses, stats, flushes, checkpoints and
    crashes in any order. A checkpoint entry must mean that the store has the nodes. */
module ResumeSafety {
  import opened Options
  import opened Stores
  import opened BatchWriters
  import opened IndexCore
  import opened Checkpoints
  import opened BatchMeaning
  import opened Strings

  datatype File = File(content: string, stamp: Stamp)

  /** A content a file had, and the fingerprint it had with it. */
  datatype Seen = Seen(path: string, stamp: Stamp, content: string)

  /** A parsed file: the content that was read, and the stat taken after it. */
  datatype Parsed = Parsed(content: string, stamp: Option<Stamp>)

  /** The memory of one index run, lost in a crash: the entries of its checkpoint, what it
      parsed, the nodes it built of that, and the state of its writer. */
  datatype Run = Run(workspace: string, entries: map<string, Stamp>, parsed: map<string, Parsed>,
                     built: map<string, seq<Node>>,
                     files: seq<PendingFile>, nodes: seq<Node>, edges: seq<Edge>, landed: seq<string>)

  /** `seen` and `acked` are history: every file version there was, every node the store
      ever accepted, with its workspace. */
  datatype State = State(disk: map<string, File>, saved: Saved, run: Option<Run>,
                         seen: set<Seen>, acked: set<(string, Node)>)

  datatype Step =
    | Edit(path: string, content: string, stamp: Stamp)
    | Remove(path: string)
    | Begin(workspace: string)
    | ParseFile(path: string)
    | StatFile(path: string)
    | Build(path: string)
    | QueueAux(name: string, nodes: seq<Node>, edges: seq<Edge>)
    | QueueFile(path: string, edges: seq<Edge>)
    | Flush(nodeRows: seq<Row>, edgeRows: seq<Row>)
    | Save
    | Crash

  /** The nodes made of a path, the content that was parsed, and the text of the file as it
      is read again when its nodes are built: the context cards come from that second read. */
  type Builder = (string, string, string) -> seq<Node>

  ghost predicate NamesNodes(build: Builder)
  {
    forall p, c, text, n :: n in build(p, c, text) ==> n.id != ""
  }

  /** What the second read finds; a file that cannot be read gives no text. */
  function TextAt(disk: map<string, File>, p: string): string
  {
    if p in disk then disk[p].content else ""
  }

  /** The nodes of one version of a file, as the edge pass sends them. */
  function VersionNodes(build: Builder, p: string, c: string): seq<Node>
  {
    NoEmbed(build(p, c, c))
  }

  predicate Enabled(s: State, step: Step)
  {
    match step
    case Edit(_, _, _) => true
    case Remove(_) => true
    case Begin(_) => s.run.None?
    case ParseFile(p) => s.run.Some? && p in s.disk && p !in s.run.value.parsed
    case StatFile(p) => s.run.Some? && p in s.run.value.parsed && s.run.value.parsed[p].stamp.None?
    case Build(p) => s.run.Some? && p in s.run.value.parsed && p !in s.run.value.built
    case QueueAux(_, _, _) => s.run.Some?
    case QueueFile(p, _) => s.run.Some? && p in s.run.value.built
    case Flush(nodeRows, edgeRows) =>
      s.run.Some? && s.run.value.landed == []
      && |nodeRows| == |s.run.value.nodes| && |edgeRows| == |s.run.value.edges|
      && forall i :: 0 <= i < |nodeRows| && nodeRows[i].Refused? ==> nodeRows[i].id == Some(s.run.value.nodes[i].id)
    case Save => s.run.Some? && s.run.value.landed != []
    case Crash => true
  }

  function Stamps(disk: map<string, File>): map<string, Stamp>
  {
    map p | p in disk :: disk[p].stamp
  }

  function StatAtParse(parsed: map<string, Parsed>): map<string, Stamp>
  {
    map p | p in parsed && parsed[p].stamp.Some? :: parsed[p].stamp.value
  }

  function Accepted(workspace: string, nodes: seq<Node>, rows: seq<Row>): set<(string, Node)>
    requires |rows| == |nodes|
  {
    set i | 0 <= i < |nodes| && rows[i].Stored? :: (workspace, nodes[i])
  }

  function LandedOf(r: Run, nodeRows: seq<Row>, edgeRows: seq<Row>): seq<string>
    requires |edgeRows| == |r.edges|
  {
    LandedFiles(r.files, FailedNodes(nodeRows), Blamed(EdgeErrors(r.files, r.edges, edgeRows)))
  }

  function After(build: Builder, s: State, step: Step): State
    requires Enabled(s, step)
  {
    match step
    case Edit(p, c, stamp) => s.(disk := s.disk[p := File(c, stamp)], seen := s.seen + {Seen(p, stamp, c)})
    case Remove(p) => s.(disk := s.disk - {p})
    case Begin(w) => s.(run := Some(Run(w, Usable(s.saved, Some(w)), map[], map[], [], [], [], [])))
    case ParseFile(p) =>
      var r := s.run.value;
      s.(run := Some(r.(parsed := r.parsed[p := Parsed(s.disk[p].content, None)])))
    case StatFile(p) =>
      var r := s.run.value;
      s.(run := Some(r.(parsed := r.parsed[p := r.parsed[p].(stamp := Lookup(Stamps(s.disk), p))])))
    case Build(p) =>
      var r := s.run.value;
      s.(run := Some(r.(built := r.built[p := build(p, r.parsed[p].content, TextAt(s.disk, p))])))
    case QueueAux(name, nodes, edges) =>
      var r := s.run.value;
      s.(run := Some(r.(files := r.files + [PendingFile(name, [], true)], nodes := r.nodes + nodes,
        edges := r.edges + edges)))
    case QueueFile(p, edges) =>
      var r := s.run.value;
      var nodes := NoEmbed(r.built[p]);
      s.(run := Some(r.(files := r.files + [PendingFile(p, Ids(nodes), false)], nodes := r.nodes + nodes,
        edges := r.edges + edges)))
    case Flush(nodeRows, edgeRows) =>
      var r := s.run.value;
      s.(acked := s.acked + Accepted(r.workspace, r.nodes, nodeRows),
         run := Some(r.(files := [], nodes := [], edges := [], landed := LandedOf(r, nodeRows, edgeRows))))
    case Save =>
      var r := s.run.value;
      var entries := Pruned(MarkedAll(r.entries, r.landed, StatAtParse(r.parsed), Stamps(s.disk)), r.parsed.Keys);
      s.(saved := Saved(1, Some(r.workspace), Some(entries)), run := Some(r.(entries := entries, landed := [])))
    case Crash => s.(run := None)
  }

  /** No edit came between a parse and what is to stand for it: at the stat, at the second
      read, and at the mark of a file whose stat failed, the file still holds what was parsed. */
  predicate Quiet(s: State, step: Step)
    requires Enabled(s, step)
  {
    match step
    case StatFile(p) => p in s.disk ==> s.disk[p].content == s.run.value.parsed[p].content
    case Build(p) => TextAt(s.disk, p) == s.run.value.parsed[p].content
    case Save =>
      var r := s.run.value;
      forall p :: p in r.landed && p in r.parsed && r.parsed[p].stamp.None? && p in s.disk ==>
        s.disk[p].content == r.parsed[p].content
    case _ => true
  }

  // ---- The invariant ----------------------------------------------------------------------

  ghost predicate NodesAcked(build: Builder, acked: set<(string, Node)>, workspace: string, p: string, c: string)
  {
    forall n :: n in VersionNodes(build, p, c) ==> (workspace, n) in acked
  }

  /** The store accepted every node of a version the file had at that fingerprint. */
  ghost predicate EntryOk(
    build: Builder, seen: set<Seen>, acked: set<(string, Node)>, workspace: string, p: string, stamp: Stamp)
  {
    exists c :: Seen(p, stamp, c) in seen && NodesAcked(build, acked, workspace, p, c)
  }

  ghost predicate EntriesOk(
    build: Builder, seen: set<Seen>, acked: set<(string, Node)>, workspace: string, entries: map<string, Stamp>)
  {
    forall p :: p in entries ==> EntryOk(build, seen, acked, workspace, p, entries[p])
  }

  /** Every checkpoint entry on disk is backed by the store. */
  ghost predicate Safe(build: Builder, s: State)
  {
    s.saved.files.Some? ==>
      s.saved.workspace.Some? && EntriesOk(build, s.seen, s.acked, s.saved.workspace.value, s.saved.files.value)
  }

  ghost predicate DiskSeen(disk: map<string, File>, seen: set<Seen>)
  {
    forall p :: p in disk ==> Seen(p, disk[p].stamp, disk[p].content) in seen
  }

  ghost predicate ParsedSeen(parsed: map<string, Parsed>, seen: set<Seen>)
  {
    forall p :: p in parsed && parsed[p].stamp.Some? ==> Seen(p, parsed[p].stamp.value, parsed[p].content) in seen
  }

  ghost predicate BuiltOk(build: Builder, parsed: map<string, Parsed>, built: map<string, seq<Node>>)
  {
    forall p :: p in built ==> p in parsed && built[p] == build(p, parsed[p].content, parsed[p].content)
  }

  ghost predicate Queued(build: Builder, parsed: map<string, Parsed>, nodes: seq<Node>, f: PendingFile)
  {
    f.aux || (f.absPath in parsed &&
              var own := VersionNodes(build, f.absPath, parsed[f.absPath].content);
              f.nodeIds == Ids(own) && forall n :: n in own ==> n in nodes)
  }

  ghost predicate FilesQueued(build: Builder, parsed: map<string, Parsed>, nodes: seq<Node>, files: seq<PendingFile>)
  {
    forall f :: f in files ==> Queued(build, parsed, nodes, f)
  }

  ghost predicate LandedAcked(
    build: Builder, acked: set<(string, Node)>, workspace: string, parsed: map<string, Parsed>, landed: seq<string>)
  {
    forall p :: p in landed ==> p in parsed && NodesAcked(build, acked, workspace, p, parsed[p].content)
  }

  ghost predicate RunOk(build: Builder, seen: set<Seen>, acked: set<(string, Node)>, r: Run)
  {
    && EntriesOk(build, seen, acked, r.workspace, r.entries)
    && ParsedSeen(r.parsed, seen)
    && BuiltOk(build, r.parsed, r.built)
    && FilesQueued(build, r.parsed, r.nodes, r.files)
    && LandedAcked(build, acked, r.workspace, r.parsed, r.landed)
  }

  ghost predicate Inv(build: Builder, s: State)
  {
    Safe(build, s) && DiskSeen(s.disk, s.seen) && (s.run.Some? ==> RunOk(build, s.seen, s.acked, s.run.value))
  }

  predicate Init(s: State)
  {
    s.disk == map[] && s.saved.files.None? && s.run.None?
  }

  // ---- Each step keeps it --------------------------------------------------------------------

  lemma {:induction false} EntriesGrow(build: Builder, seen: set<Seen>, acked: set<(string, Node)>, seen': set<Seen>,
                                       acked': set<(string, Node)>,
                    workspace: string, entries: map<string, Stamp>)
    requires EntriesOk(build, seen, acked, workspace, entries) && seen <= seen' && acked <= acked'
    ensures EntriesOk(build, seen', acked', workspace, entries)
  {
    forall p | p in entries ensures EntryOk(build, seen', acked', workspace, p, entries[p]) {
      var c :| Seen(p, entries[p], c) in seen && NodesAcked(build, acked, workspace, p, c);
      assert Seen(p, entries[p], c) in seen' && NodesAcked(build, acked', workspace, p, c);
    }
  }

  lemma {:induction false} HistoryGrows(build: Builder, s: State, seen': set<Seen>, acked': set<(string, Node)>)
    requires Safe(build, s) && s.seen <= seen' && s.acked <= acked'
    ensures Safe(build, s.(seen := seen', acked := acked'))
  {
    hide EntriesOk;
    if s.saved.files.Some? {
      EntriesGrow(build, s.seen, s.acked, seen', acked', s.saved.workspace.value, s.saved.files.value);
    }
  }

  lemma {:induction false} RunGrows(
    build: Builder, seen: set<Seen>, acked: set<(string, Node)>, seen': set<Seen>, acked': set<(string, Node)>, r: Run)
    requires RunOk(build, seen, acked, r) && seen <= seen' && acked <= acked'
    ensures RunOk(build, seen', acked', r)
  {
    EntriesGrow(build, seen, acked, seen', acked', r.workspace, r.entries);
    hide EntriesOk, FilesQueued;
  }

  lemma {:induction false} EditKeeps(build: Builder, s: State, p: string, c: string, stamp: Stamp)
    requires Inv(build, s)
    ensures Inv(build, After(build, s, Edit(p, c, stamp)))
  {
    hide EntriesOk, RunOk;
    var s' := After(build, s, Edit(p, c, stamp));
    HistoryGrows(build, s, s'.seen, s.acked);
    if s.run.Some? { RunGrows(build, s.seen, s.acked, s'.seen, s.acked, s.run.value); }
  }

  lemma {:induction false} BeginKeeps(build: Builder, s: State, w: string)
    requires Inv(build, s) && s.run.None?
    ensures Inv(build, After(build, s, Begin(w)))
  {
    hide EntryOk;
  }

  lemma {:induction false} FilesQueuedMore(build: Builder, parsed: map<string, Parsed>, parsed': map<string, Parsed>,
                                           nodes: seq<Node>, more: seq<Node>, files: seq<PendingFile>)
    requires FilesQueued(build, parsed, nodes, files)
    requires forall p :: p in parsed ==> p in parsed' && parsed'[p].content == parsed[p].content
    ensures FilesQueued(build, parsed', nodes + more, files)
  {
    forall f | f in files ensures Queued(build, parsed', nodes + more, f) {
      assert Queued(build, parsed, nodes, f);
    }
  }

  lemma {:induction false} ParseKeeps(build: Builder, s: State, p: string)
    requires Inv(build, s) && Enabled(s, ParseFile(p))
    ensures Inv(build, After(build, s, ParseFile(p)))
  {
    var r, r' := s.run.value, After(build, s, ParseFile(p)).run.value;
    FilesQueuedMore(build, r.parsed, r'.parsed, r.nodes, [], r.files);
    assert r.nodes + [] == r.nodes;
    hide EntriesOk, FilesQueued, NodesAcked;
  }

  lemma {:induction false} StatKeeps(build: Builder, s: State, p: string)
    requires Inv(build, s) && Enabled(s, StatFile(p)) && Quiet(s, StatFile(p))
    ensures Inv(build, After(build, s, StatFile(p)))
  {
    var r, r' := s.run.value, After(build, s, StatFile(p)).run.value;
    FilesQueuedMore(build, r.parsed, r'.parsed, r.nodes, [], r.files);
    assert r.nodes + [] == r.nodes;
    hide EntriesOk, FilesQueued, NodesAcked;
  }

  lemma {:induction false} BuildKeeps(build: Builder, s: State, p: string)
    requires Inv(build, s) && Enabled(s, Build(p)) && Quiet(s, Build(p))
    ensures Inv(build, After(build, s, Build(p)))
  {
    hide EntriesOk, FilesQueued, NodesAcked, ParsedSeen, LandedAcked;
  }

  lemma {:induction false} QueueAuxKeeps(build: Builder, s: State, name: string, nodes: seq<Node>, edges: seq<Edge>)
    requires Inv(build, s) && s.run.Some?
    ensures Inv(build, After(build, s, QueueAux(name, nodes, edges)))
  {
    hide EntriesOk, NodesAcked, ParsedSeen, LandedAcked, Queued, BuiltOk;
    var r := s.run.value;
    FilesQueuedMore(build, r.parsed, r.parsed, r.nodes, nodes, r.files);
    assert Queued(build, r.parsed, r.nodes + nodes, PendingFile(name, [], true)) by {
      AuxQueued(build, r.parsed, r.nodes + nodes, name);
    }
  }

  lemma {:induction false} AuxQueued(build: Builder, parsed: map<string, Parsed>, nodes: seq<Node>, name: string)
    ensures Queued(build, parsed, nodes, PendingFile(name, [], true))
  {
  }

  lemma {:induction false} QueueFileKeeps(build: Builder, s: State, p: string, edges: seq<Edge>)
    requires Inv(build, s) && Enabled(s, QueueFile(p, edges))
    ensures Inv(build, After(build, s, QueueFile(p, edges)))
  {
    hide EntriesOk, NodesAcked, ParsedSeen, LandedAcked;
    var r := s.run.value;
    var nodes := NoEmbed(r.built[p]);
    assert nodes == VersionNodes(build, p, r.parsed[p].content);
    FilesQueuedMore(build, r.parsed, r.parsed, r.nodes, nodes, r.files);
    assert Queued(build, r.parsed, r.nodes + nodes, PendingFile(p, Ids(nodes), false));
    hide Queued;
  }

  /** What lands was acknowledged: the rows of all its nodes were accepted. */
  lemma {:induction false} LandedWereAcked(build: Builder, r: Run, nodeRows: seq<Row>, edgeRows: seq<Row>, p: string)
    requires NamesNodes(build) && FilesQueued(build, r.parsed, r.nodes, r.files)
    requires RowsName(r.nodes, nodeRows) && |edgeRows| == |r.edges|
    requires p in LandedOf(r, nodeRows, edgeRows)
    ensures p in r.parsed && NodesAcked(build, Accepted(r.workspace, r.nodes, nodeRows), r.workspace, p,
      r.parsed[p].content)
  {
    var failed, blamed := FailedNodes(nodeRows), Blamed(EdgeErrors(r.files, r.edges, edgeRows));
    hide FailedNodes, EdgeErrors, Blamed, LandedFiles;
    LandedIs(r.files, failed, blamed, p);
    var f :| f in r.files && f.absPath == p && Lands(f, failed, blamed);
    assert Queued(build, r.parsed, r.nodes, f);
    var c := r.parsed[p].content;
    var own, raw := VersionNodes(build, p, c), build(p, c, c);
    forall id | id in f.nodeIds ensures id != "" {
      var i :| 0 <= i < |own| && own[i].id == id;
      assert raw[i].id == id && raw[i] in raw;
    }
    LandsExactlyWhen(r.nodes, nodeRows, f, blamed);
    forall n | n in own ensures (r.workspace, n) in Accepted(r.workspace, r.nodes, nodeRows) {
      var k :| 0 <= k < |own| && own[k] == n;
      assert f.nodeIds[k] == n.id && f.nodeIds[k] in f.nodeIds;
      assert Acknowledged(r.nodes, nodeRows, n.id);
      var i :| 0 <= i < |r.nodes| && r.nodes[i] == n;
      assert nodeRows[i].Stored?;
    }
  }

  lemma {:induction false} FlushKeeps(build: Builder, s: State, nodeRows: seq<Row>, edgeRows: seq<Row>)
    requires NamesNodes(build) && Inv(build, s) && Enabled(s, Flush(nodeRows, edgeRows))
    ensures Inv(build, After(build, s, Flush(nodeRows, edgeRows)))
  {
    var r, s' := s.run.value, After(build, s, Flush(nodeRows, edgeRows));
    hide EntriesOk, Accepted, LandedOf, DiskSeen, NamesNodes;
    HistoryGrows(build, s, s.seen, s'.acked);
    RunGrows(build, s.seen, s.acked, s.seen, s'.acked, r);
    forall p | p in LandedOf(r, nodeRows, edgeRows)
      ensures p in r.parsed && NodesAcked(build, s'.acked, r.workspace, p, r.parsed[p].content)
    {
      LandedWereAcked(build, r, nodeRows, edgeRows, p);
    }
  }

  lemma {:induction false} SaveKeeps(build: Builder, s: State)
    requires Inv(build, s) && Enabled(s, Save) && Quiet(s, Save)
    ensures Inv(build, After(build, s, Save))
  {
    var r, s' := s.run.value, After(build, s, Save);
    var known, disk := StatAtParse(r.parsed), Stamps(s.disk);
    var entries := s'.run.value.entries;
    forall p | p in entries ensures EntryOk(build, s.seen, s.acked, r.workspace, p, entries[p]) {
      MarkedAllAt(r.entries, r.landed, known, disk, p);
      if p in r.landed && Recorded(Lookup(known, p), Lookup(disk, p)).Some? {
        MarkedEntryOk(build, s, p);
      } else {
        assert p in r.entries;
      }
    }
    hide EntryOk, NodesAcked, MarkedAll;
  }

  /** The fingerprint recorded for a landed file is one it had with the content parsed. */
  lemma {:induction false} MarkedEntryOk(build: Builder, s: State, p: string)
    requires Inv(build, s) && Enabled(s, Save) && Quiet(s, Save) && p in s.run.value.landed
    requires Recorded(Lookup(StatAtParse(s.run.value.parsed), p), Lookup(Stamps(s.disk), p)).Some?
    ensures EntryOk(build, s.seen, s.acked, s.run.value.workspace, p,
                    Recorded(Lookup(StatAtParse(s.run.value.parsed), p), Lookup(Stamps(s.disk), p)).value)
  {
    hide EntriesOk, FilesQueued, NodesAcked;
    var r := s.run.value;
    assert p in r.parsed;
    var stamp := Recorded(Lookup(StatAtParse(r.parsed), p), Lookup(Stamps(s.disk), p)).value;
    assert Seen(p, stamp, r.parsed[p].content) in s.seen;
  }

  lemma {:induction false} StepKeeps(build: Builder, s: State, step: Step)
    requires NamesNodes(build) && Inv(build, s) && Enabled(s, step) && Quiet(s, step)
    ensures Inv(build, After(build, s, step))
  {
    match step
    case Edit(p, c, stamp) => EditKeeps(build, s, p, c, stamp);
    case Remove(p) =>
    case Begin(w) => BeginKeeps(build, s, w);
    case ParseFile(p) => ParseKeeps(build, s, p);
    case StatFile(p) => StatKeeps(build, s, p);
    case Build(p) => BuildKeeps(build, s, p);
    case QueueAux(name, nodes, edges) => QueueAuxKeeps(build, s, name, nodes, edges);
    case QueueFile(p, edges) => QueueFileKeeps(build, s, p, edges);
    case Flush(nodeRows, edgeRows) => FlushKeeps(build, s, nodeRows, edgeRows);
    case Save => SaveKeeps(build, s);
    case Crash =>
  }

  // ---- Every run ---------------------------------------------------------------------------------

  predicate Possible(build: Builder, s: State, steps: seq<Step>)
    decreases |steps|
  {
    steps == [] || (Enabled(s, steps[0]) && Possible(build, After(build, s, steps[0]), steps[1..]))
  }

  predicate AllQuiet(build: Builder, s: State, steps: seq<Step>)
    requires Possible(build, s, steps)
    decreases |steps|
  {
    steps == [] || (Quiet(s, steps[0]) && AllQuiet(build, After(build, s, steps[0]), steps[1..]))
  }

  function Final(build: Builder, s: State, steps: seq<Step>): State
    requires Possible(build, s, steps)
    decreases |steps|
  {
    if steps == [] then s else Final(build, After(build, s, steps[0]), steps[1..])
  }

  lemma {:induction false} EveryRunKeeps(build: Builder, s: State, steps: seq<Step>)
    requires NamesNodes(build) && Inv(build, s) && Possible(build, s, steps) && AllQuiet(build, s, steps)
    ensures Inv(build, Final(build, s, steps))
    decreases |steps|
  {
    hide NamesNodes, Inv, After, Quiet, Enabled;
    if steps != [] {
      StepKeeps(build, s, steps[0]);
      EveryRunKeeps(build, After(build, s, steps[0]), steps[1..]);
    }
  }

  /** Over every run of edits, resumed runs, refused rows and crashes, a checkpoint entry
      means the store accepted every node of a version parsed at that fingerprint. */
  lemma {:induction false} EveryRunIsSafe(build: Builder, s: State, steps: seq<Step>)
    requires NamesNodes(build) && Init(s) && Possible(build, s, steps) && AllQuiet(build, s, steps)
    ensures Safe(build, Final(build, s, steps))
  {
    EveryRunKeeps(build, s, steps);
  }

  /** A fingerprint tells the contents of a path apart. */
  ghost predicate Telling(seen: set<Seen>)
  {
    forall a, b :: a in seen && b in seen && a.path == b.path && a.stamp == b.stamp ==> a.content == b.content
  }

  /** What a later run skips is up to date: the store accepted every node of its content. */
  lemma {:induction false} SkippedIsCurrent(build: Builder, s: State, workspace: string, p: string)
    requires Inv(build, s) && Telling(s.seen) && p in s.disk
    requires Lookup(Usable(s.saved, Some(workspace)), p) == Some(s.disk[p].stamp)
    ensures NodesAcked(build, s.acked, workspace, p, s.disk[p].content)
  {
    hide NodesAcked;
    var c :| Seen(p, s.disk[p].stamp, c) in s.seen && NodesAcked(build, s.acked, workspace, p, c);
    assert Seen(p, s.disk[p].stamp, s.disk[p].content) in s.seen;
  }

  // ---- One step, exactly -----------------------------------------------------------------------

  /** The fingerprint taken for a parsed file is one it had with the content parsed if and
      only if no edit came in between. */
  lemma {:induction false} StatExactly(build: Builder, s: State, p: string)
    requires Enabled(s, StatFile(p)) && DiskSeen(s.disk, s.seen) && Telling(s.seen) && p in s.disk
    ensures var r := After(build, s, StatFile(p)).run.value;
      && r.parsed[p].stamp.Some?
      && (Seen(p, r.parsed[p].stamp.value, r.parsed[p].content) in s.seen <==> Quiet(s, StatFile(p)))
  {
    assert Seen(p, s.disk[p].stamp, s.disk[p].content) in s.seen;
  }

  /** A flush acknowledges exactly the nodes whose rows were accepted, in the run's workspace, and
      lands exactly the files that may land. */
  lemma {:induction false} FlushExactly(build: Builder, s: State, nodeRows: seq<Row>, edgeRows: seq<Row>)
    requires Enabled(s, Flush(nodeRows, edgeRows))
    ensures var r, s' := s.run.value, After(build, s, Flush(nodeRows, edgeRows));
      && (forall w, n ::
            (w, n) in s'.acked <==>
            || (w, n) in s.acked
            || (w == r.workspace && exists i :: 0 <= i < |r.nodes| && r.nodes[i] == n && nodeRows[i].Stored?))
      && s'.run.Some? && s'.run.value.files == [] && s'.run.value.nodes == [] && s'.run.value.edges == []
      && Picks(r.files, f => MayLand(f, r.files, nodeRows, r.edges, edgeRows), PathOf, s'.run.value.landed)
      && s'.disk == s.disk && s'.saved == s.saved && s'.seen == s.seen
  {
    hide Picks, FailedNodes, EdgeErrors, Blamed, LandedFiles, MayLand;
    var r := s.run.value;
    LandedExactly(r.files, nodeRows, r.edges, edgeRows);
  }

  /** A save writes the run's workspace and the entries of live files, the landed ones marked; the
      run goes on with them. */
  lemma {:induction false} SaveExactly(build: Builder, s: State)
    requires Enabled(s, Save)
    ensures var r, s' := s.run.value, After(build, s, Save);
      && s'.saved.version == 1 && s'.saved.workspace == Some(r.workspace) && s'.saved.files.Some?
      && Landed(r.entries, s'.saved.files.value, r.landed, StatAtParse(r.parsed), Stamps(s.disk), r.parsed.Keys)
      && s'.run == Some(r.(entries := s'.saved.files.value, landed := []))
      && s'.disk == s.disk && s'.seen == s.seen && s'.acked == s.acked
  {
    hide MarkedAll, Landed;
    var r := s.run.value;
    MarkedIsLanded(r.entries, r.landed, StatAtParse(r.parsed), Stamps(s.disk), r.parsed.Keys);
  }

  /** A live file held back at a save is taken up again by the next run if and only if the
      checkpoint did not already hold the fingerprint it has. */
  lemma {:induction false} HeldBackIsRetried(build: Builder, s: State, p: string)
    requires Enabled(s, Save) && p in s.disk && p in s.run.value.parsed && p !in s.run.value.landed
    ensures var r, s' := s.run.value, After(build, s, Save);
      Lookup(Usable(s'.saved, Some(r.workspace)), p) != Some(s.disk[p].stamp) <==>
        Lookup(r.entries, p) != Some(s.disk[p].stamp)
  {
    var r := s.run.value;
    MarkedAllAt(r.entries, r.landed, StatAtParse(r.parsed), Stamps(s.disk), p);
    hide MarkedAll;
  }

  // ---- Where it fails ------------------------------------------------------------------------------

  lemma {:induction false} Then(build: Builder, s: State, step: Step, rest: seq<Step>)
    requires Enabled(s, step) && Possible(build, After(build, s, step), rest)
    ensures Possible(build, s, [step] + rest) &&
      Final(build, s, [step] + rest) == Final(build, After(build, s, step), rest)
  {
    hide Enabled, After;
    var steps := [step] + rest;
    assert steps[0] == step && steps[1..] == rest;
  }

  function AllStored(n: nat): (rows: seq<Row>)
    ensures |rows| == n && forall i :: 0 <= i < n ==> rows[i].Stored?
  {
    seq(n, i => Stored)
  }

  lemma {:induction false} LandsAlone(p: string, ids: seq<string>, n: nat)
    ensures LandedFiles([PendingFile(p, ids, false)], FailedNodes(AllStored(n)),
      Blamed(EdgeErrors([PendingFile(p, ids, false)], [], []))) == [p]
  {
    NoFailures(AllStored(n));
    OneMoreFile([], p, ids);
    assert [] + [PendingFile(p, ids, false)] == [PendingFile(p, ids, false)];
    var none: seq<BatchError> := [];
    assert Blamed(none) == {};
  }

  /** Queue the built file, flush with nothing refused, save. */
  function Finish(p: string, n: nat): seq<Step>
  {
    [QueueFile(p, [])] + ([Flush(AllStored(n), [])] + ([Save] + []))
  }

  /** One file alone is parsed and built, with an empty writer. */
  predicate Alone(r: Run, p: string, own: seq<Node>)
  {
    && r.landed == [] && r.files == [] && r.nodes == [] && r.edges == [] && r.entries == map[]
    && r.parsed.Keys == {p} && r.built == map[p := own]
  }

  function Sent(workspace: string, own: seq<Node>): set<(string, Node)>
  {
    set n | n in NoEmbed(own) :: (workspace, n)
  }

  /** The run with that file queued and nothing else. */
  function WithFile(r: Run, p: string, sent: seq<Node>, edges: seq<Edge>): Run
  {
    r.(files := [PendingFile(p, Ids(sent), false)], nodes := sent, edges := edges)
  }

  lemma {:induction false} Queues(build: Builder, s: State, p: string, own: seq<Node>, edges: seq<Edge>)
    requires s.run.Some? && Alone(s.run.value.(entries := map[]), p, own)
    ensures Enabled(s, QueueFile(p, edges))
    ensures After(build, s, QueueFile(p, edges)) == s.(run := Some(WithFile(s.run.value, p, NoEmbed(own), edges)))
  {
    assert [] + [PendingFile(p, Ids(NoEmbed(own)), false)] == [PendingFile(p, Ids(NoEmbed(own)), false)];
    assert [] + NoEmbed(own) == NoEmbed(own) && [] + edges == edges;
  }

  lemma {:induction false} AllAccepted(w: string, own: seq<Node>)
    ensures Accepted(w, NoEmbed(own), AllStored(|own|)) == Sent(w, own)
  {
    var sent := NoEmbed(own);
    forall n | n in sent ensures (w, n) in Accepted(w, sent, AllStored(|own|)) {
      var i :| 0 <= i < |sent| && sent[i] == n;
      assert AllStored(|own|)[i].Stored?;
    }
  }

  lemma {:induction false} FlushRecords(build: Builder, s: State, p: string, own: seq<Node>)
    requires s.run.Some? && Alone(s.run.value, p, own)
    ensures var s1, rows := After(build, s, QueueFile(p, [])), AllStored(|own|);
      && Enabled(s1, Flush(rows, []))
      && After(build, s1, Flush(rows, [])) ==
         s.(run := Some(s.run.value.(landed := [p])), acked := s.acked + Sent(s.run.value.workspace, own))
  {
    hide LandedFiles, FailedNodes, EdgeErrors, Blamed, Accepted, AllStored;
    Queues(build, s, p, own, []);
    LandsAlone(p, Ids(NoEmbed(own)), |own|);
    AllAccepted(s.run.value.workspace, own);
  }

  /** The fingerprint a save records for that file. */
  function StampOf(s: State, p: string): Option<Stamp>
    requires s.run.Some? && p in s.run.value.parsed
  {
    Recorded(s.run.value.parsed[p].stamp, Lookup(Stamps(s.disk), p))
  }

  lemma {:induction false} SaveRecords(build: Builder, s: State, p: string, own: seq<Node>)
    requires s.run.Some? && Alone(s.run.value.(landed := []), p, own) && s.run.value.landed == [p] &&
      StampOf(s, p).Some?
    ensures var r, end := s.run.value, After(build, s, Save);
      && end.saved == Saved(1, Some(r.workspace), Some(map[p := StampOf(s, p).value]))
      && end.seen == s.seen && end.acked == s.acked
  {
    MarkedAllAt(map[], [p], StatAtParse(s.run.value.parsed), Stamps(s.disk), p);
    hide MarkedAll;
    var entries, r := After(build, s, Save).saved.files.value, s.run.value;
    assert Lookup(StatAtParse(r.parsed), p) == r.parsed[p].stamp;
    assert entries.Keys == {p};
    assert entries == map[p := StampOf(s, p).value];
  }

  lemma {:induction false} FinishRecords(build: Builder, s: State, p: string, own: seq<Node>)
    requires s.run.Some? && Alone(s.run.value, p, own) && StampOf(s, p).Some?
    ensures Possible(build, s, Finish(p, |own|))
    ensures var r, end := s.run.value, Final(build, s, Finish(p, |own|));
      && end.saved == Saved(1, Some(r.workspace), Some(map[p := StampOf(s, p).value]))
      && end.disk == s.disk && end.seen == s.seen && end.acked == s.acked + Sent(r.workspace, own)
  {
    var rows := AllStored(|own|);
    assert Enabled(s, QueueFile(p, []));
    FlushRecords(build, s, p, own);
    hide After, Sent;
    var s1 := After(build, s, QueueFile(p, []));
    var s2 := After(build, s1, Flush(rows, []));
    SaveRecords(build, s2, p, own);
    hide Enabled;
    Then(build, s2, Save, []);
    Then(build, s1, Flush(rows, []), [Save] + []);
    Then(build, s, QueueFile(p, []), [Flush(rows, [])] + ([Save] + []));
  }

  /** A run that built its one file, before it queues it. */
  ghost predicate Ready(s: State, w: string, p: string, own: seq<Node>, stamp: Stamp)
  {
    s.run.Some? && s.run.value.workspace == w && Alone(s.run.value, p, own) && StampOf(s, p) == Some(stamp)
  }

  /** What such a run records is safe if and only if some version the file had at the recorded
      fingerprint has no node but those accepted before and those sent. */
  lemma {:induction false} EndsExactly(build: Builder, s: State, w: string, p: string, own: seq<Node>, stamp: Stamp)
    requires Ready(s, w, p, own, stamp)
    ensures Possible(build, s, Finish(p, |own|))
    ensures Safe(build, Final(build, s, Finish(p, |own|))) <==>
            exists c :: Seen(p, stamp, c) in s.seen && NodesAcked(build, s.acked + Sent(w, own), w, p, c)
  {
    hide Finish, Final, Possible, NodesAcked, Sent;
    FinishRecords(build, s, p, own);
    var end := Final(build, s, Finish(p, |own|));
    assert p in end.saved.files.value;
  }

  /** A version of the file has a node that is not among those sent. */
  ghost predicate Misses(build: Builder, p: string, c: string, own: seq<Node>)
  {
    exists n :: n in VersionNodes(build, p, c) && n !in NoEmbed(own)
  }

  lemma {:induction false} MissesExactly(
    build: Builder, acked: set<(string, Node)>, w: string, p: string, c: string, own: seq<Node>)
    requires acked == {}
    ensures NodesAcked(build, acked + Sent(w, own), w, p, c) <==> !Misses(build, p, c, own)
  {
    forall n ensures (w, n) in acked + Sent(w, own) <==> n in NoEmbed(own) {}
  }

  function Fresh(): State
  {
    State(map[], Saved(1, None, None), None, {}, {})
  }

  /** The file is written, a run begins and parses it. */
  function ParsedOnce(p: string, c: string, t: Stamp, w: string): State
  {
    State(map[p := File(c, t)], Saved(1, None, None),
      Some(Run(w, map[], map[p := Parsed(c, None)], map[], [], [], [], [])), {Seen(p, t, c)}, {})
  }

  function Opening(w: string, p: string, c: string, t: Stamp, rest: seq<Step>): seq<Step>
  {
    [Edit(p, c, t)] + ([Begin(w)] + ([ParseFile(p)] + rest))
  }

  lemma {:induction false} Opens(build: Builder, w: string, p: string, c: string, t: Stamp, rest: seq<Step>)
    requires Possible(build, ParsedOnce(p, c, t, w), rest)
    ensures Possible(build, Fresh(), Opening(w, p, c, t, rest))
    ensures Final(build, Fresh(), Opening(w, p, c, t, rest)) == Final(build, ParsedOnce(p, c, t, w), rest)
  {
    var s1 := After(build, Fresh(), Edit(p, c, t));
    var s2 := After(build, s1, Begin(w));
    assert s1.disk == map[p := File(c, t)] && s1.seen == {Seen(p, t, c)};
    assert After(build, s2, ParseFile(p)) == ParsedOnce(p, c, t, w);
    hide After, Possible, Final;
    Then(build, s2, ParseFile(p), rest);
    Then(build, s1, Begin(w), [ParseFile(p)] + rest);
    Then(build, Fresh(), Edit(p, c, t), [Begin(w)] + ([ParseFile(p)] + rest));
  }

  /** An edit between the parse and its stat. */
  function EditedBeforeStat(build: Builder, w: string, p: string, c: string, t: Stamp, c': string, t': Stamp): seq<Step>
  {
    Opening(w, p, c, t, [Edit(p, c', t')] + ([StatFile(p)] + ([Build(p)] + Finish(p, |build(p, c, c')|))))
  }

  /** A file gone at the stat and back, changed, before its nodes are built. */
  function GoneAtStat(build: Builder, w: string, p: string, c: string, t: Stamp, c': string, t': Stamp): seq<Step>
  {
    Opening(w, p, c, t, [Remove(p)] + ([StatFile(p)] +
      ([Edit(p, c', t')] + ([Build(p)] + Finish(p, |build(p, c, c')|)))))
  }

  /** An edit after the stat and before the second read. */
  function EditedBeforeBuild(
    build: Builder, w: string, p: string, c: string, t: Stamp, c': string, t': Stamp): seq<Step>
  {
    Opening(w, p, c, t, [StatFile(p)] + ([Edit(p, c', t')] + ([Build(p)] + Finish(p, |build(p, c, c')|))))
  }

  /** A file gone at the second read. */
  function GoneAtBuild(build: Builder, w: string, p: string, c: string, t: Stamp): seq<Step>
  {
    Opening(w, p, c, t, [StatFile(p)] + ([Remove(p)] + ([Build(p)] + Finish(p, |build(p, c, "")|))))
  }

  /** The end of a run that edited its one file once: which versions the recorded fingerprint
      may stand for depends on whether the edit changed the fingerprint. */
  lemma {:induction false} TwoVersions(
    build: Builder, s: State, w: string, p: string, c: string, t: Stamp, c': string, t': Stamp, own: seq<Node>,
      stamp: Stamp)
    requires Ready(s, w, p, own, stamp) && s.acked == {} && s.seen == {Seen(p, t, c), Seen(p, t', c')}
    ensures Possible(build, s, Finish(p, |own|))
    ensures Safe(build, Final(build, s, Finish(p, |own|))) <==>
            (stamp == t && !Misses(build, p, c, own)) || (stamp == t' && !Misses(build, p, c', own))
  {
    hide Finish, Final, Possible, Safe, Misses, NodesAcked, Sent, Ready;
    EndsExactly(build, s, w, p, own, stamp);
    MissesExactly(build, s.acked, w, p, c, own);
    MissesExactly(build, s.acked, w, p, c', own);
    assert Seen(p, t, c) in s.seen && Seen(p, t', c') in s.seen;
  }

  /** When a file changes between its parse and the stat taken after it, the run ends safe if
      and only if what is sent covers the new content, or the old one and the edit did not
      change the fingerprint. */
  lemma {:induction false} EditBeforeStatExactly(
    build: Builder, w: string, p: string, c: string, t: Stamp, c': string, t': Stamp)
    ensures Possible(build, Fresh(), EditedBeforeStat(build, w, p, c, t, c', t'))
    ensures var own := build(p, c, c');
      Safe(build, Final(build, Fresh(), EditedBeforeStat(build, w, p, c, t, c', t'))) <==>
      !Misses(build, p, c', own) || (t == t' && !Misses(build, p, c, own))
  {
    var s0, own := ParsedOnce(p, c, t, w), build(p, c, c');
    var s1 := After(build, s0, Edit(p, c', t'));
    var s2 := After(build, s1, StatFile(p));
    var s3 := After(build, s2, Build(p));
    assert s3.run.value.built == map[p := own];
    assert Ready(s3, w, p, own, t') && s3.seen == {Seen(p, t, c), Seen(p, t', c')} && s3.acked == {};
    hide After, Finish, Possible, Final, Safe, Misses, Opening;
    TwoVersions(build, s3, w, p, c, t, c', t', own, t');
    Then(build, s2, Build(p), Finish(p, |own|));
    Then(build, s1, StatFile(p), [Build(p)] + Finish(p, |own|));
    Then(build, s0, Edit(p, c', t'), [StatFile(p)] + ([Build(p)] + Finish(p, |own|)));
    Opens(build, w, p, c, t, [Edit(p, c', t')] + ([StatFile(p)] + ([Build(p)] + Finish(p, |own|))));
  }

  /** The same when the stat after the parse failed: the mark then takes a new one. */
  lemma {:induction false} GoneAtStatExactly(
    build: Builder, w: string, p: string, c: string, t: Stamp, c': string, t': Stamp)
    ensures Possible(build, Fresh(), GoneAtStat(build, w, p, c, t, c', t'))
    ensures var own := build(p, c, c');
      Safe(build, Final(build, Fresh(), GoneAtStat(build, w, p, c, t, c', t'))) <==>
      !Misses(build, p, c', own) || (t == t' && !Misses(build, p, c, own))
  {
    var s0, own := ParsedOnce(p, c, t, w), build(p, c, c');
    var s1 := After(build, s0, Remove(p));
    var s2 := After(build, s1, StatFile(p));
    var s3 := After(build, s2, Edit(p, c', t'));
    var s4 := After(build, s3, Build(p));
    assert s4.run.value.built == map[p := own];
    assert Ready(s4, w, p, own, t') && s4.seen == {Seen(p, t, c), Seen(p, t', c')} && s4.acked == {};
    hide After, Finish, Possible, Final, Safe, Misses, Opening;
    TwoVersions(build, s4, w, p, c, t, c', t', own, t');
    Then(build, s3, Build(p), Finish(p, |own|));
    Then(build, s2, Edit(p, c', t'), [Build(p)] + Finish(p, |own|));
    Then(build, s1, StatFile(p), [Edit(p, c', t')] + ([Build(p)] + Finish(p, |own|)));
    Then(build, s0, Remove(p), [StatFile(p)] + ([Edit(p, c', t')] + ([Build(p)] + Finish(p, |own|))));
    Opens(build, w, p, c, t, [Remove(p)] + ([StatFile(p)] + ([Edit(p, c', t')] + ([Build(p)] + Finish(p, |own|)))));
  }

  /** When the file changes after its stat and before its nodes are built, the run ends safe if
      and only if what is sent covers the content parsed, or the new one and the edit did not
      change the fingerprint. */
  lemma {:induction false} EditBeforeBuildExactly(
    build: Builder, w: string, p: string, c: string, t: Stamp, c': string, t': Stamp)
    ensures Possible(build, Fresh(), EditedBeforeBuild(build, w, p, c, t, c', t'))
    ensures var own := build(p, c, c');
      Safe(build, Final(build, Fresh(), EditedBeforeBuild(build, w, p, c, t, c', t'))) <==>
      !Misses(build, p, c, own) || (t == t' && !Misses(build, p, c', own))
  {
    var s0, own := ParsedOnce(p, c, t, w), build(p, c, c');
    var s1 := After(build, s0, StatFile(p));
    var s2 := After(build, s1, Edit(p, c', t'));
    var s3 := After(build, s2, Build(p));
    assert s3.run.value.built == map[p := own];
    assert Ready(s3, w, p, own, t) && s3.seen == {Seen(p, t, c), Seen(p, t', c')} && s3.acked == {};
    hide After, Finish, Possible, Final, Safe, Misses, Opening;
    TwoVersions(build, s3, w, p, c, t, c', t', own, t);
    Then(build, s2, Build(p), Finish(p, |own|));
    Then(build, s1, Edit(p, c', t'), [Build(p)] + Finish(p, |own|));
    Then(build, s0, StatFile(p), [Edit(p, c', t')] + ([Build(p)] + Finish(p, |own|)));
    Opens(build, w, p, c, t, [StatFile(p)] + ([Edit(p, c', t')] + ([Build(p)] + Finish(p, |own|))));
  }

  /** When the file is gone by then, its cards are built without its text: the run ends safe if
      and only if no node of the content parsed needs it. */
  lemma {:induction false} GoneAtBuildExactly(build: Builder, w: string, p: string, c: string, t: Stamp)
    ensures Possible(build, Fresh(), GoneAtBuild(build, w, p, c, t))
    ensures Safe(build, Final(build, Fresh(), GoneAtBuild(build, w, p, c, t))) <==>
      !Misses(build, p, c, build(p, c, ""))
  {
    var s0, own := ParsedOnce(p, c, t, w), build(p, c, "");
    var s1 := After(build, s0, StatFile(p));
    var s2 := After(build, s1, Remove(p));
    var s3 := After(build, s2, Build(p));
    assert s3.run.value.built == map[p := own];
    assert Ready(s3, w, p, own, t) && s3.seen == {Seen(p, t, c), Seen(p, t, c)} && s3.acked == {};
    hide After, Finish, Possible, Final, Safe, Misses, Opening;
    TwoVersions(build, s3, w, p, c, t, c, t, own, t);
    Then(build, s2, Build(p), Finish(p, |own|));
    Then(build, s1, Remove(p), [Build(p)] + Finish(p, |own|));
    Then(build, s0, StatFile(p), [Remove(p)] + ([Build(p)] + Finish(p, |own|)));
    Opens(build, w, p, c, t, [StatFile(p)] + ([Remove(p)] + ([Build(p)] + Finish(p, |own|))));
  }

  // ---- What a landing does not say -----------------------------------------------------------------

  /** The node pass sends the file's nodes as they are, in an auxiliary entry, before the edge
      pass sends them again without embedding. */
  function BothPasses(p: string, own: seq<Node>, rows: seq<Row>): seq<Step>
  {
    [QueueAux("<nodes:" + p + ">", own, [])] + ([Flush(rows, [])] + Finish(p, |own|))
  }

  /** The store answers each node, and names those it refuses. */
  predicate Answers(own: seq<Node>, rows: seq<Row>)
  {
    |rows| == |own| && forall i :: 0 <= i < |own| && rows[i].Refused? ==> rows[i].id == Some(own[i].id)
  }

  lemma {:induction false} AuxPass(
    build: Builder, s: State, w: string, p: string, own: seq<Node>, stamp: Stamp, rows: seq<Row>)
    requires Ready(s, w, p, own, stamp) && Answers(own, rows)
    ensures var s1 := After(build, s, QueueAux("<nodes:" + p + ">", own, []));
      Enabled(s1, Flush(rows, [])) && After(build, s1, Flush(rows, [])) == s.(acked := s.acked + Accepted(w, own, rows))
  {
    hide FailedNodes, LandedFiles, EdgeErrors, Blamed, Accepted;
    var aux := PendingFile("<nodes:" + p + ">", [], true);
    var s1 := After(build, s, QueueAux("<nodes:" + p + ">", own, []));
    assert s1.run.value.files == [aux] && s1.run.value.nodes == own && s1.run.value.edges == [];
    AuxNeverLands([aux], FailedNodes(rows), Blamed(EdgeErrors([aux], [], [])));
  }

  /** A file lands and is recorded whatever the node pass was answered: each copy with an
      embedding was accepted if and only if its row in that pass says so. */
  lemma {:induction false} EmbeddingsExactly(
    build: Builder, s: State, w: string, p: string, own: seq<Node>, stamp: Stamp, rows: seq<Row>)
    requires Ready(s, w, p, own, stamp) && Answers(own, rows)
    ensures Possible(build, s, BothPasses(p, own, rows))
    ensures var end := Final(build, s, BothPasses(p, own, rows));
      && end.saved == Saved(1, Some(w), Some(map[p := stamp]))
      && forall n :: n in own && n.embed ==>
           ((w, n) in end.acked <==> (w, n) in s.acked || exists i :: 0 <= i < |own| && own[i] == n && rows[i].Stored?)
  {
    AuxPass(build, s, w, p, own, stamp, rows);
    hide After, FailedNodes, LandedFiles, EdgeErrors;
    var s1 := After(build, s, QueueAux("<nodes:" + p + ">", own, []));
    var s2 := s.(acked := s.acked + Accepted(w, own, rows));
    FinishRecords(build, s2, p, own);
    hide Finish, Possible, Final, Ready;
    Then(build, s1, Flush(rows, []), Finish(p, |own|));
    Then(build, s, QueueAux("<nodes:" + p + ">", own, []), [Flush(rows, [])] + Finish(p, |own|));
    forall n | n in own && n.embed ensures (w, n) !in Sent(w, own) {}
  }

  /** A run that begins, parses one file, takes its stat and builds it. */
  function Rebuild(w: string, p: string): seq<Step>
  {
    [Begin(w)] + ([ParseFile(p)] + ([StatFile(p)] + ([Build(p)] + [])))
  }

  lemma {:induction false} Rebuilds(build: Builder, s: State, w: string, p: string)
    requires s.run.None? && p in s.disk
    ensures Possible(build, s, Rebuild(w, p))
    ensures var f := s.disk[p];
      Final(build, s, Rebuild(w, p)) ==
      s.(run := Some(Run(w, Usable(s.saved, Some(w)), map[p := Parsed(f.content, Some(f.stamp))],
                         map[p := build(p, f.content, f.content)], [], [], [], [])))
  {
    var s1 := After(build, s, Begin(w));
    var s2 := After(build, s1, ParseFile(p));
    var s3 := After(build, s2, StatFile(p));
    var s4 := After(build, s3, Build(p));
    var f := s.disk[p];
    assert s2.run.value.parsed == map[p := Parsed(f.content, None)];
    assert s3.run.value.parsed == map[p := Parsed(f.content, Some(f.stamp))];
    assert s4.run.value.built == map[p := build(p, f.content, f.content)];
    hide After;
    Then(build, s3, Build(p), []);
    Then(build, s2, StatFile(p), [Build(p)] + []);
    Then(build, s1, ParseFile(p), [StatFile(p)] + ([Build(p)] + []));
    Then(build, s, Begin(w), [ParseFile(p)] + ([StatFile(p)] + ([Build(p)] + [])));
  }

  lemma {:induction false} Onward(build: Builder, s: State, a: seq<Step>, b: seq<Step>)
    requires Possible(build, s, a) && Possible(build, Final(build, s, a), b)
    ensures Possible(build, s, a + b) && Final(build, s, a + b) == Final(build, Final(build, s, a), b)
    decreases |a|
  {
    hide Enabled, After;
    if a == [] {
      assert a + b == b;
    } else {
      assert (a + b)[0] == a[0] && (a + b)[1..] == a[1..] + b;
      Onward(build, After(build, s, a[0]), a[1..], b);
    }
  }

  function Indexed(build: Builder, w: string, p: string, c: string, t: Stamp): seq<Step>
  {
    [Edit(p, c, t)] + (Rebuild(w, p) + Finish(p, |build(p, c, c)|))
  }

  lemma {:induction false} Indexes(build: Builder, w: string, p: string, c: string, t: Stamp)
    ensures Possible(build, Fresh(), Indexed(build, w, p, c, t))
    ensures var end := Final(build, Fresh(), Indexed(build, w, p, c, t));
      end.saved == Saved(1, Some(w), Some(map[p := t])) && end.disk == map[p := File(c, t)]
  {
    var own := build(p, c, c);
    var s1 := After(build, Fresh(), Edit(p, c, t));
    Rebuilds(build, s1, w, p);
    var s2 := Final(build, s1, Rebuild(w, p));
    assert Alone(s2.run.value, p, own) && StampOf(s2, p) == Some(t);
    hide After, Rebuild, Finish, Alone, Usable;
    FinishRecords(build, s2, p, own);
    Onward(build, s1, Rebuild(w, p), Finish(p, |own|));
    Then(build, Fresh(), Edit(p, c, t), Rebuild(w, p) + Finish(p, |own|));
  }

  /** A built file is queued with an edge, which is refused. */
  function LoseEdge(p: string, n: nat, e: Edge): seq<Step>
  {
    [QueueFile(p, [e])] + ([Flush(AllStored(n), [Refused(None, "refused")])] + [])
  }

  lemma OnlyOwner(f: PendingFile, e: Edge)
    requires Owns(f, e)
    ensures FileForEdge([f], e) == f.absPath
  {
  }

  lemma {:induction false} LosesEdge(build: Builder, s: State, p: string, own: seq<Node>, e: Edge)
    requires s.run.Some? && Alone(s.run.value.(entries := map[]), p, own) && e.source in Ids(own)
    ensures Possible(build, s, LoseEdge(p, |own|, e))
    ensures var end := Final(build, s, LoseEdge(p, |own|, e));
      end.saved == s.saved && end.disk == s.disk && end.run.Some? && p !in end.run.value.landed
  {
    hide LandedFiles, FailedNodes, EdgeErrors, Blamed, FileForEdge, Accepted, AllStored;
    var rows, edgeRows := AllStored(|own|), [Refused(None, "refused")];
    var f := PendingFile(p, Ids(NoEmbed(own)), false);
    Queues(build, s, p, own, [e]);
    assert s.run.value.landed == [];
    hide Alone;
    var s1 := After(build, s, QueueFile(p, [e]));
    assert Ids(NoEmbed(own)) == Ids(own);
    OnlyOwner(f, e);
    BlamedStays([f], FailedNodes(rows), [e], edgeRows, 0);
    var s2 := After(build, s1, Flush(rows, edgeRows));
    assert p !in s2.run.value.landed;
    hide After, Enabled;
    Then(build, s1, Flush(rows, edgeRows), []);
    Then(build, s, QueueFile(p, [e]), [Flush(rows, edgeRows)] + []);
  }

  /** The file is indexed; a second run indexes it again, unchanged, and an edge of it is refused. */
  function EdgeLostLater(build: Builder, w: string, p: string, c: string, t: Stamp, e: Edge): seq<Step>
  {
    Indexed(build, w, p, c, t) + ([Crash] + (Rebuild(w, p) + LoseEdge(p, |build(p, c, c)|, e)))
  }

  /** Then the file is held back, and its former entry is still there: the next resumed run
      skips it. */
  lemma {:induction false} EdgeLostLaterIsSkipped(build: Builder, w: string, p: string, c: string, t: Stamp, e: Edge)
    requires e.source in Ids(build(p, c, c))
    ensures Possible(build, Fresh(), EdgeLostLater(build, w, p, c, t, e))
    ensures var end := Final(build, Fresh(), EdgeLostLater(build, w, p, c, t, e));
      && end.run.Some? && p !in end.run.value.landed
      && p in end.disk && Lookup(Usable(end.saved, Some(w)), p) == Some(end.disk[p].stamp)
  {
    var own := build(p, c, c);
    Indexes(build, w, p, c, t);
    var s1 := Final(build, Fresh(), Indexed(build, w, p, c, t));
    var s2 := After(build, s1, Crash);
    Rebuilds(build, s2, w, p);
    var s3 := Final(build, s2, Rebuild(w, p));
    assert Alone(s3.run.value.(entries := map[]), p, own);
    hide Rebuild, Indexed, Alone, LoseEdge;
    LosesEdge(build, s3, p, own, e);
    hide After;
    Onward(build, s2, Rebuild(w, p), LoseEdge(p, |own|, e));
    Then(build, s1, Crash, Rebuild(w, p) + LoseEdge(p, |own|, e));
    Onward(build, Fresh(), Indexed(build, w, p, c, t), [Crash] + (Rebuild(w, p) + LoseEdge(p, |own|, e)));
  }
}
