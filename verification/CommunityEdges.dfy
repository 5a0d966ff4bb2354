/** The inter-community edges of the architecture map and their cycle flags. */
module CommunityEdges {
  import opened Strings
  import opened Graphs
  import opened OrderedMaps
  import opened Sorting
  import Tarjan

  datatype FileEdge = FileEdge(source: string, target: string)

  datatype CommunityEdge = CommunityEdge(source: string, target: string, weight: nat, cyclic: bool, violation: bool)

  datatype Layer = Layer(rank: nat, name: string)

  /** Which community each file belongs to. */
  type Membership = map<string, string>

  function PairKey(a: string, b: string): string
  {
    if Less(a, b) then a + "|" + b else b + "|" + a
  }

  function DirKey(a: string, b: string): string
  {
    a + "||" + b
  }

  /** Community ids never contain the separator character of the keys. */
  predicate Plain(id: string)
  {
    '|' !in id
  }

  ghost predicate PlainMembership(m: Membership)
  {
    forall f :: f in m ==> Plain(m[f])
  }

  // ---- The keys ------------------------------------------------------------------

  lemma DirKeySplit(a: string, b: string)
    requires Plain(a) && Plain(b)
    ensures Split(DirKey(a, b), "||") == [a, b]
  {
    SplitJoined(a, b, "||");
  }

  lemma DirKeyInjective(a: string, b: string, c: string, d: string)
    requires Plain(a) && Plain(b) && Plain(c) && Plain(d) && DirKey(a, b) == DirKey(c, d)
    ensures a == c && b == d
  {
    DirKeySplit(a, b);
    DirKeySplit(c, d);
    assert [a, b][0] == [c, d][0] && [a, b][1] == [c, d][1];
  }

  lemma PairKeySplit(a: string, b: string)
    requires Plain(a) && Plain(b) && a != b
    ensures Split(PairKey(a, b), "|") == if Less(a, b) then [a, b] else [b, a]
    ensures PairKey(a, b) == PairKey(b, a)
  {
    LessTotal(a, b);
    SplitJoined(a, b, "|");
    SplitJoined(b, a, "|");
  }

  /** Two pairs share a key exactly when they are the same pair, in either order. */
  lemma PairKeyInjective(a: string, b: string, c: string, d: string)
    requires Plain(a) && Plain(b) && Plain(c) && Plain(d) && a != b && c != d
    ensures PairKey(a, b) == PairKey(c, d) <==> (a == c && b == d) || (a == d && b == c)
  {
    PairKeySplit(a, b);
    PairKeySplit(c, d);
    if PairKey(a, b) == PairKey(c, d) {
      var s := Split(PairKey(a, b), "|");
      assert s[0] == (if Less(c, d) then c else d) && s[1] == (if Less(c, d) then d else c);
    }
  }

  // ---- What the edges mean ---------------------------------------------------------

  /** The file edge leads from community `a` to another community `b`. */
  predicate Crosses(m: Membership, e: FileEdge, a: string, b: string)
  {
    e.source in m && e.target in m && m[e.source] == a && m[e.target] == b && a != "" && b != "" && a != b
  }

  predicate CrossEdge(m: Membership, e: FileEdge)
  {
    e.source in m && e.target in m && Crosses(m, e, m[e.source], m[e.target])
  }

  /** Community `a` depends directly on community `b`. */
  ghost predicate Depends(m: Membership, es: seq<FileEdge>, a: string, b: string)
  {
    exists e :: e in es && Crosses(m, e, a, b)
  }

  function CrossCount(m: Membership, es: seq<FileEdge>): nat
  {
    if es == [] then 0
    else CrossCount(m, es[..|es| - 1]) + if CrossEdge(m, es[|es| - 1]) then 1 else 0
  }

  /** How many file edges connect `a` and `b`, in either direction. */
  function PairCount(m: Membership, es: seq<FileEdge>, a: string, b: string): nat
  {
    if es == [] then 0
    else
      var e := es[|es| - 1];
      PairCount(m, es[..|es| - 1], a, b) + if Crosses(m, e, a, b) || Crosses(m, e, b, a) then 1 else 0
  }

  lemma {:induction false} PairCountPositive(m: Membership, es: seq<FileEdge>, a: string, b: string)
    ensures PairCount(m, es, a, b) > 0 <==> Depends(m, es, a, b) || Depends(m, es, b, a)
  {
    if es != [] {
      var rest, e := es[..|es| - 1], es[|es| - 1];
      assert es == rest + [e];
      PairCountPositive(m, rest, a, b);
      assert forall x :: x in rest ==> x in es;
      assert Depends(m, es, a, b) <==> Depends(m, rest, a, b) || Crosses(m, e, a, b);
      assert Depends(m, es, b, a) <==> Depends(m, rest, b, a) || Crosses(m, e, b, a);
    }
  }

  // ---- Aggregation -------------------------------------------------------------------

  /** The undirected counter after the file edges `es`. */
  ghost predicate WeightsOk(m: Membership, es: seq<FileEdge>, weights: Map<string, nat>)
  {
    && weights.Ok()
    && Total(weights) == CrossCount(m, es)
    && CountsPairs(m, es, weights)
    && (forall k :: k in weights.at ==> weights.at[k] > 0 && IsPairKey(k))
  }

  ghost predicate CountsPairs(m: Membership, es: seq<FileEdge>, weights: Map<string, nat>)
  {
    forall a, b :: Plain(a) && Plain(b) && a != b ==> weights.Get(PairKey(a, b), 0) == PairCount(m, es, a, b)
  }

  /** The directed counter after the file edges `es`. */
  ghost predicate DirectedOk(m: Membership, es: seq<FileEdge>, directed: Map<string, nat>)
  {
    && directed.Ok()
    && (forall k :: k in directed.at ==> IsDirKey(k))
    && (forall a, b :: Plain(a) && Plain(b) ==> (DirKey(a, b) in directed.at <==> Depends(m, es, a, b)))
  }

  ghost predicate IsPairKey(k: string)
  {
    exists a, b :: Plain(a) && Plain(b) && Less(a, b) && k == PairKey(a, b)
  }

  ghost predicate IsDirKey(k: string)
  {
    exists a, b :: Plain(a) && Plain(b) && k == DirKey(a, b)
  }

  lemma SkipWeights(m: Membership, es: seq<FileEdge>, e: FileEdge, weights: Map<string, nat>)
    requires WeightsOk(m, es, weights) && !CrossEdge(m, e)
    ensures WeightsOk(m, es + [e], weights)
  {
    hide IsPairKey, Plain, PairKey, Total;
    assert (es + [e])[..|es|] == es;
  }

  lemma SkipDirected(m: Membership, es: seq<FileEdge>, e: FileEdge, directed: Map<string, nat>)
    requires DirectedOk(m, es, directed) && !CrossEdge(m, e)
    ensures DirectedOk(m, es + [e], directed)
  {
    hide IsDirKey, Plain, DirKey;
    forall a, b ensures Depends(m, es + [e], a, b) <==> Depends(m, es, a, b) {
      assert forall x :: x in es ==> x in es + [e];
    }
  }

  lemma CountWeights(m: Membership, es: seq<FileEdge>, e: FileEdge, weights: Map<string, nat>, a: string, b: string)
    requires PlainMembership(m) && WeightsOk(m, es, weights) && Crosses(m, e, a, b)
    ensures WeightsOk(m, es + [e], weights.Set(PairKey(a, b), weights.Get(PairKey(a, b), 0) + 1))
  {
    hide CountsPairs, Total, IsPairKey, PairKey, Plain;
    var k := PairKey(a, b);
    assert (es + [e])[..|es|] == es;
    SetOk(weights, k, weights.Get(k, 0) + 1);
    TotalSet(weights, k, weights.Get(k, 0) + 1);
    IsKeyOfPair(a, b);
    CountPair(m, es, e, weights, a, b);
  }

  lemma CountPair(m: Membership, es: seq<FileEdge>, e: FileEdge, weights: Map<string, nat>, a: string, b: string)
    requires CountsPairs(m, es, weights) && Crosses(m, e, a, b) && Plain(a) && Plain(b)
    ensures CountsPairs(m, es + [e], weights.Set(PairKey(a, b), weights.Get(PairKey(a, b), 0) + 1))
  {
    var k := PairKey(a, b);
    var weights' := weights.Set(k, weights.Get(k, 0) + 1);
    hide Plain, PairKey;
    forall c, d | Plain(c) && Plain(d) && c != d
      ensures weights'.Get(PairKey(c, d), 0) == PairCount(m, es + [e], c, d)
    {
      PairKeyInjective(a, b, c, d);
      PairCountStep(m, es, e, a, b, c, d);
      assert weights.Get(PairKey(c, d), 0) == PairCount(m, es, c, d);
    }
  }

  lemma PairCountStep(m: Membership, es: seq<FileEdge>, e: FileEdge, a: string, b: string, c: string, d: string)
    requires Crosses(m, e, a, b)
    ensures PairCount(m, es + [e], c, d) ==
            PairCount(m, es, c, d) + if (a == c && b == d) || (a == d && b == c) then 1 else 0
  {
    assert (es + [e])[..|es|] == es;
  }

  lemma IsKeyOfPair(a: string, b: string)
    requires Plain(a) && Plain(b) && a != b
    ensures IsPairKey(PairKey(a, b))
  {
    LessTotal(a, b);
    PairKeySplit(a, b);
    if Less(a, b) {
      assert Plain(a) && Plain(b) && Less(a, b) && PairKey(a, b) == PairKey(a, b);
    } else {
      assert Plain(b) && Plain(a) && Less(b, a) && PairKey(a, b) == PairKey(b, a);
    }
  }

  lemma CountDirected(
    m: Membership, es: seq<FileEdge>, e: FileEdge, directed: Map<string, nat>, a: string, b: string, n: nat)
    requires PlainMembership(m) && DirectedOk(m, es, directed) && Crosses(m, e, a, b)
    ensures DirectedOk(m, es + [e], directed.Set(DirKey(a, b), n))
  {
    assert Plain(a) && Plain(b);
    assert IsDirKey(DirKey(a, b));
    hide Plain, IsDirKey;
    var es', directed' := es + [e], directed.Set(DirKey(a, b), n);
    SetOk(directed, DirKey(a, b), n);
    forall c, d | Plain(c) && Plain(d) ensures DirKey(c, d) in directed'.at <==> Depends(m, es', c, d) {
      if DirKey(c, d) == DirKey(a, b) { DirKeyInjective(a, b, c, d); }
      assert forall x :: x in es ==> x in es';
      assert e in es';
    }
  }

  lemma CountNone(m: Membership)
    ensures WeightsOk(m, [], Empty()) && DirectedOk(m, [], Empty()) && PairsMet(m, []) == []
  {
  }

  /** The pair keys of the cross-community file edges, in the order in which they are met. */
  function PairsMet(m: Membership, es: seq<FileEdge>): seq<string>
  {
    if es == [] then []
    else
      var before, e := PairsMet(m, es[..|es| - 1]), es[|es| - 1];
      if !CrossEdge(m, e) then before
      else var key := PairKey(m[e.source], m[e.target]); if key in before then before else before + [key]
  }

  /** A file edge between two communities yields their ids, the smaller first. */
  ghost predicate YieldsPair(m: Membership, e: FileEdge, key: string)
  {
    && e.source in m && e.target in m && m[e.source] != "" && m[e.target] != "" && m[e.source] != m[e.target]
    && key == if Less(m[e.source], m[e.target]) then m[e.source] + "|" + m[e.target]
      else m[e.target] + "|" + m[e.source]
  }

  ghost function GivesPair(m: Membership): (FileEdge, string) -> bool
  {
    (e: FileEdge, key: string) => YieldsPair(m, e, key)
  }

  /** The edges are made in the order in which their pairs are met. */
  lemma {:induction false} PairsExactly(m: Membership, es: seq<FileEdge>)
    ensures InOrderMet(es, GivesPair(m), PairsMet(m, es))
  {
    hide InOrderMet, Less;
    if es == [] {
      MetNone(GivesPair(m));
    } else {
      var n := |es| - 1;
      PairsExactly(m, es[..n]);
      var e := es[n];
      assert es[..n] + [e] == es;
      MetMore(es[..n], e, GivesPair(m), PairsMet(m, es[..n]), CrossEdge(m, e),
              if CrossEdge(m, e) then PairKey(m[e.source], m[e.target]) else "");
    }
  }

  /** A file edge joins the two communities, one way or the other. */
  predicate JoinsPair(m: Membership, e: FileEdge, a: string, b: string)
  {
    && e.source in m && e.target in m && a != "" && b != "" && a != b
    && ((m[e.source] == a && m[e.target] == b) || (m[e.source] == b && m[e.target] == a))
  }

  predicate JoinsTwo(m: Membership, e: FileEdge)
  {
    e.source in m && e.target in m && m[e.source] != "" && m[e.target] != "" && m[e.source] != m[e.target]
  }

  lemma {:induction false} CountsExactly(m: Membership, es: seq<FileEdge>, a: string, b: string)
    ensures PairCount(m, es, a, b) == HowMany(es, e => JoinsPair(m, e, a, b))
    ensures CrossCount(m, es) == HowMany(es, e => JoinsTwo(m, e))
  {
    if es != [] {
      CountsExactly(m, es[..|es| - 1], a, b);
      HowManyMore(es, e => JoinsPair(m, e, a, b));
      HowManyMore(es, e => JoinsTwo(m, e));
    }
  }

  lemma PairsMetStep(m: Membership, es: seq<FileEdge>, e: FileEdge, weights: Map<string, nat>, n: nat)
    requires WeightsOk(m, es, weights) && weights.keys == PairsMet(m, es)
    ensures CrossEdge(m, e) ==> weights.Set(PairKey(m[e.source], m[e.target]), n).keys == PairsMet(m, es + [e])
    ensures !CrossEdge(m, e) ==> weights.keys == PairsMet(m, es + [e])
  {
    hide PairKey, CountsPairs, Total;
    assert (es + [e])[..|es|] == es;
  }

  /** Sums the cross-community file edges per pair of communities and per direction. */
  method AggregateEdges(m: Membership, es: seq<FileEdge>)
    returns (weights: Map<string, nat>, directed: Map<string, nat>)
    requires PlainMembership(m)
    ensures WeightsOk(m, es, weights) && DirectedOk(m, es, directed) && weights.keys == PairsMet(m, es)
  {
    hide WeightsOk, DirectedOk, PairsMet;
    weights, directed := Empty(), Empty();
    CountNone(m);
    for i := 0 to |es|
      invariant WeightsOk(m, es[..i], weights) && DirectedOk(m, es[..i], directed)
      invariant weights.keys == PairsMet(m, es[..i])
    {
      var e := es[i];
      assert es[..i + 1] == es[..i] + [e];
      if e.source !in m || e.target !in m || m[e.source] == "" || m[e.target] == "" || m[e.source] == m[e.target] {
        PairsMetStep(m, es[..i], e, weights, 0);
        SkipWeights(m, es[..i], e, weights);
        SkipDirected(m, es[..i], e, directed);
        continue;
      }
      var a, b := m[e.source], m[e.target];
      var n := directed.Get(DirKey(a, b), 0) + 1;
      PairsMetStep(m, es[..i], e, weights, weights.Get(PairKey(a, b), 0) + 1);
      CountWeights(m, es[..i], e, weights, a, b);
      CountDirected(m, es[..i], e, directed, a, b, n);
      weights := weights.Set(PairKey(a, b), weights.Get(PairKey(a, b), 0) + 1);
      directed := directed.Set(DirKey(a, b), n);
    }
    assert es[..|es|] == es;
  }

  // ---- Cycle flags ------------------------------------------------------------------------

  /** `adj` is the dependency graph that the directed keys spell out. */
  ghost predicate AdjacencyOf(keys: seq<string>, adj: Graph<string>)
  {
    && (forall a, b :: Plain(a) && Plain(b) ==> (b in Succ(adj, a) <==> DirKey(a, b) in keys))
    && EndsPlain(adj)
  }

  ghost predicate EndsPlain(adj: Graph<string>)
  {
    forall a, b {:trigger b in Succ(adj, a)} :: b in Succ(adj, a) ==> Plain(a) && Plain(b)
  }

  function AddDependency(adj: Graph<string>, a: string, b: string): Graph<string>
  {
    if b in Succ(adj, a) then adj else adj[a := Succ(adj, a) + [b]]
  }

  lemma DependencyAdded(adj: Graph<string>, a: string, b: string, c: string, d: string)
    ensures d in Succ(AddDependency(adj, a, b), c) <==> d in Succ(adj, c) || (c == a && d == b)
  {
  }

  lemma AddedPlain(adj: Graph<string>, a: string, b: string)
    requires EndsPlain(adj) && Plain(a) && Plain(b)
    ensures EndsPlain(AddDependency(adj, a, b))
  {
    hide Plain, AddDependency;
    var adj' := AddDependency(adj, a, b);
    forall c, d {:trigger d in Succ(adj', c)} | d in Succ(adj', c) ensures Plain(c) && Plain(d) {
      DependencyAdded(adj, a, b, c, d);
    }
  }

  lemma AddDependencyOk(keys: seq<string>, adj: Graph<string>, a: string, b: string)
    requires AdjacencyOf(keys, adj) && Plain(a) && Plain(b)
    ensures AdjacencyOf(keys + [DirKey(a, b)], AddDependency(adj, a, b))
  {
    var adj' := AddDependency(adj, a, b);
    hide Plain, AddDependency, DirKey, EndsPlain;
    forall c, d | Plain(c) && Plain(d) ensures d in Succ(adj', c) <==> DirKey(c, d) in keys + [DirKey(a, b)] {
      DependencyAdded(adj, a, b, c, d);
      if DirKey(c, d) == DirKey(a, b) { DirKeyInjective(a, b, c, d); }
    }
    AddedPlain(adj, a, b);
  }

  /** The groups as a table from node to the number of its group. */
  ghost predicate GroupTable(groups: seq<seq<string>>, inCycle: map<string, nat>)
  {
    && (forall v :: v in inCycle ==> inCycle[v] < |groups| && v in groups[inCycle[v]])
    && (forall i, v :: 0 <= i < |groups| && v in groups[i] ==> v in inCycle)
  }

  lemma TableMeansGroup(groups: seq<seq<string>>, inCycle: map<string, nat>, a: string, b: string)
    requires GroupTable(groups, inCycle)
    requires forall i, j, u :: 0 <= i < j < |groups| && u in groups[i] ==> u !in groups[j]
    ensures (a in inCycle && b in inCycle && inCycle[a] == inCycle[b]) <==> Tarjan.InGroup(groups, a, b)
  {
    if Tarjan.InGroup(groups, a, b) {
      var i :| 0 <= i < |groups| && a in groups[i] && b in groups[i];
      assert inCycle[a] == i && inCycle[b] == i;
    }
  }

  method NumberGroups(groups: seq<seq<string>>) returns (inCycle: map<string, nat>)
    ensures GroupTable(groups, inCycle)
  {
    inCycle := map[];
    for i := 0 to |groups|
      invariant forall v :: v in inCycle ==> inCycle[v] < i && v in groups[inCycle[v]]
      invariant forall j, v :: 0 <= j < i && v in groups[j] ==> v in inCycle
    {
      for k := 0 to |groups[i]|
        invariant forall v :: v in inCycle ==> inCycle[v] <= i && v in groups[inCycle[v]]
        invariant forall j, v :: 0 <= j < i && v in groups[j] ==> v in inCycle
        invariant forall l :: 0 <= l < k ==> groups[i][l] in inCycle
      {
        inCycle := inCycle[groups[i][k] := i];
      }
    }
  }

  /** The pair keys to flag: those of a dependency that `p` picks. */
  ghost predicate FlagsOk(keys: seq<string>, p: (string, string) -> bool, flags: set<string>)
  {
    forall k :: k in flags <==> Flagged(keys, p, k)
  }

  ghost predicate Flagged(keys: seq<string>, p: (string, string) -> bool, k: string)
  {
    exists a, b :: Plain(a) && Plain(b) && DirKey(a, b) in keys && p(a, b) && k == PairKey(a, b)
  }

  ghost function InOneGroup(groups: seq<seq<string>>): (string, string) -> bool
  {
    (a, b) => Tarjan.InGroup(groups, a, b)
  }

  lemma FlagStep(keys: seq<string>, p: (string, string) -> bool, flags: set<string>, a: string, b: string)
    requires FlagsOk(keys, p, flags) && Plain(a) && Plain(b)
    ensures FlagsOk(keys + [DirKey(a, b)], p, if p(a, b) then flags + {PairKey(a, b)} else flags)
  {
    hide PairKey;
    assert Plain(a) && Plain(b);
    hide Plain;
    var keys' := keys + [DirKey(a, b)];
    forall k ensures Flagged(keys', p, k) <==> Flagged(keys, p, k) || (p(a, b) && k == PairKey(a, b))
    {
      if Flagged(keys', p, k) {
        var c, d :| Plain(c) && Plain(d) && DirKey(c, d) in keys' && p(c, d) && k == PairKey(c, d);
        if DirKey(c, d) == DirKey(a, b) { DirKeyInjective(a, b, c, d); }
      }
      if p(a, b) && k == PairKey(a, b) {
        assert DirKey(a, b) in keys';
      }
    }
  }

  /** The cycle groups of the dependency graph, and the pair keys of the edges inside them. */
  method ComputeCycles(directed: Map<string, nat>, ids: seq<string>)
    returns (cycles: seq<seq<string>>, cyclicPairs: set<string>, ghost adj: Graph<string>)
    requires forall k :: k in directed.keys ==> IsDirKey(k)
    ensures AdjacencyOf(directed.keys, adj)
    ensures Tarjan.CycleGroups(adj, ids, cycles)
    ensures forall i :: 0 <= i < |cycles| ==> Sorted(cycles[i])
    ensures FlagsOk(directed.keys, InOneGroup(cycles), cyclicPairs)
  {
    var keys := directed.keys;
    hide AdjacencyOf, FlagsOk, GroupTable, Tarjan.InGroup, PairKey, DirKey;
    var graph: Graph<string> := map[];
    NoKeys();
    for i := 0 to |keys|
      invariant AdjacencyOf(keys[..i], graph)
    {
      assert keys[..i + 1] == keys[..i] + [keys[i]];
      ghost var c, d := KeyEnds(keys[i]);
      var ends := Split(keys[i], "||");
      var a, b := ends[0], ends[1];
      AddDependencyOk(keys[..i], graph, a, b);
      graph := AddDependency(graph, a, b);
    }
    assert keys[..|keys|] == keys;
    adj := graph;
    ghost var order, taken;
    cycles, order, taken := Tarjan.StronglyConnectedCycles(ids, graph, Sort);
    GroupsSorted(cycles);
    var inCycle := NumberGroups(cycles);
    cyclicPairs := {};
    NoFlags(InOneGroup(cycles));
    for i := 0 to |keys|
      invariant FlagsOk(keys[..i], InOneGroup(cycles), cyclicPairs)
    {
      assert keys[..i + 1] == keys[..i] + [keys[i]];
      ghost var c, d := KeyEnds(keys[i]);
      var ends := Split(keys[i], "||");
      var a, b := ends[0], ends[1];
      TableMeansGroup(cycles, inCycle, a, b);
      FlagStep(keys[..i], InOneGroup(cycles), cyclicPairs, a, b);
      if a in inCycle && b in inCycle && inCycle[a] == inCycle[b] {
        cyclicPairs := cyclicPairs + {PairKey(a, b)};
      }
    }
  }

  lemma NoKeys()
    ensures AdjacencyOf([], map[])
  {
  }

  lemma NoFlags(p: (string, string) -> bool)
    ensures FlagsOk([], p, {})
  {
  }

  lemma KeyEnds(k: string) returns (a: string, b: string)
    requires IsDirKey(k)
    ensures Split(k, "||") == [a, b] && Plain(a) && Plain(b) && k == DirKey(a, b)
  {
    a, b :| Plain(a) && Plain(b) && k == DirKey(a, b);
    DirKeySplit(a, b);
  }

  lemma GroupsSorted(groups: seq<seq<string>>)
    requires forall i :: 0 <= i < |groups| ==> Tarjan.Arranged(Sort, groups[i])
    ensures forall i :: 0 <= i < |groups| ==> Sorted(groups[i])
  {
    forall i | 0 <= i < |groups| ensures Sorted(groups[i]) {
      assert Tarjan.Arranged(Sort, groups[i]);
      var c :| groups[i] == Sort(c);
      SortSorted(c);
    }
  }

  // ---- Layer inversions -------------------------------------------------------------------

  /** `a` is more foundational than `b` by two layers or more, and not infrastructure. */
  predicate Inverts(layers: map<string, Layer>, a: string, b: string)
  {
    a in layers && b in layers && layers[a].rank != 5 && layers[a].rank - layers[b].rank >= 2
  }

  ghost function Inverting(layers: map<string, Layer>): (string, string) -> bool
  {
    (a, b) => Inverts(layers, a, b)
  }

  /** The pair keys of the dependencies on a layer two or more above. */
  method ViolationPairs(directed: Map<string, nat>, layers: map<string, Layer>) returns (violationPairs: set<string>)
    requires forall k :: k in directed.keys ==> IsDirKey(k)
    ensures FlagsOk(directed.keys, Inverting(layers), violationPairs)
  {
    var keys := directed.keys;
    hide FlagsOk, PairKey, DirKey, IsDirKey;
    violationPairs := {};
    NoFlags(Inverting(layers));
    for i := 0 to |keys|
      invariant FlagsOk(keys[..i], Inverting(layers), violationPairs)
    {
      assert keys[..i + 1] == keys[..i] + [keys[i]];
      ghost var c, d := KeyEnds(keys[i]);
      var ends := Split(keys[i], "||");
      var a, b := ends[0], ends[1];
      FlagStep(keys[..i], Inverting(layers), violationPairs, a, b);
      if a !in layers || b !in layers { continue; }
      if layers[a].rank == 5 { continue; }
      if layers[a].rank - layers[b].rank >= 2 {
        violationPairs := violationPairs + {PairKey(a, b)};
      }
    }
    assert keys[..|keys|] == keys;
  }

  // ---- The edges of the map -------------------------------------------------------------

  /** `deps` has an edge exactly for each direct dependency. */
  ghost predicate DependencyGraph(m: Membership, es: seq<FileEdge>, deps: Graph<string>)
  {
    forall a, b :: b in Succ(deps, a) <==> Depends(m, es, a, b)
  }

  /** Some direct dependency between the two communities lies on a directed cycle. */
  ghost predicate OnCycle(deps: Graph<string>, a: string, b: string)
  {
    (b in Succ(deps, a) && Reaches(deps, b, a)) || (a in Succ(deps, b) && Reaches(deps, a, b))
  }

  lemma AdjacencyIsDependency(m: Membership, es: seq<FileEdge>, directed: Map<string, nat>, adj: Graph<string>)
    requires PlainMembership(m) && DirectedOk(m, es, directed) && AdjacencyOf(directed.keys, adj)
    ensures DependencyGraph(m, es, adj)
  {
    hide IsDirKey;
    forall a, b ensures b in Succ(adj, a) <==> Depends(m, es, a, b) {
      if Depends(m, es, a, b) {
        var e :| e in es && Crosses(m, e, a, b);
        assert Plain(m[e.source]) && Plain(m[e.target]);
        assert DirKey(a, b) in directed.at;
        assert DirKey(a, b) in directed.keys;
      }
      if b in Succ(adj, a) {
        assert Plain(a) && Plain(b);
        assert DirKey(a, b) in directed.keys;
        assert DirKey(a, b) in directed.at;
      }
    }
  }

  /** A dependency is inside a cycle group exactly when its target leads back to its source. */
  lemma GroupMeansCycle(deps: Graph<string>, ids: seq<string>, cycles: seq<seq<string>>, a: string, b: string)
    requires Tarjan.CycleGroups(deps, ids, cycles) && a in ids && a != b && b in Succ(deps, a)
    ensures Tarjan.InGroup(cycles, a, b) <==> Reaches(deps, b, a)
  {
    hide Reaches, Tarjan.InGroup;
    ReachesSelf(deps, a);
    ReachesStep(deps, a, b);
    assert ReachedFrom(deps, ids, a);
  }

  /** A pair is flagged exactly when a direct dependency between its ends is picked. */
  lemma FlagMeans(
    m: Membership, es: seq<FileEdge>, keys: seq<string>, deps: Graph<string>,
    p: (string, string) -> bool, flags: set<string>, a: string, b: string)
    requires DependencyGraph(m, es, deps) && AdjacencyOf(keys, deps) && FlagsOk(keys, p, flags)
    requires Plain(a) && Plain(b) && a != b
    ensures PairKey(a, b) in flags <==> (b in Succ(deps, a) && p(a, b)) || (a in Succ(deps, b) && p(b, a))
  {
    hide PairKey, DirKey, Plain;
    PairKeyInjective(a, b, b, a);
    if PairKey(a, b) in flags {
      assert Flagged(keys, p, PairKey(a, b));
      var c, d :| Plain(c) && Plain(d) && DirKey(c, d) in keys && p(c, d) && PairKey(a, b) == PairKey(c, d);
      assert d in Succ(deps, c) && Depends(m, es, c, d);
      PairKeyInjective(a, b, c, d);
    }
    if b in Succ(deps, a) && p(a, b) { assert Flagged(keys, p, PairKey(a, b)); }
    if a in Succ(deps, b) && p(b, a) { assert Flagged(keys, p, PairKey(a, b)); }
  }

  lemma FlagMeansCycle(
    m: Membership, es: seq<FileEdge>, ids: seq<string>, keys: seq<string>, deps: Graph<string>,
    cycles: seq<seq<string>>, flags: set<string>, a: string, b: string)
    requires DependencyGraph(m, es, deps) && AdjacencyOf(keys, deps) && forall f :: f in m ==> m[f] in ids
    requires Tarjan.CycleGroups(deps, ids, cycles) && FlagsOk(keys, InOneGroup(cycles), flags)
    requires Plain(a) && Plain(b) && a != b
    ensures PairKey(a, b) in flags <==> OnCycle(deps, a, b)
  {
    hide Reaches, Tarjan.InGroup, Tarjan.CycleGroups, PairKey, DirKey, Plain, FlagsOk, AdjacencyOf;
    FlagMeans(m, es, keys, deps, InOneGroup(cycles), flags, a, b);
    if b in Succ(deps, a) {
      assert Depends(m, es, a, b);
      GroupMeansCycle(deps, ids, cycles, a, b);
    }
    if a in Succ(deps, b) {
      assert Depends(m, es, b, a);
      GroupMeansCycle(deps, ids, cycles, b, a);
    }
  }

  /** A dependency leads from a layer to one that is two or more less foundational; from layer 5,
      infrastructure, it may. */
  ghost predicate LeadsUp(deps: Graph<string>, layers: map<string, Layer>, a: string, b: string)
  {
    b in Succ(deps, a) && a in layers && b in layers && layers[b].rank + 2 <= layers[a].rank && layers[a].rank != 5
  }

  /** In either direction. */
  ghost predicate Violates(deps: Graph<string>, layers: map<string, Layer>, a: string, b: string)
  {
    LeadsUp(deps, layers, a, b) || LeadsUp(deps, layers, b, a)
  }

  lemma FlagMeansViolation(
    m: Membership, es: seq<FileEdge>, keys: seq<string>, deps: Graph<string>,
    layers: map<string, Layer>, flags: set<string>, a: string, b: string)
    requires DependencyGraph(m, es, deps) && AdjacencyOf(keys, deps) && FlagsOk(keys, Inverting(layers), flags)
    requires Plain(a) && Plain(b) && a != b
    ensures PairKey(a, b) in flags <==> Violates(deps, layers, a, b)
  {
    hide PairKey, DirKey, Plain, FlagsOk, AdjacencyOf, DependencyGraph;
    FlagMeans(m, es, keys, deps, Inverting(layers), flags, a, b);
  }

  function SumWeights(edges: seq<CommunityEdge>): nat
  {
    if edges == [] then 0 else SumWeights(edges[..|edges| - 1]) + edges[|edges| - 1].weight
  }

  /** One undirected edge, with the weight of its pair and its flags. */
  ghost predicate EdgeOk(
    m: Membership, es: seq<FileEdge>, deps: Graph<string>, layers: map<string, Layer>, e: CommunityEdge)
  {
    && Plain(e.source) && Plain(e.target) && Less(e.source, e.target)
    && e.weight == PairCount(m, es, e.source, e.target) > 0
    && (e.cyclic <==> OnCycle(deps, e.source, e.target))
    && (e.violation <==> Violates(deps, layers, e.source, e.target))
  }

  /** The edges of the architecture map: one for each pair of communities with a
      dependency in either direction. */
  ghost predicate MapOk(
    m: Membership, es: seq<FileEdge>, deps: Graph<string>, layers: map<string, Layer>, edges: seq<CommunityEdge>)
  {
    && (forall i :: 0 <= i < |edges| ==> EdgeOk(m, es, deps, layers, edges[i]))
    && (forall i, j :: 0 <= i < j < |edges| ==>
      edges[i].source != edges[j].source || edges[i].target != edges[j].target)
    && (forall a, b :: Depends(m, es, a, b) ==> HasEdge(edges, a, b))
    && SumWeights(edges) == CrossCount(m, es)
  }

  ghost predicate HasEdge(edges: seq<CommunityEdge>, a: string, b: string)
  {
    exists i :: 0 <= i < |edges| && ((edges[i].source == a && edges[i].target == b) ||
      (edges[i].source == b && edges[i].target == a))
  }

  /** `edges` renders the first entries of the undirected counter. */
  ghost predicate Rendered(keys: seq<string>, weights: Map<string, nat>, edges: seq<CommunityEdge>)
  {
    && |edges| == |keys|
    && forall i :: 0 <= i < |keys| ==>
         && Plain(edges[i].source) && Plain(edges[i].target) && Less(edges[i].source, edges[i].target)
         && keys[i] == PairKey(edges[i].source, edges[i].target)
         && edges[i].weight == weights.Get(keys[i], 0)
  }

  lemma {:induction false} RenderedSum(keys: seq<string>, weights: Map<string, nat>, edges: seq<CommunityEdge>)
    requires Rendered(keys, weights, edges)
    ensures SumWeights(edges) == Sum(keys, weights.at)
  {
    hide PairKey, Plain, Less;
    if keys != [] {
      RenderedSum(keys[..|keys| - 1], weights, edges[..|edges| - 1]);
    }
  }

  lemma PairKeyEnds(k: string) returns (a: string, b: string)
    requires IsPairKey(k)
    ensures Split(k, "|") == [a, b] && Plain(a) && Plain(b) && Less(a, b) && k == PairKey(a, b)
  {
    a, b :| Plain(a) && Plain(b) && Less(a, b) && k == PairKey(a, b);
    LessTotal(a, b);
    PairKeySplit(a, b);
  }

  lemma LessDiffer(a: string, b: string)
    requires Less(a, b)
    ensures a != b
  {
    LessTotal(a, b);
  }

  lemma CounterKeys(m: Membership, es: seq<FileEdge>, weights: Map<string, nat>, directed: Map<string, nat>)
    requires WeightsOk(m, es, weights) && DirectedOk(m, es, directed)
    ensures forall k :: k in directed.keys ==> IsDirKey(k)
    ensures forall i :: 0 <= i < |weights.keys| ==> weights.keys[i] in weights.at && IsPairKey(weights.keys[i])
  {
    hide IsDirKey, IsPairKey, CountsPairs, Total;
  }

  lemma NoneRendered(weights: Map<string, nat>)
    ensures Rendered(weights.keys[..0], weights, [])
  {
  }

  lemma RenderedMore(weights: Map<string, nat>, edges: seq<CommunityEdge>, i: nat, e: CommunityEdge)
    requires i < |weights.keys| && |edges| == i && Rendered(weights.keys[..i], weights, edges)
    requires weights.keys[i] in weights.at && Plain(e.source) && Plain(e.target) && Less(e.source, e.target)
    requires weights.keys[i] == PairKey(e.source, e.target) && e.weight == weights.at[weights.keys[i]]
    ensures Rendered(weights.keys[..i + 1], weights, edges + [e])
  {
    hide Plain, PairKey, Less;
    var keys, more := weights.keys[..i], weights.keys[..i + 1];
    forall j | 0 <= j < i ensures more[j] == keys[j] && (edges + [e])[j] == edges[j] {}
  }

  lemma RenderedHasEdge(
    m: Membership, es: seq<FileEdge>, weights: Map<string, nat>, edges: seq<CommunityEdge>, a: string, b: string)
    requires PlainMembership(m) && WeightsOk(m, es, weights) && Rendered(weights.keys, weights, edges)
    requires Depends(m, es, a, b)
    ensures HasEdge(edges, a, b)
  {
    assert Plain(a) && Plain(b);
    hide Plain, PairKey, Less, Total;
    PairCountPositive(m, es, a, b);
    assert weights.Get(PairKey(a, b), 0) > 0;
    assert PairKey(a, b) in weights.keys;
    var i :| 0 <= i < |weights.keys| && weights.keys[i] == PairKey(a, b);
    LessTotal(edges[i].source, edges[i].target);
    PairKeyInjective(a, b, edges[i].source, edges[i].target);
  }

  /** Both flags of an edge say what they should. */
  ghost predicate FlagsRight(deps: Graph<string>, layers: map<string, Layer>, e: CommunityEdge)
  {
    && (e.cyclic <==> OnCycle(deps, e.source, e.target))
    && (e.violation <==> Violates(deps, layers, e.source, e.target))
  }

  lemma RenderedMap(
    m: Membership, es: seq<FileEdge>, deps: Graph<string>, layers: map<string, Layer>,
    weights: Map<string, nat>, edges: seq<CommunityEdge>)
    requires PlainMembership(m) && WeightsOk(m, es, weights) && Rendered(weights.keys, weights, edges)
    requires forall i :: 0 <= i < |edges| ==> FlagsRight(deps, layers, edges[i])
    ensures MapOk(m, es, deps, layers, edges)
  {
    hide Plain, PairKey, OnCycle, Violates, Less;
    RenderedSum(weights.keys, weights, edges);
    forall i | 0 <= i < |edges| ensures EdgeOk(m, es, deps, layers, edges[i]) {
      LessTotal(edges[i].source, edges[i].target);
      assert weights.keys[i] in weights.at;
    }
    forall a, b | Depends(m, es, a, b) ensures HasEdge(edges, a, b) {
      RenderedHasEdge(m, es, weights, edges, a, b);
    }
  }

  // ---- The order of display ---------------------------------------------------------------

  function Ends(e: CommunityEdge): (string, string)
  {
    (e.source, e.target)
  }

  /** The heaviest edges first, and of equal ones the one whose source `less` puts first. */
  function DisplayOrder(less: (string, string) -> bool): (CommunityEdge, CommunityEdge) -> bool
  {
    (x: CommunityEdge, y: CommunityEdge) => x.weight > y.weight || (x.weight == y.weight && less(x.source, y.source))
  }

  lemma DisplayIsWeakOrder(less: (string, string) -> bool)
    requires WeakOrder(less)
    ensures WeakOrder(DisplayOrder(less))
  {
    var before := DisplayOrder(less);
    forall x, y | before(x, y) ensures !before(y, x) {
      assert less(x.source, y.source) ==> !less(y.source, x.source);
    }
    forall x, y, z | before(x, z) ensures before(x, y) || before(y, z) {
      assert less(x.source, z.source) ==> less(x.source, y.source) || less(y.source, z.source);
    }
  }

  lemma {:induction false} SumFront(x: CommunityEdge, s: seq<CommunityEdge>)
    ensures SumWeights([x] + s) == x.weight + SumWeights(s)
  {
    if s == [] {
      assert [x] + s == [x] && [x][..0] == [];
    } else {
      assert ([x] + s)[..|s|] == [x] + s[..|s| - 1];
      SumFront(x, s[..|s| - 1]);
    }
  }

  lemma {:induction false} SumInsert(
    x: CommunityEdge, s: seq<CommunityEdge>, before: (CommunityEdge, CommunityEdge) -> bool)
    ensures SumWeights(InsertBy(x, s, before)) == x.weight + SumWeights(s)
  {
    hide SumWeights;
    if s != [] && before(s[0], x) {
      SumInsert(x, s[1..], before);
      SumFront(s[0], InsertBy(x, s[1..], before));
      SumFront(s[0], s[1..]);
      assert s == [s[0]] + s[1..];
    } else {
      SumFront(x, s);
      assert [x] + [] == [x];
    }
  }

  lemma {:induction false} SumSorted(s: seq<CommunityEdge>, before: (CommunityEdge, CommunityEdge) -> bool)
    ensures SumWeights(SortBy(s, before)) == SumWeights(s)
  {
    hide SumWeights;
    if s != [] {
      SumSorted(s[1..], before);
      SumInsert(s[0], SortBy(s[1..], before), before);
      SumFront(s[0], s[1..]);
      assert s == [s[0]] + s[1..];
    }
  }

  /** The order of the edges does not matter to what the map says. */
  lemma MapPermuted(
    m: Membership, es: seq<FileEdge>, deps: Graph<string>, layers: map<string, Layer>,
    edges: seq<CommunityEdge>, sorted: seq<CommunityEdge>)
    requires MapOk(m, es, deps, layers, edges) && multiset(sorted) == multiset(edges) &&
      SumWeights(sorted) == SumWeights(edges)
    ensures MapOk(m, es, deps, layers, sorted)
  {
    hide EdgeOk, SumWeights;
    assert DistinctBy(edges, Ends);
    DistinctByPermuted(edges, sorted, Ends);
    forall i | 0 <= i < |sorted| ensures EdgeOk(m, es, deps, layers, sorted[i]) {
      assert sorted[i] in multiset(edges);
    }
    forall a, b | Depends(m, es, a, b) ensures HasEdge(sorted, a, b) {
      var i :| 0 <= i < |edges| && ((edges[i].source == a && edges[i].target == b) ||
        (edges[i].source == b && edges[i].target == a));
      assert edges[i] in multiset(sorted);
      var j :| 0 <= j < |sorted| && sorted[j] == edges[i];
    }
  }

  function PairKeys(edges: seq<CommunityEdge>): (r: seq<string>)
    ensures |r| == |edges| && forall i :: 0 <= i < |r| ==> r[i] == PairKey(edges[i].source, edges[i].target)
  {
    seq(|edges|, i requires 0 <= i < |edges| => PairKey(edges[i].source, edges[i].target))
  }

  lemma RenderedKeys(weights: Map<string, nat>, edges: seq<CommunityEdge>)
    requires Rendered(weights.keys, weights, edges)
    ensures PairKeys(edges) == weights.keys
  {
    hide PairKey, Plain, Less;
  }

  /** The inter-community edges of `listCommunities` in the order of display, with the cycle
      groups of the communities. */
  method MapEdges(
    m: Membership, es: seq<FileEdge>, ids: seq<string>, layers: map<string, Layer>, less: (string, string) -> bool)
    returns (edges: seq<CommunityEdge>, cycles: seq<seq<string>>)
    requires PlainMembership(m) && WeakOrder(less) && forall f :: f in m ==> m[f] in ids
    ensures exists deps: Graph<string> ::
      DependencyGraph(m, es, deps) && Tarjan.CycleGroups(deps, ids, cycles) && MapOk(m, es, deps, layers, edges)
    ensures exists met :: PairKeys(met) == PairsMet(m, es) && Ranked(met, edges, DisplayOrder(less))
    ensures Displayed(edges, less)
  {
    hide *;
    ghost var deps: Graph<string>;
    var weights, directed := AggregateEdges(m, es);
    CounterKeys(m, es, weights, directed);
    var flags, violations: set<string>;
    cycles, flags, deps := ComputeCycles(directed, ids);
    violations := ViolationPairs(directed, layers);
    AdjacencyIsDependency(m, es, directed, deps);
    edges := [];
    NoneRendered(weights);
    for i := 0 to |weights.keys|
      invariant |edges| == i && Rendered(weights.keys[..i], weights, edges)
      invariant forall j :: 0 <= j < |edges| ==> FlagsRight(deps, layers, edges[j])
    {
      var k := weights.keys[i];
      ghost var a, b := PairKeyEnds(k);
      var ends := Split(k, "|");
      LessDiffer(a, b);
      FlagMeansCycle(m, es, ids, directed.keys, deps, cycles, flags, a, b);
      FlagMeansViolation(m, es, directed.keys, deps, layers, violations, a, b);
      var e := CommunityEdge(ends[0], ends[1], weights.at[k], k in flags, k in violations);
      RenderedMore(weights, edges, i, e);
      RightFlags(deps, layers, e);
      edges := edges + [e];
    }
    assert weights.keys[..|weights.keys|] == weights.keys;
    RenderedMap(m, es, deps, layers, weights, edges);
    RenderedKeys(weights, edges);
    ghost var met := edges;
    edges := SortBy(edges, DisplayOrder(less));
    DisplayIsWeakOrder(less);
    SortRanks(met, DisplayOrder(less));
    RankedDisplays(met, edges, less);
    SumSorted(met, DisplayOrder(less));
    MapPermuted(m, es, deps, layers, met, edges);
  }

  /** Weights fall, and of equal ones no later source comes before an earlier one. */
  ghost predicate Displayed(edges: seq<CommunityEdge>, less: (string, string) -> bool)
  {
    forall i, j :: 0 <= i < j < |edges| ==>
      edges[i].weight >= edges[j].weight &&
      (edges[i].weight == edges[j].weight ==> !less(edges[j].source, edges[i].source))
  }

  lemma RankedDisplays(met: seq<CommunityEdge>, edges: seq<CommunityEdge>, less: (string, string) -> bool)
    requires Ranked(met, edges, DisplayOrder(less))
    ensures Displayed(edges, less)
  {
    hide Peers;
    forall i, j | 0 <= i < j < |edges|
      ensures edges[i].weight >= edges[j].weight
      ensures edges[i].weight == edges[j].weight ==> !less(edges[j].source, edges[i].source)
    {
      assert !DisplayOrder(less)(edges[j], edges[i]);
    }
  }

  lemma RightFlags(deps: Graph<string>, layers: map<string, Layer>, e: CommunityEdge)
    requires e.cyclic <==> OnCycle(deps, e.source, e.target)
    requires e.violation <==> Violates(deps, layers, e.source, e.target)
    ensures FlagsRight(deps, layers, e)
  {
  }
}
