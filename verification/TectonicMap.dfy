/** The module topology: cross-module edges, aggregated per pair of modules. */
module TectonicMap {
  import opened Options
  import opened Strings
  import opened OrderedMaps
  import opened Sorting
  import opened BlastRadius
  import opened Coupling

  const ARROW := "\U{2192}"

  function Key(a: string, b: string): string
  {
    a + ARROW + b
  }

  datatype TectonicEdge = TectonicEdge(fromModule: string, toModule: string, weight: nat, byKind: Map<string, nat>)

  function KeyOf(e: TectonicEdge): string
  {
    Key(e.fromModule, e.toModule)
  }

  // ---- Counts --------------------------------------------------------------------------

  function Keyed(env: Env, rs: seq<Relation>, key: string): nat
  {
    if rs == [] then 0
    else
      var r := rs[|rs| - 1];
      Keyed(env, rs[..|rs| - 1], key) + if Crosses(env, r) && Key(Source(env, r), Target(env, r)) == key then 1 else 0
  }

  function KeyedKind(env: Env, rs: seq<Relation>, key: string, kind: string): nat
  {
    if rs == [] then 0
    else
      var r := rs[|rs| - 1];
      KeyedKind(env, rs[..|rs| - 1], key, kind) +
      if Crosses(env, r) && Key(Source(env, r), Target(env, r)) == key && r.kind == kind then 1 else 0
  }

  /** The edges from one module to another. */
  function Between(env: Env, rs: seq<Relation>, a: string, b: string): nat
  {
    if rs == [] then 0
    else
      var r := rs[|rs| - 1];
      Between(env, rs[..|rs| - 1], a, b) + if Crosses(env, r) && Source(env, r) == a && Target(env, r) == b then 1
        else 0
  }

  // ---- The aggregation -----------------------------------------------------------------

  /** An entry counts what has its key, in all and per kind; the kinds add up to the weight. */
  ghost predicate EdgeOk(env: Env, rs: seq<Relation>, e: TectonicEdge)
  {
    && e.weight == Keyed(env, rs, KeyOf(e)) && e.byKind.Ok() && Total(e.byKind) == e.weight
    && (forall kind :: e.byKind.Get(kind, 0) == KeyedKind(env, rs, KeyOf(e), kind))
    && exists r :: r in rs && Crosses(env, r) && Source(env, r) == e.fromModule && Target(env, r) == e.toModule
  }

  ghost predicate MapOk(env: Env, rs: seq<Relation>, m: Map<string, TectonicEdge>)
  {
    && m.Ok() && (forall k :: k in m.at ==> KeyOf(m.at[k]) == k && EdgeOk(env, rs, m.at[k]))
    && forall r :: r in rs && Crosses(env, r) ==> Key(Source(env, r), Target(env, r)) in m.at
  }

  function Bumped(e: TectonicEdge, kind: string): TectonicEdge
  {
    e.(weight := e.weight + 1, byKind := e.byKind.Set(kind, e.byKind.Get(kind, 0) + 1))
  }

  lemma NoneKeyed(env: Env, rs: seq<Relation>, key: string)
    requires forall r :: r in rs && Crosses(env, r) ==> Key(Source(env, r), Target(env, r)) != key
    ensures Keyed(env, rs, key) == 0 && forall kind :: KeyedKind(env, rs, key, kind) == 0
  {
    if rs != [] {
      assert rs[|rs| - 1] in rs;
      NoneKeyed(env, rs[..|rs| - 1], key);
    }
  }

  lemma CountsStep(env: Env, rs: seq<Relation>, r: Relation, key: string)
    requires Crosses(env, r) && Key(Source(env, r), Target(env, r)) == key
    ensures Keyed(env, rs + [r], key) == Keyed(env, rs, key) + 1
    ensures forall kind ::
      KeyedKind(env, rs + [r], key, kind) == KeyedKind(env, rs, key, kind) +
      if r.kind == kind then 1 else 0
  {
    assert (rs + [r])[..|rs|] == rs;
  }

  lemma OneKind(kind: string)
    ensures var m: Map<string, nat> := Map([kind], map[kind := 1]);
      m.Ok() && Total(m) == 1 && forall k :: m.Get(k, 0) == if k == kind then 1 else 0
  {
    var none: Map<string, nat> := Empty();
    TotalSet(none, kind, 1);
    assert none.Set(kind, 1) == Map([kind], map[kind := 1]);
  }

  lemma BumpOk(env: Env, rs: seq<Relation>, r: Relation, e: TectonicEdge)
    requires EdgeOk(env, rs, e) && Crosses(env, r) && Key(Source(env, r), Target(env, r)) == KeyOf(e)
    ensures EdgeOk(env, rs + [r], Bumped(e, r.kind))
  {
    CountsStep(env, rs, r, KeyOf(e));
    TotalSet(e.byKind, r.kind, e.byKind.Get(r.kind, 0) + 1);
    SetOk(e.byKind, r.kind, e.byKind.Get(r.kind, 0) + 1);
    var q :| q in rs && Crosses(env, q) && Source(env, q) == e.fromModule && Target(env, q) == e.toModule;
    hide Crosses, Key, Total, Keyed, KeyedKind;
    var b := Bumped(e, r.kind);
    assert q in rs + [r] && Source(env, q) == b.fromModule && Target(env, q) == b.toModule;
    hide Source, Target, Sum;
    BumpedKinds(e, r.kind);
  }

  lemma BumpedKinds(e: TectonicEdge, kind: string)
    ensures forall k ::
      Bumped(e, kind).byKind.Get(k, 0) == e.byKind.Get(k, 0) + if k == kind then 1 else 0
  {
  }

  lemma FirstOk(env: Env, rs: seq<Relation>, r: Relation)
    requires Crosses(env, r)
    requires forall q :: q in rs && Crosses(env, q) ==>
      Key(Source(env, q), Target(env, q)) != Key(Source(env, r), Target(env, r))
    ensures EdgeOk(env, rs + [r], TectonicEdge(Source(env, r), Target(env, r), 1, Map([r.kind], map[r.kind := 1])))
  {
    NoneKeyed(env, rs, Key(Source(env, r), Target(env, r)));
    CountsStep(env, rs, r, Key(Source(env, r), Target(env, r)));
    assert [r.kind][..0] == [] && r in rs + [r];
    var byKind: Map<string, nat> := Map([r.kind], map[r.kind := 1]);
    OneKind(r.kind);
    hide Crosses, Key, Keyed, KeyedKind, Total;
    var e := TectonicEdge(Source(env, r), Target(env, r), 1, byKind);
    assert Source(env, r) == e.fromModule && Target(env, r) == e.toModule;
  }

  lemma OtherOk(env: Env, rs: seq<Relation>, r: Relation, e: TectonicEdge)
    requires EdgeOk(env, rs, e) && (Crosses(env, r) ==> Key(Source(env, r), Target(env, r)) != KeyOf(e))
    ensures EdgeOk(env, rs + [r], e)
  {
    assert (rs + [r])[..|rs|] == rs;
    var q :| q in rs && Crosses(env, q) && Source(env, q) == e.fromModule && Target(env, q) == e.toModule;
    assert q in rs + [r];
    hide Crosses, Key, Total;
  }

  /** One relation, as the loop of `tectonicMap` treats it. */
  function AddRelation(env: Env, m: Map<string, TectonicEdge>, r: Relation): Map<string, TectonicEdge>
  {
    if !Crosses(env, r) then m
    else
      var key := Key(Source(env, r), Target(env, r));
      m.Set(key, if key in m.at then Bumped(m.at[key], r.kind)
                 else TectonicEdge(Source(env, r), Target(env, r), 1, Map([r.kind], map[r.kind := 1])))
  }

  lemma AddKeepsMap(env: Env, rs: seq<Relation>, m: Map<string, TectonicEdge>, r: Relation)
    requires MapOk(env, rs, m)
    ensures MapOk(env, rs + [r], AddRelation(env, m, r))
  {
    hide EdgeOk;
    var m' := AddRelation(env, m, r);
    forall k | k in m'.at ensures KeyOf(m'.at[k]) == k && EdgeOk(env, rs + [r], m'.at[k]) {
      if Crosses(env, r) && k == Key(Source(env, r), Target(env, r)) {
        if k in m.at { BumpOk(env, rs, r, m.at[k]); } else { FirstOk(env, rs, r); }
      } else {
        OtherOk(env, rs, r, m.at[k]);
      }
    }
    if Crosses(env, r) {
      var key := Key(Source(env, r), Target(env, r));
      SetOk(m, key, m'.at[key]);
    }
  }

  /** The aggregated edges: one per key that a cross-module relation has. */
  ghost predicate Aggregated(env: Env, rs: seq<Relation>, edges: seq<TectonicEdge>)
  {
    && (forall e :: e in edges ==> EdgeOk(env, rs, e))
    && (forall i, j :: 0 <= i < j < |edges| ==> KeyOf(edges[i]) != KeyOf(edges[j]))
    && forall r :: r in rs && Crosses(env, r) ==>
      exists e :: e in edges && KeyOf(e) == Key(Source(env, r), Target(env, r))
  }

  /** The keys of the cross-module relations, in the order in which they are met. */
  function KeysMet(env: Env, rs: seq<Relation>): seq<string>
  {
    if rs == [] then []
    else
      var before, r := KeysMet(env, rs[..|rs| - 1]), rs[|rs| - 1];
      if !Crosses(env, r) then before
      else var key := Key(Source(env, r), Target(env, r)); if key in before then before else before + [key]
  }

  lemma AddMeets(env: Env, rs: seq<Relation>, m: Map<string, TectonicEdge>, r: Relation)
    requires MapOk(env, rs, m) && m.keys == KeysMet(env, rs)
    ensures AddRelation(env, m, r).keys == KeysMet(env, rs + [r])
  {
    hide Key, EdgeOk, Bumped;
    assert (rs + [r])[..|rs|] == rs;
  }

  function Keys(edges: seq<TectonicEdge>): (r: seq<string>)
    ensures |r| == |edges| && forall i :: 0 <= i < |r| ==> r[i] == KeyOf(edges[i])
  {
    seq(|edges|, i requires 0 <= i < |edges| => KeyOf(edges[i]))
  }

  method AggregateEdges(env: Env, relations: seq<Relation>) returns (edges: seq<TectonicEdge>)
    ensures Aggregated(env, relations, edges) && Keys(edges) == KeysMet(env, relations)
  {
    hide MapOk, EdgeOk, KeysMet;
    var edgeMap: Map<string, TectonicEdge> := Empty();
    EmptyOk(env);
    for i := 0 to |relations|
      invariant MapOk(env, relations[..i], edgeMap) && edgeMap.keys == KeysMet(env, relations[..i])
    {
      var r := relations[i];
      assert relations[..i + 1] == relations[..i] + [r];
      AddKeepsMap(env, relations[..i], edgeMap, r);
      AddMeets(env, relations[..i], edgeMap, r);
      if r.kind !in env.kinds { continue; }
      if FileNode(r.source) { continue; }
      var from, to := ModuleOf(env, r.source), ModuleOf(env, r.target);
      if from.None? || to.None? || from.value == to.value { continue; }
      var key := Key(from.value, to.value);
      if key in edgeMap.at {
        edgeMap := edgeMap.Set(key, Bumped(edgeMap.at[key], r.kind));
      } else {
        edgeMap := edgeMap.Set(key, TectonicEdge(from.value, to.value, 1, Map([r.kind], map[r.kind := 1])));
      }
    }
    assert relations[..|relations|] == relations;
    ValuesOk(env, relations, edgeMap);
    edges := Values(edgeMap);
  }

  lemma EmptyOk(env: Env)
    ensures MapOk(env, [], Empty()) && KeysMet(env, []) == []
  {
  }

  function Values(m: Map<string, TectonicEdge>): (r: seq<TectonicEdge>)
    requires forall k :: k in m.keys ==> k in m.at
    ensures |r| == |m.keys| && forall i :: 0 <= i < |r| ==> r[i] == m.at[m.keys[i]]
  {
    seq(|m.keys|, i requires 0 <= i < |m.keys| => m.at[m.keys[i]])
  }

  lemma ValuesOk(env: Env, rs: seq<Relation>, m: Map<string, TectonicEdge>)
    requires MapOk(env, rs, m)
    ensures forall k :: k in m.keys ==> k in m.at
    ensures Aggregated(env, rs, Values(m)) && Keys(Values(m)) == m.keys
  {
    hide EdgeOk;
    var edges := Values(m);
    forall e | e in edges ensures EdgeOk(env, rs, e) {
      var i :| 0 <= i < |edges| && edges[i] == e;
      assert m.keys[i] in m.keys;
    }
    forall i, j | 0 <= i < j < |edges| ensures KeyOf(edges[i]) != KeyOf(edges[j]) {
      assert m.keys[i] in m.keys && m.keys[j] in m.keys;
    }
    forall r | r in rs && Crosses(env, r)
      ensures exists e :: e in edges && KeyOf(e) == Key(Source(env, r), Target(env, r))
    {
      var k := Key(Source(env, r), Target(env, r));
      var i :| 0 <= i < |m.keys| && m.keys[i] == k;
      assert edges[i] in edges && KeyOf(edges[i]) == k;
    }
  }

  /** A relation that crosses from one module to another yields their names with the arrow
      between them, its key. */
  ghost predicate YieldsKey(env: Env, r: Relation, key: string)
  {
    exists a, b :: LeadsFromTo(env, r, a, b) && key == a + "\U{2192}" + b
  }

  lemma YieldsExactly(env: Env, r: Relation, key: string)
    ensures YieldsKey(env, r, key) <==> Crosses(env, r) && Key(Source(env, r), Target(env, r)) == key
  {
    hide Crosses, LeadsFromTo;
    if a, b :| LeadsFromTo(env, r, a, b) && key == a + "\U{2192}" + b { CrossesExactly(env, r, a, b); }
    if Crosses(env, r) { CrossesExactly(env, r, Source(env, r), Target(env, r)); }
  }

  ghost function GivesKey(env: Env): (Relation, string) -> bool
  {
    (r: Relation, key: string) => YieldsKey(env, r, key)
  }

  /** The edges are made in the order in which their keys are met. */
  lemma {:induction false} KeysExactly(env: Env, rs: seq<Relation>)
    ensures InOrderMet(rs, GivesKey(env), KeysMet(env, rs))
  {
    hide InOrderMet, Key, Crosses, YieldsKey;
    if rs == [] {
      MetNone(GivesKey(env));
    } else {
      var n := |rs| - 1;
      KeysExactly(env, rs[..n]);
      forall key
        ensures GivesKey(env)(rs[n], key) <==> Crosses(env, rs[n]) && Key(Source(env, rs[n]), Target(env, rs[n])) == key
      {
        YieldsExactly(env, rs[n], key);
      }
      assert rs[..n] + [rs[n]] == rs;
      MetMore(rs[..n], rs[n], GivesKey(env), KeysMet(env, rs[..n]), Crosses(env, rs[n]),
              if Crosses(env, rs[n]) then Key(Source(env, rs[n]), Target(env, rs[n])) else "");
    }
  }

  /** The weight of an edge is the number of relations that yield its key, and so for each kind. */
  lemma {:induction false} WeightExactly(env: Env, rs: seq<Relation>, key: string, kind: string)
    ensures Keyed(env, rs, key) == HowMany(rs, r => YieldsKey(env, r, key))
    ensures KeyedKind(env, rs, key, kind) == HowMany(rs, (r: Relation) => r.kind == kind && YieldsKey(env, r, key))
  {
    hide Key, Crosses, YieldsKey;
    if rs != [] {
      var n := |rs| - 1;
      WeightExactly(env, rs[..n], key, kind);
      YieldsExactly(env, rs[n], key);
      HowManyMore(rs, r => YieldsKey(env, r, key));
      HowManyMore(rs, (r: Relation) => r.kind == kind && YieldsKey(env, r, key));
      hide HowMany;
    }
  }

  // ---- What the weights mean -----------------------------------------------------------------

  /** No two pairs of modules with edges between them share a key. */
  ghost predicate NoSharedKey(env: Env, rs: seq<Relation>)
  {
    forall q, r ::
      (q in rs && r in rs && Crosses(env, q) && Crosses(env, r) &&
        Key(Source(env, q), Target(env, q)) == Key(Source(env, r), Target(env, r))) ==>
      Source(env, q) == Source(env, r) && Target(env, q) == Target(env, r)
  }

  lemma KeyInjective(a: string, b: string, c: string, d: string)
    requires ARROW[0] !in a && ARROW[0] !in b && ARROW[0] !in c && ARROW[0] !in d && Key(a, b) == Key(c, d)
    ensures a == c && b == d
  {
    SplitJoined(a, b, ARROW);
    SplitJoined(c, d, ARROW);
  }

  ghost predicate ArrowFree(env: Env)
  {
    forall id :: id in env.of ==> ARROW[0] !in env.of[id]
  }

  /** Module names without the arrow share no key. */
  lemma ArrowFreeSharesNone(env: Env, rs: seq<Relation>)
    requires ArrowFree(env)
    ensures NoSharedKey(env, rs)
  {
    forall q, r | q in rs && r in rs && Crosses(env, q) && Crosses(env, r)
      && Key(Source(env, q), Target(env, q)) == Key(Source(env, r), Target(env, r))
      ensures Source(env, q) == Source(env, r) && Target(env, q) == Target(env, r)
    {
      KeyInjective(Source(env, q), Target(env, q), Source(env, r), Target(env, r));
    }
  }

  lemma {:induction false} KeyedIsBetween(env: Env, rs: seq<Relation>, a: string, b: string)
    ensures Keyed(env, rs, Key(a, b)) >= Between(env, rs, a, b)
    ensures Keyed(env, rs, Key(a, b)) == Between(env, rs, a, b) <==>
            forall r :: r in rs && Crosses(env, r) && Key(Source(env, r), Target(env, r)) == Key(a, b) ==>
              Source(env, r) == a && Target(env, r) == b
  {
    hide Key;
    if rs != [] {
      var n := |rs| - 1;
      assert rs == rs[..n] + [rs[n]];
      KeyedIsBetween(env, rs[..n], a, b);
    }
  }

  /** Every weight is the number of relations between its two modules if and only if no two
      pairs of modules share a key. */
  lemma WeightsExactly(env: Env, rs: seq<Relation>, edges: seq<TectonicEdge>)
    requires Aggregated(env, rs, edges)
    ensures (forall e :: e in edges ==> e.weight == Between(env, rs, e.fromModule, e.toModule)) <==>
      NoSharedKey(env, rs)
  {
    hide Keyed, KeyedKind, Between, Key, Total;
    forall e | e in edges ensures e.weight == Between(env, rs, e.fromModule, e.toModule) <==> OnlyPair(env, rs, e) {
      KeyedIsBetween(env, rs, e.fromModule, e.toModule);
    }
    PairsExactly(env, rs, edges);
  }

  ghost predicate OnlyPair(env: Env, rs: seq<Relation>, e: TectonicEdge)
  {
    forall r :: r in rs && Crosses(env, r) && Key(Source(env, r), Target(env, r)) == KeyOf(e) ==>
      Source(env, r) == e.fromModule && Target(env, r) == e.toModule
  }

  lemma PairsExactly(env: Env, rs: seq<Relation>, edges: seq<TectonicEdge>)
    requires Aggregated(env, rs, edges)
    ensures (forall e :: e in edges ==> OnlyPair(env, rs, e)) <==> NoSharedKey(env, rs)
  {
    hide Crosses, Key, Keyed, KeyedKind, Total;
    if forall e :: e in edges ==> OnlyPair(env, rs, e) {
      forall q, r | q in rs && r in rs && Crosses(env, q) && Crosses(env, r)
        && Key(Source(env, q), Target(env, q)) == Key(Source(env, r), Target(env, r))
        ensures Source(env, q) == Source(env, r) && Target(env, q) == Target(env, r)
      {
        var e :| e in edges && KeyOf(e) == Key(Source(env, q), Target(env, q));
        assert OnlyPair(env, rs, e);
      }
    }
    if NoSharedKey(env, rs) {
      forall e | e in edges ensures OnlyPair(env, rs, e) {
        var q :| q in rs && Crosses(env, q) && Source(env, q) == e.fromModule && Target(env, q) == e.toModule;
      }
    }
  }

  /** Two pairs of modules that share a key, when module names have the arrow in them. */
  function ArrowEnv(): Env
  {
    Env(map["p" := "a", "q" := "b" + ARROW + "c", "r" := "a" + ARROW + "b", "s" := "c"], {"calls"})
  }

  function ArrowRelations(): seq<Relation>
  {
    [Relation("p", "q", "calls"), Relation("r", "s", "calls")]
  }

  lemma ArrowCrossings()
    ensures var env, q, r := ArrowEnv(), ArrowRelations()[0], ArrowRelations()[1];
      && Crosses(env, q) && Crosses(env, r) && Source(env, q) == "a" && Source(env, r) == "a" + ARROW + "b"
      && Key(Source(env, q), Target(env, q)) == Key(Source(env, r), Target(env, r))
  {
    assert "b" + ARROW + "c" != "a" && |"a" + ARROW + "b"| == 3;
    assert "a" + ARROW + ("b" + ARROW + "c") == ("a" + ARROW + "b") + ARROW + "c";
  }

  /** On them every aggregation gives some edge a weight that is not the number of relations
      between its modules. */
  lemma SharedKeyMiscounts(edges: seq<TectonicEdge>)
    requires Aggregated(ArrowEnv(), ArrowRelations(), edges)
    ensures exists e :: e in edges && e.weight != Between(ArrowEnv(), ArrowRelations(), e.fromModule, e.toModule)
  {
    ArrowCrossings();
    hide Crosses, Key, Between, Aggregated, ArrowEnv, Source, Target;
    var env, rs := ArrowEnv(), ArrowRelations();
    assert rs[0] in rs && rs[1] in rs;
    assert "a" != "a" + ARROW + "b";
    assert !NoSharedKey(env, rs);
    WeightsExactly(env, rs, edges);
  }

  function WeightFrom(edges: seq<TectonicEdge>, m: string): nat
  {
    if edges == [] then 0
    else var e := edges[|edges| - 1]; WeightFrom(edges[..|edges| - 1], m) + if e.fromModule == m then e.weight else 0
  }

  function WeightTo(edges: seq<TectonicEdge>, m: string): nat
  {
    if edges == [] then 0
    else var e := edges[|edges| - 1]; WeightTo(edges[..|edges| - 1], m) + if e.toModule == m then e.weight else 0
  }

  /** The relations between the pairs of a list, out of and into one module. */
  function BetweenFrom(env: Env, rs: seq<Relation>, edges: seq<TectonicEdge>, m: string): nat
  {
    if edges == [] then 0
    else
      var e := edges[|edges| - 1];
      BetweenFrom(env, rs, edges[..|edges| - 1], m) +
        if e.fromModule == m then Between(env, rs, e.fromModule, e.toModule) else 0
  }

  function BetweenTo(env: Env, rs: seq<Relation>, edges: seq<TectonicEdge>, m: string): nat
  {
    if edges == [] then 0
    else
      var e := edges[|edges| - 1];
      BetweenTo(env, rs, edges[..|edges| - 1], m) + if e.toModule == m then Between(env, rs, e.fromModule, e.toModule)
        else 0
  }

  ghost predicate PairsDiffer(edges: seq<TectonicEdge>)
  {
    forall i, j :: 0 <= i < j < |edges| ==>
      edges[i].fromModule != edges[j].fromModule ||
      edges[i].toModule != edges[j].toModule
  }

  ghost predicate HasPair(edges: seq<TectonicEdge>, a: string, b: string)
  {
    exists e :: e in edges && e.fromModule == a && e.toModule == b
  }

  lemma {:induction false} BetweenFromStep(env: Env, rs: seq<Relation>, edges: seq<TectonicEdge>, m: string)
    requires rs != [] && PairsDiffer(edges)
    ensures var r := rs[|rs| - 1];
      var hit := if Crosses(env, r) && HasPair(edges, Source(env, r), Target(env, r)) then 1 else 0;
      && BetweenFrom(env, rs, edges, m) == BetweenFrom(env, rs[..|rs| - 1], edges, m) +
        (if hit == 1 && Source(env, r) == m then 1 else 0)
      && BetweenTo(env, rs, edges, m) == BetweenTo(env, rs[..|rs| - 1], edges, m) +
        (if hit == 1 && Target(env, r) == m then 1 else 0)
  {
    hide Crosses;
    if edges != [] {
      var k := |edges| - 1;
      var r := rs[|rs| - 1];
      assert edges == edges[..k] + [edges[k]];
      BetweenFromStep(env, rs, edges[..k], m);
      if Crosses(env, r) {
        PairOnce(edges, Source(env, r), Target(env, r));
      }
    }
  }

  /** The last pair of a list is not among the ones before it. */
  lemma PairOnce(edges: seq<TectonicEdge>, a: string, b: string)
    requires edges != [] && PairsDiffer(edges)
    ensures var k := |edges| - 1;
      var last := edges[k].fromModule == a && edges[k].toModule == b;
      && (HasPair(edges, a, b) <==> HasPair(edges[..k], a, b) || last)
      && !(HasPair(edges[..k], a, b) && last)
  {
    var k := |edges| - 1;
    assert edges == edges[..k] + [edges[k]];
    if HasPair(edges[..k], a, b) {
      var e :| e in edges[..k] && e.fromModule == a && e.toModule == b;
      assert e in edges;
      var i :| 0 <= i < k && edges[i] == e;
    }
    if HasPair(edges, a, b) {
      var e :| e in edges && e.fromModule == a && e.toModule == b;
      assert e in edges[..k] || e == edges[k];
    }
  }

  lemma {:induction false} BetweenOfNothing(env: Env, edges: seq<TectonicEdge>, m: string)
    ensures BetweenFrom(env, [], edges, m) == 0 && BetweenTo(env, [], edges, m) == 0
  {
    if edges != [] { BetweenOfNothing(env, edges[..|edges| - 1], m); }
  }

  lemma {:induction false} BetweenAll(env: Env, rs: seq<Relation>, edges: seq<TectonicEdge>, m: string)
    requires PairsDiffer(edges)
    requires forall r :: r in rs && Crosses(env, r) ==> HasPair(edges, Source(env, r), Target(env, r))
    ensures BetweenFrom(env, rs, edges, m) == Leaving(env, rs, m) &&
      BetweenTo(env, rs, edges, m) == Entering(env, rs, m)
  {
    hide Crosses, PairsDiffer, HasPair;
    if rs == [] {
      BetweenOfNothing(env, edges, m);
    } else {
      assert rs[|rs| - 1] in rs;
      BetweenAll(env, rs[..|rs| - 1], edges, m);
      BetweenFromStep(env, rs, edges, m);
    }
  }

  lemma {:induction false} WeightsAdd(env: Env, rs: seq<Relation>, edges: seq<TectonicEdge>, m: string)
    requires forall e :: e in edges ==> e.weight == Between(env, rs, e.fromModule, e.toModule)
    ensures WeightFrom(edges, m) == BetweenFrom(env, rs, edges, m) && WeightTo(edges, m) == BetweenTo(env, rs, edges, m)
  {
    hide Between;
    if edges != [] {
      assert edges[|edges| - 1] in edges;
      WeightsAdd(env, rs, edges[..|edges| - 1], m);
    }
  }

  /** A module's efferent coupling is the weight of the edges that leave it, its afferent
      coupling the weight of those that enter it. */
  lemma CouplingIsWeight(env: Env, rs: seq<Relation>, edges: seq<TectonicEdge>, m: string)
    requires Aggregated(env, rs, edges) && NoSharedKey(env, rs)
    ensures WeightFrom(edges, m) == Leaving(env, rs, m) && WeightTo(edges, m) == Entering(env, rs, m)
  {
    WeightsExactly(env, rs, edges);
    PairsExactly(env, rs, edges);
    hide Crosses, EdgeOk, Key, Between, Leaving, Entering, WeightFrom, WeightTo, BetweenFrom, BetweenTo;
    forall r | r in rs && Crosses(env, r) ensures HasPair(edges, Source(env, r), Target(env, r)) {
      var e :| e in edges && KeyOf(e) == Key(Source(env, r), Target(env, r));
      assert OnlyPair(env, rs, e);
    }
    hide NoSharedKey;
    WeightsAdd(env, rs, edges, m);
    BetweenAll(env, rs, edges, m);
  }

  // ---- Two-cycles -------------------------------------------------------------------------------

  /** An edge whose reverse is an edge too, by their keys. */
  ghost predicate Reversible(edges: seq<TectonicEdge>, e: TectonicEdge)
  {
    exists f :: f in edges && Key(f.toModule, f.fromModule) == KeyOf(e)
  }

  ghost predicate InTwoCycle(edges: seq<TectonicEdge>, m: string)
  {
    exists e :: e in edges && (e.fromModule == m || e.toModule == m) && Reversible(edges, e)
  }

  method CyclicModules(edges: seq<TectonicEdge>, coupled: set<string>) returns (cyclic: set<string>)
    requires forall e :: e in edges ==> e.fromModule in coupled && e.toModule in coupled
    ensures forall m :: m in cyclic <==> InTwoCycle(edges, m)
  {
    var reverseLookup: set<string> := {};
    for i := 0 to |edges|
      invariant forall k :: k in reverseLookup <==> exists f :: f in edges[..i] && Key(f.toModule, f.fromModule) == k
    {
      ghost var before := reverseLookup;
      assert edges[..i + 1] == edges[..i] + [edges[i]];
      reverseLookup := reverseLookup + {Key(edges[i].toModule, edges[i].fromModule)};
      forall k ensures k in reverseLookup <==> exists f :: f in edges[..i + 1] && Key(f.toModule, f.fromModule) == k {
        if f :| f in edges[..i] && Key(f.toModule, f.fromModule) == k { assert f in edges[..i + 1]; }
        if k == Key(edges[i].toModule, edges[i].fromModule) { assert edges[i] in edges[..i + 1]; }
      }
    }
    assert edges[..|edges|] == edges;
    cyclic := {};
    for i := 0 to |edges|
      invariant forall m :: m in cyclic <==>
        exists e ::
          e in edges[..i] && (e.fromModule == m || e.toModule == m) && Reversible(edges, e)
    {
      var e := edges[i];
      assert e in edges && edges[..i + 1] == edges[..i] + [e];
      ghost var before := cyclic;
      if KeyOf(e) in reverseLookup && e.fromModule in coupled && e.toModule in coupled {
        cyclic := cyclic + {e.fromModule, e.toModule};
      }
      CyclicStep(edges, i, before, cyclic);
    }
  }

  lemma CyclicStep(edges: seq<TectonicEdge>, i: nat, before: set<string>, after: set<string>)
    requires i < |edges|
    requires forall m :: m in before <==>
      exists e ::
        e in edges[..i] && (e.fromModule == m || e.toModule == m) && Reversible(edges, e)
    requires after == if Reversible(edges, edges[i]) then before + {edges[i].fromModule, edges[i].toModule} else before
    ensures forall m :: m in after <==>
      exists e ::
        e in edges[..i + 1] && (e.fromModule == m || e.toModule == m) && Reversible(edges, e)
  {
    hide Reversible;
    assert edges[..i + 1] == edges[..i] + [edges[i]];
    forall m
      ensures m in after <==>
        exists e ::
          e in edges[..i + 1] && (e.fromModule == m || e.toModule == m) && Reversible(edges, e)
    {
      if e :| e in edges[..i] && (e.fromModule == m || e.toModule == m) && Reversible(edges, e) {
        assert e in edges[..i + 1];
      }
      if Reversible(edges, edges[i]) && (m == edges[i].fromModule || m == edges[i].toModule) {
        assert edges[i] in edges[..i + 1];
      }
    }
  }

  /** With arrow-free names, the flagged modules are those with edges to and from one other module. */
  lemma TwoCyclesExactly(env: Env, rs: seq<Relation>, edges: seq<TectonicEdge>, m: string)
    requires Aggregated(env, rs, edges) && ArrowFree(env)
    ensures InTwoCycle(edges, m) <==> exists n :: HasPair(edges, m, n) && HasPair(edges, n, m)
  {
    hide Crosses, Key, Keyed, KeyedKind, Total;
    forall e | e in edges ensures ARROW[0] !in e.fromModule && ARROW[0] !in e.toModule {
      PlainNames(env, rs, e);
    }
    hide EdgeOk;
    if InTwoCycle(edges, m) {
      var e :| e in edges && (e.fromModule == m || e.toModule == m) && Reversible(edges, e);
      var f :| f in edges && Key(f.toModule, f.fromModule) == KeyOf(e);
      KeyInjective(f.toModule, f.fromModule, e.fromModule, e.toModule);
      var n := if e.fromModule == m then e.toModule else e.fromModule;
      assert HasPair(edges, m, n) && HasPair(edges, n, m);
    }
    if n :| HasPair(edges, m, n) && HasPair(edges, n, m) {
      var e :| e in edges && e.fromModule == m && e.toModule == n;
      var f :| f in edges && f.fromModule == n && f.toModule == m;
      assert Reversible(edges, e);
    }
  }

  lemma PlainNames(env: Env, rs: seq<Relation>, e: TectonicEdge)
    requires EdgeOk(env, rs, e) && ArrowFree(env)
    ensures ARROW[0] !in e.fromModule && ARROW[0] !in e.toModule
  {
    hide Keyed, KeyedKind, Key, Total;
    var r :| r in rs && Crosses(env, r) && Source(env, r) == e.fromModule && Target(env, r) == e.toModule;
  }

  // ---- The map ---------------------------------------------------------------------------------------

  predicate Heavier(x: TectonicEdge, y: TectonicEdge)
  {
    x.weight > y.weight
  }

  lemma HeavierIsWeakOrder()
    ensures WeakOrder(Heavier)
  {
  }

  /** The edges are aggregated in any order, with the same two-cycles. */
  lemma AggregatedPermuted(env: Env, rs: seq<Relation>, edges: seq<TectonicEdge>, sorted: seq<TectonicEdge>)
    requires Aggregated(env, rs, edges) && multiset(sorted) == multiset(edges)
    ensures Aggregated(env, rs, sorted)
    ensures forall m :: InTwoCycle(sorted, m) <==> InTwoCycle(edges, m)
  {
    hide EdgeOk, Key;
    SameElements(edges, sorted);
    assert DistinctBy(edges, KeyOf);
    DistinctByPermuted(edges, sorted, KeyOf);
    hide Crosses;
    forall r | r in rs && Crosses(env, r)
      ensures exists e :: e in sorted && KeyOf(e) == Key(Source(env, r), Target(env, r))
    {
      var e :| e in edges && KeyOf(e) == Key(Source(env, r), Target(env, r));
      assert e in sorted;
    }
  }

  method Compute(
    symbols: seq<Symbol>, relations: seq<Relation>, moduleOf: string -> string, edgeKinds: Option<set<string>>)
    returns (nodes: seq<ModuleCoupling>, edges: seq<TectonicEdge>, cyclic: set<string>)
    ensures var env := Env(SymbolModule(symbols, moduleOf), Kinds(edgeKinds));
      && Distinct(Names(nodes)) && Covers(env, Names(nodes)) && Aggregated(env, relations, edges)
      && (exists entries :: Names(entries) == Modules(symbols, moduleOf) && Ranked(entries, nodes, Busier))
      && (forall c :: c in nodes ==> CouplingOk(symbols, relations, moduleOf, env, c))
      && (exists met :: Keys(met) == KeysMet(env, relations) && Ranked(met, edges, Heavier))
      && (forall i, j :: 0 <= i < j < |edges| ==> edges[i].weight >= edges[j].weight)
      && (forall i, j :: 0 <= i < j < |nodes| ==>
            nodes[i].afferent + nodes[i].efferent >= nodes[j].afferent + nodes[j].efferent)
      && (NoSharedKey(env, relations) ==>
            forall c :: c in nodes ==> c.efferent == WeightFrom(edges, c.name) && c.afferent == WeightTo(edges, c.name))
      && (forall m :: m in cyclic <==> InTwoCycle(edges, m))
  {
    hide SymbolModule, Leaving, Entering, WeightFrom, WeightTo, NoSharedKey, InTwoCycle, EdgeOk, Aggregated, Ranked,
      Modules, KeysMet, WeakOrder;
    nodes := Coupling.Compute(symbols, relations, moduleOf, edgeKinds);
    var kinds := Kinds(edgeKinds);
    var env := Env(SymbolModule(symbols, moduleOf), kinds);
    edges := AggregateEdges(env, relations);
    var coupled := set c | c in nodes :: c.name;
    AllEndsCovered(env, relations, edges, nodes);
    cyclic := CyclicModules(edges, coupled);
    ghost var met := edges;
    edges := SortBy(edges, Heavier);
    HeavierIsWeakOrder();
    SortRanks(met, Heavier);
    RankedFalls(met, edges);
    AggregatedPermuted(env, relations, met, edges);
    if NoSharedKey(env, relations) {
      forall c | c in nodes ensures c.efferent == WeightFrom(edges, c.name) && c.afferent == WeightTo(edges, c.name) {
        CouplingIsWeight(env, relations, edges, c.name);
      }
    }
  }

  lemma RankedFalls(met: seq<TectonicEdge>, edges: seq<TectonicEdge>)
    requires Ranked(met, edges, Heavier)
    ensures forall i, j :: 0 <= i < j < |edges| ==> edges[i].weight >= edges[j].weight
  {
    hide Peers;
    forall i, j | 0 <= i < j < |edges| ensures edges[i].weight >= edges[j].weight {
      assert !Heavier(edges[j], edges[i]);
    }
  }

  lemma AllEndsCovered(env: Env, rs: seq<Relation>, edges: seq<TectonicEdge>, nodes: seq<ModuleCoupling>)
    requires Aggregated(env, rs, edges) && Covers(env, Names(nodes))
    ensures forall e :: e in edges ==>
      (exists c :: c in nodes && c.name == e.fromModule) && (exists c :: c in nodes && c.name == e.toModule)
  {
    hide EdgeOk;
    forall e | e in edges
      ensures (exists c :: c in nodes && c.name == e.fromModule) && (exists c :: c in nodes && c.name == e.toModule)
    {
      EndsCovered(env, rs, e, nodes);
    }
  }

  lemma EndsCovered(env: Env, rs: seq<Relation>, e: TectonicEdge, nodes: seq<ModuleCoupling>)
    requires EdgeOk(env, rs, e) && Covers(env, Names(nodes))
    ensures (exists c :: c in nodes && c.name == e.fromModule) && (exists c :: c in nodes && c.name == e.toModule)
  {
    hide Keyed, KeyedKind, Total;
    var r :| r in rs && Crosses(env, r) && Source(env, r) == e.fromModule && Target(env, r) == e.toModule;
    var i :| 0 <= i < |nodes| && Names(nodes)[i] == e.fromModule;
    var j :| 0 <= j < |nodes| && Names(nodes)[j] == e.toModule;
    assert nodes[i] in nodes && nodes[j] in nodes;
  }
}
