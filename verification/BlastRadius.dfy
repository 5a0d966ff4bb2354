/** Depth-tiered reachability over the call and import graph. */
module BlastRadius {
  import opened Options
  import opened Strings
  import opened Graphs

  datatype Relation = Relation(source: string, target: string, kind: string)

  datatype Direction = Upstream | Downstream

  /** The edge kinds to follow: the given ones, or calls and imports. */
  function Kinds(edgeKinds: Option<set<string>>): set<string>
  {
    if edgeKinds.Some? then edgeKinds.value else {"calls", "imports"}
  }

  function From(r: Relation, d: Direction): string
  {
    if d.Upstream? then r.target else r.source
  }

  function To(r: Relation, d: Direction): string
  {
    if d.Upstream? then r.source else r.target
  }

  /** The graph the relations of the chosen kinds describe. */
  ghost predicate Describes(adj: Graph<string>, relations: seq<Relation>, d: Direction, kinds: set<string>)
  {
    forall x, y :: y in Succ(adj, x) <==> Linked(relations, d, kinds, x, y)
  }

  ghost predicate Linked(relations: seq<Relation>, d: Direction, kinds: set<string>, x: string, y: string)
  {
    match d
    case Downstream => Uses(relations, kinds, x, y)
    case Upstream => Uses(relations, kinds, y, x)
  }

  /** A relation of a chosen kind leads from `x` to `y`. */
  ghost predicate Uses(relations: seq<Relation>, kinds: set<string>, x: string, y: string)
  {
    exists r :: r in relations && r.kind in kinds && r.source == x && r.target == y
  }

  /** Without a choice, calls and imports are followed. */
  lemma KindsExactly(edgeKinds: Option<set<string>>, kind: string)
    ensures kind in Kinds(edgeKinds) <==>
            match edgeKinds
            case Some(chosen) => kind in chosen
            case None => kind == "calls" || kind == "imports"
  {
  }

  method BuildAdjacency(relations: seq<Relation>, d: Direction, kinds: set<string>) returns (adj: Graph<string>)
    ensures Describes(adj, relations, d, kinds)
  {
    adj := map[];
    for i := 0 to |relations|
      invariant Describes(adj, relations[..i], d, kinds)
    {
      var r := relations[i];
      assert relations[..i + 1] == relations[..i] + [r];
      ghost var was := adj;
      if r.kind in kinds {
        var from, to := From(r, d), To(r, d);
        assert [] + [to] == [to];
        if from in adj { adj := adj[from := adj[from] + [to]]; } else { adj := adj[from := [to]]; }
      }
      DescribesMore(was, adj, relations[..i], r, d, kinds);
    }
    assert relations[..|relations|] == relations;
  }

  lemma DescribesMore(
    was: Graph<string>, adj: Graph<string>, relations: seq<Relation>, r: Relation, d: Direction, kinds: set<string>)
    requires Describes(was, relations, d, kinds)
    requires adj == if r.kind in kinds then was[From(r, d) := Succ(was, From(r, d)) + [To(r, d)]] else was
    ensures Describes(adj, relations + [r], d, kinds)
  {
    forall x, y ensures y in Succ(adj, x) <==> Linked(relations + [r], d, kinds, x, y) {
      assert y in Succ(was, x) <==> Linked(relations, d, kinds, x, y);
      assert y in Succ(adj, x) <==> y in Succ(was, x) || (r.kind in kinds && From(r, d) == x && To(r, d) == y);
      LinkedMore(relations, r, d, kinds, x, y);
    }
  }

  lemma LinkedMore(relations: seq<Relation>, r: Relation, d: Direction, kinds: set<string>, x: string, y: string)
    ensures Linked(relations + [r], d, kinds, x, y) <==>
            Linked(relations, d, kinds, x, y) || (r.kind in kinds && From(r, d) == x && To(r, d) == y)
  {
    forall a, b ensures Uses(relations + [r], kinds, a, b) <==>
      Uses(relations, kinds, a, b) || (r.kind in kinds && r.source == a && r.target == b)
    {
      if q :| q in relations && q.kind in kinds && q.source == a && q.target == b { assert q in relations + [r]; }
      if r.kind in kinds && r.source == a && r.target == b { assert r in relations + [r]; }
    }
  }

  // ---- Distance ------------------------------------------------------------------------------

  /** A walk of at most that many steps leads from `s` to `t`. */
  ghost predicate Within(g: Graph<string>, s: string, t: string, k: nat)
  {
    exists p :: |p| <= k && Path(g, s, t, p)
  }

  /** The shortest walk has exactly that many steps. */
  ghost predicate AtDistance(g: Graph<string>, s: string, t: string, k: nat)
  {
    Within(g, s, t, k) && (k > 0 ==> !Within(g, s, t, k - 1))
  }

  lemma WithinNone(g: Graph<string>, s: string, t: string)
    ensures Within(g, s, t, 0) <==> s == t
  {
    if s == t { assert Path(g, s, t, []); }
  }

  lemma {:induction false} LastStep(g: Graph<string>, s: string, t: string, p: seq<string>) returns (u: string)
    requires p != [] && Path(g, s, t, p)
    ensures t in Succ(g, u) && Path(g, s, u, p[..|p| - 1])
    decreases |p|
  {
    if |p| == 1 {
      u := s;
    } else {
      u := LastStep(g, p[0], t, p[1..]);
      assert p[1..][..|p[1..]| - 1] == p[..|p| - 1][1..];
    }
  }

  /** One more step: what was within reach, and what lies a step beyond it. */
  lemma WithinStep(g: Graph<string>, s: string, t: string, k: nat)
    ensures Within(g, s, t, k + 1) <==> Within(g, s, t, k) || exists u :: AtDistance(g, s, u, k) && t in Succ(g, u)
  {
    if Within(g, s, t, k + 1) && !Within(g, s, t, k) {
      var p :| |p| <= k + 1 && Path(g, s, t, p);
      assert |p| == k + 1;
      var u := LastStep(g, s, t, p);
      assert Within(g, s, u, k);
      if k > 0 && Within(g, s, u, k - 1) {
        Extend(g, s, u, t, k - 1);
        assert false;
      }
    }
    if u :| AtDistance(g, s, u, k) && t in Succ(g, u) {
      Extend(g, s, u, t, k);
    }
  }

  lemma Extend(g: Graph<string>, s: string, u: string, t: string, k: nat)
    requires Within(g, s, u, k) && t in Succ(g, u)
    ensures Within(g, s, t, k + 1)
  {
    var p :| |p| <= k && Path(g, s, u, p);
    assert [t][1..] == [];
    assert Path(g, u, t, [t]);
    PathAppend(g, s, u, t, p, [t]);
    assert |p + [t]| <= k + 1;
  }

  lemma {:induction false} Reversed(g: Graph<string>, h: Graph<string>, u: string, v: string, p: seq<string>)
    returns (q: seq<string>)
    requires (forall x, y :: y in Succ(g, x) <==> x in Succ(h, y)) && Path(g, u, v, p)
    ensures Path(h, v, u, q) && |q| == |p|
    decreases |p|
  {
    if p == [] {
      q := [];
    } else {
      var r := Reversed(g, h, p[0], v, p[1..]);
      assert [u][1..] == [];
      assert Path(h, p[0], u, [u]);
      PathAppend(h, v, p[0], u, r, [u]);
      q := r + [u];
    }
  }

  lemma WithinReversed(g: Graph<string>, h: Graph<string>, u: string, v: string, k: nat)
    requires forall x, y :: y in Succ(g, x) <==> x in Succ(h, y)
    ensures Within(g, u, v, k) <==> Within(h, v, u, k)
  {
    if Within(g, u, v, k) {
      var p :| |p| <= k && Path(g, u, v, p);
      var q := Reversed(g, h, u, v, p);
    }
    if Within(h, v, u, k) {
      var p :| |p| <= k && Path(h, v, u, p);
      var q := Reversed(h, g, v, u, p);
    }
  }

  // ---- The search --------------------------------------------------------------------------------

  ghost predicate TierIs(g: Graph<string>, s: string, tier: seq<string>, k: nat)
  {
    Distinct(tier) && forall t :: t in tier <==> AtDistance(g, s, t, k)
  }

  ghost predicate VisitedIs(g: Graph<string>, s: string, visited: set<string>, k: nat)
  {
    forall t :: t in visited <==> Within(g, s, t, k)
  }

  /** The successors of what lies at that distance. */
  ghost predicate FrontierIs(g: Graph<string>, s: string, frontier: seq<string>, k: nat)
  {
    forall t :: t in frontier <==> exists u :: AtDistance(g, s, u, k) && t in Succ(g, u)
  }

  /** One round of the search, over one frontier. */
  method Round(adj: Graph<string>, frontier: seq<string>, visited0: set<string>)
    returns (visited: set<string>, tier: seq<string>, next: seq<string>)
    ensures Distinct(tier)
    ensures forall t :: t in tier <==> t in frontier && t !in visited0
    ensures forall t :: t in visited <==> t in visited0 || t in frontier
    ensures forall t :: t in next <==> exists u :: u in tier && t in Succ(adj, u)
  {
    visited, tier, next := visited0, [], [];
    for i := 0 to |frontier|
      invariant Distinct(tier)
      invariant forall t :: t in tier <==> t in frontier[..i] && t !in visited0
      invariant forall t :: t in visited <==> t in visited0 || t in frontier[..i]
      invariant forall t :: t in next <==> exists u :: u in tier && t in Succ(adj, u)
    {
      var id := frontier[i];
      assert frontier[..i + 1] == frontier[..i] + [id];
      if id in visited { continue; }
      visited := visited + {id};
      ghost var tier0, next0 := tier, next;
      tier := tier + [id];
      if id in adj { next := next + adj[id]; }
      forall t ensures t in next <==> exists u :: u in tier && t in Succ(adj, u) {
        if u :| u in tier0 && t in Succ(adj, u) { assert u in tier; }
        if t in Succ(adj, id) { assert id in tier; }
      }
    }
    assert frontier[..|frontier|] == frontier;
  }

  method Tiers(adj: Graph<string>, s: string) returns (tiers: seq<seq<string>>)
    ensures |tiers| == 3 && TierIs(adj, s, tiers[0], 1) && TierIs(adj, s, tiers[1], 2) && TierIs(adj, s, tiers[2], 3)
  {
    hide Within, AtDistance;
    var visited, frontier := {s}, if s in adj then adj[s] else [];
    tiers := [];
    StartSearch(adj, s);
    for depth := 0 to 3
      invariant |tiers| == depth && VisitedIs(adj, s, visited, depth) && FrontierIs(adj, s, frontier, depth)
      invariant forall k :: 0 <= k < depth ==> TierIs(adj, s, tiers[k], k + 1)
    {
      var visited', tier, next := Round(adj, frontier, visited);
      RoundDone(adj, s, frontier, visited, visited', tier, next, depth);
      tiers := tiers + [tier];
      visited, frontier := visited', next;
    }
  }

  lemma StartSearch(adj: Graph<string>, s: string)
    ensures VisitedIs(adj, s, {s}, 0) && FrontierIs(adj, s, Succ(adj, s), 0)
  {
    forall t ensures Within(adj, s, t, 0) <==> t == s { WithinNone(adj, s, t); }
    forall t ensures t in Succ(adj, s) <==> exists u :: AtDistance(adj, s, u, 0) && t in Succ(adj, u) {
      if t in Succ(adj, s) { assert AtDistance(adj, s, s, 0); }
    }
  }

  lemma RoundDone(adj: Graph<string>, s: string, frontier: seq<string>, visited: set<string>, visited': set<string>,
                  tier: seq<string>, next: seq<string>, k: nat)
    requires VisitedIs(adj, s, visited, k) && FrontierIs(adj, s, frontier, k) && Distinct(tier)
    requires forall t :: t in tier <==> t in frontier && t !in visited
    requires forall t :: t in visited' <==> t in visited || t in frontier
    requires forall t :: t in next <==> exists u :: u in tier && t in Succ(adj, u)
    ensures VisitedIs(adj, s, visited', k + 1) && TierIs(adj, s, tier, k + 1) && FrontierIs(adj, s, next, k + 1)
  {
    hide Within;
    forall t ensures Within(adj, s, t, k + 1) <==> t in visited' {
      WithinStep(adj, s, t, k);
      assert Within(adj, s, t, k) <==> t in visited;
      assert t in frontier <==> exists u :: AtDistance(adj, s, u, k) && t in Succ(adj, u);
    }
    forall t ensures t in tier <==> AtDistance(adj, s, t, k + 1) {
      assert Within(adj, s, t, k) <==> t in visited;
    }
    hide AtDistance, Succ;
  }

  datatype Symbol = Symbol(id: string, file: string)

  function Resolved(ids: seq<string>, table: map<string, Symbol>): seq<Symbol>
  {
    if ids == [] then []
    else
      var id := ids[|ids| - 1];
      Resolved(ids[..|ids| - 1], table) + if id in table then [table[id]] else []
  }

  method ResolveTier(ids: seq<string>, table: map<string, Symbol>) returns (out: seq<Symbol>)
    ensures out == Resolved(ids, table)
  {
    out := [];
    for i := 0 to |ids|
      invariant out == Resolved(ids[..i], table)
    {
      assert ids[..i + 1][..i] == ids[..i];
      if ids[i] in table { out := out + [table[ids[i]]]; }
    }
    assert ids[..|ids|] == ids;
  }

  /** The symbols of a tier, as far as the table has them. */
  ghost predicate Reported(adj: Graph<string>, s: string, k: nat, table: map<string, Symbol>, symbols: seq<Symbol>)
  {
    exists tier :: TierIs(adj, s, tier, k) && symbols == Resolved(tier, table)
  }

  /** The tiers are exactly the symbols at distance 1, 2 and 3 along the chosen edges. */
  method Compute(
    id: string, table: map<string, Symbol>, relations: seq<Relation>, d: Direction, edgeKinds: Option<set<string>>)
    returns (radius: seq<seq<Symbol>>)
    ensures |radius| == 3
    ensures exists adj: Graph<string> ::
      && Describes(adj, relations, d, Kinds(edgeKinds))
      && (forall k :: 0 <= k < 3 ==> Reported(adj, id, k + 1, table, radius[k]))
      && (ById(table) ==> forall k :: 0 <= k < 3 ==> SymbolsAt(adj, id, k + 1, table, radius[k]))
  {
    hide Describes, TierIs, SymbolsAt, ById, Reported, Resolved;
    var adj := BuildAdjacency(relations, d, Kinds(edgeKinds));
    var tiers := Tiers(adj, id);
    var d1 := ResolveTier(tiers[0], table);
    var d2 := ResolveTier(tiers[1], table);
    var d3 := ResolveTier(tiers[2], table);
    radius := [d1, d2, d3];
    TierReported(adj, id, 1, table, tiers[0]);
    TierReported(adj, id, 2, table, tiers[1]);
    TierReported(adj, id, 3, table, tiers[2]);
  }

  /** The symbols of the table that lie at that distance, each under its own id, and no others. */
  ghost predicate SymbolsAt(adj: Graph<string>, s: string, k: nat, table: map<string, Symbol>, symbols: seq<Symbol>)
  {
    forall x: Symbol :: x in symbols <==> x.id in table && table[x.id] == x && AtDistance(adj, s, x.id, k)
  }

  lemma TierReported(adj: Graph<string>, s: string, k: nat, table: map<string, Symbol>, tier: seq<string>)
    requires TierIs(adj, s, tier, k)
    ensures Reported(adj, s, k, table, Resolved(tier, table))
    ensures ById(table) ==> SymbolsAt(adj, s, k, table, Resolved(tier, table))
  {
    if ById(table) {
      forall x: Symbol ensures x in Resolved(tier, table) <==> x.id in tier && x.id in table && table[x.id] == x {
        ResolvedFrom(tier, table, x);
      }
    }
  }

  lemma {:induction false} ResolvedFrom(ids: seq<string>, table: map<string, Symbol>, x: Symbol)
    requires ById(table)
    ensures x in Resolved(ids, table) <==> x.id in ids && x.id in table && table[x.id] == x
  {
    if ids != [] {
      var n := |ids| - 1;
      assert ids == ids[..n] + [ids[n]];
      ResolvedFrom(ids[..n], table, x);
    }
  }

  /** A table finds every symbol under its own id. */
  ghost predicate ById(table: map<string, Symbol>)
  {
    forall id :: id in table ==> table[id].id == id
  }

  /** For symbols of the table, `t` is in a tier upstream of `s` if and only if `s` is in
      the same tier downstream of `t`. */
  lemma UpstreamIsDownstream(relations: seq<Relation>, kinds: set<string>, table: map<string, Symbol>, s: string,
                             t: string, k: nat,
                             up: Graph<string>, down: Graph<string>, upTier: seq<string>, downTier: seq<string>)
    requires Describes(up, relations, Upstream, kinds) && Describes(down, relations, Downstream, kinds)
    requires TierIs(up, s, upTier, k) && TierIs(down, t, downTier, k)
    requires ById(table) && s in table && t in table
    ensures table[t] in Resolved(upTier, table) <==> table[s] in Resolved(downTier, table)
  {
    forall x, y ensures y in Succ(up, x) <==> x in Succ(down, y) {
      assert Linked(relations, Upstream, kinds, x, y) <==> Linked(relations, Downstream, kinds, y, x);
    }
    hide Describes, Resolved, Succ, Within;
    WithinReversed(up, down, s, t, k);
    if k > 0 { WithinReversed(up, down, s, t, k - 1); }
    ResolvedFrom(upTier, table, table[t]);
    ResolvedFrom(downTier, table, table[s]);
  }
}
