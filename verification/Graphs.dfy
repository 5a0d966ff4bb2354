/** Finite directed graphs as adjacency maps, and reachability in them. */
module Graphs {

  /** A node's successors, in the order its adjacency set is iterated. */
  type Graph<!T(==)> = map<T, seq<T>>

  function Succ<T(!new)>(g: Graph<T>, v: T): seq<T>
  {
    if v in g then g[v] else []
  }

  /** `p` lists the nodes visited after `u` on a walk from `u` to `v`. */
  ghost predicate Path<T(!new)>(g: Graph<T>, u: T, v: T, p: seq<T>)
    decreases |p|
  {
    if p == [] then u == v else p[0] in Succ(g, u) && Path(g, p[0], v, p[1..])
  }

  ghost predicate Reaches<T(!new)>(g: Graph<T>, u: T, v: T)
  {
    exists p :: Path(g, u, v, p)
  }

  ghost predicate Mutual<T(!new)>(g: Graph<T>, u: T, v: T)
  {
    Reaches(g, u, v) && Reaches(g, v, u)
  }

  ghost predicate Closed<T(!new)>(g: Graph<T>, s: set<T>)
  {
    forall v, w :: v in s && w in Succ(g, v) ==> w in s
  }

  ghost predicate ReachedFrom<T(!new)>(g: Graph<T>, roots: seq<T>, v: T)
  {
    exists r :: r in roots && Reaches(g, r, v)
  }

  lemma ReachesSelf<T(!new)>(g: Graph<T>, u: T)
    ensures Reaches(g, u, u)
  {
    assert Path(g, u, u, []);
  }

  lemma ReachesStep<T(!new)>(g: Graph<T>, u: T, v: T)
    requires v in Succ(g, u)
    ensures Reaches(g, u, v)
  {
    assert Path(g, v, v, []);
    assert [v][1..] == [];
    assert Path(g, u, v, [v]);
  }

  lemma {:induction false} PathAppend<T(!new)>(g: Graph<T>, u: T, v: T, w: T, p: seq<T>, q: seq<T>)
    requires Path(g, u, v, p) && Path(g, v, w, q)
    ensures Path(g, u, w, p + q)
    decreases |p|
  {
    if p == [] {
      assert p + q == q;
    } else {
      assert (p + q)[1..] == p[1..] + q;
      PathAppend(g, p[0], v, w, p[1..], q);
    }
  }

  lemma ReachesTrans<T(!new)>(g: Graph<T>, u: T, v: T, w: T)
    requires Reaches(g, u, v) && Reaches(g, v, w)
    ensures Reaches(g, u, w)
  {
    var p :| Path(g, u, v, p);
    var q :| Path(g, v, w, q);
    PathAppend(g, u, v, w, p, q);
  }

  lemma {:induction false} PathStaysIn<T(!new)>(g: Graph<T>, s: set<T>, u: T, v: T, p: seq<T>)
    requires Closed(g, s) && u in s && Path(g, u, v, p)
    ensures v in s
    decreases |p|
  {
    if p != [] { PathStaysIn(g, s, p[0], v, p[1..]); }
  }

  /** Nothing outside a closed set is reachable from inside it. */
  lemma ReachesStaysIn<T(!new)>(g: Graph<T>, s: set<T>, u: T, v: T)
    requires Closed(g, s) && u in s && Reaches(g, u, v)
    ensures v in s
  {
    var p :| Path(g, u, v, p);
    PathStaysIn(g, s, u, v, p);
  }

  /** The nodes a graph mentions: a finite set closed under `Succ`. */
  function Universe<T(!new)>(g: Graph<T>): (u: set<T>)
    ensures forall v, w :: w in Succ(g, v) ==> w in u
  {
    set v, w | v in g.Keys && w in g[v] :: w
  }
}
