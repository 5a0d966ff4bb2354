/** The iterative Tarjan search behind the cycle report of the community graph. */
module Tarjan {
  import opened Strings
  import opened Graphs

  /** The number a map holds for a node, or -1. */
  function At<T>(m: map<T, nat>, v: T): int
  {
    if v in m then m[v] else -1
  }

  /** The search state: `on` holds the nodes of the Tarjan stack, `open` those of
      the work stack, `read` how many adjacency entries of each indexed node have
      been consumed. */
  datatype State<!T(==)> = State(
    idx: map<T, nat>,
    low: map<T, nat>,
    read: map<T, nat>,
    on: set<T>,
    open: set<T>)

  // ---- The invariant, part by part ------------------------------------------------

  ghost predicate Indexed<T(!new)>(idx: map<T, nat>, n: nat)
  {
    && (forall v :: v in idx ==> idx[v] < n)
    && (forall v, w :: v in idx && w in idx && idx[v] == idx[w] ==> v == w)
  }

  /** Every node that is indexed but not open has had all its entries consumed. */
  ghost predicate Consumed<T(!new)>(g: Graph<T>, read: map<T, nat>, open: set<T>)
  {
    forall v :: v in read ==> read[v] <= |Succ(g, v)| && (v !in open ==> read[v] == |Succ(g, v)|)
  }

  /** Entry `k` of `v` has been consumed and leads to `w`. */
  ghost predicate Used<T(!new)>(g: Graph<T>, read: map<T, nat>, v: T, k: nat, w: T)
  {
    v in read && k < read[v] && k < |Succ(g, v)| && Succ(g, v)[k] == w
  }

  /** Every consumed adjacency entry leads to an indexed node. */
  ghost predicate Seen<T(!new)>(g: Graph<T>, read: map<T, nat>)
  {
    forall v, k, w :: Used(g, read, v, k, w) ==> w in read
  }

  /** A node that has left the stack leads only to nodes that have left it too. */
  ghost predicate Settled<T(!new)>(g: Graph<T>, visited: set<T>, on: set<T>)
  {
    forall v, w :: v in visited && v !in on && w in Succ(g, v) ==> w in visited && w !in on
  }

  /** An open node reaches everything above it on the stack. */
  ghost predicate Downward<T(!new)>(g: Graph<T>, idx: map<T, nat>, open: set<T>, on: set<T>)
  {
    forall x, y :: x in open && y in on && At(idx, x) <= At(idx, y) ==> Reaches(g, x, y)
  }

  /** Every stack node reaches an open node at or below it. */
  ghost predicate Upward<T(!new)>(g: Graph<T>, idx: map<T, nat>, open: set<T>, on: set<T>)
  {
    forall y :: y in on ==> HasOpenBelow(g, idx, open, y)
  }

  ghost predicate HasOpenBelow<T(!new)>(g: Graph<T>, idx: map<T, nat>, open: set<T>, y: T)
  {
    exists x :: x in open && At(idx, x) <= At(idx, y) && Reaches(g, y, x)
  }

  /** The low link of an open node is the index of a stack node it reaches. */
  ghost predicate LowSound<T(!new)>(g: Graph<T>, idx: map<T, nat>, low: map<T, nat>, open: set<T>, on: set<T>)
  {
    forall x :: x in open ==> HasLowNode(g, idx, on, x, At(low, x))
  }

  ghost predicate HasLowNode<T(!new)>(g: Graph<T>, idx: map<T, nat>, on: set<T>, v: T, n: int)
  {
    n <= At(idx, v) && exists z :: z in on && At(idx, z) == n && Reaches(g, v, z)
  }

  /** `y` lies on the stack at or above open node `x` and below the next open one. */
  ghost predicate InSegment<T(!new)>(idx: map<T, nat>, open: set<T>, on: set<T>, x: T, y: T)
  {
    && x in open && y in on && At(idx, x) <= At(idx, y)
    && forall z :: z in open ==> At(idx, z) <= At(idx, x) || At(idx, y) < At(idx, z)
  }

  /** The low link of an open node is at most the index of every stack node that
      a consumed entry of its segment leads to. */
  ghost predicate LowComplete<T(!new)>(
    g: Graph<T>, idx: map<T, nat>, low: map<T, nat>, read: map<T, nat>, open: set<T>, on: set<T>)
  {
    forall x, y, k, w :: InSegment(idx, open, on, x, y) && Used(g, read, y, k, w) && w in on ==>
      At(low, x) <= At(idx, w)
  }

  ghost predicate Inv<T(!new)>(g: Graph<T>, n: nat, s: State<T>)
  {
    && s.idx.Keys == s.low.Keys == s.read.Keys
    && s.open <= s.on <= s.idx.Keys
    && Indexed(s.idx, n)
    && Consumed(g, s.read, s.open)
    && Seen(g, s.read)
    && Settled(g, s.idx.Keys, s.on)
    && Downward(g, s.idx, s.open, s.on)
    && Upward(g, s.idx, s.open, s.on)
    && LowSound(g, s.idx, s.low, s.open, s.on)
    && LowComplete(g, s.idx, s.low, s.read, s.open, s.on)
  }

  lemma NoOpenNoStack<T(!new)>(g: Graph<T>, idx: map<T, nat>, open: set<T>, on: set<T>)
    requires Upward(g, idx, open, on) && open == {}
    ensures on == {}
  {
    assert forall y :: !HasOpenBelow(g, idx, open, y);
  }

  // ---- Opening a node ------------------------------------------------------------

  function Visit<T>(s: State<T>, n: nat, w: T): State<T>
  {
    State(s.idx[w := n], s.low[w := n], s.read[w := 0], s.on + {w}, s.open + {w})
  }

  lemma VisitIndexed<T(!new)>(idx: map<T, nat>, n: nat, w: T)
    requires Indexed(idx, n) && w !in idx
    ensures Indexed(idx[w := n], n + 1)
  {
  }

  lemma VisitConsumed<T(!new)>(g: Graph<T>, read: map<T, nat>, open: set<T>, w: T)
    requires Consumed(g, read, open)
    ensures Consumed(g, read[w := 0], open + {w})
  {
  }

  lemma VisitSeen<T(!new)>(g: Graph<T>, read: map<T, nat>, w: T)
    requires forall v, k, u :: Used(g, read, v, k, u) ==> u in read || u == w
    ensures Seen(g, read[w := 0])
  {
    var read' := read[w := 0];
    forall v, k, u | Used(g, read', v, k, u) ensures u in read' {
      assert Used(g, read, v, k, u);
    }
  }

  lemma VisitSettled<T(!new)>(g: Graph<T>, visited: set<T>, on: set<T>, w: T)
    requires Settled(g, visited, on) && w !in visited && on <= visited
    ensures Settled(g, visited + {w}, on + {w})
  {
  }

  lemma VisitDownward<T(!new)>(g: Graph<T>, idx: map<T, nat>, open: set<T>, on: set<T>, n: nat, w: T)
    requires Indexed(idx, n) && open <= on <= idx.Keys && w !in idx
    requires Downward(g, idx, open, on)
    requires forall x :: x in open ==> Reaches(g, x, w)
    ensures Downward(g, idx[w := n], open + {w}, on + {w})
  {
    ReachesSelf(g, w);
  }

  lemma VisitUpward<T(!new)>(g: Graph<T>, idx: map<T, nat>, open: set<T>, on: set<T>, n: nat, w: T)
    requires on <= idx.Keys && open <= idx.Keys && w !in idx
    requires Upward(g, idx, open, on)
    ensures Upward(g, idx[w := n], open + {w}, on + {w})
  {
    ReachesSelf(g, w);
    forall y | y in on + {w} ensures HasOpenBelow(g, idx[w := n], open + {w}, y) {
      if y != w {
        assert HasOpenBelow(g, idx, open, y);
        var x :| x in open && At(idx, x) <= At(idx, y) && Reaches(g, y, x);
        assert x in open + {w} && At(idx[w := n], x) <= At(idx[w := n], y);
      }
    }
  }

  lemma VisitLowSound<T(!new)>(
    g: Graph<T>, idx: map<T, nat>, low: map<T, nat>, open: set<T>, on: set<T>, n: nat, w: T)
    requires on <= idx.Keys && open <= idx.Keys && w !in idx
    requires LowSound(g, idx, low, open, on)
    ensures LowSound(g, idx[w := n], low[w := n], open + {w}, on + {w})
  {
    ReachesSelf(g, w);
    forall x | x in open + {w} ensures HasLowNode(g, idx[w := n], on + {w}, x, At(low[w := n], x)) {
      if x != w {
        assert HasLowNode(g, idx, on, x, At(low, x));
        var z :| z in on && At(idx, z) == At(low, x) && Reaches(g, x, z);
        assert z in on + {w} && At(idx[w := n], z) == At(low[w := n], x);
      } else {
        assert w in on + {w} && At(idx[w := n], w) == n;
      }
    }
  }

  lemma VisitLowComplete<T(!new)>(
    g: Graph<T>, idx: map<T, nat>, low: map<T, nat>, read: map<T, nat>, open: set<T>, on: set<T>, n: nat, w: T)
    requires Indexed(idx, n) && open <= on <= idx.Keys == low.Keys && w !in idx
    requires LowComplete(g, idx, low, read, open, on)
    requires LowSound(g, idx, low, open, on)
    ensures LowComplete(g, idx[w := n], low[w := n], read[w := 0], open + {w}, on + {w})
  {
    var idx', read', open', on' := idx[w := n], read[w := 0], open + {w}, on + {w};
    forall x, y, k, u | InSegment(idx', open', on', x, y) && Used(g, read', y, k, u) && u in on'
      ensures At(low[w := n], x) <= At(idx', u)
    {
      assert y != w && Used(g, read, y, k, u);
      assert x != w by { assert At(idx', y) < n; }
      assert HasLowNode(g, idx, on, x, At(low, x));
      if u != w {
        forall z | z in open ensures At(idx, z) <= At(idx, x) || At(idx, y) < At(idx, z) { assert z in open'; }
        assert InSegment(idx, open, on, x, y);
      }
    }
  }

  lemma VisitRoot<T(!new)>(g: Graph<T>, s: State<T>, n: nat, w: T)
    requires Inv(g, n, s) && s.open == {} && w !in s.idx
    ensures Inv(g, n + 1, Visit(s, n, w))
  {
    hide Indexed, Consumed, Settled, Downward, Upward, LowSound, LowComplete;
    VisitIndexed(s.idx, n, w);
    VisitConsumed(g, s.read, s.open, w);
    VisitSeen(g, s.read, w);
    VisitSettled(g, s.idx.Keys, s.on, w);
    VisitDownward(g, s.idx, s.open, s.on, n, w);
    VisitUpward(g, s.idx, s.open, s.on, n, w);
    VisitLowSound(g, s.idx, s.low, s.open, s.on, n, w);
    VisitLowComplete(g, s.idx, s.low, s.read, s.open, s.on, n, w);
    assert s.idx[w := n].Keys == s.idx.Keys + {w};
  }

  // ---- Consuming an adjacency entry ------------------------------------------------

  /** The top open node `v` is about to read its next entry, `w`. */
  ghost predicate Reading<T(!new)>(g: Graph<T>, s: State<T>, v: T, w: T)
  {
    && v in s.open && v in s.read && s.read[v] < |Succ(g, v)| && Succ(g, v)[s.read[v]] == w
    && forall x :: x in s.open ==> At(s.idx, x) <= At(s.idx, v)
  }

  function Advance<T>(s: State<T>, v: T): State<T>
    requires v in s.read
  {
    s.(read := s.read[v := s.read[v] + 1])
  }

  function Min(a: nat, b: nat): nat
  {
    if a < b then a else b
  }

  function LowerTo<T>(s: State<T>, v: T, n: nat): State<T>
    requires v in s.low
  {
    s.(low := s.low[v := Min(s.low[v], n)])
  }

  lemma AdvanceUsed<T(!new)>(g: Graph<T>, s: State<T>, v: T, w: T)
    requires Reading(g, s, v, w)
    ensures forall a, k, u :: Used(g, Advance(s, v).read, a, k, u) ==> Used(g, s.read, a, k, u) || (a == v && u == w)
  {
  }

  lemma AdvanceConsumed<T(!new)>(g: Graph<T>, s: State<T>, v: T, w: T)
    requires Reading(g, s, v, w) && Consumed(g, s.read, s.open)
    ensures Consumed(g, Advance(s, v).read, s.open)
  {
  }

  /** Reading an entry keeps `LowComplete` when the top node's low link accounts for it. */
  lemma AdvanceLowComplete<T(!new)>(g: Graph<T>, s: State<T>, low: map<T, nat>, n: nat, v: T, w: T)
    requires Indexed(s.idx, n) && s.open <= s.idx.Keys
    requires Reading(g, s, v, w) && LowComplete(g, s.idx, s.low, s.read, s.open, s.on)
    requires forall x :: x in s.open ==> At(low, x) <= At(s.low, x)
    requires w in s.on ==> At(low, v) <= At(s.idx, w)
    ensures LowComplete(g, s.idx, low, Advance(s, v).read, s.open, s.on)
  {
    AdvanceUsed(g, s, v, w);
    var read' := Advance(s, v).read;
    forall x, y, k, u | InSegment(s.idx, s.open, s.on, x, y) && Used(g, read', y, k, u) && u in s.on
      ensures At(low, x) <= At(s.idx, u)
    {
      if !Used(g, s.read, y, k, u) {
        assert y == v && u == w;
        assert At(s.idx, x) == At(s.idx, v);
        assert x == v;
      }
    }
  }

  lemma LowerLowSound<T(!new)>(g: Graph<T>, s: State<T>, v: T, w: T)
    requires s.idx.Keys == s.low.Keys && s.on <= s.idx.Keys
    requires v in s.open && s.open <= s.on && w in s.on && Reaches(g, v, w)
    requires LowSound(g, s.idx, s.low, s.open, s.on)
    ensures LowSound(g, s.idx, LowerTo(s, v, s.idx[w]).low, s.open, s.on)
  {
    var low' := LowerTo(s, v, s.idx[w]).low;
    forall x | x in s.open ensures HasLowNode(g, s.idx, s.on, x, At(low', x)) {
      assert HasLowNode(g, s.idx, s.on, x, At(s.low, x));
    }
  }

  /** The entry leads to a node that has left the stack: nothing else changes. */
  lemma SkipEntry<T(!new)>(g: Graph<T>, s: State<T>, n: nat, v: T, w: T)
    requires Inv(g, n, s) && Reading(g, s, v, w) && w in s.idx && w !in s.on
    ensures Inv(g, n, Advance(s, v))
  {
    hide Indexed, Consumed, Settled, Downward, Upward, LowSound, LowComplete;
    AdvanceUsed(g, s, v, w);
    AdvanceConsumed(g, s, v, w);
    AdvanceLowComplete(g, s, s.low, n, v, w);
  }

  /** The entry leads back into the stack: the low link drops to its index. */
  lemma LowerEntry<T(!new)>(g: Graph<T>, s: State<T>, n: nat, v: T, w: T)
    requires Inv(g, n, s) && Reading(g, s, v, w) && w in s.on
    ensures Inv(g, n, LowerTo(Advance(s, v), v, s.idx[w]))
  {
    hide Indexed, Consumed, Settled, Downward, Upward, LowSound, LowComplete;
    AdvanceUsed(g, s, v, w);
    AdvanceConsumed(g, s, v, w);
    ReachesStep(g, v, w);
    LowerLowSound(g, s, v, w);
    var low' := LowerTo(s, v, s.idx[w]).low;
    assert low'.Keys == s.low.Keys;
    AdvanceLowComplete(g, s, low', n, v, w);
  }

  lemma OpenReachChild<T(!new)>(g: Graph<T>, s: State<T>, v: T, w: T)
    requires Reading(g, s, v, w) && s.open <= s.on && Downward(g, s.idx, s.open, s.on)
    ensures forall x :: x in s.open ==> Reaches(g, x, w)
  {
    ReachesStep(g, v, w);
    forall x | x in s.open ensures Reaches(g, x, w) {
      ReachesTrans(g, x, v, w);
    }
  }

  /** The entry leads to a new node, which is opened. */
  lemma VisitChild<T(!new)>(g: Graph<T>, s: State<T>, n: nat, v: T, w: T)
    requires Inv(g, n, s) && Reading(g, s, v, w) && w !in s.idx
    ensures Inv(g, n + 1, Visit(Advance(s, v), n, w))
  {
    hide Indexed, Consumed, Settled, Downward, Upward, LowSound, LowComplete;
    var r := Advance(s, v).read;
    AdvanceUsed(g, s, v, w);
    AdvanceConsumed(g, s, v, w);
    OpenReachChild(g, s, v, w);
    AdvanceLowComplete(g, s, s.low, n, v, w);
    VisitIndexed(s.idx, n, w);
    VisitConsumed(g, r, s.open, w);
    VisitSeen(g, r, w);
    VisitSettled(g, s.idx.Keys, s.on, w);
    VisitDownward(g, s.idx, s.open, s.on, n, w);
    VisitUpward(g, s.idx, s.open, s.on, n, w);
    VisitLowSound(g, s.idx, s.low, s.open, s.on, n, w);
    VisitLowComplete(g, s.idx, s.low, r, s.open, s.on, n, w);
    assert s.idx[w := n].Keys == s.idx.Keys + {w};
  }

  // ---- Closing a node ----------------------------------------------------------------

  /** `v` is the top open node and has no entry left. */
  ghost predicate Exhausted<T(!new)>(g: Graph<T>, s: State<T>, v: T)
  {
    && v in s.open && v in s.read && s.read[v] == |Succ(g, v)|
    && forall x :: x in s.open ==> At(s.idx, x) <= At(s.idx, v)
  }

  /** `p` is the open node just below `v`. */
  ghost predicate Parent<T(!new)>(s: State<T>, v: T, p: T)
  {
    p in s.open && p != v && forall x :: x in s.open && x != v ==> At(s.idx, x) <= At(s.idx, p)
  }

  /** A low link below `v` leads from `v` to an open node below it. */
  lemma LowLeadsToOpen<T(!new)>(g: Graph<T>, s: State<T>, v: T) returns (q: T)
    requires Upward(g, s.idx, s.open, s.on)
    requires HasLowNode(g, s.idx, s.on, v, At(s.low, v)) && At(s.low, v) < At(s.idx, v)
    ensures q in s.open && At(s.idx, q) < At(s.idx, v) && Reaches(g, v, q)
  {
    hide Reaches;
    var z :| z in s.on && At(s.idx, z) == At(s.low, v) && Reaches(g, v, z);
    assert HasOpenBelow(g, s.idx, s.open, z);
    q :| q in s.open && At(s.idx, q) <= At(s.idx, z) && Reaches(g, z, q);
    ReachesTrans(g, v, z, q);
  }

  lemma CloseUpward<T(!new)>(g: Graph<T>, s: State<T>, v: T)
    requires Upward(g, s.idx, s.open, s.on)
    requires HasLowNode(g, s.idx, s.on, v, At(s.low, v)) && At(s.low, v) < At(s.idx, v)
    ensures Upward(g, s.idx, s.open - {v}, s.on)
  {
    hide Reaches;
    var q := LowLeadsToOpen(g, s, v);
    hide HasLowNode;
    forall y | y in s.on ensures HasOpenBelow(g, s.idx, s.open - {v}, y) {
      assert HasOpenBelow(g, s.idx, s.open, y);
      var x :| x in s.open && At(s.idx, x) <= At(s.idx, y) && Reaches(g, y, x);
      if x == v {
        ReachesTrans(g, y, v, q);
        assert q in s.open - {v};
      } else {
        assert x in s.open - {v};
      }
    }
  }

  lemma CloseLowSound<T(!new)>(g: Graph<T>, s: State<T>, v: T, p: T)
    requires s.idx.Keys == s.low.Keys && s.open <= s.on <= s.idx.Keys
    requires v in s.open && Parent(s, v, p) && At(s.idx, p) <= At(s.idx, v)
    requires Downward(g, s.idx, s.open, s.on) && LowSound(g, s.idx, s.low, s.open, s.on)
    ensures LowSound(g, s.idx, LowerTo(s, p, s.low[v]).low, s.open - {v}, s.on)
  {
    var low' := LowerTo(s, p, s.low[v]).low;
    forall x | x in s.open - {v} ensures HasLowNode(g, s.idx, s.on, x, At(low', x)) {
      assert HasLowNode(g, s.idx, s.on, x, At(s.low, x));
      if x == p && low'[p] != s.low[p] {
        assert HasLowNode(g, s.idx, s.on, v, At(s.low, v));
        var z :| z in s.on && At(s.idx, z) == At(s.low, v) && Reaches(g, v, z);
        ReachesTrans(g, p, v, z);
      }
    }
  }

  lemma CloseLowComplete<T(!new)>(g: Graph<T>, s: State<T>, n: nat, v: T, p: T)
    requires Indexed(s.idx, n) && s.idx.Keys == s.low.Keys && s.open <= s.on <= s.idx.Keys
    requires v in s.open && Parent(s, v, p) && forall x :: x in s.open ==> At(s.idx, x) <= At(s.idx, v)
    requires LowComplete(g, s.idx, s.low, s.read, s.open, s.on)
    ensures LowComplete(g, s.idx, LowerTo(s, p, s.low[v]).low, s.read, s.open - {v}, s.on)
  {
    var low', open' := LowerTo(s, p, s.low[v]).low, s.open - {v};
    forall x, y, k, u | InSegment(s.idx, open', s.on, x, y) && Used(g, s.read, y, k, u) && u in s.on
      ensures At(low', x) <= At(s.idx, u)
    {
      if At(s.idx, y) < At(s.idx, v) {
        SegmentBelow(s, n, v, x, y);
      } else {
        assert p in open';
        assert At(s.idx, x) == At(s.idx, p);
        assert x == p;
        assert InSegment(s.idx, s.open, s.on, v, y);
      }
    }
  }

  lemma SegmentBelow<T(!new)>(s: State<T>, n: nat, v: T, x: T, y: T)
    requires InSegment(s.idx, s.open - {v}, s.on, x, y) && At(s.idx, y) < At(s.idx, v)
    ensures InSegment(s.idx, s.open, s.on, x, y)
  {
    forall z | z in s.open ensures At(s.idx, z) <= At(s.idx, x) || At(s.idx, y) < At(s.idx, z) {
      if z != v { assert z in s.open - {v}; }
    }
  }

  /** A node whose low link lies below it merges into its parent. */
  lemma CloseMerge<T(!new)>(g: Graph<T>, s: State<T>, n: nat, v: T, p: T)
    requires Inv(g, n, s) && Exhausted(g, s, v) && Parent(s, v, p)
    requires s.low[v] < s.idx[v]
    ensures Inv(g, n, LowerTo(s, p, s.low[v]).(open := s.open - {v}))
  {
    hide Indexed, Seen, Settled, Upward, LowComplete;
    assert HasLowNode(g, s.idx, s.on, v, At(s.low, v));
    CloseUpward(g, s, v);
    CloseLowSound(g, s, v, p);
    CloseLowComplete(g, s, n, v, p);
    assert LowerTo(s, p, s.low[v]).low.Keys == s.low.Keys;
  }

  /** A node whose low link lies below it does have a parent. */
  lemma MergeHasParent<T(!new)>(g: Graph<T>, s: State<T>, n: nat, v: T)
    requires Inv(g, n, s) && Exhausted(g, s, v) && s.low[v] < s.idx[v]
    ensures s.open != {v}
  {
    hide Indexed, Consumed, Seen, Settled, Downward, Upward, LowComplete, Reaches;
    assert HasLowNode(g, s.idx, s.on, v, At(s.low, v));
    var _ := LowLeadsToOpen(g, s, v);
  }

  // ---- Emitting a component ------------------------------------------------------------

  /** What stays on the stack when `v` and everything above it are popped. */
  function Below<T>(s: State<T>, v: T): set<T>
  {
    set y | y in s.on && At(s.idx, y) < At(s.idx, v)
  }

  lemma EmitSettled<T(!new)>(g: Graph<T>, s: State<T>, n: nat, v: T)
    requires Inv(g, n, s) && Exhausted(g, s, v) && s.low[v] == s.idx[v]
    ensures Settled(g, s.idx.Keys, Below(s, v))
  {
    hide Downward, Upward, LowSound;
    forall a, w | a in s.idx.Keys && a !in Below(s, v) && w in Succ(g, a)
      ensures w in s.idx.Keys && w !in Below(s, v)
    {
      if a in s.on {
        var k :| 0 <= k < |Succ(g, a)| && Succ(g, a)[k] == w;
        assert At(s.idx, v) <= At(s.idx, a);
        assert a in s.open ==> At(s.idx, a) == At(s.idx, v);
        assert Used(g, s.read, a, k, w);
        assert InSegment(s.idx, s.open, s.on, v, a);
      }
    }
  }

  lemma EmitUpward<T(!new)>(g: Graph<T>, s: State<T>, v: T)
    requires Upward(g, s.idx, s.open, s.on)
    ensures Upward(g, s.idx, s.open - {v}, Below(s, v))
  {
    forall y | y in Below(s, v) ensures HasOpenBelow(g, s.idx, s.open - {v}, y) {
      assert HasOpenBelow(g, s.idx, s.open, y);
      var x :| x in s.open && At(s.idx, x) <= At(s.idx, y) && Reaches(g, y, x);
      assert x in s.open - {v};
    }
  }

  lemma EmitLowSound<T(!new)>(g: Graph<T>, s: State<T>, n: nat, v: T)
    requires Inv(g, n, s) && Exhausted(g, s, v)
    ensures LowSound(g, s.idx, s.low, s.open - {v}, Below(s, v))
  {
    hide Consumed, Seen, Settled, Downward, Upward, LowComplete;
    forall x | x in s.open - {v} ensures HasLowNode(g, s.idx, Below(s, v), x, At(s.low, x)) {
      assert HasLowNode(g, s.idx, s.on, x, At(s.low, x));
      var z :| z in s.on && At(s.idx, z) == At(s.low, x) && Reaches(g, x, z);
      assert s.idx[x] != s.idx[v];
      assert z in Below(s, v);
    }
  }

  lemma EmitLowComplete<T(!new)>(g: Graph<T>, s: State<T>, n: nat, v: T)
    requires LowComplete(g, s.idx, s.low, s.read, s.open, s.on)
    ensures LowComplete(g, s.idx, s.low, s.read, s.open - {v}, Below(s, v))
  {
    var open', on' := s.open - {v}, Below(s, v);
    forall x, y, k, u | InSegment(s.idx, open', on', x, y) && Used(g, s.read, y, k, u) && u in on'
      ensures At(s.low, x) <= At(s.idx, u)
    {
      SegmentBelow(s.(on := on'), n, v, x, y);
      assert InSegment(s.idx, s.open, s.on, x, y);
    }
  }

  /** A node that is its own low link takes everything above it off the stack. */
  lemma CloseEmit<T(!new)>(g: Graph<T>, s: State<T>, n: nat, v: T)
    requires Inv(g, n, s) && Exhausted(g, s, v) && s.low[v] == s.idx[v]
    ensures Inv(g, n, s.(on := Below(s, v), open := s.open - {v}))
  {
    hide Seen, Settled, Upward, LowSound, LowComplete;
    EmitSettled(g, s, n, v);
    EmitUpward(g, s, v);
    EmitLowSound(g, s, n, v);
    EmitLowComplete(g, s, n, v);
    forall x | x in s.open - {v} ensures x in Below(s, v) {
      assert s.idx[x] != s.idx[v];
    }
  }

  lemma EmittedReachEachOther<T(!new)>(g: Graph<T>, s: State<T>, v: T, w: T)
    requires Downward(g, s.idx, s.open, s.on) && Upward(g, s.idx, s.open, s.on)
    requires v in s.open && s.open <= s.on && forall x :: x in s.open ==> At(s.idx, x) <= At(s.idx, v)
    requires w in s.on && At(s.idx, v) <= At(s.idx, w)
    ensures Mutual(g, v, w)
  {
    hide Reaches;
    assert Reaches(g, v, w);
    assert HasOpenBelow(g, s.idx, s.open, w);
    hide Upward;
    var x :| x in s.open && At(s.idx, x) <= At(s.idx, w) && Reaches(g, w, x);
    assert Reaches(g, x, v);
    hide Downward;
    ReachesTrans(g, w, x, v);
  }

  lemma SettledIsClosed<T(!new)>(g: Graph<T>, visited: set<T>, on: set<T>)
    requires Settled(g, visited, on)
    ensures Closed(g, visited - on)
  {
  }

  /** The popped nodes are exactly the strongly connected component of `v`. */
  lemma EmittedComponent<T(!new)>(g: Graph<T>, s: State<T>, n: nat, v: T, w: T)
    requires Inv(g, n, s) && Exhausted(g, s, v) && s.low[v] == s.idx[v]
    ensures w in s.on - Below(s, v) <==> Mutual(g, v, w)
  {
    hide Reaches, Closed, Indexed, Consumed, Seen, Settled, Downward, Upward, LowSound, LowComplete;
    if w in s.on - Below(s, v) {
      EmittedReachEachOther(g, s, v, w);
    }
    if Mutual(g, v, w) {
      EmitSettled(g, s, n, v);
      SettledIsClosed(g, s.idx.Keys, Below(s, v));
      SettledIsClosed(g, s.idx.Keys, s.on);
      ReachesStaysIn(g, s.idx.Keys - Below(s, v), v, w);
      if w !in s.on {
        ReachesStaysIn(g, s.idx.Keys - s.on, w, v);
      }
    }
  }

  // ---- The groups reported so far --------------------------------------------------------

  ghost predicate InGroup<T(!new)>(out: seq<seq<T>>, u: T, w: T)
  {
    exists i :: 0 <= i < |out| && u in out[i] && w in out[i]
  }

  /** `out` lists the components of two or more nodes among the nodes in `done`. */
  ghost predicate GroupsOk<T(!new)>(g: Graph<T>, out: seq<seq<T>>, done: set<T>)
  {
    && (forall i :: 0 <= i < |out| ==> |out[i]| >= 2 && Distinct(out[i]))
    && (forall i, u :: 0 <= i < |out| && u in out[i] ==> u in done)
    && (forall i, u, w :: 0 <= i < |out| && u in out[i] && w in out[i] ==> Mutual(g, u, w))
    && (forall i, j, u :: 0 <= i < j < |out| && u in out[i] ==> u !in out[j])
    && (forall u, w :: u in done && u != w && Mutual(g, u, w) ==> InGroup(out, u, w))
  }

  ghost predicate IsComponent<T(!new)>(g: Graph<T>, v: T, comp: seq<T>)
  {
    Distinct(comp) && forall w :: w in comp <==> Mutual(g, v, w)
  }

  lemma ComponentMutual<T(!new)>(g: Graph<T>, v: T, comp: seq<T>, u: T, w: T)
    requires IsComponent(g, v, comp) && u in comp
    ensures w in comp <==> Mutual(g, u, w)
  {
    hide Reaches;
    if w in comp {
      ReachesTrans(g, u, v, w);
      ReachesTrans(g, w, v, u);
    }
    if Mutual(g, u, w) {
      ReachesTrans(g, v, u, w);
      ReachesTrans(g, w, u, v);
    }
  }

  lemma SmallComponent<T(!new)>(g: Graph<T>, out: seq<seq<T>>, done: set<T>, v: T, comp: seq<T>)
    requires GroupsOk(g, out, done) && IsComponent(g, v, comp) && |comp| < 2
    ensures GroupsOk(g, out, done + (set x | x in comp))
  {
    forall u, w | u in comp && u != w ensures !Mutual(g, u, w) {
      ComponentMutual(g, v, comp, u, w);
    }
  }

  lemma LargeComponent<T(!new)>(
    g: Graph<T>, out: seq<seq<T>>, done: set<T>, v: T, comp: seq<T>, group: seq<T>)
    requires GroupsOk(g, out, done) && IsComponent(g, v, comp) && |comp| >= 2
    requires (set x | x in comp) !! done
    requires multiset(group) == multiset(comp)
    ensures GroupsOk(g, out + [group], done + (set x | x in comp))
  {
    hide Reaches, Mutual;
    var out', done' := out + [group], done + (set x | x in comp);
    SameElements(comp, group);
    assert |group| == |multiset(group)| == |comp|;
    forall i, j, u | 0 <= i < j < |out'| && u in out'[i] ensures u !in out'[j] {
      if j == |out| { assert u in out[i] && u in done; }
    }
    forall i, u, w | 0 <= i < |out'| && u in out'[i] && w in out'[i] ensures Mutual(g, u, w) {
      if i == |out| { ComponentMutual(g, v, comp, u, w); }
    }
    forall u, w | u in done' && u != w && Mutual(g, u, w) ensures InGroup(out', u, w) {
      if u in done {
        var i :| 0 <= i < |out| && u in out[i] && w in out[i];
        assert out'[i] == out[i];
      } else {
        ComponentMutual(g, v, comp, u, w);
        assert out'[|out|] == group;
      }
    }
  }

  // ---- The stacks and the records of the loop -----------------------------------------------

  /** One entry of the work stack: a node and the position of its iterator. */
  datatype Frame<!T> = Frame(v: T, next: nat)

  ghost predicate Ascending<T(!new)>(idx: map<T, nat>, list: seq<T>, s: set<T>)
  {
    && (forall x :: x in list <==> x in s)
    && (forall i, j :: 0 <= i < j < |list| ==> At(idx, list[i]) < At(idx, list[j]))
  }

  ghost predicate FramesMatch<T(!new)>(work: seq<Frame<T>>, opens: seq<T>, read: map<T, nat>)
  {
    && |work| == |opens|
    && forall i :: 0 <= i < |work| ==> work[i].v == opens[i] && work[i].v in read && read[work[i].v] == work[i].next
  }

  ghost predicate Stacks<T(!new)>(s: State<T>, stack: seq<T>, opens: seq<T>, work: seq<Frame<T>>)
  {
    && Ascending(s.idx, stack, s.on)
    && Ascending(s.idx, opens, s.open)
    && FramesMatch(work, opens, s.read)
  }

  lemma AscendingPush<T(!new)>(idx: map<T, nat>, list: seq<T>, s: set<T>, n: nat, w: T)
    requires Indexed(idx, n) && Ascending(idx, list, s) && s <= idx.Keys && w !in idx
    ensures Ascending(idx[w := n], list + [w], s + {w})
  {
    var list', idx' := list + [w], idx[w := n];
    forall i, j | 0 <= i < j < |list'| ensures At(idx', list'[i]) < At(idx', list'[j]) {
      assert list[i] in s && list'[i] == list[i];
      if j < |list| { assert list[j] in s && list'[j] == list[j]; }
    }
  }

  lemma AscendingPop<T(!new)>(idx: map<T, nat>, list: seq<T>, s: set<T>)
    requires Ascending(idx, list, s) && list != []
    ensures var v := list[|list| - 1];
      && Ascending(idx, list[..|list| - 1], s - {v}) && v in s
      && forall x :: x in s - {v} ==> At(idx, x) < At(idx, v)
  {
    var v, rest := list[|list| - 1], list[..|list| - 1];
    forall x ensures x in rest <==> x in s - {v} {
      if x in s - {v} {
        var i :| 0 <= i < |list| && list[i] == x;
        assert rest[i] == x;
      }
    }
  }

  lemma FramesPush<T(!new)>(work: seq<Frame<T>>, opens: seq<T>, read: map<T, nat>, w: T)
    requires FramesMatch(work, opens, read) && w !in read
    ensures FramesMatch(work + [Frame(w, 0)], opens + [w], read[w := 0])
  {
  }

  lemma FramesAdvance<T(!new)>(work: seq<Frame<T>>, opens: seq<T>, read: map<T, nat>)
    requires FramesMatch(work, opens, read) && work != []
    requires forall i :: 0 <= i < |opens| - 1 ==> opens[i] != opens[|opens| - 1]
    ensures var top := |work| - 1; var f := work[top];
      FramesMatch(work[top := Frame(f.v, f.next + 1)], opens, read[f.v := f.next + 1])
  {
  }

  lemma StacksVisit<T(!new)>(
    s: State<T>, n: nat, w: T, stack: seq<T>, opens: seq<T>, work: seq<Frame<T>>)
    requires Indexed(s.idx, n) && s.idx.Keys == s.read.Keys && s.on <= s.idx.Keys && s.open <= s.idx.Keys
    requires Stacks(s, stack, opens, work) && w !in s.idx
    ensures Stacks(Visit(s, n, w), stack + [w], opens + [w], work + [Frame(w, 0)])
  {
    hide Indexed, Ascending, FramesMatch;
    AscendingPush(s.idx, stack, s.on, n, w);
    AscendingPush(s.idx, opens, s.open, n, w);
    FramesPush(work, opens, s.read, w);
  }

  lemma StacksAdvance<T(!new)>(s: State<T>, stack: seq<T>, opens: seq<T>, work: seq<Frame<T>>)
    requires Stacks(s, stack, opens, work) && work != []
    ensures work[|work| - 1].v in s.read
    ensures var f := work[|work| - 1];
      Stacks(Advance(s, f.v), stack, opens, work[|work| - 1 := Frame(f.v, f.next + 1)])
  {
    FramesAdvance(work, opens, s.read);
  }

  lemma StacksClose<T(!new)>(s: State<T>, stack: seq<T>, opens: seq<T>, work: seq<Frame<T>>, on: set<T>, rest: seq<T>)
    requires Stacks(s, stack, opens, work) && work != [] && Ascending(s.idx, rest, on)
    ensures Stacks(s.(on := on, open := s.open - {work[|work| - 1].v}), rest, opens[..|opens| - 1], work[..|work| - 1])
  {
    AscendingPop(s.idx, opens, s.open);
    hide Ascending;
  }

  /** The top frame is the highest open node, the frame below it its parent. */
  lemma TopFrame<T(!new)>(s: State<T>, stack: seq<T>, opens: seq<T>, work: seq<Frame<T>>)
    requires Stacks(s, stack, opens, work) && work != []
    ensures var f := work[|work| - 1];
      && f.v in s.open && f.v in s.read && s.read[f.v] == f.next
      && (forall x :: x in s.open ==> At(s.idx, x) <= At(s.idx, f.v))
      && (if |work| == 1 then s.open == {f.v} else Parent(s, f.v, work[|work| - 2].v))
  {
    AscendingPop(s.idx, opens, s.open);
    if |work| > 1 {
      assert work[|work| - 2].v == opens[|opens| - 2];
      AscendingPop(s.idx, opens[..|opens| - 1], s.open - {opens[|opens| - 1]});
    }
  }

  /** `order` lists the indexed nodes by index. */
  ghost predicate OrderOk<T(!new)>(order: seq<T>, n: nat, idx: map<T, nat>)
  {
    && |order| == n
    && (forall i :: 0 <= i < n ==> order[i] in idx && idx[order[i]] == i)
    && (forall v :: v in idx ==> v in order)
  }

  /** `taken` lists the consumed adjacency entries, each once. */
  ghost predicate ReadsOk<T(!new)>(taken: seq<(T, nat)>, read: map<T, nat>)
  {
    && Distinct(taken)
    && forall v, k: nat :: (v, k) in taken <==> v in read && k < read[v]
  }

  ghost predicate Rooted<T(!new)>(g: Graph<T>, nodes: seq<T>, visited: set<T>)
  {
    forall v :: v in visited ==> ReachedFrom(g, nodes, v)
  }

  ghost predicate Records<T(!new)>(
    g: Graph<T>, nodes: seq<T>, n: nat, s: State<T>, order: seq<T>, taken: seq<(T, nat)>, out: seq<seq<T>>)
  {
    && OrderOk(order, n, s.idx) && ReadsOk(taken, s.read)
    && Rooted(g, nodes, s.idx.Keys) && GroupsOk(g, out, s.idx.Keys - s.on)
  }

  lemma OrderVisit<T(!new)>(order: seq<T>, n: nat, idx: map<T, nat>, w: T)
    requires OrderOk(order, n, idx) && w !in idx
    ensures OrderOk(order + [w], n + 1, idx[w := n])
  {
  }

  lemma ReadsVisit<T(!new)>(taken: seq<(T, nat)>, read: map<T, nat>, w: T)
    requires ReadsOk(taken, read) && w !in read
    ensures ReadsOk(taken, read[w := 0])
  {
  }

  lemma ReadsAdvance<T(!new)>(taken: seq<(T, nat)>, read: map<T, nat>, v: T)
    requires ReadsOk(taken, read) && v in read
    ensures ReadsOk(taken + [(v, read[v])], read[v := read[v] + 1])
  {
    var taken', read' := taken + [(v, read[v])], read[v := read[v] + 1];
    forall a, k ensures (a, k) in taken' <==> a in read' && k < read'[a] {
      assert (a, k) in taken' <==> (a, k) in taken || (a == v && k == read[v]);
    }
  }

  lemma RootedVisit<T(!new)>(g: Graph<T>, nodes: seq<T>, visited: set<T>, v: T, w: T)
    requires Rooted(g, nodes, visited) && (w in nodes || (v in visited && w in Succ(g, v)))
    ensures Rooted(g, nodes, visited + {w})
  {
    hide Reaches;
    if w in nodes {
      ReachesSelf(g, w);
    } else {
      var r :| r in nodes && Reaches(g, r, v);
      ReachesStep(g, v, w);
      ReachesTrans(g, r, v, w);
    }
    assert ReachedFrom(g, nodes, w);
  }

  lemma RecordsVisit<T(!new)>(
    g: Graph<T>, nodes: seq<T>, n: nat, s: State<T>, order: seq<T>, taken: seq<(T, nat)>, out: seq<seq<T>>, v: T, w: T)
    requires s.idx.Keys == s.read.Keys && s.on <= s.idx.Keys
    requires Records(g, nodes, n, s, order, taken, out) && w !in s.idx
    requires w in nodes || (v in s.idx && w in Succ(g, v))
    ensures Records(g, nodes, n + 1, Visit(s, n, w), order + [w], taken, out)
  {
    hide OrderOk, ReadsOk, Rooted, GroupsOk;
    OrderVisit(order, n, s.idx, w);
    ReadsVisit(taken, s.read, w);
    RootedVisit(g, nodes, s.idx.Keys, v, w);
    var s' := Visit(s, n, w);
    assert s'.idx.Keys == s.idx.Keys + {w};
    assert s'.idx.Keys - s'.on == s.idx.Keys - s.on;
  }

  lemma RecordsAdvance<T(!new)>(
    g: Graph<T>, nodes: seq<T>, n: nat, s: State<T>, order: seq<T>, taken: seq<(T, nat)>, out: seq<seq<T>>, v: T)
    requires Records(g, nodes, n, s, order, taken, out) && v in s.read
    ensures Records(g, nodes, n, Advance(s, v), order, taken + [(v, s.read[v])], out)
  {
    hide OrderOk, ReadsOk, Rooted, GroupsOk;
    ReadsAdvance(taken, s.read, v);
  }

  ghost predicate Arranged<T(!new)>(sort: seq<T> -> seq<T>, group: seq<T>)
  {
    exists c :: group == sort(c)
  }

  lemma RecordsEmit<T(!new)>(
    g: Graph<T>, nodes: seq<T>, n: nat, s: State<T>, order: seq<T>, taken: seq<(T, nat)>, out: seq<seq<T>>,
    v: T, comp: seq<T>, out': seq<seq<T>>, sort: seq<T> -> seq<T>)
    requires Inv(g, n, s) && Records(g, nodes, n, s, order, taken, out)
    requires Exhausted(g, s, v) && s.low[v] == s.idx[v]
    requires Distinct(comp) && forall w :: w in comp <==> w in s.on - Below(s, v)
    requires forall c :: multiset(sort(c)) == multiset(c)
    requires out' == if |comp| >= 2 then out + [sort(comp)] else out
    ensures Records(g, nodes, n, s.(on := Below(s, v), open := s.open - {v}), order, taken, out')
  {
    hide OrderOk, ReadsOk, Rooted, GroupsOk, Consumed, Seen, Settled, Downward, Upward, LowSound, LowComplete, Mutual;
    forall w ensures w in comp <==> Mutual(g, v, w) { EmittedComponent(g, s, n, v, w); }
    assert IsComponent(g, v, comp);
    var done := s.idx.Keys - s.on;
    assert s.idx.Keys - Below(s, v) == done + (set x | x in comp);
    if |comp| >= 2 {
      LargeComponent(g, out, done, v, comp, sort(comp));
    } else {
      SmallComponent(g, out, done, v, comp);
    }
  }

  // ---- The search ---------------------------------------------------------------------------

  /** Pops the Tarjan stack down to and including `v`. */
  method PopComponent<T(==,!new)>(stack: seq<T>, onStack: set<T>, v: T, ghost idx: map<T, nat>)
    returns (rest: seq<T>, on: set<T>, comp: seq<T>)
    requires Ascending(idx, stack, onStack) && v in onStack
    ensures on == set y | y in onStack && At(idx, y) < At(idx, v)
    ensures Ascending(idx, rest, on)
    ensures Distinct(comp) && forall w :: w in comp <==> w in onStack - on
  {
    rest, on, comp := stack, onStack, [];
    while true
      invariant Ascending(idx, rest, on) && v in on && on <= onStack
      invariant Distinct(comp) && forall w :: w in comp <==> w in onStack - on
      invariant forall w :: w in onStack - on ==> At(idx, v) < At(idx, w)
      decreases |rest|
    {
      AscendingPop(idx, rest, on);
      var w := rest[|rest| - 1];
      rest := rest[..|rest| - 1];
      on := on - {w};
      comp := comp + [w];
      if w == v {
        break;
      }
    }
  }

  /** The adjacency entries of the nodes in `order`, each listed once in `taken`. */
  ghost predicate EachEntryOnce<T(!new)>(g: Graph<T>, order: seq<T>, taken: seq<(T, nat)>)
  {
    Distinct(taken) && forall v, k: nat :: (v, k) in taken <==> v in order && k < |Succ(g, v)|
  }

  /** `out` is the list of strongly connected components of two or more nodes
      among the nodes reachable from `nodes`. */
  ghost predicate CycleGroups<T(!new)>(g: Graph<T>, nodes: seq<T>, out: seq<seq<T>>)
  {
    && (forall i :: 0 <= i < |out| ==> |out[i]| >= 2 && Distinct(out[i]))
    && (forall i, u :: 0 <= i < |out| && u in out[i] ==> ReachedFrom(g, nodes, u))
    && (forall i, j, u :: 0 <= i < j < |out| && u in out[i] ==> u !in out[j])
    && (forall u, w :: ReachedFrom(g, nodes, u) && u != w ==> (InGroup(out, u, w) <==> Mutual(g, u, w)))
  }

  /** `order` lists the nodes reachable from `nodes`, each once. */
  ghost predicate IndexedOnce<T(!new)>(g: Graph<T>, nodes: seq<T>, order: seq<T>)
  {
    Distinct(order) && forall v :: v in order <==> ReachedFrom(g, nodes, v)
  }

  /** A closed set that holds the roots and only nodes reachable from them. */
  lemma VisitedIsReached<T(!new)>(g: Graph<T>, nodes: seq<T>, visited: set<T>)
    requires Closed(g, visited) && Rooted(g, nodes, visited)
    requires forall i :: 0 <= i < |nodes| ==> nodes[i] in visited
    ensures forall v :: v in visited <==> ReachedFrom(g, nodes, v)
  {
    hide Closed, Reaches;
    forall v | ReachedFrom(g, nodes, v) ensures v in visited {
      var r :| r in nodes && Reaches(g, r, v);
      ReachesStaysIn(g, visited, r, v);
    }
  }

  lemma GroupsAreCycleGroups<T(!new)>(g: Graph<T>, nodes: seq<T>, visited: set<T>, out: seq<seq<T>>)
    requires GroupsOk(g, out, visited) && forall v :: v in visited <==> ReachedFrom(g, nodes, v)
    ensures CycleGroups(g, nodes, out)
  {
    hide Mutual, ReachedFrom;
    forall u, w | InGroup(out, u, w) ensures Mutual(g, u, w) {
      var i :| 0 <= i < |out| && u in out[i] && w in out[i];
    }
  }

  lemma OrderIsIndexedOnce<T(!new)>(g: Graph<T>, nodes: seq<T>, n: nat, idx: map<T, nat>, order: seq<T>)
    requires OrderOk(order, n, idx) && forall v :: v in idx.Keys <==> ReachedFrom(g, nodes, v)
    ensures IndexedOnce(g, nodes, order)
  {
    hide ReachedFrom;
  }

  lemma TakenIsEachEntryOnce<T(!new)>(
    g: Graph<T>, n: nat, idx: map<T, nat>, read: map<T, nat>, order: seq<T>, taken: seq<(T, nat)>)
    requires OrderOk(order, n, idx) && idx.Keys == read.Keys && ReadsOk(taken, read) && Consumed(g, read, {})
    ensures EachEntryOnce(g, order, taken)
  {
    assert forall v :: v in order <==> v in idx;
    forall v, k: nat ensures (v, k) in taken <==> v in order && k < |Succ(g, v)| {
      assert (v, k) in taken <==> v in read && k < read[v];
    }
  }

  /** What every pass of the search loop keeps. */
  ghost predicate Search<T(!new)>(
    g: Graph<T>, nodes: seq<T>, n: nat, s: State<T>, stack: seq<T>, opens: seq<T>, work: seq<Frame<T>>,
    order: seq<T>, taken: seq<(T, nat)>, out: seq<seq<T>>)
  {
    && Inv(g, n, s) && Stacks(s, stack, opens, work)
    && Records(g, nodes, n, s, order, taken, out)
  }

  lemma StartSearch<T(!new)>(g: Graph<T>, nodes: seq<T>)
    ensures Search(g, nodes, 0, State(map[], map[], map[], {}, {}), [], [], [], [], [], [])
  {
  }

  lemma StepRoot<T(!new)>(
    g: Graph<T>, nodes: seq<T>, n: nat, s: State<T>, stack: seq<T>, order: seq<T>, taken: seq<(T, nat)>,
    out: seq<seq<T>>, w: T)
    requires Search(g, nodes, n, s, stack, [], [], order, taken, out)
    requires w in nodes && w !in s.idx
    ensures Search(g, nodes, n + 1, Visit(s, n, w), stack + [w], [w], [Frame(w, 0)], order + [w], taken, out)
  {
    hide Indexed, Consumed, Seen, Settled, Downward, Upward, LowSound, LowComplete, Records, FramesMatch, Ascending;
    NoFramesNoOpen(s, stack);
    VisitRoot(g, s, n, w);
    StacksVisit(s, n, w, stack, [], []);
    RecordsVisit(g, nodes, n, s, order, taken, out, w, w);
    assert [] + [w] == [w] && [] + [Frame(w, 0)] == [Frame(w, 0)];
  }

  lemma StepSkip<T(!new)>(
    g: Graph<T>, nodes: seq<T>, n: nat, s: State<T>, stack: seq<T>, opens: seq<T>, work: seq<Frame<T>>,
    order: seq<T>, taken: seq<(T, nat)>, out: seq<seq<T>>, v: T, k: nat, w: T)
    requires Search(g, nodes, n, s, stack, opens, work, order, taken, out)
    requires work != [] && work[|work| - 1] == Frame(v, k) && k < |Succ(g, v)| && w == Succ(g, v)[k]
    requires w in s.idx && w !in s.on
    ensures v in s.read
    ensures Search(g, nodes, n, Advance(s, v), stack, opens, work[|work| - 1 := Frame(v, k + 1)],
                   order, taken + [(v, k)], out)
  {
    hide Inv, Records, Stacks;
    TopFrame(s, stack, opens, work);
    SkipEntry(g, s, n, v, w);
    StacksAdvance(s, stack, opens, work);
    RecordsAdvance(g, nodes, n, s, order, taken, out, v);
  }

  lemma StepLower<T(!new)>(
    g: Graph<T>, nodes: seq<T>, n: nat, s: State<T>, stack: seq<T>, opens: seq<T>, work: seq<Frame<T>>,
    order: seq<T>, taken: seq<(T, nat)>, out: seq<seq<T>>, v: T, k: nat, w: T)
    requires Search(g, nodes, n, s, stack, opens, work, order, taken, out)
    requires work != [] && work[|work| - 1] == Frame(v, k) && k < |Succ(g, v)| && w == Succ(g, v)[k]
    requires w in s.on
    ensures v in s.read && v in s.low && w in s.idx
    ensures Search(g, nodes, n, LowerTo(Advance(s, v), v, s.idx[w]), stack, opens, work[|work| - 1 := Frame(v, k + 1)],
                   order, taken + [(v, k)], out)
  {
    hide Indexed, Consumed, Seen, Settled, Downward, Upward, LowSound, LowComplete;
    hide Ascending, FramesMatch, OrderOk, ReadsOk, Rooted, GroupsOk;
    TopFrame(s, stack, opens, work);
    LowerEntry(g, s, n, v, w);
    StacksAdvance(s, stack, opens, work);
    RecordsAdvance(g, nodes, n, s, order, taken, out, v);
  }

  lemma StepChild<T(!new)>(
    g: Graph<T>, nodes: seq<T>, n: nat, s: State<T>, stack: seq<T>, opens: seq<T>, work: seq<Frame<T>>,
    order: seq<T>, taken: seq<(T, nat)>, out: seq<seq<T>>, v: T, k: nat, w: T)
    requires Search(g, nodes, n, s, stack, opens, work, order, taken, out)
    requires work != [] && work[|work| - 1] == Frame(v, k) && k < |Succ(g, v)| && w == Succ(g, v)[k]
    requires w !in s.idx
    ensures v in s.read
    ensures Search(g, nodes, n + 1, Visit(Advance(s, v), n, w), stack + [w], opens + [w],
                   work[|work| - 1 := Frame(v, k + 1)] + [Frame(w, 0)], order + [w], taken + [(v, k)], out)
  {
    hide Indexed, Consumed, Seen, Settled, Downward, Upward, LowSound, LowComplete;
    hide Ascending, FramesMatch, OrderOk, ReadsOk, Rooted, GroupsOk;
    TopFrame(s, stack, opens, work);
    VisitChild(g, s, n, v, w);
    StacksAdvance(s, stack, opens, work);
    RecordsAdvance(g, nodes, n, s, order, taken, out, v);
    var s1 := Advance(s, v);
    assert s1.read.Keys == s.read.Keys;
    hide Stacks, Records;
    StacksVisit(s1, n, w, stack, opens, work[|work| - 1 := Frame(v, k + 1)]);
    RecordsVisit(g, nodes, n, s1, order, taken + [(v, k)], out, v, w);
  }

  /** The low links after the top node `v` is popped off the work stack. */
  function CloseLow<T>(low: map<T, nat>, v: T, rest: seq<Frame<T>>): map<T, nat>
  {
    if rest == [] || v !in low || rest[|rest| - 1].v !in low then low
    else low[rest[|rest| - 1].v := Min(low[rest[|rest| - 1].v], low[v])]
  }

  lemma MergeNode<T(!new)>(g: Graph<T>, s: State<T>, n: nat, v: T, rest: seq<Frame<T>>)
    requires Inv(g, n, s) && Exhausted(g, s, v) && v in s.low && v in s.idx && s.low[v] != s.idx[v]
    requires if rest == [] then s.open == {v} else Parent(s, v, rest[|rest| - 1].v)
    ensures Inv(g, n, s.(low := CloseLow(s.low, v, rest), open := s.open - {v}))
  {
    hide Indexed, Consumed, Seen, Settled, Downward, Upward, LowComplete;
    assert HasLowNode(g, s.idx, s.on, v, At(s.low, v));
    hide LowSound, HasLowNode;
    MergeHasParent(g, s, n, v);
    CloseMerge(g, s, n, v, rest[|rest| - 1].v);
  }

  lemma StepMerge<T(!new)>(
    g: Graph<T>, nodes: seq<T>, n: nat, s: State<T>, stack: seq<T>, opens: seq<T>, work: seq<Frame<T>>,
    order: seq<T>, taken: seq<(T, nat)>, out: seq<seq<T>>, v: T, k: nat)
    requires Search(g, nodes, n, s, stack, opens, work, order, taken, out)
    requires work != [] && work[|work| - 1] == Frame(v, k) && k >= |Succ(g, v)|
    requires v in s.low && v in s.idx && s.low[v] != s.idx[v]
    ensures Search(g, nodes, n, s.(low := CloseLow(s.low, v, work[..|work| - 1]), open := s.open - {v}),
                   stack, opens[..|opens| - 1], work[..|work| - 1], order, taken, out)
  {
    hide Inv, Ascending, FramesMatch, OrderOk, ReadsOk, Rooted, GroupsOk;
    TopFrame(s, stack, opens, work);
    TopExhausted(g, s, n, v);
    MergeNode(g, s, n, v, work[..|work| - 1]);
    StacksClose(s, stack, opens, work, s.on, stack);
    assert s.(on := s.on, open := s.open - {v}) == s.(open := s.open - {v});
  }

  lemma TopExhausted<T(!new)>(g: Graph<T>, s: State<T>, n: nat, v: T)
    requires Inv(g, n, s) && v in s.open && v in s.read && s.read[v] >= |Succ(g, v)|
    requires forall x :: x in s.open ==> At(s.idx, x) <= At(s.idx, v)
    ensures Exhausted(g, s, v)
  {
    hide Indexed, Seen, Settled, Downward, Upward, LowSound, LowComplete;
  }

  lemma StepEmit<T(!new)>(
    g: Graph<T>, nodes: seq<T>, n: nat, s: State<T>, stack: seq<T>, opens: seq<T>, work: seq<Frame<T>>,
    order: seq<T>, taken: seq<(T, nat)>, out: seq<seq<T>>, v: T, k: nat,
    rest: seq<T>, comp: seq<T>, out': seq<seq<T>>, sort: seq<T> -> seq<T>)
    requires Search(g, nodes, n, s, stack, opens, work, order, taken, out)
    requires work != [] && work[|work| - 1] == Frame(v, k) && k >= |Succ(g, v)|
    requires v in s.low && v in s.idx && s.low[v] == s.idx[v]
    requires Ascending(s.idx, rest, Below(s, v))
    requires Distinct(comp) && forall w :: w in comp <==> w in s.on - Below(s, v)
    requires forall c :: multiset(sort(c)) == multiset(c)
    requires out' == if |comp| >= 2 then out + [sort(comp)] else out
    ensures Search(g, nodes, n,
                   s.(low := CloseLow(s.low, v, work[..|work| - 1]), on := Below(s, v), open := s.open - {v}),
                   rest, opens[..|opens| - 1], work[..|work| - 1], order, taken, out')
  {
    hide Indexed, Seen, Settled, Downward, Upward, LowComplete;
    hide Ascending, FramesMatch, OrderOk, ReadsOk, Rooted, GroupsOk;
    TopFrame(s, stack, opens, work);
    EmitKeepsLow(g, s, n, v, work[..|work| - 1]);
    hide LowSound;
    CloseEmit(g, s, n, v);
    RecordsEmit(g, nodes, n, s, order, taken, out, v, comp, out', sort);
    StacksClose(s, stack, opens, work, Below(s, v), rest);
  }

  /** A component's root passes no lower link to its parent. */
  lemma EmitKeepsLow<T(!new)>(g: Graph<T>, s: State<T>, n: nat, v: T, rest: seq<Frame<T>>)
    requires s.idx.Keys == s.low.Keys && LowSound(g, s.idx, s.low, s.open, s.on)
    requires v in s.low && s.low[v] == s.idx[v]
    requires rest == [] || Parent(s, v, rest[|rest| - 1].v)
    requires forall x :: x in s.open ==> At(s.idx, x) <= At(s.idx, v)
    ensures CloseLow(s.low, v, rest) == s.low
  {
    if rest != [] {
      var p := rest[|rest| - 1].v;
      assert HasLowNode(g, s.idx, s.on, p, At(s.low, p));
    }
  }

  /** The nodes the search may still index. */
  ghost function Unseen<T(!new)>(g: Graph<T>, nodes: seq<T>, visited: set<T>): set<T>
  {
    Universe(g) + (set v | v in nodes) - visited
  }

  lemma UnseenShrinks<T(!new)>(g: Graph<T>, nodes: seq<T>, visited: set<T>, v: T, w: T)
    requires w in Succ(g, v) && w !in visited
    ensures Unseen(g, nodes, visited + {w}) < Unseen(g, nodes, visited)
  {
    assert w in Unseen(g, nodes, visited) && w !in Unseen(g, nodes, visited + {w});
  }

  lemma TopKnown<T(!new)>(
    g: Graph<T>, nodes: seq<T>, n: nat, s: State<T>, stack: seq<T>, opens: seq<T>, work: seq<Frame<T>>,
    order: seq<T>, taken: seq<(T, nat)>, out: seq<seq<T>>)
    requires Search(g, nodes, n, s, stack, opens, work, order, taken, out) && work != []
    ensures var v := work[|work| - 1].v; v in s.idx && v in s.low && v in s.on
    ensures Ascending(s.idx, stack, s.on) && |opens| == |work|
  {
    hide Indexed, Consumed, Seen, Settled, Downward, Upward, LowSound, LowComplete, Ascending, Records;
    TopFrame(s, stack, opens, work);
  }

  lemma FinishSearch<T(!new)>(
    g: Graph<T>, nodes: seq<T>, n: nat, s: State<T>, stack: seq<T>, order: seq<T>, taken: seq<(T, nat)>,
    out: seq<seq<T>>)
    requires Search(g, nodes, n, s, stack, [], [], order, taken, out)
    requires forall i :: 0 <= i < |nodes| ==> nodes[i] in s.idx
    ensures CycleGroups(g, nodes, out) && IndexedOnce(g, nodes, order) && EachEntryOnce(g, order, taken)
  {
    hide Inv, Stacks, OrderOk, ReadsOk, Rooted, GroupsOk, ReachedFrom;
    hide CycleGroups, IndexedOnce, EachEntryOnce;
    NoFramesNoOpen(s, stack);
    SearchSettled(g, n, s);
    hide Closed, Consumed;
    VisitedIsReached(g, nodes, s.idx.Keys);
    GroupsAreCycleGroups(g, nodes, s.idx.Keys, out);
    OrderIsIndexedOnce(g, nodes, n, s.idx, order);
    TakenIsEachEntryOnce(g, n, s.idx, s.read, order, taken);
  }

  lemma NoFramesNoOpen<T(!new)>(s: State<T>, stack: seq<T>)
    requires Stacks(s, stack, [], [])
    ensures s.open == {}
  {
    assert forall x :: x in s.open ==> x in [];
  }

  lemma SearchSettled<T(!new)>(g: Graph<T>, n: nat, s: State<T>)
    requires Inv(g, n, s) && s.open == {}
    ensures s.idx.Keys - s.on == s.idx.Keys && Closed(g, s.idx.Keys)
    ensures s.idx.Keys == s.read.Keys && Consumed(g, s.read, {})
  {
    hide Indexed, Consumed, Seen, Settled, Downward, Upward, LowSound, LowComplete, Closed;
    NoOpenNoStack(g, s.idx, s.open, s.on);
    assert s.idx.Keys - s.on == s.idx.Keys;
    SettledIsClosed(g, s.idx.Keys, s.on);
  }

  lemma SortArranges<T(!new)>(sort: seq<T> -> seq<T>, c: seq<T>)
    ensures Arranged(sort, sort(c))
  {
  }

  /** The cycle groups: the strongly connected components of two or more nodes
      among the nodes reachable from `nodes`, each arranged by `sort`. */
  method StronglyConnectedCycles<T(==,!new)>(nodes: seq<T>, adj: Graph<T>, sort: seq<T> -> seq<T>)
    returns (out: seq<seq<T>>, ghost order: seq<T>, ghost taken: seq<(T, nat)>)
    requires forall c :: multiset(sort(c)) == multiset(c)
    ensures CycleGroups(adj, nodes, out)
    ensures forall i :: 0 <= i < |out| ==> Arranged(sort, out[i])
    ensures IndexedOnce(adj, nodes, order) && EachEntryOnce(adj, order, taken)
  {
    hide Search, Arranged, CycleGroups, IndexedOnce, EachEntryOnce;
    var index := 0;
    var idx: map<T, nat>, low: map<T, nat> := map[], map[];
    var onStack: set<T>, stack: seq<T> := {}, [];
    out, order, taken := [], [], [];
    ghost var s: State<T> := State(map[], map[], map[], {}, {});
    ghost var opens: seq<T> := [];
    StartSearch(adj, nodes);
    for r := 0 to |nodes|
      invariant s.idx == idx && s.low == low && s.on == onStack
      invariant Search(adj, nodes, index, s, stack, [], [], order, taken, out)
      invariant forall i :: 0 <= i < r ==> nodes[i] in idx
      invariant forall i :: 0 <= i < |out| ==> Arranged(sort, out[i])
    {
      var root := nodes[r];
      if root in idx {
        continue;
      }
      StepRoot(adj, nodes, index, s, stack, order, taken, out, root);
      s, opens, order := Visit(s, index, root), [root], order + [root];
      var work := [Frame(root, 0)];
      idx, low, stack, onStack := idx[root := index], low[root := index], stack + [root], onStack + {root};
      index := index + 1;
      ghost var known := idx.Keys;
      while work != []
        invariant s.idx == idx && s.low == low && s.on == onStack
        invariant Search(adj, nodes, index, s, stack, opens, work, order, taken, out)
        invariant known <= idx.Keys && |opens| == |work|
        invariant forall i :: 0 <= i < |out| ==> Arranged(sort, out[i])
        decreases Unseen(adj, nodes, idx.Keys), |work|,
                  if work == [] then 0 else |Succ(adj, work[|work| - 1].v)| - work[|work| - 1].next
      {
        var top := |work| - 1;
        var v, k := work[top].v, work[top].next;
        if k < |Succ(adj, v)| {
          var w := Succ(adj, v)[k];
          if w !in idx {
            StepChild(adj, nodes, index, s, stack, opens, work, order, taken, out, v, k, w);
            UnseenShrinks(adj, nodes, idx.Keys, v, w);
            s, opens, order := Visit(Advance(s, v), index, w), opens + [w], order + [w];
            work := work[top := Frame(v, k + 1)] + [Frame(w, 0)];
            idx, low, stack, onStack := idx[w := index], low[w := index], stack + [w], onStack + {w};
            index := index + 1;
          } else if w in onStack {
            StepLower(adj, nodes, index, s, stack, opens, work, order, taken, out, v, k, w);
            s := LowerTo(Advance(s, v), v, idx[w]);
            work := work[top := Frame(v, k + 1)];
            low := low[v := Min(low[v], idx[w])];
          } else {
            StepSkip(adj, nodes, index, s, stack, opens, work, order, taken, out, v, k, w);
            s := Advance(s, v);
            work := work[top := Frame(v, k + 1)];
          }
          taken := taken + [(v, k)];
        } else {
          TopKnown(adj, nodes, index, s, stack, opens, work, order, taken, out);
          if low[v] == idx[v] {
            var rest, on, comp := PopComponent(stack, onStack, v, idx);
            ghost var out0 := out;
            if |comp| >= 2 {
              SortArranges(sort, comp);
              out := out + [sort(comp)];
            }
            StepEmit(adj, nodes, index, s, stack, opens, work, order, taken, out0, v, k, rest, comp, out, sort);
            stack, onStack := rest, on;
          } else {
            StepMerge(adj, nodes, index, s, stack, opens, work, order, taken, out, v, k);
          }
          work := work[..top];
          low := CloseLow(low, v, work);
          s := s.(low := low, on := onStack, open := s.open - {v});
          opens := opens[..|opens| - 1];
        }
      }
    }
    FinishSearch(adj, nodes, index, s, stack, order, taken, out);
  }
}
