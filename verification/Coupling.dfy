/** Module coupling: edges in and out of every module. */
module Coupling {
  import opened Options
  import opened Strings
  import opened OrderedMaps
  import opened Sorting
  import opened BlastRadius

  /** Which module a symbol is in, and which edges count. */
  datatype Env = Env(of: map<string, string>, kinds: set<string>)

  function SymbolModule(symbols: seq<Symbol>, moduleOf: string -> string): map<string, string>
  {
    if symbols == [] then map[]
    else var s := symbols[|symbols| - 1]; SymbolModule(symbols[..|symbols| - 1], moduleOf)[s.id := moduleOf(s.file)]
  }

  function SymbolsIn(symbols: seq<Symbol>, moduleOf: string -> string, m: string): nat
  {
    if symbols == [] then 0
    else SymbolsIn(symbols[..|symbols| - 1], moduleOf, m) + if moduleOf(symbols[|symbols| - 1].file) == m then 1 else 0
  }

  /** The modules of the symbols, in the order in which they are met. */
  function Modules(symbols: seq<Symbol>, moduleOf: string -> string): seq<string>
  {
    if symbols == [] then []
    else
      var before, m := Modules(symbols[..|symbols| - 1], moduleOf), moduleOf(symbols[|symbols| - 1].file);
      if m in before then before else before + [m]
  }

  /** The module of an id that has one with a name. */
  function ModuleOf(env: Env, id: string): Option<string>
  {
    if id in env.of && env.of[id] != "" then Some(env.of[id]) else None
  }

  predicate FileNode(id: string)
  {
    |id| >= 5 && id[..5] == "file:"
  }

  /** An edge of a counted kind from a symbol of one module to a symbol of another. */
  predicate Crosses(env: Env, r: Relation)
  {
    r.kind in env.kinds && !FileNode(r.source)
    && ModuleOf(env, r.source).Some? && ModuleOf(env, r.target).Some?
    && ModuleOf(env, r.source) != ModuleOf(env, r.target)
  }

  function Source(env: Env, r: Relation): string
    requires Crosses(env, r)
  {
    env.of[r.source]
  }

  function Target(env: Env, r: Relation): string
    requires Crosses(env, r)
  {
    env.of[r.target]
  }

  // ---- Counts -------------------------------------------------------------------------

  function Crossings(env: Env, rs: seq<Relation>): nat
  {
    if rs == [] then 0
    else Crossings(env, rs[..|rs| - 1]) + if Crosses(env, rs[|rs| - 1]) then 1 else 0
  }

  function Leaving(env: Env, rs: seq<Relation>, m: string): nat
  {
    if rs == [] then 0
    else
      var r := rs[|rs| - 1];
      Leaving(env, rs[..|rs| - 1], m) + if Crosses(env, r) && Source(env, r) == m then 1 else 0
  }

  function Entering(env: Env, rs: seq<Relation>, m: string): nat
  {
    if rs == [] then 0
    else
      var r := rs[|rs| - 1];
      Entering(env, rs[..|rs| - 1], m) + if Crosses(env, r) && Target(env, r) == m then 1 else 0
  }

  function SumLeaving(env: Env, rs: seq<Relation>, ms: seq<string>): nat
  {
    if ms == [] then 0 else SumLeaving(env, rs, ms[..|ms| - 1]) + Leaving(env, rs, ms[|ms| - 1])
  }

  function SumEntering(env: Env, rs: seq<Relation>, ms: seq<string>): nat
  {
    if ms == [] then 0 else SumEntering(env, rs, ms[..|ms| - 1]) + Entering(env, rs, ms[|ms| - 1])
  }

  /** One more edge adds one to the sum over a list that has its source once. */
  lemma {:induction false} SumLeavingStep(env: Env, rs: seq<Relation>, ms: seq<string>)
    requires rs != [] && Distinct(ms)
    ensures var n := |rs| - 1;
      SumLeaving(env, rs, ms) ==
      SumLeaving(env, rs[..n], ms) + if Crosses(env, rs[n]) && Source(env, rs[n]) in ms then 1 else 0
  {
    if ms != [] {
      var k := |ms| - 1;
      assert ms == ms[..k] + [ms[k]];
      SumLeavingStep(env, rs, ms[..k]);
      if Crosses(env, rs[|rs| - 1]) && Source(env, rs[|rs| - 1]) == ms[k] { assert ms[k] !in ms[..k]; }
    }
  }

  lemma {:induction false} SumEnteringStep(env: Env, rs: seq<Relation>, ms: seq<string>)
    requires rs != [] && Distinct(ms)
    ensures var n := |rs| - 1;
      SumEntering(env, rs, ms) ==
      SumEntering(env, rs[..n], ms) + if Crosses(env, rs[n]) && Target(env, rs[n]) in ms then 1 else 0
  {
    if ms != [] {
      var k := |ms| - 1;
      assert ms == ms[..k] + [ms[k]];
      SumEnteringStep(env, rs, ms[..k]);
      if Crosses(env, rs[|rs| - 1]) && Target(env, rs[|rs| - 1]) == ms[k] { assert ms[k] !in ms[..k]; }
    }
  }

  lemma {:induction false} SumOfNothing(env: Env, ms: seq<string>)
    ensures SumLeaving(env, [], ms) == 0 && SumEntering(env, [], ms) == 0
  {
    if ms != [] { SumOfNothing(env, ms[..|ms| - 1]); }
  }

  /** A list of modules that has those of every symbol. */
  ghost predicate Covers(env: Env, ms: seq<string>)
  {
    forall id :: id in env.of ==> env.of[id] in ms
  }

  /** Total efferent and total afferent coupling are both the number of cross-module edges. */
  lemma {:induction false} CouplingConserved(env: Env, rs: seq<Relation>, ms: seq<string>)
    requires Distinct(ms) && Covers(env, ms)
    ensures SumLeaving(env, rs, ms) == Crossings(env, rs) == SumEntering(env, rs, ms)
  {
    if rs == [] {
      SumOfNothing(env, ms);
    } else {
      CouplingConserved(env, rs[..|rs| - 1], ms);
      SumLeavingStep(env, rs, ms);
      SumEnteringStep(env, rs, ms);
    }
  }

  // ---- The computation --------------------------------------------------------------------

  datatype ModuleCoupling = ModuleCoupling(name: string, afferent: nat, efferent: nat, instability: Option<real>,
                                           symbolCount: nat)

  function Names(out: seq<ModuleCoupling>): (r: seq<string>)
    ensures |r| == |out| && forall i :: 0 <= i < |out| ==> r[i] == out[i].name
  {
    seq(|out|, i requires 0 <= i < |out| => out[i].name)
  }

  method CountSymbols(symbols: seq<Symbol>, moduleOf: string -> string)
    returns (symbolModule: map<string, string>, moduleSymbols: Map<string, nat>)
    ensures symbolModule == SymbolModule(symbols, moduleOf)
    ensures moduleSymbols.Ok() && forall m :: moduleSymbols.Get(m, 0) == SymbolsIn(symbols, moduleOf, m)
    ensures forall id :: id in symbolModule ==> symbolModule[id] in moduleSymbols.keys
    ensures moduleSymbols.keys == Modules(symbols, moduleOf)
    ensures forall m :: m in moduleSymbols.keys ==> exists s :: s in symbols && moduleOf(s.file) == m
  {
    symbolModule, moduleSymbols := map[], Empty();
    for i := 0 to |symbols|
      invariant symbolModule == SymbolModule(symbols[..i], moduleOf)
      invariant moduleSymbols.Ok() && forall m :: moduleSymbols.Get(m, 0) == SymbolsIn(symbols[..i], moduleOf, m)
      invariant forall id :: id in symbolModule ==> symbolModule[id] in moduleSymbols.keys
      invariant moduleSymbols.keys == Modules(symbols[..i], moduleOf)
      invariant forall m :: m in moduleSymbols.keys ==> exists s :: s in symbols && moduleOf(s.file) == m
    {
      assert symbols[..i + 1][..i] == symbols[..i];
      var s := symbols[i];
      assert s in symbols;
      var m := moduleOf(s.file);
      SetOk(moduleSymbols, m, moduleSymbols.Get(m, 0) + 1);
      symbolModule := symbolModule[s.id := m];
      moduleSymbols := moduleSymbols.Set(m, moduleSymbols.Get(m, 0) + 1);
    }
    assert symbols[..|symbols|] == symbols;
  }

  function At(m: map<string, nat>, k: string): nat
  {
    if k in m then m[k] else 0
  }

  method CountEdges(env: Env, relations: seq<Relation>) returns (aff: map<string, nat>, eff: map<string, nat>)
    ensures forall m :: At(aff, m) == Entering(env, relations, m) && At(eff, m) == Leaving(env, relations, m)
  {
    aff, eff := map[], map[];
    for i := 0 to |relations|
      invariant forall m ::
        At(aff, m) == Entering(env, relations[..i], m) &&
        At(eff, m) == Leaving(env, relations[..i], m)
    {
      assert relations[..i + 1][..i] == relations[..i];
      var r := relations[i];
      if r.kind !in env.kinds { continue; }
      if FileNode(r.source) { continue; }
      var src, tgt := ModuleOf(env, r.source), ModuleOf(env, r.target);
      if src.None? || tgt.None? { continue; }
      if src.value == tgt.value { continue; }
      eff := eff[src.value := At(eff, src.value) + 1];
      aff := aff[tgt.value := At(aff, tgt.value) + 1];
    }
    assert relations[..|relations|] == relations;
  }

  function Instability(a: nat, e: nat): Option<real>
  {
    if a + e == 0 then None else Some(e as real / (a + e) as real)
  }

  /** `x` is listed before `y`: it has more edges in and out. */
  predicate Busier(x: ModuleCoupling, y: ModuleCoupling)
  {
    x.afferent + x.efferent > y.afferent + y.efferent
  }

  function Name(c: ModuleCoupling): string
  {
    c.name
  }

  lemma BusierIsWeakOrder()
    ensures WeakOrder(Busier)
  {
  }

  /** An entry holds the edges into and out of its module. */
  ghost predicate CouplingOk(
    symbols: seq<Symbol>, relations: seq<Relation>, moduleOf: string -> string, env: Env, c: ModuleCoupling)
  {
    && c.afferent == Entering(env, relations, c.name) && c.efferent == Leaving(env, relations, c.name)
    && c.symbolCount == SymbolsIn(symbols, moduleOf, c.name) && Unstable(c.instability, c.afferent, c.efferent)
  }

  /** The share of the outgoing edges among all; of no edges there is none. */
  ghost predicate Unstable(i: Option<real>, afferent: nat, efferent: nat)
  {
    && (i.None? <==> afferent == 0 && efferent == 0)
    && (i.Some? ==> i.value * (afferent + efferent) as real == efferent as real)
  }

  // ---- What the counts mean -------------------------------------------------------------------

  /** A symbol is in the module of its last entry. */
  lemma {:induction false} SymbolModuleExactly(symbols: seq<Symbol>, moduleOf: string -> string, id: string)
    ensures id in SymbolModule(symbols, moduleOf) <==> exists s :: s in symbols && s.id == id
    ensures forall i ::
      0 <= i < |symbols| && symbols[i].id == id && (forall j :: i < j < |symbols| ==> symbols[j].id != id) ==>
      SymbolModule(symbols, moduleOf)[id] == moduleOf(symbols[i].file)
  {
    if symbols != [] {
      var n := |symbols| - 1;
      assert symbols == symbols[..n] + [symbols[n]] && symbols[n] in symbols;
      SymbolModuleExactly(symbols[..n], moduleOf, id);
      forall i | 0 <= i < |symbols| && symbols[i].id == id && (forall j :: i < j < |symbols| ==> symbols[j].id != id)
        ensures id in SymbolModule(symbols, moduleOf) &&
          SymbolModule(symbols, moduleOf)[id] == moduleOf(symbols[i].file)
      {
        if i < n { assert symbols[..n][i] == symbols[i] && symbols[n].id != id; }
      }
    }
  }

  lemma {:induction false} SymbolsInExactly(symbols: seq<Symbol>, moduleOf: string -> string, m: string)
    ensures SymbolsIn(symbols, moduleOf, m) == HowMany(symbols, (s: Symbol) => moduleOf(s.file) == m)
  {
    if symbols != [] {
      SymbolsInExactly(symbols[..|symbols| - 1], moduleOf, m);
      HowManyMore(symbols, (s: Symbol) => moduleOf(s.file) == m);
    }
  }

  /** What a symbol names: the module of its file. */
  ghost function NamesModule(moduleOf: string -> string): (Symbol, string) -> bool
  {
    (s: Symbol, m: string) => moduleOf(s.file) == m
  }

  /** The modules are listed in the order in which the symbols first name them. */
  lemma {:induction false} ModulesExactly(symbols: seq<Symbol>, moduleOf: string -> string)
    ensures InOrderMet(symbols, NamesModule(moduleOf), Modules(symbols, moduleOf))
  {
    hide InOrderMet;
    if symbols == [] {
      MetNone(NamesModule(moduleOf));
    } else {
      var n := |symbols| - 1;
      ModulesExactly(symbols[..n], moduleOf);
      assert symbols[..n] + [symbols[n]] == symbols;
      MetMore(symbols[..n], symbols[n], NamesModule(moduleOf), Modules(symbols[..n], moduleOf),
              true, moduleOf(symbols[n].file));
    }
  }

  /** A relation of a counted kind that does not start at a file leads from a symbol of the module
      `a` to one of another module `b`, both with a name. */
  predicate LeadsFromTo(env: Env, r: Relation, a: string, b: string)
  {
    && r.kind in env.kinds && !("file:" <= r.source)
    && r.source in env.of && env.of[r.source] == a && a != "" && r.target in env.of && env.of[r.target] == b && b != ""
    && a != b
  }

  lemma CrossesExactly(env: Env, r: Relation, a: string, b: string)
    ensures Crosses(env, r) && Source(env, r) == a && Target(env, r) == b <==> LeadsFromTo(env, r, a, b)
  {
    assert FileNode(r.source) <==> "file:" <= r.source;
  }

  /** The counts of a module are those of the relations that leave it and that enter it. */
  lemma {:induction false} CountsExactly(env: Env, rs: seq<Relation>, m: string)
    ensures Leaving(env, rs, m) == HowMany(rs, r => exists b :: LeadsFromTo(env, r, m, b))
    ensures Entering(env, rs, m) == HowMany(rs, r => exists a :: LeadsFromTo(env, r, a, m))
  {
    if rs != [] {
      var n := |rs| - 1;
      CountsExactly(env, rs[..n], m);
      HowManyMore(rs, r => exists b :: LeadsFromTo(env, r, m, b));
      HowManyMore(rs, r => exists a :: LeadsFromTo(env, r, a, m));
      forall a, b
        ensures Crosses(env, rs[n]) && Source(env, rs[n]) == a && Target(env, rs[n]) == b <==>
          LeadsFromTo(env, rs[n], a, b)
      {
        CrossesExactly(env, rs[n], a, b);
      }
      if Crosses(env, rs[n]) { assert LeadsFromTo(env, rs[n], Source(env, rs[n]), Target(env, rs[n])); }
    }
  }

  /** The names of a permutation of entries whose names differ. */
  lemma NamesPermuted(entries: seq<ModuleCoupling>, out: seq<ModuleCoupling>)
    requires multiset(entries) == multiset(out) && Distinct(Names(entries))
    ensures Distinct(Names(out)) && forall m :: m in Names(out) <==> m in Names(entries)
  {
    assert DistinctBy(entries, Name);
    DistinctByPermuted(entries, out, Name);
    forall m ensures m in Names(out) <==> m in Names(entries) {
      if i :| 0 <= i < |out| && Names(out)[i] == m { assert out[i] in multiset(entries); NameIn(entries, out[i]); }
      if i :| 0 <= i < |entries| && Names(entries)[i] == m {
        assert entries[i] in multiset(out);
        NameIn(out, entries[i]);
      }
    }
  }

  lemma NameIn(cs: seq<ModuleCoupling>, c: ModuleCoupling)
    requires c in cs
    ensures c.name in Names(cs)
  {
    var i :| 0 <= i < |cs| && cs[i] == c;
    assert Names(cs)[i] == c.name;
  }

  /** One entry for every module that has a symbol, with the edges in and out of it, the
      busiest first. */
  method Compute(
    symbols: seq<Symbol>, relations: seq<Relation>, moduleOf: string -> string, edgeKinds: Option<set<string>>)
    returns (out: seq<ModuleCoupling>)
    ensures var env := Env(SymbolModule(symbols, moduleOf), Kinds(edgeKinds));
      && Distinct(Names(out)) && Covers(env, Names(out))
      && (forall m :: m in Names(out) ==> exists s :: s in symbols && moduleOf(s.file) == m)
      && (forall c :: c in out ==> CouplingOk(symbols, relations, moduleOf, env, c))
    ensures exists entries :: Names(entries) == Modules(symbols, moduleOf) && Ranked(entries, out, Busier)
    ensures forall i, j :: 0 <= i < j < |out| ==> out[i].afferent + out[i].efferent >= out[j].afferent + out[j].efferent
  {
    hide *;
    var symbolModule, moduleSymbols := CountSymbols(symbols, moduleOf);
    var env := Env(symbolModule, Kinds(edgeKinds));
    var aff, eff := CountEdges(env, relations);
    var entries: seq<ModuleCoupling> := [];
    for i := 0 to |moduleSymbols.keys|
      invariant Names(entries) == moduleSymbols.keys[..i]
      invariant forall c :: c in entries ==> CouplingOk(symbols, relations, moduleOf, env, c)
    {
      var m := moduleSymbols.keys[i];
      var a, e := At(aff, m), At(eff, m);
      var c := ModuleCoupling(m, a, e, Instability(a, e), moduleSymbols.Get(m, 0));
      CouplingIsOk(symbols, relations, moduleOf, env, c);
      entries := entries + [c];
    }
    assert moduleSymbols.keys[..|moduleSymbols.keys|] == moduleSymbols.keys;
    out := SortBy(entries, Busier);
    BusierIsWeakOrder();
    SortRanks(entries, Busier);
    RankedFalls(entries, out);
    NamesPermuted(entries, out);
    CoversIn(env, moduleSymbols, Names(out));
    forall c | c in out ensures CouplingOk(symbols, relations, moduleOf, env, c) {
      assert c in multiset(out) && c in entries;
    }
  }

  lemma RankedFalls(entries: seq<ModuleCoupling>, out: seq<ModuleCoupling>)
    requires Ranked(entries, out, Busier)
    ensures forall i, j :: 0 <= i < j < |out| ==> out[i].afferent + out[i].efferent >= out[j].afferent + out[j].efferent
  {
    hide Peers;
    forall i, j | 0 <= i < j < |out| ensures out[i].afferent + out[i].efferent >= out[j].afferent + out[j].efferent {
      assert !Busier(out[j], out[i]);
    }
  }

  lemma CouplingIsOk(
    symbols: seq<Symbol>, relations: seq<Relation>, moduleOf: string -> string, env: Env, c: ModuleCoupling)
    requires c.afferent == Entering(env, relations, c.name) && c.efferent == Leaving(env, relations, c.name)
    requires c.instability == Instability(c.afferent, c.efferent)
    requires c.symbolCount == SymbolsIn(symbols, moduleOf, c.name)
    ensures CouplingOk(symbols, relations, moduleOf, env, c)
  {
  }

  lemma CoversIn(env: Env, counts: Map<string, nat>, names: seq<string>)
    requires forall id :: id in env.of ==> env.of[id] in counts.keys
    requires forall m :: m in names <==> m in counts.keys
    ensures Covers(env, names)
  {
  }
}
