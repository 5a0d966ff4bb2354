/** The cycle-guarded walk of a repository's directories. */
module Walker {
  import opened Options
  import opened Strings
  import opened Graphs

  /** A path below the root, by its names. */
  type RelPath = seq<string>

  datatype Target = ToDirectory(at: string) | ToFile | ToOther

  /** What a directory entry is; a directory whose real path cannot be told has none. A link
      says what it leads to, and whether its real path lies inside the root. */
  datatype Kind = Directory(at: Option<string>) | RegularFile | Link(to: Option<Target>, inside: bool) | Other

  datatype Entry = Entry(name: string, kind: Kind)

  /** The file system, by real directory, and the options of the walk. `tree` lacks the
      directories that cannot be read. */
  datatype Env = Env(tree: map<string, seq<Entry>>, root: string, skip: string -> bool,
                     ignored: RelPath -> bool, wanted: RelPath -> bool, maxFiles: int)

  predicate IsDir(e: Entry)
  {
    e.kind.Directory? || (e.kind.Link? && e.kind.inside && e.kind.to.Some? && e.kind.to.value.ToDirectory?)
  }

  function RealOf(e: Entry): Option<string>
  {
    match e.kind
    case Directory(at) => at
    case Link(Some(ToDirectory(at)), true) => Some(at)
    case _ => None
  }

  predicate IsFile(e: Entry)
  {
    e.kind.RegularFile? || (e.kind.Link? && e.kind.inside && e.kind.to == Some(ToFile))
  }

  // ---- Independent meaning ---------------------------------------------------------------

  /** The entry is a directory whose real path is `at`: itself, or by a link that stays inside
      the root. */
  predicate LeadsTo(e: Entry, at: string)
  {
    e.kind == Directory(Some(at)) || e.kind == Link(Some(ToDirectory(at)), true)
  }

  /** The entry is a regular file, or a link to one that stays inside the root. */
  predicate LeadsToFile(e: Entry)
  {
    e.kind == RegularFile || e.kind == Link(Some(ToFile), true)
  }

  /** No directory on the way is skipped or ignored. */
  predicate Clear(env: Env, p: RelPath)
  {
    forall k :: 0 < k <= |p| ==> Passes(env, p, k)
  }

  /** The directory of the first `k` names is neither skipped nor ignored. */
  predicate Passes(env: Env, p: RelPath, k: nat)
    requires 0 < k <= |p|
  {
    !env.skip(p[k - 1]) && !env.ignored(p[..k])
  }

  predicate NamesDiffer(entries: seq<Entry>)
  {
    forall i, j :: 0 <= i < j < |entries| ==> entries[i].name != entries[j].name
  }

  ghost predicate FileSystem(tree: map<string, seq<Entry>>)
  {
    forall r :: r in tree ==> NamesDiffer(tree[r])
  }

  function EntriesAt(tree: map<string, seq<Entry>>, at: string): seq<Entry>
  {
    if at in tree then tree[at] else []
  }

  /** The real directories a directory leads to, by entries that are not skipped. */
  function Below(entries: seq<Entry>, skip: string -> bool): (r: seq<string>)
    ensures forall x :: x in r <==> exists e :: e in entries && !skip(e.name) && LeadsTo(e, x)
  {
    if entries == [] then []
    else
      var e := entries[|entries| - 1];
      assert entries == entries[..|entries| - 1] + [e];
      Below(entries[..|entries| - 1], skip) + if !skip(e.name) && RealOf(e).Some? then [RealOf(e).value] else []
  }

  function DirGraph(env: Env): Graph<string>
  {
    map r | r in env.tree :: Below(env.tree[r], env.skip)
  }

  function Parent(p: RelPath): RelPath
    requires p != []
  {
    p[..|p| - 1]
  }

  function Name(p: RelPath): string
    requires p != []
  {
    p[|p| - 1]
  }

  /** The real directory a path names: one entry per name, from the root. */
  ghost predicate Names(env: Env, p: RelPath, at: string)
  {
    if p == [] then at == env.root
    else exists r, e ::
      Names(env, Parent(p), r) && e in EntriesAt(env.tree, r) && e.name == Name(p) && LeadsTo(e, at)
  }

  /** A path is a file the walk is to yield. */
  ghost predicate Yieldable(env: Env, p: RelPath)
  {
    p != [] && Clear(env, Parent(p)) && !env.ignored(p) && env.wanted(p) &&
    exists r, e :: Names(env, Parent(p), r) && e in EntriesAt(env.tree, r) && e.name == Name(p) && LeadsToFile(e)
  }

  // ---- One entry ------------------------------------------------------------------------------

  datatype Item = Item(path: RelPath, at: string)

  datatype State = State(stack: seq<Item>, visited: set<string>, out: seq<RelPath>, capped: bool)

  /** What one entry of the directory at `dir` does. */
  function Step(env: Env, dir: RelPath, e: Entry, s: State): State
  {
    var full := dir + [e.name];
    if s.capped then s
    else if IsDir(e) then
      if env.skip(e.name) || env.ignored(full) || RealOf(e).None? || RealOf(e).value in s.visited then s
      else s.(visited := s.visited + {RealOf(e).value}, stack := s.stack + [Item(full, RealOf(e).value)])
    else if !IsFile(e) || env.ignored(full) || !env.wanted(full) then s
    else if |s.out| >= env.maxFiles then s.(capped := true)
    else s.(out := s.out + [full])
  }

  function Scan(env: Env, dir: RelPath, entries: seq<Entry>, s: State): State
  {
    if entries == [] then s
    else Step(env, dir, entries[|entries| - 1], Scan(env, dir, entries[..|entries| - 1], s))
  }

  // ---- Invariants ---------------------------------------------------------------------------------

  /** What the walk has done: the directories read, in order, the paths it read them at, and
      all paths it ever put on the stack. */
  datatype Past = Past(read: seq<string>, done: set<RelPath>, pushed: set<RelPath>)

  ghost predicate ItemsNamed(env: Env, stack: seq<Item>)
  {
    forall it :: it in stack ==> Names(env, it.path, it.at) && Clear(env, it.path)
  }

  /** Every visited directory was read, or waits on the stack, once. */
  ghost predicate RealsOnce(stack: seq<Item>, visited: set<string>, read: seq<string>)
  {
    && (forall i, j :: 0 <= i < j < |stack| ==> stack[i].at != stack[j].at)
    && (forall it :: it in stack ==> it.at !in read && it.at in visited)
    && Distinct(read)
    && (forall r :: r in read ==> r in visited)
    && (forall r :: r in visited ==> r in read || exists it :: it in stack && it.at == r)
  }

  ghost predicate PathsOnce(stack: seq<Item>, done: set<RelPath>, pushed: set<RelPath>)
  {
    && (forall i, j :: 0 <= i < j < |stack| ==> stack[i].path != stack[j].path)
    && (forall it :: it in stack ==> it.path in pushed && it.path !in done)
    && done <= pushed
  }

  /** Every path lies in a directory read before, and in the current one under a name already met. */
  ghost predicate Placed(paths: set<RelPath>, done: set<RelPath>, dir: RelPath, met: seq<Entry>)
  {
    forall p :: p in paths && p != [] ==>
      Parent(p) in done &&
      (Parent(p) == dir ==> exists e :: e in met && e.name == Name(p))
  }

  ghost predicate OutOk(env: Env, out: seq<RelPath>)
  {
    Distinct(out) && (forall p :: p in out ==> Yieldable(env, p)) && (|out| > 0 ==> |out| <= env.maxFiles)
  }

  ghost predicate AllReached(env: Env, visited: set<string>)
  {
    env.root in visited && forall r :: r in visited ==> Reaches(DirGraph(env), env.root, r)
  }

  /** The directories met so far at a path, if not skipped or ignored, were visited. */
  ghost predicate DirsDone(env: Env, dir: RelPath, entries: seq<Entry>, visited: set<string>)
  {
    forall e, at :: e in entries && LeadsTo(e, at) && !env.skip(e.name) && !env.ignored(dir + [e.name]) ==>
      at in visited
  }

  /** The files met so far at a path were yielded. */
  ghost predicate FilesDone(env: Env, dir: RelPath, entries: seq<Entry>, out: seq<RelPath>)
  {
    forall e :: e in entries && LeadsToFile(e) && !env.ignored(dir + [e.name]) && env.wanted(dir + [e.name]) ==>
      dir + [e.name] in out
  }

  ghost predicate ReadDone(env: Env, past: Past, s: State)
  {
    forall r :: r in past.read ==> exists p :: p in past.done && ReadAt(env, p, r, s.visited, s.out)
  }

  /** The directory was read at that path, and everything in it was followed. */
  ghost predicate ReadAt(env: Env, p: RelPath, r: string, visited: set<string>, out: seq<RelPath>)
  {
    && Names(env, p, r) && Clear(env, p)
    && FilesDone(env, p, EntriesAt(env.tree, r), out) && DirsDone(env, p, EntriesAt(env.tree, r), visited)
  }

  /** The walk stops at the cap only where one more file was to be yielded. */
  ghost predicate CapOk(env: Env, s: State)
  {
    s.capped ==> |s.out| >= env.maxFiles && exists p :: Yieldable(env, p) && p !in s.out
  }

  function PathSet(paths: seq<RelPath>): set<RelPath>
  {
    set p | p in paths
  }

  ghost predicate Inv(env: Env, past: Past, s: State, dir: RelPath, met: seq<Entry>)
  {
    && ItemsNamed(env, s.stack) && RealsOnce(s.stack, s.visited, past.read) &&
      PathsOnce(s.stack, past.done, past.pushed)
    && Placed(past.pushed, past.done, dir, met) && Placed(PathSet(s.out), past.done, dir, met)
    && OutOk(env, s.out) && AllReached(env, s.visited) && CapOk(env, s)
  }

  // ---- A step keeps them ---------------------------------------------------------------------------

  function StackPaths(stack: seq<Item>): set<RelPath>
  {
    set it | it in stack :: it.path
  }

  lemma PlacedMore(paths: set<RelPath>, done: set<RelPath>, dir: RelPath, met: seq<Entry>, e: Entry)
    requires Placed(paths, done, dir, met) && dir in done
    ensures Placed(paths, done, dir, met + [e]) && Placed(paths + {dir + [e.name]}, done, dir, met + [e])
  {
    var full := dir + [e.name];
    assert Parent(full) == dir && Name(full) == e.name && e in met + [e];
    forall p | p in paths + {full} && p != []
      ensures Parent(p) in done && (Parent(p) == dir ==> exists x :: x in met + [e] && x.name == Name(p))
    {
      if p in paths && Parent(p) == dir {
        var x :| x in met && x.name == Name(p);
        assert x in met + [e];
      }
    }
  }

  /** A path under a name not met yet is new. */
  lemma NewPath(paths: set<RelPath>, done: set<RelPath>, dir: RelPath, met: seq<Entry>, e: Entry)
    requires Placed(paths, done, dir, met) && NamesDiffer(met + [e])
    ensures dir + [e.name] !in paths
  {
    var full := dir + [e.name];
    assert Parent(full) == dir && Name(full) == e.name;
    forall x | x in met ensures x.name != e.name {
      var i :| 0 <= i < |met| && met[i] == x;
      assert (met + [e])[i].name != (met + [e])[|met|].name;
    }
  }

  lemma PushKeepsReals(stack: seq<Item>, visited: set<string>, read: seq<string>, it: Item)
    requires RealsOnce(stack, visited, read) && it.at !in visited
    ensures RealsOnce(stack + [it], visited + {it.at}, read)
  {
    var stack' := stack + [it];
    forall i, j | 0 <= i < j < |stack'| ensures stack'[i].at != stack'[j].at {
      if j == |stack| { assert stack[i] in stack; }
    }
    forall r | r in visited + {it.at} ensures r in read || exists x :: x in stack' && x.at == r {
      if r == it.at { assert it in stack'; }
      else if x :| x in stack && x.at == r { assert x in stack'; }
    }
  }

  lemma PushKeepsPaths(stack: seq<Item>, done: set<RelPath>, pushed: set<RelPath>, it: Item)
    requires PathsOnce(stack, done, pushed) && it.path !in pushed
    ensures PathsOnce(stack + [it], done, pushed + {it.path})
  {
    var stack' := stack + [it];
    forall i, j | 0 <= i < j < |stack'| ensures stack'[i].path != stack'[j].path {
      if j == |stack| { assert stack[i] in stack; }
    }
  }

  lemma PushReaches(env: Env, visited: set<string>, at: string, e: Entry)
    requires AllReached(env, visited) && at in visited && e in EntriesAt(env.tree, at)
    requires !env.skip(e.name) && RealOf(e).Some?
    ensures AllReached(env, visited + {RealOf(e).value})
  {
    var g := DirGraph(env);
    assert LeadsTo(e, RealOf(e).value);
    assert RealOf(e).value in Succ(g, at);
    ReachesStep(g, at, RealOf(e).value);
    ReachesTrans(g, env.root, at, RealOf(e).value);
  }

  lemma ClearMore(env: Env, dir: RelPath, name: string)
    requires Clear(env, dir) && !env.skip(name) && !env.ignored(dir + [name])
    ensures Clear(env, dir + [name])
  {
    var p := dir + [name];
    forall k | 0 < k <= |p| ensures Passes(env, p, k) {
      if k == |p| {
        assert p[..k] == p && p[k - 1] == name;
      } else {
        assert p[..k] == dir[..k] && p[k - 1] == dir[k - 1];
        assert Passes(env, dir, k);
      }
    }
  }

  /** An entry that changes nothing is met. */
  lemma MeetKeeps(env: Env, past: Past, s: State, dir: RelPath, met: seq<Entry>, e: Entry)
    requires Inv(env, past, s, dir, met) && dir in past.done
    ensures Inv(env, past, s, dir, met + [e])
  {
    hide RealsOnce, PathsOnce, Placed, AllReached, ItemsNamed, OutOk;
    PlacedMore(past.pushed, past.done, dir, met, e);
    PlacedMore(PathSet(s.out), past.done, dir, met, e);
  }

  lemma PushKeeps(env: Env, past: Past, s: State, dir: RelPath, at: string, met: seq<Entry>, e: Entry)
    requires Inv(env, past, s, dir, met) && NamesDiffer(met + [e])
    requires dir in past.done && Names(env, dir, at) && Clear(env, dir) && at in past.read &&
      e in EntriesAt(env.tree, at)
    requires !env.skip(e.name) && !env.ignored(dir + [e.name]) && RealOf(e).Some? && RealOf(e).value !in s.visited
    ensures var full, r := dir + [e.name], RealOf(e).value;
      Inv(env, past.(pushed := past.pushed + {full}),
        s.(visited := s.visited + {r}, stack := s.stack + [Item(full, r)]), dir, met + [e])
  {
    assert LeadsTo(e, RealOf(e).value);
    hide RealsOnce, PathsOnce, Placed, AllReached, NamesDiffer, RealOf, EntriesAt, OutOk, PathSet, LeadsTo, Clear,
      CapOk, ItemsNamed;
    var full, r := dir + [e.name], RealOf(e).value;
    ClearMore(env, dir, e.name);
    SameCap(env, s, s.(visited := s.visited + {r}, stack := s.stack + [Item(full, r)]));
    PlacedMore(past.pushed, past.done, dir, met, e);
    PlacedMore(PathSet(s.out), past.done, dir, met, e);
    ReadVisited(s.stack, s.visited, past.read, at);
    NewPath(past.pushed, past.done, dir, met, e);
    PushKeepsReals(s.stack, s.visited, past.read, Item(full, r));
    PushKeepsPaths(s.stack, past.done, past.pushed, Item(full, r));
    PushReaches(env, s.visited, at, e);
    assert Parent(full) == dir && Name(full) == e.name;
    assert Names(env, full, r);
    hide Names, Parent, Name;
    PushKeepsNamed(env, s.stack, Item(full, r));
  }

  lemma PushKeepsNamed(env: Env, stack: seq<Item>, it: Item)
    requires ItemsNamed(env, stack) && Names(env, it.path, it.at) && Clear(env, it.path)
    ensures ItemsNamed(env, stack + [it])
  {
    hide Names, Clear;
  }

  lemma SameCap(env: Env, s: State, s': State)
    requires CapOk(env, s) && s'.out == s.out && s'.capped == s.capped
    ensures CapOk(env, s')
  {
  }

  lemma YieldKeeps(env: Env, past: Past, s: State, dir: RelPath, at: string, met: seq<Entry>, e: Entry)
    requires Inv(env, past, s, dir, met) && NamesDiffer(met + [e])
    requires dir in past.done && Names(env, dir, at) && Clear(env, dir) && e in EntriesAt(env.tree, at) && !s.capped
    requires IsFile(e) && !env.ignored(dir + [e.name]) && env.wanted(dir + [e.name]) && |s.out| < env.maxFiles
    ensures Inv(env, past, s.(out := s.out + [dir + [e.name]]), dir, met + [e])
  {
    hide RealsOnce, PathsOnce, Placed, AllReached, NamesDiffer, EntriesAt, ItemsNamed;
    var full := dir + [e.name];
    PlacedMore(past.pushed, past.done, dir, met, e);
    PlacedMore(PathSet(s.out), past.done, dir, met, e);
    NewPath(PathSet(s.out), past.done, dir, met, e);
    assert PathSet(s.out + [full]) == PathSet(s.out) + {full};
    assert Parent(full) == dir && Name(full) == e.name;
    assert Yieldable(env, full);
    hide Yieldable;
  }

  /** What waits on the stack was pushed. */
  lemma StackPushed(env: Env, past: Past, s: State, dir: RelPath, met: seq<Entry>)
    requires Inv(env, past, s, dir, met)
    ensures past.pushed + StackPaths(s.stack) == past.pushed
  {
    hide RealsOnce, Placed, AllReached, ItemsNamed, OutOk, CapOk;
  }

  lemma PathsMore(stack: seq<Item>, it: Item)
    ensures StackPaths(stack + [it]) == StackPaths(stack) + {it.path}
  {
  }

  /** One entry adds a directory, or a file, or sets the mark of the cap, or changes nothing. */
  lemma StepCases(env: Env, dir: RelPath, e: Entry, s: State)
    ensures var s', full := Step(env, dir, e, s), dir + [e.name];
      if |s'.stack| > |s.stack| then
        && !env.skip(e.name) && !env.ignored(full) && RealOf(e).Some? && RealOf(e).value !in s.visited
        && s' == s.(visited := s.visited + {RealOf(e).value}, stack := s.stack + [Item(full, RealOf(e).value)])
      else if |s'.out| > |s.out| then
        && !s.capped && IsFile(e) && !env.ignored(full) && env.wanted(full) && |s.out| < env.maxFiles
        && s' == s.(out := s.out + [full])
      else if s'.capped && !s.capped then
        IsFile(e) && !env.ignored(full) && env.wanted(full) && |s.out| >= env.maxFiles && s' == s.(capped := true)
      else
        s' == s
  {
    hide IsFile, RealOf;
  }

  lemma StepKeeps(env: Env, past: Past, s: State, dir: RelPath, at: string, met: seq<Entry>, e: Entry)
    requires Inv(env, past, s, dir, met) && NamesDiffer(met + [e])
    requires dir in past.done && Names(env, dir, at) && Clear(env, dir) && at in past.read &&
      e in EntriesAt(env.tree, at)
    ensures var s' := Step(env, dir, e, s); Inv(env, past.(pushed := past.pushed + StackPaths(s'.stack)), s', dir,
      met + [e])
  {
    hide Inv, NamesDiffer, EntriesAt, Names, Clear, Step, IsFile, RealOf, StackPaths;
    StackPushed(env, past, s, dir, met);
    StepCases(env, dir, e, s);
    var s', full := Step(env, dir, e, s), dir + [e.name];
    if |s'.stack| > |s.stack| {
      PushKeeps(env, past, s, dir, at, met, e);
      PathsMore(s.stack, Item(full, RealOf(e).value));
      assert past.pushed + StackPaths(s.stack) + {full} == past.pushed + (StackPaths(s.stack) + {full});
    } else if |s'.out| > |s.out| {
      YieldKeeps(env, past, s, dir, at, met, e);
    } else {
      MeetKeeps(env, past, s, dir, met, e);
      if s'.capped && !s.capped { CapKeeps(env, past, s, dir, at, met, e); }
    }
  }

  lemma CapKeeps(env: Env, past: Past, s: State, dir: RelPath, at: string, met: seq<Entry>, e: Entry)
    requires Inv(env, past, s, dir, met) && Inv(env, past, s, dir, met + [e]) && NamesDiffer(met + [e])
    requires Names(env, dir, at) && Clear(env, dir) && e in EntriesAt(env.tree, at)
    requires IsFile(e) && !env.ignored(dir + [e.name]) && env.wanted(dir + [e.name]) && |s.out| >= env.maxFiles
    ensures Inv(env, past, s.(capped := true), dir, met + [e])
  {
    hide RealsOnce, PathsOnce, Placed, AllReached, NamesDiffer, EntriesAt, ItemsNamed, OutOk;
    var full := dir + [e.name];
    NewPath(PathSet(s.out), past.done, dir, met, e);
    assert Parent(full) == dir && Name(full) == e.name;
    assert Yieldable(env, full);
  }

  lemma ReadVisited(stack: seq<Item>, visited: set<string>, read: seq<string>, at: string)
    requires RealsOnce(stack, visited, read) && at in read
    ensures at in visited
  {
  }

  lemma StepGrows(env: Env, dir: RelPath, e: Entry, s: State)
    ensures var s' := Step(env, dir, e, s);
      && s.stack <= s'.stack && s.visited <= s'.visited && s.out <= s'.out
      && |s'.stack| - |s.stack| == |s'.visited| - |s.visited|
      && (s.capped ==> s' == s)
      && (s'.capped && !s.capped ==> |s'.out| >= env.maxFiles)
      && (RealOf(e).Some? ==> s'.visited <= s.visited + {RealOf(e).value})
      && (RealOf(e).None? ==> s'.visited == s.visited)
  {
    assert RealOf(e).Some? && RealOf(e).value !in s.visited ==> |s.visited + {RealOf(e).value}| == |s.visited| + 1;
  }

  /** The real directories the file system mentions. */
  function Reals(env: Env): set<string>
  {
    {env.root} + set r, e | r in env.tree && e in env.tree[r] && RealOf(e).Some? :: RealOf(e).value
  }

  lemma {:induction false} ScanGrows(env: Env, dir: RelPath, at: string, entries: seq<Entry>, s: State)
    requires (forall e :: e in entries ==> e in EntriesAt(env.tree, at)) && s.visited <= Reals(env)
    ensures var s' := Scan(env, dir, entries, s);
      && s.stack <= s'.stack && s.visited <= s'.visited <= Reals(env) && s.out <= s'.out
      && |s'.stack| - |s.stack| == |s'.visited| - |s.visited|
      && (s'.capped && !s.capped ==> |s'.out| >= env.maxFiles)
      && (s.capped ==> s'.capped)
  {
    if entries != [] {
      var n := |entries| - 1;
      ScanGrows(env, dir, at, entries[..n], s);
      var s1 := Scan(env, dir, entries[..n], s);
      StepGrows(env, dir, entries[n], s1);
      assert entries[n] in entries;
      assert RealOf(entries[n]).Some? ==> RealOf(entries[n]).value in Reals(env);
      hide Step, Reals, RealOf;
    }
  }

  lemma StackGrows(a: seq<Item>, b: seq<Item>)
    requires a <= b
    ensures StackPaths(a) <= StackPaths(b)
  {
    forall it | it in a ensures it in b {
      var i :| 0 <= i < |a| && a[i] == it;
      assert b[i] == it;
    }
  }

  lemma DifferBefore(entries: seq<Entry>, n: nat)
    requires NamesDiffer(entries) && n <= |entries|
    ensures NamesDiffer(entries[..n])
  {
  }

  lemma {:induction false} ScanKeeps(env: Env, past: Past, s: State, dir: RelPath, at: string, entries: seq<Entry>)
    requires Inv(env, past, s, dir, []) && NamesDiffer(entries)
    requires dir in past.done && Names(env, dir, at) && Clear(env, dir) && at in past.read
    requires (forall e :: e in entries ==> e in EntriesAt(env.tree, at)) && s.visited <= Reals(env)
    ensures var s' := Scan(env, dir, entries, s); Inv(env, past.(pushed := past.pushed + StackPaths(s'.stack)), s', dir,
      entries)
  {
    if entries == [] {
      assert past.pushed + StackPaths(s.stack) == past.pushed;
    } else {
      var n := |entries| - 1;
      hide Inv, Clear, Names, EntriesAt;
      var e, s1, s2 := entries[n], Scan(env, dir, entries[..n], s), Scan(env, dir, entries, s);
      assert entries[..n] + [e] == entries && e in entries;
      DifferBefore(entries, n);
      hide NamesDiffer, StackPaths;
      ScanKeeps(env, past, s, dir, at, entries[..n]);
      ScanGrows(env, dir, at, entries[..n], s);
      StepGrows(env, dir, e, s1);
      StackGrows(s1.stack, s2.stack);
      hide Step, Reals, RealOf;
      StepKeeps(env, past.(pushed := past.pushed + StackPaths(s1.stack)), s1, dir, at, entries[..n], e);
      assert past.pushed + StackPaths(s1.stack) + StackPaths(s2.stack) == past.pushed + StackPaths(s2.stack);
    }
  }

  /** Without the cap, a scan yields every file it meets. */
  lemma {:induction false} ScanYields(env: Env, dir: RelPath, entries: seq<Entry>, s: State)
    requires !Scan(env, dir, entries, s).capped
    ensures FilesDone(env, dir, entries, Scan(env, dir, entries, s).out)
  {
    if entries != [] {
      var n := |entries| - 1;
      var e, s1, s2 := entries[n], Scan(env, dir, entries[..n], s), Scan(env, dir, entries, s);
      assert entries[..n] + [e] == entries;
      StepGrows(env, dir, e, s1);
      ScanYields(env, dir, entries[..n], s);
      forall x | x in entries && LeadsToFile(x) && !env.ignored(dir + [x.name]) && env.wanted(dir + [x.name])
        ensures dir + [x.name] in s2.out
      {
        if x in entries[..n] { assert dir + [x.name] in s1.out; } else { assert x == e; }
      }
    }
  }

  /** And it visits every directory it meets that is neither skipped nor ignored. */
  lemma {:induction false} ScanVisits(env: Env, dir: RelPath, entries: seq<Entry>, s: State)
    requires !Scan(env, dir, entries, s).capped
    ensures DirsDone(env, dir, entries, Scan(env, dir, entries, s).visited)
  {
    if entries != [] {
      var n := |entries| - 1;
      var e, s1, s2 := entries[n], Scan(env, dir, entries[..n], s), Scan(env, dir, entries, s);
      assert entries[..n] + [e] == entries;
      StepGrows(env, dir, e, s1);
      ScanVisits(env, dir, entries[..n], s);
      forall x, at | x in entries && LeadsTo(x, at) && !env.skip(x.name) && !env.ignored(dir + [x.name])
        ensures at in s2.visited
      {
        if x in entries[..n] { assert at in s1.visited; } else { assert x == e && RealOf(e) == Some(at); }
      }
    }
  }

  // ---- The walk -----------------------------------------------------------------------------------------

  method ReadEntries(env: Env, dir: RelPath, entries: seq<Entry>, s: State) returns (out: State)
    requires !s.capped
    ensures out == Scan(env, dir, entries, s)
  {
    out := s;
    for i := 0 to |entries|
      invariant out == Scan(env, dir, entries[..i], s) && !out.capped
    {
      assert entries[..i + 1][..i] == entries[..i];
      var e := entries[i];
      var full := dir + [e.name];
      if IsDir(e) {
        if env.skip(e.name) { continue; }
        if env.ignored(full) { continue; }
        var at := RealOf(e);
        if at.None? { continue; }
        if at.value in out.visited { continue; }
        out := out.(visited := out.visited + {at.value}, stack := out.stack + [Item(full, at.value)]);
        continue;
      }
      if !IsFile(e) { continue; }
      if env.ignored(full) { continue; }
      if !env.wanted(full) { continue; }
      if |out.out| >= env.maxFiles {
        out := out.(capped := true);
        StaysCapped(env, dir, entries, i + 1, s);
        return;
      }
      out := out.(out := out.out + [full]);
    }
    assert entries[..|entries|] == entries;
  }

  lemma {:induction false} StaysCapped(env: Env, dir: RelPath, entries: seq<Entry>, k: nat, s: State)
    requires k <= |entries| && Scan(env, dir, entries[..k], s).capped
    ensures Scan(env, dir, entries, s) == Scan(env, dir, entries[..k], s)
    decreases |entries|
  {
    if k == |entries| {
      assert entries[..k] == entries;
    } else {
      var n := |entries| - 1;
      assert entries[..n][..k] == entries[..k];
      StaysCapped(env, dir, entries[..n], k, s);
    }
  }

  lemma PopKeepsReals(stack: seq<Item>, visited: set<string>, read: seq<string>)
    requires stack != [] && RealsOnce(stack, visited, read)
    ensures RealsOnce(stack[..|stack| - 1], visited, read + [stack[|stack| - 1].at])
  {
    var n := |stack| - 1;
    assert stack == stack[..n] + [stack[n]] && stack[n] in stack;
    forall it | it in stack[..n] ensures it.at !in read + [stack[n].at] {
      var i :| 0 <= i < n && stack[i] == it;
    }
    forall r | r in visited ensures r in read + [stack[n].at] || exists it :: it in stack[..n] && it.at == r {
      PopFinds(stack, read, r);
    }
  }

  lemma PopFinds(stack: seq<Item>, read: seq<string>, r: string)
    requires stack != [] && (r in read || exists it :: it in stack && it.at == r)
    ensures r in read + [stack[|stack| - 1].at] || exists it :: it in stack[..|stack| - 1] && it.at == r
  {
    var n := |stack| - 1;
    if r !in read {
      var it :| it in stack && it.at == r;
      assert it in stack[..n] || it == stack[n];
    }
  }

  lemma PopKeepsPaths(stack: seq<Item>, done: set<RelPath>, pushed: set<RelPath>)
    requires stack != [] && PathsOnce(stack, done, pushed)
    ensures PathsOnce(stack[..|stack| - 1], done + {stack[|stack| - 1].path}, pushed)
    ensures stack[|stack| - 1].path !in done
  {
    var n := |stack| - 1;
    assert stack[n] in stack;
    forall it | it in stack[..n] ensures it.path in pushed && it.path !in done + {stack[n].path} {
      var i :| 0 <= i < n && stack[i] == it;
      assert it in stack;
    }
  }

  lemma PopPlaces(paths: set<RelPath>, done: set<RelPath>, dir: RelPath, met: seq<Entry>, next: RelPath)
    requires Placed(paths, done, dir, met) && next !in done
    ensures Placed(paths, done + {next}, next, [])
  {
  }

  lemma PopKeeps(env: Env, past: Past, s: State, dir: RelPath, met: seq<Entry>)
    requires Inv(env, past, s, dir, met) && s.stack != []
    ensures var n := |s.stack| - 1;
      var it := s.stack[n];
      && Inv(env, past.(read := past.read + [it.at], done := past.done + {it.path}), s.(stack := s.stack[..n]), it.path,
        [])
      && Names(env, it.path, it.at) && Clear(env, it.path)
  {
    hide RealsOnce, PathsOnce, Placed, OutOk, AllReached, Names, Clear, CapOk;
    SameCap(env, s, s.(stack := s.stack[..|s.stack| - 1]));
    var n := |s.stack| - 1;
    assert s.stack[n] in s.stack;
    PopKeepsReals(s.stack, s.visited, past.read);
    PopKeepsPaths(s.stack, past.done, past.pushed);
    PopPlaces(past.pushed, past.done, dir, met, s.stack[n].path);
    PopPlaces(PathSet(s.out), past.done, dir, met, s.stack[n].path);
  }

  /** One more directory read: what the earlier ones led to is still there. */
  lemma ReadMore(env: Env, past: Past, s: State, it: Item, s': State, pushed: set<RelPath>)
    requires ReadDone(env, past, s) && s.visited <= s'.visited && s.out <= s'.out
    requires ReadAt(env, it.path, it.at, s'.visited, s'.out)
    ensures ReadDone(env, Past(past.read + [it.at], past.done + {it.path}, pushed), s')
  {
    hide ReadAt;
    forall r | r in past.read + [it.at]
      ensures exists p :: p in past.done + {it.path} && ReadAt(env, p, r, s'.visited, s'.out)
    {
      if r in past.read {
        var p :| p in past.done && ReadAt(env, p, r, s.visited, s.out);
        ReadAtGrows(env, p, r, s.visited, s.out, s'.visited, s'.out);
      }
    }
  }

  lemma ReadAtGrows(
    env: Env, p: RelPath, r: string, visited: set<string>, out: seq<RelPath>, visited': set<string>, out': seq<RelPath>)
    requires ReadAt(env, p, r, visited, out) && visited <= visited' && out <= out'
    ensures ReadAt(env, p, r, visited', out')
  {
    hide Names, Clear;
  }

  /** A directory was read at a path on which nothing is skipped or ignored, every wanted file in
      it was yielded there, and every directory it leads to there was read, unless it is skipped
      or ignored at that path. */
  ghost predicate Followed(env: Env, p: RelPath, r: string, read: seq<string>, out: seq<RelPath>)
  {
    && Names(env, p, r) && Clear(env, p) && FilesDone(env, p, EntriesAt(env.tree, r), out)
    && forall e, at ::
         e in EntriesAt(env.tree, r) && LeadsTo(e, at) && !env.skip(e.name) && !env.ignored(p + [e.name]) ==>
         at in read
  }

  method WalkRepo(env: Env, rootIsDirectory: bool) returns (out: seq<RelPath>, capped: bool, ghost read: seq<string>)
    requires FileSystem(env.tree)
    ensures !rootIsDirectory ==> out == [] && read == [] && !capped
    ensures Distinct(out) && (forall p :: p in out ==> Yieldable(env, p)) && (|out| > 0 ==> |out| <= env.maxFiles)
    ensures capped ==> |out| >= env.maxFiles && exists p :: Yieldable(env, p) && p !in out
    ensures Distinct(read) && forall r :: r in read ==> Reaches(DirGraph(env), env.root, r)
    ensures rootIsDirectory && !capped && (forall p :: !env.ignored(p)) ==>
      forall r :: Reaches(DirGraph(env), env.root, r) ==> r in read
    ensures rootIsDirectory && !capped ==> env.root in read
    ensures !capped ==> forall r :: r in read ==> exists p :: Followed(env, p, r, read, out)
  {
    hide Inv, ReadDone, ReadAt, Followed, Clear, Scan, Names, FilesDone, DirsDone, Yieldable, Reals, PathSet, DirGraph,
      StackPaths, FileSystem;
    if !rootIsDirectory { return [], false, []; }
    var s := State([Item([], env.root)], {env.root}, [], false);
    ghost var past, dir: RelPath, met: seq<Entry> := Past([], {}, {[]}), [], [];
    StartWalk(env, s, past);
    while |s.stack| > 0
      invariant Inv(env, past, s, dir, met) && ReadDone(env, past, s) && !s.capped && s.visited <= Reals(env)
      decreases |Reals(env)| - |s.visited|, |s.stack|
    {
      var n := |s.stack| - 1;
      var it := s.stack[n];
      PopKeeps(env, past, s, dir, met);
      var entries := EntriesAt(env.tree, it.at);
      ghost var before, popped := s, s.(stack := s.stack[..n]);
      ghost var past1 := past.(read := past.read + [it.at], done := past.done + {it.path});
      s := ReadEntries(env, it.path, entries, s.(stack := s.stack[..n]));
      assert NamesDiffer(entries) by { EntriesDiffer(env.tree, it.at); }
      ScanKeeps(env, past1, popped, it.path, it.at, entries);
      ScanGrows(env, it.path, it.at, entries, popped);
      ghost var past2 := past1.(pushed := past1.pushed + StackPaths(s.stack));
      if s.capped {
        WalkEnds(env, past2, s, it.path, entries);
        return s.out, true, past2.read;
      }
      ScanYields(env, it.path, entries, popped);
      ScanVisits(env, it.path, entries, popped);
      NowRead(env, it, s);
      ReadMore(env, past, before, it, s, past2.pushed);
      past, dir, met := past2, it.path, entries;
      Smaller(s.visited, Reals(env));
    }
    WalkEnds(env, past, s, dir, met);
    WalkCloses(env, past, s, dir, met);
    return s.out, false, past.read;
  }

  lemma NowRead(env: Env, it: Item, s: State)
    requires Names(env, it.path, it.at) && Clear(env, it.path)
    requires FilesDone(env, it.path, EntriesAt(env.tree, it.at), s.out)
    requires DirsDone(env, it.path, EntriesAt(env.tree, it.at), s.visited)
    ensures ReadAt(env, it.path, it.at, s.visited, s.out)
  {
  }

  lemma EntriesDiffer(tree: map<string, seq<Entry>>, at: string)
    requires FileSystem(tree)
    ensures NamesDiffer(EntriesAt(tree, at))
  {
  }

  lemma Smaller(a: set<string>, b: set<string>)
    requires a <= b
    ensures |a| <= |b|
  {
    assert b == a + (b - a);
    assert |b| == |a| + |b - a|;
  }

  lemma StartWalk(env: Env, s: State, past: Past)
    requires s == State([Item([], env.root)], {env.root}, [], false) && past == Past([], {}, {[]})
    ensures Inv(env, past, s, [], []) && ReadDone(env, past, s) && s.visited <= Reals(env)
  {
    ReachesSelf(DirGraph(env), env.root);
    assert s.stack[0] in s.stack;
  }

  lemma WalkEnds(env: Env, past: Past, s: State, dir: RelPath, met: seq<Entry>)
    requires Inv(env, past, s, dir, met)
    ensures OutOk(env, s.out) && CapOk(env, s) && Distinct(past.read)
    ensures forall r :: r in past.read ==> Reaches(DirGraph(env), env.root, r)
  {
  }

  lemma WalkClosed(env: Env, past: Past, s: State)
    requires RealsOnce(s.stack, s.visited, past.read) && ReadDone(env, past, s) && s.stack == []
    requires forall p :: !env.ignored(p)
    ensures Closed(DirGraph(env), s.visited)
  {
    hide Names, FilesDone, Clear;
    var g := DirGraph(env);
    forall v, w | v in s.visited && w in Succ(g, v) ensures w in s.visited {
      assert v in past.read;
      var p :| p in past.done && ReadAt(env, p, v, s.visited, s.out);
      assert w in Below(EntriesAt(env.tree, v), env.skip);
      var e :| e in EntriesAt(env.tree, v) && !env.skip(e.name) && LeadsTo(e, w);
      assert !env.ignored(p + [e.name]);
    }
  }

  lemma AllFollowed(env: Env, past: Past, s: State)
    requires RealsOnce(s.stack, s.visited, past.read) && ReadDone(env, past, s) && s.stack == []
    ensures forall r :: r in past.read ==> exists p :: Followed(env, p, r, past.read, s.out)
  {
    hide Names, FilesDone, Clear, LeadsTo;
    forall r | r in past.read ensures exists p :: Followed(env, p, r, past.read, s.out) {
      var p :| p in past.done && ReadAt(env, p, r, s.visited, s.out);
      assert Followed(env, p, r, past.read, s.out);
    }
  }

  lemma WalkCloses(env: Env, past: Past, s: State, dir: RelPath, met: seq<Entry>)
    requires Inv(env, past, s, dir, met) && ReadDone(env, past, s) && s.stack == []
    ensures (forall p :: !env.ignored(p)) ==> forall r :: Reaches(DirGraph(env), env.root, r) ==> r in past.read
    ensures env.root in past.read
    ensures forall r :: r in past.read ==> exists p :: Followed(env, p, r, past.read, s.out)
  {
    hide Names, Below, FilesDone, Placed, PathsOnce, ItemsNamed, OutOk, ReadAt, Followed, CapOk;
    AllFollowed(env, past, s);
    if forall p :: !env.ignored(p) {
      WalkClosed(env, past, s);
      forall r | Reaches(DirGraph(env), env.root, r) ensures r in past.read {
        assert env.root in s.visited;
        ReachesStaysIn(DirGraph(env), s.visited, env.root, r);
      }
    }
  }
}
