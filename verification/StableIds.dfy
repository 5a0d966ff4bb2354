/** Content-stable public ids for the communities of one clustering. */
module StableIds {
  import opened Strings
  import CommunityEdges

  // ---- Slugs ---------------------------------------------------------------------

  predicate IsAlnum(c: char)
  {
    'a' <= c <= 'z' || '0' <= c <= '9'
  }

  function LowerChar(c: char): char
  {
    if 'A' <= c <= 'Z' then c + 'a' - 'A' else c
  }

  function Lower(s: string): string
  {
    if s == "" then "" else [LowerChar(s[0])] + Lower(s[1..])
  }

  /** Replaces every run of other characters by one dash; `inRun` says that the
      run reaching `s` has had its dash already. */
  function Collapse(s: string, inRun: bool): string
  {
    if s == "" then ""
    else if IsAlnum(s[0]) then [s[0]] + Collapse(s[1..], false)
    else if inRun then Collapse(s[1..], true)
    else ['-'] + Collapse(s[1..], true)
  }

  function TrimDashStart(s: string): string
  {
    if s != "" && s[0] == '-' then TrimDashStart(s[1..]) else s
  }

  function TrimDashEnd(s: string): string
  {
    if s != "" && s[|s| - 1] == '-' then TrimDashEnd(s[..|s| - 1]) else s
  }

  function Slug(s: string): string
  {
    TrimDashEnd(TrimDashStart(Collapse(Lower(s), false)))
  }

  /** Only letters, digits and single dashes between them. */
  ghost predicate IsSlug(s: string)
  {
    && (forall c :: c in s ==> IsAlnum(c) || c == '-')
    && (s != "" ==> s[0] != '-' && s[|s| - 1] != '-')
    && (forall i :: 0 <= i < |s| - 1 ==> s[i] != '-' || s[i + 1] != '-')
  }

  ghost predicate Collapsed(s: string)
  {
    && (forall c :: c in s ==> IsAlnum(c) || c == '-')
    && (forall i :: 0 <= i < |s| - 1 ==> s[i] != '-' || s[i + 1] != '-')
  }

  lemma {:induction false} CollapseOk(s: string, inRun: bool)
    ensures Collapsed(Collapse(s, inRun))
    ensures inRun && Collapse(s, inRun) != "" ==> Collapse(s, inRun)[0] != '-'
  {
    if s != "" {
      if IsAlnum(s[0]) {
        CollapseOk(s[1..], false);
        Prepend(s[0], Collapse(s[1..], false));
      } else {
        CollapseOk(s[1..], true);
        if !inRun { Prepend('-', Collapse(s[1..], true)); }
      }
    }
  }

  lemma Prepend(c: char, s: string)
    requires Collapsed(s) && (IsAlnum(c) || c == '-') && (c == '-' && s != "" ==> s[0] != '-')
    ensures Collapsed([c] + s)
  {
    var t := [c] + s;
    forall i | 0 <= i < |t| - 1 ensures t[i] != '-' || t[i + 1] != '-' {
      if i > 0 { assert t[i] == s[i - 1] && t[i + 1] == s[i]; }
    }
  }

  lemma {:induction false} TrimDashStartOk(s: string)
    requires Collapsed(s)
    ensures Collapsed(TrimDashStart(s))
    ensures TrimDashStart(s) != "" ==> TrimDashStart(s)[0] != '-'
  {
    if s != "" && s[0] == '-' { TrimDashStartOk(s[1..]); }
  }

  lemma {:induction false} TrimDashEndOk(s: string)
    requires Collapsed(s) && (s != "" ==> s[0] != '-')
    ensures IsSlug(TrimDashEnd(s))
  {
    if s != "" && s[|s| - 1] == '-' { TrimDashEndOk(s[..|s| - 1]); }
  }

  lemma SlugIsSlug(s: string)
    ensures IsSlug(Slug(s))
  {
    CollapseOk(Lower(s), false);
    TrimDashStartOk(Collapse(Lower(s), false));
    TrimDashEndOk(TrimDashStart(Collapse(Lower(s), false)));
  }

  lemma CollapsedTail(s: string)
    requires Collapsed(s) && s != ""
    ensures Collapsed(s[1..])
  {
    var t := s[1..];
    forall i | 0 <= i < |t| - 1 ensures t[i] != '-' || t[i + 1] != '-' {
      assert t[i] == s[i + 1] && t[i + 1] == s[i + 2];
    }
    forall c | c in t ensures IsAlnum(c) || c == '-' { assert c in s; }
  }

  lemma {:induction false} SlugText(s: string)
    requires Collapsed(s)
    ensures Lower(s) == s
    ensures Collapse(s, false) == s
    ensures s != "" && s[0] != '-' ==> Collapse(s, true) == s
  {
    if s != "" {
      assert s[0] in s;
      CollapsedTail(s);
      SlugText(s[1..]);
      assert s == [s[0]] + s[1..];
      if !IsAlnum(s[0]) && |s| > 1 { assert s[1] != '-'; }
    }
  }

  /** A slug is a fixed point of `Slug`; so slugging twice is slugging once. */
  lemma SlugIdempotent(s: string)
    ensures Slug(Slug(s)) == Slug(s)
  {
    SlugIsSlug(s);
    SlugText(Slug(s));
  }

  // ---- One community's id ------------------------------------------------------------

  /** The text after the last slash. */
  function Basename(path: string): string
  {
    var parts := Split(path, "/");
    if parts == [] then path else parts[|parts| - 1]
  }

  /** Drops the last dot and what follows it, when something does. */
  function StripExtension(s: string): string
  {
    var i := LastDot(s);
    if i < 0 || i == |s| - 1 then s else s[..i]
  }

  function LastDot(s: string): (i: int)
    ensures -1 <= i < |s|
  {
    if s == "" then -1
    else if s[|s| - 1] == '.' then |s| - 1
    else LastDot(s[..|s| - 1])
  }

  function SlugBasename(path: string): string
  {
    Slug(StripExtension(Basename(path)))
  }

  /** What the labelling heuristic found for a group, or nothing, in which case
      the label is `community-` and the dense id. */
  datatype Topic = Topic(text: string) | NoTopic

  /** A group of files with its dense id; `files` is sorted. */
  datatype Group = Group(cid: nat, files: seq<string>, topic: Topic)

  function Label(g: Group): string
  {
    if g.topic.Topic? then g.topic.text else "community-" + Decimal(g.cid)
  }

  predicate IsFallbackLabel(text: string)
  {
    |text| > 10 && text[..10] == "community-" && forall c :: c in text[10..] ==> '0' <= c <= '9'
  }

  function StableBase(text: string): string
  {
    if IsFallbackLabel(text) then "community"
    else if Slug(text) == "" then "community" else Slug(text)
  }

  function Anchor(files: seq<string>): string
  {
    var smallest := if files == [] then "" else files[0];
    if SlugBasename(smallest) == "" then "unnamed" else SlugBasename(smallest)
  }

  function CommunityStableId(text: string, files: seq<string>): string
  {
    StableBase(text) + "~" + Anchor(files)
  }

  lemma BaseIsSlug(text: string)
    ensures IsSlug(StableBase(text)) && StableBase(text) != ""
  {
    SlugIsSlug(text);
  }

  lemma AnchorIsSlug(files: seq<string>)
    ensures IsSlug(Anchor(files)) && Anchor(files) != ""
  {
    SlugIsSlug(StripExtension(Basename(if files == [] then "" else files[0])));
  }

  lemma FallbackLabel(n: nat)
    ensures IsFallbackLabel("community-" + Decimal(n))
  {
    var text := "community-" + Decimal(n);
    assert text[..10] == "community-" && text[10..] == Decimal(n);
  }

  // ---- The ids of all communities -------------------------------------------------------

  function BareId(g: Group): string
  {
    CommunityStableId(Label(g), g.files)
  }

  function Basenames(files: seq<string>): seq<string>
  {
    if files == [] then [] else [Basename(files[0])] + Basenames(files[1..])
  }

  /** The bare id with the membership hash that breaks a tie. */
  function HashedId(g: Group, hash: string -> string): string
  {
    BareId(g) + "~" + hash(Join(Sort(Basenames(g.files)), "|"))
  }

  /** The last resort: the hashed id with the dense id. */
  function NumberedId(g: Group, hash: string -> string): string
  {
    HashedId(g, hash) + "~" + Decimal(g.cid)
  }

  /** The id a group gets when the ids in `used` are taken. */
  function IdFor(g: Group, used: set<string>, hash: string -> string): string
  {
    if BareId(g) !in used then BareId(g)
    else if HashedId(g, hash) !in used then HashedId(g, hash)
    else NumberedId(g, hash)
  }

  /** The ids of the groups, taken in the given order. */
  function AssignIds(groups: seq<Group>, hash: string -> string): (ids: seq<string>)
    ensures |ids| == |groups|
  {
    if groups == [] then []
    else
      var ids := AssignIds(groups[..|groups| - 1], hash);
      ids + [IdFor(groups[|groups| - 1], Elements(ids), hash)]
  }

  function Elements(s: seq<string>): set<string>
  {
    set x | x in s
  }

  /** Hashes are written with characters other than `~` and `|`. */
  ghost predicate HashText(hash: string -> string)
  {
    forall s :: '~' !in hash(s) && '|' !in hash(s)
  }

  ghost predicate DistinctCids(groups: seq<Group>)
  {
    forall i, j :: 0 <= i < j < |groups| ==> groups[i].cid != groups[j].cid
  }

  // ---- Ids of different shape or number differ -----------------------------------------------

  ghost function Parts(g: Group, hash: string -> string): seq<string>
  {
    [StableBase(Label(g)), Anchor(g.files), hash(Join(Sort(Basenames(g.files)), "|")), Decimal(g.cid)]
  }

  lemma PartsPlain(g: Group, hash: string -> string)
    requires HashText(hash)
    ensures forall p :: p in Parts(g, hash) ==> '~' !in p && '|' !in p
  {
    hide Decimal, StableBase, Anchor, Label, Basenames;
    BaseIsSlug(Label(g));
    AnchorIsSlug(g.files);
  }

  lemma IdParts(g: Group, hash: string -> string)
    requires HashText(hash)
    ensures Split(BareId(g), "~") == Parts(g, hash)[..2]
    ensures Split(HashedId(g, hash), "~") == Parts(g, hash)[..3]
    ensures Split(NumberedId(g, hash), "~") == Parts(g, hash)
  {
    PartsPlain(g, hash);
    var p := Parts(g, hash);
    hide Decimal, StableBase, Anchor, Label, Basenames, Split, Sort, Parts;
    JoinFew(p);
    SplitJoin(p[..2], "~");
    SplitJoin(p[..3], "~");
    SplitJoin(p, "~");
    assert BareId(g) == p[0] + "~" + p[1];
    assert HashedId(g, hash) == p[0] + "~" + p[1] + "~" + p[2];
    assert NumberedId(g, hash) == p[0] + "~" + p[1] + "~" + p[2] + "~" + p[3];
  }

  lemma JoinFew(p: seq<string>)
    requires |p| == 4
    ensures Join(p[..2], "~") == p[0] + "~" + p[1]
    ensures Join(p[..3], "~") == p[0] + "~" + p[1] + "~" + p[2]
    ensures Join(p, "~") == p[0] + "~" + p[1] + "~" + p[2] + "~" + p[3]
  {
    hide Join;
    JoinTwo(p[0], p[1]);
    JoinTwo(p[1], p[2]);
    JoinTwo(p[2], p[3]);
    JoinStep(p[0], [p[1], p[2]]);
    JoinStep(p[1], [p[2], p[3]]);
    JoinStep(p[0], [p[1], p[2], p[3]]);
    assert p[..2] == [p[0], p[1]] && p[..3] == [p[0]] + [p[1], p[2]];
    assert p == [p[0]] + [p[1], p[2], p[3]] && [p[1], p[2], p[3]] == [p[1]] + [p[2], p[3]];
  }

  lemma JoinTwo(a: string, b: string)
    ensures Join([a, b], "~") == a + "~" + b
  {
    assert [a, b][1..] == [b];
  }

  lemma JoinStep(a: string, rest: seq<string>)
    requires rest != []
    ensures Join([a] + rest, "~") == a + "~" + Join(rest, "~")
  {
    assert ([a] + rest)[1..] == rest;
  }

  /** A numbered id is not an id of a group with another dense id. */
  lemma NumberedIdFresh(g: Group, h: Group, used: set<string>, hash: string -> string)
    requires HashText(hash) && g.cid != h.cid
    ensures NumberedId(g, hash) != IdFor(h, used, hash)
  {
    hide BareId, HashedId, NumberedId, Split;
    IdParts(g, hash);
    IdParts(h, hash);
    if NumberedId(g, hash) == NumberedId(h, hash) {
      assert Parts(g, hash)[3] == Parts(h, hash)[3];
      DecimalInjective(g.cid, h.cid);
    }
  }

  lemma {:induction false} NumberedIdUnused(groups: seq<Group>, g: Group, hash: string -> string)
    requires HashText(hash) && forall h :: h in groups ==> h.cid != g.cid
    ensures NumberedId(g, hash) !in AssignIds(groups, hash)
  {
    hide NumberedId, IdFor;
    if groups != [] {
      var rest := groups[..|groups| - 1];
      NumberedIdUnused(rest, g, hash);
      NumberedIdFresh(g, groups[|groups| - 1], Elements(AssignIds(rest, hash)), hash);
    }
  }

  lemma IdForUnused(groups: seq<Group>, g: Group, hash: string -> string)
    requires HashText(hash) && forall h :: h in groups ==> h.cid != g.cid
    ensures IdFor(g, Elements(AssignIds(groups, hash)), hash) !in AssignIds(groups, hash)
  {
    hide BareId, HashedId, NumberedId, AssignIds;
    NumberedIdUnused(groups, g, hash);
  }

  /** Public ids are injective: no two groups share one. */
  lemma {:induction false} IdsDistinct(groups: seq<Group>, hash: string -> string)
    requires HashText(hash) && DistinctCids(groups)
    ensures Distinct(AssignIds(groups, hash))
  {
    hide IdFor;
    if groups != [] {
      var rest := groups[..|groups| - 1];
      IdsDistinct(rest, hash);
      IdForUnused(rest, groups[|groups| - 1], hash);
    }
  }

  /** Public ids are never empty and never contain the separator of the edge keys. */
  lemma {:induction false} IdsPlain(groups: seq<Group>, hash: string -> string)
    requires HashText(hash)
    ensures forall id :: id in AssignIds(groups, hash) ==> id != "" && CommunityEdges.Plain(id)
  {
    hide IdFor, CommunityEdges.Plain;
    if groups != [] {
      var rest := groups[..|groups| - 1];
      IdsPlain(rest, hash);
      IdPlain(groups[|groups| - 1], Elements(AssignIds(rest, hash)), hash);
    }
  }

  lemma IdPlain(g: Group, used: set<string>, hash: string -> string)
    requires HashText(hash)
    ensures IdFor(g, used, hash) != "" && CommunityEdges.Plain(IdFor(g, used, hash))
  {
    hide StableBase, Anchor, Label, Basenames, Sort, Decimal;
    BaseIsSlug(Label(g));
    AnchorIsSlug(g.files);
    assert '|' !in BareId(g);
    assert '|' !in HashedId(g, hash);
  }

  /** The id loop of one group; it asks for a numbered id at most once. */
  method PickId(g: Group, used: set<string>, hash: string -> string) returns (id: string)
    requires NumberedId(g, hash) !in used
    ensures id == IdFor(g, used, hash)
  {
    hide BareId, HashedId, NumberedId;
    id := BareId(g);
    if id in used {
      id := HashedId(g, hash);
      while id in used
        invariant id == HashedId(g, hash) || (id == NumberedId(g, hash) && HashedId(g, hash) in used)
        decreases if id == NumberedId(g, hash) then 0 else 1
      {
        id := NumberedId(g, hash);
      }
    }
  }

  /** `buildDenseIdToStableId` on groups already in processing order. */
  method AssignStableIds(groups: seq<Group>, hash: string -> string)
    returns (ids: map<nat, string>, ghost inOrder: seq<string>)
    requires HashText(hash) && DistinctCids(groups)
    ensures inOrder == AssignIds(groups, hash)
    ensures forall cid :: cid in ids <==> exists g :: g in groups && g.cid == cid
    ensures forall i :: 0 <= i < |groups| ==> ids[groups[i].cid] == inOrder[i]
  {
    hide IdFor, NumberedId, HashText, BareId;
    ids, inOrder := map[], [];
    var used: set<string> := {};
    for i := 0 to |groups|
      invariant inOrder == AssignIds(groups[..i], hash) && used == Elements(inOrder)
      invariant forall cid :: cid in ids ==> exists g :: g in groups && g.cid == cid
      invariant forall j :: 0 <= j < i ==> groups[j].cid in ids && ids[groups[j].cid] == inOrder[j]
    {
      var g := groups[i];
      assert groups[..i + 1][..i] == groups[..i];
      NumberedIdUnused(groups[..i], g, hash);
      var id := PickId(g, used, hash);
      used := used + {id};
      ids := ids[g.cid := id];
      inOrder := inOrder + [id];
    }
    assert groups[..|groups|] == groups;
  }

  // ---- The processing order ---------------------------------------------------------------

  ghost predicate StrictTotal(less: (string, string) -> bool)
  {
    && (forall a :: !less(a, a))
    && (forall a, b :: a != b ==> less(a, b) || less(b, a))
    && (forall a, b, c :: less(a, b) && less(b, c) ==> less(a, c))
  }

  function First(files: seq<string>): string
  {
    if files == [] then "" else files[0]
  }

  predicate Before(g: Group, h: Group, less: (string, string) -> bool)
  {
    less(First(g.files), First(h.files)) || (First(g.files) == First(h.files) && g.cid < h.cid)
  }

  function InsertGroup(g: Group, s: seq<Group>, less: (string, string) -> bool): seq<Group>
  {
    if s == [] || !Before(s[0], g, less) then [g] + s
    else [s[0]] + InsertGroup(g, s[1..], less)
  }

  /** The groups by smallest member path, then by dense id. */
  function SortGroups(s: seq<Group>, less: (string, string) -> bool): seq<Group>
  {
    if s == [] then [] else InsertGroup(s[0], SortGroups(s[1..], less), less)
  }

  /** A group without its dense id. */
  datatype Body = Body(files: seq<string>, topic: Topic)

  function Bodies(s: seq<Group>): (r: seq<Body>)
    ensures |r| == |s| && forall i :: 0 <= i < |s| ==> r[i] == Body(s[i].files, s[i].topic)
  {
    if s == [] then [] else [Body(s[0].files, s[0].topic)] + Bodies(s[1..])
  }

  /** The bodies are in order of their smallest member path. */
  ghost predicate InOrder(b: seq<Body>, less: (string, string) -> bool)
  {
    forall i, j :: 0 <= i < j < |b| ==> !less(First(b[j].files), First(b[i].files))
  }

  ghost predicate DistinctFirsts(b: seq<Body>)
  {
    forall i, j :: 0 <= i < j < |b| ==> First(b[i].files) != First(b[j].files)
  }

  lemma {:induction false} InsertGroupKeeps(g: Group, s: seq<Group>, less: (string, string) -> bool)
    ensures multiset(InsertGroup(g, s, less)) == multiset(s) + multiset{g}
  {
    hide Before;
    if s != [] {
      assert s == [s[0]] + s[1..];
      InsertGroupKeeps(g, s[1..], less);
    }
  }

  lemma BodiesCons(g: Group, s: seq<Group>)
    ensures multiset(Bodies([g] + s)) == multiset(Bodies(s)) + multiset{Body(g.files, g.topic)}
  {
    assert ([g] + s)[1..] == s;
  }

  lemma {:induction false} InsertGroupKeepsBodies(g: Group, s: seq<Group>, less: (string, string) -> bool)
    ensures multiset(Bodies(InsertGroup(g, s, less))) == multiset(Bodies(s)) + multiset{Body(g.files, g.topic)}
  {
    hide Before, Bodies;
    BodiesCons(g, s);
    if s != [] && Before(s[0], g, less) {
      assert s == [s[0]] + s[1..];
      InsertGroupKeepsBodies(g, s[1..], less);
      BodiesCons(s[0], s[1..]);
      BodiesCons(s[0], InsertGroup(g, s[1..], less));
    }
  }

  lemma {:induction false} SortGroupsKeeps(s: seq<Group>, less: (string, string) -> bool)
    ensures multiset(SortGroups(s, less)) == multiset(s)
    ensures multiset(Bodies(SortGroups(s, less))) == multiset(Bodies(s))
  {
    hide InsertGroup, Bodies;
    if s != [] {
      assert s == [s[0]] + s[1..];
      var r := SortGroups(s[1..], less);
      SortGroupsKeeps(s[1..], less);
      InsertGroupKeeps(s[0], r, less);
      InsertGroupKeepsBodies(s[0], r, less);
      BodiesCons(s[0], s[1..]);
    }
  }

  lemma PrependInOrder(x: Group, r: seq<Group>, less: (string, string) -> bool)
    requires InOrder(Bodies(r), less) && forall h :: h in r ==> !less(First(h.files), First(x.files))
    ensures InOrder(Bodies([x] + r), less)
  {
    hide First;
    var s := [x] + r;
    assert s[1..] == r;
    forall i, j | 0 <= i < j < |s| ensures !less(First(Bodies(s)[j].files), First(Bodies(s)[i].files)) {
      assert s[j] == r[j - 1] && Bodies(s)[j].files == Bodies(r)[j - 1].files == s[j].files;
      if i > 0 { assert Bodies(s)[i].files == Bodies(r)[i - 1].files; }
    }
  }

  /** A group that is not after the first one is after none. */
  lemma {:induction false} NotAfterAny(g: Group, s: seq<Group>, less: (string, string) -> bool)
    requires StrictTotal(less) && InOrder(Bodies(s), less) && s != [] && !Before(s[0], g, less)
    ensures forall h :: h in s ==> !less(First(h.files), First(g.files))
  {
    hide First, Bodies;
    forall h | h in s ensures !less(First(h.files), First(g.files)) {
      var i :| 0 <= i < |s| && s[i] == h;
      assert Bodies(s)[i].files == h.files && Bodies(s)[0].files == s[0].files;
    }
  }

  lemma {:induction false} InsertGroupInOrder(g: Group, s: seq<Group>, less: (string, string) -> bool)
    requires StrictTotal(less) && InOrder(Bodies(s), less)
    ensures InOrder(Bodies(InsertGroup(g, s, less)), less)
  {
    if s == [] {
      PrependInOrder(g, s, less);
    } else if Before(s[0], g, less) {
      assert Bodies(s)[1..] == Bodies(s[1..]);
      RestInOrder(Bodies(s), less);
      InsertGroupInOrder(g, s[1..], less);
      InsertedAfter(g, s, less);
      hide StrictTotal, InOrder, Before, Bodies, First;
      PrependInOrder(s[0], InsertGroup(g, s[1..], less), less);
    } else {
      NotAfterAny(g, s, less);
      hide StrictTotal, InOrder, Bodies, First;
      PrependInOrder(g, s, less);
    }
  }

  lemma InsertedAfter(g: Group, s: seq<Group>, less: (string, string) -> bool)
    requires StrictTotal(less) && s != [] && InOrder(Bodies(s), less) && Before(s[0], g, less)
    ensures forall h :: h in InsertGroup(g, s[1..], less) ==> !less(First(h.files), First(s[0].files))
  {
    var r := InsertGroup(g, s[1..], less);
    InsertGroupKeeps(g, s[1..], less);
    hide InsertGroup, Bodies;
    forall h | h in r ensures !less(First(h.files), First(s[0].files)) {
      assert h in multiset(r);
      assert h == g || h in s[1..];
      if h != g {
        var i :| 0 <= i < |s[1..]| && s[1..][i] == h;
        assert Bodies(s)[i + 1].files == h.files && Bodies(s)[0].files == s[0].files;
      }
    }
  }

  lemma {:induction false} SortGroupsInOrder(s: seq<Group>, less: (string, string) -> bool)
    requires StrictTotal(less)
    ensures InOrder(Bodies(SortGroups(s, less)), less)
  {
    if s != [] {
      SortGroupsInOrder(s[1..], less);
      InsertGroupInOrder(s[0], SortGroups(s[1..], less), less);
    }
  }

  lemma OrderFixesFirst(a: seq<Body>, b: seq<Body>, less: (string, string) -> bool)
    requires StrictTotal(less) && InOrder(a, less) && InOrder(b, less) && DistinctFirsts(a)
    requires multiset(a) == multiset(b) && a != [] && b != []
    ensures a[0] == b[0]
  {
    assert a[0] in multiset(b) && b[0] in multiset(a);
    var i :| 0 <= i < |b| && b[i] == a[0];
    var j :| 0 <= j < |a| && a[j] == b[0];
    if j != 0 {
      assert false;
    }
  }

  /** Distinct smallest paths leave one order only. */
  lemma {:induction false} OrderUnique(a: seq<Body>, b: seq<Body>, less: (string, string) -> bool)
    requires StrictTotal(less) && InOrder(a, less) && InOrder(b, less) && DistinctFirsts(a)
    requires multiset(a) == multiset(b)
    ensures a == b
  {
    assert |a| == |multiset(a)| == |multiset(b)| == |b|;
    if a != [] {
      OrderFixesFirst(a, b, less);
      RestInOrder(a, less);
      RestInOrder(b, less);
      assert DistinctFirsts(a[1..]);
      hide InOrder, DistinctFirsts, StrictTotal, First;
      assert a == [a[0]] + a[1..] && b == [b[0]] + b[1..];
      assert multiset(a[1..]) == multiset(a) - multiset{a[0]};
      assert multiset(b[1..]) == multiset(b) - multiset{b[0]};
      OrderUnique(a[1..], b[1..], less);
    }
  }

  lemma RestInOrder(a: seq<Body>, less: (string, string) -> bool)
    requires InOrder(a, less) && a != []
    ensures InOrder(a[1..], less)
  {
  }

  // ---- Renumbering --------------------------------------------------------------------------

  /** The dense id reaches no bare and no hashed id. */
  lemma SameBodySameId(g: Group, h: Group, hash: string -> string)
    requires g.files == h.files && g.topic == h.topic
    ensures BareId(g) == BareId(h) && HashedId(g, hash) == HashedId(h, hash)
  {
    if g.topic.NoTopic? {
      FallbackLabel(g.cid);
      FallbackLabel(h.cid);
    }
  }

  /** What a group's dense id changes: its public id keeps its value under another
      dense id exactly when the bare or the hashed id is still free. */
  lemma DenseIdShowsOnTieOnly(g: Group, h: Group, used: set<string>, hash: string -> string)
    requires g.files == h.files && g.topic == h.topic && g.cid != h.cid && HashText(hash)
    ensures IdFor(g, used, hash) == IdFor(h, used, hash) <==> BareId(g) !in used || HashedId(g, hash) !in used
  {
    SameBodySameId(g, h, hash);
    NumberedIdFresh(g, h, {BareId(h), HashedId(h, hash)}, hash);
  }

  /** No group falls back to its numbered id. */
  ghost predicate NoTie(groups: seq<Group>, hash: string -> string)
  {
    groups == [] ||
    (var rest, g := groups[..|groups| - 1], groups[|groups| - 1];
     NoTie(rest, hash) &&
     (BareId(g) in AssignIds(rest, hash) ==> HashedId(g, hash) !in AssignIds(rest, hash)))
  }

  lemma {:induction false} SameBodiesSameIds(a: seq<Group>, b: seq<Group>, hash: string -> string)
    requires Bodies(a) == Bodies(b) && NoTie(a, hash)
    ensures AssignIds(a, hash) == AssignIds(b, hash)
  {
    hide BareId, HashedId, NumberedId;
    assert |a| == |Bodies(a)| == |Bodies(b)| == |b|;
    if a != [] {
      var n := |a| - 1;
      assert forall i :: 0 <= i <= n ==> Bodies(a)[i] == Body(a[i].files, a[i].topic) == Body(b[i].files, b[i].topic);
      assert Bodies(a[..n]) == Bodies(b[..n]);
      SameBodiesSameIds(a[..n], b[..n], hash);
      SameBodySameId(a[n], b[n], hash);
    }
  }

  /** Distinct smallest paths put the same bodies in the same order. */
  lemma SameOrder(a: seq<Group>, b: seq<Group>, less: (string, string) -> bool)
    requires StrictTotal(less)
    requires multiset(Bodies(a)) == multiset(Bodies(b)) && DistinctFirsts(Bodies(a))
    ensures Bodies(SortGroups(a, less)) == Bodies(SortGroups(b, less))
  {
    var sa, sb := SortGroups(a, less), SortGroups(b, less);
    SortGroupsKeeps(a, less);
    SortGroupsKeeps(b, less);
    SortGroupsInOrder(a, less);
    SortGroupsInOrder(b, less);
    DistinctFirstsKept(Bodies(a), Bodies(sa));
    OrderUnique(Bodies(sa), Bodies(sb), less);
  }

  /** Renumbering the dense ids, and listing the groups in another order, leaves
      every public id unchanged, when no two groups share their smallest path and no
      hash tie-break collides. */
  lemma RenumberingKeepsIds(a: seq<Group>, b: seq<Group>, less: (string, string) -> bool, hash: string -> string)
    requires StrictTotal(less)
    requires multiset(Bodies(a)) == multiset(Bodies(b)) && DistinctFirsts(Bodies(a))
    requires NoTie(SortGroups(a, less), hash)
    ensures Bodies(SortGroups(a, less)) == Bodies(SortGroups(b, less))
    ensures AssignIds(SortGroups(a, less), hash) == AssignIds(SortGroups(b, less), hash)
  {
    SameOrder(a, b, less);
    SameBodiesSameIds(SortGroups(a, less), SortGroups(b, less), hash);
  }

  lemma DistinctFirstsKept(a: seq<Body>, b: seq<Body>)
    requires multiset(a) == multiset(b) && DistinctFirsts(a)
    ensures DistinctFirsts(b)
  {
    forall i, j | 0 <= i < j < |b| ensures First(b[i].files) != First(b[j].files) {
      assert b[i] in multiset(a) && b[j] in multiset(a);
      assert Distinct(a);
      SameElements(a, b);
    }
  }

  lemma BodiesButLast(a: seq<Group>, b: seq<Group>)
    requires Bodies(a) == Bodies(b) && a != [] && |a| == |b|
    ensures var n := |a| - 1;
      Bodies(a[..n]) == Bodies(b[..n]) && a[n].files == b[n].files && a[n].topic == b[n].topic
  {
    hide Bodies;
    var n := |a| - 1;
    assert forall i :: 0 <= i <= n ==> Bodies(a)[i] == Body(a[i].files, a[i].topic) == Body(b[i].files, b[i].topic);
    assert Bodies(a[..n]) == Bodies(b[..n]);
  }

  /** A first tie shows: groups with the same bodies and other dense ids get other ids. */
  lemma {:induction false} TieShows(a: seq<Group>, b: seq<Group>, hash: string -> string)
    requires Bodies(a) == Bodies(b) && HashText(hash) && !NoTie(a, hash)
    requires |a| == |b| && forall i :: 0 <= i < |a| ==> a[i].cid != b[i].cid
    ensures AssignIds(a, hash) != AssignIds(b, hash)
  {
    hide BareId, HashedId, NumberedId, HashText, IdFor, Bodies;
    var n := |a| - 1;
    BodiesButLast(a, b);
    if !NoTie(a[..n], hash) {
      TieShows(a[..n], b[..n], hash);
      assert AssignIds(a, hash)[..n] == AssignIds(a[..n], hash) && AssignIds(b, hash)[..n] == AssignIds(b[..n], hash);
    } else {
      SameBodiesSameIds(a[..n], b[..n], hash);
      LastAssigned(a, hash);
      LastAssigned(b, hash);
      hide AssignIds;
      DenseIdShowsOnTieOnly(a[n], b[n], Elements(AssignIds(a[..n], hash)), hash);
    }
  }

  lemma LastAssigned(s: seq<Group>, hash: string -> string)
    requires s != []
    ensures var before := Elements(AssignIds(s[..|s| - 1], hash));
      AssignIds(s, hash)[|s| - 1] == IdFor(s[|s| - 1], before, hash)
  {
    hide IdFor, Elements;
  }

  function CidBound(s: seq<Group>): (k: nat)
    ensures forall g :: g in s ==> g.cid < k
  {
    if s == [] then 0
    else
      var k := CidBound(s[1..]);
      assert s == [s[0]] + s[1..];
      if s[0].cid < k then k else s[0].cid + 1
  }

  /** The same groups, all dense ids moved up by `k`. */
  function Renumbered(s: seq<Group>, k: nat): (r: seq<Group>)
    ensures |r| == |s| && forall i :: 0 <= i < |s| ==> r[i] == s[i].(cid := s[i].cid + k)
  {
    seq(|s|, i requires 0 <= i < |s| => s[i].(cid := s[i].cid + k))
  }

  lemma SortGroupsElements(s: seq<Group>, less: (string, string) -> bool)
    ensures |SortGroups(s, less)| == |s| && forall g :: g in SortGroups(s, less) ==> g in s
  {
    hide SortGroups;
    SortGroupsKeeps(s, less);
    SameElements(s, SortGroups(s, less));
    assert |SortGroups(s, less)| == |multiset(SortGroups(s, less))| == |s|;
  }

  lemma RenumberedAbove(s: seq<Group>, k: nat)
    ensures forall g :: g in Renumbered(s, k) ==> g.cid >= k
  {
  }

  lemma OthersNumbered(a: seq<Group>, less: (string, string) -> bool)
    ensures var sa, sb := SortGroups(a, less), SortGroups(Renumbered(a, CidBound(a)), less);
      |sa| == |sb| && forall i :: 0 <= i < |sa| ==> sa[i].cid != sb[i].cid
  {
    hide SortGroups, CidBound;
    var k := CidBound(a);
    SortGroupsElements(a, less);
    SortGroupsElements(Renumbered(a, k), less);
    RenumberedAbove(a, k);
    var sa, sb := SortGroups(a, less), SortGroups(Renumbered(a, k), less);
    forall i | 0 <= i < |sa| ensures sa[i].cid != sb[i].cid {
      assert sa[i] in a && sb[i] in Renumbered(a, k);
    }
  }

  /** The public ids survive every renumbering and every order of the groups. */
  ghost predicate SurvivesRenumbering(a: seq<Group>, less: (string, string) -> bool, hash: string -> string)
  {
    forall b :: DistinctCids(b) && multiset(Bodies(b)) == multiset(Bodies(a)) ==>
      AssignIds(SortGroups(b, less), hash) == AssignIds(SortGroups(a, less), hash)
  }

  /** With distinct smallest paths they do if and only if no group falls back to its numbered id. */
  lemma RenumberingExactlyWhen(a: seq<Group>, less: (string, string) -> bool, hash: string -> string)
    requires StrictTotal(less) && HashText(hash) && DistinctCids(a) && DistinctFirsts(Bodies(a))
    ensures SurvivesRenumbering(a, less, hash) <==> NoTie(SortGroups(a, less), hash)
  {
    hide StrictTotal, HashText, DistinctFirsts, SortGroups, AssignIds, NoTie, Bodies;
    if NoTie(SortGroups(a, less), hash) {
      forall b | DistinctCids(b) && multiset(Bodies(b)) == multiset(Bodies(a))
        ensures AssignIds(SortGroups(b, less), hash) == AssignIds(SortGroups(a, less), hash)
      {
        RenumberingKeepsIds(a, b, less, hash);
      }
    } else {
      var b := Renumbered(a, CidBound(a));
      assert Bodies(b) == Bodies(a);
      SameOrder(a, b, less);
      OthersNumbered(a, less);
      TieShows(SortGroups(a, less), SortGroups(b, less), hash);
    }
  }

  /** `buildDenseIdToStableId`: every group gets a public id of its own, free of
      the separator of the edge keys. */
  method BuildDenseIdToStableId(groups: seq<Group>, less: (string, string) -> bool, hash: string -> string)
    returns (ids: map<nat, string>)
    requires HashText(hash) && DistinctCids(groups)
    ensures forall cid :: cid in ids <==> exists g :: g in groups && g.cid == cid
    ensures forall a, b :: a in ids && b in ids && a != b ==> ids[a] != ids[b]
    ensures forall a :: a in ids ==> ids[a] != "" && CommunityEdges.Plain(ids[a])
    ensures var sorted := SortGroups(groups, less);
      forall i :: 0 <= i < |sorted| ==> sorted[i].cid in ids && ids[sorted[i].cid] == AssignIds(sorted, hash)[i]
  {
    hide HashText, CommunityEdges.Plain, AssignIds, SortGroups;
    var sorted := SortGroups(groups, less);
    SortGroupsKeeps(groups, less);
    SameElements(groups, sorted);
    CidsKept(groups, sorted);
    ghost var inOrder;
    ids, inOrder := AssignStableIds(sorted, hash);
    IdsDistinct(sorted, hash);
    IdsPlain(sorted, hash);
    IdsInjective(sorted, ids, inOrder);
  }

  lemma IdsInjective(groups: seq<Group>, ids: map<nat, string>, inOrder: seq<string>)
    requires |inOrder| == |groups| && Distinct(inOrder)
    requires forall cid :: cid in ids ==> exists g :: g in groups && g.cid == cid
    requires forall i :: 0 <= i < |groups| ==> groups[i].cid in ids && ids[groups[i].cid] == inOrder[i]
    ensures forall a :: a in ids ==> ids[a] in inOrder
    ensures forall a, b :: a in ids && b in ids && a != b ==> ids[a] != ids[b]
  {
    forall a, b | a in ids && b in ids && a != b ensures ids[a] in inOrder && ids[a] != ids[b] {
      var i :| 0 <= i < |groups| && groups[i].cid == a;
      var j :| 0 <= j < |groups| && groups[j].cid == b;
      assert inOrder[i] != inOrder[j];
    }
    forall a | a in ids ensures ids[a] in inOrder {
      var i :| 0 <= i < |groups| && groups[i].cid == a;
      assert ids[a] == inOrder[i];
    }
  }

  lemma CidsKept(a: seq<Group>, b: seq<Group>)
    requires multiset(a) == multiset(b) && DistinctCids(a)
    ensures DistinctCids(b)
  {
    assert Distinct(a);
    SameElements(a, b);
    forall i, j | 0 <= i < j < |b| ensures b[i].cid != b[j].cid {
      assert b[i] in multiset(a) && b[j] in multiset(a);
    }
  }
}
