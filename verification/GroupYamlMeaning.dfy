/** What a group declaration says, by its sections and items and without the parser's state. */
module GroupYamlMeaning {
  import opened Options
  import opened Strings
  import opened GroupYaml

  // ---- Lines ---------------------------------------------------------------------------------

  /** What a line is: a key at the margin, an item of a list with the key on it, a key further
      in, or nothing. */
  datatype Line = Nothing | Key(key: string, value: string) | Item(first: Option<Kv>) | More(kv: Kv)

  function ReadLine(raw: string): Line
  {
    var l := StripFrom(raw, false, false);
    var t := Trim(l);
    if t == "" then Nothing
    else if l != "" && !IsSpace(l[0]) then
      match ParseKv(l)
      case None => Nothing
      case Some(kv) => Key(kv.key, kv.value)
    else if t[0] == '-' then
      Item(if Trim(t[1..]) == "" then None else ParseKv(Trim(t[1..])))
    else
      match ParseKv(t)
      case None => Nothing
      case Some(kv) => More(kv)
  }

  function ReadLines(lines: seq<string>): (r: seq<Line>)
    ensures |r| == |lines|
  {
    if lines == [] then [] else [ReadLine(lines[0])] + ReadLines(lines[1..])
  }

  // ---- Sections, items and fields --------------------------------------------------------------

  /** The lines before the next key at the margin. */
  function Body(ls: seq<Line>): seq<Line>
  {
    if ls == [] || ls[0].Key? then [] else [ls[0]] + Body(ls[1..])
  }

  /** The keys further in before the next item. */
  function Fields(ls: seq<Line>): seq<Kv>
  {
    if ls == [] || ls[0].Item? then []
    else (if ls[0].More? then [ls[0].kv] else []) + Fields(ls[1..])
  }

  /** The value a key has last. */
  function Last(kvs: seq<Kv>, key: string): Option<string>
  {
    if kvs == [] then None
    else if kvs[|kvs| - 1].key == key then Some(kvs[|kvs| - 1].value)
    else Last(kvs[..|kvs| - 1], key)
  }

  function Made(kvs: seq<Kv>): Member
  {
    var name := Last(kvs, "name");
    Member(if name.Some? then name.value else "", Last(kvs, "remote"), Last(kvs, "path"))
  }

  /** A member under its name, else its remote, else the base name of its path; a member that
      has none is no member. */
  function Named(m: Member): seq<Member>
  {
    if m.name != "" then [m]
    else if m.remote.Some? then if m.remote.value == "" then [] else [m.(name := m.remote.value)]
    else if m.path.Some? && Basename(m.path.value) != "" then [m.(name := Basename(m.path.value))]
    else []
  }

  function FirstOf(kv: Option<Kv>): seq<Kv>
  {
    if kv.Some? then [kv.value] else []
  }

  /** The members that the items of a section make. */
  function Items(body: seq<Line>): seq<Member>
  {
    if body == [] then []
    else (if body[0].Item? then Named(Made(FirstOf(body[0].first) + Fields(body[1..]))) else []) + Items(body[1..])
  }

  /** The members of all `members` sections. */
  function Members(ls: seq<Line>): seq<Member>
  {
    if ls == [] then []
    else (if ls[0].Key? && ls[0].key == "members" then Items(Body(ls[1..])) else []) + Members(ls[1..])
  }

  /** The last name given at the margin. */
  function NameIn(ls: seq<Line>): Option<string>
  {
    if ls == [] then None
    else if NameIn(ls[1..]).Some? then NameIn(ls[1..])
    else if ls[0].Key? && ls[0].key == "name" then Some(ls[0].value)
    else None
  }

  /** The declaration: its name and its members, unless it has neither. */
  function Declared(ls: seq<Line>): Option<Decl>
  {
    var name := if NameIn(ls).Some? then NameIn(ls).value else "";
    if name == "" && Members(ls) == [] then None else Some(Decl(name, Members(ls)))
  }

  // ---- The parser computes it --------------------------------------------------------------------

  function AssignAll(m: Member, kvs: seq<Kv>): Member
    decreases |kvs|
  {
    if kvs == [] then m else AssignAll(AssignMemberKey(m, kvs[0].key, kvs[0].value), kvs[1..])
  }

  lemma {:induction false} LastOfAppend(kv: Kv, kvs: seq<Kv>, key: string)
    ensures Last([kv] + kvs, key) ==
            if Last(kvs, key).Some? then Last(kvs, key) else if kv.key == key then Some(kv.value) else None
  {
    var all := [kv] + kvs;
    if kvs == [] {
      assert all[..0] == [];
    } else {
      assert all[..|all| - 1] == [kv] + kvs[..|kvs| - 1];
      LastOfAppend(kv, kvs[..|kvs| - 1], key);
    }
  }

  /** Assigning fields one after the other leaves each key its last value. */
  lemma {:induction false} AssignedLast(m: Member, kvs: seq<Kv>)
    ensures AssignAll(m, kvs) == Member(
      if Last(kvs, "name").Some? then Last(kvs, "name").value else m.name,
      if Last(kvs, "remote").Some? then Last(kvs, "remote") else m.remote,
      if Last(kvs, "path").Some? then Last(kvs, "path") else m.path)
    decreases |kvs|
  {
    if kvs != [] {
      var m' := AssignMemberKey(m, kvs[0].key, kvs[0].value);
      AssignedLast(m', kvs[1..]);
      assert kvs == [kvs[0]] + kvs[1..];
      KeysDiffer();
      LastOfAppend(kvs[0], kvs[1..], "name");
      LastOfAppend(kvs[0], kvs[1..], "remote");
      LastOfAppend(kvs[0], kvs[1..], "path");
      hide Last, AssignAll;
    }
  }

  lemma KeysDiffer()
    ensures "name" != "remote" && "name" != "path" && "remote" != "path"
  {
    assert |"name"| == 4 && |"path"| == 4 && |"remote"| == 6 && "name"[0] != "path"[0];
  }

  lemma NamedIsSettled(m: Member)
    ensures Settled(m) == Named(m)
  {
    hide Basename;
    SettledName(m);
    EmptyBase();
  }

  lemma EmptyBase()
    ensures Basename("") == ""
  {
  }

  /** What one line does to the parser, by what the line is. */
  lemma StepByLine(st: State, raw: string)
    ensures Step(st, raw) ==
            match ReadLine(raw)
            case Nothing => st
            case Key(key, value) =>
              if key == "name" then Flush(st).(name := Some(value), inMembers := false)
              else Flush(st).(inMembers := key == "members")
            case Item(first) =>
              if !st.inMembers then st
              else Flush(st).(current := Some(AssignAll(Member("", None, None), FirstOf(first))))
            case More(kv) =>
              if !st.inMembers || st.current.None? then st
              else st.(current := Some(AssignAll(st.current.value, [kv])))
  {
    hide Flush, StripFrom, Trim, ParseKv, Span, IsSpace;
    var l := StripFrom(raw, false, false);
    SpanFirst(l);
    NothingTrimmed();
    assert forall m, kv: Kv :: AssignAll(m, [kv]) == AssignMemberKey(m, kv.key, kv.value) by {
      forall m, kv: Kv ensures AssignAll(m, [kv]) == AssignMemberKey(m, kv.key, kv.value) {
        assert [kv][1..] == [];
      }
    }
    assert Flush(st).(current := None).inMembers == Flush(st).inMembers;
  }

  lemma NothingTrimmed()
    ensures Trim("") == ""
  {
  }

  lemma SpanFirst(l: string)
    ensures Span(l, IsSpace) == 0 <==> l == "" || !IsSpace(l[0])
  {
  }

  /** What the lines add to the members kept so far. */
  function Added(st: State, ls: seq<Line>): seq<Member>
  {
    (if st.current.None? then []
     else Named(AssignAll(st.current.value, if st.inMembers then Fields(Body(ls)) else []))) +
    ((if st.inMembers then Items(Body(ls)) else []) + Members(ls))
  }

  /** What the current member adds as it is. */
  function Pending(st: State): seq<Member>
  {
    if st.current.None? then [] else Named(st.current.value)
  }

  lemma FlushNames(st: State)
    ensures Flush(st) == st.(members := st.members + Pending(st), current := None)
  {
    hide Flush, Named;
    if st.current.Some? {
      FlushSettles(st);
      NamedIsSettled(st.current.value);
    } else {
      FlushNoCurrent(st);
      assert st.members + [] == st.members;
    }
  }

  lemma AssignMore(m: Member, kv: Kv, kvs: seq<Kv>)
    ensures AssignAll(m, [kv] + kvs) == AssignAll(AssignAll(m, [kv]), kvs) && AssignAll(m, []) == m
  {
    assert ([kv] + kvs)[1..] == kvs && [kv][1..] == [];
  }

  lemma {:induction false} AssignAppend(m: Member, a: seq<Kv>, b: seq<Kv>)
    ensures AssignAll(m, a + b) == AssignAll(AssignAll(m, a), b)
    decreases |a|
  {
    if a == [] {
      assert a + b == b;
    } else {
      assert (a + b)[1..] == a[1..] + b;
      AssignAppend(AssignMemberKey(m, a[0].key, a[0].value), a[1..], b);
    }
  }

  lemma MadeIsAssigned(kvs: seq<Kv>)
    ensures AssignAll(Member("", None, None), kvs) == Made(kvs)
  {
    AssignedLast(Member("", None, None), kvs);
  }

  /** One line more at the front. */
  lemma AddedStep(st: State, raw: string, rest: seq<Line>)
    ensures var first, st' := ReadLine(raw), Step(st, raw);
      && st.members + Added(st, [first] + rest) == st'.members + Added(st', rest)
      && st'.name == if first.Key? && first.key == "name" then Some(first.value) else st.name
  {
    StepByLine(st, raw);
    FlushNames(st);
    MembersNotName();
    hide Step, ReadLine, Flush, Pending, Added, AssignAll, FirstOf;
    var first, st' := ReadLine(raw), Step(st, raw);
    match first
    case Nothing => AddedAtNothing(st, first, rest);
    case Key(key, value) => AddedAtKey(st, st', first, rest);
    case Item(kv) => AddedAtItem(st, st', first, rest);
    case More(kv) => AddedAtMore(st, st', first, rest);
  }

  lemma AddedAtNothing(st: State, first: Line, rest: seq<Line>)
    requires first == Nothing
    ensures Added(st, [first] + rest) == Added(st, rest)
  {
    hide Named, Items, Fields, Members, Body, AssignAll;
    LineBody(first, rest);
    assert [] + Fields(Body(rest)) == Fields(Body(rest)) && [] + Items(Body(rest)) == Items(Body(rest));
  }

  lemma AddedAtMore(st: State, st': State, first: Line, rest: seq<Line>)
    requires first.More?
    requires st' == if !st.inMembers || st.current.None? then st
                    else st.(current := Some(AssignAll(st.current.value, [first.kv])))
    ensures st.members + Added(st, [first] + rest) == st'.members + Added(st', rest)
  {
    hide Named, Items, Fields, Members, Body, AssignAll;
    LineBody(first, rest);
    assert [] + Items(Body(rest)) == Items(Body(rest));
    if st.current.Some? { AssignMore(st.current.value, first.kv, Fields(Body(rest))); }
  }

  lemma MembersNotName()
    ensures "members" != "name"
  {
    assert |"members"| == 7 && |"name"| == 4;
  }

  lemma KeyBody(first: Line, rest: seq<Line>)
    requires first.Key?
    ensures Body([first] + rest) == [] && Fields([]) == [] && Items([]) == []
  {
  }

  lemma LineBody(first: Line, rest: seq<Line>)
    requires !first.Key?
    ensures Body([first] + rest) == [first] + Body(rest)
    ensures Fields([first] + Body(rest)) ==
            if first.Item? then [] else (if first.More? then [first.kv] else []) + Fields(Body(rest))
    ensures Items([first] + Body(rest)) ==
            (if first.Item? then Named(Made(FirstOf(first.first) + Fields(Body(rest)))) else []) + Items(Body(rest))
    ensures Members([first] + rest) == Members(rest)
  {
    assert ([first] + rest)[1..] == rest && ([first] + Body(rest))[1..] == Body(rest);
  }

  lemma AddedAtKey(st: State, st': State, first: Line, rest: seq<Line>)
    requires first.Key?
    requires st'.members == st.members + Pending(st) && st'.current == None && st'.inMembers == (first.key == "members")
    ensures st.members + Added(st, [first] + rest) == st'.members + Added(st', rest)
  {
    hide Named, Items, Fields, Body, AssignAll;
    var ls := [first] + rest;
    assert ls[0] == first && ls[1..] == rest;
    KeyBody(first, rest);
    var section := if first.key == "members" then Items(Body(rest)) else [];
    assert Members(ls) == section + Members(rest);
    hide Members;
    if st.current.Some? { AssignMore(st.current.value, Kv("", ""), []); }
    assert Added(st, ls) == Pending(st) + Members(ls) by { assert [] + Members(ls) == Members(ls); }
    assert Added(st', rest) == section + Members(rest) by {
      assert [] + (section + Members(rest)) == section + Members(rest);
    }
    assert st.members + (Pending(st) + (section + Members(rest))) ==
      st.members + Pending(st) + (section + Members(rest));
  }

  lemma AddedAtItem(st: State, st': State, first: Line, rest: seq<Line>)
    requires first.Item?
    requires st' == if !st.inMembers then st
                    else st.(members := st.members + Pending(st),
                             current := Some(AssignAll(Member("", None, None), FirstOf(first.first))))
    ensures st.members + Added(st, [first] + rest) == st'.members + Added(st', rest)
  {
    hide Named, Items, Fields, Made, Members, Body, AssignAll, FirstOf;
    LineBody(first, rest);
    if st.inMembers {
      AddedInSection(st, st', first, rest);
    }
  }

  lemma AddedInSection(st: State, st': State, first: Line, rest: seq<Line>)
    requires first.Item? && st.inMembers
    requires st' == st.(members := st.members + Pending(st),
                        current := Some(AssignAll(Member("", None, None), FirstOf(first.first))))
    ensures st.members + Added(st, [first] + rest) == st'.members + Added(st', rest)
  {
    hide Named, Items, Fields, Made, Members, Body, AssignAll, FirstOf;
    LineBody(first, rest);
    var kvs := FirstOf(first.first) + Fields(Body(rest));
    AssignAppend(Member("", None, None), FirstOf(first.first), Fields(Body(rest)));
    MadeIsAssigned(kvs);
    if st.current.Some? { AssignMore(st.current.value, Kv("", ""), []); }
    var p, mine, others, later := Pending(st), Named(Made(kvs)), Items(Body(rest)), Members(rest);
    assert Added(st, [first] + rest) == p + ((mine + others) + later);
    assert Added(st', rest) == mine + (others + later);
    hide Added, Pending;
    assert st.members + (p + ((mine + others) + later)) == st.members + p + (mine + (others + later));
  }

  lemma {:induction false} RunDeclares(lines: seq<string>, st: State)
    ensures var ls := ReadLines(lines);
      && Flush(Run(lines, st)).members == st.members + Added(st, ls)
      && Flush(Run(lines, st)).name == if NameIn(ls).Some? then NameIn(ls) else st.name
    decreases |lines|
  {
    hide Step, Flush, ReadLine, Added, Pending;
    if lines == [] {
      FlushNames(st);
      NothingAdded(st);
    } else {
      var rest := ReadLines(lines[1..]);
      AddedStep(st, lines[0], rest);
      RunDeclares(lines[1..], Step(st, lines[0]));
      NameStep(ReadLine(lines[0]), rest);
    }
  }

  lemma NothingAdded(st: State)
    ensures Added(st, []) == Pending(st)
  {
    hide Named;
  }

  lemma NameStep(first: Line, rest: seq<Line>)
    ensures NameIn([first] + rest) ==
            if NameIn(rest).Some? then NameIn(rest)
            else if first.Key? && first.key == "name" then Some(first.value) else None
  {
    assert ([first] + rest)[1..] == rest;
  }

  /** Every text is read as the declaration its sections and items make. */
  lemma ParseExactly(text: string)
    ensures Parse(text) == Declared(ReadLines(SplitLines(text)))
  {
    hide Flush, Run, SplitLines, Members, ReadLines, NameIn;
    var ls := ReadLines(SplitLines(text));
    RunDeclares(SplitLines(text), START);
    assert Added(START, ls) == Members(ls);
    assert [] + Members(ls) == Members(ls);
  }

  // ---- Lines that say nothing ----------------------------------------------------------------------

  /** A `key:` at the margin. */
  ghost predicate AtMargin(line: string, key: string)
  {
    && key != "" && Tight(key) && (forall c :: c in key ==> c != '\'' && c != '"' && c != '#' && c != ':')
    && exists v :: line == key + ":" + v
  }

  predicate Indented(line: string)
  {
    line != "" && IsSpace(line[0])
  }

  /** Empty, indented, or without a colon: no key at the margin. */
  predicate NoKey(line: string)
  {
    line == "" || Indented(line) || ':' !in line
  }

  lemma MarginIsKey(line: string, key: string)
    requires AtMargin(line, key)
    ensures ReadLine(line).Key? && ReadLine(line).key == key
  {
    var v :| line == key + ":" + v;
    hide StripFrom, ParseKv, Trim, Unquote;
    var x := StripFrom(v, false, false);
    forall c | c in key + ":" ensures c != '\'' && c != '"' && c != '#' {}
    StripPrefix(key + ":", v);
    assert StripFrom(line, false, false) == key + ":" + x;
    NotBlank(key + ":" + x, 0);
    KvOf(key, x);
    assert (key + ":" + x)[0] == key[0];
  }

  lemma NoKeyReads(line: string)
    requires NoKey(line)
    ensures !ReadLine(line).Key?
  {
    hide Trim, Unquote;
    if Indented(line) {
      assert StripFrom(line, false, false)[0] == line[0];
    } else if line != "" {
      var l := StripFrom(line, false, false);
      StripKeeps(line, false, false);
      hide StripFrom;
      IndexOfAbsent(l, ":");
      hide ParseKv, IndexOf;
      NoColonNoKv(l);
    }
  }

  lemma NoColonNoKv(l: string)
    requires ':' !in l
    ensures ParseKv(l) == None
  {
    IndexOfAbsent(l, ":");
  }

  lemma {:induction false} StripKeeps(s: string, inSingle: bool, inDouble: bool)
    ensures forall c :: c in StripFrom(s, inSingle, inDouble) ==> c in s
  {
    if s != "" {
      StripKeeps(s[1..], !inSingle, inDouble);
      StripKeeps(s[1..], inSingle, !inDouble);
      StripKeeps(s[1..], inSingle, inDouble);
    }
  }

  /** A carriage return at the end of a line does not show. */
  lemma ReadIgnoresCr(s: string)
    ensures ReadLine(s + "\r") == ReadLine(s)
  {
    hide StripFrom, Trim, ParseKv;
    StripCr(s, false, false);
    var x := StripFrom(s, false, false);
    TrimSpaceAfter(x, '\r');
    KvIgnoresCr(x);
    assert Trim("") == "" by { TrimTightOnly(""); }
    if x != "" { assert (x + "\r")[0] == x[0]; }
  }

  lemma {:induction false} ReadsIgnoreCrs(lines: seq<string>)
    ensures ReadLines(DropCrs(lines)) == ReadLines(lines)
  {
    hide ReadLine;
    if |lines| > 1 {
      var l := lines[0];
      if l != "" && l[|l| - 1] == '\r' {
        assert l == l[..|l| - 1] + "\r";
        ReadIgnoresCr(l[..|l| - 1]);
      }
      ReadsIgnoreCrs(lines[1..]);
    }
  }

  /** A text is read line by line. */
  lemma ParseLines(lines: seq<string>)
    requires lines != [] && forall l :: l in lines ==> '\n' !in l
    ensures Parse(Join(lines, "\n")) == Declared(ReadLines(lines))
  {
    hide Parse, Declared, ReadLines, Split, Join, DropCrs;
    ParseExactly(Join(lines, "\n"));
    SplitJoin(lines, "\n");
    ReadsIgnoreCrs(lines);
  }

  lemma {:induction false} ReadsAppend(a: seq<string>, b: seq<string>)
    ensures ReadLines(a + b) == ReadLines(a) + ReadLines(b)
  {
    hide ReadLine;
    if a == [] {
      assert a + b == b;
    } else {
      assert (a + b)[1..] == a[1..] + b;
      ReadsAppend(a[1..], b);
    }
  }

  lemma {:induction false} BodyStops(a: seq<Line>, k: Line, u: seq<Line>)
    requires k.Key?
    ensures Body(a + ([k] + u)) == Body(a + [k])
  {
    if a == [] {
      assert a + ([k] + u) == [k] + u && a + [k] == [k];
    } else {
      assert (a + ([k] + u))[1..] == a[1..] + ([k] + u) && (a + [k])[1..] == a[1..] + [k];
      BodyStops(a[1..], k, u);
    }
  }

  lemma {:induction false} MembersPass(m: seq<Line>, u: seq<Line>)
    requires forall l :: l in m ==> !l.Key?
    ensures Members(m + u) == Members(u)
  {
    if m == [] {
      assert m + u == u;
    } else {
      assert (m + u)[1..] == m[1..] + u && m[0] in m;
      assert forall l :: l in m[1..] ==> l in m;
      MembersPass(m[1..], u);
      hide Members;
      assert [] + Members(u) == Members(u);
    }
  }

  /** After a key that is not `members`, lines without a key may stand or not. */
  lemma {:induction false} MembersSame(a: seq<Line>, k: Line, m: seq<Line>, m': seq<Line>, c: seq<Line>)
    requires k.Key? && k.key != "members" && (forall l :: l in m ==> !l.Key?) && (forall l :: l in m' ==> !l.Key?)
    ensures Members(a + ([k] + (m + c))) == Members(a + ([k] + (m' + c)))
  {
    var x, y := a + ([k] + (m + c)), a + ([k] + (m' + c));
    if a == [] {
      assert x == [k] + (m + c) && y == [k] + (m' + c) && x[1..] == m + c && y[1..] == m' + c;
      MembersPass(m, c);
      MembersPass(m', c);
    } else {
      assert x[1..] == a[1..] + ([k] + (m + c)) && y[1..] == a[1..] + ([k] + (m' + c)) && x[0] == y[0];
      BodyStops(a[1..], k, m + c);
      BodyStops(a[1..], k, m' + c);
      MembersSame(a[1..], k, m, m', c);
    }
  }

  lemma {:induction false} NamesSame(a: seq<Line>, m: seq<Line>, m': seq<Line>, c: seq<Line>)
    requires (forall l :: l in m ==> !l.Key?) && (forall l :: l in m' ==> !l.Key?)
    ensures NameIn(a + (m + c)) == NameIn(a + (m' + c))
  {
    if a == [] {
      assert a + (m + c) == m + c && a + (m' + c) == m' + c;
      NamePass(m, c);
      NamePass(m', c);
    } else {
      assert (a + (m + c))[1..] == a[1..] + (m + c) && (a + (m' + c))[1..] == a[1..] + (m' + c);
      NamesSame(a[1..], m, m', c);
    }
  }

  lemma {:induction false} NamePass(m: seq<Line>, u: seq<Line>)
    requires forall l :: l in m ==> !l.Key?
    ensures NameIn(m + u) == NameIn(u)
  {
    if m == [] {
      assert m + u == u;
    } else {
      assert (m + u)[1..] == m[1..] + u && m[0] in m;
      assert forall l :: l in m[1..] ==> l in m;
      NamePass(m[1..], u);
    }
  }

  lemma {:induction false} NoKeysRead(m: seq<string>)
    requires forall l :: l in m ==> NoKey(l)
    ensures forall l :: l in ReadLines(m) ==> !l.Key?
  {
    hide ReadLine, NoKey;
    if m != [] {
      assert m[0] in m;
      NoKeyReads(m[0]);
      NoKeysRead(m[1..]);
    }
  }

  /** Under any other key at the margin than `members`, indented lines may stand or not: the
      list of members is over. */
  lemma ForeignIgnored(
    a: seq<string>, k: string, key: string, m: seq<string>, m': seq<string>, c: seq<string>)
    requires forall l :: l in a + ([k] + (m + c)) || l in m' ==> '\n' !in l
    requires AtMargin(k, key) && key != "members"
    requires (forall l :: l in m ==> NoKey(l)) && (forall l :: l in m' ==> NoKey(l))
    ensures Parse(Join(a + ([k] + (m + c)), "\n")) == Parse(Join(a + ([k] + (m' + c)), "\n"))
  {
    MarginIsKey(k, key);
    OneLineEach(a, k, m, m', c);
    NoKeysRead(m);
    NoKeysRead(m');
    hide *;
    ParseLines(a + ([k] + (m + c)));
    ParseLines(a + ([k] + (m' + c)));
    ReadsSplit(a, k, m, c);
    ReadsSplit(a, k, m', c);
    DeclaredSame(ReadLines(a), ReadLine(k), ReadLines(m), ReadLines(m'), ReadLines(c));
  }

  lemma OneLineEach(a: seq<string>, k: string, m: seq<string>, m': seq<string>, c: seq<string>)
    requires forall l :: l in a + ([k] + (m + c)) || l in m' ==> '\n' !in l
    ensures forall l :: l in a + ([k] + (m' + c)) ==> '\n' !in l
  {
    forall l | l in a + ([k] + (m' + c)) ensures '\n' !in l {
      assert l in a || l == k || l in m' || l in c;
      assert l in c ==> l in a + ([k] + (m + c));
    }
  }

  lemma DeclaredSame(a: seq<Line>, k: Line, m: seq<Line>, m': seq<Line>, c: seq<Line>)
    requires k.Key? && k.key != "members" && (forall l :: l in m ==> !l.Key?) && (forall l :: l in m' ==> !l.Key?)
    ensures Declared(a + ([k] + (m + c))) == Declared(a + ([k] + (m' + c)))
  {
    hide Members, NameIn;
    MembersSame(a, k, m, m', c);
    assert a + ([k] + (m + c)) == (a + [k]) + (m + c) && a + ([k] + (m' + c)) == (a + [k]) + (m' + c);
    NamesSame(a + [k], m, m', c);
  }

  lemma ReadsSplit(a: seq<string>, k: string, m: seq<string>, c: seq<string>)
    ensures ReadLines(a + ([k] + (m + c))) == ReadLines(a) + ([ReadLine(k)] + (ReadLines(m) + ReadLines(c)))
  {
    ReadsAppend(a, [k] + (m + c));
    ReadsAppend(m, c);
    assert ([k] + (m + c))[1..] == m + c;
    hide ReadLine;
  }

  /** So it is before the first key. */
  lemma ForeignAtStart(m: seq<string>, m': seq<string>, c: seq<string>)
    requires m + c != [] && m' + c != [] && forall l :: l in m + c || l in m' ==> '\n' !in l
    requires (forall l :: l in m ==> NoKey(l)) && (forall l :: l in m' ==> NoKey(l))
    ensures Parse(Join(m + c, "\n")) == Parse(Join(m' + c, "\n"))
  {
    forall l | l in m' + c ensures '\n' !in l { assert l in m' || l in c; assert l in c ==> l in m + c; }
    hide Parse, Join, Members, NameIn, ReadLine, NoKey;
    ParseLines(m + c);
    ParseLines(m' + c);
    NoKeysRead(m);
    NoKeysRead(m');
    ReadsAppend(m, c);
    ReadsAppend(m', c);
    MembersPass(ReadLines(m), ReadLines(c));
    MembersPass(ReadLines(m'), ReadLines(c));
    NamePass(ReadLines(m), ReadLines(c));
    NamePass(ReadLines(m'), ReadLines(c));
  }

  // ---- Comments, keys and values, by their text ----------------------------------------------------

  /** A comment starts at the first sign outside quotes. */
  lemma CommentCut(p: string, comment: string)
    requires forall c :: c in p ==> c != '\'' && c != '"' && c != '#'
    ensures StripFrom(p + ("#" + comment), false, false) == p
  {
    StripPrefix(p, "#" + comment);
    assert p + "" == p;
  }

  /** A quoted stretch is kept whatever it holds; an open quote keeps the rest of the line. */
  lemma QuotesKept(q: char, body: string, rest: string)
    requires (q == '"' || q == '\'') && q !in body
    ensures StripFrom([q] + (body + ([q] + rest)), false, false) == [q] + (body + ([q] + StripFrom(rest, false, false)))
    ensures StripFrom([q] + body, false, false) == [q] + body
  {
    var t, u := [q] + (body + ([q] + rest)), [q] + body;
    assert t[1..] == body + ([q] + rest) && u[1..] == body && ([q] + rest)[1..] == rest && body + "" == body;
    if q == '"' {
      StripInDouble(body, [q] + rest);
      StripInDouble(body, "");
    } else {
      StripInSingle(body, [q] + rest);
      StripInSingle(body, "");
    }
  }

  predicate AllSpace(s: string)
  {
    forall c :: c in s ==> IsSpace(c)
  }

  lemma {:induction false} TrimBoth(a: string, s: string, b: string)
    requires AllSpace(a) && AllSpace(b) && Tight(s)
    ensures Trim(a + s + b) == s
  {
    hide Trim, IsSpace, Tight;
    if b == "" {
      TrimPadded(a, s);
      assert a + s + b == a + s;
    } else {
      var n := |b| - 1;
      assert b[n] in b && forall c :: c in b[..n] ==> c in b;
      TrimBoth(a, s, b[..n]);
      TrimSpaceAfter(a + s + b[..n], b[n]);
      assert a + s + b == a + s + b[..n] + [b[n]];
    }
  }

  /** A key and its value, with white space around them, the value bare or in quotes of one kind. */
  lemma KeyAndValue(a: string, key: string, b: string, c: string, value: string, d: string, q: char)
    requires AllSpace(a) && AllSpace(b) && AllSpace(c) && AllSpace(d)
    requires key != "" && Tight(key) && ':' !in key
    ensures Tight(value) && !Wrapped(value) ==> ParseKv((a + key + b) + ":" + (c + value + d)) == Some(Kv(key, value))
    ensures q == '"' || q == '\'' ==>
      ParseKv((a + key + b) + ":" + (c + ([q] + value + [q]) + d)) == Some(Kv(key, value))
  {
    NoColonInSpace();
    var front := a + key + b;
    assert ':' !in front;
    TrimBoth(a, key, b);
    hide *;
    KvParts(front, key, c + value + d);
    KvParts(front, key, c + ([q] + value + [q]) + d);
    UnquoteBoth(c, value, d, q);
  }

  lemma KvParts(front: string, key: string, back: string)
    requires ':' !in front && Trim(front) == key && key != ""
    ensures ParseKv(front + ":" + back) == Some(Kv(key, Unquote(back)))
  {
    ColonFirst(front, back);
    hide Trim, IndexOf, Unquote;
  }

  lemma UnquoteBoth(c: string, value: string, d: string, q: char)
    requires AllSpace(c) && AllSpace(d)
    ensures Tight(value) && !Wrapped(value) ==> Unquote(c + value + d) == value
    ensures q == '"' || q == '\'' ==> Unquote(c + ([q] + value + [q]) + d) == value
  {
    hide Trim;
    if Tight(value) { TrimBoth(c, value, d); }
    if q == '"' || q == '\'' {
      QuotesTight(q, value);
      TrimBoth(c, [q] + value + [q], d);
      assert ([q] + value + [q])[1..|value| + 1] == value;
    }
  }

  lemma NoColonInSpace()
    ensures forall s :: AllSpace(s) ==> ':' !in s
  {
    assert !IsSpace(':');
  }

  lemma QuotesTight(q: char, value: string)
    requires q == '"' || q == '\''
    ensures Tight([q] + value + [q]) && Wrapped([q] + value + [q])
  {
  }

  lemma ColonFirst(front: string, back: string)
    requires ':' !in front
    ensures IndexOf(front + ":" + back, ":") == |front|
    ensures (front + ":" + back)[..|front|] == front && (front + ":" + back)[|front| + 1..] == back
  {
    IndexOfAfter(front, back, ":");
  }

  /** A line without a colon, or with nothing before it, has no key. */
  lemma NoKeyAndValue(a: string, rest: string)
    requires AllSpace(a)
    ensures ParseKv(a + ":" + rest) == None
    ensures ':' !in rest ==> ParseKv(rest) == None
  {
    NoColonInSpace();
    ColonFirst(a, rest);
    hide Trim, IndexOf;
    TrimBoth(a, "", "");
    assert a + "" + "" == a;
    if ':' !in rest { NoColonNoKv(rest); }
  }

  /** The base name is the last name of the path, slashes at the end aside. */
  lemma BasenameIs(dir: string, name: string, slashes: string)
    requires name != "" && '/' !in name && forall c :: c in slashes ==> c == '/'
    ensures Basename(name + slashes) == name && Basename(dir + "/" + name + slashes) == name
  {
    var p := dir + "/" + name;
    assert name[|name| - 1] in name && p[|p| - 1] == name[|name| - 1];
    hide Basename, LastSegment;
    SlashesOff(name, slashes);
    SlashesOff(p, slashes);
    SegmentIs("", name);
    SegmentIs(dir + "/", name);
    assert "" + name == name;
  }

  lemma {:induction false} SlashesOff(p: string, slashes: string)
    requires p != "" && p[|p| - 1] != '/' && forall c :: c in slashes ==> c == '/'
    ensures Basename(p + slashes) == LastSegment(p)
  {
    var x := p + slashes;
    if slashes == "" {
      assert x == p;
    } else {
      var n := |slashes| - 1;
      assert slashes[n] in slashes && forall c :: c in slashes[..n] ==> c in slashes;
      SlashesOff(p, slashes[..n]);
      assert x[..|x| - 1] == p + slashes[..n] && x[|x| - 1] == slashes[n];
    }
  }

  lemma {:induction false} SegmentIs(front: string, name: string)
    requires '/' !in name && (front == "" || front[|front| - 1] == '/')
    ensures LastSegment(front + name) == name
  {
    if name == "" {
      assert front + name == front;
    } else {
      var n := |name| - 1;
      assert name[n] in name && (front + name)[..|front + name| - 1] == front + name[..n];
      SegmentIs(front, name[..n]);
    }
  }
}
