/** The in-repository group declaration: its printer, its parser and their round trip. */
module GroupYaml {
  import opened Options
  import opened Strings

  datatype Member = Member(name: string, remote: Option<string>, path: Option<string>)

  datatype Decl = Decl(name: string, members: seq<Member>)

  // ---- Reading one line --------------------------------------------------------------

  /** What precedes an unquoted `#`; the flags say which quotes are open. */
  function StripFrom(s: string, inSingle: bool, inDouble: bool): string
  {
    if s == "" then ""
    else if s[0] == '\'' && !inDouble then [s[0]] + StripFrom(s[1..], !inSingle, inDouble)
    else if s[0] == '"' && !inSingle then [s[0]] + StripFrom(s[1..], inSingle, !inDouble)
    else if s[0] == '#' && !inSingle && !inDouble then ""
    else [s[0]] + StripFrom(s[1..], inSingle, inDouble)
  }

  lemma StripEnds()
    ensures forall a, b :: StripFrom("", a, b) == ""
  {
  }

  lemma StripStep(line: string, i: nat, inSingle: bool, inDouble: bool)
    requires i < |line|
    ensures var c, rest := line[i], line[i + 1..];
      StripFrom(line[i..], inSingle, inDouble) ==
      if c == '\'' && !inDouble then [c] + StripFrom(rest, !inSingle, inDouble)
      else if c == '"' && !inSingle then [c] + StripFrom(rest, inSingle, !inDouble)
      else if c == '#' && !inSingle && !inDouble then ""
      else [c] + StripFrom(rest, inSingle, inDouble)
  {
    assert line[i..][1..] == line[i + 1..];
  }

  /** `stripComment`. */
  method StripComment(line: string) returns (r: string)
    ensures r == StripFrom(line, false, false)
  {
    hide StripFrom;
    var inSingle, inDouble := false, false;
    assert line[0..] == line;
    StripEnds();
    for i := 0 to |line|
      invariant StripFrom(line, false, false) == line[..i] + StripFrom(line[i..], inSingle, inDouble)
    {
      var c := line[i];
      assert line[..i + 1] == line[..i] + [c];
      StripStep(line, i, inSingle, inDouble);
      assert line[..i] + ([c] + StripFrom(line[i + 1..], inSingle, inDouble)) ==
        line[..i + 1] + StripFrom(line[i + 1..], inSingle, inDouble);
      if c == '\'' && !inDouble {
        inSingle := !inSingle;
      } else if c == '"' && !inSingle {
        inDouble := !inDouble;
      } else if c == '#' && !inSingle && !inDouble {
        return line[..i];
      }
    }
    assert line[|line|..] == "" && line[..|line|] + "" == line;
    return line;
  }

  predicate Wrapped(t: string)
  {
    |t| >= 2 && ((t[0] == '"' && t[|t| - 1] == '"') || (t[0] == '\'' && t[|t| - 1] == '\''))
  }

  function Unquote(v: string): string
  {
    var t := Trim(v);
    if Wrapped(t) then t[1..|t| - 1] else t
  }

  datatype Kv = Kv(key: string, value: string)

  function ParseKv(line: string): Option<Kv>
  {
    var i := IndexOf(line, ":");
    if i < 0 then None
    else
      var key := Trim(line[..i]);
      if key == "" then None else Some(Kv(key, Unquote(line[i + 1..])))
  }

  // ---- The parser ---------------------------------------------------------------------

  datatype State = State(name: Option<string>, members: seq<Member>, inMembers: bool, current: Option<Member>)

  /** The last segment of a path, trailing slashes aside. */
  function Basename(path: string): string
  {
    if path != "" && path[|path| - 1] == '/' then Basename(path[..|path| - 1])
    else LastSegment(path)
  }

  function LastSegment(path: string): string
  {
    if path == "" || path[|path| - 1] == '/' then ""
    else LastSegment(path[..|path| - 1]) + [path[|path| - 1]]
  }

  predicate Given(o: Option<string>)
  {
    o.Some? && o.value != ""
  }

  /** Ends the current member: keeps it, names it after its remote or path, or drops it. */
  function Flush(st: State): State
  {
    var done := st.(current := None);
    if st.current.None? then done
    else
      var m := st.current.value;
      if m.name != "" then done.(members := st.members + [m])
      else if Given(m.remote) || Given(m.path) then
        var name := if m.remote.Some? then m.remote.value else if Given(m.path) then Basename(m.path.value) else "";
        if name != "" then done.(members := st.members + [m.(name := name)]) else done
      else done
  }

  function AssignMemberKey(m: Member, key: string, value: string): Member
  {
    if key == "name" then m.(name := value)
    else if key == "remote" then m.(remote := Some(value))
    else if key == "path" then m.(path := Some(value))
    else m
  }

  function AssignKv(m: Member, kv: Option<Kv>): Member
  {
    if kv.Some? then AssignMemberKey(m, kv.value.key, kv.value.value) else m
  }

  function TopLevel(st: State, kv: Option<Kv>): State
  {
    if kv.None? then st
    else if kv.value.key == "name" then Flush(st).(name := Some(kv.value.value), inMembers := false)
    else if kv.value.key == "members" then Flush(st).(inMembers := true)
    else Flush(st).(inMembers := false)
  }

  function InMember(st: State, trimmed: string): State
    requires trimmed != ""
  {
    if trimmed[0] == '-' then
      var after := Trim(trimmed[1..]);
      var blank := Member("", None, None);
      Flush(st).(current := Some(if after != "" then AssignKv(blank, ParseKv(after)) else blank))
    else if st.current.Some? then st.(current := Some(AssignKv(st.current.value, ParseKv(trimmed))))
    else st
  }

  /** What one line does to the parser. */
  function Step(st: State, rawLine: string): State
  {
    var line := StripFrom(rawLine, false, false);
    if Trim(line) == "" then st
    else if Span(line, IsSpace) == 0 then TopLevel(st, ParseKv(line))
    else if !st.inMembers then st
    else InMember(st, Trim(line))
  }

  function Run(lines: seq<string>, st: State): State
    decreases |lines|
  {
    if lines == [] then st else Run(lines[1..], Step(st, lines[0]))
  }

  const START := State(None, [], false, None)

  function Finish(st: State): Option<Decl>
  {
    var end := Flush(st);
    if !Given(end.name) && end.members == [] then None
    else Some(Decl(if end.name.Some? then end.name.value else "", end.members))
  }

  function DropCr(s: string): string
  {
    if s != "" && s[|s| - 1] == '\r' then s[..|s| - 1] else s
  }

  /** Every line but the last loses the carriage return before its newline. */
  function DropCrs(lines: seq<string>): (r: seq<string>)
    ensures |r| == |lines|
  {
    if |lines| <= 1 then lines else [DropCr(lines[0])] + DropCrs(lines[1..])
  }

  function SplitLines(text: string): seq<string>
  {
    DropCrs(Split(text, "\n"))
  }

  function Parse(text: string): Option<Decl>
  {
    Finish(Run(SplitLines(text), START))
  }

  /** `parseGroupYaml`. */
  method ParseGroupYaml(text: string) returns (r: Option<Decl>)
    ensures r == Parse(text)
  {
    var lines := SplitLines(text);
    var name: Option<string> := None;
    var members: seq<Member> := [];
    var inMembers := false;
    var current: Option<Member> := None;
    hide Flush, ParseKv, Trim, Span, Split, DropCrs, StripFrom;
    for i := 0 to |lines|
      invariant Run(lines[i..], State(name, members, inMembers, current)) == Run(lines, START)
    {
      assert lines[i..][0] == lines[i] && lines[i..][1..] == lines[i + 1..];
      var line := StripComment(lines[i]);
      var st := State(name, members, inMembers, current);
      if Trim(line) == "" {
        continue;
      }
      if Span(line, IsSpace) == 0 {
        var kv := ParseKv(line);
        if kv.None? {
          continue;
        }
        var done := Flush(st);
        members, current := done.members, done.current;
        FlushKeeps(st);
        if kv.value.key == "name" {
          name := Some(kv.value.value);
          inMembers := false;
        } else if kv.value.key == "members" {
          inMembers := true;
        } else {
          inMembers := false;
        }
        continue;
      }
      if !inMembers {
        continue;
      }
      var trimmed := Trim(line);
      if trimmed[0] == '-' {
        var done := Flush(st);
        FlushKeeps(st);
        members := done.members;
        var blank := Member("", None, None);
        var after := Trim(trimmed[1..]);
        if after != "" {
          blank := AssignKv(blank, ParseKv(after));
        }
        current := Some(blank);
        continue;
      }
      if current.Some? {
        current := Some(AssignKv(current.value, ParseKv(trimmed)));
      }
    }
    assert lines[|lines|..] == [];
    return Finish(State(name, members, inMembers, current));
  }

  lemma FlushKeeps(st: State)
    ensures Flush(st).name == st.name && Flush(st).inMembers == st.inMembers && Flush(st).current == None
  {
  }

  // ---- The printer -----------------------------------------------------------------------

  /** The value would not be read back as it stands. */
  predicate NeedsQuote(v: string)
  {
    ':' in v || '#' in v ||
    (v != "" && (IsSpace(v[0]) || IsSpace(v[|v| - 1]) || v[0] == '"' || v[0] == '\''))
  }

  function YamlScalar(v: string): string
  {
    if !NeedsQuote(v) then v
    else if '"' !in v then "\"" + v + "\""
    else if '\'' !in v then "'" + v + "'"
    else v
  }

  /** A value is written as it is exactly when it has no colon and no hash sign, starts with no
      quote and has white space at neither end, or when it holds quotes of both kinds; any other
      is put between quotes it does not hold. */
  lemma ScalarExactly(v: string)
    ensures YamlScalar(v) == v <==>
            || ('"' in v && '\'' in v)
            || (':' !in v && '#' !in v && Tight(v) && !("\"" <= v) && !("'" <= v))
    ensures YamlScalar(v) != v ==>
              (YamlScalar(v) == "\"" + v + "\"" && '"' !in v) || (YamlScalar(v) == "'" + v + "'" && '\'' !in v)
  {
    assert |"\"" + v + "\""| != |v| && |"'" + v + "'"| != |v|;
    if v != "" { assert v[0] in v && v[|v| - 1] in v; }
  }

  function MemberLines(m: Member): seq<string>
  {
    ["  - name: " + YamlScalar(m.name)] +
    (if Given(m.remote) then ["    remote: " + YamlScalar(m.remote.value)] else []) +
    (if Given(m.path) then ["    path: " + YamlScalar(m.path.value)] else [])
  }

  function AllMemberLines(ms: seq<Member>): seq<string>
  {
    if ms == [] then [] else MemberLines(ms[0]) + AllMemberLines(ms[1..])
  }

  function DeclLines(d: Decl): seq<string>
  {
    ["name: " + YamlScalar(d.name), "members:"] + AllMemberLines(d.members)
  }

  /** `serializeGroupYaml`. */
  function SerializeGroupYaml(d: Decl): string
  {
    Join(DeclLines(d), "\n") + "\n"
  }

  // ---- Scalars --------------------------------------------------------------------------------

  /** What the parser makes of a printed scalar. */
  function ReadBack(v: string): string
  {
    Unquote(StripFrom(YamlScalar(v), false, false))
  }

  /** The value survives unquoted: no comment in it, no blanks at its ends, and not
      wrapped in quotes. */
  predicate BareSafe(v: string)
  {
    StripFrom(v, false, false) == v && Tight(v) && !Wrapped(v)
  }

  /** The values the format can carry: all but those that hold both quote characters
      and do not survive unquoted. */
  predicate Safe(v: string)
  {
    '"' !in v || '\'' !in v || BareSafe(v)
  }

  lemma {:induction false} StripSafe(s: string, inSingle: bool, inDouble: bool)
    requires '#' !in s
    ensures StripFrom(s, inSingle, inDouble) == s
  {
    if s != "" {
      assert s[0] in s && s == [s[0]] + s[1..];
      StripSafe(s[1..], !inSingle, inDouble);
      StripSafe(s[1..], inSingle, !inDouble);
      StripSafe(s[1..], inSingle, inDouble);
    }
  }

  /** Inside double quotes only the double quote ends the protection. */
  lemma {:induction false} StripInDouble(v: string, rest: string)
    requires '"' !in v
    ensures StripFrom(v + rest, false, true) == v + StripFrom(rest, false, true)
  {
    if v == "" {
      assert v + rest == rest;
    } else {
      assert v[0] in v && (v + rest)[1..] == v[1..] + rest;
      StripInDouble(v[1..], rest);
      assert v == [v[0]] + v[1..];
    }
  }

  lemma {:induction false} StripInSingle(v: string, rest: string)
    requires '\'' !in v
    ensures StripFrom(v + rest, true, false) == v + StripFrom(rest, true, false)
  {
    if v == "" {
      assert v + rest == rest;
    } else {
      assert v[0] in v && (v + rest)[1..] == v[1..] + rest;
      StripInSingle(v[1..], rest);
      assert v == [v[0]] + v[1..];
    }
  }

  lemma QuotedKept(v: string, q: char)
    requires (q == '"' || q == '\'') && q !in v
    ensures StripFrom([q] + v + [q], false, false) == [q] + v + [q]
    ensures Tight([q] + v + [q]) && Unquote([q] + v + [q]) == v
  {
    hide Trim;
    var t := [q] + v + [q];
    StripQuoted(v, q);
    hide StripFrom;
    assert t[0] == q && t[|t| - 1] == q;
    TrimTightOnly(t);
    assert t[1..|t| - 1] == v;
  }

  lemma StripQuoted(v: string, q: char)
    requires (q == '"' || q == '\'') && q !in v
    ensures StripFrom([q] + v + [q], false, false) == [q] + v + [q]
  {
    var t := [q] + v + [q];
    assert t == [q] + (v + [q]) && t[1..] == v + [q];
    assert [q][1..] == "";
    if q == '"' { StripInDouble(v, [q]); } else { StripInSingle(v, [q]); }
  }

  lemma TrimTightOnly(v: string)
    ensures Tight(v) ==> Trim(v) == v
    ensures Trim(v) == v ==> Tight(v)
  {
    if Tight(v) {
      TrimPadded("", v);
      assert "" + v == v;
    }
    TrimTight(v);
  }

  lemma BareReadsBack(v: string)
    requires BareSafe(v)
    ensures Unquote(StripFrom(v, false, false)) == v
  {
    TrimTightOnly(v);
  }

  lemma PlainIsBareSafe(v: string)
    requires !NeedsQuote(v)
    ensures BareSafe(v)
  {
    StripSafe(v, false, false);
  }

  /** A printed scalar is read back as it was exactly when the format can carry it. */
  lemma ScalarReadsBack(v: string)
    ensures ReadBack(v) == v <==> Safe(v)
  {
    if !NeedsQuote(v) {
      PlainIsBareSafe(v);
      BareReadsBack(v);
    } else if '"' !in v {
      QuotedKept(v, '"');
    } else if '\'' !in v {
      QuotedKept(v, '\'');
    } else if BareSafe(v) {
      BareReadsBack(v);
    } else {
      UnsafeChanges(v);
    }
  }

  lemma {:induction false} StripShorter(s: string, inSingle: bool, inDouble: bool)
    ensures |StripFrom(s, inSingle, inDouble)| <= |s|
    ensures |StripFrom(s, inSingle, inDouble)| == |s| ==> StripFrom(s, inSingle, inDouble) == s
  {
    if s != "" {
      StripShorter(s[1..], !inSingle, inDouble);
      StripShorter(s[1..], inSingle, !inDouble);
      StripShorter(s[1..], inSingle, inDouble);
      assert s == [s[0]] + s[1..];
    }
  }

  lemma UnsafeChanges(v: string)
    requires !BareSafe(v)
    ensures Unquote(StripFrom(v, false, false)) != v
  {
    hide StripFrom;
    var w := StripFrom(v, false, false);
    StripShorter(v, false, false);
    TrimEndTight(TrimStart(w));
    assert |Trim(w)| <= |w|;
    if w == v { TrimTightOnly(v); }
  }

  // ---- Trimming -----------------------------------------------------------------------------------

  /** White space at an end does not show in what is trimmed. */
  lemma {:induction false} TrimSpaceAfter(s: string, c: char)
    requires IsSpace(c)
    ensures Trim(s + [c]) == Trim(s)
  {
    var t := s + [c];
    var n := Span(s, IsSpace);
    if n < |s| {
      SpanStops(t, n, IsSpace) by { assert forall i :: 0 <= i < |s| ==> t[i] == s[i]; }
      assert t[n..] == s[n..] + [c];
      assert (s[n..] + [c])[..|s| - n] == s[n..];
    } else {
      forall x | x in t ensures IsSpace(x) {
        var i :| 0 <= i < |t| && t[i] == x;
        if i < |s| { assert t[i] == s[i]; }
      }
      SpanAll(t, IsSpace);
    }
  }

  lemma TrimSpaceBefore(s: string)
    ensures Trim(" " + s) == Trim(s)
  {
    var t := " " + s;
    assert t[1..] == s && Span(t, IsSpace) == 1 + Span(s, IsSpace);
    assert t[1 + Span(s, IsSpace)..] == s[Span(s, IsSpace)..];
  }

  lemma {:induction false} TrimOfTrimEnd(s: string)
    ensures Trim(TrimEnd(s)) == Trim(s) && TrimEnd(TrimEnd(s)) == TrimEnd(s)
  {
    hide Trim;
    if s != "" && IsSpace(s[|s| - 1]) {
      TrimOfTrimEnd(s[..|s| - 1]);
      assert s == s[..|s| - 1] + [s[|s| - 1]];
      TrimSpaceAfter(s[..|s| - 1], s[|s| - 1]);
    }
  }

  lemma {:induction false} TrimEndAppend(a: string, b: string)
    requires a != "" && !IsSpace(a[|a| - 1])
    ensures TrimEnd(a + b) == a + TrimEnd(b)
  {
    if b == "" {
      assert a + b == a;
    } else {
      assert (a + b)[..|a + b| - 1] == a + b[..|b| - 1];
      if IsSpace(b[|b| - 1]) { TrimEndAppend(a, b[..|b| - 1]); }
    }
  }

  /** Trimming text after a head that is not blank at either end. */
  lemma TrimAfter(pad: string, h: string, x: string)
    requires (forall c :: c in pad ==> IsSpace(c)) && h != "" && Tight(h)
    ensures Trim(pad + (h + x)) == h + TrimEnd(x)
  {
    var t := pad + (h + x);
    forall i | 0 <= i < |pad| ensures IsSpace(t[i]) { assert t[i] == pad[i]; }
    assert t[|pad|] == h[0];
    SpanStops(t, |pad|, IsSpace);
    assert t[|pad|..] == h + x;
    TrimEndAppend(h, x);
  }

  // ---- Lines ------------------------------------------------------------------------------------

  lemma {:induction false} StripPrefix(p: string, rest: string)
    requires forall c :: c in p ==> c != '\'' && c != '"' && c != '#'
    ensures StripFrom(p + rest, false, false) == p + StripFrom(rest, false, false)
  {
    if p == "" {
      assert p + rest == rest;
    } else {
      assert p[0] in p && (p + rest)[1..] == p[1..] + rest;
      assert forall c :: c in p[1..] ==> c in p;
      StripPrefix(p[1..], rest);
      assert p == [p[0]] + p[1..];
    }
  }

  /** `key:` and what follows is read as that key and the unquoted rest. */
  lemma KvOf(key: string, x: string)
    requires key != "" && Tight(key) && ':' !in key
    ensures ParseKv(key + ":" + x) == Some(Kv(key, Unquote(x)))
  {
    hide Trim;
    var line := key + ":" + x;
    IndexOfAfter(key, x, ":");
    assert line[..|key|] == key && line[|key| + 1..] == x;
    TrimTightOnly(key);
  }

  /** Text that trims alike is unquoted alike. */
  lemma UnquoteSpaceBefore(x: string)
    ensures Unquote(" " + x) == Unquote(x) && Unquote(TrimEnd(" " + x)) == Unquote(x)
  {
    hide Trim, TrimEnd;
    TrimSpaceBefore(x);
    TrimOfTrimEnd(" " + x);
  }

  /** The state after a top-level `key: scalar` line. */
  lemma TopLine(st: State, key: string, v: string)
    requires key != "" && Tight(key)
    requires forall c :: c in key ==> c != '\'' && c != '"' && c != '#' && c != ':'
    ensures Step(st, key + ": " + YamlScalar(v)) == TopLevel(st, Some(Kv(key, ReadBack(v))))
  {
    hide StripFrom, ParseKv, TopLevel, YamlScalar, Unquote, Trim;
    var t := YamlScalar(v);
    var x := StripFrom(t, false, false);
    forall c | c in key + ": " ensures c != '\'' && c != '"' && c != '#' {}
    StripPrefix(key + ": ", t);
    var line := key + ": " + x;
    SpanStops(line, 0, IsSpace) by { assert line[0] == key[0]; }
    NotBlank(line, 0);
    assert line == key + ":" + (" " + x);
    KvOf(key, " " + x);
    UnquoteSpaceBefore(x);
  }

  lemma {:induction false} NotBlank(line: string, i: nat)
    requires i < |line| && !IsSpace(line[i])
    ensures Trim(line) != ""
  {
    var s := TrimStart(line);
    var n := Span(line, IsSpace);
    assert n <= i;
    assert s[0] == line[n];
    TrimEndKeeps(s);
  }

  lemma {:induction false} TrimEndKeeps(s: string)
    requires s != "" && !IsSpace(s[0])
    ensures TrimEnd(s) != ""
  {
    if IsSpace(s[|s| - 1]) { TrimEndKeeps(s[..|s| - 1]); }
  }

  lemma IndentedStep(st: State, raw: string, trimmed: string)
    requires st.inMembers && trimmed != ""
    requires var line := StripFrom(raw, false, false); Trim(line) == trimmed && Span(line, IsSpace) > 0
    ensures Step(st, raw) == InMember(st, trimmed)
  {
    hide StripFrom, InMember, Trim, Span, TopLevel, ParseKv;
  }

  lemma SpanPad(pad: string, t: string)
    requires pad != "" && IsSpace(pad[0])
    ensures Span(pad + t, IsSpace) > 0
  {
    assert (pad + t)[0] == pad[0];
  }

  /** What an indented `head: scalar` line of the member list is, trimmed. */
  lemma IndentedLine(st: State, pad: string, h: string, t: string)
    requires st.inMembers && pad != "" && (forall c :: c in pad ==> c == ' ')
    requires h != "" && Tight(h) && (forall c :: c in h ==> c != '\'' && c != '"' && c != '#')
    ensures Step(st, pad + h + " " + t) == InMember(st, h + TrimEnd(" " + StripFrom(t, false, false)))
  {
    hide StripFrom, InMember, Trim, TrimEnd, Span, Step;
    var x := StripFrom(t, false, false);
    var p := pad + h + " ";
    forall c | c in p ensures c != '\'' && c != '"' && c != '#' {}
    StripPrefix(p, t);
    var line := p + x;
    assert line == pad + (h + (" " + x)) && p + t == pad + h + " " + t;
    assert pad[0] in pad;
    SpanPad(pad, h + (" " + x));
    TrimAfter(pad, h, " " + x);
    IndentedStep(st, pad + h + " " + t, h + TrimEnd(" " + x));
  }

  /** A list item line starts a member with that name. */
  lemma ItemLine(st: State, v: string)
    requires st.inMembers
    ensures Step(st, "  - name: " + YamlScalar(v)) == Flush(st).(current := Some(Member(ReadBack(v), None, None)))
  {
    hide StripFrom, ParseKv, YamlScalar, Unquote, Trim, TrimEnd, Step, Flush, InMember;
    var t := YamlScalar(v);
    var u := TrimEnd(" " + StripFrom(t, false, false));
    assert "  " + "- name:" + " " + t == "  - name: " + t;
    IndentedLine(st, "  ", "- name:", t);
    var trimmed := "- name:" + u;
    assert trimmed[1..] == " " + ("name:" + u);
    TrimAfter(" ", "name:", u);
    TrimOfTrimEnd(" " + StripFrom(t, false, false));
    KeysTight();
    KvOf("name", u);
    assert "name" + ":" + u == "name:" + u;
    UnquoteSpaceBefore(StripFrom(t, false, false));
    ItemStep(st, trimmed, "name:" + u, ReadBack(v));
  }

  lemma KeysTight()
    ensures Tight("name") && Tight("remote") && Tight("path") && Tight("members")
  {
  }

  lemma ItemStep(st: State, trimmed: string, after: string, v: string)
    requires trimmed != "" && trimmed[0] == '-' && Trim(trimmed[1..]) == after && after != ""
    requires ParseKv(after) == Some(Kv("name", v))
    ensures InMember(st, trimmed) == Flush(st).(current := Some(Member(v, None, None)))
  {
    hide ParseKv, Trim, Flush;
  }

  /** A continuation line sets a key of the current member. */
  lemma KeyLine(st: State, key: string, v: string)
    requires st.inMembers && st.current.Some?
    requires key == "remote" || key == "path"
    ensures Step(st, "    " + key + ": " + YamlScalar(v)) ==
            st.(current := Some(AssignMemberKey(st.current.value, key, ReadBack(v))))
  {
    hide StripFrom, ParseKv, YamlScalar, Unquote, Trim, TrimEnd, Step;
    var t := YamlScalar(v);
    var x := StripFrom(t, false, false);
    var u := TrimEnd(" " + x);
    assert "    " + (key + ":") + " " + t == "    " + key + ": " + t;
    IndentedLine(st, "    ", key + ":", t);
    assert key + ":" + u == (key + ":") + u && (key + ":" + u)[0] == key[0];
    KvOf(key, u);
    UnquoteSpaceBefore(x);
  }

  // ---- A carriage return at the end of a line -------------------------------------------------------

  lemma {:induction false} StripCr(s: string, inSingle: bool, inDouble: bool)
    ensures var x, y := StripFrom(s, inSingle, inDouble), StripFrom(s + "\r", inSingle, inDouble);
      y == x || y == x + "\r"
  {
    if s == "" {
      assert s + "\r" == "\r" && "\r"[1..] == "";
    } else {
      assert (s + "\r")[1..] == s[1..] + "\r";
      if s[0] == '\'' && !inDouble { StripCr(s[1..], !inSingle, inDouble); }
      else if s[0] == '"' && !inSingle { StripCr(s[1..], inSingle, !inDouble); }
      else { StripCr(s[1..], inSingle, inDouble); }
    }
  }

  lemma {:induction false} IndexOfColon(s: string)
    ensures IndexOf(s + "\r", ":") == IndexOf(s, ":") < |s|
  {
    if s == "" {
      assert s + "\r" == "\r" && "\r"[1..] == "" && "\r"[..1][0] != ":"[0];
    } else {
      assert (s + "\r")[1..] == s[1..] + "\r" && (s + "\r")[..1] == s[..1];
      IndexOfColon(s[1..]);
    }
  }

  lemma KvIgnoresCr(x: string)
    ensures ParseKv(x + "\r") == ParseKv(x)
  {
    hide IndexOf, Trim;
    IndexOfColon(x);
    var i := IndexOf(x, ":");
    if i >= 0 {
      assert (x + "\r")[..i] == x[..i] && (x + "\r")[i + 1..] == x[i + 1..] + "\r";
      TrimSpaceAfter(x[i + 1..], '\r');
    }
  }

  /** The parser does not see a carriage return at the end of a line. */
  lemma StepIgnoresCr(st: State, s: string)
    ensures Step(st, s + "\r") == Step(st, s)
  {
    hide StripFrom, Trim, ParseKv, TopLevel, InMember;
    StripCr(s, false, false);
    var x := StripFrom(s, false, false);
    TrimSpaceAfter(x, '\r');
    KvIgnoresCr(x);
    assert Trim("") == "" by { TrimTightOnly(""); }
    if x != "" { assert (x + "\r")[0] == x[0]; }
  }

  lemma {:induction false} RunIgnoresCrs(lines: seq<string>, st: State)
    ensures Run(DropCrs(lines), st) == Run(lines, st)
    decreases |lines|
  {
    hide Step;
    if |lines| > 1 {
      var l := lines[0];
      if l != "" && l[|l| - 1] == '\r' {
        assert l == l[..|l| - 1] + "\r";
        StepIgnoresCr(st, l[..|l| - 1]);
      }
      RunIgnoresCrs(lines[1..], Step(st, l));
    }
  }

  // ---- What is read back ------------------------------------------------------------------------------

  function ReadOption(o: Option<string>): Option<string>
  {
    if Given(o) then Some(ReadBack(o.value)) else None
  }

  /** A printed member as the parser gathers it. */
  function Gathered(m: Member): Member
  {
    Member(ReadBack(m.name), ReadOption(m.remote), ReadOption(m.path))
  }

  /** What the parser keeps of a gathered member: nothing, or the member, named if need be
      after its remote or its path. */
  function Settled(m: Member): (r: seq<Member>)
    ensures |r| <= 1
  {
    Flush(State(None, [], true, Some(m))).members
  }

  function AllSettled(ms: seq<Member>): seq<Member>
  {
    if ms == [] then [] else Settled(Gathered(ms[0])) + AllSettled(ms[1..])
  }

  lemma {:induction false} RunAppend(a: seq<string>, b: seq<string>, st: State)
    ensures Run(a + b, st) == Run(b, Run(a, st))
    decreases |a|
  {
    hide Step;
    if a == [] {
      assert a + b == b;
    } else {
      assert (a + b)[1..] == a[1..] + b;
      RunAppend(a[1..], b, Step(st, a[0]));
    }
  }

  lemma RunOne(line: string, st: State)
    ensures Run([line], st) == Step(st, line)
  {
    hide Step;
    assert [line][1..] == [];
  }

  /** A member's lines make it the current member, after the one before is kept. */
  lemma MemberRun(m: Member, st: State)
    requires st.inMembers
    ensures Run(MemberLines(m), st) == Flush(st).(current := Some(Gathered(m)))
  {
    hide Step, Flush, YamlScalar, ReadBack, Run;
    var first, name := "  - name: " + YamlScalar(m.name), ReadBack(m.name);
    ItemLine(st, m.name);
    RunOne(first, st);
    var st1 := Flush(st).(current := Some(Member(name, None, None)));
    FlushKeeps(st);
    var rl := if Given(m.remote) then ["    remote: " + YamlScalar(m.remote.value)] else [];
    var pl := if Given(m.path) then ["    path: " + YamlScalar(m.path.value)] else [];
    var st2 := st1.(current := Some(Member(name, ReadOption(m.remote), None)));
    RunNothing(st1);
    RunNothing(st2);
    if Given(m.remote) {
      KeyLine(st1, "remote", m.remote.value);
      assert "    " + "remote" + ": " == "    remote: ";
      RunOne(rl[0], st1);
    }
    if Given(m.path) {
      KeyLine(st2, "path", m.path.value);
      assert "    " + "path" + ": " == "    path: ";
      RunOne(pl[0], st2);
    }
    RunAppend([first], rl, st);
    RunAppend([first] + rl, pl, st);
  }

  lemma RunNothing(st: State)
    ensures Run([], st) == st
  {
  }

  lemma FlushSettles(st: State)
    requires st.current.Some?
    ensures Flush(st) == st.(members := st.members + Settled(st.current.value), current := None)
  {
    hide Basename;
    assert st.members + [] == st.members;
    assert forall m: Member :: [] + [m] == [m];
  }

  lemma {:induction false} MembersRun(ms: seq<Member>, st: State)
    requires st.inMembers
    ensures Flush(Run(AllMemberLines(ms), st)) == Flush(st).(members := Flush(st).members + AllSettled(ms))
    decreases |ms|
  {
    hide Step, Flush, MemberLines, Run, Settled, Gathered;
    if ms == [] {
      RunNothing(st);
      assert Flush(st).members + [] == Flush(st).members;
    } else {
      MemberRun(ms[0], st);
      RunAppend(MemberLines(ms[0]), AllMemberLines(ms[1..]), st);
      var st1 := Run(MemberLines(ms[0]), st);
      FlushKeeps(st);
      FlushSettles(st1);
      MembersRun(ms[1..], st1);
      var a, b, c := Flush(st).members, Settled(Gathered(ms[0])), AllSettled(ms[1..]);
      assert a + b + c == a + (b + c);
    }
  }

  lemma MembersKv()
    ensures ParseKv("members:") == Some(Kv("members", ""))
  {
    hide IndexOf, Trim;
    KeysTight();
    TrimTightOnly("members");
    TrimTightOnly("");
    MembersColon();
    assert "members:"[..7] == "members" && "members:"[8..] == "";
  }

  lemma MembersColon()
    ensures IndexOf("members:", ":") == 7
  {
    hide IndexOf;
    IndexOfAfter("members", "", ":");
    assert "members" + ":" + "" == "members:";
  }

  lemma MembersLine(st: State)
    ensures Step(st, "members:") == Flush(st).(inMembers := true)
  {
    hide Flush, StripFrom, ParseKv, Trim;
    var line := "members:";
    StripSafe(line, false, false);
    SpanStops(line, 0, IsSpace);
    NotBlank(line, 0);
    MembersKv();
  }

  lemma BlankLine(st: State)
    ensures Step(st, "") == st
  {
  }

  lemma FlushStart()
    ensures Flush(START) == START
  {
  }

  lemma FlushNoCurrent(st: State)
    requires st.current.None?
    ensures Flush(st) == st
  {
  }

  // ---- From text to lines ------------------------------------------------------------------------------

  ghost predicate OptionOneLine(o: Option<string>)
  {
    o.Some? ==> '\n' !in o.value
  }

  ghost predicate MemberOneLine(m: Member)
  {
    '\n' !in m.name && OptionOneLine(m.remote) && OptionOneLine(m.path)
  }

  /** No newline in any of its texts. */
  ghost predicate OneLine(d: Decl)
  {
    '\n' !in d.name && forall m :: m in d.members ==> MemberOneLine(m)
  }

  lemma ScalarOneLine(p: string, v: string)
    requires '\n' !in p && '\n' !in v
    ensures '\n' !in p + YamlScalar(v)
  {
  }

  lemma {:induction false} MemberLinesOneLine(ms: seq<Member>)
    requires forall m :: m in ms ==> MemberOneLine(m)
    ensures forall l :: l in AllMemberLines(ms) ==> '\n' !in l
  {
    hide YamlScalar;
    if ms != [] {
      var m := ms[0];
      assert m in ms;
      MemberLinesOneLine(ms[1..]);
      ScalarOneLine("  - name: ", m.name);
      if Given(m.remote) { ScalarOneLine("    remote: ", m.remote.value); }
      if Given(m.path) { ScalarOneLine("    path: ", m.path.value); }
    }
  }

  lemma {:induction false} JoinBlank(lines: seq<string>)
    requires lines != []
    ensures Join(lines + [""], "\n") == Join(lines, "\n") + "\n"
  {
    if |lines| > 1 {
      assert (lines + [""])[1..] == lines[1..] + [""];
      JoinBlank(lines[1..]);
    } else {
      assert (lines + [""])[1..] == [""];
      assert lines[0] + "\n" + "" == lines[0] + "\n";
    }
  }

  lemma PrintedLines(d: Decl)
    requires OneLine(d)
    ensures Split(SerializeGroupYaml(d), "\n") == DeclLines(d) + [""]
  {
    hide YamlScalar, Join, Split, MemberOneLine;
    var ls := DeclLines(d) + [""];
    ScalarOneLine("name: ", d.name);
    MemberLinesOneLine(d.members);
    assert '\n' !in "members:";
    assert forall l :: l in ls ==> '\n' !in l;
    JoinBlank(DeclLines(d));
    SplitJoin(ls, "\n");
  }

  /** What the parser makes of a printed declaration. */
  function ReadDecl(d: Decl): Option<Decl>
  {
    if ReadBack(d.name) == "" && AllSettled(d.members) == [] then None
    else Some(Decl(ReadBack(d.name), AllSettled(d.members)))
  }

  /** Parsing a printed one-line declaration reads each scalar back and settles each member. */
  lemma ParsePrinted(d: Decl)
    requires OneLine(d)
    ensures Parse(SerializeGroupYaml(d)) == ReadDecl(d)
  {
    hide SerializeGroupYaml, Step, Flush, MemberLines, Run, YamlScalar, ReadBack, Settled, Gathered, DropCrs, Split;
    PrintedLines(d);
    var lines := DeclLines(d) + [""];
    RunIgnoresCrs(lines, START);
    var first := "name: " + YamlScalar(d.name);
    TopLine(START, "name", d.name);
    assert "name" + ": " == "name: ";
    FlushStart();
    var st1 := State(Some(ReadBack(d.name)), [], false, None);
    RunOne(first, START);
    MembersLine(st1);
    RunOne("members:", st1);
    FlushNoCurrent(st1);
    var st2 := st1.(inMembers := true);
    FlushNoCurrent(st2);
    MembersRun(d.members, st2);
    var ls := AllMemberLines(d.members);
    RunAppend([first], ["members:"], START);
    assert [first] + ["members:"] == [first, "members:"];
    RunAppend([first, "members:"], ls, START);
    var st3 := Run(ls, st2);
    RunAppend(DeclLines(d), [""], START);
    RunOne("", st3);
    BlankLine(st3);
    assert [] + AllSettled(d.members) == AllSettled(d.members);
  }

  // ---- Which declarations are restored ---------------------------------------------------------------

  /** An option that is printed, and whose value the format can carry. */
  predicate OptionSurvives(o: Option<string>)
  {
    o.Some? ==> o.value != "" && Safe(o.value)
  }

  /** The name is read back, or it is read back as nothing and the base name of the path
      stands in for it. */
  predicate NameSurvives(m: Member)
  {
    Safe(m.name) || (ReadBack(m.name) == "" && m.remote.None? && m.path.Some? && Basename(m.path.value) == m.name)
  }

  predicate MemberSurvives(m: Member)
  {
    m.name != "" && NameSurvives(m) && OptionSurvives(m.remote) && OptionSurvives(m.path)
  }

  ghost predicate Survives(d: Decl)
  {
    OneLine(d) && Safe(d.name) && (d.name != "" || d.members != []) && forall m :: m in d.members ==> MemberSurvives(m)
  }

  lemma OptionReadsBack(o: Option<string>)
    ensures ReadOption(o) == o <==> OptionSurvives(o)
  {
    hide ReadBack, Safe;
    if o.Some? { ScalarReadsBack(o.value); }
  }

  lemma MemberReadsBack(m: Member)
    ensures Settled(Gathered(m)) == [m] <==> MemberSurvives(m)
  {
    hide ReadBack, Safe, Basename;
    OptionReadsBack(m.remote);
    OptionReadsBack(m.path);
    ScalarReadsBack(m.name);
    if m.remote.Some? { ScalarReadsBack(m.remote.value); }
    SettledName(Gathered(m));
  }

  /** The name a gathered member ends up with, when it is kept. */
  lemma SettledName(g: Member)
    ensures Settled(g) ==
            if g.name != "" then [g]
            else if Given(g.remote) then [g.(name := g.remote.value)]
            else if g.remote.None? && Given(g.path) &&
              Basename(g.path.value) != "" then [g.(name := Basename(g.path.value))]
            else []
  {
    hide Basename;
    assert forall m: Member :: [] + [m] == [m];
  }

  lemma {:induction false} AllReadBack(ms: seq<Member>)
    ensures |AllSettled(ms)| <= |ms|
    ensures AllSettled(ms) == ms <==> forall m :: m in ms ==> MemberSurvives(m)
  {
    hide MemberSurvives, Settled, Gathered;
    if ms != [] {
      var first := Settled(Gathered(ms[0]));
      MemberReadsBack(ms[0]);
      AllReadBack(ms[1..]);
      assert ms == [ms[0]] + ms[1..];
      if AllSettled(ms) == ms {
        assert |first| == 1 && first == ms[..1] == [ms[0]];
        assert AllSettled(ms[1..]) == AllSettled(ms)[1..] == ms[1..];
      }
    }
  }

  // ---- Nothing the parser reads holds a newline ----------------------------------------------------------

  lemma {:induction false} StripOneLine(s: string, inSingle: bool, inDouble: bool)
    requires '\n' !in s
    ensures '\n' !in StripFrom(s, inSingle, inDouble)
  {
    if s != "" {
      StripOneLine(s[1..], !inSingle, inDouble);
      StripOneLine(s[1..], inSingle, !inDouble);
      StripOneLine(s[1..], inSingle, inDouble);
    }
  }

  lemma TrimOneLine(s: string)
    requires '\n' !in s
    ensures '\n' !in Trim(s)
  {
    TrimEndTight(TrimStart(s));
  }

  lemma KvOneLine(line: string)
    requires '\n' !in line
    ensures ParseKv(line).Some? ==> '\n' !in ParseKv(line).value.value
  {
    hide Trim;
    var i := IndexOf(line, ":");
    if i >= 0 { TrimOneLine(line[i + 1..]); }
  }

  lemma {:induction false} BasenameOneLine(path: string)
    requires '\n' !in path
    ensures '\n' !in Basename(path)
  {
    if path != "" && path[|path| - 1] == '/' {
      BasenameOneLine(path[..|path| - 1]);
    } else {
      SegmentOneLine(path);
    }
  }

  lemma {:induction false} SegmentOneLine(path: string)
    requires '\n' !in path
    ensures '\n' !in LastSegment(path)
  {
    if path != "" && path[|path| - 1] != '/' { SegmentOneLine(path[..|path| - 1]); }
  }

  ghost predicate StateOneLine(st: State)
  {
    OptionOneLine(st.name) && (forall m :: m in st.members ==> MemberOneLine(m)) &&
    (st.current.Some? ==> MemberOneLine(st.current.value))
  }

  lemma FlushOneLine(st: State)
    requires StateOneLine(st)
    ensures StateOneLine(Flush(st))
  {
    hide Basename;
    if st.current.Some? && Given(st.current.value.path) { BasenameOneLine(st.current.value.path.value); }
  }

  lemma AssignOneLine(m: Member, line: string)
    requires MemberOneLine(m) && '\n' !in line
    ensures MemberOneLine(AssignKv(m, ParseKv(line)))
  {
    hide ParseKv;
    KvOneLine(line);
  }

  lemma BlankOneLine()
    ensures MemberOneLine(Member("", None, None))
  {
  }

  lemma StepOneLine(st: State, line: string)
    requires StateOneLine(st) && '\n' !in line
    ensures StateOneLine(Step(st, line))
  {
    hide StripFrom, ParseKv, AssignKv, Flush, Trim, Span, MemberOneLine;
    var x := StripFrom(line, false, false);
    StripOneLine(line, false, false);
    KvOneLine(x);
    TrimOneLine(x);
    FlushOneLine(st);
    FlushKeeps(st);
    var t := Trim(x);
    if t != "" {
      TrimOneLine(t[1..]);
      var blank := Member("", None, None);
      BlankOneLine();
      AssignOneLine(blank, Trim(t[1..]));
      if st.current.Some? { AssignOneLine(st.current.value, t); }
    }
  }

  lemma {:induction false} RunOneLine(lines: seq<string>, st: State)
    requires StateOneLine(st) && forall l :: l in lines ==> '\n' !in l
    ensures StateOneLine(Run(lines, st))
    decreases |lines|
  {
    hide Step, StateOneLine;
    if lines != [] {
      StepOneLine(st, lines[0]);
      RunOneLine(lines[1..], Step(st, lines[0]));
    }
  }

  lemma {:induction false} FirstNewline(s: string)
    ensures var i := IndexOf(s, "\n"); if i < 0 then '\n' !in s else '\n' !in s[..i]
  {
    if s != "" {
      assert s[..1] == [s[0]] && s == [s[0]] + s[1..];
      FirstNewline(s[1..]);
      var i := IndexOf(s[1..], "\n");
      if s[0] != '\n' && i >= 0 { assert s[..i + 1] == [s[0]] + s[1..][..i]; }
    }
  }

  lemma {:induction false} SplitOneLine(s: string)
    ensures forall l :: l in Split(s, "\n") ==> '\n' !in l
    decreases |s|
  {
    hide IndexOf;
    FirstNewline(s);
    var i := IndexOf(s, "\n");
    if i >= 0 { SplitOneLine(s[i + 1..]); }
  }

  lemma {:induction false} DropCrsOneLine(lines: seq<string>)
    requires forall l :: l in lines ==> '\n' !in l
    ensures forall l :: l in DropCrs(lines) ==> '\n' !in l
  {
    if |lines| > 1 {
      assert lines[0] in lines;
      DropCrsOneLine(lines[1..]);
    }
  }

  /** Whatever the text, no name or path that is read holds a newline. */
  lemma ParsedOneLine(text: string)
    ensures Parse(text).Some? ==> OneLine(Parse(text).value)
  {
    hide Run, Flush, Split, DropCrs, MemberOneLine;
    var lines := Split(text, "\n");
    SplitOneLine(text);
    DropCrsOneLine(lines);
    RunOneLine(DropCrs(lines), START);
    FlushOneLine(Run(DropCrs(lines), START));
  }

  /** Printing a declaration and parsing it again restores it exactly when its texts are of
      one line and carried by the format, no option is empty, and each member has a name that
      is read back or is the base name of its path. */
  lemma ParseSerialize(d: Decl)
    ensures Parse(SerializeGroupYaml(d)) == Some(d) <==> Survives(d)
  {
    hide Parse, SerializeGroupYaml, MemberSurvives, AllSettled, ReadBack, Safe, MemberOneLine;
    ParsedOneLine(SerializeGroupYaml(d));
    if OneLine(d) {
      ParsePrinted(d);
      ScalarReadsBack(d.name);
      AllReadBack(d.members);
    }
  }

  const CUT_NAME := "#\"'"
  const QUOTED_PATH := "\"/#\"'"

  lemma NameIsCut()
    ensures !Safe(CUT_NAME) && ReadBack(CUT_NAME) == ""
  {
    hide Trim;
    assert CUT_NAME[0] == '#' && CUT_NAME[1] == '"' && CUT_NAME[2] == '\'';
    assert StripFrom(CUT_NAME, false, false) == "";
    TrimTightOnly("");
  }

  lemma TailStrips()
    ensures StripFrom("\"'", false, true) == "\"'"
  {
    assert "\"'"[1..] == "'" && "'"[1..] == "";
    assert StripFrom("'", false, false) == "'";
  }

  lemma PathIsCarried()
    ensures Safe(QUOTED_PATH)
  {
    hide StripFrom, IsSpace;
    var p, tail := QUOTED_PATH, "\"'";
    TailStrips();
    StripInDouble("/#", tail);
    StripEnds();
    StripStep(p, 0, false, false);
    assert p[0..] == p && p[1..] == "/#" + tail;
    assert p[0] == '"' && p[|p| - 1] == '\'';
    TightQuotes(p);
  }

  lemma TightQuotes(p: string)
    requires p != "" && p[0] == '"' && p[|p| - 1] == '\''
    ensures Tight(p)
  {
  }

  lemma BaseIsCutName()
    ensures Basename(QUOTED_PATH) == CUT_NAME
  {
    var p := QUOTED_PATH;
    assert p[..4] == "\"/#\"" && "\"/#\""[..3] == "\"/#" && "\"/#"[..2] == "\"/";
    assert LastSegment("\"/") == "";
    assert LastSegment("\"/#") == "#";
    assert LastSegment("\"/#\"") == "#\"";
  }

  /** The name `#"'` is cut to nothing when it is read, but the path `"/#"'` is not, and
      restores it. */
  lemma NameFromPath()
    ensures !Safe(CUT_NAME) && MemberSurvives(Member(CUT_NAME, None, Some(QUOTED_PATH)))
  {
    hide Safe, ReadBack, Basename;
    NameIsCut();
    PathIsCarried();
    BaseIsCutName();
  }
}
