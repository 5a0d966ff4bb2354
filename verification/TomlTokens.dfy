/** What the scanner reads as one token, in the terms of TOML v1.0.0 ("Comment", "String",
    "Table"). */
module TomlTokens {
  import opened Options
  import opened Strings
  import opened TomlScanner

  function Open(d: nat): State
  {
    State(NoQuote, d)
  }

  // ---- Comments and brackets -------------------------------------------------------------------

  /** A comment runs to the end of its line, whatever it holds. */
  lemma CommentEnds(rest: string, d: nat)
    ensures Chars("#" + rest, Open(d)) == Some(Open(d))
  {
  }

  /** Brackets nest; one that closes nothing makes the line unreadable. */
  lemma BracketsNest(rest: string, d: nat)
    ensures Chars("[" + rest, Open(d)) == Chars("{" + rest, Open(d)) == Chars(rest, Open(d + 1))
    ensures Chars("]" + rest, Open(d)) == Chars("}" + rest, Open(d)) ==
            if d == 0 then None else Chars(rest, Open(d - 1))
  {
    forall c: char ensures ([c] + rest)[1..] == rest {}
    assert "[" == ['['] && "{" == ['{'] && "]" == [']'] && "}" == ['}'];
  }

  // ---- Strings -----------------------------------------------------------------------------------

  /** Every quote in it is escaped, and every backslash escapes something. */
  predicate BasicBody(s: string)
  {
    s == "" ||
    if s[0] == '\\' then |s| >= 2 && BasicBody(s[2..]) else s[0] != '"' && BasicBody(s[1..])
  }

  lemma {:induction false} BodyRead(body: string, rest: string, q: Quote, d: nat)
    requires BasicBody(body) && (q == Basic || q == BasicMulti)
    ensures Chars(body + rest, State(q, d)) == Chars(rest, State(q, d))
    decreases |body|
  {
    var t := body + rest;
    if body == "" {
      assert t == rest;
    } else if body[0] == '\\' {
      assert Drop(t, 2) == body[2..] + rest;
      BodyRead(body[2..], rest, q, d);
    } else {
      assert t[1..] == body[1..] + rest;
      BodyRead(body[1..], rest, q, d);
    }
  }

  /** Two quotes that stand for the empty string, not for the start of a longer opening. */
  predicate Closed(body: string, rest: string, q: char)
  {
    body != "" || rest == "" || rest[0] != q
  }

  /** A basic string is read over, whatever it holds; without its closing quote it stays open. */
  lemma BasicString(body: string, rest: string, d: nat)
    requires BasicBody(body)
    ensures Closed(body, rest, '"') ==> Chars("\"" + body + "\"" + rest, Open(d)) == Chars(rest, Open(d))
    ensures Chars("\"" + body, Open(d)) == Some(State(Basic, d))
  {
    var t := "\"" + body + "\"" + rest;
    var tail := "\"" + rest;
    assert t[1..] == body + tail && tail[1..] == rest;
    if Closed(body, rest, '"') {
      assert !StartsWith(t, "\"\"\"") by {
        assert |t| >= 3 ==> t[..3][1] == t[1] && t[..3][2] == t[2] && "\"\"\""[1] == '"' && "\"\"\""[2] == '"';
        if body == "" && rest != "" { assert t[2] == rest[0]; }
        if body != "" { assert t[1] == body[0]; }
      }
      BodyRead(body, tail, Basic, d);
    }
    var u := "\"" + body;
    assert u[1..] == body && body + "" == body;
    assert !StartsWith(u, "\"\"\"") by { if |u| >= 3 { assert u[..3][1] == body[0]; } }
    BodyRead(body, "", Basic, d);
  }

  lemma {:induction false} LiteralRead(body: string, rest: string, q: Quote, d: nat)
    requires '\'' !in body && (q == Literal || q == LiteralMulti)
    ensures Chars(body + rest, State(q, d)) == Chars(rest, State(q, d))
  {
    if body == "" {
      assert body + rest == rest;
    } else {
      assert (body + rest)[1..] == body[1..] + rest && body[0] in body;
      LiteralRead(body[1..], rest, q, d);
    }
  }

  /** In a literal string a backslash is nothing special. */
  lemma LiteralString(body: string, rest: string, d: nat)
    requires '\'' !in body
    ensures Closed(body, rest, '\'') ==> Chars("'" + body + "'" + rest, Open(d)) == Chars(rest, Open(d))
    ensures Chars("'" + body, Open(d)) == Some(State(Literal, d))
  {
    var t := "'" + body + "'" + rest;
    var tail := "'" + rest;
    assert t[1..] == body + tail && tail[1..] == rest;
    assert body != "" ==> body[0] in body;
    if Closed(body, rest, '\'') {
      assert !StartsWith(t, "'''") by {
        assert |t| >= 3 ==> t[..3][1] == t[1] && t[..3][2] == t[2] && "'''"[1] == '\'' && "'''"[2] == '\'';
        if body == "" && rest != "" { assert t[2] == rest[0]; }
        if body != "" { assert t[1] == body[0]; }
      }
      LiteralRead(body, tail, Literal, d);
    }
    var u := "'" + body;
    assert u[1..] == body && body + "" == body;
    assert !StartsWith(u, "'''") by { if |u| >= 3 { assert u[..3][1] == body[0]; } }
    LiteralRead(body, "", Literal, d);
  }

  /** Three quotes open a string that goes on to the next three, on this line or a later one. */
  lemma MultiOpens(body: string, d: nat)
    requires BasicBody(body) && body != ""
    ensures Chars("\"\"\"" + body, Open(d)) == Some(State(BasicMulti, d))
  {
    var t := "\"\"\"" + body;
    assert t[..3] == "\"\"\"" && t[1..] == "\"\"" + body;
    TwoQuotes(body, d);
    BodyRead(body, "", BasicMulti, d);
    assert body + "" == body;
  }

  lemma TwoQuotes(rest: string, d: nat)
    requires rest != "" && rest[0] != '"'
    ensures Chars("\"\"" + rest, State(BasicMulti, d)) == Chars(rest, State(BasicMulti, d))
  {
    var t, u := "\"\"" + rest, "\"" + rest;
    assert t[1..] == u && u[1..] == rest;
    assert |t| >= 3 ==> t[..3][2] == rest[0];
    assert |u| >= 3 ==> u[..3][1] == rest[0];
  }

  /** A line inside such a string: it stays open, or its first three quotes close it. */
  lemma MultiGoesOn(body: string, rest: string, d: nat)
    requires BasicBody(body)
    ensures Chars(body, State(BasicMulti, d)) == Some(State(BasicMulti, d))
    ensures Chars(body + "\"\"\"" + rest, State(BasicMulti, d)) == Chars(rest, Open(d))
  {
    BodyRead(body, "", BasicMulti, d);
    assert body + "" == body;
    var tail := "\"\"\"" + rest;
    assert body + "\"\"\"" + rest == body + tail;
    BodyRead(body, tail, BasicMulti, d);
    assert tail[..3] == "\"\"\"" && tail[3..] == rest;
  }

  lemma TwoApostrophes(rest: string, d: nat)
    requires rest != "" && rest[0] != '\''
    ensures Chars("''" + rest, State(LiteralMulti, d)) == Chars(rest, State(LiteralMulti, d))
  {
    var t, u := "''" + rest, "'" + rest;
    assert t[1..] == u && u[1..] == rest;
    assert |t| >= 3 ==> t[..3][2] == rest[0];
    assert |u| >= 3 ==> u[..3][1] == rest[0];
  }

  lemma LiteralMultiOpens(body: string, d: nat)
    requires '\'' !in body && body != ""
    ensures Chars("'''" + body, Open(d)) == Some(State(LiteralMulti, d))
  {
    var t := "'''" + body;
    assert t[..3] == "'''" && t[1..] == "''" + body && body[0] in body;
    TwoApostrophes(body, d);
    LiteralRead(body, "", LiteralMulti, d);
    assert body + "" == body;
  }

  lemma LiteralMultiGoesOn(body: string, rest: string, d: nat)
    requires '\'' !in body
    ensures Chars(body, State(LiteralMulti, d)) == Some(State(LiteralMulti, d))
    ensures Chars(body + "'''" + rest, State(LiteralMulti, d)) == Chars(rest, Open(d))
  {
    LiteralRead(body, "", LiteralMulti, d);
    assert body + "" == body;
    var tail := "'''" + rest;
    assert body + "'''" + rest == body + tail;
    LiteralRead(body, tail, LiteralMulti, d);
    assert tail[..3] == "'''" && tail[3..] == rest;
  }

  // ---- Header lines ----------------------------------------------------------------------------------

  predicate AllSpace(s: string)
  {
    forall c :: c in s ==> IsSpace(c)
  }

  predicate BareText(s: string)
  {
    s != "" &&
    forall c :: c in s ==> 'A' <= c <= 'Z' || 'a' <= c <= 'z' || '0' <= c <= '9' || c == '_' || c == '-' || c == '.'
  }

  /** Blanks, then nothing or a comment. */
  ghost predicate TailText(tail: string)
  {
    exists blanks, rest :: tail == blanks + rest && (forall c :: c in blanks ==> c == ' ' || c == '\t') &&
      (rest == "" || (rest[0] == '#' && forall c :: c in rest ==> !IsLineEnd(c)))
  }

  /** A bracketed dotted name, with white space around it and nothing but a comment after it. */
  ghost predicate HeaderText(line: string, name: string)
  {
    exists a, b, c, tail :: line == a + ("[" + (b + (name + (c + ("]" + tail))))) &&
      AllSpace(a) && AllSpace(b) && AllSpace(c) && BareText(name) && TailText(tail)
  }

  lemma {:induction false} SpanIs(a: string, rest: string, p: char -> bool)
    requires (forall c :: c in a ==> p(c)) && (rest != "" ==> !p(rest[0]))
    ensures Span(a + rest, p) == |a| && (a + rest)[|a|..] == rest
  {
    var t := a + rest;
    forall i | 0 <= i < |a| ensures p(t[i]) { assert t[i] == a[i] && a[i] in a; }
    SpanStops(t, |a|, p);
  }

  lemma SpanPart(s: string, p: char -> bool)
    ensures s == s[..Span(s, p)] + s[Span(s, p)..] && forall c :: c in s[..Span(s, p)] ==> p(c)
  {
  }

  lemma TailExactly(tail: string)
    ensures HeaderTail(tail) <==> TailText(tail)
  {
    var blank := c => c == ' ' || c == '\t';
    SpanPart(tail, blank);
    var rest := tail[Span(tail, blank)..];
    if HeaderTail(tail) {
      assert tail == tail[..Span(tail, blank)] + rest;
    }
    if TailText(tail) {
      var blanks, more :| tail == blanks + more && (forall c :: c in blanks ==> c == ' ' || c == '\t') &&
        (more == "" || (more[0] == '#' && forall c :: c in more ==> !IsLineEnd(c)));
      SpanIs(blanks, more, blank);
      if more != "" { SpanAll(more, c => !IsLineEnd(c)); }
    }
  }

  /** The header lines are those, and the name's parts are the path. */
  lemma HeaderExactly(line: string, path: seq<string>)
    ensures HeaderOf(line) == Table(path) <==> exists name :: HeaderText(line, name) && path == Split(name, ".")
  {
    hide Split, IsSpace;
    if HeaderOf(line) == Table(path) {
      HeaderIsText(line, path);
    }
    if name :| HeaderText(line, name) && path == Split(name, ".") {
      TextIsHeader(line, name);
    }
  }

  /** What `MatchHeader` cuts a bracketed line into. */
  lemma Cuts(t: string) returns (b: string, name: string, c: string, after: string)
    requires t != "" && t[0] == '['
    ensures t == "[" + (b + (name + (c + after))) && AllSpace(b) && AllSpace(c)
    ensures forall x :: x in name ==> IsBare(x)
    ensures MatchHeader(t) ==
            if name == "" || after == "" || after[0] != ']' || !HeaderTail(after[1..]) then BadHeader
            else Table(Split(name, "."))
  {
    hide Split, IsSpace, IsBare, HeaderTail, Span;
    var s := t[1..];
    SpanPart(s, IsSpace);
    b := s[..Span(s, IsSpace)];
    var inner := s[Span(s, IsSpace)..];
    SpanPart(inner, IsBare);
    name := inner[..Span(inner, IsBare)];
    var u := inner[Span(inner, IsBare)..];
    SpanPart(u, IsSpace);
    c, after := u[..Span(u, IsSpace)], u[Span(u, IsSpace)..];
    assert t == "[" + s;
  }

  lemma HeaderIsText(line: string, path: seq<string>)
    requires HeaderOf(line) == Table(path)
    ensures exists name :: HeaderText(line, name) && path == Split(name, ".")
  {
    SpanPart(line, IsSpace);
    hide Split, IsSpace, HeaderTail, TailText, MatchHeader, Span;
    var a, t := line[..Span(line, IsSpace)], line[Span(line, IsSpace)..];
    var b, name, c, after := Cuts(t);
    TailExactly(after[1..]);
    BareIsText(name);
    assert after == "]" + after[1..];
    assert line == a + ("[" + (b + (name + (c + ("]" + after[1..])))));
    assert AllSpace(a);
    IsHeaderText(line, a, b, name, c, after[1..]);
  }

  lemma IsHeaderText(line: string, a: string, b: string, name: string, c: string, tail: string)
    requires line == a + ("[" + (b + (name + (c + ("]" + tail)))))
    requires AllSpace(a) && AllSpace(b) && AllSpace(c) && BareText(name) && TailText(tail)
    ensures HeaderText(line, name)
  {
  }

  lemma BareIsText(name: string)
    ensures BareText(name) <==> name != "" && forall c :: c in name ==> IsBare(c)
  {
  }

  lemma TextIsHeader(line: string, name: string)
    requires HeaderText(line, name)
    ensures HeaderOf(line) == Table(Split(name, "."))
  {
    var a, b, c, tail :| line == a + ("[" + (b + (name + (c + ("]" + tail))))) &&
      AllSpace(a) && AllSpace(b) && AllSpace(c) && BareText(name) && TailText(tail);
    var t := "[" + (b + (name + (c + ("]" + tail))));
    NoSpaceBracket();
    SpanIs(a, t, IsSpace);
    TailExactly(tail);
    hide *;
    CutsAs(b, name, c, tail);
    HeaderCase(line, t);
  }

  lemma HeaderCase(line: string, t: string)
    requires line[Span(line, IsSpace)..] == t && t != "" && t[0] == '['
    ensures HeaderOf(line) == MatchHeader(t)
  {
  }

  lemma CutsAs(b: string, name: string, c: string, tail: string)
    requires AllSpace(b) && AllSpace(c) && BareText(name) && HeaderTail(tail)
    ensures MatchHeader("[" + (b + (name + (c + ("]" + tail))))) == Table(Split(name, "."))
  {
    var after := "]" + tail;
    var u := c + after;
    var inner := name + u;
    var t := "[" + (b + inner);
    NoSpaceBracket();
    assert name[0] in name && (c != "" ==> c[0] in c);
    BareIsText(name);
    BareIsNoSpace(name[0]);
    NoBareSpace(u[0]);
    hide Split, IsSpace, IsBare, HeaderTail, Span;
    SpanIs(b, inner, IsSpace);
    SpanIs(name, u, IsBare);
    SpanIs(c, after, IsSpace);
    assert t[1..] == b + inner && after[1..] == tail && inner[..|name|] == name;
  }

  lemma BareIsNoSpace(c: char)
    requires IsBare(c)
    ensures !IsSpace(c)
  {
  }

  lemma NoBareSpace(c: char)
    requires IsSpace(c) || c == ']'
    ensures !IsBare(c)
  {
  }

  /** A line that opens no table: its first character that is no white space is no bracket. */
  lemma NoHeaderExactly(line: string)
    ensures HeaderOf(line) == NoHeader <==> forall a, rest :: line == a + ("[" + rest) ==> !AllSpace(a)
  {
    SpanPart(line, IsSpace);
    NoSpaceBracket();
    hide IsSpace, Span, MatchHeader;
    var a, t := line[..Span(line, IsSpace)], line[Span(line, IsSpace)..];
    if t != "" && t[0] == '[' {
      assert line == a + ("[" + t[1..]) && AllSpace(a);
      MatchedIsHeader(t);
    }
    if a', rest :| line == a' + ("[" + rest) && AllSpace(a') {
      SpanIs(a', "[" + rest, IsSpace);
    }
  }

  lemma MatchedIsHeader(t: string)
    requires t != ""
    ensures MatchHeader(t) != NoHeader
  {
  }

  lemma NoSpaceBracket()
    ensures !IsSpace('[') && !IsSpace(']')
  {
  }

  // ---- Whole lines -------------------------------------------------------------------------------------

  /** White space and a bracket start the line. */
  ghost predicate StartsBracket(line: string)
  {
    exists a, rest :: line == a + ("[" + rest) && AllSpace(a)
  }

  ghost predicate IsHeader(line: string)
  {
    exists name :: HeaderText(line, name)
  }

  lemma HeaderCases(line: string)
    ensures HeaderOf(line).Table? <==> IsHeader(line)
    ensures HeaderOf(line).NoHeader? <==> !StartsBracket(line)
    ensures forall name :: HeaderText(line, name) ==> HeaderOf(line) == Table(Split(name, "."))
  {
    hide HeaderOf, HeaderText, Split, AllSpace;
    NoHeaderExactly(line);
    if HeaderOf(line).Table? { HeaderExactly(line, HeaderOf(line).path); }
    forall name | HeaderText(line, name) ensures HeaderOf(line) == Table(Split(name, ".")) {
      HeaderExactly(line, Split(name, "."));
    }
  }

  /** A line is read if and only if it closes no bracket that is not open, leaves no string of
      one line open, and, where a table may start, is no header unless it is a proper one. It
      opens a table only there. */
  lemma LineExactly(line: string, st: State)
    requires line == "" || line[|line| - 1] != '\r'
    ensures StepLine(line, st).Line? <==>
            && Chars(line, st).Some? && Chars(line, st).value.quote != Basic && Chars(line, st).value.quote != Literal
            && (st == CLEAN && StartsBracket(line) ==> IsHeader(line))
    ensures StepLine(line, st).Line? ==>
            && StepLine(line, st).st == Chars(line, st).value
            && (StepLine(line, st).table.Some? <==> st == CLEAN && IsHeader(line))
            && forall name :: st == CLEAN && HeaderText(line, name) ==>
              StepLine(line, st).table == Some(Split(name, "."))
    ensures StepLine(line + "\r", st) == StepLine(line, st)
  {
    hide Chars, HeaderText, Split, HeaderOf, StartsBracket, IsHeader;
    assert StripCr(line) == line && StripCr(line + "\r") == line;
    HeaderCases(line);
    HeaderStarts(line);
  }

  lemma HeaderStarts(line: string)
    ensures IsHeader(line) ==> StartsBracket(line)
  {
    hide HeaderOf;
    HeaderCases(line);
  }
}
