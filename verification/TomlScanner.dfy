/** The scanner that splits the text of a TOML file into table regions. */
module TomlScanner {
  import opened Options
  import opened Strings

  /** The string a scan position is inside of, if any. */
  datatype Quote = NoQuote | Basic | BasicMulti | Literal | LiteralMulti

  /** The scanner's state between characters: the open string and the number of
      open brackets of a multi-line value. */
  datatype State = State(quote: Quote, depth: nat)

  const CLEAN := State(NoQuote, 0)

  /** A table header: its dotted path and the offset of its line. */
  datatype Header = Header(path: seq<string>, start: nat)

  // ---- One line ------------------------------------------------------------------

  predicate StartsWith(s: string, prefix: string)
  {
    |prefix| <= |s| && s[..|prefix|] == prefix
  }

  /** The state after the characters `s`, or nothing on a stray closing bracket. */
  function Chars(s: string, st: State): Option<State>
    decreases |s|
  {
    if s == "" then Some(st)
    else
      var c := s[0];
      match st.quote
      case Basic =>
        if c == '\\' then Chars(Drop(s, 2), st)
        else if c == '"' then Chars(s[1..], st.(quote := NoQuote))
        else Chars(s[1..], st)
      case BasicMulti =>
        if c == '\\' then Chars(Drop(s, 2), st)
        else if c == '"' && StartsWith(s, "\"\"\"") then Chars(s[3..], st.(quote := NoQuote))
        else Chars(s[1..], st)
      case Literal =>
        if c == '\'' then Chars(s[1..], st.(quote := NoQuote)) else Chars(s[1..], st)
      case LiteralMulti =>
        if c == '\'' && StartsWith(s, "'''") then Chars(s[3..], st.(quote := NoQuote)) else Chars(s[1..], st)
      case NoQuote =>
        if c == '#' then Some(st)
        else if c == '"' then Chars(s[1..], st.(quote := if StartsWith(s, "\"\"\"") then BasicMulti else Basic))
        else if c == '\'' then Chars(s[1..], st.(quote := if StartsWith(s, "'''") then LiteralMulti else Literal))
        else if c == '[' || c == '{' then Chars(s[1..], st.(depth := st.depth + 1))
        else if c == ']' || c == '}' then
          if st.depth == 0 then None else Chars(s[1..], st.(depth := st.depth - 1))
        else Chars(s[1..], st)
  }

  function Drop(s: string, n: nat): (r: string)
    ensures |r| == if n <= |s| then |s| - n else 0
  {
    if n <= |s| then s[n..] else ""
  }

  /** The characters `.` does not match. */
  predicate IsLineEnd(c: char)
  {
    c == '\n' || c == '\r' || c == '\U{2028}' || c == '\U{2029}'
  }

  predicate IsBare(c: char)
  {
    'A' <= c <= 'Z' || 'a' <= c <= 'z' || '0' <= c <= '9' || c == '_' || c == '.' || c == '-'
  }

  datatype HeaderLine = NoHeader | BadHeader | Table(path: seq<string>)

  /** What follows the closing bracket: blanks, then nothing or a comment. */
  predicate HeaderTail(s: string)
  {
    var rest := s[Span(s, c => c == ' ' || c == '\t')..];
    rest == "" || (rest[0] == '#' && Span(rest, c => !IsLineEnd(c)) == |rest|)
  }

  /** Matches a line that starts with a bracket against the one header form the
      scanner accepts: a bracketed bare dotted name. */
  function MatchHeader(t: string): HeaderLine
    requires t != ""
  {
    var inner := t[1..][Span(t[1..], IsSpace)..];
    var n := Span(inner, IsBare);
    var after := inner[n..][Span(inner[n..], IsSpace)..];
    if n == 0 || after == "" || after[0] != ']' || !HeaderTail(after[1..]) then BadHeader
    else Table(Split(inner[..n], "."))
  }

  function HeaderOf(line: string): HeaderLine
  {
    var t := line[Span(line, IsSpace)..];
    if t == "" || t[0] != '[' then NoHeader else MatchHeader(t)
  }

  function StripCr(raw: string): string
  {
    if raw != "" && raw[|raw| - 1] == '\r' then raw[..|raw| - 1] else raw
  }

  /** What one line does: the header it is, if any, and the state it leaves. */
  datatype LineResult = Rejected | Line(table: Option<seq<string>>, st: State)

  function AfterChars(line: string, table: Option<seq<string>>, st: State): LineResult
  {
    match Chars(line, st)
    case None => Rejected
    case Some(st') => if st'.quote == Basic || st'.quote == Literal then Rejected else Line(table, st')
  }

  function StepLine(raw: string, st: State): LineResult
  {
    var line := StripCr(raw);
    if st == CLEAN then
      match HeaderOf(line)
      case BadHeader => Rejected
      case NoHeader => AfterChars(line, None, st)
      case Table(path) => AfterChars(line, Some(path), st)
    else AfterChars(line, None, st)
  }

  // ---- The whole text -----------------------------------------------------------------

  /** The length of the first line, without its newline. */
  function LineLength(text: string): (n: nat)
    ensures n <= |text|
    ensures forall i :: 0 <= i < n ==> text[i] != '\n'
    ensures n < |text| ==> text[n] == '\n'
  {
    if text == "" || text[0] == '\n' then 0 else 1 + LineLength(text[1..])
  }

  function FirstLine(text: string): string
  {
    text[..LineLength(text)]
  }

  function AfterLine(text: string): (rest: string)
    requires text != ""
    ensures |rest| < |text|
  {
    Drop(text, LineLength(text) + 1)
  }

  function HeaderList(table: Option<seq<string>>, off: nat): seq<Header>
  {
    if table.Some? then [Header(table.value, off)] else []
  }

  function Prefixed(hs: seq<Header>, r: Option<seq<Header>>): Option<seq<Header>>
  {
    if r.Some? then Some(hs + r.value) else None
  }

  /** The headers of `text`, read from state `st` and placed from offset `off` on;
      nothing when some construct is not understood or is still open at the end. */
  function Scan(text: string, st: State, off: nat): Option<seq<Header>>
    decreases |text|
  {
    if text == "" then if st == CLEAN then Some([]) else None
    else
      var rest := AfterLine(text);
      match StepLine(FirstLine(text), st)
      case Rejected => None
      case Line(table, st') => Prefixed(HeaderList(table, off), Scan(rest, st', off + |text| - |rest|))
  }

  /** One step of the scan, for proofs that keep `Scan` folded. */
  lemma ScanStep(text: string, st: State, off: nat)
    requires text != ""
    ensures var step, rest := StepLine(FirstLine(text), st), AfterLine(text);
      Scan(text, st, off) ==
      if step.Rejected? then None
      else Prefixed(HeaderList(step.table, off), Scan(rest, step.st, off + |text| - |rest|))
  {
  }

  lemma ScanNothing(st: State, off: nat)
    ensures Scan("", st, off) == if st == CLEAN then Some([]) else None
  {
  }

  /** The headers of a whole file. */
  function Headers(text: string): Option<seq<Header>>
  {
    Scan(text, CLEAN, 0)
  }

  // ---- Compositionality ------------------------------------------------------------------

  predicate EndsLine(s: string)
  {
    s == "" || s[|s| - 1] == '\n'
  }

  lemma {:induction false} LineLengthAt(text: string, n: nat)
    requires n < |text| && text[n] == '\n' && forall i :: 0 <= i < n ==> text[i] != '\n'
    ensures LineLength(text) == n
  {
    if n > 0 { LineLengthAt(text[1..], n - 1); }
  }

  lemma LineEndsInside(a: string)
    requires a != "" && EndsLine(a)
    ensures LineLength(a) < |a|
  {
    assert a[|a| - 1] == '\n';
  }

  /** Text that ends a line keeps its first line when more text follows. */
  lemma FirstLineOfAppend(a: string, b: string)
    requires a != "" && EndsLine(a)
    ensures a + b != "" && FirstLine(a + b) == FirstLine(a)
    ensures AfterLine(a + b) == AfterLine(a) + b
    ensures EndsLine(AfterLine(a))
  {
    var n := LineLength(a);
    LineEndsInside(a);
    assert (a + b)[n] == a[n];
    LineLengthAt(a + b, n);
  }

  /** Scanning `a + b` at a clean line boundary is scanning `a`, then `b` further on. */
  lemma {:induction false} ScanAppend(a: string, b: string, st: State, off: nat)
    requires EndsLine(a) && Scan(a, st, off).Some?
    ensures Scan(a + b, st, off) == Prefixed(Scan(a, st, off).value, Scan(b, CLEAN, off + |a|))
    decreases |a|
  {
    hide Scan, StepLine, FirstLine, AfterLine;
    if a == "" {
      assert a + b == b;
      ScanNothing(st, off);
      var hb := Scan(b, CLEAN, off);
      assert hb.Some? ==> [] + hb.value == hb.value;
    } else {
      FirstLineOfAppend(a, b);
      ScanStep(a, st, off);
      ScanStep(a + b, st, off);
      var rest := AfterLine(a);
      var step := StepLine(FirstLine(a), st);
      ScanAppend(rest, b, step.st, off + |a| - |rest|);
      assert off + |a + b| - |rest + b| == off + |a| - |rest|;
      var hs, ha, hb := HeaderList(step.table, off), Scan(rest, step.st, off + |a| - |rest|).value,
        Scan(b, CLEAN, off + |a|);
      assert hb.Some? ==> hs + (ha + hb.value) == hs + ha + hb.value;
    }
  }

  function Moved(hs: seq<Header>, d: nat): (r: seq<Header>)
    ensures |r| == |hs|
    ensures forall i :: 0 <= i < |hs| ==> r[i] == Header(hs[i].path, hs[i].start + d)
  {
    if hs == [] then [] else [Header(hs[0].path, hs[0].start + d)] + Moved(hs[1..], d)
  }

  /** Moving the text moves the headers and nothing else. */
  lemma {:induction false} ScanMoved(text: string, st: State, off: nat, d: nat)
    ensures Scan(text, st, off).None? <==> Scan(text, st, off + d).None?
    ensures Scan(text, st, off).Some? ==> Scan(text, st, off + d).value == Moved(Scan(text, st, off).value, d)
    decreases |text|
  {
    hide Scan, StepLine, FirstLine, AfterLine, Moved;
    if text == "" {
      ScanNothing(st, off);
      ScanNothing(st, off + d);
    } else {
      ScanStep(text, st, off);
      ScanStep(text, st, off + d);
      var rest := AfterLine(text);
      var step := StepLine(FirstLine(text), st);
      if step.Line? {
        ScanMoved(rest, step.st, off + |text| - |rest|, d);
        assert off + d + |text| - |rest| == off + |text| - |rest| + d;
      }
    }
  }

  /** Headers start lines, in order, inside the text. */
  lemma {:induction false} HeadersInOrder(text: string, st: State, off: nat)
    requires Scan(text, st, off).Some?
    ensures var hs := Scan(text, st, off).value;
      && (forall i :: 0 <= i < |hs| ==> off <= hs[i].start < off + |text|)
      && (forall i, j :: 0 <= i < j < |hs| ==> hs[i].start < hs[j].start)
    decreases |text|
  {
    hide Scan, StepLine, FirstLine, AfterLine;
    if text == "" {
      ScanNothing(st, off);
    } else {
      ScanStep(text, st, off);
      var rest := AfterLine(text);
      var step := StepLine(FirstLine(text), st);
      HeadersInOrder(rest, step.st, off + |text| - |rest|);
    }
  }

  lemma HeaderOnlyWhenClean(raw: string, st: State)
    requires StepLine(raw, st).Line? && StepLine(raw, st).table.Some?
    ensures st == CLEAN
  {
  }

  /** A scan can be cut at any of its headers: what precedes the header scans
      cleanly on its own and ends a line, and the header starts a clean scan. */
  ghost predicate CutsAt(text: string, st: State, off: nat, hs: seq<Header>, i: nat)
  {
    && i < |hs| && off <= hs[i].start < off + |text|
    && EndsLine(text[..hs[i].start - off])
    && Scan(text[..hs[i].start - off], st, off) == Some(hs[..i])
    && Scan(text[hs[i].start - off..], CLEAN, hs[i].start) == Some(hs[i..])
  }

  lemma {:induction false} ScanCut(text: string, st: State, off: nat, hs: seq<Header>, i: nat)
    requires Scan(text, st, off) == Some(hs) && i < |hs|
    ensures CutsAt(text, st, off, hs, i)
    decreases |text|
  {
    hide Scan, StepLine, FirstLine, AfterLine, CutsAt;
    ScanNothing(st, off);
    assert text != "";
    ScanStep(text, st, off);
    var step := StepLine(FirstLine(text), st);
    if step.table.Some? && i == 0 {
      HeaderOnlyWhenClean(FirstLine(text), st);
      CutAtStart(text, off, hs);
    } else {
      var rest := AfterLine(text);
      var first := |HeaderList(step.table, off)|;
      ScanCut(rest, step.st, off + |text| - |rest|, hs[first..], i - first);
      CutInRest(text, rest, st, off, step, hs[first..], hs, i - first);
    }
  }

  lemma CutAtStart(text: string, off: nat, hs: seq<Header>)
    requires Scan(text, CLEAN, off) == Some(hs) && |hs| > 0 && hs[0].start == off && text != ""
    ensures CutsAt(text, CLEAN, off, hs, 0)
  {
    hide Scan;
    assert text[..0] == "" && text[0..] == text;
    ScanNothing(CLEAN, off);
  }

  lemma CutInRest(
    text: string, rest: string, st: State, off: nat, step: LineResult, hr: seq<Header>, hs: seq<Header>, j: nat)
    requires text != "" && rest == AfterLine(text) && step == StepLine(FirstLine(text), st) && step.Line?
    requires hs == HeaderList(step.table, off) + hr
    requires CutsAt(rest, step.st, off + |text| - |rest|, hr, j)
    ensures CutsAt(text, st, off, hs, j + |HeaderList(step.table, off)|)
  {
    hide Scan, StepLine, FirstLine, AfterLine;
    var d := |text| - |rest|;
    var i, k := j + |HeaderList(step.table, off)|, hr[j].start - (off + d);
    assert hs[i] == hr[j];
    CutHead(text, rest, k);
    ScanStep(text[..d + k], st, off);
    assert hs[..i] == HeaderList(step.table, off) + hr[..j];
    assert hs[i..] == hr[j..];
  }

  /** Cutting a text after its first line leaves that line and a cut of the rest. */
  lemma CutHead(text: string, rest: string, k: nat)
    requires text != "" && rest == AfterLine(text) && k < |rest| && EndsLine(rest[..k])
    ensures var d := |text| - |rest|; var head := text[..d + k];
      && text[d + k..] == rest[k..] && head != "" && EndsLine(head)
      && FirstLine(head) == FirstLine(text) && AfterLine(head) == rest[..k]
  {
    var d := |text| - |rest|;
    var head := text[..d + k];
    assert rest == text[d..] && LineLength(text) == d - 1;
    assert text[d + k..] == rest[k..];
    LineLengthAt(head, d - 1);
    if k > 0 { assert head[|head| - 1] == rest[..k][k - 1]; }
  }

  // ---- The scanning loop ------------------------------------------------------------------

  /** The character loop on one line. */
  method ScanChars(line: string, st: State) returns (r: Option<State>)
    ensures r == Chars(line, st)
  {
    var quote, depth, i := st.quote, st.depth, 0;
    while i < |line|
      invariant 0 <= i
      invariant Chars(Drop(line, i), State(quote, depth)) == Chars(line, st)
      decreases |line| - i
    {
      var rest := line[i..];
      var c := line[i];
      assert forall k :: 0 <= k <= 3 ==> Drop(rest, k) == Drop(line, i + k);
      if quote == Basic || quote == BasicMulti {
        if c == '\\' {
          i := i + 2;
          continue;
        }
        if c == '"' {
          if quote == Basic {
            quote := NoQuote;
          } else if StartsWith(rest, "\"\"\"") {
            quote := NoQuote;
            i := i + 2;
          }
        }
        i := i + 1;
        continue;
      }
      if quote == Literal || quote == LiteralMulti {
        if c == '\'' {
          if quote == Literal {
            quote := NoQuote;
          } else if StartsWith(rest, "'''") {
            quote := NoQuote;
            i := i + 2;
          }
        }
        i := i + 1;
        continue;
      }
      if c == '#' {
        return Some(State(quote, depth));
      }
      if c == '"' {
        quote := if StartsWith(rest, "\"\"\"") then BasicMulti else Basic;
      } else if c == '\'' {
        quote := if StartsWith(rest, "'''") then LiteralMulti else Literal;
      } else if c == '[' || c == '{' {
        depth := depth + 1;
      } else if c == ']' || c == '}' {
        if depth == 0 {
          return None;
        }
        depth := depth - 1;
      }
      i := i + 1;
    }
    return Some(State(quote, depth));
  }

  /** One header-delimited stretch of the text: from its header line to the next
      header or the end. */
  datatype Region = Region(path: seq<string>, start: nat, end: nat)

  /** The regions the headers cut a text of length `n` into. */
  function Regions(hs: seq<Header>, n: nat): (r: seq<Region>)
    ensures |r| == |hs|
  {
    seq(|hs|, i requires 0 <= i < |hs| =>
      Region(hs[i].path, hs[i].start, if i + 1 < |hs| then hs[i + 1].start else n))
  }

  /** Opening a region at the end closes the one before it there. */
  function OpenRegion(rs: seq<Region>, path: seq<string>, pos: nat, n: nat): seq<Region>
  {
    (if |rs| > 0 then rs[|rs| - 1 := rs[|rs| - 1].(end := pos)] else rs) + [Region(path, pos, n)]
  }

  lemma RegionsAppend(hs: seq<Header>, path: seq<string>, pos: nat, n: nat)
    ensures Regions(hs + [Header(path, pos)], n) == OpenRegion(Regions(hs, n), path, pos, n)
  {
  }

  /** One pass of the line loop. */
  method ScanLine(raw: string, st: State) returns (r: LineResult)
    ensures r == StepLine(raw, st)
  {
    var line := StripCr(raw);
    var table: Option<seq<string>> := None;
    if st == CLEAN {
      var h := HeaderOf(line);
      if h == BadHeader {
        return Rejected;
      }
      if h.Table? {
        table := Some(h.path);
      }
    }
    var after := ScanChars(line, st);
    if after == None || after.value.quote == Basic || after.value.quote == Literal {
      return Rejected;
    }
    return Line(table, after.value);
  }

  /** `scanTomlRegions`. */
  method ScanTomlRegions(text: string) returns (r: Option<seq<Region>>)
    ensures r == match Headers(text) case None => None case Some(hs) => Some(Regions(hs, |text|))
  {
    hide StepLine, Scan, OpenRegion, Regions;
    var regions: seq<Region> := [];
    var st := CLEAN;
    var pos := 0;
    ghost var hs: seq<Header> := [];
    PrefixedNothing(Headers(text));
    NoRegions(|text|);
    while pos < |text|
      invariant pos <= |text|
      invariant regions == Regions(hs, |text|)
      invariant Prefixed(hs, Scan(text[pos..], st, pos)) == Headers(text)
    {
      var rest := text[pos..];
      var n := LineLength(rest);
      var step := ScanLine(rest[..n], st);
      var next := if n == |rest| then |text| else pos + n + 1;
      assert AfterLine(rest) == text[next..];
      LoopStep(rest, hs, st, pos);
      if step == Rejected {
        return None;
      }
      if step.table.Some? {
        RegionsAppend(hs, step.table.value, pos, |text|);
        regions := OpenRegion(regions, step.table.value, pos, |text|);
      }
      assert step.table.None? ==> hs + HeaderList(step.table, pos) == hs;
      hs := hs + HeaderList(step.table, pos);
      st := step.st;
      pos := next;
    }
    assert text[pos..] == "";
    ScanNothing(st, pos);
    assert st == CLEAN ==> hs + [] == hs;
    if st != CLEAN {
      return None;
    }
    return Some(regions);
  }

  lemma NoRegions(n: nat)
    ensures Regions([], n) == []
  {
  }

  lemma PrefixedNothing(r: Option<seq<Header>>)
    ensures Prefixed([], r) == r
  {
    assert r.Some? ==> [] + r.value == r.value;
  }

  lemma LoopStep(rest: string, hs: seq<Header>, st: State, pos: nat)
    requires rest != ""
    ensures var step := StepLine(FirstLine(rest), st); var after := AfterLine(rest);
      Prefixed(hs, Scan(rest, st, pos)) ==
      if step.Rejected? then None
      else Prefixed(hs + HeaderList(step.table, pos), Scan(after, step.st, pos + |rest| - |after|))
  {
    hide Scan, StepLine, FirstLine, AfterLine;
    ScanStep(rest, st, pos);
    var step, after := StepLine(FirstLine(rest), st), AfterLine(rest);
    if step.Line? {
      var r := Scan(after, step.st, pos + |rest| - |after|);
      assert r.Some? ==> hs + (HeaderList(step.table, pos) + r.value) == hs + HeaderList(step.table, pos) + r.value;
    }
  }
}
