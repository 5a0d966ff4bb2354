/** The SQL scanners of the schema comparison: splitting at top-level commas, and the
    body between matching parentheses. */
module SchemaDrift {
  import opened Options
  import opened Strings

  /** Opening less closing parentheses. */
  function Depth(s: string): int
  {
    if s == "" then 0
    else
      var c := s[|s| - 1];
      Depth(s[..|s| - 1]) + if c == '(' then 1 else if c == ')' then -1 else 0
  }

  lemma {:induction false} DepthAppend(a: string, b: string)
    ensures Depth(a + b) == Depth(a) + Depth(b)
  {
    if b == "" {
      assert a + b == a;
    } else {
      assert (a + b)[..|a + b| - 1] == a + b[..|b| - 1];
      DepthAppend(a, b[..|b| - 1]);
    }
  }

  /** Every comma is inside parentheses. */
  ghost predicate NoTopComma(s: string)
  {
    forall i :: 0 <= i < |s| && s[i] == ',' ==> Depth(s[..i]) != 0
  }

  predicate Blank(s: string)
  {
    Trim(s) == ""
  }

  /** The depth is the number of parentheses opened less that of those closed. */
  lemma {:induction false} DepthExactly(s: string)
    ensures Depth(s) == HowMany(s, c => c == '(') - HowMany(s, c => c == ')')
  {
    if s != "" {
      DepthExactly(s[..|s| - 1]);
      HowManyMore(s, c => c == '(');
      HowManyMore(s, c => c == ')');
    }
  }

  /** A blank text is white space throughout. */
  lemma BlankExactly(s: string)
    ensures Blank(s) <==> forall c :: c in s ==> IsSpace(c)
  {
    if forall c :: c in s ==> IsSpace(c) {
      SpanAll(s, IsSpace);
    } else {
      var c :| c in s && !IsSpace(c);
      var i :| 0 <= i < |s| && s[i] == c;
      assert TrimStart(s)[i - Span(s, IsSpace)] == c;
      TrimEndKeeps(TrimStart(s), c);
    }
  }

  lemma {:induction false} TrimEndKeeps(s: string, c: char)
    requires c in s && !IsSpace(c)
    ensures c in TrimEnd(s)
  {
    if IsSpace(s[|s| - 1]) {
      assert s == s[..|s| - 1] + [s[|s| - 1]];
      TrimEndKeeps(s[..|s| - 1], c);
    }
  }

  // ---- Splitting ---------------------------------------------------------------------------

  /** The loop of `splitTopLevelCommas`: finished parts, depth, current part. */
  datatype Splitting = Splitting(parts: seq<string>, depth: int, current: string)

  function Next(s: Splitting, c: char): Splitting
  {
    if c == '(' then s.(depth := s.depth + 1, current := s.current + [c])
    else if c == ')' then s.(depth := s.depth - 1, current := s.current + [c])
    else if c == ',' && s.depth == 0 then s.(parts := s.parts + [s.current], current := "")
    else s.(current := s.current + [c])
  }

  function Scan(text: string): Splitting
  {
    if text == "" then Splitting([], 0, "") else Next(Scan(text[..|text| - 1]), text[|text| - 1])
  }

  function Finished(s: Splitting): seq<string>
  {
    if Blank(s.current) then s.parts else s.parts + [s.current]
  }

  method SplitTopLevelCommas(text: string) returns (parts: seq<string>)
    ensures parts == Finished(Scan(text))
  {
    parts := [];
    var depth, current := 0, "";
    for i := 0 to |text|
      invariant Scan(text[..i]) == Splitting(parts, depth, current)
    {
      assert text[..i + 1][..i] == text[..i];
      var ch := text[i];
      if ch == '(' {
        depth := depth + 1;
      } else if ch == ')' {
        depth := depth - 1;
      } else if ch == ',' && depth == 0 {
        parts := parts + [current];
        current := "";
        continue;
      }
      current := current + [ch];
    }
    assert text[..|text|] == text;
    if Trim(current) != "" { parts := parts + [current]; }
  }

  /** The parts, with the trailing one whether blank or not. */
  function Pieces(text: string): (r: seq<string>)
    ensures r != []
  {
    Scan(text).parts + [Scan(text).current]
  }

  /** Parts that a top-level comma ends, and a last one; no comma of theirs is top-level. */
  ghost predicate Separable(parts: seq<string>)
  {
    parts != []
    && (forall p :: p in parts ==> NoTopComma(p))
    && (forall i :: 0 <= i < |parts| - 1 ==> Depth(parts[i]) == 0)
  }

  lemma {:induction false} JoinGrows(parts: seq<string>, last: string, more: string)
    ensures Join(parts + [last + more], ",") == Join(parts + [last], ",") + more
  {
    if parts != [] {
      assert (parts + [last + more])[1..] == parts[1..] + [last + more] && (parts + [last])[1..] == parts[1..] + [last];
      JoinGrows(parts[1..], last, more);
    }
  }

  lemma {:induction false} JoinAdds(parts: seq<string>, last: string)
    requires parts != []
    ensures Join(parts + [last], ",") == Join(parts, ",") + "," + last
  {
    if |parts| > 1 {
      assert (parts + [last])[1..] == parts[1..] + [last];
      JoinAdds(parts[1..], last);
    } else {
      assert (parts + [last])[1..] == [last];
    }
  }

  lemma NoTopCommaGrows(s: string, c: char)
    requires NoTopComma(s) && (c == ',' ==> Depth(s) != 0)
    ensures NoTopComma(s + [c])
  {
    var t := s + [c];
    forall i | 0 <= i < |t| && t[i] == ',' ensures Depth(t[..i]) != 0 {
      assert t[..i] == s[..i];
      if i == |s| { assert s[..i] == s; }
    }
  }

  /** Joined by commas the pieces are the text again, whatever the text. */
  lemma {:induction false} PiecesRebuild(text: string)
    ensures Join(Pieces(text), ",") == text
  {
    if text == "" {
      assert Pieces(text) == [""];
    } else {
      var n := |text| - 1;
      var s, c := Scan(text[..n]), text[n];
      PiecesRebuild(text[..n]);
      assert text == text[..n] + [c];
      if c == ',' && s.depth == 0 {
        assert Pieces(text) == Pieces(text[..n]) + [""];
        JoinAdds(Pieces(text[..n]), "");
      } else {
        assert Pieces(text) == s.parts + [s.current + [c]];
        JoinGrows(s.parts, s.current, [c]);
      }
    }
  }

  lemma {:induction false} ScanSeparates(text: string)
    ensures Scan(text).depth == Depth(text) == Depth(Scan(text).current)
    ensures NoTopComma(Scan(text).current)
    ensures forall p :: p in Scan(text).parts ==> NoTopComma(p) && Depth(p) == 0
  {
    if text != "" {
      var n := |text| - 1;
      var s, c := Scan(text[..n]), text[n];
      ScanSeparates(text[..n]);
      assert (s.current + [c])[..|s.current|] == s.current;
      if !(c == ',' && s.depth == 0) { NoTopCommaGrows(s.current, c); }
      hide NoTopComma;
    }
  }

  lemma PiecesSeparable(text: string)
    ensures Separable(Pieces(text))
  {
    ScanSeparates(text);
    hide NoTopComma, Scan;
    var s := Scan(text);
    forall i | 0 <= i < |Pieces(text)| - 1 ensures Depth(Pieces(text)[i]) == 0 { assert s.parts[i] in s.parts; }
  }

  /** A text has only one decomposition of that kind. */
  lemma {:induction false} SeparableUnique(a: seq<string>, b: seq<string>)
    requires Separable(a) && Separable(b) && Join(a, ",") == Join(b, ",")
    ensures a == b
    decreases |a|
  {
    var text := Join(a, ",");
    assert a[0] in a && b[0] in b;
    FirstPart(a);
    FirstPart(b);
    if |a[0]| < |b[0]| {
      LongerHasComma(a, b);
    } else if |b[0]| < |a[0]| {
      LongerHasComma(b, a);
    } else {
      hide Join, NoTopComma, Depth;
      assert a[0] == text[..|a[0]|] == b[0];
      if |a| > 1 {
        TailSeparable(a);
        TailSeparable(b);
        SeparableUnique(a[1..], b[1..]);
      }
      assert a == [a[0]] + a[1..] && b == [b[0]] + b[1..];
    }
  }

  lemma TailSeparable(a: seq<string>)
    requires Separable(a) && |a| > 1
    ensures Separable(a[1..])
  {
    hide NoTopComma;
  }

  lemma FirstPart(a: seq<string>)
    requires a != []
    ensures var text := Join(a, ",");
      && a[0] <= text
      && (|a| == 1 ==> text == a[0])
      && (|a| > 1 ==> |text| > |a[0]| && text[|a[0]|] == ',' && text[|a[0]| + 1..] == Join(a[1..], ","))
  {
  }

  /** A part that goes on past the end of a first part has a top-level comma there. */
  lemma LongerHasComma(a: seq<string>, b: seq<string>)
    requires Separable(a) && b != [] && Join(a, ",") == Join(b, ",") && |a[0]| < |b[0]|
    ensures !NoTopComma(b[0])
  {
    FirstPart(a);
    FirstPart(b);
    assert |a| > 1;
    var k := |a[0]|;
    assert b[0][k] == ',' && b[0][..k] == a[0];
  }

  /** The pieces are the one decomposition of the text at its top-level commas. */
  lemma PiecesAreTheParts(text: string, parts: seq<string>)
    ensures parts == Pieces(text) <==> Separable(parts) && Join(parts, ",") == text
  {
    PiecesSeparable(text);
    PiecesRebuild(text);
    if Separable(parts) && Join(parts, ",") == text { SeparableUnique(parts, Pieces(text)); }
  }

  /** Splitting any text loses at most a trailing blank part. */
  lemma SplitRebuilds(text: string)
    ensures var parts := Finished(Scan(text));
      Join(parts, ",") == text || exists blank :: Blank(blank) && Join(parts + [blank], ",") == text
  {
    PiecesRebuild(text);
  }

  /** Splitting a join gives the list back exactly when its parts are separable and the
      last one is not blank. */
  lemma SplitJoins(parts: seq<string>)
    requires parts != []
    ensures Finished(Scan(Join(parts, ","))) == parts <==> Separable(parts) && !Blank(parts[|parts| - 1])
  {
    var text := Join(parts, ",");
    PiecesAreTheParts(text, parts);
    PiecesRebuild(text);
    if Finished(Scan(text)) == parts {
      if Blank(Scan(text).current) {
        JoinAdds(parts, Scan(text).current);
      }
    }
  }

  // ---- The body between parentheses ---------------------------------------------------------

  function FirstParen(sql: string, from: nat): (r: nat)
    ensures r >= from
    ensures r < |sql| ==> sql[r] == '(' && forall i :: from <= i < r ==> sql[i] != '('
    ensures r >= |sql| ==> forall i :: from <= i < |sql| ==> sql[i] != '('
    decreases |sql| - from
  {
    if from >= |sql| || sql[from] == '(' then from else FirstParen(sql, from + 1)
  }

  function Inside(sql: string, start: nat, end: nat): int
    requires start <= end <= |sql|
  {
    Depth(sql[start..end])
  }

  /** The first place after an opening parenthesis where as many were closed as opened. */
  ghost predicate ClosesAt(sql: string, start: nat, i: nat)
  {
    start < i < |sql| && Inside(sql, start, i + 1) == 0 && forall e :: start < e <= i ==> Inside(sql, start, e) > 0
  }

  method ExtractParenBody(sql: string, fromIndex: nat) returns (body: Option<string>)
    ensures body.Some? ==>
      exists i: nat ::
        ClosesAt(sql, FirstParen(sql, fromIndex), i) && body.value == sql[FirstParen(sql, fromIndex) + 1..i]
    ensures body.None? ==>
      FirstParen(sql, fromIndex) >= |sql| ||
      forall i: nat :: !ClosesAt(sql, FirstParen(sql, fromIndex), i)
  {
    var start := FirstParen(sql, fromIndex);
    if start >= |sql| { return None; }
    var depth := 0;
    for i := start to |sql|
      invariant depth == Inside(sql, start, i) && (i > start ==> depth > 0)
      invariant forall e :: start < e <= i ==> Inside(sql, start, e) > 0
    {
      assert sql[start..i + 1][..i - start] == sql[start..i];
      if sql[i] == '(' {
        depth := depth + 1;
      } else if sql[i] == ')' {
        depth := depth - 1;
        if depth == 0 {
          assert ClosesAt(sql, start, i);
          return Some(sql[start + 1..i]);
        }
      }
    }
    return None;
  }

  /** Every parenthesis that closes was opened, and the other way round. */
  ghost predicate Balanced(s: string)
  {
    Depth(s) == 0 && forall i :: 0 <= i <= |s| ==> Depth(s[..i]) >= 0
  }

  lemma ClosesOnce(sql: string, start: nat, i: nat, j: nat)
    requires ClosesAt(sql, start, i) && ClosesAt(sql, start, j)
    ensures i == j
  {
  }

  function Wrapped(pre: string, body: string, post: string): string
  {
    pre + ("(" + body + ")") + post
  }

  lemma Middle(s: string, a: string, b: string, c: string)
    requires s == a + b + c
    ensures s[|a|..|a| + |b|] == b
  {
  }

  lemma ParenDepths()
    ensures Depth("(") == 1 && Depth(")") == -1
  {
    assert "("[..0] == "" && ")"[..0] == "";
  }

  lemma InsideBody(pre: string, body: string, post: string, k: nat)
    requires k <= |body|
    ensures Inside(Wrapped(pre, body, post), |pre|, |pre| + 1 + k) == 1 + Depth(body[..k])
  {
    var sql, b, c := Wrapped(pre, body, post), "(" + body[..k], body[k..] + ")" + post;
    assert b + (body[k..] + ")") == "(" + body + ")";
    assert sql == pre + b + c;
    Middle(sql, pre, b, c);
    ParenDepths();
    DepthAppend("(", body[..k]);
  }

  lemma InsideAll(pre: string, body: string, post: string)
    ensures Inside(Wrapped(pre, body, post), |pre|, |pre| + 2 + |body|) == Depth(body)
  {
    hide Depth;
    Middle(Wrapped(pre, body, post), pre, "(" + body + ")", post);
    ParenDepths();
    DepthAppend("(" + body, ")");
    DepthAppend("(", body);
  }

  /** In parentheses, a text is closed where it ends exactly when it is balanced. */
  lemma ClosesWhenBalanced(pre: string, body: string, post: string)
    ensures ClosesAt(Wrapped(pre, body, post), |pre|, |pre| + 1 + |body|) <==> Balanced(body)
  {
    var sql, start := Wrapped(pre, body, post), |pre|;
    assert |sql| >= |pre| + 2 + |body|;
    hide Inside, Depth, Wrapped;
    var end := start + 1 + |body|;
    InsideAll(pre, body, post);
    if Balanced(body) {
      forall e | start < e <= end ensures Inside(sql, start, e) > 0 {
        InsideBody(pre, body, post, e - start - 1);
      }
    }
    if ClosesAt(sql, start, end) {
      forall i | 0 <= i <= |body| ensures Depth(body[..i]) >= 0 {
        InsideBody(pre, body, post, i);
        assert Inside(sql, start, start + 1 + i) > 0;
      }
    }
  }

  /** Column definitions in parentheses: the body is found and split into them again. */
  lemma DefinitionsRoundTrip(pre: string, defs: seq<string>, post: string, from: nat)
    requires defs != [] && (forall d :: d in defs ==> Balanced(d) && NoTopComma(d) && !Blank(d))
    requires from <= |pre| && forall i :: from <= i < |pre| ==> pre[i] != '('
    ensures var body := Join(defs, ",");
      var sql := Wrapped(pre, body, post);
      && FirstParen(sql, from) == |pre| && ClosesAt(sql, |pre|, |pre| + 1 + |body|)
      && sql[|pre| + 1..|pre| + 1 + |body|] == body
      && Finished(Scan(body)) == defs
  {
    hide *;
    var body := Join(defs, ",");
    assert defs[|defs| - 1] in defs;
    BalancedJoin(defs);
    ClosesWhenBalanced(pre, body, post);
    OpensWrapped(pre, body, post, from);
    BodyOf(pre, body, post);
    BalancedSeparable(defs);
    SplitJoins(defs);
  }

  lemma OpensWrapped(pre: string, body: string, post: string, from: nat)
    requires from <= |pre| && forall i :: from <= i < |pre| ==> pre[i] != '('
    ensures FirstParen(Wrapped(pre, body, post), from) == |pre|
  {
    var rest := "(" + body + ")" + post;
    assert Wrapped(pre, body, post) == pre + rest;
    OpensThere(pre, rest, from);
  }

  lemma BodyOf(pre: string, body: string, post: string)
    ensures |Wrapped(pre, body, post)| >= |pre| + 2 + |body| &&
      Wrapped(pre, body, post)[|pre| + 1..|pre| + 1 + |body|] == body
  {
    assert Wrapped(pre, body, post) == (pre + "(") + body + (")" + post);
    Middle(Wrapped(pre, body, post), pre + "(", body, ")" + post);
  }

  lemma {:induction false} OpensThere(pre: string, rest: string, from: nat)
    requires from <= |pre| && (forall i :: from <= i < |pre| ==> pre[i] != '(') && rest != "" && rest[0] == '('
    ensures FirstParen(pre + rest, from) == |pre|
    decreases |pre| - from
  {
    assert from < |pre| ==> (pre + rest)[from] == pre[from];
    if from < |pre| { OpensThere(pre, rest, from + 1); }
  }

  lemma BalancedSeparable(defs: seq<string>)
    requires defs != [] && forall d :: d in defs ==> Balanced(d) && NoTopComma(d)
    ensures Separable(defs)
  {
    hide NoTopComma;
    forall i | 0 <= i < |defs| - 1 ensures Depth(defs[i]) == 0 { assert defs[i] in defs; }
  }

  lemma BalancedAppend(a: string, b: string)
    requires Balanced(a) && Balanced(b)
    ensures Balanced(a + b)
  {
    DepthAppend(a, b);
    forall i | 0 <= i <= |a + b| ensures Depth((a + b)[..i]) >= 0 {
      if i <= |a| {
        assert (a + b)[..i] == a[..i];
      } else {
        assert (a + b)[..i] == a + b[..i - |a|];
        DepthAppend(a, b[..i - |a|]);
      }
    }
  }

  lemma {:induction false} BalancedJoin(defs: seq<string>)
    requires defs != [] && forall d :: d in defs ==> Balanced(d)
    ensures Balanced(Join(defs, ","))
  {
    hide Balanced;
    assert defs[0] in defs;
    if |defs| > 1 {
      BalancedJoin(defs[1..]);
      assert Balanced(",") by { CommaBalanced(); }
      BalancedAppend(defs[0], ",");
      BalancedAppend(defs[0] + ",", Join(defs[1..], ","));
    }
  }

  lemma CommaBalanced()
    ensures Balanced(",")
  {
    assert ","[..0] == "" && ","[..1] == ",";
  }

  /** A text with a list of column definitions in parentheses, the first to open at or after `from`. */
  ghost predicate Declares(sql: string, from: nat, pre: string, defs: seq<string>, post: string)
  {
    && sql == Wrapped(pre, Join(defs, ","), post)
    && defs != [] && (forall d :: d in defs ==> Balanced(d) && NoTopComma(d) && !Blank(d))
    && from <= |pre| && forall i :: from <= i < |pre| ==> pre[i] != '('
  }

  /** The parts of a table's body, as its columns are read from them; none without a body. */
  method BodyParts(sql: string, from: nat) returns (parts: seq<string>)
    ensures forall pre, defs, post :: Declares(sql, from, pre, defs, post) ==> parts == defs
  {
    hide *;
    var body := ExtractParenBody(sql, from);
    forall pre, defs, post | Declares(sql, from, pre, defs, post)
      ensures body.Some? && body.value != "" && Finished(Scan(body.value)) == defs
    {
      BodyIs(sql, from, pre, defs, post, body);
    }
    if body.None? || body.value == "" { return []; }
    parts := SplitTopLevelCommas(body.value);
  }

  /** The body extracted from such a text is the joined list, and it is split into the list. */
  lemma BodyIs(sql: string, from: nat, pre: string, defs: seq<string>, post: string, body: Option<string>)
    requires Declares(sql, from, pre, defs, post)
    requires body.Some? ==>
      exists i: nat ::
        ClosesAt(sql, FirstParen(sql, from), i) && body.value == sql[FirstParen(sql, from) + 1..i]
    requires body.None? ==> FirstParen(sql, from) >= |sql| || forall i: nat :: !ClosesAt(sql, FirstParen(sql, from), i)
    ensures body == Some(Join(defs, ",")) && body.value != "" && Finished(Scan(body.value)) == defs
  {
    hide Balanced, NoTopComma, Blank, Wrapped, Join, Scan, Finished, Inside;
    DefinitionsRoundTrip(pre, defs, post, from);
    var start, end := FirstParen(sql, from), |pre| + 1 + |Join(defs, ",")|;
    assert ClosesAt(sql, start, end);
    var i: nat :| ClosesAt(sql, start, i) && body.value == sql[start + 1..i];
    ClosesOnce(sql, start, i, end);
    if body.value == "" { EmptySplits(); }
  }

  lemma EmptySplits()
    ensures Finished(Scan("")) == []
  {
  }
}
