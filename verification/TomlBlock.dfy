/** The server block that `connect` writes, and how the scanner reads it back. */
module TomlBlock {
  import opened Options
  import opened Strings
  import opened TomlScanner
  import opened TomlPieces

  /** The table name the entry is written under. */
  function ServerKey(): string
  {
    "groundfloor-atlas"
  }

  /** The names earlier releases used. */
  function LegacyKeys(): seq<string>
  {
    ["atlas", "lorebase"]
  }

  function MainName(root: string): string
  {
    root + "." + ServerKey()
  }

  function EnvName(root: string): string
  {
    root + "." + ServerKey() + ".env"
  }

  // ---- Rendering -------------------------------------------------------------------

  function HexDigit(d: nat): char
    requires d < 16
  {
    "0123456789abcdef"[d]
  }

  /** How `JSON.stringify` writes one character of a string. */
  function EscapeChar(c: char): string
  {
    if c == '"' then "\\\""
    else if c == '\\' then "\\\\"
    else if c == '\U{8}' then "\\b"
    else if c == '\U{C}' then "\\f"
    else if c == '\n' then "\\n"
    else if c == '\r' then "\\r"
    else if c == '\t' then "\\t"
    else if c < ' ' then "\\u00" + [HexDigit(c as int / 16), HexDigit(c as int % 16)]
    else [c]
  }

  function Escape(s: string): string
  {
    if s == "" then "" else EscapeChar(s[0]) + Escape(s[1..])
  }

  function Json(s: string): string
  {
    "\"" + Escape(s) + "\""
  }

  function JsonList(args: seq<string>): seq<string>
  {
    if args == [] then [] else [Json(args[0])] + JsonList(args[1..])
  }

  /** An environment table: keys and values in order. */
  type Env = seq<(string, string)>

  datatype Entry = Entry(command: string, args: seq<string>, env: Option<Env>)

  function EnvLine(kv: (string, string)): string
  {
    kv.0 + " = " + Json(kv.1)
  }

  function EnvLines(env: Env): seq<string>
  {
    if env == [] then [] else [EnvLine(env[0])] + EnvLines(env[1..])
  }

  function HeaderText(name: string): string
  {
    "[" + name + "]"
  }

  function CommandLine(entry: Entry): string
  {
    "command = " + Json(entry.command)
  }

  function ArgsLine(entry: Entry): string
  {
    "args = [" + Join(JsonList(entry.args), ", ") + "]"
  }

  /** The lines of the block. */
  function BlockLines(root: string, entry: Entry): seq<string>
  {
    [HeaderText(MainName(root)), CommandLine(entry), ArgsLine(entry)] +
    if entry.env.None? then []
    else ["", HeaderText(EnvName(root))] + EnvLines(entry.env.value)
  }

  function TomlServerBlock(root: string, entry: Entry): string
  {
    Join(BlockLines(root, entry), "\n") + "\n\n"
  }

  /** The entry `connect` writes for Codex: a bridge process with the token in its
      environment. */
  function CodexEntry(url: string, token: string): Entry
  {
    Entry("npx", ["-y", "mcp-remote", url, "--header", "Authorization: Bearer ${ATLAS_MCP_TOKEN}"],
          Some([("ATLAS_MCP_TOKEN", token)]))
  }

  ghost predicate BareName(s: string)
  {
    s != "" && forall c :: c in s ==> IsBare(c)
  }

  /** What the block needs of its caller: a bare root table name and bare
      environment keys. */
  ghost predicate Renderable(root: string, entry: Entry)
  {
    && BareName(root) && '.' !in root
    && (entry.env.Some? ==> forall kv :: kv in entry.env.value ==> BareName(kv.0))
  }

  // ---- Strings read back ----------------------------------------------------------------

  lemma EscapedInside(c: char, rest: string, d: nat)
    ensures Chars(EscapeChar(c) + rest, State(Basic, d)) == Chars(rest, State(Basic, d))
  {
    var st := State(Basic, d);
    var e := EscapeChar(c);
    if |e| == 1 {
      assert e + rest == [c] + rest;
      assert ([c] + rest)[1..] == rest;
    } else {
      EscapePair(e[1], e[2..] + rest, d);
      assert e == ['\\', e[1]] + e[2..];
      assert e + rest == ['\\', e[1]] + (e[2..] + rest);
      if |e| == 6 {
        var h := e[2..];
        assert h[0] == '0' && h[1] == '0';
        OrdinaryInside(h, rest, d);
      } else {
        assert e[2..] + rest == rest;
      }
    }
  }

  lemma EscapePair(x: char, rest: string, d: nat)
    ensures Chars(['\\', x] + rest, State(Basic, d)) == Chars(rest, State(Basic, d))
  {
    assert Drop(['\\', x] + rest, 2) == rest;
  }

  lemma {:induction false} OrdinaryInside(h: string, rest: string, d: nat)
    requires forall c :: c in h ==> c != '\\' && c != '"'
    ensures Chars(h + rest, State(Basic, d)) == Chars(rest, State(Basic, d))
  {
    if h == "" {
      assert h + rest == rest;
    } else {
      assert h[0] in h && (h + rest)[1..] == h[1..] + rest;
      assert forall c :: c in h[1..] ==> c in h;
      OrdinaryInside(h[1..], rest, d);
    }
  }

  lemma {:induction false} EscapeInside(s: string, rest: string, d: nat)
    ensures Chars(Escape(s) + rest, State(Basic, d)) == Chars(rest, State(Basic, d))
  {
    if s == "" {
      assert Escape(s) + rest == rest;
    } else {
      assert Escape(s) + rest == EscapeChar(s[0]) + (Escape(s[1..]) + rest);
      EscapedInside(s[0], Escape(s[1..]) + rest, d);
      EscapeInside(s[1..], rest, d);
    }
  }

  /** A rendered string is skipped over, whatever it holds. */
  lemma JsonSkipped(s: string, rest: string, d: nat)
    requires rest == "" || rest[0] != '"'
    ensures Chars(Json(s) + rest, State(NoQuote, d)) == Chars(rest, State(NoQuote, d))
  {
    var t := Json(s) + rest;
    var inner := Escape(s) + ("\"" + rest);
    assert t == "\"" + inner && t[1..] == inner;
    assert !StartsWith(t, "\"\"\"") by {
      if s == "" {
        assert inner == "\"" + rest;
        if rest != "" { assert t[2] == rest[0]; }
      } else {
        assert t[1] == EscapeChar(s[0])[0];
      }
    }
    EscapeInside(s, "\"" + rest, d);
    assert ("\"" + rest)[1..] == rest;
  }

  /** Characters that open nothing and close nothing. */
  predicate Inert(c: char)
  {
    c != '#' && c != '"' && c != '\'' && c != '[' && c != ']' && c != '{' && c != '}'
  }

  lemma {:induction false} InertSkipped(p: string, rest: string, d: nat)
    requires forall c :: c in p ==> Inert(c)
    ensures Chars(p + rest, State(NoQuote, d)) == Chars(rest, State(NoQuote, d))
  {
    if p == "" {
      assert p + rest == rest;
    } else {
      assert p[0] in p && (p + rest)[1..] == p[1..] + rest;
      InertSkipped(p[1..], rest, d);
    }
  }

  lemma {:induction false} ListSkipped(args: seq<string>, rest: string, d: nat)
    requires rest != "" && rest[0] != '"'
    ensures Chars(Join(JsonList(args), ", ") + rest, State(NoQuote, d)) == Chars(rest, State(NoQuote, d))
  {
    var t := Join(JsonList(args), ", ");
    if args == [] {
      assert t + rest == rest;
    } else if |args| == 1 {
      assert JsonList(args) == [Json(args[0])];
      JsonSkipped(args[0], rest, d);
    } else {
      var more := Join(JsonList(args[1..]), ", ") + rest;
      assert JsonList(args)[1..] == JsonList(args[1..]) && |JsonList(args)| > 1 by {
        assert |JsonList(args[1..])| > 0;
      }
      assert t == Json(args[0]) + ", " + Join(JsonList(args[1..]), ", ");
      assert t + rest == Json(args[0]) + (", " + more);
      JsonSkipped(args[0], ", " + more, d);
      InertSkipped(", ", more, d);
      ListSkipped(args[1..], rest, d);
    }
  }

  // ---- No newline inside a line --------------------------------------------------------------

  lemma {:induction false} EscapeNoNewline(s: string)
    ensures '\n' !in Escape(s)
  {
    if s != "" {
      EscapeNoNewline(s[1..]);
      var e := EscapeChar(s[0]);
      if |e| == 6 {
        var v := s[0] as int;
        assert HexDigit(v / 16) in "0123456789abcdef" && HexDigit(v % 16) in "0123456789abcdef";
      }
      assert '\n' !in e;
    }
  }

  lemma {:induction false} ListNoNewline(args: seq<string>)
    ensures '\n' !in Join(JsonList(args), ", ")
  {
    if args != [] {
      EscapeNoNewline(args[0]);
      ListNoNewline(args[1..]);
      assert JsonList(args)[1..] == JsonList(args[1..]);
    }
  }

  // ---- Lines that open no table -----------------------------------------------------------------

  /** A complete line that opens no table and leaves the scanner clean. */
  ghost predicate Quiet(line: string)
  {
    '\n' !in line && StepLine(line, CLEAN) == Line(None, CLEAN)
  }

  ghost predicate Heads(line: string, path: seq<string>)
  {
    '\n' !in line && StepLine(line, CLEAN) == Line(Some(path), CLEAN)
  }

  lemma QuietValue(key: string, value: string)
    requires BareName(key) && '\n' !in value && value != "" && value[|value| - 1] != '\r'
    requires Chars(value, CLEAN) == Some(CLEAN)
    ensures Quiet(key + " = " + value)
  {
    var line := key + " = " + value;
    assert key[0] in key;
    assert line[0] == key[0] && !IsSpace(line[0]) && line[0] != '[';
    assert line[Span(line, IsSpace)..] == line;
    assert StripCr(line) == line;
    assert line == key + " = " + value == (key + " = ") + value;
    forall c | c in key + " = " ensures Inert(c) {
      assert c in key || c == ' ' || c == '=';
    }
    InertSkipped(key + " = ", value, 0);
    assert '\n' !in key;
  }

  lemma QuietJson(key: string, text: string)
    requires BareName(key)
    ensures Quiet(key + " = " + Json(text))
  {
    hide Escape, Chars, BareName, Quiet;
    JsonSkipped(text, "", 0);
    assert Json(text) + "" == Json(text);
    CharsNothing(CLEAN);
    EscapeNoNewline(text);
    QuietValue(key, Json(text));
  }

  lemma CharsNothing(st: State)
    ensures Chars("", st) == Some(st)
  {
  }

  lemma QuietCommand(entry: Entry)
    ensures Quiet(CommandLine(entry))
  {
    hide Json, BareName, Quiet;
    CommandIsBare();
    QuietJson("command", entry.command);
    assert CommandLine(entry) == "command" + " = " + Json(entry.command);
  }

  lemma CommandIsBare()
    ensures BareName("command") && BareName("args") && BareName(ServerKey()) && BareName("env")
    ensures '.' !in ServerKey() && '.' !in "env"
  {
  }

  lemma ListValueClean(args: seq<string>)
    ensures Chars("[" + Join(JsonList(args), ", ") + "]", CLEAN) == Some(CLEAN)
  {
    hide Join, JsonList;
    var list := Join(JsonList(args), ", ");
    var value := "[" + list + "]";
    assert value == "[" + (list + "]") && value[1..] == list + "]";
    ListSkipped(args, "]", 1);
    assert "]"[1..] == "";
    assert Chars("]", State(NoQuote, 1)) == Some(CLEAN);
  }

  lemma QuietArgs(entry: Entry)
    ensures Quiet(ArgsLine(entry))
  {
    hide Join, JsonList, Chars, BareName, Quiet;
    var value := "[" + Join(JsonList(entry.args), ", ") + "]";
    ListNoNewline(entry.args);
    ListValueClean(entry.args);
    CommandIsBare();
    QuietValue("args", value);
    assert ArgsLine(entry) == "args" + " = " + value;
  }

  lemma QuietEnv(kv: (string, string))
    requires BareName(kv.0)
    ensures Quiet(EnvLine(kv))
  {
    hide Json, BareName, Quiet;
    QuietJson(kv.0, kv.1);
  }

  lemma QuietBlank()
    ensures Quiet("")
  {
  }

  lemma NameHeader(name: string)
    requires BareName(name)
    ensures HeaderOf(HeaderText(name)) == Table(Split(name, "."))
  {
    hide Split;
    var t := HeaderText(name);
    SpanStops(t, 0, IsSpace);
    assert t[0..] == t;
    var inner := name + "]";
    assert t[1..] == inner;
    assert name[0] in name && inner[0] == name[0];
    SpanStops(inner, 0, IsSpace);
    assert inner[0..] == inner;
    forall i | 0 <= i < |name| ensures IsBare(inner[i]) { assert inner[i] == name[i] && name[i] in name; }
    SpanStops(inner, |name|, IsBare);
    assert inner[|name|..] == "]" && inner[..|name|] == name;
    SpanStops("]", 0, IsSpace);
    assert "]"[0..] == "]" && "]"[1..] == "";
  }

  lemma NameChars(name: string)
    requires BareName(name)
    ensures Chars(HeaderText(name), CLEAN) == Some(CLEAN)
  {
    forall c | c in name ensures Inert(c) {}
    var t := HeaderText(name);
    assert t == "[" + (name + "]") && t[1..] == name + "]";
    InertSkipped(name, "]", 1);
    assert "]"[1..] == "";
    assert Chars("]", State(NoQuote, 1)) == Some(CLEAN);
  }

  /** A bracketed bare name is the header of the table it spells. */
  lemma HeadsName(name: string)
    requires BareName(name)
    ensures Heads(HeaderText(name), Split(name, "."))
  {
    hide Split, HeaderOf, Chars;
    NameHeader(name);
    NameChars(name);
    assert '\n' !in name;
    assert StripCr(HeaderText(name)) == HeaderText(name);
  }

  // ---- The block as pieces ------------------------------------------------------------------------

  /** Lines with their newlines. */
  function Lines(ls: seq<string>): string
  {
    if ls == [] then "" else ls[0] + "\n" + Lines(ls[1..])
  }

  lemma {:induction false} LinesAppend(a: seq<string>, b: seq<string>)
    ensures Lines(a + b) == Lines(a) + Lines(b)
  {
    if a == [] {
      assert a + b == b;
    } else {
      assert (a + b)[1..] == a[1..] + b;
      LinesAppend(a[1..], b);
    }
  }

  lemma {:induction false} JoinIsLines(ls: seq<string>)
    requires ls != []
    ensures Join(ls, "\n") + "\n" == Lines(ls)
  {
    if |ls| > 1 {
      JoinIsLines(ls[1..]);
    }
  }

  /** A complete line is scanned by itself. */
  lemma LineThen(line: string, rest: string, table: Option<seq<string>>, off: nat)
    requires '\n' !in line && StepLine(line, CLEAN) == Line(table, CLEAN)
    ensures Scan(line + "\n" + rest, CLEAN, off) ==
            Prefixed(HeaderList(table, off), Scan(rest, CLEAN, off + |line| + 1))
  {
    hide Scan, StepLine;
    var text := line + "\n" + rest;
    LineLengthAt(text, |line|);
    assert FirstLine(text) == line && AfterLine(text) == rest;
    ScanStep(text, CLEAN, off);
  }

  lemma {:induction false} QuietLines(ls: seq<string>, off: nat)
    requires forall l :: l in ls ==> Quiet(l)
    ensures Scan(Lines(ls), CLEAN, off) == Some([])
  {
    hide Scan, StepLine;
    if ls == [] {
      ScanNothing(CLEAN, off);
    } else {
      assert ls[0] in ls;
      QuietLines(ls[1..], off + |ls[0]| + 1);
      LineThen(ls[0], Lines(ls[1..]), None, off);
      var none: seq<Header> := [];
      assert none + none == none;
    }
  }

  /** A header line and quiet lines after it are one piece. */
  lemma TableLines(name: string, ls: seq<string>)
    requires BareName(name) && forall l :: l in ls ==> Quiet(l)
    ensures PieceOk(Piece(Split(name, "."), Lines([HeaderText(name)] + ls)))
  {
    hide Scan, StepLine, Split, BareName, HeaderText;
    HeadsName(name);
    QuietLines(ls, |HeaderText(name)| + 1);
    LineThen(HeaderText(name), Lines(ls), Some(Split(name, ".")), 0);
    assert ([HeaderText(name)] + ls)[1..] == ls;
    var h := [Header(Split(name, "."), 0)];
    assert h + [] == h;
  }

  function MainLines(entry: Entry): seq<string>
  {
    [CommandLine(entry), ArgsLine(entry), ""]
  }

  function EnvTableLines(env: Env): seq<string>
  {
    EnvLines(env) + [""]
  }

  /** The block's one or two tables. */
  function BlockPieces(root: string, entry: Entry): seq<Piece>
  {
    [Piece([root, ServerKey()], Lines([HeaderText(MainName(root))] + MainLines(entry)))] +
    if entry.env.None? then []
    else [Piece([root, ServerKey(), "env"], Lines([HeaderText(EnvName(root))] + EnvTableLines(entry.env.value)))]
  }

  lemma BlockIsPieces(root: string, entry: Entry)
    ensures TomlServerBlock(root, entry) == Concat(BlockPieces(root, entry))
  {
    hide HeaderText, CommandLine, ArgsLine, EnvLine, Join, Lines, Concat, MainName, EnvName, ServerKey;
    var ls := BlockLines(root, entry);
    JoinIsLines(ls);
    BlankLast(ls);
    assert TomlServerBlock(root, entry) == Join(ls, "\n") + "\n" + "\n";
    var main := [HeaderText(MainName(root))] + MainLines(entry);
    var p := Piece([root, ServerKey()], Lines(main));
    if entry.env.None? {
      assert ls + [""] == main;
      assert BlockPieces(root, entry) == [p];
      ConcatFew(p, p);
    } else {
      var sub := [HeaderText(EnvName(root))] + EnvTableLines(entry.env.value);
      assert ls + [""] == main + sub;
      LinesAppend(main, sub);
      ConcatFew(p, Piece([root, ServerKey(), "env"], Lines(sub)));
    }
  }

  lemma ConcatFew(p: Piece, q: Piece)
    ensures Concat([p]) == p.text && Concat([p] + [q]) == p.text + q.text
  {
    assert ([p] + [q])[1..] == [q] && [p][1..] == [] && [q][1..] == [];
    assert p.text + "" == p.text && q.text + "" == q.text;
  }

  lemma BlankLast(ls: seq<string>)
    ensures Lines(ls + [""]) == Lines(ls) + "\n"
  {
    LinesAppend(ls, [""]);
    assert Lines([""]) == "\n";
  }

  lemma {:induction false} EnvQuiet(env: Env)
    requires forall kv :: kv in env ==> BareName(kv.0)
    ensures forall l :: l in EnvLines(env) ==> Quiet(l)
  {
    hide Quiet, BareName, EnvLine;
    if env != [] {
      QuietEnv(env[0]);
      EnvQuiet(env[1..]);
    }
  }

  /** Reading the rendered block back gives exactly its own tables. */
  lemma BlockPiecesOk(root: string, entry: Entry)
    requires Renderable(root, entry)
    ensures PiecesOk(BlockPieces(root, entry))
  {
    hide BareName, HeaderText, PieceOk, MainName, EnvName, ServerKey, EndsLine, Lines;
    MainPieceOk(root, entry);
    LinesEndLine([HeaderText(MainName(root))] + MainLines(entry));
    if entry.env.Some? {
      EnvPieceOk(root, entry.env.value);
    }
  }

  lemma MainPieceOk(root: string, entry: Entry)
    requires BareName(root) && '.' !in root
    ensures PieceOk(Piece([root, ServerKey()], Lines([HeaderText(MainName(root))] + MainLines(entry))))
  {
    hide Quiet, BareName, HeaderText, Lines, PieceOk, MainName, EnvName, ServerKey, CommandLine, ArgsLine;
    NamesBare(root);
    NamesSplit(root);
    QuietCommand(entry);
    QuietArgs(entry);
    QuietBlank();
    TableLines(MainName(root), MainLines(entry));
  }

  lemma EnvPieceOk(root: string, env: Env)
    requires BareName(root) && '.' !in root && forall kv :: kv in env ==> BareName(kv.0)
    ensures PieceOk(Piece([root, ServerKey(), "env"], Lines([HeaderText(EnvName(root))] + EnvTableLines(env))))
  {
    hide Quiet, BareName, HeaderText, Lines, PieceOk, MainName, EnvName, ServerKey;
    NamesBare(root);
    NamesSplit(root);
    EnvQuiet(env);
    QuietBlank();
    TableLines(EnvName(root), EnvTableLines(env));
  }

  lemma {:induction false} LinesEndLine(ls: seq<string>)
    ensures EndsLine(Lines(ls))
  {
    if ls != [] { LinesEndLine(ls[1..]); }
  }

  lemma NamesBare(root: string)
    requires BareName(root)
    ensures BareName(MainName(root)) && BareName(EnvName(root))
  {
    CommandIsBare();
    var sub := "." + ServerKey() + ".env";
    assert forall c :: c in MainName(root) ==> c in root || c == '.' || c in ServerKey();
    assert forall c :: c in EnvName(root) ==> c in root || c == '.' || c in ServerKey() || c in "env";
  }

  lemma NamesSplit(root: string)
    requires '.' !in root
    ensures Split(MainName(root), ".") == [root, ServerKey()]
    ensures Split(EnvName(root), ".") == [root, ServerKey(), "env"]
  {
    CommandIsBare();
    hide Split, ServerKey;
    var key := ServerKey();
    SplitJoined(root, key, ".");
    assert EnvName(root) == root + "." + (key + "." + "env");
    SplitFirst(root, key + "." + "env", ".");
    SplitJoined(key, "env", ".");
    assert [root] + [key, "env"] == [root, key, "env"];
  }

  /** The Codex entry meets what rendering needs, whatever the url and token are. */
  lemma CodexRenderable(url: string, token: string)
    ensures Renderable("mcp_servers", CodexEntry(url, token))
  {
  }
}
