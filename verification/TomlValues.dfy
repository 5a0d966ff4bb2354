/** The values of the rendered block, read back by the rules of TOML basic strings (TOML v1.0.0,
    "String"). */
module TomlValues {
  import opened Options
  import opened Strings
  import opened TomlScanner
  import opened TomlBlock

  // ---- A reader of basic strings -------------------------------------------------------------

  /** What was read, and the text after it. */
  type Reading = Option<(string, string)>

  function Prepend(c: char, r: Reading): Reading
  {
    if r.Some? then Some(([c] + r.value.0, r.value.1)) else None
  }

  function HexValue(c: char): Option<nat>
  {
    if '0' <= c <= '9' then Some((c - '0') as nat)
    else if 'a' <= c <= 'f' then Some((c - 'a') as nat + 10)
    else None
  }

  /** The character of four hexadecimal digits, among the control characters. */
  function UnicodeEscape(h: string): Option<char>
  {
    if |h| < 4 || h[0] != '0' || h[1] != '0' || HexValue(h[2]).None? || HexValue(h[3]).None? then None
    else Some((HexValue(h[2]).value * 16 + HexValue(h[3]).value) as char)
  }

  /** Reads up to the closing quote. */
  function ReadRest(t: string): Reading
    decreases |t|
  {
    if t == "" then None
    else if t[0] == '"' then Some(("", t[1..]))
    else if t[0] != '\\' then Prepend(t[0], ReadRest(t[1..]))
    else if |t| < 2 then None
    else
      match t[1]
      case '"' => Prepend('"', ReadRest(t[2..]))
      case '\\' => Prepend('\\', ReadRest(t[2..]))
      case 'b' => Prepend('\U{8}', ReadRest(t[2..]))
      case 'f' => Prepend('\U{C}', ReadRest(t[2..]))
      case 'n' => Prepend('\n', ReadRest(t[2..]))
      case 'r' => Prepend('\r', ReadRest(t[2..]))
      case 't' => Prepend('\t', ReadRest(t[2..]))
      case 'u' =>
        var c := UnicodeEscape(t[2..]);
        if c.Some? then Prepend(c.value, ReadRest(t[6..])) else None
      case _ => None
  }

  function ReadString(t: string): Reading
  {
    if t == "" || t[0] != '"' then None else ReadRest(t[1..])
  }

  /** Reads `"..", "..", ...]`, or `]` alone. */
  function ReadList(t: string): Option<seq<string>>
    decreases |t|
  {
    if t == "]" then Some([])
    else
      var first := ReadString(t);
      if first.None? then None
      else
        var after := first.value.1;
        if after == "]" then Some([first.value.0])
        else if |after| > 2 && after[..2] == ", " && |after| < |t| then
          var rest := ReadList(after[2..]);
          if rest.Some? then Some([first.value.0] + rest.value) else None
        else None
  }

  // ---- What is rendered is read back ------------------------------------------------------------

  lemma ControlReads(c: char, rest: string)
    requires c < ' '
    ensures var h := "00" + [HexDigit(c as int / 16), HexDigit(c as int % 16)];
      UnicodeEscape(h + rest) == Some(c)
  {
    var a, b := c as int / 16, c as int % 16;
    assert HexValue(HexDigit(a)) == Some(a) && HexValue(HexDigit(b)) == Some(b) by {
      HexDigitReads(a);
      HexDigitReads(b);
    }
  }

  lemma HexDigitReads(d: nat)
    requires d < 16
    ensures HexValue(HexDigit(d)) == Some(d)
  {
  }

  lemma EscapeCharReads(c: char, rest: string)
    ensures ReadRest(EscapeChar(c) + rest) == Prepend(c, ReadRest(rest))
  {
    var e := EscapeChar(c);
    var t := e + rest;
    if |e| == 1 {
      assert t[0] == c && t[1..] == rest;
    } else if |e| == 2 {
      assert t[0] == '\\' && t[1] == e[1] && t[2..] == rest;
    } else {
      var h := "00" + [HexDigit(c as int / 16), HexDigit(c as int % 16)];
      assert e == "\\u" + h by { assert "\\u00" == "\\u" + "00"; }
      ControlReads(c, rest);
      hide *;
      UnicodeReads(h, c, rest);
    }
  }

  lemma UnicodeReads(h: string, c: char, rest: string)
    requires |h| == 4 && UnicodeEscape(h + rest) == Some(c)
    ensures ReadRest("\\u" + h + rest) == Prepend(c, ReadRest(rest))
  {
    hide UnicodeEscape, Prepend;
    var t := "\\u" + h + rest;
    assert t[0] == '\\' && t[1] == 'u' && t[2..] == h + rest && t[6..] == rest;
  }

  lemma {:induction false} EscapeReads(s: string, rest: string)
    ensures ReadRest(Escape(s) + "\"" + rest) == Some((s, rest))
  {
    hide EscapeChar;
    if s == "" {
      assert "" + "\"" + rest == "\"" + rest && ("\"" + rest)[1..] == rest;
    } else {
      var tail := Escape(s[1..]) + "\"" + rest;
      assert Escape(s) + "\"" + rest == EscapeChar(s[0]) + tail;
      EscapeCharReads(s[0], tail);
      EscapeReads(s[1..], rest);
      hide ReadRest;
      assert s == [s[0]] + s[1..];
    }
  }

  /** A rendered string is read back, whatever it holds and whatever follows it. */
  lemma JsonReads(s: string, rest: string)
    ensures ReadString(Json(s) + rest) == Some((s, rest))
  {
    hide ReadRest, Escape;
    EscapeReads(s, rest);
    assert (Json(s) + rest)[1..] == Escape(s) + "\"" + rest;
  }

  lemma {:induction false} ListReads(args: seq<string>)
    ensures ReadList(Join(JsonList(args), ", ") + "]") == Some(args)
  {
    hide Json, ReadString;
    var js := JsonList(args);
    if args == [] {
      assert "" + "]" == "]";
    } else {
      assert js[0] == Json(args[0]) && js[1..] == JsonList(args[1..]);
      JsonQuote(args[0]);
      if |args| == 1 {
        assert JsonList([]) == [] && js == [Json(args[0])];
        JsonReads(args[0], "]");
        assert args == [args[0]];
      } else {
        assert |JsonList(args[1..])| > 0;
        var more := Join(js[1..], ", ") + "]";
        var t := Join(js, ", ") + "]";
        assert t == Json(args[0]) + (", " + more);
        JsonReads(args[0], ", " + more);
        assert (", " + more)[..2] == ", " && (", " + more)[2..] == more;
        ListReads(args[1..]);
        MoreNonEmpty(args[1..]);
        assert args == [args[0]] + args[1..];
      }
    }
  }

  lemma JsonQuote(s: string)
    ensures |Json(s)| >= 2 && Json(s)[0] == '"'
  {
  }

  lemma MoreNonEmpty(args: seq<string>)
    requires args != []
    ensures |Join(JsonList(args), ", ") + "]"| > 0
  {
  }

  // ---- The block ------------------------------------------------------------------------------------

  /** `key = ` and a string, nothing more. */
  ghost predicate Sets(line: string, key: string, value: string)
  {
    exists v :: line == key + " = " + v && ReadString(v) == Some((value, ""))
  }

  ghost predicate SetsList(line: string, key: string, values: seq<string>)
  {
    exists v :: line == key + " = [" + v && ReadList(v) == Some(values)
  }

  /** The lines of a server table and, after an empty line, its environment table. */
  ghost predicate Says(ls: seq<string>, root: string, entry: Entry)
  {
    var n := if entry.env.None? then 0 else 2 + |entry.env.value|;
    && |ls| == 3 + n
    && ls[0] == "[" + root + ".groundfloor-atlas]" && Sets(ls[1], "command", entry.command)
    && SetsList(ls[2], "args", entry.args)
    && (entry.env.Some? ==>
          && ls[3] == "" && ls[4] == "[" + root + ".groundfloor-atlas.env]"
          && forall i :: 0 <= i < |entry.env.value| ==> Sets(ls[5 + i], entry.env.value[i].0, entry.env.value[i].1))
  }

  lemma JsonSets(key: string, value: string)
    ensures Sets(key + " = " + Json(value), key, value)
  {
    hide Json, ReadString;
    JsonReads(value, "");
    assert Json(value) + "" == Json(value);
  }

  lemma {:induction false} EnvSays(env: Env)
    ensures |EnvLines(env)| == |env|
    ensures forall i :: 0 <= i < |env| ==> Sets(EnvLines(env)[i], env[i].0, env[i].1)
  {
    hide Sets, Json;
    if env != [] {
      JsonSets(env[0].0, env[0].1);
      EnvSays(env[1..]);
    }
  }

  lemma LinesSay(root: string, entry: Entry)
    ensures Says(BlockLines(root, entry), root, entry)
  {
    hide Sets, SetsList, Json, JsonList, ReadList, Join, EnvLines;
    JsonSets("command", entry.command);
    assert CommandLine(entry) == "command" + " = " + Json(entry.command);
    ArgsSay(entry);
    assert HeaderText(MainName(root)) == "[" + root + ".groundfloor-atlas]";
    if entry.env.Some? {
      EnvSays(entry.env.value);
      assert HeaderText(EnvName(root)) == "[" + root + ".groundfloor-atlas.env]";
    }
  }

  lemma ArgsSay(entry: Entry)
    ensures SetsList(ArgsLine(entry), "args", entry.args)
  {
    hide ReadList, Join, JsonList;
    var v := Join(JsonList(entry.args), ", ") + "]";
    ListReads(entry.args);
    assert ArgsLine(entry) == "args" + " = [" + v;
  }

  /** The rendered block is read back as the entry: its lines are the two tables with the command,
      the arguments and the environment, and two empty lines end it. */
  lemma BlockSays(root: string, entry: Entry)
    requires Renderable(root, entry)
    ensures exists ls :: Says(ls, root, entry) && Split(TomlServerBlock(root, entry), "\n") == ls + ["", ""]
  {
    var ls := BlockLines(root, entry);
    LinesSay(root, entry);
    NoNewlines(root, entry);
    hide *;
    BlockJoined(root, entry);
    assert forall l :: l in ls + ["", ""] ==> '\n' !in l;
    SplitJoin(ls + ["", ""], "\n");
  }

  lemma OneVariable(ls: seq<string>, root: string, entry: Entry)
    requires Says(ls, root, entry) && entry.env.Some? && |entry.env.value| == 1
    ensures |ls| == 6
    ensures ls[0] == "[" + root + ".groundfloor-atlas]" && Sets(ls[1], "command", entry.command)
    ensures SetsList(ls[2], "args", entry.args) && ls[3] == "" && ls[4] == "[" + root + ".groundfloor-atlas.env]"
    ensures Sets(ls[5], entry.env.value[0].0, entry.env.value[0].1)
  {
    hide Sets, SetsList;
  }

  /** What `connect codex` writes, line by line: the bridge to the url, the header that names the
      token's variable, and the variable with the token; the token is in no argument. */
  lemma CodexSays(url: string, token: string)
    ensures exists ls ::
      && Split(TomlServerBlock("mcp_servers", CodexEntry(url, token)), "\n") == ls + ["", ""] && |ls| == 6
      && ls[0] == "[mcp_servers.groundfloor-atlas]" && Sets(ls[1], "command", "npx")
      && SetsList(ls[2], "args", ["-y", "mcp-remote", url, "--header", "Authorization: Bearer ${ATLAS_MCP_TOKEN}"])
      && ls[3] == "" && ls[4] == "[mcp_servers.groundfloor-atlas.env]" && Sets(ls[5], "ATLAS_MCP_TOKEN", token)
  {
    hide Sets, SetsList, TomlServerBlock, Split, Renderable, Says;
    CodexRenderable(url, token);
    BlockSays("mcp_servers", CodexEntry(url, token));
    var ls :| Says(ls, "mcp_servers", CodexEntry(url, token)) &&
      Split(TomlServerBlock("mcp_servers", CodexEntry(url, token)), "\n") == ls + ["", ""];
    OneVariable(ls, "mcp_servers", CodexEntry(url, token));
    HeadersText();
  }

  lemma HeadersText()
    ensures "[" + "mcp_servers" + ".groundfloor-atlas]" == "[mcp_servers.groundfloor-atlas]"
    ensures "[" + "mcp_servers" + ".groundfloor-atlas.env]" == "[mcp_servers.groundfloor-atlas.env]"
  {
  }

  lemma BlockJoined(root: string, entry: Entry)
    ensures TomlServerBlock(root, entry) == Join(BlockLines(root, entry) + ["", ""], "\n")
  {
    var ls := BlockLines(root, entry);
    assert ls != [];
    hide BlockLines, Join;
    JoinTwoBlanks(ls);
  }

  lemma {:induction false} JoinTwoBlanks(ls: seq<string>)
    requires ls != []
    ensures Join(ls + ["", ""], "\n") == Join(ls, "\n") + "\n\n"
  {
    if |ls| == 1 {
      assert (ls + ["", ""])[1..] == ["", ""] && ["", ""][1..] == [""];
      assert Join(["", ""], "\n") == "" + "\n" + "";
    } else {
      assert (ls + ["", ""])[1..] == ls[1..] + ["", ""];
      JoinTwoBlanks(ls[1..]);
    }
  }

  lemma NoNewlines(root: string, entry: Entry)
    requires Renderable(root, entry)
    ensures forall l :: l in BlockLines(root, entry) ==> '\n' !in l
  {
    hide Escape, EnvLines, Join, JsonList, StepLine;
    EscapeNoNewline(entry.command);
    ListNoNewline(entry.args);
    assert '\n' !in root;
    if entry.env.Some? { EnvQuiet(entry.env.value); }
  }
}
