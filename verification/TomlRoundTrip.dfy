/** What connecting and disconnecting do to every scannable TOML text. */
module TomlRoundTrip {
  import opened Options
  import opened Strings
  import opened TomlScanner
  import opened TomlPieces
  import opened TomlBlock
  import opened TomlConnect

  ghost predicate NoneOurs(ps: seq<Piece>, root: string)
  {
    forall p :: p in ps ==> !OurPiece(p, root)
  }

  // ---- Our regions of a document ----------------------------------------------------

  lemma OursOfDoc(pre: string, ps: seq<Piece>, root: string)
    requires DocOk(pre, ps)
    ensures Headers(pre + Concat(ps)).Some?
    ensures Ours(pre + Concat(ps), root) == OurPieceRegions(ps, |pre|, root)
  {
    DocHeaders(pre, ps);
    RegionsOfPieces(ps, |pre|, |pre + Concat(ps)|);
  }

  lemma {:induction false} OursAscend(ps: seq<Piece>, off: nat, root: string)
    ensures forall r :: r in OurPieceRegions(ps, off, root) ==> r.start >= off
    ensures StartsAscend(OurPieceRegions(ps, off, root))
  {
    hide OurPath, OurPieceRegions;
    if ps == [] {
      NoPieces(off, root);
    } else {
      OurPieceStep(ps, off, root);
      OursAscend(ps[1..], off + |ps[0].text|, root);
    }
  }

  lemma {:induction false} OursAfter(b: seq<Piece>, t: seq<Piece>, off: nat, root: string)
    requires NoneOurs(b, root)
    ensures OurPieceRegions(b + t, off, root) == OurPieceRegions(t, off + |Concat(b)|, root)
  {
    hide OurPath, OurPieceRegions;
    if b == [] {
      assert b + t == t;
    } else {
      assert b[0] in b;
      assert (b + t)[1..] == b[1..] + t;
      OurPieceStep(b + t, off, root);
      OursAfter(b[1..], t, off + |b[0].text|, root);
      assert off + |b[0].text| + |Concat(b[1..])| == off + |Concat(b)|;
      var rs := OurPieceRegions(t, off + |Concat(b)|, root);
      assert [] + rs == rs;
    }
  }

  lemma {:induction false} NoOurs(ps: seq<Piece>, off: nat, root: string)
    requires NoneOurs(ps, root)
    ensures OurPieceRegions(ps, off, root) == [] && NotOurs(ps, root) == ps
  {
    hide OurPath, OurPieceRegions;
    if ps == [] {
      NoPieces(off, root);
    } else {
      assert ps[0] in ps;
      OurPieceStep(ps, off, root);
      NoOurs(ps[1..], off + |ps[0].text|, root);
    }
  }

  lemma {:induction false} SomeOurs(ps: seq<Piece>, off: nat, root: string)
    requires OurPieceRegions(ps, off, root) == []
    ensures NoneOurs(ps, root)
  {
    hide OurPath, OurPieceRegions;
    if ps != [] {
      OurPieceStep(ps, off, root);
      SomeOurs(ps[1..], off + |ps[0].text|, root);
      assert ps == [ps[0]] + ps[1..];
    }
  }

  lemma PieceNonEmpty(ps: seq<Piece>)
    requires PiecesOk(ps)
    ensures forall p :: p in ps ==> p.text != ""
  {
    hide Scan;
    forall p | p in ps ensures p.text != "" {
      assert PieceOk(p);
      ScanNothing(CLEAN, 0);
    }
  }

  /** The first pieces that are not ours, and the rest. */
  lemma {:induction false} SplitAtOurs(ps: seq<Piece>, root: string) returns (b: seq<Piece>, t: seq<Piece>)
    ensures ps == b + t && NoneOurs(b, root) && (t != [] ==> OurPiece(t[0], root))
  {
    if ps == [] || OurPiece(ps[0], root) {
      b, t := [], ps;
    } else {
      b, t := SplitAtOurs(ps[1..], root);
      b := [ps[0]] + b;
    }
  }

  // ---- Splicing a document -------------------------------------------------------------

  lemma FirstIsOurs(t: seq<Piece>, root: string)
    requires t != [] && OurPiece(t[0], root)
    ensures Concat(t) == t[0].text + Concat(t[1..]) && NotOurs(t, root) == NotOurs(t[1..], root)
  {
    hide OurPath;
    assert [] + NotOurs(t[1..], root) == NotOurs(t[1..], root);
  }

  lemma SliceTo(text: string, off: nat)
    requires off <= |text|
    ensures Slice(text, 0, off) == text[..off]
  {
  }

  /** Splicing from the start of our first piece on. */
  lemma SpliceFirst(text: string, off: nat, t: seq<Piece>, root: string, block: Option<string>)
    requires off <= |text| && text[off..] == Concat(t) && t != [] && OurPiece(t[0], root)
    requires forall p :: p in t ==> p.text != ""
    ensures SpliceFrom(text, OurPieceRegions(t, off, root), 0, block, Some(off)) ==
            text[..off] + (if block.Some? then block.value else "") + Concat(NotOurs(t, root))
  {
    hide *;
    var next := off + |t[0].text|;
    FirstIsOurs(t, root);
    SliceTo(text, off);
    assert t[0] in t;
    var rest := Concat(NotOurs(t[1..], root));
    OurPieceStep(t, off, root);
    var r, rs := Region(t[0].path, off, next), OurPieceRegions(t[1..], next, root);
    assert text[next..] == text[off..][|t[0].text|..] == Concat(t[1..]);
    SpliceStep(text, r, rs, 0, block, Some(off));
    SpliceKeeps(text, t[1..], next, next, root, block, Some(off));
    assert text[next..next] + rest == rest;
  }

  lemma SpliceDoc(pre: string, b: seq<Piece>, t: seq<Piece>, root: string, block: Option<string>)
    requires DocOk(pre, b + t) && NoneOurs(b, root) && t != [] && OurPiece(t[0], root)
    ensures var text := pre + Concat(b + t); var ours := OurPieceRegions(b + t, |pre|, root);
      && ours != []
      && SpliceFrom(text, SortRegions(ours), 0, block, Some(ours[0].start)) ==
         pre + Concat(b) + (if block.Some? then block.value else "") + Concat(NotOurs(t, root))
  {
    hide OurPath, OurPieceRegions, SpliceFrom, SortRegions, PieceOk, Concat, NotOurs, PreambleOk;
    var text, off := pre + Concat(b + t), |pre| + |Concat(b)|;
    OursAscend(b + t, |pre|, root);
    SortKeepsAscending(OurPieceRegions(b + t, |pre|, root));
    OursAfter(b, t, |pre|, root);
    ConcatAppend(b, t);
    PieceNonEmpty(b + t);
    assert forall p :: p in t ==> p in b + t;
    assert text == pre + Concat(b) + Concat(t);
    assert text[off..] == Concat(t) && text[..off] == pre + Concat(b);
    SpliceFirst(text, off, t, root, block);
    OurPieceStep(t, off, root);
  }

  // ---- Text that gains a newline ----------------------------------------------------------

  /** Ending the last line changes no header. */
  lemma {:induction false} ScanEndLine(t: string, st: State, off: nat)
    requires t != "" && !EndsLine(t)
    ensures Scan(t + "\n", st, off) == Scan(t, st, off)
    decreases |t|
  {
    hide Scan, StepLine;
    var t' := t + "\n";
    var n := LineLength(t);
    ScanStep(t, st, off);
    ScanStep(t', st, off);
    var step := StepLine(FirstLine(t), st);
    if n < |t| {
      LineLengthAt(t', n);
      assert FirstLine(t') == FirstLine(t) && AfterLine(t') == AfterLine(t) + "\n";
      var rest := AfterLine(t);
      assert rest != "" && rest[|rest| - 1] == t[|t| - 1];
      if step.Line? { ScanEndLine(rest, step.st, off + |t| - |rest|); }
    } else {
      LineLengthAt(t', n);
      assert FirstLine(t') == t == FirstLine(t) && AfterLine(t') == "" == AfterLine(t);
      if step.Line? {
        ScanNothing(step.st, off + |t|);
        ScanNothing(step.st, off + |t'|);
      }
    }
  }

  lemma ScanBlankLine(off: nat)
    ensures Scan("\n", CLEAN, off) == Some([])
  {
    hide Scan, StepLine;
    QuietBlank();
    LineThen("", "", None, off);
    ScanNothing(CLEAN, off + 1);
    assert "" + "\n" + "" == "\n";
    var none: seq<Header> := [];
    assert none + none == none;
  }

  /** Newlines put after a scannable text change no header. */
  lemma AddNewline(t: string)
    requires Headers(t).Some?
    ensures Headers(t + "\n") == Headers(t)
  {
    hide Scan;
    if EndsLine(t) {
      ScanBlankLine(|t|);
      ScanAppend(t, "\n", CLEAN, 0);
      assert Headers(t).value + [] == Headers(t).value;
    } else {
      ScanEndLine(t, CLEAN, 0);
    }
  }

  /** The separator is nothing or one newline after an ended line, and two otherwise. */
  lemma SeparatorCases(t: string)
    requires t != ""
    ensures EndsLine(t) ==> t + Separator(t) == t || t + Separator(t) == t + "\n"
    ensures !EndsLine(t) ==> t + Separator(t) == t + "\n" + "\n"
  {
    if EndsLine(t) {
      assert t + "" == t;
    } else {
      var base := t + "\n";
      assert base[|base| - 2..] != "\n\n" by { assert base[|base| - 2] == t[|t| - 1] != '\n'; }
      assert Separator(t) == "\n" + "\n";
      hide *;
      assert t + ("\n" + "\n") == base + "\n";
    }
  }

  lemma SeparatorBlank(t: string)
    requires t != ""
    ensures var u := t + Separator(t); |u| >= 2 && u[|u| - 2..] == "\n\n" && EndsLine(u)
  {
    var u := t + Separator(t);
    if EndsLine(t) {
      if |t| >= 2 && t[|t| - 2..] == "\n\n" { assert u == t; } else { assert u == t + "\n"; }
    } else {
      SeparatorCases(t);
      assert u == t + "\n" + "\n";
    }
  }

  lemma AddSeparator(t: string)
    requires Headers(t).Some? && t != ""
    ensures Headers(t + Separator(t)) == Headers(t) && EndsLine(t + Separator(t))
    ensures |t + Separator(t)| >= 2 && (t + Separator(t))[|t + Separator(t)| - 2..] == "\n\n"
  {
    hide *;
    AddNewline(t);
    AddNewline(t + "\n");
    SeparatorCases(t);
    SeparatorBlank(t);
  }

  // ---- The connected document ------------------------------------------------------------------

  /** A connected text: tables that are not ours, our block, tables that are not ours. */
  ghost predicate ConnectedDoc(pre: string, b: seq<Piece>, a: seq<Piece>, root: string, entry: Entry)
  {
    && DocOk(pre, b + (BlockPieces(root, entry) + a))
    && NoneOurs(b, root) && NoneOurs(a, root)
  }

  function ConnectText(text: string, root: string, entry: Entry): string
    requires Headers(text).Some?
  {
    Connect(text, Ours(text, root), TomlServerBlock(root, entry))
  }

  lemma BlockIsOurs(root: string, entry: Entry)
    ensures forall p :: p in BlockPieces(root, entry) ==> OurPiece(p, root)
    ensures forall p :: p in BlockPieces(root, entry) ==> EndsLine(p.text)
  {
    hide Lines, HeaderText, MainName, EnvName, ServerKey, EndsLine;
    LinesEndLine([HeaderText(MainName(root))] + MainLines(entry));
    if entry.env.Some? {
      LinesEndLine([HeaderText(EnvName(root))] + EnvTableLines(entry.env.value));
    }
  }

  lemma {:induction false} NotOursKeeps(ps: seq<Piece>, root: string)
    requires PiecesOk(ps)
    ensures PiecesOk(NotOurs(ps, root)) && NoneOurs(NotOurs(ps, root), root)
  {
    hide PieceOk, OurPath, EndsLine;
    if ps != [] {
      var rest := ps[1..];
      assert forall p :: p in rest ==> p in ps;
      NotOursKeeps(rest, root);
      if rest == [] { assert NotOurs(rest, root) == []; }
    }
  }

  lemma JoinPieces(b: seq<Piece>, m: seq<Piece>, a: seq<Piece>)
    requires PiecesOk(b) && PiecesOk(m) && PiecesOk(a)
    requires forall p :: p in b ==> EndsLine(p.text)
    requires forall p :: p in m ==> EndsLine(p.text)
    ensures PiecesOk(b + (m + a))
  {
    hide PieceOk, EndsLine;
    var ps := b + (m + a);
    forall i | 0 <= i < |ps| - 1 ensures EndsLine(ps[i].text) {
      if i < |b| {
        assert ps[i] in b;
      } else if i < |b| + |m| {
        assert ps[i] in m;
      } else {
        assert ps[i] == a[i - |b| - |m|];
      }
    }
  }

  lemma PartsOk(b: seq<Piece>, t: seq<Piece>)
    requires PiecesOk(b + t)
    ensures PiecesOk(b) && PiecesOk(t)
    ensures t != [] ==> forall p :: p in b ==> EndsLine(p.text)
  {
    hide PieceOk, EndsLine;
    var ps := b + t;
    forall i | 0 <= i < |b| ensures i < |ps| - 1 ==> EndsLine(b[i].text) { assert ps[i] == b[i]; }
    forall i | 0 <= i < |t| - 1 ensures EndsLine(t[i].text) { assert ps[|b| + i] == t[i]; }
  }

  /** Connecting over existing entries puts the block where the first one was and
      keeps everything else. */
  lemma ConnectInPlace(text: string, root: string, entry: Entry) returns (pre: string, b: seq<Piece>, a: seq<Piece>)
    requires Renderable(root, entry) && Headers(text).Some? && Ours(text, root) != []
    ensures ConnectedDoc(pre, b, a, root, entry)
    ensures ConnectText(text, root, entry) == pre + Concat(b + (BlockPieces(root, entry) + a))
    ensures SpliceFrom(text, SortRegions(Ours(text, root)), 0, None, None) == pre + Concat(b) + Concat(a)
  {
    hide Scan, PieceOk, OurPath, SpliceFrom, SortRegions, OurPieceRegions, EndsLine, BlockPieces, TomlServerBlock,
      Renderable, Headers;
    var ps, t;
    pre, ps := Decompose(text);
    OursOfDoc(pre, ps, root);
    b, t := SplitAtOurs(ps, root);
    if t == [] { assert b + t == b; NoOurs(b, |pre|, root); }
    a := NotOurs(t, root);
    PartsOk(b, t);
    NotOursKeeps(t, root);
    BlockPiecesOk(root, entry);
    BlockIsOurs(root, entry);
    JoinPieces(b, BlockPieces(root, entry), a);
    SpliceDoc(pre, b, t, root, Some(TomlServerBlock(root, entry)));
    SpliceDoc(pre, b, t, root, None);
    SpliceNoBlock(text, SortRegions(Ours(text, root)), 0, Some(Ours(text, root)[0].start), None);
    BlockIsPieces(root, entry);
    ConcatAppend(b, BlockPieces(root, entry) + a);
    ConcatAppend(BlockPieces(root, entry), a);
    assert pre + Concat(b) + "" == pre + Concat(b);
  }

  lemma {:induction false} SpliceNoBlock(text: string, rs: seq<Region>, pos: nat, at: Option<nat>, at': Option<nat>)
    ensures SpliceFrom(text, rs, pos, None, at) == SpliceFrom(text, rs, pos, None, at')
  {
    if rs != [] { SpliceNoBlock(text, rs[1..], rs[0].end, at, at'); }
  }

  lemma {:induction false} StartsPaths(ps: seq<Piece>, qs: seq<Piece>, off: nat, root: string)
    requires Starts(ps, off) == Starts(qs, off) && NoneOurs(ps, root)
    ensures NoneOurs(qs, root)
  {
    hide OurPath;
    assert |ps| == |qs|;
    if ps != [] {
      var hp, hq := Starts(ps, off), Starts(qs, off);
      assert hp[0] == hq[0] && hp[1..] == hq[1..];
      assert ps[0] in ps && forall p :: p in ps[1..] ==> p in ps;
      assert qs[0].path == ps[0].path;
      if |ps| > 1 {
        assert hp[1] == hq[1] && hp[1].start == off + |ps[0].text| && hq[1].start == off + |qs[0].text|;
        StartsPaths(ps[1..], qs[1..], off + |ps[0].text|, root);
      }
      assert qs == [qs[0]] + qs[1..];
    }
  }

  /** Connecting a text without our tables appends the block. */
  lemma ConnectAppend(text: string, root: string, entry: Entry) returns (pre: string, b: seq<Piece>)
    requires Renderable(root, entry) && Headers(text).Some? && Ours(text, root) == []
    ensures ConnectedDoc(pre, b, [], root, entry)
    ensures ConnectText(text, root, entry) == pre + Concat(b + (BlockPieces(root, entry) + []))
    ensures pre + Concat(b) == Base(text)
  {
    hide *;
    var m := BlockPieces(root, entry);
    var base := Base(text);
    BaseHeaders(text);
    pre, b := Decompose(base);
    NoOursKept(text, base, pre, b, root);
    AllEndLine(pre, b);
    BlockPiecesOk(root, entry);
    BlockIsOurs(root, entry);
    AppendedDoc(pre, b, root, entry);
    ConcatAppend(b, m);
    assert m + [] == m;
    BlockIsPieces(root, entry);
    ConnectsAtEnd(text, root, entry);
    JoinedThrice(pre, Concat(b), Concat(m));
  }

  lemma JoinedThrice(a: string, b: string, c: string)
    ensures a + (b + c) == a + b + c
  {
  }

  /** What the block is appended to. */
  function Base(text: string): string
  {
    if text == "" then "" else text + Separator(text)
  }

  lemma BaseHeaders(text: string)
    requires Headers(text).Some?
    ensures Headers(Base(text)) == Headers(text) && EndsLine(Base(text))
  {
    if text == "" {
      EmptyEndsLine();
    } else {
      AddSeparator(text);
    }
  }

  lemma AppendedDoc(pre: string, b: seq<Piece>, root: string, entry: Entry)
    requires DocOk(pre, b) && NoneOurs(b, root) && EndsLine(pre) && forall p :: p in b ==> EndsLine(p.text)
    requires PiecesOk(BlockPieces(root, entry)) && forall p :: p in BlockPieces(root, entry) ==> EndsLine(p.text)
    ensures ConnectedDoc(pre, b, [], root, entry)
  {
    hide PieceOk, EndsLine, OurPath, BlockPieces, Headers;
    assert PiecesOk([]);
    JoinPieces(b, BlockPieces(root, entry), []);
  }

  lemma ConnectsAtEnd(text: string, root: string, entry: Entry)
    requires Headers(text).Some? && Ours(text, root) == []
    ensures ConnectText(text, root, entry) == Base(text) + TomlServerBlock(root, entry)
  {
    hide TomlServerBlock, Separator, Headers;
    var block := TomlServerBlock(root, entry);
    if text == "" { assert "" + block == block; }
  }

  lemma EmptyEndsLine()
    ensures EndsLine("") && Headers("") == Some([])
  {
  }

  lemma NoOursKept(text: string, base: string, pre: string, b: seq<Piece>, root: string)
    requires Headers(text).Some? && Headers(base) == Headers(text) && Ours(text, root) == []
    requires DocOk(pre, b) && base == pre + Concat(b) && Headers(base) == Some(Starts(b, |pre|))
    ensures NoneOurs(b, root)
  {
    hide Scan, PieceOk, OurPath, OurPieceRegions, Headers, EndsLine;
    var pre0, ps0 := Decompose(text);
    OursOfDoc(pre0, ps0, root);
    SomeOurs(ps0, |pre0|, root);
    if ps0 != [] {
      assert Starts(ps0, |pre0|)[0] == Starts(b, |pre|)[0];
      StartsPaths(ps0, b, |pre|, root);
    } else {
      assert |b| == 0;
    }
  }

  lemma {:induction false} LastPiece(ps: seq<Piece>)
    requires ps != [] && EndsLine(Concat(ps)) && ps[|ps| - 1].text != ""
    ensures EndsLine(ps[|ps| - 1].text)
  {
    if |ps| > 1 {
      var rest := ps[1..];
      assert rest[|rest| - 1] == ps[|ps| - 1];
      TailNonEmpty(rest);
      assert Concat(ps)[|Concat(ps)| - 1] == Concat(rest)[|Concat(rest)| - 1];
      LastPiece(rest);
    } else {
      assert Concat(ps) == ps[0].text;
    }
  }

  lemma {:induction false} TailNonEmpty(ps: seq<Piece>)
    requires ps != [] && ps[|ps| - 1].text != ""
    ensures Concat(ps) != ""
  {
    if |ps| > 1 { TailNonEmpty(ps[1..]); }
  }

  lemma AllEndLine(pre: string, ps: seq<Piece>)
    requires DocOk(pre, ps) && EndsLine(pre + Concat(ps))
    ensures EndsLine(pre) && forall p :: p in ps ==> EndsLine(p.text)
  {
    hide PieceOk, Headers;
    if ps == [] {
      assert pre + "" == pre;
    } else {
      PieceNonEmpty(ps);
      var last := ps[|ps| - 1];
      assert last in ps;
      TailNonEmpty(ps);
      var text := pre + Concat(ps);
      assert text[|text| - 1] == Concat(ps)[|Concat(ps)| - 1];
      LastPiece(ps);
      forall i | 0 <= i < |ps| ensures EndsLine(ps[i].text) { }
    }
  }

  /** The form of every connected text. */
  lemma ConnectForm(text: string, root: string, entry: Entry) returns (pre: string, b: seq<Piece>, a: seq<Piece>)
    requires Renderable(root, entry) && Headers(text).Some?
    ensures ConnectedDoc(pre, b, a, root, entry)
    ensures ConnectText(text, root, entry) == pre + Concat(b + (BlockPieces(root, entry) + a))
  {
    hide ConnectedDoc, ConnectText, Headers, Ours;
    if Ours(text, root) != [] {
      pre, b, a := ConnectInPlace(text, root, entry);
    } else {
      pre, b := ConnectAppend(text, root, entry);
      a := [];
    }
  }

  // ---- Main results ----------------------------------------------------------------------------

  lemma BlockFirst(root: string, entry: Entry, a: seq<Piece>)
    requires NoneOurs(a, root)
    ensures var t := BlockPieces(root, entry) + a;
      t != [] && OurPiece(t[0], root) && NotOurs(t, root) == a
  {
    hide OurPath;
    BlockIsOurs(root, entry);
    var m := BlockPieces(root, entry);
    assert m[0] in m;
    OursDropped(m, a, root);
    NoOurs(a, 0, root);
  }

  lemma {:induction false} OursDropped(m: seq<Piece>, a: seq<Piece>, root: string)
    requires forall p :: p in m ==> OurPiece(p, root)
    ensures NotOurs(m + a, root) == NotOurs(a, root)
  {
    hide OurPath;
    if m == [] {
      assert m + a == a;
    } else {
      assert m[0] in m && (m + a)[1..] == m[1..] + a;
      OursDropped(m[1..], a, root);
    }
  }

  /** Text of the form, with the block already in it. */
  function FormText(pre: string, b: seq<Piece>, a: seq<Piece>, root: string, entry: Entry): string
  {
    pre + Concat(b + (BlockPieces(root, entry) + a))
  }

  lemma FormUnchanged(pre: string, b: seq<Piece>, a: seq<Piece>, root: string, entry: Entry)
    requires ConnectedDoc(pre, b, a, root, entry)
    ensures var text := FormText(pre, b, a, root, entry);
      Headers(text).Some? && ConnectText(text, root, entry) == text
  {
    hide Scan, PieceOk, OurPath, OurPieceRegions, SpliceFrom, SortRegions, BlockPieces, TomlServerBlock, PiecesOk,
      Concat, NotOurs;
    var m := BlockPieces(root, entry);
    OursOfDoc(pre, b + (m + a), root);
    BlockFirst(root, entry, a);
    SpliceDoc(pre, b, m + a, root, Some(TomlServerBlock(root, entry)));
    BlockIsPieces(root, entry);
    ConcatAppend(b, m + a);
    ConcatAppend(m, a);
  }

  /** Reconnecting is byte-stable: connecting a connected text changes nothing. */
  lemma ConnectIdempotent(text: string, root: string, entry: Entry)
    requires Renderable(root, entry) && Headers(text).Some?
    ensures Headers(ConnectText(text, root, entry)).Some?
    ensures var once := ConnectText(text, root, entry); ConnectText(once, root, entry) == once
  {
    hide Headers, ConnectedDoc, ConnectText, Renderable;
    var pre, b, a := ConnectForm(text, root, entry);
    FormUnchanged(pre, b, a, root, entry);
  }

  lemma {:induction false} BlockRegions(m: seq<Piece>, a: seq<Piece>, off: nat, root: string)
    requires NoneOurs(a, root) && forall p :: p in m ==> OurPiece(p, root)
    ensures OurPieceRegions(m + a, off, root) == PieceRegions(m, off)
  {
    hide OurPath, OurPieceRegions;
    if m == [] {
      assert m + a == a;
      NoOurs(a, off, root);
    } else {
      assert m[0] in m && (m + a)[1..] == m[1..] + a;
      OurPieceStep(m + a, off, root);
      BlockRegions(m[1..], a, off + |m[0].text|, root);
    }
  }

  function Paths(rs: seq<Region>): seq<seq<string>>
  {
    if rs == [] then [] else [rs[0].path] + Paths(rs[1..])
  }

  /** After connecting, our regions are the current server table and its environment
      table, no more: no table with a former name is left. */
  lemma ConnectLeavesOnlyCurrent(text: string, root: string, entry: Entry)
    requires Renderable(root, entry) && Headers(text).Some?
    ensures Headers(ConnectText(text, root, entry)).Some?
    ensures Paths(Ours(ConnectText(text, root, entry), root)) ==
            [[root, ServerKey()]] + if entry.env.Some? then [[root, ServerKey(), "env"]] else []
  {
    hide Headers, ConnectedDoc, ConnectText, Renderable, Ours, Paths, ServerKey;
    var pre, b, a := ConnectForm(text, root, entry);
    FormRegions(pre, b, a, root, entry);
    BlockPaths(root, entry, |pre| + |Concat(b)|);
  }

  lemma FormDoc(pre: string, b: seq<Piece>, a: seq<Piece>, root: string, entry: Entry)
    requires ConnectedDoc(pre, b, a, root, entry)
    ensures DocOk(pre, b + (BlockPieces(root, entry) + a)) && NoneOurs(b, root) && NoneOurs(a, root)
    ensures FormText(pre, b, a, root, entry) == pre + Concat(b + (BlockPieces(root, entry) + a))
  {
    hide DocOk, NoneOurs, BlockPieces, Concat;
  }

  lemma FormRegions(pre: string, b: seq<Piece>, a: seq<Piece>, root: string, entry: Entry)
    requires ConnectedDoc(pre, b, a, root, entry)
    ensures var text := FormText(pre, b, a, root, entry);
      Headers(text).Some? && Ours(text, root) == PieceRegions(BlockPieces(root, entry), |pre| + |Concat(b)|)
  {
    hide *;
    var m := BlockPieces(root, entry);
    FormDoc(pre, b, a, root, entry);
    OursOfDoc(pre, b + (m + a), root);
    OursAfter(b, m + a, |pre|, root);
    BlockIsOurs(root, entry);
    BlockRegions(m, a, |pre| + |Concat(b)|, root);
  }

  lemma {:induction false} PathsOfPieces(m: seq<Piece>, off: nat)
    ensures |Paths(PieceRegions(m, off))| == |m|
    ensures forall i :: 0 <= i < |m| ==> Paths(PieceRegions(m, off))[i] == m[i].path
  {
    if m != [] { PathsOfPieces(m[1..], off + |m[0].text|); }
  }

  lemma BlockPaths(root: string, entry: Entry, off: nat)
    ensures Paths(PieceRegions(BlockPieces(root, entry), off)) ==
            [[root, ServerKey()]] + if entry.env.Some? then [[root, ServerKey(), "env"]] else []
  {
    hide ServerKey, Lines, HeaderText, MainName, EnvName, Paths, PieceRegions;
    PathsOfPieces(BlockPieces(root, entry), off);
  }

  /** The text without our regions. */
  function Outside(text: string, root: string): string
    requires Headers(text).Some?
  {
    SpliceFrom(text, SortRegions(Ours(text, root)), 0, None, None)
  }

  /** Connecting keeps every byte outside our regions, in order; to a text without
      them it only adds the separator. */
  lemma ConnectKeepsOutside(text: string, root: string, entry: Entry)
    requires Renderable(root, entry) && Headers(text).Some?
    ensures Headers(ConnectText(text, root, entry)).Some?
    ensures Outside(ConnectText(text, root, entry), root) ==
            if Ours(text, root) != [] || text == "" then Outside(text, root) else text + Separator(text)
  {
    hide Scan, PieceOk, OurPath, OurPieceRegions, SpliceFrom, SortRegions, BlockPieces, Renderable, PiecesOk,
      ConnectText;
    hide Headers, Ours, Separator, PreambleOk;
    if Ours(text, root) != [] {
      var pre, b, a := ConnectInPlace(text, root, entry);
      OutsideOfForm(pre, b, a, root, entry);
    } else {
      var pre, b := ConnectAppend(text, root, entry);
      OutsideOfForm(pre, b, [], root, entry);
      assert pre + Concat(b) + "" == pre + Concat(b);
      if text == "" { OutsideNothing(root); }
    }
  }

  lemma OutsideNothing(root: string)
    ensures Headers("").Some? && Outside("", root) == ""
  {
  }

  lemma OutsideOfForm(pre: string, b: seq<Piece>, a: seq<Piece>, root: string, entry: Entry)
    requires ConnectedDoc(pre, b, a, root, entry)
    ensures var text := pre + Concat(b + (BlockPieces(root, entry) + a));
      Headers(text).Some? && Ours(text, root) != [] && Outside(text, root) == pre + Concat(b) + Concat(a)
  {
    hide Scan, PieceOk, OurPath, OurPieceRegions, SpliceFrom, SortRegions, BlockPieces, PiecesOk;
    var t := BlockPieces(root, entry) + a;
    OursOfDoc(pre, b + t, root);
    BlockFirst(root, entry, a);
    SpliceDoc(pre, b, t, root, None);
    var ours := OurPieceRegions(b + t, |pre|, root);
    SpliceNoBlock(pre + Concat(b + t), SortRegions(ours), 0, Some(ours[0].start), None);
    assert pre + Concat(b) + "" == pre + Concat(b);
  }

  // ---- Regions partition the text ------------------------------------------------------------------

  function RegionTexts(text: string, rs: seq<Region>): string
  {
    if rs == [] then "" else Slice(text, rs[0].start, rs[0].end) + RegionTexts(text, rs[1..])
  }

  lemma {:induction false} PieceTexts(text: string, ps: seq<Piece>, off: nat)
    requires off <= |text| && text[off..] == Concat(ps)
    ensures RegionTexts(text, PieceRegions(ps, off)) == text[off..]
  {
    if ps != [] {
      var next := off + |ps[0].text|;
      assert text[off..] == ps[0].text + Concat(ps[1..]);
      assert text[next..] == Concat(ps[1..]) && text[off..next] == ps[0].text;
      assert Slice(text, off, next) == text[off..next];
      PieceTexts(text, ps[1..], next);
    }
  }

  /** The regions of a scannable text start lines, follow each other without a gap,
      and with the preamble before them make up the whole text. */
  lemma RegionsPartition(text: string)
    requires Headers(text).Some?
    ensures var rs := Regions(Headers(text).value, |text|);
      && (forall i :: 0 <= i < |rs| ==> rs[i].start < rs[i].end <= |text| && EndsLine(text[..rs[i].start]))
      && (forall i :: 0 <= i < |rs| ==> rs[i].end == if i + 1 < |rs| then rs[i + 1].start else |text|)
      && text == text[..if rs == [] then |text| else rs[0].start] + RegionTexts(text, rs)
  {
    hide Scan, EndsLine;
    var hs, rs := Headers(text).value, Regions(Headers(text).value, |text|);
    HeadersInOrder(text, CLEAN, 0);
    forall i | 0 <= i < |rs| ensures EndsLine(text[..rs[i].start]) {
      ScanCut(text, CLEAN, 0, hs, i);
    }
    var pre, ps := Decompose(text);
    RegionsOfPieces(ps, |pre|, |text|);
    PieceTexts(text, ps, |pre|);
    if rs != [] { assert rs[0].start == |pre|; }
  }

  // ---- Disconnecting ----------------------------------------------------------------------------------

  /** The texts disconnecting restores: empty, or ended by a newline that no earlier
      newline with only blanks in between precedes. */
  predicate Restorable(text: string)
  {
    text == "" || (text[|text| - 1] == '\n' && NewlineFrom(text, BlankFrom(text)) == |text| - 1)
  }

  lemma {:induction false} BlankFromAppend(s: string, sep: string)
    requires forall c :: c in sep ==> c == '\n'
    ensures BlankFrom(s + sep) == BlankFrom(s)
  {
    if sep == "" {
      assert s + sep == s;
    } else {
      var t := sep[..|sep| - 1];
      assert sep[|sep| - 1] in sep && (s + sep)[|s + sep| - 1] == sep[|sep| - 1];
      assert (s + sep)[..|s + sep| - 1] == s + t;
      assert forall c :: c in t ==> c in sep;
      BlankFromAppend(s, t);
    }
  }

  lemma {:induction false} NewlineFromAppend(s: string, sep: string, i: nat)
    requires i <= |s|
    ensures NewlineFrom(s, i) < |s| ==> NewlineFrom(s + sep, i) == NewlineFrom(s, i)
    ensures NewlineFrom(s, i) == |s| ==> NewlineFrom(s + sep, i) >= |s|
    decreases |s| - i
  {
    if i < |s| && s[i] != '\n' { NewlineFromAppend(s, sep, i + 1); }
  }

  lemma SeparatorNewlines(text: string)
    ensures forall c :: c in Separator(text) ==> c == '\n'
  {
  }

  /** Collapsing the blank tail of a text and its separator gives the text back
      exactly when it is restorable. */
  lemma CollapseRestores(text: string)
    requires text != "" && Headers(text).Some?
    ensures CollapseTail(text + Separator(text)) == text <==> Restorable(text)
  {
    hide Headers, Separator, BlankFrom, NewlineFrom;
    var sep, all := Separator(text), text + Separator(text);
    AddSeparator(text);
    SeparatorNewlines(text);
    BlankFromAppend(text, sep);
    NewlineFromAppend(text, sep, BlankFrom(text));
    var k := NewlineFrom(all, BlankFrom(all));
    BlankTail(all);
    assert all[|all| - 2..] == "\n\n";
    assert all[|all| - 1] == '\n' && all[|all| - 2] == '\n';
    assert k <= |all| - 2;
    assert CollapseTail(all) == all[..k] + "\n";
    if k == |text| - 1 {
      assert all[..k] + "\n" == text;
    } else {
      assert |all[..k] + "\n"| != |text|;
    }
  }

  /** A text that ends in two newlines has its blank tail start at or before them. */
  lemma BlankTail(s: string)
    requires |s| >= 2 && s[|s| - 1] == '\n' && s[|s| - 2] == '\n'
    ensures NewlineFrom(s, BlankFrom(s)) <= |s| - 2
  {
    var t := s[..|s| - 1];
    assert t[|t| - 1] == '\n';
    assert BlankFrom(s) == BlankFrom(t) == BlankFrom(t[..|t| - 1]);
    assert BlankFrom(s) <= |s| - 2;
  }

  function DisconnectText(text: string, root: string): string
    requires Headers(text).Some? && Ours(text, root) != []
  {
    Disconnect(text, Ours(text, root))
  }

  lemma {:induction false} LastEnd(m: seq<Piece>, off: nat)
    requires m != []
    ensures PieceRegions(m, off) != []
    ensures var rs := PieceRegions(m, off); rs[|rs| - 1].end == off + |Concat(m)|
  {
    var next := off + |m[0].text|;
    assert PieceRegions(m, off) == [Region(m[0].path, off, next)] + PieceRegions(m[1..], next);
    assert Concat(m) == m[0].text + Concat(m[1..]);
    if |m| > 1 {
      LastEnd(m[1..], next);
      hide *;
    } else {
      assert PieceRegions(m[1..], next) == [] && Concat(m[1..]) == "";
      hide *;
    }
  }

  lemma DisconnectAppended(text: string, root: string, entry: Entry)
    requires Renderable(root, entry) && Headers(text).Some? && Ours(text, root) == []
    ensures var c := ConnectText(text, root, entry);
      && Headers(c).Some? && Ours(c, root) != []
      && DisconnectText(c, root) == CollapseTail(Base(text))
  {
    hide Scan, ConnectedDoc, Headers, Ours, SpliceFrom, SortRegions, CollapseTail, Separator, Renderable, BlockPieces,
      ConnectText;
    var pre, b := ConnectAppend(text, root, entry);
    FormRegions(pre, b, [], root, entry);
    OutsideOfForm(pre, b, [], root, entry);
    var m := BlockPieces(root, entry);
    BlockFirst(root, entry, []);
    assert m + [] == m;
    LastEnd(m, |pre| + |Concat(b)|);
    ConcatAppend(b, m);
    assert pre + Concat(b) + "" == pre + Concat(b);
  }

  /** Disconnect undoes connect: on a scannable text without our tables it gives the
      text back byte for byte exactly when the text is restorable. */
  lemma DisconnectUndoesConnect(text: string, root: string, entry: Entry)
    requires Renderable(root, entry) && Headers(text).Some? && Ours(text, root) == []
    ensures var c := ConnectText(text, root, entry);
      && Headers(c).Some? && Ours(c, root) != []
      && (DisconnectText(c, root) == text <==> Restorable(text))
  {
    hide Headers, Ours, ConnectText, DisconnectText, Renderable;
    DisconnectAppended(text, root, entry);
    if text != "" { CollapseRestores(text); }
  }

  lemma {:induction false} BlankFromAtMost(s: string, line: string, i: nat)
    requires i < |line| && line[i] != ' ' && line[i] != '\t' && line[i] != '\n'
    ensures BlankFrom(s + line) > |s| + i
  {
    var t := s + line;
    if i < |line| - 1 {
      assert t[..|t| - 1] == s + line[..|line| - 1];
      BlankFromAtMost(s, line[..|line| - 1], i);
    } else {
      assert t[|t| - 1] == line[i];
    }
  }

  /** A text ended by one newline after a line with a character other than blanks is
      restorable; a text that ends no line, or ends in two newlines, is not. */
  lemma RestorableTexts(body: string, line: string, i: nat, text: string)
    requires i < |line| && line[i] != ' ' && line[i] != '\t' && '\n' !in line
    ensures Restorable(body + line + "\n")
    ensures text != "" && text[|text| - 1] != '\n' ==> !Restorable(text)
    ensures !Restorable(text + "\n\n")
  {
    assert line[i] in line;
    var t := body + line + "\n";
    assert t == body + (line + "\n");
    BlankFromAtMost(body, line, i);
    BlankFromAppend(body + line, "\n");
    assert forall j :: |body| <= j < |t| - 1 ==> t[j] == line[j - |body|] && line[j - |body|] in line;
    var u := text + "\n\n";
    assert u[|u| - 1] == '\n' && u[|u| - 2] == '\n';
    BlankTail(u);
  }

  lemma {:induction false} NewlinesScan(text: string, off: nat)
    requires forall c :: c in text ==> c == '\n'
    ensures Scan(text, CLEAN, off) == Some([])
  {
    hide Scan, StepLine;
    if text == "" {
      ScanNothing(CLEAN, off);
    } else {
      assert text[0] in text && FirstLine(text) == "" && AfterLine(text) == text[1..];
      EmptyLine();
      ScanStep(text, CLEAN, off);
      forall c | c in text[1..] ensures c == '\n' { assert c in text; }
      NewlinesScan(text[1..], off + 1);
      var none: seq<Header> := [];
      assert none + none == none;
    }
  }

  /** Two newlines or more are a text without tables that disconnecting does not give back. */
  lemma NewlinesLost(text: string, root: string, entry: Entry)
    requires Renderable(root, entry) && |text| >= 2 && forall c :: c in text ==> c == '\n'
    ensures Headers(text) == Some([]) && Ours(text, root) == []
    ensures var c := ConnectText(text, root, entry);
      Headers(c).Some? && Ours(c, root) != [] && DisconnectText(c, root) != text
  {
    NewlinesScan(text, 0);
    NoneWithoutTables(text, root);
    NotRestorable(text);
    hide *;
    DisconnectUndoesConnect(text, root, entry);
  }

  lemma NoneWithoutTables(text: string, root: string)
    requires Headers(text) == Some([])
    ensures Ours(text, root) == []
  {
  }

  lemma NotRestorable(text: string)
    requires |text| >= 2 && forall c :: c in text ==> c == '\n'
    ensures !Restorable(text)
  {
    hide Restorable;
    var n := |text| - 2;
    assert text[n] in text && text[n + 1] in text;
    assert text == text[..n] + "\n\n";
    RestorableTexts("", "x", 0, text[..n]);
  }

  lemma EmptyLine()
    ensures StepLine("", CLEAN) == Line(None, CLEAN)
  {
  }

  // ---- After disconnecting -----------------------------------------------------------------------------

  predicate BlankOrNewline(c: char)
  {
    c == ' ' || c == '\t' || c == '\n'
  }

  lemma {:induction false} BlankChars(line: string, st: State)
    requires forall c :: c in line ==> c == ' ' || c == '\t'
    ensures Chars(line, st) == Some(st)
  {
    if line != "" {
      assert line[0] in line && forall c :: c in line[1..] ==> c in line;
      BlankChars(line[1..], st);
    }
  }

  lemma BlankLineStep(line: string, st: State)
    requires forall c :: c in line ==> c == ' ' || c == '\t'
    ensures StepLine(line, st) == Rejected || StepLine(line, st) == Line(None, st)
  {
    hide Chars;
    if line != "" { assert line[|line| - 1] in line; }
    BlankChars(line, st);
    SpanAll(line, IsSpace);
    assert line[|line|..] == "";
  }

  lemma {:induction false} ScanBlanks(w: string, st: State, off: nat)
    requires forall c :: c in w ==> BlankOrNewline(c)
    ensures Scan(w, st, off).Some? ==> st == CLEAN && Scan(w, st, off).value == []
    decreases |w|
  {
    hide Scan, StepLine;
    if w == "" {
      ScanNothing(st, off);
    } else {
      ScanStep(w, st, off);
      forall c | c in FirstLine(w) ensures c == ' ' || c == '\t' {
        var i :| 0 <= i < |FirstLine(w)| && FirstLine(w)[i] == c;
        assert w[i] == c && c in w;
      }
      BlankLineStep(FirstLine(w), st);
      var rest := AfterLine(w);
      assert forall c :: c in rest ==> c in w;
      ScanBlanks(rest, st, off + |w| - |rest|);
      var none: seq<Header> := [];
      assert none + none == none;
    }
  }

  /** Dropping blank lines from the end of a scannable text changes no header. */
  lemma {:induction false} ScanDropBlanks(a: string, w: string, st: State, off: nat)
    requires EndsLine(a) && (forall c :: c in w ==> BlankOrNewline(c)) && Scan(a + w, st, off).Some?
    ensures Scan(a, st, off) == Scan(a + w, st, off)
    decreases |a|
  {
    hide Scan, StepLine, FirstLine, AfterLine, EndsLine;
    if a == "" {
      assert a + w == w;
      ScanBlanks(w, st, off);
      ScanNothing(st, off);
    } else {
      FirstLineOfAppend(a, w);
      ScanStep(a, st, off);
      ScanStep(a + w, st, off);
      var rest := AfterLine(a);
      ScanDropBlanks(rest, w, StepLine(FirstLine(a), st).st, off + |a| - |rest|);
      assert off + |a + w| - |rest + w| == off + |a| - |rest|;
    }
  }

  lemma {:induction false} BlankFromBlank(s: string)
    ensures forall i :: BlankFrom(s) <= i < |s| ==> BlankOrNewline(s[i])
  {
    if s != "" { BlankFromBlank(s[..|s| - 1]); }
  }

  lemma CollapseKeepsHeaders(s: string)
    requires Headers(s).Some?
    ensures Headers(CollapseTail(s)) == Headers(s)
  {
    hide Scan, BlankFrom, NewlineFrom;
    var k := NewlineFrom(s, BlankFrom(s));
    BlankFromBlank(s);
    if k < |s| {
      var a, w := s[..k] + "\n", s[k + 1..];
      assert s == a + w;
      ScanDropBlanks(a, w, CLEAN, 0);
    }
  }

  lemma OutsideScans(text: string, root: string)
    requires Headers(text).Some? && Ours(text, root) != []
    ensures Headers(Outside(text, root)).Some? && Ours(Outside(text, root), root) == []
  {
    hide Scan, PieceOk, OurPath, OurPieceRegions, SpliceFrom, SortRegions, EndsLine;
    var pre, ps := Decompose(text);
    hide Headers;
    OursOfDoc(pre, ps, root);
    var b, t := SplitAtOurs(ps, root);
    if t == [] {
      assert b + t == b;
      NoOurs(b, |pre|, root);
    }
    SpliceDoc(pre, b, t, root, None);
    var ours := OurPieceRegions(ps, |pre|, root);
    SpliceNoBlock(text, SortRegions(ours), 0, Some(ours[0].start), None);
    var a := NotOurs(t, root);
    KeptDocOk(pre, b, t, root);
    ConcatAppend(b, a);
    assert pre + Concat(b) + "" + Concat(a) == pre + Concat(b + a);
    OursOfDoc(pre, b + a, root);
    NoOurs(b + a, |pre|, root);
  }

  lemma KeptDocOk(pre: string, b: seq<Piece>, t: seq<Piece>, root: string)
    requires DocOk(pre, b + t) && NoneOurs(b, root)
    ensures DocOk(pre, b + NotOurs(t, root)) && NoneOurs(b + NotOurs(t, root), root)
  {
    hide PieceOk, OurPath, EndsLine, Headers;
    var a := NotOurs(t, root);
    PartsOk(b, t);
    NotOursKeeps(t, root);
    if t == [] {
      assert b + a == b + t;
    } else {
      assert PiecesOk([]);
      JoinPieces(b, [], a);
      assert b + ([] + a) == b + a;
    }
  }

  /** Disconnecting leaves a scannable text without our tables: a second disconnect
      finds nothing to remove. */
  lemma DisconnectLeavesNone(text: string, root: string, entry: Entry)
    requires Headers(text).Some? && Ours(text, root) != []
    ensures var d := DisconnectText(text, root);
      Headers(d).Some? && Ours(d, root) == [] && Apply(d, root, entry, true) == Skipped
  {
    hide Headers, Ours, CollapseTail, TomlServerBlock;
    OutsideScans(text, root);
    var out := Outside(text, root);
    CollapseKeepsHeaders(out);
    SameHeadersNoOurs(out, CollapseTail(out), root);
  }

  lemma SameHeadersNoOurs(text: string, base: string, root: string)
    requires Headers(text).Some? && Headers(base) == Headers(text) && Ours(text, root) == []
    ensures Ours(base, root) == []
  {
    hide Scan, OurPath, OurPieceRegions, PieceOk, Headers;
    var pre, b := Decompose(base);
    NoOursKept(text, base, pre, b, root);
    OursOfDoc(pre, b, root);
    NoOurs(b, |pre|, root);
  }
}
