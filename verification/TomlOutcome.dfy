/** What the operation does to a file, region by region and byte by byte. */
module TomlOutcome {
  import opened Options
  import opened TomlScanner
  import opened TomlPieces
  import opened TomlBlock
  import opened TomlConnect
  import opened TomlRoundTrip

  /** A table of the server entry, under its name or a former one. */
  predicate Named(r: Region, root: string)
  {
    |r.path| >= 2 && r.path[0] == root
    && (r.path[1] == "groundfloor-atlas" || r.path[1] == "atlas" || r.path[1] == "lorebase")
  }

  ghost predicate Inside(text: string, rs: seq<Region>)
  {
    forall r :: r in rs ==> r.start <= r.end <= |text|
  }

  /** The bytes of the regions that are not the entry's, in order. */
  ghost function Kept(text: string, rs: seq<Region>, root: string): string
    requires Inside(text, rs)
  {
    if rs == [] then ""
    else
      (if Named(rs[0], root) then "" else text[rs[0].start..rs[0].end]) +
      Kept(text, rs[1..], root)
  }

  function Preamble(text: string, rs: seq<Region>): string
  {
    if rs == [] || rs[0].start > |text| then text else text[..rs[0].start]
  }

  // ---- The pieces of a document as regions of its text --------------------------------------

  lemma NamedIsOurs(r: Region, root: string)
    ensures Named(r, root) <==> OurPath(r.path, root)
  {
  }

  /** The text has the pieces from `off` on. */
  ghost predicate Holds(text: string, ps: seq<Piece>, off: nat)
  {
    off + |Concat(ps)| <= |text| && text[off..off + |Concat(ps)|] == Concat(ps)
  }

  lemma HoldsRest(text: string, ps: seq<Piece>, off: nat)
    requires Holds(text, ps, off) && ps != []
    ensures Holds(text, ps[1..], off + |ps[0].text|)
    ensures off + |ps[0].text| <= |text| && text[off..off + |ps[0].text|] == ps[0].text
  {
    var n, all := |ps[0].text|, Concat(ps);
    assert all == ps[0].text + Concat(ps[1..]);
    assert text[off..off + n] == all[..n];
    assert text[off + n..off + |all|] == all[n..];
  }

  lemma {:induction false} KeptIsNotOurs(text: string, ps: seq<Piece>, off: nat, root: string)
    requires Holds(text, ps, off)
    ensures Inside(text, PieceRegions(ps, off))
    ensures Kept(text, PieceRegions(ps, off), root) == Concat(NotOurs(ps, root))
  {
    hide Named, OurPath, Holds, Concat, NotOurs;
    KeptStep(ps, root);
    if ps != [] {
      HoldsRest(text, ps, off);
      var next := off + |ps[0].text|;
      var rs := PieceRegions(ps, off);
      NamedIsOurs(rs[0], root);
      KeptIsNotOurs(text, ps[1..], next, root);
      assert rs == [rs[0]] + PieceRegions(ps[1..], next);
    }
  }

  // ---- The blank tail -----------------------------------------------------------------------

  ghost predicate Blanks(s: string)
  {
    forall c :: c in s ==> c == ' ' || c == '\t' || c == '\n'
  }

  /** From this newline on the text is blank. */
  ghost predicate BlankFromNewline(s: string, k: nat)
  {
    k < |s| && s[k] == '\n' && Blanks(s[k..])
  }

  /** `d` is `s` with its tail, from the first newline after which all is blank, made one
      newline; without such a newline it is `s`. */
  ghost predicate TailCut(s: string, d: string)
  {
    if exists k: nat :: BlankFromNewline(s, k) then
      exists k: nat :: BlankFromNewline(s, k) && (forall j: nat :: j < k ==> !BlankFromNewline(s, j)) &&
        d == s[..k] + "\n"
    else d == s
  }

  lemma {:induction false} BlankFromExactly(s: string, j: nat)
    requires j <= |s|
    ensures Blanks(s[j..]) <==> BlankFrom(s) <= j
  {
    if s != "" && (s[|s| - 1] == '\n' || s[|s| - 1] == ' ' || s[|s| - 1] == '\t') {
      var t := s[..|s| - 1];
      if j < |s| {
        BlankFromExactly(t, j);
        assert s[j..] == t[j..] + [s[|s| - 1]];
        assert forall c :: c in s[j..] <==> c in t[j..] || c == s[|s| - 1];
      } else {
        assert BlankFrom(s) <= |t|;
      }
    } else if j < |s| {
      assert s[|s| - 1] in s[j..];
    }
  }

  lemma CollapseExactly(s: string)
    ensures TailCut(s, CollapseTail(s))
  {
    var k := NewlineFrom(s, BlankFrom(s));
    forall j: nat | j < |s| ensures BlankFromNewline(s, j) <==> s[j] == '\n' && BlankFrom(s) <= j {
      BlankFromExactly(s, j);
    }
    if k < |s| { assert BlankFromNewline(s, k); }
  }

  // ---- Disconnecting ----------------------------------------------------------------------------

  /** A scannable text without tables of ours is left alone. One with them becomes its preamble
      and its other regions, byte for byte and in order; when the last region was ours, the
      blank tail is cut. */
  ghost predicate Disconnects(text: string, rs: seq<Region>, root: string, o: Outcome)
  {
    && Inside(text, rs)
    && if forall r :: r in rs ==> !Named(r, root) then o == Skipped
       else
         var kept := Preamble(text, rs) + Kept(text, rs, root);
         o.Disconnected? && if Named(rs[|rs| - 1], root) then TailCut(kept, o.text) else o.text == kept
  }

  lemma {:induction false} LastRegion(ps: seq<Piece>, off: nat, root: string)
    requires ps != [] && (forall p :: p in ps ==> p.text != "")
    ensures var ours := OurPieceRegions(ps, off, root);
      && (ours != [] ==> ours[|ours| - 1].end <= off + |Concat(ps)|)
      && (ours != [] ==> (ours[|ours| - 1].end == off + |Concat(ps)| <==> OurPiece(ps[|ps| - 1], root)))
      && (OurPiece(ps[|ps| - 1], root) ==> ours != [])
  {
    hide OurPath, OurPieceRegions, Concat, PieceRegions;
    var next := off + |ps[0].text|;
    OurPieceStep(ps, off, root);
    NoPieces(next, root);
    KeptStep(ps, root);
    KeptStep(ps[1..], root);
    if |ps| > 1 {
      assert ps[1] in ps;
      assert forall p :: p in ps[1..] ==> p in ps;
      LastRegion(ps[1..], next, root);
    }
  }

  lemma {:induction false} RegionPaths(ps: seq<Piece>, off: nat)
    ensures var rs := PieceRegions(ps, off); |rs| == |ps| && forall i :: 0 <= i < |ps| ==> rs[i].path == ps[i].path
  {
    if ps != [] { RegionPaths(ps[1..], off + |ps[0].text|); }
  }

  lemma NamedSomewhere(ps: seq<Piece>, off: nat, root: string)
    ensures (forall r :: r in PieceRegions(ps, off) ==> !Named(r, root)) <==> NoneOurs(ps, root)
  {
    hide Named, OurPath, PieceRegions;
    RegionPaths(ps, off);
    var rs := PieceRegions(ps, off);
    forall i | 0 <= i < |ps| ensures Named(rs[i], root) <==> OurPiece(ps[i], root) { NamedIsOurs(rs[i], root); }
    if forall r :: r in rs ==> !Named(r, root) {
      forall p | p in ps ensures !OurPiece(p, root) {
        var i :| 0 <= i < |ps| && ps[i] == p;
        assert rs[i] in rs;
      }
    }
    if NoneOurs(ps, root) {
      forall r | r in rs ensures !Named(r, root) {
        var i :| 0 <= i < |rs| && rs[i] == r;
        assert ps[i] in ps;
      }
    }
  }

  lemma NoOursExactly(ps: seq<Piece>, off: nat, root: string)
    ensures OurPieceRegions(ps, off, root) == [] <==> NoneOurs(ps, root)
  {
    hide OurPieceRegions, NoneOurs;
    if NoneOurs(ps, root) { NoOurs(ps, off, root); }
    if OurPieceRegions(ps, off, root) == [] { SomeOurs(ps, off, root); }
  }

  lemma DisconnectExactly(text: string, root: string, entry: Entry)
    requires Headers(text).Some?
    ensures Disconnects(text, Regions(Headers(text).value, |text|), root, Apply(text, root, entry, true))
  {
    hide Scan, PieceOk, OurPath, OurPieceRegions, Named, SpliceFrom, SortRegions, CollapseTail, TailCut, EndsLine, Kept,
      Concat, PieceRegions, NotOurs;
    var pre, ps := Decompose(text);
    hide Headers;
    OursOfDoc(pre, ps, root);
    RegionsOfPieces(ps, |pre|, |text|);
    assert text[|pre|..|pre| + |Concat(ps)|] == Concat(ps);
    KeptIsNotOurs(text, ps, |pre|, root);
    NamedSomewhere(ps, |pre|, root);
    NoOursExactly(ps, |pre|, root);
    if Ours(text, root) != [] { DisconnectFound(text, pre, ps, root); }
  }

  lemma DisconnectFound(text: string, pre: string, ps: seq<Piece>, root: string)
    requires DocOk(pre, ps) && text == pre + Concat(ps) && OurPieceRegions(ps, |pre|, root) != []
    requires Inside(text, PieceRegions(ps, |pre|))
    ensures var rs := PieceRegions(ps, |pre|);
      var kept, d := Preamble(text, rs) + Kept(text, rs, root), Disconnect(text, OurPieceRegions(ps, |pre|, root));
      rs != [] && if Named(rs[|rs| - 1], root) then TailCut(kept, d) else d == kept
  {
    hide PieceOk, OurPath, OurPieceRegions, Named, SpliceFrom, SortRegions, CollapseTail, TailCut, Kept, Concat,
      PieceRegions, NotOurs, Preamble, PreambleOk;
    DisconnectDoc(text, pre, ps, root);
    PreambleIs(text, pre, ps);
    DocIs(text, pre, ps);
    KeptIsNotOurs(text, ps, |pre|, root);
    PieceNonEmpty(ps);
    NoPieces(|pre|, root);
    LastRegion(ps, |pre|, root);
    RegionPaths(ps, |pre|);
    var rs := PieceRegions(ps, |pre|);
    NamedIsOurs(rs[|rs| - 1], root);
    CollapseExactly(pre + Concat(NotOurs(ps, root)));
  }

  lemma DocIs(text: string, pre: string, ps: seq<Piece>)
    requires text == pre + Concat(ps)
    ensures Holds(text, ps, |pre|)
  {
    hide Concat;
  }

  lemma PreambleIs(text: string, pre: string, ps: seq<Piece>)
    requires text == pre + Concat(ps)
    ensures Preamble(text, PieceRegions(ps, |pre|)) == pre
  {
    if ps == [] { assert pre + "" == pre; }
  }

  lemma DisconnectDoc(text: string, pre: string, ps: seq<Piece>, root: string)
    requires DocOk(pre, ps) && text == pre + Concat(ps) && OurPieceRegions(ps, |pre|, root) != []
    ensures SpliceFrom(text, SortRegions(OurPieceRegions(ps, |pre|, root)), 0, None, None) ==
            pre + Concat(NotOurs(ps, root))
  {
    hide PieceOk, OurPath, OurPieceRegions, SpliceFrom, SortRegions, Concat, PreambleOk, PiecesOk;
    var b, t := SplitAtOurs(ps, root);
    if t == [] {
      assert b + t == b;
      NoOurs(b, |pre|, root);
    } else {
      SpliceDoc(pre, b, t, root, None);
      var ours := OurPieceRegions(ps, |pre|, root);
      SpliceNoBlock(text, SortRegions(ours), 0, Some(ours[0].start), None);
      ConcatAppend(b, NotOurs(t, root));
      NotOursAppend(b, t, root);
      assert pre + Concat(b) + "" + Concat(NotOurs(t, root)) == pre + (Concat(b) + Concat(NotOurs(t, root)));
    }
  }

  lemma {:induction false} NotOursAppend(b: seq<Piece>, t: seq<Piece>, root: string)
    requires NoneOurs(b, root)
    ensures NotOurs(b + t, root) == b + NotOurs(t, root)
  {
    hide OurPath;
    if b == [] {
      assert b + t == t && b + NotOurs(t, root) == NotOurs(t, root);
    } else {
      assert b[0] in b && (b + t)[1..] == b[1..] + t;
      assert forall p :: p in b[1..] ==> p in b;
      NotOursAppend(b[1..], t, root);
      assert b == [b[0]] + b[1..];
    }
  }

  // ---- Connecting -----------------------------------------------------------------------------

  ghost predicate Present(rs: seq<Region>, root: string, key: string)
  {
    exists r :: r in rs && |r.path| >= 2 && r.path[0] == root && r.path[1] == key
  }

  predicate EndsTwo(s: string)
  {
    |s| >= 2 && s[|s| - 1] == '\n' && s[|s| - 2] == '\n'
  }

  /** The fewest newlines after which the text ends in an empty line. */
  ghost predicate Gap(text: string, gap: string)
  {
    (forall c :: c in gap ==> c == '\n') && EndsTwo(text + gap) && (gap != "" ==> !EndsTwo(text + gap[1..]))
  }

  /** The block replaces the first table of ours, the others go, and every other region stays as
      it is; without one the block is put at the end, after one empty line. The former names
      found are reported. */
  ghost predicate Connects(text: string, rs: seq<Region>, root: string, block: string, o: Outcome)
  {
    && Inside(text, rs) && o.Connected?
    && o.migratedFrom == (if Present(rs, root, "atlas") then ["atlas"] else []) +
                         (if Present(rs, root, "lorebase") then ["lorebase"] else [])
    && if exists r :: r in rs && Named(r, root) then
         exists i :: 0 <= i < |rs| && Named(rs[i], root) && (forall j :: 0 <= j < i ==> !Named(rs[j], root)) &&
           o.text == Preamble(text, rs) + Kept(text, rs[..i], root) + block + Kept(text, rs[i..], root)
       else if text == "" then o.text == block
       else exists gap :: Gap(text, gap) && o.text == text + gap + block
  }

  lemma GapExactly(text: string)
    requires text != ""
    ensures Gap(text, Separator(text))
  {
    SeparatorCases(text);
    hide Separator;
    assert "\n\n"[1..] == "\n" && "\n"[1..] == "" && text + "" == text;
  }

  lemma {:induction false} OurRegionsAre(rs: seq<Region>, root: string)
    ensures forall r :: r in OurRegions(rs, root) <==> r in rs && OurPath(r.path, root)
  {
    hide OurPath;
    if rs != [] {
      OurRegionsAre(rs[1..], root);
      assert rs == [rs[0]] + rs[1..];
    }
  }

  lemma PresentKeys(rs: seq<Region>, root: string, key: string)
    requires key == "atlas" || key == "lorebase"
    ensures key in KeysOf(OurRegions(rs, root)) <==> Present(rs, root, key)
  {
    OurRegionsAre(rs, root);
    if Present(rs, root, key) {
      var r :| r in rs && |r.path| >= 2 && r.path[0] == root && r.path[1] == key;
      assert r in OurRegions(rs, root);
    }
  }

  lemma MigratedTwo(a: string, b: string, present: set<string>)
    requires a != ServerKey() && b != ServerKey()
    ensures Migrated([a, b], present) == (if a in present then [a] else []) + (if b in present then [b] else [])
  {
    hide ServerKey;
    assert [a, b][1..] == [b] && [b][1..] == [];
    assert Migrated([b], present) == if b in present then [b] else [];
  }

  lemma MigratedExactly(rs: seq<Region>, root: string)
    ensures Migrated(LegacyKeys(), KeysOf(OurRegions(rs, root))) ==
            (if Present(rs, root, "atlas") then ["atlas"] else []) +
            (if Present(rs, root, "lorebase") then ["lorebase"] else [])
  {
    PresentKeys(rs, root, "atlas");
    PresentKeys(rs, root, "lorebase");
    hide KeysOf, OurRegions, Present;
    assert |"atlas"| != |ServerKey()| && |"lorebase"| != |ServerKey()|;
    MigratedTwo("atlas", "lorebase", KeysOf(OurRegions(rs, root)));
  }

  lemma {:induction false} RegionsAppendPieces(b: seq<Piece>, t: seq<Piece>, off: nat)
    ensures PieceRegions(b + t, off) == PieceRegions(b, off) + PieceRegions(t, off + |Concat(b)|)
  {
    if b == [] {
      assert b + t == t;
    } else {
      var next := off + |b[0].text|;
      assert (b + t)[1..] == b[1..] + t;
      RegionsAppendPieces(b[1..], t, next);
      var first, mid, last := [Region(b[0].path, off, next)], PieceRegions(b[1..], next),
        PieceRegions(t, off + |Concat(b)|);
      assert next + |Concat(b[1..])| == off + |Concat(b)|;
      hide PieceRegions, Concat;
      assert first + (mid + last) == first + mid + last;
    }
  }

  lemma ConnectDoc(text: string, pre: string, ps: seq<Piece>, root: string, block: string)
    requires DocOk(pre, ps) && text == pre + Concat(ps) && OurPieceRegions(ps, |pre|, root) != []
    ensures var rs, ours := PieceRegions(ps, |pre|), OurPieceRegions(ps, |pre|, root);
      && Inside(text, rs)
      && exists i :: 0 <= i < |rs| && Named(rs[i], root) && (forall j :: 0 <= j < i ==> !Named(rs[j], root)) &&
           SpliceFrom(text, SortRegions(ours), 0, Some(block), Some(ours[0].start)) ==
           Preamble(text, rs) + Kept(text, rs[..i], root) + block + Kept(text, rs[i..], root)
  {
    hide PieceOk, OurPath, OurPieceRegions, SpliceFrom, SortRegions, Concat, PreambleOk, PiecesOk, Named, Kept,
      Preamble, PieceRegions, NotOurs, Holds;
    var b, t := SplitAtOurs(ps, root);
    if t == [] {
      assert b + t == b;
      NoOurs(b, |pre|, root);
    } else {
      SpliceDoc(pre, b, t, root, Some(block));
      PreambleIs(text, pre, ps);
      DocHolds(text, pre, b, t);
      KeptIsNotOurs(text, ps, |pre|, root);
      KeptIsNotOurs(text, b, |pre|, root);
      KeptIsNotOurs(text, t, |pre| + |Concat(b)|, root);
      NoOurs(b, |pre|, root);
      RegionsAppendPieces(b, t, |pre|);
      RegionPaths(b, |pre|);
      FirstNamed(ps, b, t, |pre|, root);
      var rs := PieceRegions(ps, |pre|);
      assert rs[..|b|] == PieceRegions(b, |pre|) && rs[|b|..] == PieceRegions(t, |pre| + |Concat(b)|);
    }
  }

  lemma DocHolds(text: string, pre: string, b: seq<Piece>, t: seq<Piece>)
    requires text == pre + Concat(b + t)
    ensures Holds(text, b + t, |pre|) && Holds(text, b, |pre|) && Holds(text, t, |pre| + |Concat(b)|)
  {
    ConcatAppend(b, t);
    hide Concat;
  }

  lemma FirstNamed(ps: seq<Piece>, b: seq<Piece>, t: seq<Piece>, off: nat, root: string)
    requires ps == b + t && NoneOurs(b, root) && t != [] && OurPiece(t[0], root)
    ensures var rs := PieceRegions(ps, off);
      |b| < |rs| && Named(rs[|b|], root) && forall j :: 0 <= j < |b| ==> !Named(rs[j], root)
  {
    hide Named, OurPath, PieceRegions;
    RegionPaths(ps, off);
    var rs := PieceRegions(ps, off);
    forall j | 0 <= j <= |b| ensures Named(rs[j], root) <==> OurPiece(ps[j], root) { NamedIsOurs(rs[j], root); }
    forall j | 0 <= j < |b| ensures !OurPiece(ps[j], root) { assert ps[j] in b; }
  }

  lemma ConnectExactly(text: string, root: string, entry: Entry)
    requires Headers(text).Some?
    ensures var rs := Regions(Headers(text).value, |text|);
      Connects(text, rs, root, TomlServerBlock(root, entry), Apply(text, root, entry, false))
  {
    hide Scan, PieceOk, OurPath, OurPieceRegions, Named, SpliceFrom, SortRegions, EndsLine, Kept, Concat, PieceRegions,
      NotOurs, Preamble, Separator, Gap, Migrated, KeysOf, Present, TomlServerBlock, Holds;
    var pre, ps := Decompose(text);
    hide Headers;
    OursOfDoc(pre, ps, root);
    RegionsOfPieces(ps, |pre|, |text|);
    assert ps + [] == ps;
    DocHolds(text, pre, ps, []);
    KeptIsNotOurs(text, ps, |pre|, root);
    NamedSomewhere(ps, |pre|, root);
    NoOursExactly(ps, |pre|, root);
    MigratedExactly(PieceRegions(ps, |pre|), root);
    if Ours(text, root) != [] {
      ConnectDoc(text, pre, ps, root, TomlServerBlock(root, entry));
    } else if text != "" {
      GapExactly(text);
    }
  }

  /** Without a scan nothing is done. */
  lemma FailsExactly(text: string, root: string, entry: Entry, remove: bool)
    ensures Apply(text, root, entry, remove) == Failed <==> Headers(text).None?
  {
    hide Headers, Disconnect, Connect, TomlServerBlock;
  }
}
