/** Connecting and disconnecting the server entry in the text of a TOML file. */
module TomlConnect {
  import opened Options
  import opened TomlScanner
  import opened TomlPieces
  import opened TomlBlock

  // ---- Our tables -------------------------------------------------------------------

  /** The path of the server table, of a table under it, or of one with a former name. */
  predicate OurPath(path: seq<string>, root: string)
  {
    |path| >= 2 && path[0] == root && path[1] in [ServerKey()] + LegacyKeys()
  }

  function OurRegions(rs: seq<Region>, root: string): seq<Region>
  {
    if rs == [] then []
    else (if OurPath(rs[0].path, root) then [rs[0]] else []) + OurRegions(rs[1..], root)
  }

  // ---- Splicing ------------------------------------------------------------------------

  /** `slice` with non-negative bounds. */
  function Slice(s: string, a: nat, b: nat): string
  {
    var e := if b < |s| then b else |s|;
    if a < e then s[a..e] else ""
  }

  function InsertRegion(r: Region, rs: seq<Region>): seq<Region>
  {
    if rs == [] || r.start <= rs[0].start then [r] + rs else [rs[0]] + InsertRegion(r, rs[1..])
  }

  function SortRegions(rs: seq<Region>): seq<Region>
  {
    if rs == [] then [] else InsertRegion(rs[0], SortRegions(rs[1..]))
  }

  /** The text from `pos` on, without the regions, and with the block put where the
      region starting at `at` was. */
  function SpliceFrom(text: string, rs: seq<Region>, pos: nat, block: Option<string>, at: Option<nat>): string
  {
    if rs == [] then Slice(text, pos, |text|)
    else
      Slice(text, pos, rs[0].start) +
      (if block.Some? && at == Some(rs[0].start) then block.value else "") +
      SpliceFrom(text, rs[1..], rs[0].end, block, at)
  }

  lemma SpliceStep(text: string, r: Region, rs: seq<Region>, pos: nat, block: Option<string>, at: Option<nat>)
    ensures SpliceFrom(text, [r] + rs, pos, block, at) ==
            Slice(text, pos, r.start) + (if block.Some? && at == Some(r.start) then block.value else "") +
            SpliceFrom(text, rs, r.end, block, at)
  {
    assert ([r] + rs)[1..] == rs;
  }

  lemma SpliceEnd(text: string, pos: nat, block: Option<string>, at: Option<nat>)
    ensures SpliceFrom(text, [], pos, block, at) == Slice(text, pos, |text|)
  {
  }

  /** `spliceToml`. */
  method SpliceToml(text: string, regions: seq<Region>, block: Option<string>, at: Option<nat>) returns (out: string)
    ensures out == SpliceFrom(text, SortRegions(regions), 0, block, at)
  {
    hide SpliceFrom, Slice;
    var rs := SortRegions(regions);
    out := "";
    var pos := 0;
    assert rs[0..] == rs && "" + SpliceFrom(text, rs, 0, block, at) == SpliceFrom(text, rs, 0, block, at);
    for i := 0 to |rs|
      invariant out + SpliceFrom(text, rs[i..], pos, block, at) == SpliceFrom(text, rs, 0, block, at)
    {
      assert rs[i..] == [rs[i]] + rs[i + 1..];
      SpliceStep(text, rs[i], rs[i + 1..], pos, block, at);
      out := out + Slice(text, pos, rs[i].start);
      if block.Some? && at == Some(rs[i].start) {
        out := out + block.value;
      }
      pos := rs[i].end;
    }
    assert rs[|rs|..] == [];
    SpliceEnd(text, pos, block, at);
    out := out + Slice(text, pos, |text|);
  }

  ghost predicate StartsAscend(rs: seq<Region>)
  {
    forall i, j :: 0 <= i < j < |rs| ==> rs[i].start <= rs[j].start
  }

  /** Sorting regions that are in order changes nothing. */
  lemma {:induction false} SortKeepsAscending(rs: seq<Region>)
    requires StartsAscend(rs)
    ensures SortRegions(rs) == rs
  {
    if rs != [] {
      SortKeepsAscending(rs[1..]);
      assert rs == [rs[0]] + rs[1..];
    }
  }

  // ---- Connect and disconnect ---------------------------------------------------------------

  /** The blank characters that end a text: the index they start at. */
  function BlankFrom(s: string): (k: nat)
    ensures k <= |s|
  {
    if s != "" && (s[|s| - 1] == '\n' || s[|s| - 1] == ' ' || s[|s| - 1] == '\t') then BlankFrom(s[..|s| - 1]) else |s|
  }

  /** The first newline at or after `i`, or the end. */
  function NewlineFrom(s: string, i: nat): (k: nat)
    requires i <= |s|
    ensures i <= k <= |s|
    ensures k < |s| ==> s[k] == '\n'
    ensures forall j :: i <= j < k ==> s[j] != '\n'
    decreases |s| - i
  {
    if i == |s| || s[i] == '\n' then i else NewlineFrom(s, i + 1)
  }

  /** Replaces the first newline that only blanks follow, and those blanks, by one newline. */
  function CollapseTail(s: string): string
  {
    var k := NewlineFrom(s, BlankFrom(s));
    if k == |s| then s else s[..k] + "\n"
  }

  /** What is put between a text and a block appended to it. */
  function Separator(text: string): string
  {
    var base := if EndsLine(text) && text != "" then text else text + "\n";
    (if EndsLine(text) && text != "" then "" else "\n") +
    (if |base| >= 2 && base[|base| - 2..] == "\n\n" then "" else "\n")
  }

  datatype Outcome =
    | Failed
    | Skipped
    | Disconnected(text: string)
    | Connected(text: string, migratedFrom: seq<string>)

  function KeysOf(rs: seq<Region>): set<string>
  {
    set r | r in rs && |r.path| >= 2 :: r.path[1]
  }

  function Migrated(keys: seq<string>, present: set<string>): seq<string>
  {
    if keys == [] then []
    else (if keys[0] in present && keys[0] != ServerKey() then [keys[0]] else []) + Migrated(keys[1..], present)
  }

  function Connect(text: string, ours: seq<Region>, block: string): string
  {
    if ours != [] then SpliceFrom(text, SortRegions(ours), 0, Some(block), Some(ours[0].start))
    else if text == "" then block
    else text + Separator(text) + block
  }

  function Disconnect(text: string, ours: seq<Region>): string
    requires ours != []
  {
    var out := SpliceFrom(text, SortRegions(ours), 0, None, None);
    if ours[|ours| - 1].end == |text| then CollapseTail(out) else out
  }

  /** Our regions of a scannable text. */
  function Ours(text: string, root: string): seq<Region>
    requires Headers(text).Some?
  {
    OurRegions(Regions(Headers(text).value, |text|), root)
  }

  /** The whole operation, from the text of the file to the outcome. */
  function Apply(text: string, root: string, entry: Entry, remove: bool): Outcome
  {
    if Headers(text).None? then Failed
    else
      var ours := Ours(text, root);
      if remove then if ours == [] then Skipped else Disconnected(Disconnect(text, ours))
      else Connected(Connect(text, ours, TomlServerBlock(root, entry)), Migrated(LegacyKeys(), KeysOf(ours)))
  }

  /** `applyToml`, on text. */
  method ApplyToml(text: string, root: string, entry: Entry, remove: bool) returns (o: Outcome)
    ensures o == Apply(text, root, entry, remove)
  {
    hide SpliceFrom, SortRegions, CollapseTail, TomlServerBlock, Regions, Headers, OurRegions;
    var regions := ScanTomlRegions(text);
    if regions.None? {
      return Failed;
    }
    var ours := OurRegions(regions.value, root);
    if remove {
      if ours == [] {
        return Skipped;
      }
      var out := SpliceToml(text, ours, None, None);
      if ours[|ours| - 1].end == |text| {
        out := CollapseTail(out);
      }
      return Disconnected(out);
    }
    var block := TomlServerBlock(root, entry);
    var migratedFrom := Migrated(LegacyKeys(), KeysOf(ours));
    var out: string;
    if |ours| > 0 {
      out := SpliceToml(text, ours, Some(block), Some(ours[0].start));
    } else if text == "" {
      out := block;
    } else {
      out := text + Separator(text) + block;
    }
    return Connected(out, migratedFrom);
  }

  // ---- Regions and splices of a document --------------------------------------------------------

  function PieceRegions(ps: seq<Piece>, off: nat): seq<Region>
  {
    if ps == [] then []
    else [Region(ps[0].path, off, off + |ps[0].text|)] + PieceRegions(ps[1..], off + |ps[0].text|)
  }

  lemma {:induction false} RegionsOfPieces(ps: seq<Piece>, off: nat, n: nat)
    requires n == off + |Concat(ps)|
    ensures Regions(Starts(ps, off), n) == PieceRegions(ps, off)
  {
    if ps != [] {
      var hs, rest := Starts(ps, off), ps[1..];
      RegionsOfPieces(rest, off + |ps[0].text|, n);
      assert hs[1..] == Starts(rest, off + |ps[0].text|);
      var rs := Regions(hs, n);
      assert rs == [rs[0]] + Regions(hs[1..], n);
    }
  }

  predicate OurPiece(p: Piece, root: string)
  {
    OurPath(p.path, root)
  }

  function NotOurs(ps: seq<Piece>, root: string): seq<Piece>
  {
    if ps == [] then []
    else (if OurPiece(ps[0], root) then [] else [ps[0]]) + NotOurs(ps[1..], root)
  }

  /** Our regions of pieces that start at `off`. */
  function OurPieceRegions(ps: seq<Piece>, off: nat, root: string): seq<Region>
  {
    OurRegions(PieceRegions(ps, off), root)
  }

  lemma OurPieceStep(ps: seq<Piece>, off: nat, root: string)
    requires ps != []
    ensures OurPieceRegions(ps, off, root) ==
            (if OurPiece(ps[0], root) then [Region(ps[0].path, off, off + |ps[0].text|)] else []) +
            OurPieceRegions(ps[1..], off + |ps[0].text|, root)
  {
  }

  /** Taking our regions out of a text leaves the other pieces. */
  lemma {:induction false} SpliceKeeps(
    text: string, ps: seq<Piece>, off: nat, pos: nat, root: string, block: Option<string>, at: Option<nat>)
    requires pos <= off && off <= |text| && text[off..] == Concat(ps)
    requires forall p :: p in ps ==> p.text != ""
    requires block.None? || at.None? || at.value < off
    ensures SpliceFrom(text, OurPieceRegions(ps, off, root), pos, block, at) ==
            text[pos..off] + Concat(NotOurs(ps, root))
    decreases |ps|
  {
    hide *;
    KeptStep(ps, root);
    if ps == [] {
      NoPieces(off, root);
      SpliceEnd(text, pos, block, at);
      SliceIs(text, pos, |text|);
      assert text[pos..off] + "" == text[pos..off];
    } else {
      var p, rest := ps[0], ps[1..];
      var next := off + |p.text|;
      assert text[next..] == text[off..][|p.text|..] == Concat(rest);
      assert text[off..next] == text[off..][..|p.text|] == p.text;
      OurPieceStep(ps, off, root);
      var rs, kept := OurPieceRegions(rest, next, root), Concat(NotOurs(rest, root));
      if OurPiece(p, root) {
        assert p in ps;
        SpliceKeeps(text, rest, next, next, root, block, at);
        SpliceStep(text, Region(p.path, off, next), rs, pos, block, at);
        SliceIs(text, pos, off);
        assert text[next..next] + kept == kept;
        assert text[pos..off] + "" == text[pos..off];
      } else {
        SpliceKeeps(text, rest, next, pos, root, block, at);
        assert [] + rs == rs;
        assert text[pos..next] == text[pos..off] + p.text;
        assert text[pos..off] + p.text + kept == text[pos..off] + (p.text + kept);
      }
    }
  }

  lemma SliceIs(s: string, a: nat, b: nat)
    requires a <= b <= |s|
    ensures Slice(s, a, b) == s[a..b]
  {
  }

  /** What is kept of a list, from its first piece on. */
  lemma KeptStep(ps: seq<Piece>, root: string)
    ensures ps == [] ==> Concat(ps) == "" && Concat(NotOurs(ps, root)) == ""
    ensures ps != [] ==> Concat(ps) == ps[0].text + Concat(ps[1..])
    ensures ps != [] ==>
      Concat(NotOurs(ps, root)) ==
      (if OurPiece(ps[0], root) then "" else ps[0].text) + Concat(NotOurs(ps[1..], root))
  {
    hide OurPath;
    if ps != [] {
      var rest := NotOurs(ps[1..], root);
      if OurPiece(ps[0], root) {
        assert [] + rest == rest && "" + Concat(rest) == Concat(rest);
      } else {
        assert ([ps[0]] + rest)[1..] == rest;
      }
    }
  }

  lemma NoPieces(off: nat, root: string)
    ensures OurPieceRegions([], off, root) == []
  {
  }
}
