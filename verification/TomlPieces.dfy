/** A scannable TOML text as a preamble and a list of table pieces. */
module TomlPieces {
  import opened Options
  import opened TomlScanner

  /** A table's path and its text, from its header line to the next header. */
  datatype Piece = Piece(path: seq<string>, text: string)

  function Concat(ps: seq<Piece>): string
  {
    if ps == [] then "" else ps[0].text + Concat(ps[1..])
  }

  /** The headers of the pieces when the first one starts at `off`. */
  function Starts(ps: seq<Piece>, off: nat): (hs: seq<Header>)
    ensures |hs| == |ps|
  {
    if ps == [] then [] else [Header(ps[0].path, off)] + Starts(ps[1..], off + |ps[0].text|)
  }

  /** The piece scans on its own to exactly its own header. */
  ghost predicate PieceOk(p: Piece)
  {
    Headers(p.text) == Some([Header(p.path, 0)])
  }

  /** Every piece is one table, and every piece but the last ends a line. */
  ghost predicate PiecesOk(ps: seq<Piece>)
  {
    && (forall p :: p in ps ==> PieceOk(p))
    && (forall i :: 0 <= i < |ps| - 1 ==> EndsLine(ps[i].text))
  }

  /** The preamble opens no table, and ends a line when tables follow. */
  ghost predicate PreambleOk(pre: string, ps: seq<Piece>)
  {
    Headers(pre) == Some([]) && (ps != [] ==> EndsLine(pre))
  }

  ghost predicate DocOk(pre: string, ps: seq<Piece>)
  {
    PreambleOk(pre, ps) && PiecesOk(ps)
  }

  lemma PieceScan(p: Piece, off: nat)
    requires PieceOk(p)
    ensures Scan(p.text, CLEAN, off) == Some([Header(p.path, off)])
  {
    hide Scan;
    ScanMoved(p.text, CLEAN, 0, off);
    assert Moved([Header(p.path, 0)], off) == [Header(p.path, off)];
  }

  lemma {:induction false} PiecesScan(ps: seq<Piece>, off: nat)
    requires PiecesOk(ps)
    ensures Scan(Concat(ps), CLEAN, off) == Some(Starts(ps, off))
  {
    hide Scan, PieceOk, EndsLine;
    if ps == [] {
      ScanNothing(CLEAN, off);
    } else {
      var p, rest := ps[0], ps[1..];
      PieceScan(p, off);
      if rest == [] {
        assert Concat(ps) == p.text;
        assert Starts(ps, off) == [Header(p.path, off)];
      } else {
        PiecesScan(rest, off + |p.text|);
        ScanAppend(p.text, Concat(rest), CLEAN, off);
      }
    }
  }

  /** Composition: a document scans to the headers of its pieces. */
  lemma DocHeaders(pre: string, ps: seq<Piece>)
    requires DocOk(pre, ps)
    ensures Headers(pre + Concat(ps)) == Some(Starts(ps, |pre|))
  {
    hide Scan, PiecesOk, EndsLine;
    if ps == [] {
      assert pre + "" == pre;
    } else {
      PiecesScan(ps, |pre|);
      ScanAppend(pre, Concat(ps), CLEAN, 0);
      assert [] + Starts(ps, |pre|) == Starts(ps, |pre|);
    }
  }

  lemma {:induction false} CutPieces(text: string, off: nat, hs: seq<Header>) returns (ps: seq<Piece>)
    requires Scan(text, CLEAN, off) == Some(hs) && hs != [] && hs[0].start == off
    ensures PiecesOk(ps) && Concat(ps) == text && Starts(ps, off) == hs
    decreases |text|
  {
    hide Scan, EndsLine;
    if |hs| == 1 {
      ps := [Piece(hs[0].path, text)];
      CutPieceOk(text, off, hs);
      assert text + "" == text;
    } else {
      HeadersInOrder(text, CLEAN, off);
      ScanCut(text, CLEAN, off, hs, 1);
      var k := hs[1].start - off;
      var first := Piece(hs[0].path, text[..k]);
      assert hs[..1] == [hs[0]];
      CutPieceOk(text[..k], off, hs[..1]);
      assert hs[1..][0] == hs[1];
      var rest := CutPieces(text[k..], off + k, hs[1..]);
      ps := [first] + rest;
      assert text[..k] + text[k..] == text;
      assert hs == [hs[0]] + hs[1..];
      assert ps[1..] == rest;
      forall i | 0 <= i < |ps| - 1 ensures EndsLine(ps[i].text) {
        if i > 0 { assert ps[i] == rest[i - 1]; }
      }
    }
  }

  lemma CutPieceOk(text: string, off: nat, hs: seq<Header>)
    requires Scan(text, CLEAN, off) == Some(hs) && |hs| == 1 && hs[0].start == off
    ensures PieceOk(Piece(hs[0].path, text))
  {
    hide Scan;
    ScanMoved(text, CLEAN, 0, off);
    var h0 := Scan(text, CLEAN, 0).value;
    assert h0 == [Header(hs[0].path, 0)];
  }

  /** Decomposition: every scannable text is a document. */
  lemma Decompose(text: string) returns (pre: string, ps: seq<Piece>)
    requires Headers(text).Some?
    ensures DocOk(pre, ps) && text == pre + Concat(ps)
    ensures Headers(text) == Some(Starts(ps, |pre|))
  {
    hide Scan, EndsLine;
    var hs := Headers(text).value;
    if hs == [] {
      pre, ps := text, [];
      assert text + "" == text;
    } else {
      HeadersInOrder(text, CLEAN, 0);
      ScanCut(text, CLEAN, 0, hs, 0);
      var k := hs[0].start;
      pre := text[..k];
      assert hs[0..] == hs && hs[..0] == [];
      ps := CutPieces(text[k..], k, hs);
      assert text == text[..k] + text[k..];
    }
  }

  lemma {:induction false} ConcatAppend(a: seq<Piece>, b: seq<Piece>)
    ensures Concat(a + b) == Concat(a) + Concat(b)
  {
    if a == [] {
      assert a + b == b;
    } else {
      assert (a + b)[1..] == a[1..] + b;
      ConcatAppend(a[1..], b);
    }
  }
}
