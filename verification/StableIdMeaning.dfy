/** Public community ids by the words of labels and paths. */
module StableIdMeaning {
  import opened Strings
  import opened StableIds

  // ---- Slugs by words ------------------------------------------------------------------------

  /** A letter or a digit of the Latin alphabet. */
  predicate WordChar(c: char)
  {
    'A' <= c <= 'Z' || 'a' <= c <= 'z' || '0' <= c <= '9'
  }

  predicate Word(w: string)
  {
    w != "" && forall c :: c in w ==> WordChar(c)
  }

  /** A word in small letters. */
  predicate LowWord(w: string)
  {
    w != "" && forall c :: c in w ==> IsAlnum(c)
  }

  /** What stands between words. */
  predicate NoWord(s: string)
  {
    forall c :: c in s ==> !WordChar(c)
  }

  /** `low` is `s` with each capital letter made the small one at its place in the alphabet. */
  predicate LowerOf(s: string, low: string)
  {
    |low| == |s| && forall i :: 0 <= i < |s| ==>
      if 'A' <= s[i] <= 'Z' then low[i] as int - 'a' as int == s[i] as int - 'A' as int else low[i] == s[i]
  }

  function Lowered(words: seq<string>): (r: seq<string>)
    ensures |r| == |words|
  {
    if words == [] then [] else [Lower(words[0])] + Lowered(words[1..])
  }

  /** A text of words, with something else before each. */
  function Text(gaps: seq<string>, words: seq<string>): string
    requires |gaps| == |words|
  {
    if words == [] then "" else gaps[0] + words[0] + Text(gaps[1..], words[1..])
  }

  /** Gaps that separate: only the first may be empty. */
  predicate Apart(gaps: seq<string>)
  {
    forall i :: 0 <= i < |gaps| ==> NoWord(gaps[i]) && (i > 0 ==> gaps[i] != "")
  }

  lemma {:induction false} LowerExactly(s: string)
    ensures LowerOf(s, Lower(s))
  {
    if s != "" { LowerExactly(s[1..]); }
  }

  lemma {:induction false} LowerAppend(a: string, b: string)
    ensures Lower(a + b) == Lower(a) + Lower(b)
  {
    if a == "" {
      assert a + b == b;
    } else {
      assert (a + b)[1..] == a[1..] + b;
      LowerAppend(a[1..], b);
    }
  }

  lemma {:induction false} CollapseWord(w: string, rest: string, inRun: bool)
    requires LowWord(w)
    ensures Collapse(w + rest, inRun) == w + Collapse(rest, false)
  {
    assert w[0] in w && (w + rest)[1..] == w[1..] + rest;
    if |w| == 1 {
      assert w[1..] + rest == rest;
    } else {
      CollapseWord(w[1..], rest, false);
      assert w == [w[0]] + w[1..];
    }
  }

  lemma {:induction false} CollapseGap(g: string, rest: string, inRun: bool)
    requires forall c :: c in g ==> !IsAlnum(c)
    ensures Collapse(g + rest, inRun) ==
            if g == "" then Collapse(rest, inRun) else (if inRun then "" else "-") + Collapse(rest, true)
  {
    if g == "" {
      assert g + rest == rest;
    } else {
      assert g[0] in g && (g + rest)[1..] == g[1..] + rest;
      if |g| == 1 { assert g[1..] + rest == rest; }
      CollapseGap(g[1..], rest, true);
    }
  }

  lemma LowerWord(w: string)
    requires Word(w)
    ensures LowWord(Lower(w))
  {
    LowerExactly(w);
    var low := Lower(w);
    forall c | c in low ensures IsAlnum(c) {
      var i :| 0 <= i < |low| && low[i] == c;
      assert w[i] in w;
    }
  }

  lemma LowerGap(g: string)
    requires NoWord(g)
    ensures |Lower(g)| == |g| && forall c :: c in Lower(g) ==> !IsAlnum(c)
  {
    LowerExactly(g);
    var low := Lower(g);
    forall c | c in low ensures !IsAlnum(c) {
      var i :| 0 <= i < |low| && low[i] == c;
      assert g[i] in g;
    }
  }

  /** The words, each after a dash. */
  function Dashed(words: seq<string>): string
  {
    if words == [] then "" else "-" + words[0] + Dashed(words[1..])
  }

  /** Collapsing text that goes on after a word. */
  lemma {:induction false} CollapseText(gaps: seq<string>, words: seq<string>, tail: string)
    requires |gaps| == |words| && (forall g :: g in gaps ==> NoWord(g) && g != "")
    requires (forall w :: w in words ==> Word(w)) && NoWord(tail)
    ensures Collapse(Lower(Text(gaps, words) + tail), false) ==
            Dashed(Lowered(words)) + if tail == "" then "" else "-"
    decreases |words|
  {
    hide NoWord, Word, LowWord;
    if words == [] {
      assert Text(gaps, words) + tail == tail && Lower(tail) + "" == Lower(tail);
      LowerGap(tail);
      CollapseGap(Lower(tail), "", false);
    } else {
      assert gaps[0] in gaps && words[0] in words;
      var rest := Text(gaps[1..], words[1..]) + tail;
      assert Text(gaps, words) + tail == gaps[0] + (words[0] + rest);
      LowerAppend(gaps[0], words[0] + rest);
      LowerAppend(words[0], rest);
      LowerGap(gaps[0]);
      LowerWord(words[0]);
      CollapseGap(Lower(gaps[0]), Lower(words[0]) + Lower(rest), false);
      CollapseWord(Lower(words[0]), Lower(rest), true);
      CollapseText(gaps[1..], words[1..], tail);
      assert Lowered(words)[1..] == Lowered(words[1..]);
      hide Collapse, Lower, Text;
      FourTexts("-", Lower(words[0]), Dashed(Lowered(words[1..])), if tail == "" then "" else "-");
      assert "-" + (Lower(words[0]) + Dashed(Lowered(words[1..]))) == Dashed(Lowered(words));
    }
  }

  lemma {:induction false} DashedIsJoin(words: seq<string>)
    requires words != []
    ensures Dashed(words) == "-" + Join(words, "-")
  {
    if |words| == 1 {
      assert Dashed(words[1..]) == "" && words[0] + "" == words[0];
    } else {
      DashedIsJoin(words[1..]);
      assert "-" + words[0] + ("-" + Join(words[1..], "-")) == "-" + (words[0] + "-" + Join(words[1..], "-"));
    }
  }

  lemma {:induction false} JoinEnds(words: seq<string>)
    requires words != [] && forall w :: w in words ==> LowWord(w)
    ensures var j := Join(words, "-"); j != "" && IsAlnum(j[0]) && IsAlnum(j[|j| - 1])
  {
    var w := words[0];
    assert w in words && w[0] in w && w[|w| - 1] in w;
    if |words| > 1 {
      forall x | x in words[1..] ensures LowWord(x) { assert x in words; }
      JoinEnds(words[1..]);
    }
  }

  /** A dash before and one after go. */
  lemma SlugIs(text: string, s: string, before: bool, after: bool)
    requires Collapse(Lower(text), false) == (if before then "-" else "") + s + if after then "-" else ""
    requires s != "" && s[0] != '-' && s[|s| - 1] != '-'
    ensures Slug(text) == s
  {
    hide Collapse, Lower;
    var u := s + if after then "-" else "";
    FrontDash(u);
    BackDash(s);
    hide TrimDashStart, TrimDashEnd;
    assert Collapse(Lower(text), false) == if before then "-" + u else u;
    assert u == if after then s + "-" else s;
  }

  lemma FrontDash(u: string)
    requires u != "" && u[0] != '-'
    ensures TrimDashStart("-" + u) == u && TrimDashStart(u) == u
  {
    assert ("-" + u)[1..] == u;
  }

  lemma BackDash(s: string)
    requires s != "" && s[|s| - 1] != '-'
    ensures TrimDashEnd(s + "-") == s && TrimDashEnd(s) == s
  {
    assert (s + "-")[..|s|] == s;
  }

  lemma {:induction false} LoweredWords(words: seq<string>)
    requires forall w :: w in words ==> Word(w)
    ensures forall w :: w in Lowered(words) ==> LowWord(w)
  {
    hide Word, LowWord;
    if words != [] {
      assert words[0] in words;
      LowerWord(words[0]);
      LoweredWords(words[1..]);
    }
  }

  /** The slug of a text is its words in small letters, with dashes between them. */
  lemma SlugOfWords(gaps: seq<string>, words: seq<string>, tail: string)
    requires |gaps| == |words| > 0 && Apart(gaps) && (forall w :: w in words ==> Word(w)) && NoWord(tail)
    ensures Slug(Text(gaps, words) + tail) == Join(Lowered(words), "-")
  {
    hide Word, NoWord, Slug, Collapse, Lower, Text, LowWord;
    var text := Text(gaps, words) + tail;
    CollapsedWords(gaps, words, tail);
    LoweredWords(words);
    JoinEnds(Lowered(words));
    NoDash();
    SlugIs(text, Join(Lowered(words), "-"), gaps[0] != "", tail != "");
  }

  lemma CollapsedWords(gaps: seq<string>, words: seq<string>, tail: string)
    requires |gaps| == |words| > 0 && Apart(gaps) && (forall w :: w in words ==> Word(w)) && NoWord(tail)
    ensures Collapse(Lower(Text(gaps, words) + tail), false) ==
            (if gaps[0] != "" then "-" else "") + Join(Lowered(words), "-") + if tail != "" then "-" else ""
  {
    var first, more := words[0], Text(gaps[1..], words[1..]) + tail;
    assert first in words;
    assert Text(gaps, words) + tail == gaps[0] + (first + more);
    forall g | g in gaps[1..] ensures NoWord(g) && g != "" {
      var i :| 0 <= i < |gaps[1..]| && gaps[1..][i] == g;
      assert gaps[i + 1] == g;
    }
    hide Word, NoWord, Collapse, Lower, Text, LowWord;
    LowerAppend(gaps[0], first + more);
    LowerAppend(first, more);
    LowerGap(gaps[0]);
    LowerWord(first);
    CollapseGap(Lower(gaps[0]), Lower(first) + Lower(more), false);
    CollapseWord(Lower(first), Lower(more), gaps[0] != "");
    CollapseText(gaps[1..], words[1..], tail);
    JoinFirst(words);
    FourTexts(if gaps[0] != "" then "-" else "", Lower(first), Dashed(Lowered(words[1..])),
      if tail != "" then "-" else "");
  }

  lemma FourTexts(a: string, b: string, c: string, d: string)
    ensures a + (b + (c + d)) == a + (b + c) + d
  {
  }

  lemma NoDash()
    ensures !IsAlnum('-')
  {
  }

  lemma JoinFirst(words: seq<string>)
    requires words != []
    ensures Lower(words[0]) + Dashed(Lowered(words[1..])) == Join(Lowered(words), "-")
  {
    var l := Lowered(words);
    assert l[0] == Lower(words[0]) && l[1..] == Lowered(words[1..]);
    if |words| == 1 {
      assert l[0] + "" == l[0];
    } else {
      DashedIsJoin(l[1..]);
      assert l[0] + ("-" + Join(l[1..], "-")) == l[0] + "-" + Join(l[1..], "-");
    }
  }

  /** A text without a word has no slug. */
  lemma NoSlug(text: string)
    requires NoWord(text)
    ensures Slug(text) == ""
  {
    LowerGap(text);
    var low := Lower(text);
    assert low + "" == low;
    CollapseGap(low, "", false);
    assert Collapse("", false) == "" && Collapse("", true) == "";
    assert Collapse(low, false) == if low == "" then "" else "-";
    assert "-"[1..] == "" && TrimDashStart("-") == TrimDashStart("") == "" && TrimDashEnd("") == "";
  }

  // ---- Anchors and bases -----------------------------------------------------------------------

  /** The base name is what follows the last slash. */
  lemma {:induction false} BasenameIs(dirs: seq<string>, name: string)
    requires '/' !in name && forall d :: d in dirs ==> '/' !in d
    ensures Basename(Join(dirs + [name], "/")) == name
  {
    forall p | p in dirs + [name] ensures '/' !in p { assert p in dirs || p == name; }
    SplitJoin(dirs + [name], "/");
  }

  lemma {:induction false} LastDotIs(stem: string, ext: string)
    requires '.' !in ext
    ensures LastDot(stem + "." + ext) == |stem| && LastDot(ext) == -1
  {
    var s := stem + "." + ext;
    if ext != "" {
      var n := |ext| - 1;
      assert ext[n] in ext && s[..|s| - 1] == stem + "." + ext[..n];
      LastDotIs(stem, ext[..n]);
    } else {
      assert s[|s| - 1] == '.';
    }
  }

  /** An extension is the last dot and what follows it; a dot at the end is no extension. */
  lemma StripExtensionIs(stem: string, ext: string)
    requires '.' !in ext
    ensures StripExtension(stem + "." + ext) == if ext == "" then stem + "." + ext else stem
    ensures StripExtension(ext) == ext
  {
    LastDotIs(stem, ext);
  }

  /** The anchor of a group is the slug of the name of its smallest file, without extension. */
  lemma AnchorExactly(files: seq<string>, dirs: seq<string>, stem: string, ext: string)
    requires files != [] && files[0] == Join(dirs + [stem + "." + ext], "/") && ext != "" && '.' !in ext
    requires '/' !in stem && '/' !in ext && forall d :: d in dirs ==> '/' !in d
    ensures Anchor(files) == if Slug(stem) == "" then "unnamed" else Slug(stem)
  {
    hide Slug;
    assert '/' !in stem + "." + ext;
    BasenameIs(dirs, stem + "." + ext);
    StripExtensionIs(stem, ext);
  }

  /** A name without extension is the anchor whole; no file, or one without a word in its name,
      gives `unnamed`. */
  lemma AnchorWhole(files: seq<string>, dirs: seq<string>, name: string)
    requires '/' !in name && forall d :: d in dirs ==> '/' !in d
    requires files == [] || (files[0] == Join(dirs + [name], "/") && '.' !in name)
    ensures Anchor(files) == if files == [] || Slug(name) == "" then "unnamed" else Slug(name)
  {
    if files == [] {
      assert Split("", "/") == [""];
      assert StripExtension("") == "";
      NoSlug("");
    } else {
      hide Slug;
      BasenameIs(dirs, name);
      StripExtensionIs("", name);
    }
  }

  /** The label that only numbers a community. */
  ghost predicate Numbering(text: string)
  {
    exists digits :: digits != "" && (forall c :: c in digits ==> '0' <= c <= '9') && text == "community-" + digits
  }

  lemma FallbackExactly(text: string)
    ensures IsFallbackLabel(text) <==> Numbering(text)
  {
    if IsFallbackLabel(text) { assert text == "community-" + text[10..]; }
    if digits :| digits != "" && (forall c :: c in digits ==> '0' <= c <= '9') && text == "community-" + digits {
      assert text[10..] == digits && text[..10] == "community-";
    }
  }

  /** The base is the slug of the label; a label without words, and one that only numbers a
      community, give the word `community`. */
  lemma BaseExactly(g: Group)
    ensures g.topic.NoTopic? ==> StableBase(Label(g)) == "community"
    ensures g.topic.Topic? ==>
      StableBase(Label(g)) ==
      if Numbering(g.topic.text) || Slug(g.topic.text) == "" then "community" else Slug(g.topic.text)
  {
    hide Slug, Numbering, IsFallbackLabel;
    if g.topic.NoTopic? {
      FallbackLabel(g.cid);
    } else {
      FallbackExactly(g.topic.text);
    }
  }

  // ---- Which id a group gets ---------------------------------------------------------------------

  /** `names` are the base names of the files, sorted. */
  ghost predicate SortedNames(files: seq<string>, names: seq<string>)
  {
    Sorted(names) && multiset(names) == multiset(Basenames(files))
  }

  lemma {:induction false} BasenamesAre(files: seq<string>)
    ensures |Basenames(files)| == |files| && forall i :: 0 <= i < |files| ==> Basenames(files)[i] == Basename(files[i])
  {
    hide Basename;
    if files != [] { BasenamesAre(files[1..]); }
  }

  /** The first of three ids that is not among the earlier ones: base and anchor; those and the
      hash of the sorted base names; those and the dense id. */
  ghost predicate Ruled(g: Group, hash: string -> string, earlier: seq<string>, id: string)
  {
    var bare := StableBase(Label(g)) + "~" + Anchor(g.files);
    exists names :: SortedNames(g.files, names) &&
      var hashed := bare + "~" + hash(Join(names, "|"));
      id == if bare !in earlier then bare else if hashed !in earlier then hashed else hashed + "~" + Decimal(g.cid)
  }

  lemma IdForRuled(g: Group, hash: string -> string, earlier: seq<string>)
    ensures Ruled(g, hash, earlier, IdFor(g, Elements(earlier), hash))
  {
    hide StableBase, Anchor, Label, Sort, Basenames, Decimal;
    var names := Sort(Basenames(g.files));
    SortSorted(Basenames(g.files));
    assert SortedNames(g.files, names);
    assert forall x :: x in Elements(earlier) <==> x in earlier;
  }

  /** In the processing order each group takes the first id that no group before it has. */
  lemma {:induction false} IdRule(groups: seq<Group>, hash: string -> string, i: nat)
    requires i < |groups|
    ensures var ids := AssignIds(groups, hash); Ruled(groups[i], hash, ids[..i], ids[i])
  {
    hide Ruled, IdFor;
    var n := |groups| - 1;
    var before := AssignIds(groups[..n], hash);
    var ids := AssignIds(groups, hash);
    assert ids[..n] == before;
    if i < n {
      IdRule(groups[..n], hash, i);
      assert ids[..i] == before[..i] && ids[i] == before[i];
    } else {
      IdForRuled(groups[n], hash, before);
    }
  }

  // ---- The processing order -------------------------------------------------------------------------

  /** By smallest path, and by dense id where that is the same. */
  ghost predicate Processed(s: seq<Group>, less: (string, string) -> bool)
  {
    forall i, j :: 0 <= i < j < |s| ==>
      !less(First(s[j].files), First(s[i].files)) &&
      (First(s[i].files) == First(s[j].files) ==> s[i].cid <= s[j].cid)
  }

  lemma {:induction false} InsertProcessed(g: Group, s: seq<Group>, less: (string, string) -> bool)
    requires StrictTotal(less) && Processed(s, less)
    ensures Processed(InsertGroup(g, s, less), less)
  {
    hide First;
    var r := InsertGroup(g, s, less);
    if s != [] && Before(s[0], g, less) {
      var rest := InsertGroup(g, s[1..], less);
      InsertProcessed(g, s[1..], less);
      InsertGroupKeeps(g, s[1..], less);
      forall j | 0 <= j < |rest|
        ensures !less(First(rest[j].files), First(s[0].files)) &&
          (First(s[0].files) == First(rest[j].files) ==> s[0].cid <= rest[j].cid)
      {
        assert rest[j] in multiset(rest);
        if rest[j] != g {
          var k :| 0 <= k < |s[1..]| && s[1..][k] == rest[j];
          assert s[k + 1] == rest[j];
        }
      }
    }
  }

  lemma {:induction false} SortProcesses(s: seq<Group>, less: (string, string) -> bool)
    requires StrictTotal(less)
    ensures Processed(SortGroups(s, less), less) && multiset(SortGroups(s, less)) == multiset(s)
  {
    hide InsertGroup, Processed, StrictTotal;
    SortGroupsKeeps(s, less);
    if s == [] {
      NoneProcessed(less);
    } else {
      SortProcesses(s[1..], less);
      InsertProcessed(s[0], SortGroups(s[1..], less), less);
    }
  }

  lemma NoneProcessed(less: (string, string) -> bool)
    ensures Processed([], less)
  {
  }
}
