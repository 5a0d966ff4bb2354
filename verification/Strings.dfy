/** String order, sorting and the small text helpers the other modules share. */
module Strings {

  // ---- Order -----------------------------------------------------------------

  /** The order of `<` on strings: lexicographic on the characters. */
  predicate Less(a: string, b: string)
  {
    b != [] && (a == [] || a[0] < b[0] || (a[0] == b[0] && Less(a[1..], b[1..])))
  }

  predicate LessEq(a: string, b: string)
  {
    a == b || Less(a, b)
  }

  /** Exactly one of `a < b`, `a == b` and `b < a` holds. */
  lemma {:induction false} LessTotal(a: string, b: string)
    ensures Less(a, b) || a == b || Less(b, a)
    ensures !(Less(a, b) && Less(b, a))
    ensures !Less(a, a)
  {
    if a == [] || b == [] {
      if a != [] { LessTotal(a[1..], a[1..]); }
    } else {
      LessTotal(a[1..], a[1..]);
      LessTotal(a[1..], b[1..]);
      if a[0] == b[0] && a[1..] == b[1..] {
        assert a == [a[0]] + a[1..] == b;
      }
    }
  }

  lemma {:induction false} LessTransitive(a: string, b: string, c: string)
    requires Less(a, b) && Less(b, c)
    ensures Less(a, c)
  {
    if a != [] && a[0] == b[0] && b[0] == c[0] {
      LessTransitive(a[1..], b[1..], c[1..]);
    }
  }

  // ---- Sorting ---------------------------------------------------------------

  ghost predicate Sorted(s: seq<string>)
  {
    forall i, j :: 0 <= i < j < |s| ==> LessEq(s[i], s[j])
  }

  ghost predicate Distinct<T>(s: seq<T>)
  {
    forall i, j :: 0 <= i < j < |s| ==> s[i] != s[j]
  }

  function Insert(x: string, s: seq<string>): (r: seq<string>)
    ensures multiset(r) == multiset(s) + multiset{x}
    ensures |r| == |s| + 1
  {
    if s == [] then [x]
    else if LessEq(x, s[0]) then [x] + s
    else
      assert s == [s[0]] + s[1..];
      [s[0]] + Insert(x, s[1..])
  }

  /** The result of `Array.prototype.sort` on strings. */
  function Sort(s: seq<string>): (r: seq<string>)
    ensures multiset(r) == multiset(s)
    ensures |r| == |s|
  {
    if s == [] then []
    else
      assert s == [s[0]] + s[1..];
      Insert(s[0], Sort(s[1..]))
  }

  lemma {:induction false} InsertSorted(x: string, s: seq<string>)
    requires Sorted(s)
    ensures Sorted(Insert(x, s))
  {
    if s != [] {
      LessTotal(x, s[0]);
      if LessEq(x, s[0]) {
        forall j | 0 <= j < |s| ensures LessEq(x, s[j]) {
          if Less(x, s[0]) && Less(s[0], s[j]) { LessTransitive(x, s[0], s[j]); }
        }
      } else {
        InsertSorted(x, s[1..]);
        var r := Insert(x, s[1..]);
        forall j | 0 <= j < |r| ensures LessEq(s[0], r[j]) {
          assert r[j] in multiset(r);
          assert r[j] == x || r[j] in s[1..];
        }
      }
    }
  }

  lemma {:induction false} SortSorted(s: seq<string>)
    ensures Sorted(Sort(s))
  {
    if s != [] {
      SortSorted(s[1..]);
      InsertSorted(s[0], Sort(s[1..]));
    }
  }

  lemma SortedFirst(a: seq<string>, b: seq<string>)
    requires Sorted(a) && Sorted(b) && multiset(a) == multiset(b) && a != [] && b != []
    ensures a[0] == b[0]
  {
    assert a[0] in multiset(b) && b[0] in multiset(a);
    var i :| 0 <= i < |b| && b[i] == a[0];
    var j :| 0 <= j < |a| && a[j] == b[0];
    LessTotal(a[0], b[0]);
    assert LessEq(b[0], b[i]) && LessEq(a[0], a[j]);
  }

  /** Two sorted sequences with the same elements are equal. */
  lemma {:induction false} SortedUnique(a: seq<string>, b: seq<string>)
    requires Sorted(a) && Sorted(b) && multiset(a) == multiset(b)
    ensures a == b
  {
    hide LessEq;
    assert |a| == |multiset(a)| == |multiset(b)| == |b|;
    if a != [] {
      SortedFirst(a, b);
      assert a == [a[0]] + a[1..] && b == [b[0]] + b[1..];
      assert multiset(a[1..]) == multiset(a) - multiset{a[0]};
      SortedUnique(a[1..], b[1..]);
    }
  }

  /** Sequences with the same elements, counted, are alike up to order. */
  lemma SameElements<T>(a: seq<T>, b: seq<T>)
    requires multiset(a) == multiset(b)
    ensures forall x :: x in a <==> x in b
    ensures Distinct(a) ==> Distinct(b)
  {
    forall x ensures x in a <==> x in b {
      assert x in multiset(a) <==> x in multiset(b);
    }
    if Distinct(a) {
      forall i, j | 0 <= i < j < |b| ensures b[i] != b[j] {
        if b[i] == b[j] {
          TwiceInMultiset(b, i, j);
          DistinctOnce(a, b[i]);
          assert false;
        }
      }
    }
  }

  lemma TwiceInMultiset<T>(s: seq<T>, i: nat, j: nat)
    requires i < j < |s| && s[i] == s[j]
    ensures multiset(s)[s[i]] >= 2
  {
    assert s == s[..i] + [s[i]] + s[i+1..j] + [s[j]] + s[j+1..];
  }

  lemma {:induction false} DistinctOnce<T>(s: seq<T>, x: T)
    requires Distinct(s)
    ensures multiset(s)[x] <= 1
  {
    if s != [] {
      assert s == [s[0]] + s[1..];
      DistinctOnce(s[1..], x);
      if s[0] == x { assert x !in s[1..]; }
    }
  }

  // ---- Counting ----------------------------------------------------------------

  /** How many of the elements satisfy `p`. */
  ghost function HowMany<T(!new)>(s: seq<T>, p: T -> bool): nat
  {
    |set k | 0 <= k < |s| && p(s[k])|
  }

  lemma HowManyMore<T(!new)>(s: seq<T>, p: T -> bool)
    requires s != []
    ensures var n := |s| - 1; HowMany(s, p) == HowMany(s[..n], p) + if p(s[n]) then 1 else 0
  {
    var n := |s| - 1;
    var all, before := set k | 0 <= k < |s| && p(s[k]), set k | 0 <= k < n && p(s[..n][k]);
    assert all == before + if p(s[n]) then {n} else {};
  }

  /** `ys` are the values of `f` at the elements that satisfy `p`, in their order. */
  ghost predicate Picks<T(!new), U(!new)>(xs: seq<T>, p: T -> bool, f: T -> U, ys: seq<U>)
  {
    && |ys| == HowMany(xs, p)
    && forall i :: 0 <= i < |xs| && p(xs[i]) ==> HowMany(xs[..i], p) < |ys| && ys[HowMany(xs[..i], p)] == f(xs[i])
  }

  lemma PicksNone<T(!new), U(!new)>(p: T -> bool, f: T -> U)
    ensures Picks([], p, f, [])
  {
  }

  lemma PicksMore<T(!new), U(!new)>(xs: seq<T>, p: T -> bool, f: T -> U, ys: seq<U>)
    requires xs != [] && Picks(xs[..|xs| - 1], p, f, ys)
    ensures Picks(xs, p, f, ys + if p(xs[|xs| - 1]) then [f(xs[|xs| - 1])] else [])
  {
    hide HowMany;
    var n := |xs| - 1;
    HowManyMore(xs, p);
    forall i | 0 <= i < n && p(xs[i]) ensures HowMany(xs[..i], p) < |ys| && ys[HowMany(xs[..i], p)] == f(xs[i]) {
      assert xs[..n][..i] == xs[..i] && xs[..n][i] == xs[i];
    }
  }

  /** `a` is given by an item, and `b` by none up to there. */
  ghost predicate MetBefore<T(!new)>(items: seq<T>, gives: (T, string) -> bool, a: string, b: string)
  {
    exists i :: 0 <= i < |items| && gives(items[i], a) && forall j :: 0 <= j <= i ==> !gives(items[j], b)
  }

  /** `keys` are the texts that the items give, once each, in the order in which they are met. */
  ghost predicate InOrderMet<T(!new)>(items: seq<T>, gives: (T, string) -> bool, keys: seq<string>)
  {
    && Distinct(keys)
    && (forall k :: k in keys <==> exists i :: 0 <= i < |items| && gives(items[i], k))
    && forall a, b :: 0 <= a < b < |keys| ==> MetBefore(items, gives, keys[a], keys[b])
  }

  lemma MetNone<T(!new)>(gives: (T, string) -> bool)
    ensures InOrderMet([], gives, [])
  {
  }

  /** One item more, which gives one text or none. */
  lemma MetMore<T(!new)>(
    items: seq<T>, item: T, gives: (T, string) -> bool, keys: seq<string>, found: bool, key: string)
    requires InOrderMet(items, gives, keys)
    requires forall k :: gives(item, k) <==> found && k == key
    ensures InOrderMet(items + [item], gives, if found && key !in keys then keys + [key] else keys)
  {
    var now := items + [item];
    var all := if found && key !in keys then keys + [key] else keys;
    forall k ensures k in all <==> exists i :: 0 <= i < |now| && gives(now[i], k) {
      if k in keys {
        var i :| 0 <= i < |items| && gives(items[i], k);
        assert gives(now[i], k);
      }
      assert now[|items|] == item;
    }
    forall a, b | 0 <= a < b < |all| ensures MetBefore(now, gives, all[a], all[b]) {
      assert all[a] == keys[a] && keys[a] in keys;
      var i :| 0 <= i < |items| && gives(items[i], keys[a]) &&
        (b < |keys| ==> forall j :: 0 <= j <= i ==> !gives(items[j], keys[b]));
      assert gives(now[i], keys[a]);
      forall j | 0 <= j <= i ensures !gives(now[j], all[b]) { assert now[j] == items[j]; }
    }
  }

  // ---- Searching and splitting -------------------------------------------------

  /** The index of the first occurrence of `sep`, or -1. */
  function IndexOf(s: string, sep: string): (i: int)
    ensures -1 <= i
    ensures i >= 0 ==> i + |sep| <= |s| && s[i..i + |sep|] == sep
    decreases |s|
  {
    if |s| < |sep| then -1
    else if s[..|sep|] == sep then 0
    else if s == "" then -1
    else
      var i := IndexOf(s[1..], sep);
      if i < 0 then -1
      else assert s[1..][i..i + |sep|] == s[i + 1..i + 1 + |sep|]; i + 1
  }

  /** `s.split(sep)` for a non-empty separator. */
  function Split(s: string, sep: string): seq<string>
    requires sep != ""
    decreases |s|
  {
    var i := IndexOf(s, sep);
    if i < 0 then [s] else [s[..i]] + Split(s[i + |sep|..], sep)
  }

  lemma {:induction false} IndexOfAfter(a: string, b: string, sep: string)
    requires sep != "" && sep[0] !in a
    ensures IndexOf(a + sep + b, sep) == |a|
  {
    var s := a + sep + b;
    if a == "" {
      assert s[..|sep|] == sep;
    } else {
      assert s[0] == a[0] && s[..|sep|][0] == a[0];
      assert s[1..] == a[1..] + sep + b;
      IndexOfAfter(a[1..], b, sep);
    }
  }

  lemma {:induction false} IndexOfAbsent(a: string, sep: string)
    requires sep != "" && sep[0] !in a
    ensures IndexOf(a, sep) == -1
  {
    if |a| >= |sep| {
      assert a[..|sep|][0] == a[0] != sep[0];
      IndexOfAbsent(a[1..], sep);
    }
  }

  /** Joining two texts that do not contain the separator's first character, and
      splitting again, gives the two texts back. */
  lemma SplitJoined(a: string, b: string, sep: string)
    requires sep != "" && sep[0] !in a && sep[0] !in b
    ensures Split(a + sep + b, sep) == [a, b]
  {
    var s := a + sep + b;
    IndexOfAfter(a, b, sep);
    IndexOfAbsent(b, sep);
    assert s[..|a|] == a && s[|a| + |sep|..] == b;
  }

  /** `parts.join(sep)`. */
  function Join(parts: seq<string>, sep: string): string
  {
    if parts == [] then ""
    else if |parts| == 1 then parts[0]
    else parts[0] + sep + Join(parts[1..], sep)
  }

  lemma SplitFirst(a: string, b: string, sep: string)
    requires sep != "" && sep[0] !in a
    ensures Split(a + sep + b, sep) == [a] + Split(b, sep)
  {
    IndexOfAfter(a, b, sep);
    var s := a + sep + b;
    assert s[..|a|] == a && s[|a| + |sep|..] == b;
  }

  /** Splitting a join of texts free of the separator gives the texts back. */
  lemma {:induction false} SplitJoin(parts: seq<string>, sep: string)
    requires sep != "" && parts != [] && forall p :: p in parts ==> sep[0] !in p
    ensures Split(Join(parts, sep), sep) == parts
  {
    assert parts[0] in parts;
    if |parts| == 1 {
      IndexOfAbsent(parts[0], sep);
    } else {
      SplitJoin(parts[1..], sep);
      SplitFirst(parts[0], Join(parts[1..], sep), sep);
    }
  }

  /** Joining the pieces of a text gives the text back. */
  lemma {:induction false} JoinSplit(s: string, sep: string)
    requires sep != ""
    ensures Split(s, sep) != [] && Join(Split(s, sep), sep) == s
    decreases |s|
  {
    var i := IndexOf(s, sep);
    if i >= 0 {
      var rest := s[i + |sep|..];
      JoinSplit(rest, sep);
      assert ([s[..i]] + Split(rest, sep))[1..] == Split(rest, sep);
      assert s == s[..i] + s[i..i + |sep|] + rest;
    }
  }

  // ---- Decimal numbers ------------------------------------------------------------

  function Digit(d: nat): (c: char)
    requires d < 10
    ensures '0' <= c <= '9' && c as int - '0' as int == d
  {
    ['0', '1', '2', '3', '4', '5', '6', '7', '8', '9'][d]
  }

  /** The decimal digits of a number. */
  function Decimal(n: nat): (s: string)
    ensures s != "" && forall c :: c in s ==> '0' <= c <= '9'
  {
    if n < 10 then [Digit(n)] else Decimal(n / 10) + [Digit(n % 10)]
  }

  lemma {:induction false} DecimalInjective(m: nat, n: nat)
    requires Decimal(m) == Decimal(n)
    ensures m == n
  {
    var a, b := Decimal(m), Decimal(n);
    assert a[|a| - 1] == Digit(m % 10) && b[|b| - 1] == Digit(n % 10);
    assert m % 10 == n % 10;
    if m >= 10 && n >= 10 {
      assert a[..|a| - 1] == Decimal(m / 10) && b[..|b| - 1] == Decimal(n / 10);
      DecimalInjective(m / 10, n / 10);
    }
  }

  // ---- White space ------------------------------------------------------------------

  /** White space as `trim` and `\s` understand it. */
  predicate IsSpace(c: char)
  {
    || '\U{9}' <= c <= '\U{D}' || c == ' ' || c == '\U{A0}' || c == '\U{1680}' || '\U{2000}' <= c <= '\U{200A}'
    || c == '\U{2028}' || c == '\U{2029}' || c == '\U{202F}' || c == '\U{205F}' || c == '\U{3000}' || c == '\U{FEFF}'
  }

  /** How many characters of `s`, from the start, satisfy `p`. */
  function Span(s: string, p: char -> bool): (n: nat)
    ensures n <= |s|
    ensures forall i :: 0 <= i < n ==> p(s[i])
    ensures n < |s| ==> !p(s[n])
  {
    if s == "" || !p(s[0]) then 0 else 1 + Span(s[1..], p)
  }

  lemma {:induction false} SpanAll(s: string, p: char -> bool)
    requires forall c :: c in s ==> p(c)
    ensures Span(s, p) == |s|
  {
    if s != "" {
      assert s[0] in s;
      SpanAll(s[1..], p);
    }
  }

  lemma SpanStops(s: string, n: nat, p: char -> bool)
    requires n <= |s| && (forall i :: 0 <= i < n ==> p(s[i])) && (n < |s| ==> !p(s[n]))
    ensures Span(s, p) == n
  {
  }

  function TrimStart(s: string): string
  {
    s[Span(s, IsSpace)..]
  }

  function TrimEnd(s: string): string
  {
    if s != "" && IsSpace(s[|s| - 1]) then TrimEnd(s[..|s| - 1]) else s
  }

  function Trim(s: string): string
  {
    TrimEnd(TrimStart(s))
  }

  /** No white space at either end. */
  predicate Tight(s: string)
  {
    s == "" || (!IsSpace(s[0]) && !IsSpace(s[|s| - 1]))
  }

  /** Leading white space goes, a tight rest stays. */
  lemma TrimPadded(pad: string, s: string)
    requires (forall c :: c in pad ==> IsSpace(c)) && Tight(s)
    ensures Trim(pad + s) == s
    ensures s != "" ==> Span(pad + s, IsSpace) == |pad|
  {
    var t := pad + s;
    forall i | 0 <= i < |pad| ensures IsSpace(t[i]) { assert t[i] == pad[i]; }
    SpanStops(t, |pad|, IsSpace);
    assert t[|pad|..] == s;
  }

  lemma {:induction false} TrimEndTight(s: string)
    ensures TrimEnd(s) <= s
    ensures TrimEnd(s) != "" ==> !IsSpace(TrimEnd(s)[|TrimEnd(s)| - 1])
  {
    if s != "" && IsSpace(s[|s| - 1]) { TrimEndTight(s[..|s| - 1]); }
  }

  /** What is trimmed is tight. */
  lemma TrimTight(s: string)
    ensures Tight(Trim(s))
  {
    TrimEndTight(TrimStart(s));
  }
}
