/** Stable sorting by a comparison, as `Array.prototype.sort` does it. */
module Sorting {
  import opened Strings

  /** `before(x, y)` when the comparison of `x` with `y` is negative. */
  ghost predicate WeakOrder<T(!new)>(before: (T, T) -> bool)
  {
    && (forall x, y :: before(x, y) ==> !before(y, x))
    && (forall x, y, z :: before(x, z) ==> before(x, y) || before(y, z))
  }

  ghost predicate Arranged<T>(s: seq<T>, before: (T, T) -> bool)
  {
    forall i, j :: 0 <= i < j < |s| ==> !before(s[j], s[i])
  }

  function InsertBy<T>(x: T, s: seq<T>, before: (T, T) -> bool): (r: seq<T>)
    ensures multiset(r) == multiset(s) + multiset{x}
  {
    if s == [] then [x]
    else if before(s[0], x) then
      assert s == [s[0]] + s[1..];
      [s[0]] + InsertBy(x, s[1..], before)
    else [x] + s
  }

  function SortBy<T>(s: seq<T>, before: (T, T) -> bool): (r: seq<T>)
    ensures multiset(r) == multiset(s)
    ensures |r| == |s|
  {
    if s == [] then []
    else
      assert s == [s[0]] + s[1..];
      var r := InsertBy(s[0], SortBy(s[1..], before), before);
      assert |multiset(r)| == |r| && |multiset(s)| == |s|;
      r
  }

  lemma {:induction false} InsertArranged<T(!new)>(x: T, s: seq<T>, before: (T, T) -> bool)
    requires WeakOrder(before) && Arranged(s, before)
    ensures Arranged(InsertBy(x, s, before), before)
  {
    if s != [] {
      var r := InsertBy(x, s, before);
      if before(s[0], x) {
        var rest := InsertBy(x, s[1..], before);
        InsertArranged(x, s[1..], before);
        forall j | 0 <= j < |rest| ensures !before(rest[j], s[0]) {
          assert rest[j] in multiset(rest);
          assert rest[j] == x || rest[j] in s[1..];
        }
      } else {
        forall j | 0 <= j < |s| ensures !before(s[j], x) {}
      }
    }
  }

  /** Sorting leaves no later element before an earlier one. */
  lemma {:induction false} SortArranges<T(!new)>(s: seq<T>, before: (T, T) -> bool)
    requires WeakOrder(before)
    ensures Arranged(SortBy(s, before), before)
  {
    if s != [] {
      SortArranges(s[1..], before);
      InsertArranged(s[0], SortBy(s[1..], before), before);
    }
  }

  /** The elements that compare as equal to `x`, in their order. */
  function Peers<T>(s: seq<T>, x: T, before: (T, T) -> bool): seq<T>
  {
    if s == [] then []
    else (if Peer(s[0], x, before) then [s[0]] else []) + Peers(s[1..], x, before)
  }

  predicate Peer<T>(y: T, x: T, before: (T, T) -> bool)
  {
    !before(y, x) && !before(x, y)
  }

  lemma PeersTie<T(!new)>(y: T, z: T, x: T, before: (T, T) -> bool)
    requires WeakOrder(before) && before(y, z)
    ensures !(Peer(y, x, before) && Peer(z, x, before))
  {
  }

  lemma PeersFront<T(!new)>(y: T, s: seq<T>, x: T, before: (T, T) -> bool)
    ensures Peers([y] + s, x, before) == (if Peer(y, x, before) then [y] else []) + Peers(s, x, before)
  {
    hide Peer;
    assert ([y] + s)[1..] == s;
  }

  lemma {:induction false} InsertStable<T(!new)>(y: T, s: seq<T>, x: T, before: (T, T) -> bool)
    requires WeakOrder(before)
    ensures Peers(InsertBy(y, s, before), x, before) == Peers([y] + s, x, before)
  {
    hide WeakOrder, Peer, Peers;
    if s != [] && before(s[0], y) {
      InsertStable(y, s[1..], x, before);
      PeersFront(y, s[1..], x, before);
      PeersFront(s[0], InsertBy(y, s[1..], before), x, before);
      PeersFront(y, s, x, before);
      PeersFront(s[0], s[1..], x, before);
      PeersTie(s[0], y, x, before);
      assert s == [s[0]] + s[1..];
    } else {
      assert InsertBy(y, s, before) == [y] + s;
    }
  }

  /** Sorting keeps elements that compare as equal in their order. */
  lemma {:induction false} SortStable<T(!new)>(s: seq<T>, x: T, before: (T, T) -> bool)
    requires WeakOrder(before)
    ensures Peers(SortBy(s, before), x, before) == Peers(s, x, before)
  {
    if s != [] {
      SortStable(s[1..], x, before);
      InsertStable(s[0], SortBy(s[1..], before), x, before);
      assert ([s[0]] + SortBy(s[1..], before))[1..] == SortBy(s[1..], before);
    }
  }

  /** `out` lists the elements of `s` in order, those that compare as equal as in `s`. */
  ghost predicate Ranked<T(!new)>(s: seq<T>, out: seq<T>, before: (T, T) -> bool)
  {
    multiset(out) == multiset(s) && Arranged(out, before) && forall x :: Peers(out, x, before) == Peers(s, x, before)
  }

  lemma SortRanks<T(!new)>(s: seq<T>, before: (T, T) -> bool)
    requires WeakOrder(before)
    ensures Ranked(s, SortBy(s, before), before)
  {
    hide Arranged, Peers, WeakOrder;
    SortArranges(s, before);
    forall x ensures Peers(SortBy(s, before), x, before) == Peers(s, x, before) {
      SortStable(s, x, before);
    }
  }

  ghost predicate DistinctBy<T, K>(s: seq<T>, f: T -> K)
  {
    forall i, j :: 0 <= i < j < |s| ==> f(s[i]) != f(s[j])
  }

  /** Elements that differ in a key still do in another order. */
  lemma DistinctByPermuted<T, K>(a: seq<T>, b: seq<T>, f: T -> K)
    requires multiset(a) == multiset(b) && DistinctBy(a, f)
    ensures DistinctBy(b, f)
  {
    forall i, j | 0 <= i < j < |b| ensures f(b[i]) != f(b[j]) {
      assert b[i] in multiset(a) && b[j] in multiset(a);
      var k :| 0 <= k < |a| && a[k] == b[i];
      var l :| 0 <= l < |a| && a[l] == b[j];
      if k == l {
        TwiceInMultiset(b, i, j);
        assert Distinct(a);
        DistinctOnce(a, a[k]);
      }
    }
  }
}
