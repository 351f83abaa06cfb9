/** Stable insertion sort by a strict order, standing in for the standard library's stable sort. */
module Sorting {

  /** `before` is asymmetric, and not coming before is transitive. */
  ghost predicate StrictWeakOrder<T(!new)>(before: (T, T) -> bool)
  {
    && (forall x, y :: before(x, y) ==> !before(y, x))
    && (forall x, y, z :: !before(y, x) && !before(z, y) ==> !before(z, x))
  }

  ghost predicate Sorted<T>(before: (T, T) -> bool, s: seq<T>)
  {
    forall i, j :: 0 <= i < j < |s| ==> !before(s[j], s[i])
  }

  function Insert<T>(before: (T, T) -> bool, s: seq<T>, x: T): (r: seq<T>)
    ensures multiset(r) == multiset(s) + multiset{x} && |r| == |s| + 1
  {
    if s == [] then [x]
    else
      var init, last := s[..|s| - 1], s[|s| - 1];
      assert s == init + [last];
      if before(x, last) then Insert(before, init, x) + [last] else s + [x]
  }

  function Sort<T>(before: (T, T) -> bool, s: seq<T>): (r: seq<T>)
    ensures multiset(r) == multiset(s) && |r| == |s|
  {
    if s == [] then []
    else
      assert s == s[..|s| - 1] + [s[|s| - 1]];
      Insert(before, Sort(before, s[..|s| - 1]), s[|s| - 1])
  }

  lemma {:induction false} InsertSorted<T(!new)>(before: (T, T) -> bool, s: seq<T>, x: T)
    requires StrictWeakOrder(before) && Sorted(before, s)
    ensures Sorted(before, Insert(before, s, x))
  {
    if s != [] {
      var init, last := s[..|s| - 1], s[|s| - 1];
      if before(x, last) {
        InsertSorted(before, init, x);
        var r := Insert(before, init, x);
        forall i | 0 <= i < |r| ensures !before(last, r[i]) {
          assert r[i] in multiset(init) + multiset{x};
          assert r[i] in init || r[i] == x;
        }
      } else {
        forall i | 0 <= i < |s| ensures !before(x, s[i]) {
        }
      }
    }
  }

  lemma {:induction false} SortSorts<T(!new)>(before: (T, T) -> bool, s: seq<T>)
    requires StrictWeakOrder(before)
    ensures Sorted(before, Sort(before, s))
  {
    if s != [] {
      SortSorts(before, s[..|s| - 1]);
      InsertSorted(before, Sort(before, s[..|s| - 1]), s[|s| - 1]);
    }
  }

  lemma SortKeepsElements<T>(before: (T, T) -> bool, s: seq<T>)
    ensures |Sort(before, s)| == |s|
    ensures forall x :: x in Sort(before, s) <==> x in s
  {
    var r := Sort(before, s);
    assert |multiset(r)| == |r| && |multiset(s)| == |s|;
    forall x ensures x in r <==> x in s {
      assert x in r <==> x in multiset(r);
      assert x in s <==> x in multiset(s);
    }
  }

  // ---------------------------------------------------------------- sorting by a key

  function Map<S, T>(f: S -> T, s: seq<S>): seq<T>
  {
    seq(|s|, i requires 0 <= i < |s| => f(s[i]))
  }

  /** `earlier` orders values as `before` orders their images. */
  ghost predicate OrdersAs<S(!new), T>(earlier: (S, S) -> bool, before: (T, T) -> bool, f: S -> T)
  {
    forall x, y :: earlier(x, y) <==> before(f(x), f(y))
  }

  lemma {:induction false} InsertMaps<S(!new), T>(earlier: (S, S) -> bool, before: (T, T) -> bool, f: S -> T,
      s: seq<S>, x: S)
    requires OrdersAs(earlier, before, f)
    ensures Insert(before, Map(f, s), f(x)) == Map(f, Insert(earlier, s, x))
  {
    if s != [] {
      var init, last := s[..|s| - 1], s[|s| - 1];
      InsertMaps(earlier, before, f, init, x);
      assert Map(f, s)[..|s| - 1] == Map(f, init);
      assert Map(f, Insert(earlier, init, x) + [last]) == Map(f, Insert(earlier, init, x)) + [f(last)];
      assert Map(f, s + [x]) == Map(f, s) + [f(x)];
    }
  }

  /** Sorting images is sorting the values by their images. */
  lemma {:induction false} SortMaps<S(!new), T>(earlier: (S, S) -> bool, before: (T, T) -> bool, f: S -> T, s: seq<S>)
    requires OrdersAs(earlier, before, f)
    ensures Sort(before, Map(f, s)) == Map(f, Sort(earlier, s))
  {
    if s != [] {
      var init := s[..|s| - 1];
      assert Map(f, s)[..|s| - 1] == Map(f, init);
      SortMaps(earlier, before, f, init);
      InsertMaps(earlier, before, f, Sort(earlier, init), s[|s| - 1]);
    }
  }

  // ---------------------------------------------------------------- stability

  function Tie<T>(before: (T, T) -> bool, x: T, z: T): seq<T>
  {
    if before(x, z) || before(z, x) then [] else [x]
  }

  /** The elements that tie with `z`, in order. */
  function Ties<T>(before: (T, T) -> bool, s: seq<T>, z: T): seq<T>
  {
    if s == [] then [] else Ties(before, s[..|s| - 1], z) + Tie(before, s[|s| - 1], z)
  }

  lemma TiesSnoc<T>(before: (T, T) -> bool, s: seq<T>, x: T, z: T)
    ensures Ties(before, s + [x], z) == Ties(before, s, z) + Tie(before, x, z)
  {
    assert (s + [x])[..|s|] == s;
  }

  /** Of two ordered elements only one can tie with a third. */
  lemma OneTie<T(!new)>(before: (T, T) -> bool, x: T, y: T, z: T)
    requires StrictWeakOrder(before) && before(x, y)
    ensures Tie(before, x, z) == [] || Tie(before, y, z) == []
  {
  }

  lemma {:induction false} InsertIsStable<T(!new)>(before: (T, T) -> bool, s: seq<T>, x: T, z: T)
    requires StrictWeakOrder(before)
    ensures Ties(before, Insert(before, s, x), z) == Ties(before, s, z) + Tie(before, x, z)
  {
    if s == [] || !before(x, s[|s| - 1]) {
      assert Insert(before, s, x) == s + [x];
      TiesSnoc(before, s, x, z);
    } else {
      var init, last := s[..|s| - 1], s[|s| - 1];
      InsertIsStable(before, init, x, z);
      TiesSnoc(before, Insert(before, init, x), last, z);
      OneTie(before, x, last, z);
    }
  }

  /** Elements that tie keep their order. */
  lemma {:induction false} SortIsStable<T(!new)>(before: (T, T) -> bool, s: seq<T>, z: T)
    requires StrictWeakOrder(before)
    ensures Ties(before, Sort(before, s), z) == Ties(before, s, z)
  {
    if s != [] {
      SortIsStable(before, s[..|s| - 1], z);
      InsertIsStable(before, Sort(before, s[..|s| - 1]), s[|s| - 1], z);
    }
  }
}
