/** Counting in finite sets: images, pigeonhole, and sums over a set in any order. */
module FiniteSets {

  ghost predicate NoRepeats<T(!new)>(s: seq<T>)
  {
    forall i, j :: 0 <= i < j < |s| ==> s[i] != s[j]
  }

  ghost function Elements<T(!new)>(s: seq<T>): set<T>
  {
    set x | x in s
  }

  lemma {:induction false} NoRepeatsCount<T(!new)>(s: seq<T>)
    requires NoRepeats(s)
    ensures |Elements(s)| == |s|
  {
    if s != [] {
      var init, last := s[..|s| - 1], s[|s| - 1];
      NoRepeatsCount(init);
      assert s == init + [last];
      assert Elements(s) == Elements(init) + {last};
      assert last !in init;
    }
  }

  ghost function Image<T(!new), U(!new)>(s: set<T>, f: T -> U): set<U>
  {
    set x | x in s :: f(x)
  }

  ghost predicate InjectiveOn<T(!new), U(!new)>(s: set<T>, f: T -> U)
  {
    forall x, y :: x in s && y in s && x != y ==> f(x) != f(y)
  }

  lemma {:induction false} ImageSize<T(!new), U(!new)>(s: set<T>, f: T -> U)
    ensures |Image(s, f)| <= |s|
    ensures InjectiveOn(s, f) <==> |Image(s, f)| == |s|
  {
    if x :| x in s {
      var rest := s - {x};
      ImageSize(rest, f);
      assert Image(s, f) == Image(rest, f) + {f(x)};
      if f(x) in Image(rest, f) {
        assert Image(s, f) == Image(rest, f);
        var y :| y in rest && f(y) == f(x);
        assert !InjectiveOn(s, f);
      } else {
        assert forall y :: y in rest ==> f(y) != f(x);
        assert InjectiveOn(s, f) <==> InjectiveOn(rest, f);
      }
    }
  }

  lemma SubsetSize<T(!new)>(a: set<T>, b: set<T>)
    requires a <= b
    ensures |a| <= |b|
    ensures a == b <==> |a| == |b|
  {
    assert b == a + (b - a);
    assert |b| == |a| + |b - a|;
  }

  /** More pigeons than holes: two of them share one. */
  lemma Pigeonhole<T(!new), U(!new)>(s: set<T>, holes: set<U>, f: T -> U) returns (x: T, y: T)
    requires forall z :: z in s ==> f(z) in holes
    requires |s| > |holes|
    ensures x in s && y in s && x != y && f(x) == f(y)
  {
    assert Image(s, f) <= holes;
    SubsetSize(Image(s, f), holes);
    ImageSize(s, f);
    x, y :| x in s && y in s && x != y && f(x) == f(y);
  }

  /** Fewer pigeons than holes: one hole stays empty. */
  lemma EmptyHole<T(!new), U(!new)>(s: set<T>, holes: set<U>, f: T -> U) returns (h: U)
    requires |s| < |holes|
    ensures h in holes && forall z :: z in s ==> f(z) != h
  {
    ImageSize(s, f);
    if holes <= Image(s, f) {
      SubsetSize(holes, Image(s, f));
      assert false;
    }
    h :| h in holes && h !in Image(s, f);
    assert forall z :: z in s ==> f(z) in Image(s, f);
  }

  ghost function Pick<T(!new)>(s: set<T>): (x: T)
    requires s != {}
    ensures x in s
  {
    var x :| x in s;
    x
  }

  ghost function SumOver<T(!new)>(s: set<T>, f: T -> int): int
  {
    if s == {} then 0
    else
      var x :| x in s;
      f(x) + SumOver(s - {x}, f)
  }

  /** The sum does not depend on the order in which elements are taken out. */
  lemma {:induction false} SumWithout<T(!new)>(s: set<T>, f: T -> int, y: T)
    requires y in s
    ensures SumOver(s, f) == f(y) + SumOver(s - {y}, f)
  {
    var x :| x in s && SumOver(s, f) == f(x) + SumOver(s - {x}, f);
    if x != y {
      SumWithout(s - {x}, f, y);
      SumWithout(s - {y}, f, x);
      assert s - {x} - {y} == s - {y} - {x};
    }
  }

  lemma SumWith<T(!new)>(s: set<T>, f: T -> int, y: T)
    requires y !in s
    ensures SumOver(s + {y}, f) == SumOver(s, f) + f(y)
  {
    SumWithout(s + {y}, f, y);
    assert s + {y} - {y} == s;
  }

  lemma {:induction false} SumMonotone<T(!new)>(s: set<T>, f: T -> int, g: T -> int)
    requires forall x :: x in s ==> f(x) >= g(x)
    ensures SumOver(s, f) >= SumOver(s, g)
    ensures (forall x :: x in s ==> f(x) == g(x)) ==> SumOver(s, f) == SumOver(s, g)
  {
    if y :| y in s {
      SumWithout(s, f, y);
      SumWithout(s, g, y);
      SumMonotone(s - {y}, f, g);
    }
  }

  /** The largest of a set of integers and 0. */
  ghost function MaxOrZero(s: set<int>): (m: int)
    ensures m >= 0 && (m == 0 || m in s)
    ensures forall x :: x in s ==> x <= m
  {
    if s == {} then 0
    else
      var x := Pick(s);
      var rest := MaxOrZero(s - {x});
      assert forall y :: y in s ==> y == x || y in s - {x};
      if x > rest then x else rest
  }

  lemma MaxOrZeroAdd(s: set<int>, x: int)
    ensures MaxOrZero(s + {x}) == if x > MaxOrZero(s) then x else MaxOrZero(s)
  {
    MaxOrZeroUnique(s + {x}, if x > MaxOrZero(s) then x else MaxOrZero(s));
  }

  lemma MaxOrZeroUnique(s: set<int>, m: int)
    requires m >= 0 && (m == 0 || m in s) && forall x :: x in s ==> x <= m
    ensures m == MaxOrZero(s)
  {
  }
}
