/** Facts about lists that do not depend on the order of their elements. */
module Permutations {

  lemma SameElements<T>(s: seq<T>, t: seq<T>)
    requires multiset(s) == multiset(t)
    ensures |s| == |t|
    ensures forall x :: x in s <==> x in t
  {
    assert |multiset(s)| == |s| && |multiset(t)| == |t|;
    forall x ensures x in s <==> x in t {
      assert x in s <==> x in multiset(s);
      assert x in t <==> x in multiset(t);
    }
  }

  /** The sequence has no two positions with one key. */
  ghost predicate DistinctBy<T(!new), K(!new)>(s: seq<T>, key: T -> K)
  {
    forall i, j :: 0 <= i < j < |s| ==> key(s[i]) != key(s[j])
  }

  lemma {:induction false} DistinctByMultiset<T(!new), K(!new)>(s: seq<T>, key: T -> K)
    ensures DistinctBy(s, key) <==>
            && (forall x :: x in s ==> multiset(s)[x] == 1)
            && (forall x, y :: x in s && y in s && x != y ==> key(x) != key(y))
  {
    if s != [] {
      var init, last := s[..|s| - 1], s[|s| - 1];
      assert s == init + [last];
      assert multiset(s) == multiset(init) + multiset{last};
      DistinctByMultiset(init, key);
      if DistinctBy(s, key) {
        assert forall x :: x in init ==> key(x) != key(last);
        assert forall x :: x in s ==> x in init || x == last;
      } else if DistinctBy(init, key) {
        var i :| 0 <= i < |init| && key(init[i]) == key(last);
        assert init[i] in s && last in s;
        if init[i] == last {
          assert multiset(s)[last] >= 2;
        }
      } else if forall x :: x in s ==> multiset(s)[x] == 1 {
        forall x | x in init ensures multiset(init)[x] == 1 {
          assert x in multiset(init);
          assert multiset(s)[x] == 1;
        }
      }
    }
  }

  lemma DistinctByOrderless<T(!new), K(!new)>(s: seq<T>, t: seq<T>, key: T -> K)
    requires multiset(s) == multiset(t)
    ensures DistinctBy(s, key) <==> DistinctBy(t, key)
  {
    SameElements(s, t);
    DistinctByMultiset(s, key);
    DistinctByMultiset(t, key);
  }
}
