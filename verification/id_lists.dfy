/**
 Lists of file ids and the one filter the course service applies to them:
 keep the ids of one list that do not occur in another, in their original order.
 */
module IdLists {

  /** The elements of `s` that do not occur in `excluded`, in their order in `s`;
      occurrences are kept or dropped one by one, so repeated ids stay repeated. */
  function Without(s: seq<int>, excluded: seq<int>): (r: seq<int>)
    ensures |r| <= |s|
    ensures forall x :: x in r <==> x in s && x !in excluded
  {
    if |s| == 0 then []
    else if s[0] in excluded then Without(s[1..], excluded)
    else [s[0]] + Without(s[1..], excluded)
  }

  /** `r` can be obtained from `s` by deleting elements: order is preserved. */
  predicate IsSubsequence<T(==)>(r: seq<T>, s: seq<T>)
    decreases |s|
  {
    if |r| == 0 then true
    else if |s| == 0 then false
    else (r[0] == s[0] && IsSubsequence(r[1..], s[1..])) || IsSubsequence(r, s[1..])
  }

  /** `r` holds every occurrence in `s` of an id not in `excluded`, and nothing else. */
  ghost predicate SameCountsAsFilter(r: seq<int>, s: seq<int>, excluded: seq<int>)
  {
    forall x :: multiset(r)[x] == (if x in excluded then 0 else multiset(s)[x])
  }

  lemma {:induction false} SubsequenceMultiset<T>(r: seq<T>, s: seq<T>)
    requires IsSubsequence(r, s)
    ensures multiset(r) <= multiset(s)
    decreases |s|
  {
    if |r| == 0 {
    } else if r[0] == s[0] && IsSubsequence(r[1..], s[1..]) {
      SubsequenceMultiset(r[1..], s[1..]);
      assert r == [r[0]] + r[1..];
      assert s == [s[0]] + s[1..];
    } else {
      SubsequenceMultiset(r, s[1..]);
      assert s == [s[0]] + s[1..];
    }
  }

  /** `Without` is an order-preserving filter: it is a subsequence of its input
      and keeps exactly the occurrences of the ids that are not excluded. */
  lemma {:induction false} WithoutIsOrderedFilter(s: seq<int>, excluded: seq<int>)
    ensures IsSubsequence(Without(s, excluded), s)
    ensures SameCountsAsFilter(Without(s, excluded), s, excluded)
    decreases |s|
  {
    if |s| == 0 {
    } else {
      var t := s[1..];
      WithoutIsOrderedFilter(t, excluded);
      assert s == [s[0]] + t;
      var rt := Without(t, excluded);
      if s[0] in excluded {
        if |rt| > 0 {
          assert IsSubsequence(rt, s);
        }
      } else {
        var r := [s[0]] + rt;
        assert r[1..] == rt;
        assert multiset(r) == multiset{s[0]} + multiset(rt);
      }
    }
  }

  /** The filter is determined by those two properties: any subsequence of `s`
      with the filter's counts IS `Without(s, excluded)`. */
  lemma {:induction false} WithoutUnique(r: seq<int>, s: seq<int>, excluded: seq<int>)
    requires IsSubsequence(r, s)
    requires SameCountsAsFilter(r, s, excluded)
    ensures r == Without(s, excluded)
    decreases |s|
  {
    if |s| == 0 {
      if |r| > 0 {
        assert false;
      }
    } else {
      var a := s[0];
      var t := s[1..];
      assert s == [a] + t;
      assert multiset(s) == multiset{a} + multiset(t);
      if a in excluded {
        assert multiset(r)[a] == 0;
        if |r| > 0 {
          assert r[0] in multiset(r);
          assert r[0] != a;
          assert IsSubsequence(r, t);
        }
        assert IsSubsequence(r, t);
        forall x
          ensures multiset(r)[x] == (if x in excluded then 0 else multiset(t)[x])
        {
          if x != a {
            assert multiset(s)[x] == multiset(t)[x];
          }
        }
        WithoutUnique(r, t, excluded);
      } else {
        assert multiset(r)[a] == multiset(s)[a] >= 1;
        assert |r| > 0;
        if r[0] == a && IsSubsequence(r[1..], t) {
          var rt := r[1..];
          assert r == [a] + rt;
          assert multiset(r) == multiset{a} + multiset(rt);
          forall x
            ensures multiset(rt)[x] == (if x in excluded then 0 else multiset(t)[x])
          {
          }
          WithoutUnique(rt, t, excluded);
        } else {
          assert IsSubsequence(r, t);
          SubsequenceMultiset(r, t);
          assert false;
        }
      }
    }
  }

  /** Nothing to exclude: the filter is the identity. */
  lemma {:induction false} WithoutDisjoint(s: seq<int>, excluded: seq<int>)
    requires forall x :: x in s ==> x !in excluded
    ensures Without(s, excluded) == s
    decreases |s|
  {
    if |s| > 0 {
      var head := s[0];
      assert head in s;
      WithoutDisjoint(s[1..], excluded);
      calc {
        Without(s, excluded);
        [s[0]] + Without(s[1..], excluded);
        [s[0]] + s[1..];
        s;
      }
    }
  }
}
