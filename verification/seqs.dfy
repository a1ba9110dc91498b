/** Sequence helpers standing in for LINQ `Where`, `OrderBy` and `Skip`/`Take`. */
module Seqs {

  /** `r` is `s` with some elements left out and the rest in their original
      order. */
  predicate Subsequence<T(==)>(r: seq<T>, s: seq<T>)
    decreases |s|
  {
    |r| == 0 || (|s| > 0 && ((r[0] == s[0] && Subsequence(r[1..], s[1..])) || Subsequence(r, s[1..])))
  }

  /** `Where`: keeps every occurrence of the elements satisfying `p`, drops
      all others, and keeps the original order. */
  function Filter<T(==)>(s: seq<T>, p: T -> bool): (r: seq<T>)
    ensures |r| <= |s|
    ensures forall x :: x in r ==> x in s && p(x)
    ensures forall x :: x in s && p(x) ==> x in r
    ensures multiset(r) <= multiset(s)
    ensures forall x :: x in s ==> multiset(r)[x] == if p(x) then multiset(s)[x] else 0
    ensures Subsequence(r, s)
  {
    if |s| == 0 then []
    else
      assert s == [s[0]] + s[1..];
      if p(s[0]) then [s[0]] + Filter(s[1..], p)
      else Filter(s[1..], p)
  }

  lemma {:induction false} SubsequenceMultiset<T>(r: seq<T>, s: seq<T>)
    requires Subsequence(r, s)
    ensures multiset(r) <= multiset(s)
    decreases |s|
  {
    if |r| > 0 {
      assert s == [s[0]] + s[1..];
      if r[0] == s[0] && Subsequence(r[1..], s[1..]) {
        assert r == [r[0]] + r[1..];
        SubsequenceMultiset(r[1..], s[1..]);
      } else {
        SubsequenceMultiset(r, s[1..]);
      }
    }
  }

  /** The two clauses of `Filter`'s contract that speak of order and
      multiplicity determine its result: an order-keeping selection of `s`
      with the filter's element counts is the filter. */
  lemma {:induction false} FilterIsUnique<T>(s: seq<T>, p: T -> bool, r: seq<T>)
    requires Subsequence(r, s)
    requires forall x :: x in s ==> multiset(r)[x] == if p(x) then multiset(s)[x] else 0
    ensures r == Filter(s, p)
    decreases |s|
  {
    if |s| > 0 {
      var a, t := s[0], s[1..];
      assert s == [a] + t;
      if p(a) {
        assert multiset(r)[a] == multiset(s)[a] > 0;
        if !(|r| > 0 && r[0] == a && Subsequence(r[1..], t)) {
          SubsequenceMultiset(r, t);
          assert false;
        }
        assert r == [a] + r[1..];
        forall x | x in t ensures multiset(r[1..])[x] == if p(x) then multiset(t)[x] else 0 {
          assert x in s;
        }
        FilterIsUnique(t, p, r[1..]);
      } else {
        assert a !in multiset(r);
        assert Subsequence(r, t) by {
          if |r| > 0 {
            assert r[0] in multiset(r);
          }
        }
        forall x | x in t ensures multiset(r)[x] == if p(x) then multiset(t)[x] else 0 {
          assert x in s;
        }
        FilterIsUnique(t, p, r);
      }
    }
  }

  lemma {:induction false} FilterDistributes<T>(a: seq<T>, b: seq<T>, p: T -> bool)
    ensures Filter(a + b, p) == Filter(a, p) + Filter(b, p)
  {
    if |a| == 0 {
      assert a + b == b;
    } else {
      assert (a + b)[1..] == a[1..] + b;
      FilterDistributes(a[1..], b, p);
    }
  }

  /** Two `Where` clauses in a row keep what their conjunction keeps. */
  lemma {:induction false} FilterTwice<T>(s: seq<T>, p: T -> bool, q: T -> bool, both: T -> bool)
    requires forall x :: both(x) == (p(x) && q(x))
    ensures Filter(Filter(s, p), q) == Filter(s, both)
  {
    if |s| > 0 {
      FilterTwice(s[1..], p, q, both);
    }
  }

  /** Filtering with equivalent predicates gives the same result. */
  lemma {:induction false} FilterEquivalent<T>(s: seq<T>, p: T -> bool, q: T -> bool)
    requires forall x :: p(x) == q(x)
    ensures Filter(s, p) == Filter(s, q)
  {
    if |s| > 0 {
      FilterEquivalent(s[1..], p, q);
    }
  }

  /** Number of elements of `s` satisfying `p`. */
  function Count<T(==)>(s: seq<T>, p: T -> bool): nat {
    |Filter(s, p)|
  }

  /** `le` is a total preorder: every two elements compare, and the order
      is transitive. Descending-by-key and ordinal string orders are both
      of this kind. */
  ghost predicate TotalPreorder<T(!new)>(le: (T, T) -> bool) {
    && (forall a, b :: le(a, b) || le(b, a))
    && (forall a, b, c :: le(a, b) && le(b, c) ==> le(a, c))
  }

  predicate SortedBy<T>(s: seq<T>, le: (T, T) -> bool) {
    forall i, j :: 0 <= i < j < |s| ==> le(s[i], s[j])
  }

  /** Inserts `x` before the first element it does not follow. */
  function Insert<T(!new)>(x: T, s: seq<T>, le: (T, T) -> bool): (r: seq<T>)
    requires TotalPreorder(le)
    requires SortedBy(s, le)
    ensures SortedBy(r, le)
    ensures multiset(r) == multiset(s) + multiset{x}
  {
    if |s| == 0 then [x]
    else if le(x, s[0]) then
      PrependSorted(x, s, le);
      assert s == [s[0]] + s[1..];
      [x] + s
    else
      var rest := Insert(x, s[1..], le);
      assert s == [s[0]] + s[1..];
      HeadBoundsInsertion(x, s, le, rest);
      PrependSorted(s[0], rest, le);
      [s[0]] + rest
  }

  /** An element below the head of a sorted sequence may go in front. */
  lemma PrependSorted<T(!new)>(x: T, s: seq<T>, le: (T, T) -> bool)
    requires TotalPreorder(le)
    requires SortedBy(s, le)
    requires |s| > 0 ==> le(x, s[0])
    ensures SortedBy([x] + s, le)
  {
    var r := [x] + s;
    forall i, j | 0 <= i < j < |r| ensures le(r[i], r[j]) {
      if i == 0 && j > 1 {
        assert le(x, s[0]) && le(s[0], s[j - 1]);
      }
    }
  }

  /** When `x` does not go before the head, the head is below everything
      the insertion into the tail produces. */
  lemma HeadBoundsInsertion<T(!new)>(x: T, s: seq<T>, le: (T, T) -> bool, rest: seq<T>)
    requires TotalPreorder(le)
    requires SortedBy(s, le) && |s| > 0 && !le(x, s[0])
    requires multiset(rest) == multiset(s[1..]) + multiset{x}
    ensures |rest| > 0 ==> le(s[0], rest[0])
  {
    if |rest| > 0 {
      assert rest[0] in multiset(rest);
      if rest[0] != x {
        assert rest[0] in multiset(s[1..]);
        var k :| 0 <= k < |s[1..]| && s[1..][k] == rest[0];
        assert s[k + 1] == rest[0];
      }
    }
  }

  /** Stable insertion sort: the model's choice of order among elements the
      ordering ties. */
  function Sort<T(!new)>(s: seq<T>, le: (T, T) -> bool): (r: seq<T>)
    requires TotalPreorder(le)
    ensures SortedBy(r, le)
    ensures multiset(r) == multiset(s)
    ensures |r| == |s|
  {
    if |s| == 0 then []
    else
      assert s == [s[0]] + s[1..];
      Insert(s[0], Sort(s[1..], le), le)
  }

  /** LINQ `Skip(n)`: a negative count skips nothing. */
  function Skip<T>(s: seq<T>, n: int): (r: seq<T>)
    ensures n <= 0 ==> r == s
    ensures 0 <= n <= |s| ==> r == s[n..]
    ensures n >= |s| ==> r == []
  {
    if n <= 0 then s else if n >= |s| then [] else s[n..]
  }

  /** LINQ `Take(n)`: a negative count takes nothing. */
  function Take<T>(s: seq<T>, n: int): (r: seq<T>)
    ensures n <= 0 ==> r == []
    ensures 0 <= n <= |s| ==> r == s[..n]
    ensures n >= |s| ==> r == s
  {
    if n <= 0 then [] else if n >= |s| then s else s[..n]
  }
}
