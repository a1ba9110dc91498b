/** Ordinal string comparison (`string.CompareOrdinal`): lexicographic order
    on character codes, a proper prefix ordering first. */
module Ordinal {
  import Seqs

  /** `CompareOrdinal(a, b) < 0`. */
  predicate Less(a: string, b: string)
    decreases |a|
  {
    if |a| == 0 then |b| > 0
    else if |b| == 0 then false
    else if a[0] != b[0] then a[0] < b[0]
    else Less(a[1..], b[1..])
  }

  predicate LessOrEqual(a: string, b: string) {
    a == b || Less(a, b)
  }

  lemma {:induction false} LessIrreflexive(a: string)
    ensures !Less(a, a)
    decreases |a|
  {
    if |a| > 0 {
      LessIrreflexive(a[1..]);
    }
  }

  lemma {:induction false} LessAsymmetric(a: string, b: string)
    ensures Less(a, b) ==> !Less(b, a)
    decreases |a|
  {
    if |a| > 0 && |b| > 0 && a[0] == b[0] {
      LessAsymmetric(a[1..], b[1..]);
    }
  }

  lemma {:induction false} LessTransitive(a: string, b: string, c: string)
    requires Less(a, b) && Less(b, c)
    ensures Less(a, c)
    decreases |a|
  {
    if |a| > 0 && a[0] == b[0] && b[0] == c[0] {
      LessTransitive(a[1..], b[1..], c[1..]);
    }
  }

  /** Trichotomy: two distinct strings are ordered one way or the other. */
  lemma {:induction false} LessTotal(a: string, b: string)
    ensures a == b || Less(a, b) || Less(b, a)
    decreases |a|
  {
    if |a| > 0 && |b| > 0 && a[0] == b[0] {
      LessTotal(a[1..], b[1..]);
      if a[1..] == b[1..] {
        assert a == [a[0]] + a[1..] && b == [b[0]] + b[1..];
      }
    }
  }

  lemma LessOrEqualIsTotalPreorder()
    ensures Seqs.TotalPreorder(LessOrEqual)
  {
    forall a, b ensures LessOrEqual(a, b) || LessOrEqual(b, a) {
      LessTotal(a, b);
    }
    forall a, b, c | LessOrEqual(a, b) && LessOrEqual(b, c) ensures LessOrEqual(a, c) {
      if a != b && b != c {
        LessTransitive(a, b, c);
      }
    }
  }

  lemma {:induction false} MinimumWitness(s: set<string>) returns (m: string)
    requires s != {}
    ensures m in s && forall y :: y in s ==> LessOrEqual(m, y)
    decreases |s|
  {
    var x :| x in s;
    if s == {x} {
      m := x;
    } else {
      var m' := MinimumWitness(s - {x});
      LessTotal(x, m');
      if Less(x, m') {
        m := x;
        forall y | y in s ensures LessOrEqual(m, y) {
          if y != x {
            assert y in s - {x};
            if y != m' {
              LessTransitive(x, m', y);
            }
          }
        }
      } else {
        m := m';
        forall y | y in s ensures LessOrEqual(m, y) {
          if y != x {
            assert y in s - {x};
          }
        }
      }
    }
  }

  lemma MinimumExists(s: set<string>)
    requires s != {}
    ensures exists m :: m in s && forall y :: y in s ==> LessOrEqual(m, y)
  {
    var m := MinimumWitness(s);
  }

  /** The ordinal-least element of a non-empty set. */
  function Minimum(s: set<string>): (m: string)
    requires s != {}
    ensures m in s
    ensures forall y :: y in s ==> LessOrEqual(m, y)
  {
    MinimumExists(s);
    var m :| m in s && forall y :: y in s ==> LessOrEqual(m, y);
    assert forall m' :: m' in s && (forall y :: y in s ==> LessOrEqual(m', y)) ==> m' == m by {
      forall m' | m' in s && (forall y :: y in s ==> LessOrEqual(m', y)) ensures m' == m {
        LessAsymmetric(m, m');
      }
    }
    m
  }

  /** Strictly increasing in the ordinal order, hence without duplicates. */
  predicate StrictlyIncreasing(s: seq<string>) {
    forall i, j :: 0 <= i < j < |s| ==> Less(s[i], s[j])
  }

  /** The elements of `s` in ascending ordinal order. */
  function SortedElements(s: set<string>): (r: seq<string>)
    ensures StrictlyIncreasing(r)
    ensures forall x :: x in r <==> x in s
    ensures |r| == |s|
    decreases |s|
  {
    if s == {} then []
    else
      var m := Minimum(s);
      var rest := SortedElements(s - {m});
      assert forall j :: 0 <= j < |rest| ==> Less(m, rest[j]) by {
        forall j | 0 <= j < |rest| ensures Less(m, rest[j]) {
          assert rest[j] in s - {m};
        }
      }
      [m] + rest
  }
}
