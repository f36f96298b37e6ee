/**
  The sequence queries the registry pipelines are built from: Where,
  Select, Distinct and a stable OrderBy on a key made of strings compared
  ordinally, position by position (OrderBy(k1).ThenBy(k2) is the key [k1, k2]).
*/
module Queries {
  import opened Text

  /** Lexicographic order on keys whose components are ordered by StrLeq. */
  predicate KeyLeq(a: seq<string>, b: seq<string>)
  {
    |a| == 0 || (|b| > 0 && (StrLt(a[0], b[0]) || (a[0] == b[0] && KeyLeq(a[1..], b[1..]))))
  }

  lemma {:induction false} KeyLeqTotal(a: seq<string>, b: seq<string>)
    ensures KeyLeq(a, b) || KeyLeq(b, a)
  {
    if |a| > 0 && |b| > 0 {
      if a[0] == b[0] {
        KeyLeqTotal(a[1..], b[1..]);
      } else {
        StrLeqTotal(a[0], b[0]);
      }
    }
  }

  lemma {:induction false} KeyLeqTransitive(a: seq<string>, b: seq<string>, c: seq<string>)
    requires KeyLeq(a, b) && KeyLeq(b, c)
    ensures KeyLeq(a, c)
  {
    if |a| > 0 {
      if a[0] == b[0] && b[0] == c[0] {
        KeyLeqTransitive(a[1..], b[1..], c[1..]);
      } else if StrLt(a[0], b[0]) && StrLt(b[0], c[0]) {
        StrLeqTransitive(a[0], b[0], c[0]);
        if a[0] == c[0] {
          StrLeqAntisymmetric(a[0], b[0]);
        }
      }
    }
  }

  /** On two-component keys the order is: first component, then second. */
  lemma KeyLeqPair(a1: string, a2: string, b1: string, b2: string)
    ensures KeyLeq([a1, a2], [b1, b2]) <==> StrLt(a1, b1) || (a1 == b1 && StrLeq(a2, b2))
  {
    assert [a1, a2][1..] == [a2] && [b1, b2][1..] == [b2];
    KeyLeqSingle(a2, b2);
  }

  /** On one-component keys the order is the component's order. */
  lemma KeyLeqSingle(a: string, b: string)
    ensures KeyLeq([a], [b]) <==> StrLeq(a, b)
  {
    assert [a][1..] == [] && [b][1..] == [];
    StrLeqReflexive(a);
  }

  /** r keeps some of the elements of s, in their order in s. */
  predicate IsSubsequence<T(==)>(r: seq<T>, s: seq<T>)
  {
    |r| == 0 || (|s| > 0 && ((r[0] == s[0] && IsSubsequence(r[1..], s[1..])) || IsSubsequence(r, s[1..])))
  }

  lemma {:induction false} SubsequenceMembers<T>(r: seq<T>, s: seq<T>)
    requires IsSubsequence(r, s)
    ensures forall x :: x in r ==> x in s
  {
    if |r| > 0 {
      if r[0] == s[0] && IsSubsequence(r[1..], s[1..]) {
        SubsequenceMembers(r[1..], s[1..]);
        assert forall x :: x in r ==> x == r[0] || x in r[1..];
      } else {
        SubsequenceMembers(r, s[1..]);
      }
    }
  }

  lemma {:induction false} SubsequenceOfSelf<T>(s: seq<T>)
    ensures IsSubsequence(s, s)
  {
    if |s| > 0 {
      SubsequenceOfSelf(s[1..]);
    }
  }

  /** Enumerable.Where: the elements that satisfy p, in order. */
  function Where<T(!new)>(s: seq<T>, p: T -> bool): (r: seq<T>)
    ensures forall x :: x in r <==> x in s && p(x)
    ensures IsSubsequence(r, s)
  {
    if |s| == 0 then []
    else
      var rest := Where(s[1..], p);
      assert forall x :: x in s <==> x == s[0] || x in s[1..];
      if p(s[0]) then [s[0]] + rest else rest
  }

  /** Where keeps every passing element as many times as it occurs, and no
      other element at all. */
  lemma {:induction false} WhereMultiset<T(!new)>(s: seq<T>, p: T -> bool)
    ensures forall x :: multiset(Where(s, p))[x] == if p(x) then multiset(s)[x] else 0
  {
    if |s| > 0 {
      WhereMultiset(s[1..], p);
      assert s == [s[0]] + s[1..];
    }
  }

  /** A filter that keeps everything returns its input unchanged. */
  lemma {:induction false} WhereAll<T(!new)>(s: seq<T>, p: T -> bool)
    requires forall x :: x in s ==> p(x)
    ensures Where(s, p) == s
  {
    if |s| > 0 {
      assert forall x :: x in s[1..] ==> x in s;
      WhereAll(s[1..], p);
    }
  }

  /** Enumerable.Select. */
  function Select<T, U>(s: seq<T>, f: T -> U): (r: seq<U>)
    ensures |r| == |s| && forall i :: 0 <= i < |s| ==> r[i] == f(s[i])
  {
    seq(|s|, i requires 0 <= i < |s| => f(s[i]))
  }

  /** Enumerable.Distinct: the first occurrence of every element, in order. */
  function Distinct<T(==,!new)>(s: seq<T>): (r: seq<T>)
    ensures forall x :: x in r <==> x in s
    ensures forall i, j :: 0 <= i < j < |r| ==> r[i] != r[j]
  {
    if |s| == 0 then []
    else
      var d := Distinct(s[..|s| - 1]);
      assert forall x :: x in s <==> x in s[..|s| - 1] || x == s[|s| - 1];
      if s[|s| - 1] in d then d else d + [s[|s| - 1]]
  }

  predicate SortedByKey<T>(s: seq<T>, key: T -> seq<string>)
  {
    forall i, j :: 0 <= i < j < |s| ==> KeyLeq(key(s[i]), key(s[j]))
  }

  /** Put x in front of the first element whose key is not below x's key. */
  function InsertByKey<T>(x: T, s: seq<T>, key: T -> seq<string>): (r: seq<T>)
    ensures multiset(r) == multiset(s) + multiset{x}
  {
    if |s| == 0 then [x]
    else if KeyLeq(key(x), key(s[0])) then [x] + s
    else
      assert s == [s[0]] + s[1..];
      [s[0]] + InsertByKey(x, s[1..], key)
  }

  lemma {:induction false} InsertByKeySorted<T>(x: T, s: seq<T>, key: T -> seq<string>)
    requires SortedByKey(s, key)
    ensures SortedByKey(InsertByKey(x, s, key), key)
  {
    if |s| == 0 {
    } else if KeyLeq(key(x), key(s[0])) {
      var r := [x] + s;
      forall i, j | 0 <= i < j < |r| ensures KeyLeq(key(r[i]), key(r[j])) {
        if i == 0 && j > 1 {
          KeyLeqTransitive(key(x), key(s[0]), key(s[j - 1]));
        }
      }
    } else {
      KeyLeqTotal(key(x), key(s[0]));
      var t := InsertByKey(x, s[1..], key);
      InsertByKeySorted(x, s[1..], key);
      var r := [s[0]] + t;
      forall k | 0 <= k < |t| ensures KeyLeq(key(s[0]), key(t[k])) {
        assert t[k] in multiset(t);
        assert t[k] == x || t[k] in s[1..];
      }
      forall i, j | 0 <= i < j < |r| ensures KeyLeq(key(r[i]), key(r[j])) {
        if i > 0 {
          assert r[i] == t[i - 1] && r[j] == t[j - 1];
        }
      }
    }
  }

  /** Enumerable.OrderBy on `key`: a sorted permutation of s. */
  function OrderByKey<T>(s: seq<T>, key: T -> seq<string>): (r: seq<T>)
    ensures multiset(r) == multiset(s)
    ensures SortedByKey(r, key)
  {
    if |s| == 0 then []
    else
      assert s == [s[0]] + s[1..];
      var rest := OrderByKey(s[1..], key);
      InsertByKeySorted(s[0], rest, key);
      InsertByKey(s[0], rest, key)
  }

  /** A subsequence of a sorted sequence is sorted. */
  lemma {:induction false} SubsequenceSorted<T>(r: seq<T>, s: seq<T>, key: T -> seq<string>)
    requires IsSubsequence(r, s) && SortedByKey(s, key)
    ensures SortedByKey(r, key)
  {
    if |r| > 0 {
      if r[0] == s[0] && IsSubsequence(r[1..], s[1..]) {
        SubsequenceSorted(r[1..], s[1..], key);
        SubsequenceMembers(r[1..], s[1..]);
        forall i, j | 0 <= i < j < |r| ensures KeyLeq(key(r[i]), key(r[j])) {
          if i == 0 {
            assert r[j] in r[1..];
            assert r[j] in s[1..];
            var k :| 0 <= k < |s[1..]| && s[1..][k] == r[j];
            assert s[k + 1] == r[j];
          } else {
            assert r[i] == r[1..][i - 1] && r[j] == r[1..][j - 1];
          }
        }
      } else {
        SubsequenceSorted(r, s[1..], key);
      }
    }
  }
}
