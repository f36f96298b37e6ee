/**
  The two string comparisons the job registry uses: ordinal order (for
  sorting) and ordinal case-insensitive equality and containment (for
  filtering).
*/
module Text {

  /** Ordinal (code-unit) lexicographic order: a prefix sorts first. */
  predicate StrLeq(a: string, b: string)
  {
    |a| == 0 || (|b| > 0 && (a[0] < b[0] || (a[0] == b[0] && StrLeq(a[1..], b[1..]))))
  }

  predicate StrLt(a: string, b: string)
  {
    StrLeq(a, b) && a != b
  }

  lemma {:induction false} StrLeqReflexive(a: string)
    ensures StrLeq(a, a)
  {
    if |a| > 0 {
      StrLeqReflexive(a[1..]);
    }
  }

  lemma {:induction false} StrLeqTotal(a: string, b: string)
    ensures StrLeq(a, b) || StrLeq(b, a)
  {
    if |a| > 0 && |b| > 0 && a[0] == b[0] {
      StrLeqTotal(a[1..], b[1..]);
    }
  }

  lemma {:induction false} StrLeqTransitive(a: string, b: string, c: string)
    requires StrLeq(a, b) && StrLeq(b, c)
    ensures StrLeq(a, c)
  {
    if |a| > 0 && |b| > 0 && |c| > 0 && a[0] == b[0] && b[0] == c[0] {
      StrLeqTransitive(a[1..], b[1..], c[1..]);
    }
  }

  lemma {:induction false} StrLeqAntisymmetric(a: string, b: string)
    requires StrLeq(a, b) && StrLeq(b, a)
    ensures a == b
  {
    if |a| > 0 && |b| > 0 {
      StrLeqAntisymmetric(a[1..], b[1..]);
      assert a == [a[0]] + a[1..] && b == [b[0]] + b[1..];
    }
  }

  /** Upper-casing as OrdinalIgnoreCase compares characters (ASCII letters). */
  function FoldCase(c: char): (u: char)
  {
    if 'a' <= c <= 'z' then (c as int - 32) as char else c
  }

  /** string.Equals(a, b, StringComparison.OrdinalIgnoreCase). */
  predicate EqualsIgnoreCase(a: string, b: string)
  {
    |a| == |b| && forall i :: 0 <= i < |a| ==> FoldCase(a[i]) == FoldCase(b[i])
  }

  /** term occurs in s at position k, ignoring case. */
  predicate OccursAt(s: string, term: string, k: int)
  {
    0 <= k && k + |term| <= |s| && EqualsIgnoreCase(s[k..k + |term|], term)
  }

  /** s.Contains(term, StringComparison.OrdinalIgnoreCase). */
  predicate ContainsIgnoreCase(s: string, term: string)
  {
    exists k :: 0 <= k <= |s| && OccursAt(s, term, k)
  }

  /** Case-insensitive equality relates exactly the strings that differ only in
      the case of ASCII letters: it is an equivalence. */
  lemma EqualsIgnoreCaseEquivalence(a: string, b: string, c: string)
    ensures EqualsIgnoreCase(a, a)
    ensures EqualsIgnoreCase(a, b) ==> EqualsIgnoreCase(b, a)
    ensures EqualsIgnoreCase(a, b) && EqualsIgnoreCase(b, c) ==> EqualsIgnoreCase(a, c)
  {
  }

  /** A string contains itself and the empty string, whatever the case. */
  lemma ContainsIgnoreCaseBasics(s: string)
    ensures ContainsIgnoreCase(s, "")
    ensures ContainsIgnoreCase(s, s)
  {
    assert OccursAt(s, "", 0);
    assert s[0..|s|] == s;
    assert OccursAt(s, s, 0);
  }
}
