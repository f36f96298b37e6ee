/**
  The three List<T> mutators the job list and the field drawers use
  (Add, RemoveAt, Insert), stated on sequences, and the move that the
  inspector builds from RemoveAt followed by Insert.
*/
module Lists {

  /** List<T>.RemoveAt(i): drop element i, later elements shift down by one. */
  function RemoveAt<T>(s: seq<T>, i: nat): (r: seq<T>)
    requires i < |s|
    ensures |r| == |s| - 1
    ensures forall j :: 0 <= j < i ==> r[j] == s[j]
    ensures forall j :: i <= j < |r| ==> r[j] == s[j + 1]
  {
    s[..i] + s[i + 1..]
  }

  /** List<T>.Insert(i, x): x lands at index i, elements from i on shift up by one. */
  function Insert<T>(s: seq<T>, i: nat, x: T): (r: seq<T>)
    requires i <= |s|
    ensures |r| == |s| + 1 && r[i] == x
    ensures forall j :: 0 <= j < i ==> r[j] == s[j]
    ensures forall j :: i < j < |r| ==> r[j] == s[j - 1]
  {
    s[..i] + [x] + s[i..]
  }

  /** Take the element at `from` out and put it back at `to`. */
  function Move<T>(s: seq<T>, from: nat, to: nat): (r: seq<T>)
    requires from < |s| && to < |s|
  {
    Insert(RemoveAt(s, from), to, s[from])
  }

  /** What Move does to every index: the moved element is found at `to`,
      the elements strictly between the two positions slide by one towards
      `from`, and everything outside that range stays where it was. */
  lemma MoveAt<T>(s: seq<T>, from: nat, to: nat)
    requires from < |s| && to < |s|
    ensures |Move(s, from, to)| == |s|
    ensures Move(s, from, to)[to] == s[from]
    ensures from <= to ==> forall j :: from <= j < to ==> Move(s, from, to)[j] == s[j + 1]
    ensures to <= from ==> forall j :: to < j <= from ==> Move(s, from, to)[j] == s[j - 1]
    ensures forall j :: 0 <= j < |s| && (j < from || j > to) && (j < to || j > from) ==> Move(s, from, to)[j] == s[j]
  {
  }

  /** RemoveAt keeps every other element: only one occurrence of s[i] goes. */
  lemma {:induction false} RemoveAtMultiset<T>(s: seq<T>, i: nat)
    requires i < |s|
    ensures multiset(RemoveAt(s, i)) + multiset{s[i]} == multiset(s)
  {
    assert s == s[..i] + [s[i]] + s[i + 1..];
  }

  /** A move is a permutation: the multiset of elements is preserved. */
  lemma {:induction false} MovePermutes<T>(s: seq<T>, from: nat, to: nat)
    requires from < |s| && to < |s|
    ensures |Move(s, from, to)| == |s|
    ensures multiset(Move(s, from, to)) == multiset(s)
  {
    var t := RemoveAt(s, from);
    RemoveAtMultiset(s, from);
    assert Insert(t, to, s[from]) == t[..to] + [s[from]] + t[to..];
    assert t == t[..to] + t[to..];
  }

  /** Moving an element onto its own position changes nothing. */
  lemma {:induction false} MoveSelf<T>(s: seq<T>, i: nat)
    requires i < |s|
    ensures Move(s, i, i) == s
  {
    MoveAt(s, i, i);
  }

  /** Moving back to the original position restores the original order. */
  lemma {:induction false} MoveBack<T>(s: seq<T>, from: nat, to: nat)
    requires from < |s| && to < |s|
    ensures Move(Move(s, from, to), to, from) == s
  {
    var t := Move(s, from, to);
    MoveAt(s, from, to);
    MoveAt(t, to, from);
  }
}
