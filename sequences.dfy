/** Sequence vocabulary shared by the other modules: subsequences, duplicate
    freedom, Python's list slicing `s[:n]` and `list.remove(x)`. */
module Sequences {

  /** `a` is obtained from `b` by deleting elements, keeping the order of the rest. */
  predicate IsSubsequence<T(==)>(a: seq<T>, b: seq<T>)
    decreases |b|
  {
    a == [] ||
    (b != [] &&
     ((a[0] == b[0] && IsSubsequence(a[1..], b[1..])) || IsSubsequence(a, b[1..])))
  }

  predicate NoDuplicates<T(==)>(s: seq<T>) {
    forall i, j :: 0 <= i < j < |s| ==> s[i] != s[j]
  }

  lemma {:induction false} SubsequenceReflexive<T>(s: seq<T>)
    ensures IsSubsequence(s, s)
    decreases |s|
  {
    if s != [] {
      SubsequenceReflexive(s[1..]);
    }
  }

  lemma {:induction false} SubsequenceTransitive<T>(a: seq<T>, b: seq<T>, c: seq<T>)
    requires IsSubsequence(a, b) && IsSubsequence(b, c)
    ensures IsSubsequence(a, c)
    decreases |c|
  {
    if a != [] {
      if b[0] == c[0] && IsSubsequence(b[1..], c[1..]) {
        if a[0] == b[0] && IsSubsequence(a[1..], b[1..]) {
          SubsequenceTransitive(a[1..], b[1..], c[1..]);
        } else {
          SubsequenceTransitive(a, b[1..], c[1..]);
        }
      } else {
        SubsequenceTransitive(a, b, c[1..]);
      }
    }
  }

  /** Every element of a subsequence is an element of the whole. */
  lemma {:induction false} SubsequenceMembers<T>(a: seq<T>, b: seq<T>, x: T)
    requires IsSubsequence(a, b) && x in a
    ensures x in b
    decreases |b|
  {
    if a[0] == b[0] && IsSubsequence(a[1..], b[1..]) {
      if x != a[0] {
        SubsequenceMembers(a[1..], b[1..], x);
      }
    } else {
      SubsequenceMembers(a, b[1..], x);
    }
  }

  /** Deleting the element at one index leaves a subsequence. */
  lemma {:induction false} RemoveAtIsSubsequence<T>(s: seq<T>, i: nat)
    requires i < |s|
    ensures IsSubsequence(s[..i] + s[i + 1..], s)
    decreases i
  {
    if i == 0 {
      assert s[..0] + s[1..] == s[1..];
      SubsequenceReflexive(s[1..]);
    } else {
      var r := s[..i] + s[i + 1..];
      assert r[0] == s[0];
      assert r[1..] == s[1..][..i - 1] + s[1..][i..];
      RemoveAtIsSubsequence(s[1..], i - 1);
    }
  }

  lemma {:induction false} RemoveAtNoDuplicates<T>(s: seq<T>, i: nat)
    requires i < |s| && NoDuplicates(s)
    ensures NoDuplicates(s[..i] + s[i + 1..])
  {
    var r := s[..i] + s[i + 1..];
    forall a, b | 0 <= a < b < |r| ensures r[a] != r[b] {
      var a' := if a < i then a else a + 1;
      var b' := if b < i then b else b + 1;
      assert r[a] == s[a'] && r[b] == s[b'] && a' < b';
    }
  }

  /** Python's `s[:n]` for a non-negative `n`: the first min(n, |s|) elements. */
  function Prefix<T>(s: seq<T>, n: nat): (r: seq<T>)
    ensures |r| == if n <= |s| then n else |s|
    ensures r == s[..|r|]
  {
    if n <= |s| then s[..n] else s
  }

  /** Index of the first occurrence of `x`, as `list.index(x)` finds it. */
  function IndexOf<T(==)>(s: seq<T>, x: T): (i: nat)
    requires x in s
    ensures i < |s| && s[i] == x && x !in s[..i]
  {
    if s[0] == x then 0
    else
      assert x in s[1..];
      var j := IndexOf(s[1..], x);
      assert s[..j + 1] == [s[0]] + s[1..][..j];
      j + 1
  }

  /** Python's `list.remove(x)`: deletes the first occurrence of `x`. */
  function RemoveFirst<T(==)>(s: seq<T>, x: T): seq<T>
    requires x in s
  {
    var i := IndexOf(s, x);
    s[..i] + s[i + 1..]
  }

  /** In a list without duplicates, `remove` deletes exactly the element at the given index. */
  lemma {:induction false} RemoveFirstWithoutDuplicates<T>(s: seq<T>, i: nat)
    requires i < |s| && NoDuplicates(s)
    ensures RemoveFirst(s, s[i]) == s[..i] + s[i + 1..]
  {
    var j := IndexOf(s, s[i]);
    assert forall k :: 0 <= k < j ==> s[..j][k] == s[k];
    assert j == i;
  }
}
