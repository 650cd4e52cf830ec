/** Keeping the first element of every key, in order: the deduplication
    `detect_issues` applies to its raw issue list, and the first-insertion
    order of a Python dict's keys. */
module Sequences {

  /** No element of `s` occurs twice. */
  predicate Distinct<T(==)>(s: seq<T>) {
    forall i, j :: 0 <= i < j < |s| ==> s[i] != s[j]
  }

  /** No element before index `i` has the key of `s[i]`. */
  predicate IsFirst<T, K(==)>(s: seq<T>, i: int, key: T -> K)
    requires 0 <= i < |s|
  {
    forall j :: 0 <= j < i ==> key(s[j]) != key(s[i])
  }

  /** The elements of `s` that are the first of their key, in the order of `s`. */
  function FirstBy<T(==), K(==)>(s: seq<T>, key: T -> K): (r: seq<T>)
    ensures |r| <= |s|
    ensures forall y :: y in r ==> y in s
    ensures forall i, j :: 0 <= i < j < |r| ==> key(r[i]) != key(r[j])
  {
    if s == [] then []
    else
      var n := |s| - 1;
      var r0 := FirstBy(s[..n], key);
      if IsFirst(s, n, key) then
        assert forall i :: 0 <= i < |r0| ==> r0[i] in s[..n];
        r0 + [s[n]]
      else r0
  }

  /** `a` is `b` with some elements left out, the others in their order. */
  predicate IsSubsequence<T(==)>(a: seq<T>, b: seq<T>)
    decreases |b|
  {
    if a == [] then true
    else if b == [] then false
    else
      || (a[|a| - 1] == b[|b| - 1] && IsSubsequence(a[..|a| - 1], b[..|b| - 1]))
      || IsSubsequence(a, b[..|b| - 1])
  }

  /** Deduplication keeps the surviving elements in their original order. */
  lemma {:induction false} FirstByIsSubsequence<T, K>(s: seq<T>, key: T -> K)
    ensures IsSubsequence(FirstBy(s, key), s)
  {
    if s != [] {
      var n := |s| - 1;
      var r := FirstBy(s, key);
      FirstByIsSubsequence(s[..n], key);
      if IsFirst(s, n, key) {
        assert r[..|r| - 1] == FirstBy(s[..n], key);
      } else if r != [] {
        assert r == FirstBy(s[..n], key);
      }
    }
  }

  /** Every first occurrence survives deduplication. */
  lemma {:induction false} FirstByKeepsFirsts<T, K>(s: seq<T>, key: T -> K, i: int)
    requires 0 <= i < |s| && IsFirst(s, i, key)
    ensures s[i] in FirstBy(s, key)
  {
    var n := |s| - 1;
    if i < n {
      assert IsFirst(s[..n], i, key);
      FirstByKeepsFirsts(s[..n], key, i);
    }
  }

  /** Only first occurrences survive deduplication. */
  lemma {:induction false} FirstByOnlyFirsts<T, K>(s: seq<T>, key: T -> K, y: T)
    requires y in FirstBy(s, key)
    ensures exists i :: 0 <= i < |s| && IsFirst(s, i, key) && s[i] == y
  {
    var n := |s| - 1;
    if y in FirstBy(s[..n], key) {
      FirstByOnlyFirsts(s[..n], key, y);
      var i :| 0 <= i < n && IsFirst(s[..n], i, key) && s[..n][i] == y;
      assert IsFirst(s, i, key);
    } else {
      assert IsFirst(s, n, key) && s[n] == y;
    }
  }

  /** Every key of `s` is still present after deduplication. */
  lemma FirstByCoversKeys<T, K>(s: seq<T>, key: T -> K, i: int)
    requires 0 <= i < |s|
    ensures exists y :: y in FirstBy(s, key) && key(y) == key(s[i])
  {
    var j := FirstIndexOfKey(s, key, i);
    FirstByKeepsFirsts(s, key, j);
  }

  /** The index of the first element whose key is that of `s[i]`. */
  function FirstIndexOfKey<T, K(==)>(s: seq<T>, key: T -> K, i: int): (j: int)
    requires 0 <= i < |s|
    ensures 0 <= j <= i && key(s[j]) == key(s[i]) && IsFirst(s, j, key)
    decreases i
  {
    if IsFirst(s, i, key) then i
    else
      var k :| 0 <= k < i && key(s[k]) == key(s[i]);
      FirstIndexOfKey(s, key, k)
  }

  /** When equal keys mean equal elements, deduplication keeps exactly the
      elements of `s`. */
  lemma FirstBySameElements<T, K>(s: seq<T>, key: T -> K, x: T)
    requires forall i, j :: 0 <= i < |s| && 0 <= j < |s| && key(s[i]) == key(s[j]) ==> s[i] == s[j]
    ensures x in FirstBy(s, key) <==> x in s
  {
    if x in s {
      var i :| 0 <= i < |s| && s[i] == x;
      FirstByCoversKeys(s, key, i);
      var y :| y in FirstBy(s, key) && key(y) == key(s[i]);
      var j :| 0 <= j < |s| && s[j] == y;
    }
  }

  /** Appending elements whose keys are new and pairwise different keeps
      all of them, after the filtered prefix. */
  lemma {:induction false} FirstByAppendFresh<T, K>(a: seq<T>, b: seq<T>, key: T -> K)
    requires forall x, y :: x in a && y in b ==> key(x) != key(y)
    requires forall i, j :: 0 <= i < j < |b| ==> key(b[i]) != key(b[j])
    ensures FirstBy(a + b, key) == FirstBy(a, key) + b
  {
    if b == [] {
      assert a + b == a;
    } else {
      var n := |b| - 1;
      var s := a + b;
      assert s[..|s| - 1] == a + b[..n];
      FirstByAppendFresh(a, b[..n], key);
      forall j | 0 <= j < |s| - 1
        ensures key(s[j]) != key(s[|s| - 1])
      {
        if j < |a| {
          assert s[j] in a && b[n] in b;
        } else {
          assert s[j] == b[j - |a|];
        }
      }
      assert b[..n] + [b[n]] == b;
    }
  }
}
