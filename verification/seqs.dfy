/**
 Ordered collections of titles: duplicate-freedom, disjointness and Python's
 `list.remove(x)`, which deletes the first occurrence of `x`.
 */
module Seqs {

  /** No element occurs twice. */
  predicate NoDup<T(==)>(s: seq<T>) {
    forall i, j :: 0 <= i < j < |s| ==> s[i] != s[j]
  }

  /** No element of `a` occurs in `b`. */
  predicate Disjoint<T(==)>(a: seq<T>, b: seq<T>) {
    forall x :: x in a ==> x !in b
  }

  /** Position of the first occurrence of `x` in `s`. */
  function FirstIndex<T(==)>(s: seq<T>, x: T): (i: nat)
    requires x in s
    ensures i < |s| && s[i] == x
    ensures x !in s[..i]
  {
    if s[0] == x then 0 else
      var i := FirstIndex(s[1..], x);
      assert s[..i + 1] == [s[0]] + s[1..][..i];
      i + 1
  }

  /** Python's `s.remove(x)` when `x in s`, and `s` itself otherwise: the
      first occurrence of `x` is cut out and every other element keeps its
      place in the order. */
  function RemoveFirst<T(==)>(s: seq<T>, x: T): (r: seq<T>)
    ensures x in s ==> |r| == |s| - 1
    ensures x in s ==> forall k :: 0 <= k < |r| ==>
                         r[k] == (if k < FirstIndex(s, x) then s[k] else s[k + 1])
    ensures x !in s ==> r == s
    ensures multiset(r) == multiset(s) - multiset{x}
  {
    if x in s then
      var i := FirstIndex(s, x);
      assert s == s[..i] + [x] + s[i + 1..];
      s[..i] + s[i + 1..]
    else
      s
  }

  /** Appending a new element keeps a sequence duplicate-free, and only then. */
  lemma NoDupAppend<T>(s: seq<T>, x: T)
    ensures NoDup(s + [x]) <==> NoDup(s) && x !in s
  {
    NoDupConcat(s, [x]);
  }

  /** Concatenation is duplicate-free exactly when both parts are and they
      share no element. */
  lemma NoDupConcat<T>(a: seq<T>, b: seq<T>)
    ensures NoDup(a + b) <==> NoDup(a) && NoDup(b) && Disjoint(a, b)
  {
    var t := a + b;
    if NoDup(t) {
      assert forall i, j :: 0 <= i < j < |a| ==> a[i] == t[i] && a[j] == t[j];
      assert forall i, j :: 0 <= i < j < |b| ==> b[i] == t[|a| + i] && b[j] == t[|a| + j];
      forall x | x in a
        ensures x !in b
      {
        var i :| 0 <= i < |a| && a[i] == x;
        forall j | 0 <= j < |b|
          ensures b[j] != x
        {
          assert t[i] != t[|a| + j];
        }
      }
    }
    if NoDup(a) && NoDup(b) && Disjoint(a, b) {
      forall i, j | 0 <= i < j < |t|
        ensures t[i] != t[j]
      {
        if j < |a| {
          assert t[i] == a[i] && t[j] == a[j];
        } else if i >= |a| {
          assert t[i] == b[i - |a|] && t[j] == b[j - |a|];
        } else {
          assert t[i] == a[i] && t[j] == b[j - |a|];
          assert a[i] in a;
        }
      }
    }
  }

  /** In a duplicate-free sequence `remove` deletes the only occurrence, and
      what is left is still duplicate-free and drawn from the original. */
  lemma RemoveFirstNoDup<T>(s: seq<T>, x: T)
    requires NoDup(s)
    ensures NoDup(RemoveFirst(s, x))
    ensures x !in RemoveFirst(s, x)
    ensures forall y :: y in RemoveFirst(s, x) ==> y in s
  {
    if x in s {
      var i := FirstIndex(s, x);
      var r := RemoveFirst(s, x);
      assert forall k :: 0 <= k < i ==> r[k] == s[k];
      assert forall k :: i <= k < |r| ==> r[k] == s[k + 1];
      forall y | y in r
        ensures y in s && y != x
      {
        var k :| 0 <= k < |r| && r[k] == y;
        if k < i {
          assert s[k] == y;
        } else {
          assert s[k + 1] == y;
        }
      }
    }
  }

  /** Removing the element just appended gives back the original sequence. */
  lemma {:induction false} RemoveFirstOfAppended<T>(s: seq<T>, x: T)
    requires x !in s
    ensures RemoveFirst(s + [x], x) == s
  {
    assert FirstIndex(s + [x], x) == |s|;
    assert (s + [x])[..|s|] == s;
  }
}
