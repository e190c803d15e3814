/** Generic sequence operations: the model's counterparts of Array.prototype.filter and map. */
module Seqs {

  /** The elements of `s` that satisfy `p`, in their original order. */
  function Filter<T(!new)>(s: seq<T>, p: T -> bool): (r: seq<T>)
    ensures |r| <= |s|
    ensures forall i :: 0 <= i < |r| ==> p(r[i])
  {
    if |s| == 0 then []
    else
      assert s == [s[0]] + s[1..];
      (if p(s[0]) then [s[0]] else []) + Filter(s[1..], p)
  }

  /** `f` applied to every element of `s`, position by position. */
  function Apply<T, U>(s: seq<T>, f: T -> U): (r: seq<U>)
    ensures |r| == |s|
  {
    seq(|s|, i requires 0 <= i < |s| => f(s[i]))
  }

  /** `a` can be obtained from `b` by deleting elements. */
  predicate IsSubsequence<T(==)>(a: seq<T>, b: seq<T>)
  {
    |a| == 0 || (|b| > 0 && ((a[0] == b[0] && IsSubsequence(a[1..], b[1..])) || IsSubsequence(a, b[1..])))
  }

  /** No two positions of `s` carry the same `key`. */
  predicate Distinct<T, K(==)>(s: seq<T>, key: T -> K)
  {
    forall i, j :: 0 <= i < j < |s| ==> key(s[i]) != key(s[j])
  }

  /** Filtering keeps every copy of an element that passes and drops every copy of one that fails. */
  lemma {:induction false} FilterCount<T(!new)>(s: seq<T>, p: T -> bool)
    ensures forall x :: multiset(Filter(s, p))[x] == if p(x) then multiset(s)[x] else 0
  {
    if |s| > 0 {
      FilterCount(s[1..], p);
      assert s == [s[0]] + s[1..];
    }
  }

  /** An element survives filtering exactly when it occurs in the input and passes. */
  lemma FilterMembership<T(!new)>(s: seq<T>, p: T -> bool)
    ensures forall x :: x in Filter(s, p) <==> x in s && p(x)
  {
    FilterCount(s, p);
    forall x ensures x in Filter(s, p) <==> x in s && p(x) {
      assert x in Filter(s, p) <==> x in multiset(Filter(s, p));
      assert x in s <==> x in multiset(s);
    }
  }

  /** Filtering keeps order: the result is a subsequence of the input. */
  lemma {:induction false} FilterIsSubsequence<T(!new)>(s: seq<T>, p: T -> bool)
    ensures IsSubsequence(Filter(s, p), s)
  {
    if |s| > 0 {
      var tail := Filter(s[1..], p);
      FilterIsSubsequence(s[1..], p);
      if p(s[0]) {
        assert Filter(s, p) == [s[0]] + tail;
        assert ([s[0]] + tail)[1..] == tail;
      } else {
        assert Filter(s, p) == tail;
      }
    }
  }

  /** When every element passes, filtering returns the input itself. */
  lemma {:induction false} FilterKeepsAll<T(!new)>(s: seq<T>, p: T -> bool)
    requires forall i :: 0 <= i < |s| ==> p(s[i])
    ensures Filter(s, p) == s
  {
    if |s| > 0 {
      FilterKeepsAll(s[1..], p);
      assert s == [s[0]] + s[1..];
    }
  }

  /** Filtering distributes over concatenation. */
  lemma {:induction false} FilterConcat<T(!new)>(a: seq<T>, b: seq<T>, p: T -> bool)
    ensures Filter(a + b, p) == Filter(a, p) + Filter(b, p)
  {
    if |a| == 0 {
      assert a + b == b;
    } else {
      assert (a + b)[0] == a[0];
      assert (a + b)[1..] == a[1..] + b;
      FilterConcat(a[1..], b, p);
    }
  }

  /** Dropping the head keeps the keys of the rest distinct. */
  lemma DistinctTail<T, K>(s: seq<T>, key: T -> K)
    requires Distinct(s, key) && |s| > 0
    ensures Distinct(s[1..], key)
  {
    forall i, j | 0 <= i < j < |s| - 1 ensures key(s[1..][i]) != key(s[1..][j]) {
      assert s[1..][i] == s[i + 1] && s[1..][j] == s[j + 1];
    }
  }

  /** Filtering keeps distinct keys distinct: the survivors are a selection of the input. */
  lemma {:induction false} FilterDistinct<T(!new), K>(s: seq<T>, p: T -> bool, key: T -> K)
    requires Distinct(s, key)
    ensures Distinct(Filter(s, p), key)
  {
    if |s| > 0 {
      DistinctTail(s, key);
      FilterDistinct(s[1..], p, key);
      var rest := Filter(s[1..], p);
      assert s == [s[0]] + s[1..];
      if p(s[0]) {
        FilterMembership(s[1..], p);
        forall t | t in rest ensures key(t) != key(s[0]) {
          var j :| 0 <= j < |s[1..]| && s[1..][j] == t;
          assert s[j + 1] == t;
        }
        DistinctCons(s[0], rest, key);
      }
    }
  }

  /** Prepending an element whose key is new keeps the keys distinct. */
  lemma DistinctCons<T, K>(y: T, z: seq<T>, key: T -> K)
    requires Distinct(z, key)
    requires forall t :: t in z ==> key(t) != key(y)
    ensures Distinct([y] + z, key)
  {
    var s := [y] + z;
    forall i, j | 0 <= i < j < |s|
      ensures key(s[i]) != key(s[j])
    {
      assert s[j] == z[j - 1];
      if i > 0 {
        assert s[i] == z[i - 1];
      } else {
        assert z[j - 1] in z;
      }
    }
  }

  /** Applying a function distributes over concatenation. */
  lemma ApplyConcat<T, U>(a: seq<T>, b: seq<T>, f: T -> U)
    ensures Apply(a + b, f) == Apply(a, f) + Apply(b, f)
  {
  }

  /** Taking one element out of a sequence takes it out of its multiset. */
  lemma RemoveAt<T>(b: seq<T>, k: int)
    requires 0 <= k < |b|
    ensures multiset(b) == multiset(b[..k] + b[k + 1..]) + multiset{b[k]}
  {
    assert b == b[..k] + [b[k]] + b[k + 1..];
  }

  /** Adding the same element to two multisets keeps them apart or equal. */
  lemma CancelOne<T>(m: multiset<T>, n: multiset<T>, x: T)
    requires m + multiset{x} == n + multiset{x}
    ensures m == n
  {
    assert m == (m + multiset{x}) - multiset{x};
    assert n == (n + multiset{x}) - multiset{x};
  }

  /** Applying the same function to two permutations of each other yields permutations of each other. */
  lemma {:induction false} ApplyRespectsPermutation<T, U>(a: seq<T>, b: seq<T>, f: T -> U)
    requires multiset(a) == multiset(b)
    ensures multiset(Apply(a, f)) == multiset(Apply(b, f))
    decreases |a|
  {
    if |a| == 0 {
      assert |multiset(b)| == 0;
    } else {
      var x := a[0];
      assert x in multiset(b);
      var k :| 0 <= k < |b| && b[k] == x;
      var left, right := b[..k], b[k + 1..];
      RemoveAt(b, k);
      assert a == [x] + a[1..];
      assert multiset(a) == multiset(a[1..]) + multiset{x};
      CancelOne(multiset(a[1..]), multiset(left + right), x);
      ApplyRespectsPermutation(a[1..], left + right, f);
      var fa, fl, fr := Apply(a[1..], f), Apply(left, f), Apply(right, f);
      ApplyConcat([x], a[1..], f);
      ApplyConcat(left, right, f);
      assert b == left + ([x] + right);
      ApplyConcat(left, [x] + right, f);
      ApplyConcat([x], right, f);
      assert Apply([x], f) == [f(x)];
      assert Apply(a, f) == [f(x)] + fa;
      assert Apply(b, f) == fl + ([f(x)] + fr);
      assert multiset(fa) == multiset(fl) + multiset(fr);
    }
  }
}
