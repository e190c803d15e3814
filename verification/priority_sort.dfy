/** sortTasksByPriority: a stable sort of the task list by the source's comparator. */
module PrioritySort {
  import opened Seqs
  import opened Tasks

  /** Every task may stand before every later one. */
  predicate Sorted(s: seq<Task>)
  {
    forall i, j :: 0 <= i < j < |s| ==> InOrder(s[i], s[j])
  }

  /** The tasks of `s` that tie under the comparator with completion state `done` and priority `p`,
      in their order in `s`. */
  function Group(s: seq<Task>, done: bool, p: Priority): seq<Task>
  {
    Filter(s, (t: Task) => t.completed == done && t.priority == p)
  }

  /** A task is in a tie group exactly when it is in the list and has that group's state and priority. */
  lemma GroupMembership(s: seq<Task>, done: bool, p: Priority)
    ensures forall t :: t in Group(s, done, p) <==> t in s && t.completed == done && t.priority == p
  {
    FilterMembership(s, (t: Task) => t.completed == done && t.priority == p);
  }

  /** `r` keeps the relative order of every set of tied tasks of `s`. */
  predicate Stable(r: seq<Task>, s: seq<Task>)
  {
    forall done, p :: Group(r, done, p) == Group(s, done, p)
  }

  /** A sorted sequence stays sorted when an element that may precede all of it is put in front. */
  lemma SortedCons(y: Task, z: seq<Task>)
    requires Sorted(z)
    requires forall t :: t in z ==> InOrder(y, t)
    ensures Sorted([y] + z)
  {
    var s := [y] + z;
    forall i, j | 0 <= i < j < |s|
      ensures InOrder(s[i], s[j])
    {
      assert s[j] == z[j - 1];
      if i == 0 {
        assert z[j - 1] in z;
      } else {
        assert s[i] == z[i - 1];
      }
    }
  }

  /** Dropping the head of a sorted sequence leaves it sorted. */
  lemma SortedTail(s: seq<Task>)
    requires Sorted(s) && |s| > 0
    ensures Sorted(s[1..])
  {
    forall i, j | 0 <= i < j < |s| - 1 ensures InOrder(s[1..][i], s[1..][j]) {
      assert s[1..][i] == s[i + 1] && s[1..][j] == s[j + 1];
    }
  }

  /** The head of a sorted sequence may precede every element of it. */
  lemma HeadPrecedesAll(s: seq<Task>, t: Task)
    requires Sorted(s) && |s| > 0 && t in s
    ensures InOrder(s[0], t)
  {
    var j :| 0 <= j < |s| && s[j] == t;
  }

  /** One insertion step: `x` goes before the first task of `xs` it does not come after,
      which puts it ahead of the tasks it ties with. */
  function Insert(x: Task, xs: seq<Task>): (r: seq<Task>)
    requires Sorted(xs)
    ensures Sorted(r)
    ensures multiset(r) == multiset(xs) + multiset{x}
    ensures |r| == |xs| + 1
    decreases |xs|
  {
    if |xs| == 0 || Compare(x, xs[0]) <= 0 then
      SortedCons(x, xs);
      [x] + xs
    else
      assert xs == [xs[0]] + xs[1..];
      SortedTail(xs);
      var rest := Insert(x, xs[1..]);
      assert forall t :: t in rest ==> t == x || t in xs[1..] by {
        forall t | t in rest ensures t == x || t in xs[1..] {
          assert t in multiset(rest);
        }
      }
      SortedCons(xs[0], rest);
      [xs[0]] + rest
  }

  /** The tie group of a list with `y` in front is `y`'s contribution followed by the group of the rest. */
  lemma GroupCons(y: Task, z: seq<Task>, done: bool, p: Priority)
    ensures Group([y] + z, done, p)
            == (if y.completed == done && y.priority == p then [y] else []) + Group(z, done, p)
  {
    var s := [y] + z;
    assert s[0] == y && s[1..] == z;
  }

  /** Inserting `x` adds it to the front of its own tie group and leaves the other groups alone. */
  lemma {:induction false} InsertGroups(x: Task, xs: seq<Task>, done: bool, p: Priority)
    requires Sorted(xs)
    ensures Group(Insert(x, xs), done, p)
            == (if x.completed == done && x.priority == p then [x] else []) + Group(xs, done, p)
    decreases |xs|
  {
    if |xs| == 0 || Compare(x, xs[0]) <= 0 {
      assert Insert(x, xs) == [x] + xs;
      GroupCons(x, xs, done, p);
    } else {
      SortedTail(xs);
      var rest := Insert(x, xs[1..]);
      assert Insert(x, xs) == [xs[0]] + rest;
      assert xs == [xs[0]] + xs[1..];
      InsertGroups(x, xs[1..], done, p);
      GroupCons(xs[0], rest, done, p);
      GroupCons(xs[0], xs[1..], done, p);
      var gx := if x.completed == done && x.priority == p then [x] else [];
      var g0 := if xs[0].completed == done && xs[0].priority == p then [xs[0]] else [];
      assert !SameClass(x, xs[0]);
      SwapPastEmpty(gx, g0, Group(xs[1..], done, p));
    }
  }

  /** Two prefixes commute in front of a common tail when one of them is empty. */
  lemma SwapPastEmpty(a: seq<Task>, b: seq<Task>, tail: seq<Task>)
    requires |a| == 0 || |b| == 0
    ensures b + (a + tail) == a + (b + tail)
  {
    if |a| == 0 {
      assert a + tail == tail && a + (b + tail) == b + tail;
    } else {
      assert b + (a + tail) == a + tail && b + tail == tail;
    }
  }

  /** sortTasksByPriority: insertion sort by the comparator; ties keep their input order. */
  function SortByPriority(s: seq<Task>): (r: seq<Task>)
    ensures Sorted(r)
    ensures multiset(r) == multiset(s)
    ensures |r| == |s|
  {
    if |s| == 0 then []
    else
      assert s == [s[0]] + s[1..];
      Insert(s[0], SortByPriority(s[1..]))
  }

  /** The sort is stable: within every tie group the input order survives. */
  lemma {:induction false} SortIsStable(s: seq<Task>)
    ensures Stable(SortByPriority(s), s)
  {
    if |s| > 0 {
      SortIsStable(s[1..]);
      forall done, p
        ensures Group(SortByPriority(s), done, p) == Group(s, done, p)
      {
        InsertGroups(s[0], SortByPriority(s[1..]), done, p);
      }
    }
  }

  /** The sorted result spells out the ordering rule: every pending task precedes every completed
      one, and within each completion state the priority rank never decreases. */
  lemma SortPutsPendingFirst(s: seq<Task>)
    ensures forall i, j :: 0 <= i < j < |s| && SortByPriority(s)[j].completed == false
              ==> SortByPriority(s)[i].completed == false
    ensures forall i, j :: 0 <= i < j < |s| && SortByPriority(s)[i].completed == SortByPriority(s)[j].completed
              ==> Rank(SortByPriority(s)[i].priority) <= Rank(SortByPriority(s)[j].priority)
  {
  }

  /** The first task of a non-empty sequence heads its own tie group. */
  lemma GroupOfHead(s: seq<Task>)
    requires |s| > 0
    ensures Group(s, s[0].completed, s[0].priority) == [s[0]] + Group(s[1..], s[0].completed, s[0].priority)
  {
  }

  /** Tasks outside the head's tie group see the same group with or without the head. */
  lemma GroupWithoutHead(s: seq<Task>, done: bool, p: Priority)
    requires |s| > 0 && !(s[0].completed == done && s[0].priority == p)
    ensures Group(s, done, p) == Group(s[1..], done, p)
  {
  }

  /** A sorted sequence is determined by its tie groups: two sorted sequences with the same
      groups are equal. Any stable sort by the comparator, such as Array.prototype.sort,
      therefore returns exactly what SortByPriority returns. */
  lemma {:induction false} StableSortIsUnique(a: seq<Task>, b: seq<Task>)
    requires Sorted(a) && Sorted(b)
    requires forall done, p :: Group(a, done, p) == Group(b, done, p)
    ensures a == b
    decreases |a|
  {
    if |a| == 0 || |b| == 0 {
      if |a| != |b| {
        var s := if |a| == 0 then b else a;
        GroupOfHead(s);
        assert false;
      }
    } else {
      var x, y := a[0], b[0];
      GroupOfHead(a);
      GroupOfHead(b);
      // y's group in `a` is not empty, so the head of `a` may precede y; and symmetrically
      GroupMembership(a, y.completed, y.priority);
      GroupMembership(b, x.completed, x.priority);
      HeadPrecedesAll(a, y);
      HeadPrecedesAll(b, x);
      assert SameClass(x, y);
      assert Group(b, x.completed, x.priority) == [y] + Group(b[1..], x.completed, x.priority);
      assert Group(a, x.completed, x.priority)[0] == x;
      assert x == y;
      forall done, p
        ensures Group(a[1..], done, p) == Group(b[1..], done, p)
      {
        if x.completed == done && x.priority == p {
          assert ([x] + Group(a[1..], done, p))[1..] == Group(a[1..], done, p);
          assert ([x] + Group(b[1..], done, p))[1..] == Group(b[1..], done, p);
        } else {
          GroupWithoutHead(a, done, p);
          GroupWithoutHead(b, done, p);
        }
      }
      StableSortIsUnique(a[1..], b[1..]);
      assert a == [x] + a[1..];
      assert b == [y] + b[1..];
    }
  }

  /** Sorting an already sorted list changes nothing. */
  lemma SortKeepsSorted(s: seq<Task>)
    requires Sorted(s)
    ensures SortByPriority(s) == s
  {
    SortIsStable(s);
    StableSortIsUnique(SortByPriority(s), s);
  }

  /** Sorting twice is sorting once. */
  lemma SortIsIdempotent(s: seq<Task>)
    ensures SortByPriority(SortByPriority(s)) == SortByPriority(s)
  {
    SortKeepsSorted(SortByPriority(s));
  }

  /** Three pending tasks of priority low, high and medium come out high, medium, low. */
  lemma SortScenario(a: Task, b: Task, c: Task)
    requires !a.completed && !b.completed && !c.completed
    requires a.priority == Low && b.priority == High && c.priority == Medium
    ensures SortByPriority([a, b, c]) == [b, c, a]
  {
    var one := SortByPriority([c]);
    assert one == Insert(c, SortByPriority([c][1..]));
    assert [c][1..] == [];
    assert one == [c];
    var two := SortByPriority([b, c]);
    assert [b, c][1..] == [c];
    assert two == Insert(b, [c]);
    assert Compare(b, c) < 0;
    assert two == [b, c];
    assert [a, b, c][1..] == [b, c];
    assert SortByPriority([a, b, c]) == Insert(a, [b, c]);
    assert Compare(a, b) > 0 && Compare(a, c) > 0;
    assert Insert(a, [c]) == [c] + Insert(a, []);
    assert Insert(a, [b, c]) == [b] + Insert(a, [c]);
  }

  /** Filtering a sorted list leaves it sorted. */
  lemma {:induction false} FilterKeepsSorted(s: seq<Task>, keep: Task -> bool)
    requires Sorted(s)
    ensures Sorted(Filter(s, keep))
  {
    if |s| > 0 {
      var rest := Filter(s[1..], keep);
      FilterKeepsSorted(s[1..], keep);
      if keep(s[0]) {
        FilterMembership(s[1..], keep);
        forall t | t in rest ensures InOrder(s[0], t) {
          assert t in s;
          HeadPrecedesAll(s, t);
        }
        SortedCons(s[0], rest);
      }
    }
  }

  /** Sorting preserves any key that was distinct across the list (ids, folded titles). */
  lemma {:induction false} SortKeepsDistinct<K>(s: seq<Task>, key: Task -> K)
    requires Distinct(s, key)
    ensures Distinct(SortByPriority(s), key)
  {
    if |s| > 0 {
      DistinctTail(s, key);
      SortKeepsDistinct(s[1..], key);
      var sorted := SortByPriority(s[1..]);
      forall t | t in sorted ensures key(t) != key(s[0]) {
        assert t in multiset(s[1..]);
        var j :| 0 <= j < |s[1..]| && s[1..][j] == t;
        assert s[j + 1] == t;
      }
      InsertKeepsDistinct(s[0], sorted, key);
    }
  }

  /** Inserting a task whose key is new keeps the keys distinct. */
  lemma {:induction false} InsertKeepsDistinct<K>(x: Task, xs: seq<Task>, key: Task -> K)
    requires Sorted(xs) && Distinct(xs, key)
    requires forall t :: t in xs ==> key(t) != key(x)
    ensures Distinct(Insert(x, xs), key)
    decreases |xs|
  {
    if |xs| == 0 || Compare(x, xs[0]) <= 0 {
      DistinctCons(x, xs, key);
    } else {
      var tail := xs[1..];
      DistinctTail(xs, key);
      SortedTail(xs);
      InsertKeepsDistinct(x, tail, key);
      var rest := Insert(x, tail);
      forall t | t in rest ensures key(t) != key(xs[0]) {
        assert t in multiset(rest);
        if t != x {
          var j :| 0 <= j < |tail| && tail[j] == t;
          assert xs[j + 1] == t;
        }
      }
      DistinctCons(xs[0], rest, key);
    }
  }
}
