/** The search box: a case-insensitive title filter, and the sorted list the page displays. */
module Search {
  import opened Seqs
  import opened Text
  import opened Tasks
  import opened PrioritySort

  /** The task's lower-cased title includes the lower-cased query. */
  function Matches(t: Task, query: string): (b: bool)
    ensures b <==> exists k :: 0 <= k <= |t.title| && StartsWith(Lower(t.title)[k..], Lower(query))
  {
    ContainsIff(Lower(t.title), Lower(query));
    Contains(Lower(t.title), Lower(query))
  }

  /** filteredTasks: the tasks matching `query`, in list order. */
  function Search(tasks: seq<Task>, query: string): (r: seq<Task>)
    ensures forall i :: 0 <= i < |r| ==> Matches(r[i], query)
    ensures forall t :: multiset(r)[t] == if Matches(t, query) then multiset(tasks)[t] else 0
    ensures IsSubsequence(r, tasks)
    ensures |tasks| == 0 ==> r == []
  {
    var keep := (t: Task) => Matches(t, query);
    FilterCount(tasks, keep);
    FilterIsSubsequence(tasks, keep);
    Filter(tasks, keep)
  }

  /** What the list shows: the search result sorted by priority. */
  function Visible(tasks: seq<Task>, query: string): (r: seq<Task>)
    ensures Sorted(r)
    ensures multiset(r) == multiset(Search(tasks, query))
  {
    SortByPriority(Search(tasks, query))
  }

  /** An empty query keeps every task, in order. */
  lemma EmptyQueryKeepsAll(tasks: seq<Task>)
    ensures Search(tasks, "") == tasks
  {
    forall i | 0 <= i < |tasks| ensures Matches(tasks[i], "") {
      ContainsEmpty(Lower(tasks[i].title));
    }
    FilterKeepsAll(tasks, (t: Task) => Matches(t, ""));
  }

  /** Queries that agree up to ASCII case select the same tasks. */
  lemma SearchIgnoresQueryCase(tasks: seq<Task>, q1: string, q2: string)
    requires Lower(q1) == Lower(q2)
    ensures Search(tasks, q1) == Search(tasks, q2)
  {
    if |tasks| > 0 {
      SearchIgnoresQueryCase(tasks[1..], q1, q2);
    }
  }

  /** Searching a concatenation searches each part. */
  lemma SearchConcat(a: seq<Task>, b: seq<Task>, query: string)
    ensures Search(a + b, query) == Search(a, query) + Search(b, query)
  {
    FilterConcat(a, b, (t: Task) => Matches(t, query));
  }

  /** The page's sort of the filtered tasks changes nothing once the list itself is sorted. */
  lemma VisibleOfSortedIsSearch(tasks: seq<Task>, query: string)
    requires Sorted(tasks)
    ensures Visible(tasks, query) == Search(tasks, query)
  {
    FilterKeepsSorted(tasks, (t: Task) => Matches(t, query));
    SortKeepsSorted(Search(tasks, query));
  }
}
