/** The task record, its priority, and the order the list is kept in. */
module Tasks {
  import opened Text

  /** Tasks are identified by an opaque string (a UUID in the running application). */
  type Id = string

  datatype Priority = High | Medium | Low

  /** A task as the list stores it. */
  datatype Task = Task(id: Id, title: string, description: string, priority: Priority, completed: bool)

  /** What the task form submits: the fields a user edits. */
  datatype Draft = Draft(title: string, description: string, priority: Priority)

  /** The form's starting draft when a new task is being added. */
  const EmptyDraft := Draft("", "", Low)

  /** The priority ranks of the sort: high is 1, medium 2, low 3. */
  function Rank(p: Priority): (r: int)
    ensures 1 <= r <= 3
    ensures r == 1 <==> p == High
    ensures r == 3 <==> p == Low
  {
    match p
    case High => 1
    case Medium => 2
    case Low => 3
  }

  /** The id, as a function value (keys of `Seqs.Distinct`). */
  function IdOf(t: Task): Id
  {
    t.id
  }

  /** The title as the duplicate check compares it: lower-cased, not trimmed. */
  function FoldedTitle(t: Task): string
  {
    Lower(t.title)
  }

  /** `a` may stand before `b` in the list: pending tasks come before completed ones,
      and within the same completion state a higher priority comes first. */
  predicate InOrder(a: Task, b: Task)
  {
    && (a.completed ==> b.completed)
    && (a.completed == b.completed ==> Rank(a.priority) <= Rank(b.priority))
  }

  /** `a` and `b` tie under the comparator: same completion state and same priority. */
  predicate SameClass(a: Task, b: Task)
  {
    a.completed == b.completed && a.priority == b.priority
  }

  /** The comparator handed to Array.prototype.sort: negative when `a` goes first,
      positive when `b` goes first, zero on a tie. */
  function Compare(a: Task, b: Task): (r: int)
    ensures r <= 0 <==> InOrder(a, b)
    ensures r == 0 <==> SameClass(a, b)
    ensures a.completed != b.completed ==> (r > 0 <==> a.completed)
  {
    if a.completed != b.completed then
      (if a.completed then 1 else -1)
    else
      Rank(a.priority) - Rank(b.priority)
  }

  /** The comparator describes a total preorder whose ties are exactly the same-class pairs,
      so every stable sort by it produces one and the same result. */
  lemma InOrderIsTotalPreorder()
    ensures forall a, b :: InOrder(a, b) || InOrder(b, a)
    ensures forall a, b, c :: InOrder(a, b) && InOrder(b, c) ==> InOrder(a, c)
    ensures forall a, b :: InOrder(a, b) && InOrder(b, a) <==> SameClass(a, b)
  {
  }
}
