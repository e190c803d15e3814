/** The list mutations behind the page's handlers: submit (add or update), delete and toggle.
    Each one returns the new list, sorted by priority. */
module TaskList {
  import opened Wrappers
  import opened Seqs
  import opened Text
  import opened Tasks
  import opened PrioritySort

  /** Why a submission is refused; the list is then left as it was. */
  datatype SubmitError = EmptyTitle | DuplicateTitle

  /** `t` clashes with `title`: equal after ASCII lower-casing (no trimming), and `t` is not
      the task being edited, which is recognised by its id. */
  predicate Clashes(t: Task, title: string, editing: Option<Task>)
  {
    Lower(t.title) == Lower(title) && !(editing.Some? && t.id == editing.value.id)
  }

  /** The duplicate check, `tasks.some(...)`: some task clashes with `title`. */
  predicate TitleTaken(tasks: seq<Task>, title: string, editing: Option<Task>)
  {
    |tasks| > 0 && (Clashes(tasks[0], title, editing) || TitleTaken(tasks[1..], title, editing))
  }

  /** The duplicate check holds exactly when some task of the list clashes with the title. */
  lemma {:induction false} TitleTakenIff(tasks: seq<Task>, title: string, editing: Option<Task>)
    ensures TitleTaken(tasks, title, editing) <==> exists t :: t in tasks && Clashes(t, title, editing)
  {
    if |tasks| > 0 {
      TitleTakenIff(tasks[1..], title, editing);
      assert tasks == [tasks[0]] + tasks[1..];
    }
  }

  /** The task an add creates: the draft's fields, a fresh id, not completed. */
  function NewTask(draft: Draft, id: Id): (r: Task)
    ensures r.id == id && !r.completed
    ensures r.title == draft.title && r.description == draft.description && r.priority == draft.priority
  {
    Task(id, draft.title, draft.description, draft.priority, false)
  }

  /** The task an update stores: the draft's fields under the edited task's id. The form is
      seeded with the edited task, so its completion state is carried along unchanged. */
  function Edited(target: Task, draft: Draft): (r: Task)
    ensures r.id == target.id && r.completed == target.completed
    ensures r.title == draft.title && r.description == draft.description && r.priority == draft.priority
  {
    Task(target.id, draft.title, draft.description, draft.priority, target.completed)
  }

  /** Every task whose id is `id` replaced by `replacement`; the others untouched. */
  function ReplaceById(tasks: seq<Task>, id: Id, replacement: Task): (r: seq<Task>)
    ensures |r| == |tasks|
    ensures forall i :: 0 <= i < |r| ==> if tasks[i].id == id then r[i] == replacement else r[i] == tasks[i]
  {
    Apply(tasks, (t: Task) => if t.id == id then replacement else t)
  }

  /** handleSubmit: refuse a blank title, then a title another task already has; otherwise
      append a new task (no edit target) or replace the edited one, and re-sort. */
  function Submit(tasks: seq<Task>, draft: Draft, editing: Option<Task>, freshId: Id)
    : (r: Result<seq<Task>, SubmitError>)
    ensures r == Failure(EmptyTitle) <==> IsBlank(draft.title)
    ensures !IsBlank(draft.title) ==> (r == Failure(DuplicateTitle) <==> TitleTaken(tasks, draft.title, editing))
    ensures r.Success? ==> Sorted(r.value)
    ensures r.Success? && editing.None? ==>
              multiset(r.value) == multiset(tasks) + multiset{NewTask(draft, freshId)}
    ensures r.Success? && editing.Some? ==>
              multiset(r.value) == multiset(ReplaceById(tasks, editing.value.id, Edited(editing.value, draft)))
  {
    if IsBlank(draft.title) then Failure(EmptyTitle)
    else if TitleTaken(tasks, draft.title, editing) then Failure(DuplicateTitle)
    else
      match editing
      case None => Success(SortByPriority(tasks + [NewTask(draft, freshId)]))
      case Some(target) => Success(SortByPriority(ReplaceById(tasks, target.id, Edited(target, draft))))
  }

  /** deleteTask once confirmed: drop every task with this id and re-sort. */
  function Remove(tasks: seq<Task>, id: Id): (r: seq<Task>)
    ensures Sorted(r)
    ensures forall t :: multiset(r)[t] == if t.id == id then 0 else multiset(tasks)[t]
  {
    var keep := (t: Task) => t.id != id;
    FilterCount(tasks, keep);
    SortByPriority(Filter(tasks, keep))
  }

  /** `t` with its completion state flipped when it carries `id`. */
  function Flip(t: Task, id: Id): (r: Task)
    ensures r.id == t.id && r.title == t.title && r.description == t.description && r.priority == t.priority
    ensures r.completed != t.completed <==> t.id == id
  {
    if t.id == id then t.(completed := !t.completed) else t
  }

  /** The map in toggleCompletion: only the completion state of the matching tasks changes. */
  function FlipById(tasks: seq<Task>, id: Id): (r: seq<Task>)
    ensures |r| == |tasks|
    ensures forall i :: 0 <= i < |r| ==>
              && r[i].id == tasks[i].id && r[i].title == tasks[i].title
              && r[i].description == tasks[i].description && r[i].priority == tasks[i].priority
              && r[i].completed == (tasks[i].completed != (tasks[i].id == id))
  {
    Apply(tasks, (t: Task) => Flip(t, id))
  }

  /** toggleCompletion: flip the matching task's completion state and re-sort. */
  function Toggle(tasks: seq<Task>, id: Id): (r: seq<Task>)
    ensures Sorted(r)
    ensures |r| == |tasks|
    ensures multiset(r) == multiset(FlipById(tasks, id))
  {
    SortByPriority(FlipById(tasks, id))
  }

  /** Once a task is added, adding another whose title differs only in ASCII case is refused as a duplicate. */
  lemma AddRejectsCaseVariant(tasks: seq<Task>, d1: Draft, id1: Id, d2: Draft, id2: Id)
    requires Submit(tasks, d1, None, id1).Success?
    requires Lower(d2.title) == Lower(d1.title)
    ensures Submit(Submit(tasks, d1, None, id1).value, d2, None, id2) == Failure(DuplicateTitle)
  {
    BlankAgreesUnderFolding(d1.title, d2.title);
    var r := Submit(tasks, d1, None, id1).value;
    assert NewTask(d1, id1) in multiset(r);
    assert Clashes(NewTask(d1, id1), d2.title, None);
    TitleTakenIff(r, d2.title, None);
  }

  /** Adding a task and then deleting its fresh id gives back the original tasks, up to order. */
  lemma AddThenRemoveRestores(tasks: seq<Task>, draft: Draft, freshId: Id)
    requires forall t :: t in tasks ==> t.id != freshId
    requires Submit(tasks, draft, None, freshId).Success?
    ensures multiset(Remove(Submit(tasks, draft, None, freshId).value, freshId)) == multiset(tasks)
  {
    RemoveUndoesAppend(tasks, NewTask(draft, freshId), Submit(tasks, draft, None, freshId).value);
  }

  /** Deleting the id of a task that was added under a fresh id leaves exactly the tasks that
      were there before, whatever order the addition put them in. */
  lemma RemoveUndoesAppend(tasks: seq<Task>, added: Task, r: seq<Task>)
    requires forall t :: t in tasks ==> t.id != added.id
    requires multiset(r) == multiset(tasks) + multiset{added}
    ensures multiset(Remove(r, added.id)) == multiset(tasks)
  {
    var back := Remove(r, added.id);
    forall t ensures multiset(back)[t] == multiset(tasks)[t] {
      if t.id == added.id {
        assert t !in tasks;
      }
    }
  }

  /** An accepted update keeps the length, puts the edited task under its old id and
      completion state, and leaves every task with another id in place. */
  lemma UpdateChangesOnlyTarget(tasks: seq<Task>, draft: Draft, target: Task, freshId: Id)
    requires Submit(tasks, draft, Some(target), freshId).Success?
    ensures var r := Submit(tasks, draft, Some(target), freshId).value;
      && |r| == |tasks|
      && (forall t :: t in r ==> t == Edited(target, draft) || (t in tasks && t.id != target.id))
      && (forall t :: t in tasks && t.id != target.id ==> t in r)
      && (forall t :: t in tasks && t.id == target.id ==> Edited(target, draft) in r)
  {
    var r := Submit(tasks, draft, Some(target), freshId).value;
    var mapped := ReplaceById(tasks, target.id, Edited(target, draft));
    assert multiset(r) == multiset(mapped);
    forall t | t in r ensures t == Edited(target, draft) || (t in tasks && t.id != target.id) {
      assert t in multiset(mapped);
      var i :| 0 <= i < |mapped| && mapped[i] == t;
    }
    forall t | t in tasks && t.id != target.id ensures t in r {
      var i :| 0 <= i < |tasks| && tasks[i] == t;
      assert mapped[i] == t;
      assert t in multiset(mapped);
    }
    forall t | t in tasks && t.id == target.id ensures Edited(target, draft) in r {
      var i :| 0 <= i < |tasks| && tasks[i] == t;
      assert mapped[i] == Edited(target, draft);
      assert Edited(target, draft) in multiset(mapped);
    }
  }

  /** Updating an id that no task carries is not an error: the list is only re-sorted. */
  lemma UpdateOfMissingIdOnlySorts(tasks: seq<Task>, draft: Draft, target: Task, freshId: Id)
    requires forall t :: t in tasks ==> t.id != target.id
    requires !IsBlank(draft.title) && !TitleTaken(tasks, draft.title, Some(target))
    ensures ReplaceById(tasks, target.id, Edited(target, draft)) == tasks
    ensures Submit(tasks, draft, Some(target), freshId) == Success(SortByPriority(tasks))
  {
    var mapped := ReplaceById(tasks, target.id, Edited(target, draft));
    TitleTakenIff(tasks, draft.title, Some(target));
    forall i | 0 <= i < |tasks| ensures mapped[i] == tasks[i] {
      assert tasks[i] in tasks;
    }
  }

  /** Appending a task keeps a key unique when no listed task shares the new task's key. */
  lemma AppendKeepsDistinct<K>(tasks: seq<Task>, t: Task, key: Task -> K)
    requires Distinct(tasks, key)
    requires forall u :: u in tasks ==> key(u) != key(t)
    ensures Distinct(tasks + [t], key)
  {
    var s := tasks + [t];
    forall i, j | 0 <= i < j < |s| ensures key(s[i]) != key(s[j]) {
      assert s[i] == tasks[i];
      if j < |tasks| {
        assert s[j] == tasks[j];
      } else {
        assert s[j] == t && tasks[i] in tasks;
      }
    }
  }

  /** The update map keeps ids unique: the replacement carries the id it replaces. */
  lemma ReplaceKeepsIdsDistinct(tasks: seq<Task>, target: Task, draft: Draft)
    requires Distinct(tasks, IdOf)
    ensures Distinct(ReplaceById(tasks, target.id, Edited(target, draft)), IdOf)
  {
    var s := ReplaceById(tasks, target.id, Edited(target, draft));
    forall i, j | 0 <= i < j < |s| ensures IdOf(s[i]) != IdOf(s[j]) {
      assert s[i].id == tasks[i].id && s[j].id == tasks[j].id;
    }
  }

  /** The update map keeps folded titles unique when ids are unique and no task with another id
      has the new title. */
  lemma ReplaceKeepsTitlesDistinct(tasks: seq<Task>, target: Task, draft: Draft)
    requires Distinct(tasks, FoldedTitle) && Distinct(tasks, IdOf)
    requires forall u :: u in tasks && u.id != target.id ==> Lower(u.title) != Lower(draft.title)
    ensures Distinct(ReplaceById(tasks, target.id, Edited(target, draft)), FoldedTitle)
  {
    var s := ReplaceById(tasks, target.id, Edited(target, draft));
    forall i, j | 0 <= i < j < |s| ensures FoldedTitle(s[i]) != FoldedTitle(s[j]) {
      assert tasks[i] in tasks && tasks[j] in tasks;
      assert IdOf(tasks[i]) != IdOf(tasks[j]);
    }
  }

  /** Submissions keep titles unique up to ASCII case, given that ids are unique too
      (otherwise an update would rename every task sharing the edited id). */
  lemma SubmitKeepsTitlesDistinct(tasks: seq<Task>, draft: Draft, editing: Option<Task>, freshId: Id)
    requires Distinct(tasks, FoldedTitle) && Distinct(tasks, IdOf)
    requires Submit(tasks, draft, editing, freshId).Success?
    ensures Distinct(Submit(tasks, draft, editing, freshId).value, FoldedTitle)
  {
    TitleTakenIff(tasks, draft.title, editing);
    assert forall u :: u in tasks ==> !Clashes(u, draft.title, editing);
    match editing
    case None =>
      var t := NewTask(draft, freshId);
      assert Submit(tasks, draft, editing, freshId).value == SortByPriority(tasks + [t]);
      AppendKeepsDistinct(tasks, t, FoldedTitle);
      SortKeepsDistinct(tasks + [t], FoldedTitle);
    case Some(target) =>
      var s := ReplaceById(tasks, target.id, Edited(target, draft));
      assert Submit(tasks, draft, editing, freshId).value == SortByPriority(s);
      ReplaceKeepsTitlesDistinct(tasks, target, draft);
      SortKeepsDistinct(s, FoldedTitle);
  }

  /** Submissions keep ids unique when the added task's id is fresh; an update keeps every id. */
  lemma SubmitKeepsIdsDistinct(tasks: seq<Task>, draft: Draft, editing: Option<Task>, freshId: Id)
    requires Distinct(tasks, IdOf)
    requires forall t :: t in tasks ==> t.id != freshId
    requires Submit(tasks, draft, editing, freshId).Success?
    ensures Distinct(Submit(tasks, draft, editing, freshId).value, IdOf)
  {
    match editing
    case None =>
      var t := NewTask(draft, freshId);
      assert Submit(tasks, draft, editing, freshId).value == SortByPriority(tasks + [t]);
      AppendKeepsDistinct(tasks, t, IdOf);
      SortKeepsDistinct(tasks + [t], IdOf);
    case Some(target) =>
      var s := ReplaceById(tasks, target.id, Edited(target, draft));
      assert Submit(tasks, draft, editing, freshId).value == SortByPriority(s);
      ReplaceKeepsIdsDistinct(tasks, target, draft);
      SortKeepsDistinct(s, IdOf);
  }

  /** Deleting an id no task carries only re-sorts; on a sorted list it changes nothing. */
  lemma RemoveAbsentIsNoOp(tasks: seq<Task>, id: Id)
    requires forall t :: t in tasks ==> t.id != id
    ensures Remove(tasks, id) == SortByPriority(tasks)
    ensures Sorted(tasks) ==> Remove(tasks, id) == tasks
  {
    var keep := (t: Task) => t.id != id;
    FilterKeepsAll(tasks, keep);
    if Sorted(tasks) {
      SortKeepsSorted(tasks);
    }
  }

  /** Deleting the same id twice is deleting it once. */
  lemma RemoveIsIdempotent(tasks: seq<Task>, id: Id)
    ensures Remove(Remove(tasks, id), id) == Remove(tasks, id)
  {
    var once := Remove(tasks, id);
    forall t | t in once ensures t.id != id {
      assert t in multiset(once);
    }
    RemoveAbsentIsNoOp(once, id);
  }

  /** Deleting keeps any key unique that was unique before (ids, folded titles). */
  lemma RemoveKeepsDistinct<K>(tasks: seq<Task>, id: Id, key: Task -> K)
    requires Distinct(tasks, key)
    ensures Distinct(Remove(tasks, id), key)
  {
    var kept := Filter(tasks, (t: Task) => t.id != id);
    FilterDistinct(tasks, (t: Task) => t.id != id, key);
    SortKeepsDistinct(kept, key);
  }

  /** The form's starting draft has an empty title, so submitting it untouched is refused. */
  lemma EmptyDraftIsRefused(tasks: seq<Task>, editing: Option<Task>, freshId: Id)
    ensures Submit(tasks, EmptyDraft, editing, freshId) == Failure(EmptyTitle)
  {
    assert Trim(EmptyDraft.title) == "";
  }

  /** Flipping the same id twice restores every task, position by position. */
  lemma FlipTwiceRestores(tasks: seq<Task>, id: Id)
    ensures FlipById(FlipById(tasks, id), id) == tasks
  {
  }

  /** Toggling the same id twice gives back the original tasks, up to order. */
  lemma ToggleTwiceRestores(tasks: seq<Task>, id: Id)
    ensures multiset(Toggle(Toggle(tasks, id), id)) == multiset(tasks)
  {
    var flip := (t: Task) => Flip(t, id);
    var once := Toggle(tasks, id);
    ApplyRespectsPermutation(once, FlipById(tasks, id), flip);
    assert Apply(once, flip) == FlipById(once, id);
    assert Apply(FlipById(tasks, id), flip) == FlipById(FlipById(tasks, id), id);
    FlipTwiceRestores(tasks, id);
  }

  /** Toggling an id no task carries only re-sorts the list. */
  lemma ToggleAbsentOnlySorts(tasks: seq<Task>, id: Id)
    requires forall t :: t in tasks ==> t.id != id
    ensures Toggle(tasks, id) == SortByPriority(tasks)
  {
    assert FlipById(tasks, id) == tasks by {
      forall i | 0 <= i < |tasks| ensures FlipById(tasks, id)[i] == tasks[i] {
        assert tasks[i] in tasks;
      }
    }
  }

  /** Toggling keeps ids and folded titles unique, since neither changes. */
  lemma ToggleKeepsKeysDistinct(tasks: seq<Task>, id: Id)
    ensures Distinct(tasks, IdOf) ==> Distinct(Toggle(tasks, id), IdOf)
    ensures Distinct(tasks, FoldedTitle) ==> Distinct(Toggle(tasks, id), FoldedTitle)
  {
    var flipped := FlipById(tasks, id);
    if Distinct(tasks, IdOf) {
      assert Distinct(flipped, IdOf);
      SortKeepsDistinct(flipped, IdOf);
    }
    if Distinct(tasks, FoldedTitle) {
      assert Distinct(flipped, FoldedTitle);
      SortKeepsDistinct(flipped, FoldedTitle);
    }
  }
}
