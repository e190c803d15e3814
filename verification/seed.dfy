/** Start-up: the ten example tasks rendered with the page, and the choice between them
    and what storage holds. */
module Seed {
  import opened Wrappers
  import opened Seqs
  import opened Text
  import opened Tasks
  import opened PrioritySort

  /** The example tasks, with ids supplied by the caller (a fresh UUID each in the application). */
  function SeedTasks(ids: seq<Id>): (r: seq<Task>)
    requires |ids| == 10
    ensures |r| == 10
    ensures r[0].priority == High && r[1].priority == Medium && r[2].priority == Low
    ensures r[2].completed && !r[0].completed
  {
    [
      Task(ids[0], "Task 1", "This is task 1", High, false),
      Task(ids[1], "Task 2", "This is task 2", Medium, false),
      Task(ids[2], "Task 3", "Complete the documentation", Low, true),
      Task(ids[3], "Task 4", "Fix bugs in the application", High, false),
      Task(ids[4], "Task 5", "Prepare presentation for client meeting", Medium, true),
      Task(ids[5], "Task 6", "Implement the new feature", High, false),
      Task(ids[6], "Task 7", "Update the library dependencies", Low, false),
      Task(ids[7], "Task 8", "Conduct a code review for pull requests", Medium, false),
      Task(ids[8], "Task 9", "Design new UI components", High, true),
      Task(ids[9], "Task 10", "Research new technologies for the project", Medium, false)
    ]
  }

  /** The seed is a valid collection: each task carries its supplied id and a title the submit
      handler would accept, and no two titles clash up to case. */
  lemma SeedIsWellFormed(ids: seq<Id>)
    requires |ids| == 10
    ensures forall i :: 0 <= i < 10 ==> SeedTasks(ids)[i].id == ids[i] && !IsBlank(SeedTasks(ids)[i].title)
    ensures Distinct(SeedTasks(ids), FoldedTitle)
  {
    var r := SeedTasks(ids);
    forall i | 0 <= i < 10
      ensures r[i].id == ids[i] && |r[i].title| > 0 && r[i].title[0] == 'T'
      ensures i < 9 ==> |r[i].title| == 6 && r[i].title[5] as int == '1' as int + i
      ensures i == 9 ==> |r[i].title| == 7
    {
      assert i == 0 || i == 1 || i == 2 || i == 3 || i == 4 || i == 5 || i == 6 || i == 7 || i == 8 || i == 9;
    }
    SeedTitlesValid(r);
  }

  /** The seed titles stay apart after lower-casing, and distinct supplied ids give distinct task ids. */
  lemma SeedIdsDistinct(ids: seq<Id>)
    requires |ids| == 10
    ensures Distinct(SeedTasks(ids), FoldedTitle)
    ensures (forall i, j :: 0 <= i < j < 10 ==> ids[i] != ids[j]) ==> Distinct(SeedTasks(ids), IdOf)
  {
    SeedIsWellFormed(ids);
  }

  /** Titles "Task 1" to "Task 10" are not blank and stay apart after lower-casing. */
  lemma SeedTitlesValid(r: seq<Task>)
    requires |r| == 10
    requires forall i :: 0 <= i < 10 ==> |r[i].title| > 0 && r[i].title[0] == 'T'
    requires forall i :: 0 <= i < 9 ==> |r[i].title| == 6 && r[i].title[5] as int == '1' as int + i
    requires |r[9].title| == 7
    ensures forall i :: 0 <= i < 10 ==> !IsBlank(r[i].title)
    ensures Distinct(r, FoldedTitle)
  {
    forall i | 0 <= i < 10 ensures !IsBlank(r[i].title) {
      assert !IsWhitespace(r[i].title[0]);
      NotBlankWhenStartsVisible(r[i].title);
    }
    SeedFoldedTitlesDistinct(r);
  }

  lemma SeedFoldedTitlesDistinct(r: seq<Task>)
    requires |r| == 10
    requires forall i :: 0 <= i < 9 ==> |r[i].title| == 6 && r[i].title[5] as int == '1' as int + i
    requires |r[9].title| == 7
    ensures Distinct(r, FoldedTitle)
  {
    forall i, j | 0 <= i < j < 10 ensures FoldedTitle(r[i]) != FoldedTitle(r[j]) {
      if j < 9 {
        assert FoldedTitle(r[i])[5] != FoldedTitle(r[j])[5];
      } else {
        assert |FoldedTitle(r[i])| != |FoldedTitle(r[j])|;
      }
    }
  }

  /** The load effect: what storage holds wins, even an empty list; only when storage
      yields nothing is the seed used. */
  function LoadOrSeed(stored: Option<seq<Task>>, seed: seq<Task>): (r: seq<Task>)
    ensures stored.Some? ==> r == stored.value
    ensures stored.None? ==> r == seed
  {
    match stored
    case Some(tasks) => tasks
    case None => seed
  }

  /** The list at start-up: with nothing stored it is the ten seed tasks, titles unique up to
      case, ids unique whenever the supplied ids are. */
  function Init(stored: Option<seq<Task>>, ids: seq<Id>): (r: seq<Task>)
    requires |ids| == 10
    ensures stored.None? ==> r == SeedTasks(ids)
    ensures stored.None? ==> |r| == 10 && Distinct(r, FoldedTitle)
    ensures stored.None? && (forall i, j :: 0 <= i < j < 10 ==> ids[i] != ids[j]) ==> Distinct(r, IdOf)
    ensures stored.Some? ==> r == stored.value
  {
    SeedIdsDistinct(ids);
    LoadOrSeed(stored, SeedTasks(ids))
  }

  /** The loaded list is not put in priority order: in the seed, the completed "Task 3" stands
      before the pending "Task 4". Only the displayed list is sorted. */
  lemma SeedIsNotSorted(ids: seq<Id>)
    requires |ids| == 10
    ensures !Sorted(SeedTasks(ids))
  {
    var r := SeedTasks(ids);
    assert r[2].completed && !r[3].completed;
    assert !InOrder(r[2], r[3]);
  }
}
