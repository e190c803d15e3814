# Task list: a Dafny model of the task reducer

This project models the logic behind the single-page task manager in `pages/index.js`. The page keeps a list of tasks. Each task has an id, a title, a description, a priority (high, medium or low) and a completed flag. The user can add, edit, delete and complete tasks and search them by title. After every change the list is re-sorted. Pending tasks come first, then completed ones. Within each of those two parts, high priority comes before medium and medium before low.

The React state, dialogs, storage and rendering are stripped away. What remains is a set of pure functions over `seq<Task>`:

- `Tasks`: the task record, the priority ranks and the comparator handed to `Array.prototype.sort`.
- `PrioritySort`: `sortTasksByPriority`, modelled as a stable insertion sort driven by that comparator. It comes with proofs that it sorts, permutes and is stable. A further proof shows that every stable sort by this comparator gives the same result, so the model agrees with the browser's stable `sort`.
- `TaskList`: `handleSubmit` (reject a blank title, reject a duplicate title, then add or update), the filter in `deleteTask`, and the map in `toggleCompletion`. Each one re-sorts its result.
- `Search`: the `filteredTasks` title filter, and the sorted list the page displays.
- `Seed`: the ten tasks built by `getServerSideProps`, and the load-or-seed choice made on mount.
- `Text`: `trim` (with ECMAScript's whitespace set), ASCII `toLowerCase` and `includes`.
- `Seqs`: generic `filter`/`map` counterparts and their lemmas.
- `Wrappers`: `Option` and `Result`.

Ids come from `uuidv4()` in the application. In the model they are parameters: `Submit` takes the fresh id as an argument, and `SeedTasks` takes ten ids. Lemmas that need fresh or unique ids state that as a precondition.

In these places the model follows what `pages/index.js` actually does:

- Updating a task whose id is no longer in the list is not an error. The map changes nothing and the list is only re-sorted (`UpdateOfMissingIdOnlySorts`).
- The duplicate-title check lower-cases both titles but does not trim them.
- Stored titles are kept exactly as typed; they are not trimmed.
- The list loaded on mount is used as it is. It is not sorted, and the seed itself is not in priority order (`SeedIsNotSorted`). Only the displayed list is sorted.
- A stored empty list is kept. An empty JSON array is truthy, so it does not fall back to the seed.
- The source excludes the task being edited from the duplicate check by object identity (`t !== editTask`). The model excludes it by id.

## Model

| member | source | states |
|---|---|---|
| Tasks.Rank | pages/index.js:40 | high ranks 1, medium 2, low 3; only high ranks 1 and only low ranks 3 |
| Tasks.Compare | pages/index.js:41-46 | the comparator is non-positive exactly when `a` may stand before `b` (pending before completed, then by rank), zero exactly on ties of state and priority, and puts a completed task after a pending one |
| Tasks.InOrderIsTotalPreorder | pages/index.js:41-46 | the order the comparator induces is total and transitive, and its ties are exactly the same-state, same-priority pairs |
| PrioritySort.Insert | pages/index.js:41-46 | inserting a task into a sorted list keeps it sorted, adds exactly that task and grows the length by one |
| PrioritySort.InsertGroups | pages/index.js:41-46 | an inserted task goes to the front of its own tie group and leaves every other tie group unchanged |
| PrioritySort.SortByPriority | pages/index.js:39-47 | the result is sorted, is a permutation of the input (same multiset) and has the same length |
| PrioritySort.SortIsStable | pages/index.js:41 | tasks that tie on (completed, priority) keep their input relative order |
| PrioritySort.StableSortIsUnique | pages/index.js:41 | two sorted lists with the same tie groups are equal, so any stable sort by the comparator returns exactly the model's result |
| PrioritySort.SortPutsPendingFirst | pages/index.js:42-45 | in the sorted list every pending task precedes every completed one, and within each part the priority rank never decreases |
| PrioritySort.SortKeepsSorted | pages/index.js:39-47 | sorting an already sorted list returns it unchanged |
| PrioritySort.SortIsIdempotent | pages/index.js:39-47 | sorting twice equals sorting once |
| PrioritySort.SortScenario | pages/index.js:39-47 | three pending tasks of priority low, high, medium sort to high, medium, low |
| PrioritySort.FilterKeepsSorted | pages/index.js:137-139 | filtering a sorted list keeps it sorted |
| PrioritySort.SortKeepsDistinct | pages/index.js:106 | re-sorting keeps any per-task key unique that was unique before (ids, folded titles) |
| Text.TrimStart | pages/index.js:65 | removes exactly the leading whitespace: the result is a suffix and starts with a non-whitespace character |
| Text.TrimEnd | pages/index.js:65 | removes exactly the trailing whitespace: the result is a prefix and ends with a non-whitespace character |
| Text.Trim | pages/index.js:65 | the trimmed title starts and ends with a non-whitespace character, and it is empty exactly when every character is whitespace |
| Text.TrimIsSlice | pages/index.js:65 | the trimmed title is the slice of the title that starts where the leading whitespace ends, with only whitespace on either side of it |
| Text.BlankIffAllWhitespace | pages/index.js:65 | `!title.trim()` holds exactly when every character of the title is ECMAScript whitespace (the empty title included) |
| Text.BlankAgreesUnderFolding | pages/index.js:65 | two titles that are equal after lower-casing are either both blank or both not blank |
| Text.LowerChar | pages/index.js:76 | upper-case ASCII letters move to their lower-case letter; every other character is kept |
| Text.Lower | pages/index.js:76 | lower-casing keeps the length and folds each character on its own |
| Text.LowerIsIdempotent | pages/index.js:76 | a lower-cased title has no upper-case ASCII letter, and lower-casing it again changes nothing |
| Text.LowerEqualIff | pages/index.js:76 | two titles compare equal after lower-casing exactly when they agree letter by letter up to ASCII case |
| Text.Contains | pages/index.js:138 | the empty pattern is included in every string, and no pattern longer than the string is included |
| Text.ContainsIff | pages/index.js:138 | `includes` holds exactly when the pattern starts at some position of the text |
| Text.ContainsEmpty | pages/index.js:138 | every title includes the empty string |
| TaskList.Submit | pages/index.js:64-108 | a blank title fails with EmptyTitle; otherwise a title another task already has (after lower-casing, edited task excluded) fails with DuplicateTitle; a success is sorted and is the input plus the new task, or the input with the edited task replaced |
| TaskList.TitleTakenIff | pages/index.js:74-77 | the duplicate check fires exactly when some task in the list has the same lower-cased title and is not the task being edited |
| TaskList.NewTask | pages/index.js:98 | an added task carries the draft's title, description and priority, the fresh id, and is not completed |
| TaskList.Edited | pages/index.js:90 | an updated task carries the draft's title, description and priority under the edited task's id, with the edited task's completed flag |
| TaskList.ReplaceById | pages/index.js:89-91 | the update map keeps the length, replaces the tasks carrying the edited id and keeps every other task in place |
| TaskList.AddRejectsCaseVariant | pages/index.js:74-85 | after an add succeeds, a second add whose title differs only in ASCII case is refused as a duplicate (it cannot be blank, since the first was not) |
| TaskList.AddThenRemoveRestores | pages/index.js:98 | adding a task under a fresh id and then deleting that id gives back the original tasks as a multiset |
| TaskList.RemoveUndoesAppend | pages/index.js:119-120 | deleting the id of a task added under a fresh id leaves exactly the earlier tasks, as a multiset |
| TaskList.UpdateChangesOnlyTarget | pages/index.js:88-91 | an accepted update keeps the length; each result task is the edited task (old id and completed flag) or an untouched task with another id; every other task survives |
| TaskList.UpdateOfMissingIdOnlySorts | pages/index.js:88-91 | when no task has the edited id, the map returns the list unchanged and the submit only sorts it |
| TaskList.AppendKeepsDistinct | pages/index.js:98 | appending the new task keeps a key unique when no listed task shares the new task's key |
| TaskList.ReplaceKeepsIdsDistinct | pages/index.js:88-91 | the update map keeps ids unique, because the stored task keeps the edited task's id |
| TaskList.ReplaceKeepsTitlesDistinct | pages/index.js:74-91 | with unique ids, the update map keeps titles unique up to case when no task with another id has the new title |
| TaskList.SubmitKeepsTitlesDistinct | pages/index.js:74-106 | with unique ids, a successful submit keeps titles unique up to ASCII case |
| TaskList.SubmitKeepsIdsDistinct | pages/index.js:88-106 | with a fresh id for adds, a successful submit keeps ids unique |
| TaskList.Remove | pages/index.js:119-120 | the result is sorted, has no copy of any task with the id, and keeps every copy of every other task |
| TaskList.RemoveAbsentIsNoOp | pages/index.js:119-120 | deleting an id no task carries only re-sorts, and on a sorted list changes nothing |
| TaskList.RemoveIsIdempotent | pages/index.js:119-120 | deleting the same id twice equals deleting it once |
| TaskList.RemoveKeepsDistinct | pages/index.js:119-120 | deleting keeps any key unique that was unique before (ids, folded titles) |
| TaskList.EmptyDraftIsRefused | components/TaskForm.js:5 | submitting the form's starting draft (empty title) unchanged is refused with EmptyTitle |
| TaskList.Flip | pages/index.js:132 | a task keeps its id, title, description and priority, and its completed flag changes exactly when it carries the toggled id |
| TaskList.FlipById | pages/index.js:131-133 | the toggle map keeps ids, titles, descriptions, priorities and length, and flips the completed flag exactly on the tasks with the id |
| TaskList.Toggle | pages/index.js:130-135 | the result is sorted, keeps the length and is a permutation of the flipped list |
| TaskList.FlipTwiceRestores | pages/index.js:131-133 | flipping the same id twice restores every task at every position |
| TaskList.ToggleTwiceRestores | pages/index.js:130-135 | toggling the same id twice gives back the original tasks as a multiset |
| TaskList.ToggleAbsentOnlySorts | pages/index.js:130-135 | toggling an id no task carries only re-sorts the list |
| TaskList.ToggleKeepsKeysDistinct | pages/index.js:130-135 | toggling keeps unique ids unique and unique folded titles unique |
| Search.Matches | pages/index.js:138 | a task matches exactly when the lower-cased query occurs at some position of its lower-cased title |
| Search.Search | pages/index.js:137-139 | every result title includes the query up to ASCII case; every matching task keeps all its copies and no other task appears; the result is a subsequence of the list; an empty list gives an empty result |
| Search.Visible | pages/index.js:196-199 | the displayed list is sorted and is a permutation of the search result |
| Search.EmptyQueryKeepsAll | pages/index.js:138 | an empty query returns the whole list in order |
| Search.SearchIgnoresQueryCase | pages/index.js:138 | queries equal up to ASCII case select the same tasks |
| Search.SearchConcat | pages/index.js:137-139 | searching a concatenation searches each part, so the filter keeps list order |
| Search.VisibleOfSortedIsSearch | pages/index.js:199 | on a sorted list the display sort leaves the search result unchanged |
| Seed.SeedTasks | pages/index.js:296-367 | the seed has ten tasks and includes high, medium and low priorities and both pending and completed tasks |
| Seed.SeedIsWellFormed | pages/index.js:296-367 | every seed task carries its supplied id and a non-blank title, and no two seed titles are equal up to case |
| Seed.SeedIdsDistinct | pages/index.js:296-367 | the seed titles are unique up to case, and distinct supplied ids give the seed distinct task ids |
| Seed.SeedIsNotSorted | pages/index.js:296-367 | the seed is not in priority order (a completed task precedes a pending one) |
| Seed.LoadOrSeed | pages/index.js:15-16 | a stored list is used as it is, even when empty; only when storage yields nothing is the seed used |
| Seed.Init | pages/index.js:14-18 | with nothing stored, the start-up list is exactly the ten seed tasks, so it has ten tasks with unique folded titles, and with unique ids when the supplied ids are unique |

## Left out

- React state, effects, the modal and all JSX rendering (pages/index.js:8-11, 49-62, 141-291): presentation, not list logic.
- The SweetAlert dialogs, including the asynchronous delete confirmation (pages/index.js:111-118): `Remove` models the filter that runs once the user confirms.
- Writing to localStorage and the JSON encoding (pages/index.js:20-23): browser I/O. Reading is modelled only as `Option<seq<Task>>`. A stored value that `JSON.parse` rejects makes the source throw. That path is I/O and is not modelled.
- `uuidv4()` (pages/index.js:5, 98, 298-362): a random id generator. Ids are parameters instead.
- `getPriorityColor` (pages/index.js:25-36): it only returns CSS strings.
- components/TaskForm.js: the form's field state and change handlers. Its starting draft (line 5) is the constant `Tasks.EmptyDraft`; `TaskList.EmptyDraftIsRefused` shows that submitting it as it is fails. When editing, the form starts from the edited task, so the update keeps that task's completed flag (`TaskList.Edited`).
- The `required` attribute on the form's title and description inputs (components/TaskForm.js:35, 45): the browser refuses an empty title or description before `handleSubmit` runs, though a whitespace-only title still gets through to the handler. `Submit` models only the handler, so it accepts an empty description and refuses every blank title itself with EmptyTitle.
- Text.LowerChar: only ASCII letters are folded. JavaScript's `toLowerCase` also folds non-ASCII letters.
- Tasks with a missing field or an unknown priority string (possible in hand-edited storage): the model's `Task` is fully typed.
