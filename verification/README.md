# Task list reducer — a Dafny model

This project models the logic of a small React Native task-list app (`App.js`):
a list of tasks (`id`, `title`) starting from a fixed seed of six, changed only
through a reducer that handles three actions, plus a case-insensitive title
search and the add/edit form that builds the actions' payloads.

The app's code is pure (new arrays built by spread, `map` and `filter`), so the
model is pure too: datatypes and functions over `seq<Task>`, with lemmas.

- `tasks.dfy` (module `Tasks`): the `Task`, `Draft` and `Action` datatypes, the
  seed list `InitialTasks`, and the id predicates `HasId`, `SequentialIds` (ids
  are exactly 1..n in order) and `UniqueIds`.
- `sequences.dfy` (module `Sequences`): `Filter`, the meaning of an array
  `filter`, specified by length (`Count`), membership and order
  (`IsSubsequence`); `FilterUnique` proves these three clauses determine it.
- `reducer.dfy` (module `TaskReducer`): `Reduce` (the reducer), `Replay`
  (dispatching actions one after another), and lemmas per action: ADD/DELETE
  round trip, UPDATE and DELETE identity conditions, idempotence, exact
  single-position effect under unique ids, id-shape preservation, and the id
  collision that DELETE then ADD produces.
- `search.dfy` (module `TaskSearch`): ASCII lower-casing, substring inclusion,
  and `Search`, with the empty-query, case-insensitivity and seed "Learn"
  properties.
- `edit_screen.dfy` (module `EditScreen`): the form's initial text and the
  action FINISH dispatches; editing without typing is a no-op; since the screens
  never dispatch DELETE, any session of adds and edits from the seed keeps ids
  1..n and unique.

UPDATE and DELETE act on every task carrying the id, not only the first,
because the reducer maps and filters over the whole list (App.js:28-32).
`Reduce` does that. `UpdateRewritesOne` and `DeleteRemovesOne` give the
single-task reading: with unique ids, exactly one position is rewritten or
removed.

The id rule `length + 1` can collide. Ids 1..n in order are preserved by ADD and
by UPDATE, so they hold in every session the screens can produce. A DELETE
followed by an ADD can still produce a duplicate id: `DeleteThenAddCollides`
exhibits two tasks with id 6, and `DeleteThenAddDuplicates` shows the same for
every list with ids 1..n and every deleted id below n. The model keeps the rule
as written.

## Model

| member | source | states |
|---|---|---|
| Tasks.InitialTasks | App.js:8-15 | the seed holds six tasks whose ids are exactly 1..6 in order |
| Tasks.SequentialIdsUnique | App.js:26 | ids 1..n in order are pairwise distinct and leave `n + 1` free, which is what the `length + 1` rule assumes |
| TaskReducer.IdIsNot | App.js:32 | the DELETE callback keeps a task exactly when its id differs from the deleted id |
| TaskReducer.Reduce | App.js:23-36 | ADD: length grows by one, the old list is the unchanged prefix, and the new last task has id `length + 1` and the draft's title. UPDATE: length and order are kept; each position holds the payload if its id matches, else its old task. DELETE: the result is a subsequence of the list, holds exactly the tasks with another id, and its length is their count. Any other action: the list unchanged |
| TaskReducer.Replay | App.js:65-108 | dispatching a sequence of actions in order adds at most one task per action, and actions the reducer ignores leave the list unchanged |
| TaskReducer.AddThenDeleteRestores | App.js:26-32 | ADD followed by DELETE of the id it assigned gives back the original list whenever that id was free |
| TaskReducer.AddKeepsSequential | App.js:26 | ADD keeps ids equal to 1..n |
| TaskReducer.AddUniqueIff | App.js:26 | on a list with unique ids, ADD keeps them unique if and only if no task already carries `length + 1` |
| TaskReducer.UpdateIdentityIff | App.js:28-30 | UPDATE returns the list unchanged if and only if every task carrying the payload's id already equals the payload |
| TaskReducer.UpdateAbsentIsIdentity | App.js:28-30 | UPDATE for an id no task carries returns the list unchanged |
| TaskReducer.UpdateRewritesOne | App.js:28-30 | with unique ids, UPDATE of the id at position j is exactly the list with position j replaced by the payload |
| TaskReducer.UpdateKeepsIds | App.js:28-30 | UPDATE keeps the length and the id at every position |
| TaskReducer.UpdateKeepsIdInvariants | App.js:28-30 | UPDATE preserves "ids are 1..n" and "ids are unique" |
| TaskReducer.UpdateIdempotent | App.js:28-30 | dispatching the same UPDATE twice equals dispatching it once |
| TaskReducer.UpdateUndo | App.js:28-30 | with unique ids, re-titling a task and then updating with the original task restores the list |
| TaskReducer.DeleteRemovesId | App.js:32 | after DELETE no task carries the deleted id |
| TaskReducer.DeleteIdentityIff | App.js:32 | DELETE returns the list unchanged if and only if no task carries the id |
| TaskReducer.DeleteRemovesOne | App.js:32 | with unique ids, DELETE of the id at position j is exactly the list without position j, others in order |
| TaskReducer.DeleteIdempotent | App.js:32 | dispatching the same DELETE twice equals dispatching it once |
| TaskReducer.SubsequenceKeepsUniqueIds | App.js:32 | dropping tasks while keeping order cannot create a duplicate id |
| TaskReducer.DeleteKeepsUnique | App.js:32 | DELETE preserves "ids are unique" |
| TaskReducer.ReplayWithoutDeleteKeepsSequential | App.js:23-36 | any sequence of actions without DELETE, applied to a list with ids 1..n, leaves ids 1..n |
| TaskReducer.DeleteThenAddDuplicates | App.js:26-32 | on any list with ids 1..n, DELETE of an id below n then ADD keeps n tasks, the last two both with id n (the old last task and the new one), so ids are not unique |
| TaskReducer.DeleteThenAddCollides | App.js:26-32 | from the seed, DELETE of id 3 then ADD of any title yields six tasks, the last two both with id 6, so ids are not unique |
| TaskReducer.AddCallMomScenario | App.js:26-32 | from the seed, adding "Call mom" assigns id 7, and deleting id 7 afterwards gives back the seed in order |
| TaskReducer.RetitleScenario | App.js:28-30 | from the seed, updating id 2 to "UI task revised" changes that task only |
| Sequences.Count | App.js:32 | the number of passing elements is at most the length, and equals it exactly when every element passes |
| Sequences.Filter | App.js:32 | `filter` keeps exactly the passing elements, as a subsequence in the original order, `Count` many of them |
| Sequences.FilterUnique | App.js:32 | any subsequence of passing elements of length `Count` is the `filter` result, so the contract of `Filter` pins it down |
| Sequences.FilterFront | App.js:32 | `filter` of a list keeps its first element exactly when it passes, followed by the `filter` of the rest |
| Sequences.FilterAppend | App.js:32 | `filter` distributes over concatenation |
| Sequences.FilterAllPass | App.js:32 | `filter` with every element passing returns the input |
| Sequences.FilterKeepsAll | App.js:32 | `filter` returns its input unchanged if and only if every element passes |
| Sequences.FilterIdempotent | App.js:32 | filtering twice with the same callback equals filtering once |
| Sequences.FilterAgree | App.js:69-71 | `filter` depends only on the callback's values on the elements |
| TaskSearch.LowerChar | App.js:70 | a lower-cased character is never an ASCII capital and differs from the input only for capitals, by the fixed ASCII offset |
| TaskSearch.Lower | App.js:70 | `toLowerCase` keeps the length; what it does to each character is stated by `LowerChar` and `LowerSpec` |
| TaskSearch.LowerSpec | App.js:70 | a lower-cased string has no ASCII capital and keeps every other character in place |
| TaskSearch.LowerIdempotent | App.js:70 | lower-casing twice equals lower-casing once |
| TaskSearch.LowerPrefix | App.js:70 | lower-casing keeps a prefix a prefix |
| TaskSearch.LowerAvoids | App.js:70 | a lower-case letter absent from a string in both cases is absent from its lower-cased form |
| TaskSearch.Includes | App.js:70 | `includes` holds only when the query is no longer than the string, and always for the empty query |
| TaskSearch.IncludesEmpty | App.js:70 | the empty query is included in every title |
| TaskSearch.MissingCharExcludes | App.js:70 | a query containing a character the title lacks is not included |
| TaskSearch.PrefixMatches | App.js:70 | a title starting with the query matches it |
| TaskSearch.MatchesQuery | App.js:69-71 | the search callback accepts a task exactly when its lower-cased title includes the lower-cased query |
| TaskSearch.NoLetterNMissesLearn | App.js:70 | scenario helper for `SearchLearnScenario`: a title without the letter n in either case does not match "Learn" |
| TaskSearch.Search | App.js:69-71 | the shown tasks are a subsequence of the list, hold exactly the tasks whose lower-cased title includes the lower-cased query, and number as many as there are such tasks |
| TaskSearch.SearchEmptyShowsAll | App.js:69-71 | an empty search box shows every task, in order |
| TaskSearch.SearchIgnoresCase | App.js:69-71 | two queries equal after lower-casing show the same tasks |
| TaskSearch.FilterSixKeeps346 | App.js:69-71 | scenario helper for `SearchLearnScenario`: filtering six tasks where only the 3rd, 4th and 6th pass gives those three in order |
| TaskSearch.SeedLearnMisses | App.js:8-15 | scenario helper for `SearchLearnScenario`: the query "Learn" rejects seed tasks 1, 2 and 5 |
| TaskSearch.SeedLearnHits | App.js:8-15 | scenario helper for `SearchLearnScenario`: the query "Learn" accepts seed tasks 3, 4 and 6 |
| TaskSearch.SearchLearnScenario | App.js:69-71 | on the seed, "Learn" shows tasks 3, 4 and 6, in that order |
| EditScreen.InitialInput | App.js:120 | the title field starts empty when adding and with the task's title when editing |
| EditScreen.Submit | App.js:133-138 | FINISH produces only ADD or UPDATE: ADD of a draft with the typed title when adding, UPDATE of the task with its own id and the typed title when editing |
| EditScreen.EditRetitlesOne | App.js:135 | with unique ids, editing task j re-titles that task and leaves every other task as it was |
| EditScreen.FinishWithoutTypingIsNoOp | App.js:120-135 | with unique ids, opening a task for editing and pressing FINISH without typing leaves the list unchanged |
| EditScreen.AddThroughForm | App.js:137 | adding through the form appends the typed title under id `length + 1` |
| EditScreen.Dispatched | App.js:77-110 | the screens' callbacks dispatch one ADD or UPDATE per FINISH, never DELETE |
| EditScreen.FormSessionKeepsIdsUnique | App.js:77-110 | every session of adds and edits from the seed keeps ids 1..n, hence unique |

## Left out

- Rendering (`HomeScreen`, the `TaskList` and `AddEditTask` views, `App`), styles, images and `FlatList` key extraction: presentation only.
- `useReducer`/`useState` and navigation (`navigate`, `goBack`, route parameters, the callback closures): the framework's plumbing. `Replay` stands for the reducer applying dispatched actions in order. The user name passed from the welcome screen is not modelled.
- Action types are modelled as the four `Action` variants, not as type strings. `Unknown` stands for any type string other than the three handled ones; it carries no data because the reducer reads nothing else of such an action. A handled type string with a payload of the wrong shape (for instance ADD_TASK with a number payload) is not modelled.
- Tasks and payloads have exactly `id` and `title`. Extra fields on a JavaScript payload object, which the spread and the UPDATE replacement would carry along, are not modelled. An `id` inside an ADD payload would be overwritten by `length + 1`, so `Draft` has none.
- Ids are unbounded integers compared with `==`. JavaScript number semantics (floating point, `NaN`, non-number ids) are left out.
- TaskSearch.Lower: lower-cases the ASCII capitals A–Z only. Full Unicode `toLowerCase` (other scripts, multi-character mappings) is left out.
