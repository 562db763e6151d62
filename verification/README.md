# Student-to-faculty allocation, modelled in Dafny

This project models the allocator of a small web application. The application
matches students to faculty supervisors from two spreadsheets: one holds each
student's ranked faculty choices, the other holds each faculty's ranked student
list. The model covers the matcher `allocate_students` and the step of the
`/allocate` route that computes the unallocated students as a set difference.

The matcher runs at most 5 rounds. In round `r`, each pending student is taken
in input order and offered to the faculty at index `r` of their preference
list. The student is placed only when four things hold:

- the faculty is known;
- the faculty's remaining candidate list is non-empty;
- the faculty holds fewer than 8 students;
- the student is at the head of that faculty's remaining list.

A placed student is appended to the faculty's allocation and struck from every
faculty's remaining list. Everyone else is carried over, in order, to the next
round.

Three files:

- `allocation.dfy`, module `AllocationSpec`, is the reference semantics on
  values. `Place` handles one placement, `Round` one round, `Rounds` the round
  loop, and `Allocation` the whole matcher. `Unallocated` is the set
  difference. The module also holds the lemmas about these functions. Its
  central proof is an invariant kept by every placement: `Invariant`, proved
  by `PlacePreserves`, `RoundPreserves` and `RoundsPreserves`. The invariant
  says:
  - the capacity bound holds;
  - no student is allocated twice;
  - each allocated student is on the faculty's input list and chose that
    faculty at a rank below 5;
  - each remaining list is the input list with all allocated students
    filtered out.
- `app.dfy`, module `App`, is the code as the application runs it. Class
  `FacultyPreferences` stands for the faculty table, which the Python function
  edits in place. Its method `AllocateStudents` keeps the round loop, and
  `RunRound` keeps the pass over the pending students. `Offer` holds the
  same nested tests for one student; the early `continue` becomes its
  `placed` result. `RemoveStudent` rewrites the table
  one faculty at a time. Each method is proved equal to the reference
  functions. `Allocate` is the route's core: match, then take the set
  difference.
- `cases.dfy`, module `WorkedCases`, states what the reference functions give on small
  concrete sheets: one faculty, Fay, ranks Ann before Bob.

Student and faculty identifiers are type parameters with equality, so any
identifier type the spreadsheets produce fits.

Some consequences of the code are worth stating outright:

- With an empty faculty table and a non-empty student sheet, every student is
  unallocated (`NoFaculty`).
- When two students both name a faculty first and it ranks them first and
  second, the second is placed in round 0 if the first comes earlier in the
  sheet: placing the first strikes them from the faculty's list at once, which
  makes the second the head within the same round (`BothPlacedInOneRound`).
  Listed before the first, the second is deferred (`DeferredStudentLeftOver`,
  `DeferredStudentPlacedNextRound`).
- A student who is never placed anywhere is never struck, so while they head
  a faculty's list they block every student behind them on it
  (`UnplacedHeadBlocks`).

## Model

| member | source | states |
|---|---|---|
| `AllocationSpec.Without` | app.py:43 | the filtered list is no longer than the input |
| `AllocationSpec.WithoutMember` | app.py:43 | a value is in the filtered list exactly when it is in the input and not in the removed set |
| `AllocationSpec.WithoutCount` | app.py:43 | filtering removes every occurrence of a removed value and keeps every occurrence of any other value |
| `AllocationSpec.WithoutIsSubsequence` | app.py:43 | filtering keeps the survivors in their original relative order |
| `AllocationSpec.WithoutWithout` | app.py:42-43 | removing one student after another is the same as filtering the original list by both at once |
| `AllocationSpec.RemoveEverywhere` | app.py:42-43 | after a placement every faculty is still present, the placed student is in no remaining list, and each list is an order-preserving sub-list of the old one |
| `AllocationSpec.RemoveEverywhereKeepsOthers` | app.py:42-43 | striking one student keeps every occurrence of every other student in every faculty's list |
| `AllocationSpec.CanPlace` | app.py:35-40 | the four tests; a student who passes them names a known faculty at the current rank and is on its remaining list (`App.FacultyPreferences.Offer`'s `placed` equals it, and `PlacementRule` shows no other offer changes an allocation) |
| `AllocationSpec.Place` | app.py:41-43 | a placement adds exactly the placed id to the allocated ids, only appends to allocated lists, and leaves the placed student in no remaining list |
| `AllocationSpec.StudentIds` | app.py:94 | every row's student id is in the set, and every member is the id of some row |
| `AllocationSpec.AllocatedIdsMember` | app.py:95 | an id is among the allocated ids exactly when some faculty's allocated list holds it |
| `AllocationSpec.InitialState` | app.py:27 | the remaining lists start as the input table, and the allocation has exactly the table's faculty as keys, each with an empty list |
| `AllocationSpec.Round` | app.py:32-46 | a round keeps the faculty keys of both tables, and the students it carries over are a sub-list of the pending students in their original order |
| `AllocationSpec.RoundAllocatesMore` | app.py:41 | a round never takes an id out of the allocation |
| `AllocationSpec.RoundCarriesUnplaced` | app.py:45-46 | every pending row whose student is still unallocated after the round is among the students carried over (a repeated row of a student placed through another row may be carried too, as in the code) |
| `AllocationSpec.Rounds` | app.py:31-47 | the round loop keeps the faculty keys of both tables |
| `AllocationSpec.Allocation` | app.py:26-48 | the returned allocation and the final remaining table have exactly the faculty of the input table as keys |
| `AllocationSpec.Unallocated` | app.py:94-96 | the unallocated students are input student ids and none of them is allocated |
| `AllocationSpec.AllocatedIdsAppend` | app.py:41 | appending a student to one faculty adds exactly that student to the set of allocated ids |
| `AllocationSpec.InitialInvariant` | app.py:27-28 | the empty allocation over the untouched table satisfies the allocation invariant |
| `AllocationSpec.ExclusiveAppend` | app.py:40-41 | appending a student who is not yet allocated keeps every allocated id unique |
| `AllocationSpec.PlaceTracksRemaining` | app.py:41-43 | after a placement each remaining list is still the input list with every allocated student filtered out |
| `AllocationSpec.PlaceEndorsed` | app.py:35-41 | a placement keeps every allocated student on the faculty's input list and chosen by a row of the sheet |
| `AllocationSpec.AppendExtends` | app.py:41 | appending to one faculty's allocation leaves every earlier allocation as a prefix of the new one |
| `AllocationSpec.PlacePreserves` | app.py:38-43 | one placement keeps capacity, uniqueness, the faculty and student endorsement, and the filtered-remaining relation; it only appends to allocated lists |
| `AllocationSpec.RoundPreserves` | app.py:32-46 | a round keeps the invariant, and every allocated list after the round extends the list before it |
| `AllocationSpec.RoundsPreserves` | app.py:31-47 | all rounds keep the invariant, and allocations are only ever extended at the end |
| `AllocationSpec.AllocationInvariant` | app.py:26-48 | the matcher's result satisfies the invariant with respect to its inputs |
| `AllocationSpec.AllocationWithinCapacity` | app.py:30-41 | the result has an entry for every faculty of the table, and no faculty holds more than 8 students |
| `AllocationSpec.AllocationExclusive` | app.py:40-43 | two equal entries of the allocation are the same position of the same faculty's list, even if the sheet repeats a student |
| `AllocationSpec.AllocationEndorsed` | app.py:35-41 | a student allocated to a faculty is on that faculty's input list, is an input student id, and has a row naming that faculty at a rank below 5 |
| `AllocationSpec.AllocationRemaining` | app.py:42-43 | each final remaining list is the input list with every allocated student filtered out, and is an order-preserving sub-list of it |
| `AllocationSpec.NeverChosen` | app.py:31-36 | a student with no row naming a faculty within the first five ranks is never allocated to it |
| `AllocationSpec.EmptyPreferencesUnallocated` | app.py:35-47 | a student whose rows all have empty preference lists ends up unallocated |
| `AllocationSpec.UnallocatedPartition` | app.py:94-96 | allocated and unallocated ids are disjoint, and together they are exactly the input student ids |
| `AllocationSpec.NoStudents` | app.py:27-31 | with no students every faculty's allocation is empty and nobody is unallocated |
| `AllocationSpec.NoFaculty` | app.py:27-37 | with no faculty the allocation is empty and every input student is unallocated |
| `AllocationSpec.PlacementRule` | app.py:35-41 | offering one student changes a faculty's allocation only when that faculty is the student's choice at the current rank, has room, and has the student at the head of its list; the change is to append that student |
| `AllocationSpec.RoundKeepsOrder` | app.py:45-46 | the students carried over keep their relative order, are drawn from the pending students, and include every pending row whose student is still unallocated |
| `WorkedCases.PlaceHeadsOfFay` | app.py:41-43 | for faculty Fay with list [Ann, Bob], placing the head Ann leaves [Bob], and placing Bob then leaves the list empty |
| `WorkedCases.BothPlacedInOneRound` | app.py:38-43 | with sheet order Ann, Bob, both naming only Fay, both are placed in round 0 |
| `WorkedCases.DeferredStudentLeftOver` | app.py:39-47 | with sheet order Bob, Ann only Ann is placed, because Bob is not the head in round 0 and has no second choice |
| `WorkedCases.DeferredStudentUnallocated` | app.py:94-96 | in that run Bob is the one unallocated student |
| `WorkedCases.DeferredStudentPlacedNextRound` | app.py:31-47 | with sheet order Bob, Ann and Fay as Bob's second choice too, Bob is placed in round 1 |
| `WorkedCases.UnplacedHeadBlocks` | app.py:35-40 | with Ann naming only an unknown faculty, Ann stays the head of Fay's list, so Bob, listed after her, is never placed and Fay's allocation stays empty |
| `WorkedCases.RankFiveIsNeverConsulted` | app.py:31-35 | a faculty named only at index 5 of a student's preferences is never given that student |
| `App.FacultyPreferences.RemoveStudent` | app.py:42-43 | rewriting the table one faculty at a time leaves it equal to the map-wide removal of the student |
| `App.FacultyPreferences.RunRound` | app.py:32-46 | the pass over the pending students produces the allocation, the edited table and the leftover students of the reference round |
| `App.FacultyPreferences.Offer` | app.py:34-44 | a student is placed exactly when the four tests pass, and then the allocation and table are those of the reference placement; otherwise nothing changes |
| `App.FacultyPreferences.AllocateStudents` | app.py:26-48 | the returned allocation and the table left behind are those of the reference matcher on the table as it was before the call |
| `App.Allocate` | app.py:89-96 | the run's allocation is the reference one: it has every faculty as a key, holds at most 8 students per faculty, only holds students the faculty listed, and allocates no id twice; the unallocated set is the input ids minus the allocated ids |

## Left out

- The Flask routes `index`, `upload_student`, `upload_faculty` and `download`, and the file handling of `allocate` (app.py:66-108). These are HTTP and file-system plumbing.
- `read_student_preferences` and `read_faculty_preferences` (app.py:7-24) read spreadsheets through pandas. The model takes their parsed results as inputs: a sequence of `StudentPreference` rows and a map from faculty to student lists. The faculty order list they also return only orders the output sheet.
- `save_allocations_to_excel` and `save_unallocated_students_to_excel` (app.py:50-64) write spreadsheets through pandas.
- The order in which Python visits the faculty when it strikes a placed student. It does not affect the result, because every faculty's list is rewritten. `RemoveStudent` visits them in an arbitrary order and is proved equal to the map-wide removal.
- The order of the unallocated list. It comes from `list(set - set)`, which Python leaves unspecified, so the model returns a set.
- Aliasing of the caller's faculty dictionary. `AllocateStudents` edits the object it is called on, as the Python function edits its argument. `App.Allocate` gives it a fresh object, as the route gives it a freshly parsed table.
- The Python round body is one loop inside `allocate_students`. The model gives it its own method, `RunRound`, and gives the tests for one student their own method, `Offer`, so that each piece is verified on its own. The tests and their order are unchanged.
