# Greedy teacher–subject scheduler, modelled in Dafny

This project models the assignment engine of a small timetabling tool
(`prototype.py`). It covers four entities and one algorithm:

- A **teacher** has a name, a list of assigned subjects and a subject
  count. It may take a new subject while the count is below the capacity
  of 6.
- A **classroom** has a room number and a booking map. The map goes from
  a time-slot label to a (subject, teacher) pair.
- A **subject** is a name.
- A **time slot** is a start time and an end time. Its label
  `start + " - " + end` is the key of a booking.
- `greedy_schedule` takes the subjects in order. For each subject it scans
  time slots, then classrooms, then the teachers sorted by count (a stable
  sort). It books the first free classroom with the first teacher under
  capacity and stops searching for that subject. A subject that finds no
  place produces a notice. The function returns a map from subject name to
  (room, label, teacher).

The model has the same form as the source:

- `Entities`: `Teacher` and `Classroom` are classes, because their fields
  are updated in place. `Subject` and `TimeSlot` are datatypes.
  `Teacher.CanTeach` (`subjectCount < Capacity`),
  `Classroom.IsAvailable` (`timeSlot !in schedule`) and `TimeSlot.Label`
  are the source's three queries, taken body for body (prototype.py:10-11,
  34-35, 50-51). They have no contracts of their own. They appear in the
  contracts of the methods that use them.
- `Engine.GreedySchedule` keeps the source's nested loops, its early exits
  and its fresh sort at every classroom. It delegates to three methods:
  - `PlaceSubject` is one iteration of the subject loop.
  - `FindTeacher` is the teacher loop.
  - `Book` is the two `assign_subject` calls.
- The methods are proved against a value-level specification in
  `GreedySpec`. `Snapshot` turns the objects into a `World` value. `Run`
  folds `Step` over the subjects. `Step` places a subject where `Choose`
  says, and `Choose` is the slot-major, classroom-minor scan `ScanFrom`.
  `GreedySchedule` ensures that the new state, the returned schedule and
  the notices equal `Run` on the old state.
- `Engine.Snapshot`, `Engine.Loads` and `GreedySpec.World.Loads` connect
  the two levels. They have no meaning of their own. `Snapshot` lists
  each teacher's and classroom's current fields, one entry per object and
  in order. The two `Loads` list each teacher's subject count, which is
  the sort key.
- Python's `sorted(teachers, key=subject_count)` is `LoadOrder.SortByLoad`.
  This is a stable insertion sort of teacher indices keyed by count, and
  it is proved to be a stable sorted permutation.
- The properties the engine promises are proved as lemmas about `Run` in
  `GreedyProperties`. The main ones also appear as `ensures` clauses of
  `GreedySchedule`.
- `Scenarios` works through small inputs:
  - the two-teacher, one-slot run;
  - a run with no teacher;
  - the tie-break between counts 0 and 1;
  - saturating one teacher with six or more subjects.

Some of the documented behaviours need no lemma of their own:

- **Booking exclusivity.** At most one booking per label holds because a
  classroom's schedule is a `map`.
- **Determinism.** Two calls on identical inputs give the same schedule,
  because `GreedySchedule`'s result is a function (`Run`) of the input
  snapshot.
- **Repeated calls.** State persists across calls on the same objects.
  The capacity and booking guarantees of one call compose over a sequence
  of calls.

## Model

| member | source | states |
|---|---|---|
| Entities.Teacher.constructor | prototype.py:5-8 | a new teacher has the given name, no subjects and count 0 |
| Entities.Teacher.AssignSubject | prototype.py:13-15 | the subject is appended and the count grows by exactly 1. Count and list length stay equal if they were equal. If the teacher could teach before the call, the count is still at most 6 after it |
| Entities.Classroom.constructor | prototype.py:30-32 | a new classroom has the given room number and no bookings |
| Entities.Classroom.AssignSubject | prototype.py:34-38 | the booking at the label becomes (subject, teacher) and every other label keeps its booking or its absence. Booking a label that was available adds exactly one entry |
| LoadOrder.SortByLoad | prototype.py:63 | the order lists exactly the teacher indices, one per teacher |
| LoadOrder.SortByLoadIsStableSort | prototype.py:63 | the sort is a permutation without repeats, ascending by count, with equal counts kept in input order (Python's stable `sorted`) |
| LoadOrder.FirstEligible | prototype.py:65-72 | the teacher found is in the order and under capacity, and every teacher before it in the order is at capacity: it is the first eligible one. None is found exactly when every teacher in the order is at capacity |
| LoadOrder.PickTeacher | prototype.py:63-66 | the teacher picked is a valid index and under capacity |
| LoadOrder.PickTeacherIsLeastLoaded | prototype.py:63-66 | load tie-break: teacher t is picked exactly when t has the least count, every earlier teacher has a strictly greater count, and that count is below 6. No teacher is picked exactly when all are at capacity |
| GreedySpec.ScanFrom | prototype.py:60-76 | a placement found by the scan names a valid slot, classroom and teacher |
| GreedySpec.ScanFromSome | prototype.py:60-76 | the scan stops at a free cell with the picked teacher, at or after its start, and every free cell between the start and that cell is ruled out |
| GreedySpec.ScanFromNone | prototype.py:60-76 | the scan finds nothing exactly when no teacher can be picked or no cell from the start on is free |
| GreedySpec.Choose | prototype.py:60-76 | a chosen placement is valid for the world and the slots |
| GreedySpec.ChooseIsFirstFit | prototype.py:60-76 | first fit: the engine chooses p exactly when p is the first free (slot, classroom) in slot-major, classroom-minor order and p's teacher is the earliest least-loaded one, under capacity |
| GreedySpec.ChooseNoneWhenStuck | prototype.py:58-79 | nothing is chosen exactly when every teacher is at capacity or every classroom is booked at every slot |
| GreedySpec.Apply | prototype.py:68-69 | a booking keeps the roster: the same teachers and classrooms, in order, with the same names and room numbers |
| GreedySpec.Step | prototype.py:57-79 | one subject keeps the roster |
| GreedySpec.Run | prototype.py:54-81 | a whole run keeps the roster |
| GreedyProperties.StepOutcome | prototype.py:57-79 | a first fit exists exactly when neither every teacher is at capacity nor every cell is booked. With a first fit, the subject is booked there and recorded under its name. Otherwise only the notice is added |
| GreedyProperties.UnplacedChangesNothing | prototype.py:78-79 | a subject leaves every teacher and classroom unchanged exactly when it could not be placed. The schedule is then unchanged and the notice names it |
| GreedyProperties.StepFacts | prototype.py:66-70 | one subject respects capacity, keeps every booking, only appends to teachers, and keeps counts equal to list lengths |
| GreedyProperties.RunRespectsCapacity | prototype.py:66-69 | capacity: a teacher within 6 stays within 6, and a teacher at or over 6 is left exactly as it was |
| GreedyProperties.RunWithinCapacity | prototype.py:66-69 | if every teacher starts with count at most 6, every teacher ends with count at most 6 |
| GreedyProperties.RunKeepsBookings | prototype.py:66-68 | no double booking: every booking present before the run is present and unchanged after it |
| GreedyProperties.RunGrowsTeachers | prototype.py:13-15 | counts never fall, and each teacher's old subject list is a prefix of the new one |
| GreedyProperties.RunKeepsCountsMatchingLists | prototype.py:13-15 | a count that equals its list length at the start equals it at the end |
| GreedyProperties.AgreementPersists | prototype.py:68-70 | an entry backed by a booking and a teacher stays backed across later placements |
| GreedyProperties.NewEntryAgrees | prototype.py:68-70 | the entry a placement records is backed by a booking in a room with that number, made in this run, and by a teacher with that name who gained load and has the subject |
| GreedyProperties.RunScheduleAgrees | prototype.py:66-70 | result agrees with state: every returned entry name -> (room, label, teacher) matches a booking (name, teacher) at that label, made in this run, and that teacher's count grew and includes the subject |
| GreedyProperties.RunAccountsForSubjects | prototype.py:57-79 | every schedule key and every notice names an input subject, every input subject has an entry or a notice, and there are no more notices than subjects |
| GreedyProperties.TotalLoadUpdate | prototype.py:15 | replacing one teacher changes the total count by the difference of the two counts |
| GreedyProperties.TotalBookingsUpdate | prototype.py:38 | replacing one classroom changes the total bookings by the difference of the two schedule sizes |
| GreedyProperties.RunCounts | prototype.py:66-79 | each subject adds exactly one to the total count and one booking, or one notice: total count plus notices = initial total plus subjects, and likewise for bookings |
| Engine.Book | prototype.py:68-69 | booking a classroom and then a teacher changes the state exactly as Apply says |
| Engine.FindTeacher | prototype.py:65-72 | the teacher loop returns the first teacher in the sorted order who can teach if the classroom is free at the label, and none if it is booked |
| Engine.PlaceSubject | prototype.py:57-79 | one iteration of the subject loop changes the state, the schedule and the notices exactly as Step says |
| Engine.GreedySchedule | prototype.py:54-81 | the new state, schedule and notices equal Run on the old state. Capacity is kept, no booking is overwritten, and the returned schedule agrees with the bookings and teachers |
| Scenarios.TwoSubjectsOneCell | prototype.py:54-81 | two fresh teachers, one classroom, one slot: the first subject goes to the first teacher and the second subject is reported |
| Scenarios.EndToEnd | prototype.py:54-81 | teachers T1 and T2, subjects Math and Physics, Room101 and 8:00 AM - 9:30 AM: Math goes to T1 in Room101 at that slot, Physics is reported, T1's count is 1 and T2's is 0 |
| Scenarios.TwoSubjectsOneCellFacts | prototype.py:54-81 | in that run, the schedule has just the first subject's entry, the notice names the second subject, and the loads are 1 and 0 |
| Scenarios.TwoSubjectsOnObjects | prototype.py:54-81 | the same run on newly constructed objects through GreedySchedule gives that schedule, that notice and counts 1 and 0 |
| Scenarios.NoTeacher | prototype.py:78-79 | with no teacher, the result is an empty schedule, one notice naming the subject, and an unchanged state |
| Scenarios.LighterTeacherWins | prototype.py:63-66 | of teachers with counts 1 and 0, the one with count 0 gets the subject |
| Scenarios.DistinctSlotsCanShareLabel | prototype.py:50-51 | two different time slots can render the same label, so they share one booking key |
| Scenarios.SaturationPlaces | prototype.py:10-11 | below capacity, the next subject takes the next slot for the one teacher |
| Scenarios.SaturationReports | prototype.py:10-11 | at capacity, every further subject is reported and nothing changes |
| Scenarios.RunExtends | prototype.py:57 | running one more subject of the list is one more Step on the state the shorter run left |
| Scenarios.SaturationStart | prototype.py:5-8 | a fresh teacher and an empty classroom: no load, no booking and no notice before the first subject |
| Scenarios.SaturationStep | prototype.py:57-79 | one more subject keeps the saturation shape: below 6 it is placed at the next label, at 6 it is reported |
| Scenarios.SaturationPrefix | prototype.py:54-81 | from a world in that start shape, after k subjects the one teacher has min(k, 6) subjects, the first min(k, 6) labels are booked, and the rest are reported |
| Scenarios.Saturation | prototype.py:54-81 | one teacher, one classroom, at least six distinct labels and at least six subjects: the teacher ends with 6 subjects and every subject after the sixth is reported |

## Left out

- `SchedulerApp` and `main` (prototype.py:84-184): the tkinter user interface, message boxes and text-area rendering. They are presentation only.
- The parsing of time ranges in the user interface (prototype.py:158-159). It is outside the engine. A time slot here is just its two strings.
- `Teacher.__str__` and `Classroom.__str__` (prototype.py:17-18, 40-42): display formatting only. `TimeSlot.__str__` is kept as `TimeSlot.Label`, because it is the booking key.
- The printed notice (prototype.py:79). The model does no I/O. `GreedySchedule` returns the unplaced subjects' names in order as `unassigned`, next to the schedule.
- Aliasing: `GreedySchedule` requires the teacher objects to be pairwise distinct, and likewise the classroom objects. The source does not forbid passing one object twice, and their behaviour in that case is not modelled.
- Engine.GreedySchedule: the teacher loop and the two bookings are written as the helper methods `FindTeacher` and `Book`, and the body of the subject loop as `PlaceSubject`. The loops, their order and their early exits are the source's.
- LoadOrder.SortByLoad: the sort orders teacher indices, not objects. `sorted` is a library call, so its algorithm is not the source's. Only its result, a stable permutation by count, is modelled.
- Entry order: Python dicts keep insertion order, and the Dafny `map`s of the returned schedule (prototype.py:55, 70) and of `Classroom.schedule` (prototype.py:38) do not. The same holds for a repeated subject name: the model states only that its later entry replaces the earlier one, not where that entry sits in iteration order. The engine never depends on this order; only the display code that iterates the maps does (prototype.py:41, 169).
- `Subject.__str__` (prototype.py:25-26) has no use in the engine and is not modelled.
