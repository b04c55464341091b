/**
 * The greedy schedule as a function of values. A World is a snapshot of
 * every teacher and classroom; Run folds Step over the subjects in input
 * order, and Step places one subject at the first fit found by ScanFrom:
 * time slots in input order, for each the classrooms in input order, and
 * at each classroom the first teacher under capacity in the stable
 * by-load order.
 */
module GreedySpec {
  import opened Wrappers
  import opened Entities
  import opened LoadOrder

  datatype TeacherView = TeacherView(name: string, assignedSubjects: seq<string>, subjectCount: nat)

  datatype ClassroomView = ClassroomView(roomNumber: string, schedule: map<string, (string, string)>)

  datatype World = World(teachers: seq<TeacherView>, classrooms: seq<ClassroomView>) {
    /** The subject count of every teacher, in input order. */
    function Loads(): (r: seq<nat>)
      ensures |r| == |teachers|
      ensures forall i :: 0 <= i < |teachers| ==> r[i] == teachers[i].subjectCount
    {
      seq(|teachers|, i requires 0 <= i < |teachers| => teachers[i].subjectCount)
    }
  }

  /** A schedule entry: (room number, time-slot label, teacher name). */
  type Entry = (string, string, string)

  /**
   * What a run leaves behind: the updated teachers and classrooms, the
   * returned schedule keyed by subject name, and the names of the subjects
   * that could not be placed, in the order their notices are emitted.
   */
  datatype Outcome = Outcome(world: World, schedule: map<string, Entry>, unassigned: seq<string>)

  /** Indices of the chosen time slot, classroom and teacher. */
  datatype Placement = Placement(slot: nat, room: nat, teacher: nat)

  predicate ValidPlacement(w: World, slots: seq<TimeSlot>, p: Placement)
  {
    p.slot < |slots| && p.room < |w.classrooms| && p.teacher < |w.teachers|
  }

  /** The same teachers and classrooms, in the same order, with the same names. */
  predicate SameRoster(w: World, w': World)
  {
    && |w'.teachers| == |w.teachers|
    && |w'.classrooms| == |w.classrooms|
    && (forall i :: 0 <= i < |w.teachers| ==> w'.teachers[i].name == w.teachers[i].name)
    && (forall c :: 0 <= c < |w.classrooms| ==> w'.classrooms[c].roomNumber == w.classrooms[c].roomNumber)
  }

  /** Classroom `ci` has no booking at the label of time slot `si`. */
  predicate Free(w: World, slots: seq<TimeSlot>, si: nat, ci: nat)
    requires si < |slots| && ci < |w.classrooms|
  {
    slots[si].Label() !in w.classrooms[ci].schedule
  }

  /** Cell (si, ci) comes before cell (si', ci') in slot-major, classroom-minor order. */
  predicate CellBefore(si: nat, ci: nat, si': nat, ci': nat)
  {
    si < si' || (si == si' && ci < ci')
  }

  /**
   * The scan of the engine's two outer loops from time slot `si`, classroom
   * `ci` on: at each cell the teachers are sorted afresh and the first one
   * under capacity is taken if the classroom is free at that slot.
   */
  function ScanFrom(w: World, slots: seq<TimeSlot>, si: nat, ci: nat): (r: Option<Placement>)
    ensures r.Some? ==> ValidPlacement(w, slots, r.value)
    decreases |slots| - si, |w.classrooms| - ci
  {
    if si >= |slots| then None
    else if ci >= |w.classrooms| then ScanFrom(w, slots, si + 1, 0)
    else
      var pick := PickTeacher(w.Loads());
      if pick.Some? && Free(w, slots, si, ci) then Some(Placement(si, ci, pick.value))
      else ScanFrom(w, slots, si, ci + 1)
  }

  /** Where the next subject goes, if anywhere. */
  function Choose(w: World, slots: seq<TimeSlot>): (r: Option<Placement>)
    ensures r.Some? ==> ValidPlacement(w, slots, r.value)
  {
    ScanFrom(w, slots, 0, 0)
  }

  /**
   * Books classroom `p.room` at the label of slot `p.slot` for the subject
   * and teacher `p.teacher`, and adds the subject to that teacher.
   */
  function Apply(w: World, slots: seq<TimeSlot>, p: Placement, subject: string): (w': World)
    requires ValidPlacement(w, slots, p)
    ensures SameRoster(w, w')
  {
    var t := w.teachers[p.teacher];
    var c := w.classrooms[p.room];
    World(
      w.teachers[p.teacher := t.(assignedSubjects := t.assignedSubjects + [subject],
                                 subjectCount := t.subjectCount + 1)],
      w.classrooms[p.room := c.(schedule := c.schedule[slots[p.slot].Label() := (subject, t.name)])])
  }

  function EntryOf(w: World, slots: seq<TimeSlot>, p: Placement): Entry
    requires ValidPlacement(w, slots, p)
  {
    (w.classrooms[p.room].roomNumber, slots[p.slot].Label(), w.teachers[p.teacher].name)
  }

  /** One iteration of the engine's subject loop. */
  function Step(o: Outcome, slots: seq<TimeSlot>, subject: Subject): (r: Outcome)
    ensures SameRoster(o.world, r.world)
  {
    match Choose(o.world, slots)
    case None => o.(unassigned := o.unassigned + [subject.name])
    case Some(p) =>
      Outcome(Apply(o.world, slots, p, subject.name),
              o.schedule[subject.name := EntryOf(o.world, slots, p)],
              o.unassigned)
  }

  /** The whole engine: Step over the subjects in input order, from an empty schedule. */
  function Run(w: World, slots: seq<TimeSlot>, subjects: seq<Subject>): (r: Outcome)
    ensures SameRoster(w, r.world)
    decreases |subjects|
  {
    if subjects == [] then Outcome(w, map[], [])
    else Step(Run(w, slots, subjects[..|subjects| - 1]), slots, subjects[|subjects| - 1])
  }

  /** Every classroom is booked at every time-slot label. */
  predicate FullyBooked(w: World, slots: seq<TimeSlot>)
  {
    forall si: nat, ci: nat :: si < |slots| && ci < |w.classrooms| ==> !Free(w, slots, si, ci)
  }

  /**
   * The independent description of a placement: the first free cell in
   * slot-major, classroom-minor order, with the earliest least-loaded
   * teacher, who must be under capacity.
   */
  predicate FirstFit(w: World, slots: seq<TimeSlot>, p: Placement)
  {
    && ValidPlacement(w, slots, p)
    && Free(w, slots, p.slot, p.room)
    && w.teachers[p.teacher].subjectCount < Capacity
    && EarliestLeastLoaded(w.Loads(), p.teacher)
    && (forall si: nat, ci: nat :: si < |slots| && ci < |w.classrooms| && CellBefore(si, ci, p.slot, p.room) ==>
          !Free(w, slots, si, ci))
  }

  lemma {:induction false} ScanFromSome(w: World, slots: seq<TimeSlot>, si0: nat, ci0: nat, p: Placement)
    requires ScanFrom(w, slots, si0, ci0) == Some(p)
    ensures p.slot < |slots| && p.room < |w.classrooms|
    ensures Free(w, slots, p.slot, p.room) && PickTeacher(w.Loads()) == Some(p.teacher)
    ensures !CellBefore(p.slot, p.room, si0, ci0)
    ensures forall si: nat, ci: nat ::
              si < |slots| && ci < |w.classrooms| && !CellBefore(si, ci, si0, ci0) && CellBefore(si, ci, p.slot, p.room)
              ==> !Free(w, slots, si, ci)
    decreases |slots| - si0, |w.classrooms| - ci0
  {
    if ci0 >= |w.classrooms| {
      ScanFromSome(w, slots, si0 + 1, 0, p);
    } else if !(PickTeacher(w.Loads()).Some? && Free(w, slots, si0, ci0)) {
      ScanFromSome(w, slots, si0, ci0 + 1, p);
    }
  }

  lemma {:induction false} ScanFromNone(w: World, slots: seq<TimeSlot>, si0: nat, ci0: nat)
    ensures ScanFrom(w, slots, si0, ci0) == None <==>
      PickTeacher(w.Loads()) == None ||
      forall si: nat, ci: nat :: si < |slots| && ci < |w.classrooms| && !CellBefore(si, ci, si0, ci0) ==>
        !Free(w, slots, si, ci)
    decreases |slots| - si0, |w.classrooms| - ci0
  {
    if si0 >= |slots| {
    } else if ci0 >= |w.classrooms| {
      ScanFromNone(w, slots, si0 + 1, 0);
    } else {
      ScanFromNone(w, slots, si0, ci0 + 1);
    }
  }

  /**
   * First fit and load tie-break: the engine places a subject at `p`
   * exactly when `p` is the first free cell and its teacher the earliest
   * least-loaded one, under capacity.
   */
  lemma ChooseIsFirstFit(w: World, slots: seq<TimeSlot>, p: Placement)
    ensures Choose(w, slots) == Some(p) <==> FirstFit(w, slots, p)
  {
    if Choose(w, slots) == Some(p) {
      ScanFromSome(w, slots, 0, 0, p);
      PickTeacherIsLeastLoaded(w.Loads(), p.teacher);
    }
    if FirstFit(w, slots, p) {
      PickTeacherIsLeastLoaded(w.Loads(), p.teacher);
      ScanFromNone(w, slots, 0, 0);
      var q := Choose(w, slots).value;
      ScanFromSome(w, slots, 0, 0, q);
      assert !CellBefore(q.slot, q.room, p.slot, p.room);
      assert !CellBefore(p.slot, p.room, q.slot, q.room);
    }
  }

  /**
   * A subject is left out exactly when every teacher is at capacity or
   * every classroom is booked at every time slot.
   */
  lemma ChooseNoneWhenStuck(w: World, slots: seq<TimeSlot>)
    ensures Choose(w, slots) == None <==> AllAtCapacity(w.Loads()) || FullyBooked(w, slots)
  {
    ScanFromNone(w, slots, 0, 0);
    PickTeacherIsLeastLoaded(w.Loads(), 0);
  }
}
