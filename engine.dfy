/**
 * The assignment engine over the mutable Teacher and Classroom objects.
 * GreedySchedule runs the same nested loops as `greedy_schedule`, with
 * the same early exits, and is proved to leave exactly the state and schedule
 * that the value-level Run computes from the state it started in.
 */
module Engine {
  import opened Wrappers
  import opened Entities
  import opened LoadOrder
  import opened GreedySpec
  import opened GreedyProperties

  function TeacherViewOf(t: Teacher): TeacherView
    reads t
  {
    TeacherView(t.name, t.assignedSubjects, t.subjectCount)
  }

  function ClassroomViewOf(c: Classroom): ClassroomView
    reads c
  {
    ClassroomView(c.roomNumber, c.schedule)
  }

  /** The current state of the given teachers and classrooms, as a value. */
  function Snapshot(teachers: seq<Teacher>, classrooms: seq<Classroom>): (w: World)
    reads teachers, classrooms
    ensures |w.teachers| == |teachers| && |w.classrooms| == |classrooms|
    ensures forall i :: 0 <= i < |teachers| ==> w.teachers[i] == TeacherViewOf(teachers[i])
    ensures forall c :: 0 <= c < |classrooms| ==> w.classrooms[c] == ClassroomViewOf(classrooms[c])
  {
    World(seq(|teachers|, i requires 0 <= i < |teachers| reads teachers => TeacherViewOf(teachers[i])),
          seq(|classrooms|, c requires 0 <= c < |classrooms| reads classrooms => ClassroomViewOf(classrooms[c])))
  }

  /** The sort key of every teacher: its current subject count. */
  function Loads(teachers: seq<Teacher>): (r: seq<nat>)
    reads teachers
    ensures |r| == |teachers|
    ensures forall i :: 0 <= i < |teachers| ==> r[i] == teachers[i].subjectCount
  {
    seq(|teachers|, i requires 0 <= i < |teachers| reads teachers => teachers[i].subjectCount)
  }

  predicate Distinct<T(==)>(xs: seq<T>)
  {
    forall i, j :: 0 <= i < j < |xs| ==> xs[i] != xs[j]
  }

  /**
   * The two bookings of one placement: the classroom at the slot's label,
   * then the teacher. Its effect on the snapshot is Apply.
   */
  method Book(teachers: seq<Teacher>, classrooms: seq<Classroom>, timeSlots: seq<TimeSlot>,
              p: Placement, subject: string)
    requires Distinct(teachers) && Distinct(classrooms)
    requires p.slot < |timeSlots| && p.room < |classrooms| && p.teacher < |teachers|
    modifies teachers[p.teacher], classrooms[p.room]
    ensures Snapshot(teachers, classrooms) ==
            Apply(old(Snapshot(teachers, classrooms)), timeSlots, p, subject)
  {
    ghost var w := Snapshot(teachers, classrooms);
    var teacher := teachers[p.teacher];
    var classroom := classrooms[p.room];
    classroom.AssignSubject(subject, timeSlots[p.slot].Label(), teacher.name);
    teacher.AssignSubject(subject);
    ghost var w' := Apply(w, timeSlots, p, subject);
    assert Snapshot(teachers, classrooms).teachers == w'.teachers;
    assert Snapshot(teachers, classrooms).classrooms == w'.classrooms;
  }

  /**
   * The teacher loop at one classroom: walks `availableTeachers` and
   * returns the first teacher that can teach while the classroom is free
   * at `timeSlot`; none when the classroom is booked there.
   */
  method FindTeacher(teachers: seq<Teacher>, availableTeachers: seq<nat>, classroom: Classroom, timeSlot: string)
    returns (found: Option<nat>)
    requires forall j :: 0 <= j < |availableTeachers| ==> availableTeachers[j] < |teachers|
    ensures found == if classroom.IsAvailable(timeSlot) then FirstEligible(Loads(teachers), availableTeachers) else None
  {
    ghost var loads := Loads(teachers);
    for j := 0 to |availableTeachers|
      invariant classroom.IsAvailable(timeSlot) ==>
        FirstEligible(loads, availableTeachers) == FirstEligible(loads, availableTeachers[j..])
    {
      var teacher := teachers[availableTeachers[j]];
      if teacher.CanTeach() && classroom.IsAvailable(timeSlot) {
        return Some(availableTeachers[j]);
      }
    }
    return None;
  }

  /**
   * One iteration of the subject loop: scans time slots, then classrooms,
   * then the teachers sorted by load, books the first fit and stops; if
   * nothing fits, the subject's name is added to the notices.
   */
  method PlaceSubject(teachers: seq<Teacher>, classrooms: seq<Classroom>, timeSlots: seq<TimeSlot>,
                      subject: Subject, schedule: map<string, Entry>, unassigned: seq<string>)
    returns (schedule': map<string, Entry>, unassigned': seq<string>)
    requires Distinct(teachers) && Distinct(classrooms)
    modifies teachers, classrooms
    ensures Outcome(Snapshot(teachers, classrooms), schedule', unassigned') ==
            Step(Outcome(old(Snapshot(teachers, classrooms)), schedule, unassigned), timeSlots, subject)
  {
    ghost var wk := Snapshot(teachers, classrooms);
    schedule', unassigned' := schedule, unassigned;
    var placed := false;
    for si := 0 to |timeSlots|
      invariant !placed
      invariant Snapshot(teachers, classrooms) == wk && schedule' == schedule
      invariant Choose(wk, timeSlots) == ScanFrom(wk, timeSlots, si, 0)
    {
      var timeSlot := timeSlots[si];
      for ci := 0 to |classrooms|
        invariant !placed
        invariant Snapshot(teachers, classrooms) == wk && schedule' == schedule
        invariant Choose(wk, timeSlots) == ScanFrom(wk, timeSlots, si, ci)
      {
        var classroom := classrooms[ci];
        assert Loads(teachers) == wk.Loads();
        var availableTeachers := SortByLoad(Loads(teachers));
        var found := FindTeacher(teachers, availableTeachers, classroom, timeSlot.Label());
        if found.Some? {
          var p := Placement(si, ci, found.value);
          assert Choose(wk, timeSlots) == Some(p);
          var teacher := teachers[p.teacher];
          Book(teachers, classrooms, timeSlots, p, subject.name);
          schedule' := schedule'[subject.name := (classroom.roomNumber, timeSlot.Label(), teacher.name)];
          placed := true;
          break;
        }
      }
      if placed {
        break;
      }
    }
    if !placed {
      unassigned' := unassigned' + [subject.name];
    }
  }

  /**
   * Places every subject, in input order, at the first (time slot,
   * classroom) where the classroom is free, with the first teacher under
   * capacity in the stable by-load order; returns the schedule keyed by
   * subject name and the names of the subjects that found no place.
   */
  method GreedySchedule(teachers: seq<Teacher>, subjects: seq<Subject>, classrooms: seq<Classroom>,
                        timeSlots: seq<TimeSlot>)
    returns (schedule: map<string, Entry>, unassigned: seq<string>)
    requires Distinct(teachers) && Distinct(classrooms)
    modifies teachers, classrooms
    ensures Outcome(Snapshot(teachers, classrooms), schedule, unassigned) ==
            Run(old(Snapshot(teachers, classrooms)), timeSlots, subjects)
    // capacity: a teacher within the limit stays within it
    ensures forall i :: 0 <= i < |teachers| && old(teachers[i].subjectCount) <= Capacity ==>
              teachers[i].subjectCount <= Capacity
    // no double booking: existing bookings survive unchanged
    ensures forall c, key :: 0 <= c < |classrooms| && key in old(classrooms[c].schedule) ==>
              key in classrooms[c].schedule && classrooms[c].schedule[key] == old(classrooms[c].schedule[key])
    // the returned schedule is backed by bookings and teacher loads
    ensures ScheduleAgrees(old(Snapshot(teachers, classrooms)), Outcome(Snapshot(teachers, classrooms), schedule, unassigned))
  {
    ghost var w0 := Snapshot(teachers, classrooms);
    schedule := map[];
    unassigned := [];
    for k := 0 to |subjects|
      invariant Outcome(Snapshot(teachers, classrooms), schedule, unassigned) == Run(w0, timeSlots, subjects[..k])
    {
      schedule, unassigned := PlaceSubject(teachers, classrooms, timeSlots, subjects[k], schedule, unassigned);
      assert subjects[..k + 1][..k] == subjects[..k];
    }
    assert subjects[..|subjects|] == subjects;
    RunRespectsCapacity(w0, timeSlots, subjects);
    RunKeepsBookings(w0, timeSlots, subjects);
    RunScheduleAgrees(w0, timeSlots, subjects);
  }
}
