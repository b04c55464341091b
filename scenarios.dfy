/** Worked examples of the engine on small inputs. */
module Scenarios {
  import opened Wrappers
  import opened Entities
  import opened LoadOrder
  import opened GreedySpec
  import opened GreedyProperties
  import opened Engine

  const Morning := TimeSlot("8:00 AM", "9:30 AM")

  function Fresh(name: string): TeacherView
  {
    TeacherView(name, [], 0)
  }

  /**
   * Two fresh teachers, one empty classroom, one time slot, two subjects:
   * the first subject goes to the first of the two equally loaded teachers;
   * the second finds the only slot of the only classroom booked and is
   * reported.
   */
  lemma TwoSubjectsOneCell(n1: string, n2: string, room: string, slot: TimeSlot, first: Subject, second: Subject)
    ensures Run(World([Fresh(n1), Fresh(n2)], [ClassroomView(room, map[])]), [slot], [first, second])
         == Outcome(World([TeacherView(n1, [first.name], 1), Fresh(n2)],
                          [ClassroomView(room, map[slot.Label() := (first.name, n1)])]),
                    map[first.name := (room, slot.Label(), n1)],
                    [second.name])
  {
    var w := World([Fresh(n1), Fresh(n2)], [ClassroomView(room, map[])]);
    var subjects := [first, second];
    PickTeacherIsLeastLoaded(w.Loads(), 0);
    assert Choose(w, [slot]) == Some(Placement(0, 0, 0));
    assert subjects[..1] == [first] && [first][..0] == [];
    assert Run(w, [slot], []) == Outcome(w, map[], []);
    var o1 := Run(w, [slot], subjects[..1]);
    assert o1 == Step(Run(w, [slot], []), [slot], first);
    var booked := World([TeacherView(n1, [first.name], 1), Fresh(n2)],
                        [ClassroomView(room, map[slot.Label() := (first.name, n1)])]);
    var a := Apply(w, [slot], Placement(0, 0, 0), first.name);
    assert [] + [first.name] == [first.name];
    assert a.teachers == booked.teachers;
    assert a.classrooms == booked.classrooms;
    assert o1 == Outcome(booked, map[first.name := (room, slot.Label(), n1)], []);
    ChooseNoneWhenStuck(booked, [slot]);
    assert !Free(booked, [slot], 0, 0);
    assert FullyBooked(booked, [slot]);
    assert subjects[..2][..1] == subjects[..1];
    assert Run(w, [slot], subjects) == Step(o1, [slot], second);
  }

  /**
   * Teachers T1 and T2, subjects Math and Physics, classroom Room101 and
   * the slot 8:00 AM - 9:30 AM: Math goes to T1 in Room101 at that slot,
   * and Physics is reported.
   */
  lemma EndToEnd()
    ensures Run(World([Fresh("T1"), Fresh("T2")], [ClassroomView("Room101", map[])]),
                [Morning], [Subject("Math"), Subject("Physics")])
         == Outcome(World([TeacherView("T1", ["Math"], 1), Fresh("T2")],
                          [ClassroomView("Room101", map["8:00 AM - 9:30 AM" := ("Math", "T1")])]),
                    map["Math" := ("Room101", "8:00 AM - 9:30 AM", "T1")],
                    ["Physics"])
  {
    assert Morning.Label() == "8:00 AM - 9:30 AM";
    TwoSubjectsOneCell("T1", "T2", "Room101", Morning, Subject("Math"), Subject("Physics"));
  }

  /** What TwoSubjectsOneCell says about the schedule, the report and the loads. */
  lemma TwoSubjectsOneCellFacts(n1: string, n2: string, room: string, slot: TimeSlot,
                                first: Subject, second: Subject, w0: World, o: Outcome)
    requires w0 == World([Fresh(n1), Fresh(n2)], [ClassroomView(room, map[])])
    requires o == Run(w0, [slot], [first, second])
    ensures o.schedule == map[first.name := (room, slot.Label(), n1)]
    ensures o.unassigned == [second.name]
    ensures o.world.Loads() == [1, 0]
  {
    TwoSubjectsOneCell(n1, n2, room, slot, first, second);
  }

  /**
   * The same scenario on freshly constructed objects: after scheduling, the
   * first teacher holds the first subject and the second teacher nothing.
   */
  method TwoSubjectsOnObjects(n1: string, n2: string, roomNumber: string, slot: TimeSlot,
                              first: Subject, second: Subject)
    returns (schedule: map<string, Entry>, unassigned: seq<string>, loads: seq<nat>)
    ensures schedule == map[first.name := (roomNumber, slot.Label(), n1)]
    ensures unassigned == [second.name]
    ensures loads == [1, 0]
  {
    var t1 := new Teacher(n1);
    var t2 := new Teacher(n2);
    var room := new Classroom(roomNumber);
    var teachers, classrooms := [t1, t2], [room];
    ghost var w0 := Snapshot(teachers, classrooms);
    assert w0 == World([Fresh(n1), Fresh(n2)], [ClassroomView(roomNumber, map[])]);
    schedule, unassigned := GreedySchedule(teachers, [first, second], classrooms, [slot]);
    ghost var o := Outcome(Snapshot(teachers, classrooms), schedule, unassigned);
    TwoSubjectsOneCellFacts(n1, n2, roomNumber, slot, first, second, w0, o);
    loads := Loads(teachers);
  }

  /** With no teacher at all, the only subject is reported and nothing changes. */
  lemma NoTeacher(w: World, slots: seq<TimeSlot>, s: Subject)
    requires w.teachers == []
    ensures Run(w, slots, [s]) == Outcome(w, map[], [s.name])
  {
  }

  /** Of two teachers with loads 1 and 0, the one with load 0 gets the subject. */
  lemma LighterTeacherWins(c: ClassroomView, slot: TimeSlot, s: Subject)
    requires slot.Label() !in c.schedule
    ensures Run(World([TeacherView("A", ["X"], 1), Fresh("B")], [c]), [slot], [s]).schedule
         == map[s.name := (c.roomNumber, slot.Label(), "B")]
  {
    var w := World([TeacherView("A", ["X"], 1), Fresh("B")], [c]);
    assert [s][..0] == [];
    PickTeacherIsLeastLoaded(w.Loads(), 1);
    assert Choose(w, [slot]) == Some(Placement(0, 0, 1));
  }

  /**
   * Two different time slots can render the same label and so share one
   * booking key: booking either makes the classroom unavailable at both.
   */
  lemma DistinctSlotsCanShareLabel()
    ensures TimeSlot("a", "- b") != TimeSlot("a -", "b")
    ensures TimeSlot("a", "- b").Label() == TimeSlot("a -", "b").Label()
  {
  }

  function Names(subjects: seq<Subject>): (r: seq<string>)
  {
    seq(|subjects|, k requires 0 <= k < |subjects| => subjects[k].name)
  }

  function Min(a: nat, b: nat): nat
  {
    if a < b then a else b
  }

  predicate DistinctLabels(slots: seq<TimeSlot>)
  {
    forall i, j :: 0 <= i < j < |slots| ==> slots[i].Label() != slots[j].Label()
  }

  /** The state after the first `k` subjects of the saturation run. */
  predicate SaturatedAfter(o: Outcome, slots: seq<TimeSlot>, subjects: seq<Subject>, k: nat)
    requires k <= |subjects| && Min(k, Capacity) <= |slots|
  {
    && |o.world.teachers| == 1 && |o.world.classrooms| == 1
    && o.world.teachers[0].subjectCount == Min(k, Capacity)
    && o.world.classrooms[0].schedule.Keys == (set i | 0 <= i < Min(k, Capacity) :: slots[i].Label())
    && o.unassigned == Names(subjects[Min(k, Capacity)..k])
  }

  /** Below capacity, the next subject takes the next time slot. */
  lemma SaturationPlaces(o: Outcome, slots: seq<TimeSlot>, subjects: seq<Subject>, k: nat)
    requires DistinctLabels(slots) && |slots| >= Capacity && k < |subjects| && k < Capacity
    requires SaturatedAfter(o, slots, subjects, k)
    ensures SaturatedAfter(Step(o, slots, subjects[k]), slots, subjects, k + 1)
  {
    var p := Placement(k, 0, 0);
    PickTeacherIsLeastLoaded(o.world.Loads(), 0);
    assert Free(o.world, slots, k, 0);
    forall si: nat, ci: nat | si < |slots| && ci < 1 && CellBefore(si, ci, p.slot, p.room)
      ensures !Free(o.world, slots, si, ci)
    {
      assert slots[si].Label() in o.world.classrooms[0].schedule.Keys;
    }
    assert FirstFit(o.world, slots, p);
    ChooseIsFirstFit(o.world, slots, p);
    var o' := Step(o, slots, subjects[k]);
    assert o'.world.classrooms[0].schedule.Keys == o.world.classrooms[0].schedule.Keys + {slots[k].Label()};
    assert o'.world.classrooms[0].schedule.Keys == (set i | 0 <= i < k + 1 :: slots[i].Label());
    assert subjects[k..k] == [] && subjects[k + 1..k + 1] == [];
  }

  /** At capacity, every further subject is reported and nothing changes. */
  lemma SaturationReports(o: Outcome, slots: seq<TimeSlot>, subjects: seq<Subject>, k: nat)
    requires |slots| >= Capacity && k < |subjects| && k >= Capacity
    requires SaturatedAfter(o, slots, subjects, k)
    ensures SaturatedAfter(Step(o, slots, subjects[k]), slots, subjects, k + 1)
  {
    assert AllAtCapacity(o.world.Loads());
    ChooseNoneWhenStuck(o.world, slots);
    assert subjects[Capacity..k + 1] == subjects[Capacity..k] + [subjects[k]];
  }

  /** Running one more subject is one more Step. */
  lemma RunExtends(w: World, slots: seq<TimeSlot>, subjects: seq<Subject>, k: nat)
    requires k < |subjects|
    ensures Run(w, slots, subjects[..k + 1]) == Step(Run(w, slots, subjects[..k]), slots, subjects[k])
  {
    assert subjects[..k + 1][..k] == subjects[..k];
  }

  /** Before any subject, the fresh teacher and the empty classroom are saturated after 0. */
  lemma SaturationStart(name: string, room: string, slots: seq<TimeSlot>, subjects: seq<Subject>)
    requires |slots| >= Capacity
    ensures SaturatedAfter(Run(World([Fresh(name)], [ClassroomView(room, map[])]), slots, subjects[..0]),
                           slots, subjects, 0)
  {
    assert subjects[..0] == [];
  }

  /** One more subject of the saturation run, below or at capacity. */
  lemma SaturationStep(o: Outcome, slots: seq<TimeSlot>, subjects: seq<Subject>, k: nat)
    requires DistinctLabels(slots) && |slots| >= Capacity && k < |subjects|
    requires SaturatedAfter(o, slots, subjects, k)
    ensures SaturatedAfter(Step(o, slots, subjects[k]), slots, subjects, k + 1)
  {
    if k < Capacity {
      SaturationPlaces(o, slots, subjects, k);
    } else {
      SaturationReports(o, slots, subjects, k);
    }
  }

  /** Saturation holds after every prefix of the run, given that it holds before the first subject. */
  lemma {:induction false} SaturationPrefix(w: World, slots: seq<TimeSlot>, subjects: seq<Subject>, k: nat)
    requires DistinctLabels(slots) && |slots| >= Capacity && k <= |subjects|
    requires SaturatedAfter(Run(w, slots, subjects[..0]), slots, subjects, 0)
    ensures SaturatedAfter(Run(w, slots, subjects[..k]), slots, subjects, k)
  {
    if k > 0 {
      SaturationPrefix(w, slots, subjects, k - 1);
      RunExtends(w, slots, subjects, k - 1);
      SaturationStep(Run(w, slots, subjects[..k - 1]), slots, subjects, k - 1);
    }
  }

  /**
   * One fresh teacher, one empty classroom and at least six time slots
   * with distinct labels: the first six subjects are placed and every later
   * one is reported.
   */
  lemma Saturation(name: string, room: string, slots: seq<TimeSlot>, subjects: seq<Subject>)
    requires DistinctLabels(slots) && |slots| >= Capacity && |subjects| >= Capacity
    ensures var o := Run(World([Fresh(name)], [ClassroomView(room, map[])]), slots, subjects);
      && o.world.teachers[0].subjectCount == Capacity
      && o.unassigned == Names(subjects[Capacity..])
  {
    var w := World([Fresh(name)], [ClassroomView(room, map[])]);
    SaturationStart(name, room, slots, subjects);
    SaturationPrefix(w, slots, subjects, |subjects|);
    assert subjects[..|subjects|] == subjects;
  }
}
