/**
 * What the greedy schedule guarantees, proved about the value-level Run:
 * the capacity bound, no double booking, agreement between the returned
 * schedule and the bookings, the fate of every subject, and the counts.
 */
module GreedyProperties {
  import opened Wrappers
  import opened Entities
  import opened LoadOrder
  import opened GreedySpec

  /**
   * A teacher within capacity stays within it, and a teacher already at
   * or over capacity is left exactly as it was.
   */
  predicate CapacityRespected(w: World, w': World)
  {
    && |w'.teachers| == |w.teachers|
    && (forall i :: 0 <= i < |w.teachers| && w.teachers[i].subjectCount <= Capacity ==>
          w'.teachers[i].subjectCount <= Capacity)
    && (forall i :: 0 <= i < |w.teachers| && w.teachers[i].subjectCount >= Capacity ==>
          w'.teachers[i] == w.teachers[i])
  }

  /** Every booking of `w` is still in `w'`, with the same subject and teacher. */
  predicate BookingsKept(w: World, w': World)
  {
    && |w'.classrooms| == |w.classrooms|
    && forall c, key :: 0 <= c < |w.classrooms| && key in w.classrooms[c].schedule ==>
         key in w'.classrooms[c].schedule && w'.classrooms[c].schedule[key] == w.classrooms[c].schedule[key]
  }

  /** Loads only grow, and subjects are only ever appended to a teacher. */
  predicate TeachersGrow(w: World, w': World)
  {
    && |w'.teachers| == |w.teachers|
    && forall i :: 0 <= i < |w.teachers| ==>
         && w.teachers[i].subjectCount <= w'.teachers[i].subjectCount
         && |w.teachers[i].assignedSubjects| <= |w'.teachers[i].assignedSubjects|
         && w'.teachers[i].assignedSubjects[..|w.teachers[i].assignedSubjects|] == w.teachers[i].assignedSubjects
  }

  /** Every teacher's count equals the length of its subject list. */
  predicate CountsMatchLists(w: World)
  {
    forall i :: 0 <= i < |w.teachers| ==> w.teachers[i].subjectCount == |w.teachers[i].assignedSubjects|
  }

  /**
   * Entry `e` of subject `subject` is a booking made after `w0`: a
   * classroom numbered `e.0` that was free at label `e.1` in `w0` now holds
   * (`subject`, `e.2`) there.
   */
  predicate BookedSince(w0: World, w: World, subject: string, e: Entry)
  {
    exists c ::
      && 0 <= c < |w.classrooms| && c < |w0.classrooms|
      && w.classrooms[c].roomNumber == e.0
      && e.1 !in w0.classrooms[c].schedule
      && e.1 in w.classrooms[c].schedule
      && w.classrooms[c].schedule[e.1] == (subject, e.2)
  }

  /**
   * A teacher named `teacher` has a higher count than in `w0` and has
   * `subject` among the subjects appended to it since `w0`.
   */
  predicate TaughtSince(w0: World, w: World, subject: string, teacher: string)
  {
    exists i ::
      && 0 <= i < |w.teachers| && i < |w0.teachers|
      && w.teachers[i].name == teacher
      && w0.teachers[i].subjectCount < w.teachers[i].subjectCount
      && |w0.teachers[i].assignedSubjects| <= |w.teachers[i].assignedSubjects|
      && subject in w.teachers[i].assignedSubjects[|w0.teachers[i].assignedSubjects|..]
  }

  /** Every entry of the returned schedule is backed by the state. */
  predicate ScheduleAgrees(w0: World, o: Outcome)
  {
    forall name :: name in o.schedule ==>
      BookedSince(w0, o.world, name, o.schedule[name]) && TaughtSince(w0, o.world, name, o.schedule[name].2)
  }

  /**
   * Step, described through FirstFit: a subject is placed at its first
   * fit when there is one, and there is one unless every teacher is at
   * capacity or every classroom is booked at every slot; otherwise only
   * the notice is added.
   */
  lemma StepOutcome(o: Outcome, slots: seq<TimeSlot>, s: Subject)
    ensures (exists p :: FirstFit(o.world, slots, p)) <==>
            !(AllAtCapacity(o.world.Loads()) || FullyBooked(o.world, slots))
    ensures forall p :: FirstFit(o.world, slots, p) ==>
      Step(o, slots, s) == Outcome(Apply(o.world, slots, p, s.name),
                                   o.schedule[s.name := EntryOf(o.world, slots, p)],
                                   o.unassigned)
    ensures AllAtCapacity(o.world.Loads()) || FullyBooked(o.world, slots) ==>
      Step(o, slots, s) == o.(unassigned := o.unassigned + [s.name])
  {
    ChooseNoneWhenStuck(o.world, slots);
    match Choose(o.world, slots)
    case None =>
      forall p | FirstFit(o.world, slots, p) ensures false {
        ChooseIsFirstFit(o.world, slots, p);
      }
    case Some(q) =>
      ChooseIsFirstFit(o.world, slots, q);
      forall p | FirstFit(o.world, slots, p) ensures p == q {
        ChooseIsFirstFit(o.world, slots, p);
      }
  }

  /**
   * An unplaced subject changes no teacher and no classroom, and a placed
   * one always changes something; the subject is unplaced exactly when
   * every teacher is at capacity or every classroom is booked at every slot.
   */
  lemma UnplacedChangesNothing(o: Outcome, slots: seq<TimeSlot>, s: Subject)
    ensures Step(o, slots, s).world == o.world <==>
            AllAtCapacity(o.world.Loads()) || FullyBooked(o.world, slots)
    ensures Step(o, slots, s).world == o.world ==>
            Step(o, slots, s).schedule == o.schedule && Step(o, slots, s).unassigned == o.unassigned + [s.name]
  {
    ChooseNoneWhenStuck(o.world, slots);
    match Choose(o.world, slots)
    case None =>
    case Some(p) =>
      var w' := Step(o, slots, s).world;
      assert w'.teachers[p.teacher].subjectCount == o.world.teachers[p.teacher].subjectCount + 1;
  }

  /** The one-subject facts the run-level lemmas are built from. */
  lemma StepFacts(o: Outcome, slots: seq<TimeSlot>, s: Subject)
    ensures var o' := Step(o, slots, s);
      && CapacityRespected(o.world, o'.world)
      && BookingsKept(o.world, o'.world)
      && TeachersGrow(o.world, o'.world)
      && (CountsMatchLists(o.world) ==> CountsMatchLists(o'.world))
  {
    match Choose(o.world, slots)
    case None =>
    case Some(p) =>
      ScanFromSome(o.world, slots, 0, 0, p);
      var w := o.world;
      var w' := Step(o, slots, s).world;
      assert w' == Apply(w, slots, p, s.name);
      forall i | 0 <= i < |w.teachers|
        ensures w'.teachers[i].assignedSubjects[..|w.teachers[i].assignedSubjects|] == w.teachers[i].assignedSubjects
      {
        if i == p.teacher {
          assert w'.teachers[i].assignedSubjects == w.teachers[i].assignedSubjects + [s.name];
        }
      }
  }

  /**
   * Capacity: a teacher that starts within the limit of 6 ends within
   * it, and a teacher that starts at or over it is never touched.
   */
  lemma {:induction false} RunRespectsCapacity(w: World, slots: seq<TimeSlot>, subjects: seq<Subject>)
    ensures CapacityRespected(w, Run(w, slots, subjects).world)
    decreases |subjects|
  {
    if subjects != [] {
      var prefix := subjects[..|subjects| - 1];
      RunRespectsCapacity(w, slots, prefix);
      StepFacts(Run(w, slots, prefix), slots, subjects[|subjects| - 1]);
    }
  }

  /** Corollary: if every teacher starts within capacity, every teacher ends within it. */
  lemma RunWithinCapacity(w: World, slots: seq<TimeSlot>, subjects: seq<Subject>)
    requires forall i :: 0 <= i < |w.teachers| ==> w.teachers[i].subjectCount <= Capacity
    ensures var w' := Run(w, slots, subjects).world;
      forall i :: 0 <= i < |w'.teachers| ==> w'.teachers[i].subjectCount <= Capacity
  {
    RunRespectsCapacity(w, slots, subjects);
  }

  /** No double booking: a run never overwrites or removes a booking. */
  lemma {:induction false} RunKeepsBookings(w: World, slots: seq<TimeSlot>, subjects: seq<Subject>)
    ensures BookingsKept(w, Run(w, slots, subjects).world)
    decreases |subjects|
  {
    if subjects != [] {
      var prefix := subjects[..|subjects| - 1];
      RunKeepsBookings(w, slots, prefix);
      StepFacts(Run(w, slots, prefix), slots, subjects[|subjects| - 1]);
    }
  }

  lemma {:induction false} RunGrowsTeachers(w: World, slots: seq<TimeSlot>, subjects: seq<Subject>)
    ensures TeachersGrow(w, Run(w, slots, subjects).world)
    decreases |subjects|
  {
    if subjects != [] {
      var prefix := subjects[..|subjects| - 1];
      RunGrowsTeachers(w, slots, prefix);
      var mid := Run(w, slots, prefix).world;
      StepFacts(Run(w, slots, prefix), slots, subjects[|subjects| - 1]);
      var w' := Run(w, slots, subjects).world;
      forall i | 0 <= i < |w.teachers|
        ensures w'.teachers[i].assignedSubjects[..|w.teachers[i].assignedSubjects|] == w.teachers[i].assignedSubjects
      {
        var a, b, c := w.teachers[i].assignedSubjects, mid.teachers[i].assignedSubjects, w'.teachers[i].assignedSubjects;
        assert c[..|b|][..|a|] == c[..|a|];
      }
    }
  }

  /** A teacher's count and subject list, equal at the start, stay equal. */
  lemma {:induction false} RunKeepsCountsMatchingLists(w: World, slots: seq<TimeSlot>, subjects: seq<Subject>)
    requires CountsMatchLists(w)
    ensures CountsMatchLists(Run(w, slots, subjects).world)
    decreases |subjects|
  {
    if subjects != [] {
      var prefix := subjects[..|subjects| - 1];
      RunKeepsCountsMatchingLists(w, slots, prefix);
      StepFacts(Run(w, slots, prefix), slots, subjects[|subjects| - 1]);
    }
  }

  /** What a later step preserves of an entry that agrees with the state. */
  lemma AgreementPersists(w0: World, mid: World, w': World, name: string, e: Entry)
    requires BookingsKept(w0, mid) && BookingsKept(mid, w') && TeachersGrow(mid, w')
    requires SameRoster(mid, w')
    requires BookedSince(w0, mid, name, e) && TaughtSince(w0, mid, name, e.2)
    ensures BookedSince(w0, w', name, e) && TaughtSince(w0, w', name, e.2)
  {
  }

  /**
   * The entry a placement adds is backed by the booking and the teacher
   * update that the same placement makes.
   */
  lemma NewEntryAgrees(w0: World, o: Outcome, slots: seq<TimeSlot>, s: Subject, p: Placement)
    requires BookingsKept(w0, o.world) && TeachersGrow(w0, o.world)
    requires Choose(o.world, slots) == Some(p)
    ensures var o' := Step(o, slots, s);
      && s.name in o'.schedule
      && BookedSince(w0, o'.world, s.name, o'.schedule[s.name])
      && TaughtSince(w0, o'.world, s.name, o'.schedule[s.name].2)
  {
    ScanFromSome(o.world, slots, 0, 0, p);
    var o' := Step(o, slots, s);
    var e := EntryOf(o.world, slots, p);
    assert o'.schedule[s.name] == e;
    var c, i := p.room, p.teacher;
    assert e.1 !in w0.classrooms[c].schedule;
    assert o'.world.classrooms[c].schedule[e.1] == (s.name, e.2);
    var n0 := |w0.teachers[i].assignedSubjects|;
    var b := o.world.teachers[i].assignedSubjects;
    var c' := o'.world.teachers[i].assignedSubjects;
    assert c' == b + [s.name];
    assert c'[n0..] == b[n0..] + [s.name];
    assert s.name in c'[n0..];
  }

  /**
   * The returned schedule agrees with the state: each entry
   * name -> (room, label, teacher) is a booking of (name, teacher) in a
   * classroom with that room number at that label, made during the run,
   * and a teacher of that name gained load and has the subject.
   */
  lemma {:induction false} RunScheduleAgrees(w: World, slots: seq<TimeSlot>, subjects: seq<Subject>)
    ensures ScheduleAgrees(w, Run(w, slots, subjects))
    decreases |subjects|
  {
    if subjects != [] {
      var prefix := subjects[..|subjects| - 1];
      var s := subjects[|subjects| - 1];
      var o := Run(w, slots, prefix);
      RunScheduleAgrees(w, slots, prefix);
      RunKeepsBookings(w, slots, prefix);
      RunGrowsTeachers(w, slots, prefix);
      StepFacts(o, slots, s);
      var o' := Run(w, slots, subjects);
      assert o' == Step(o, slots, s);
      match Choose(o.world, slots)
      case None =>
      case Some(p) =>
        NewEntryAgrees(w, o, slots, s, p);
        ScanFromSome(o.world, slots, 0, 0, p);
        forall name | name in o'.schedule && name != s.name
          ensures BookedSince(w, o'.world, name, o'.schedule[name]) && TaughtSince(w, o'.world, name, o'.schedule[name].2)
        {
          AgreementPersists(w, o.world, o'.world, name, o.schedule[name]);
        }
    }
  }

  /**
   * Every key of the schedule and every notice names a subject of the
   * input; every input subject has an entry or a notice; there are at most
   * as many notices as subjects.
   */
  lemma {:induction false} RunAccountsForSubjects(w: World, slots: seq<TimeSlot>, subjects: seq<Subject>)
    ensures var o := Run(w, slots, subjects);
      && (forall name :: name in o.schedule ==> exists k :: 0 <= k < |subjects| && subjects[k].name == name)
      && (forall u :: 0 <= u < |o.unassigned| ==> exists k :: 0 <= k < |subjects| && subjects[k].name == o.unassigned[u])
      && (forall k :: 0 <= k < |subjects| ==> subjects[k].name in o.schedule || subjects[k].name in o.unassigned)
      && |o.unassigned| <= |subjects|
    decreases |subjects|
  {
    if subjects != [] {
      var prefix := subjects[..|subjects| - 1];
      RunAccountsForSubjects(w, slots, prefix);
      var o := Run(w, slots, prefix);
      var o' := Run(w, slots, subjects);
      forall k | 0 <= k < |prefix| ensures subjects[k] == prefix[k] { }
      forall k | 0 <= k < |subjects| ensures subjects[k].name in o'.schedule || subjects[k].name in o'.unassigned {
        if k < |prefix| {
          assert prefix[k].name in o.schedule || prefix[k].name in o.unassigned;
          if prefix[k].name in o.unassigned {
            var u :| 0 <= u < |o.unassigned| && o.unassigned[u] == prefix[k].name;
            assert o'.unassigned[u] == o.unassigned[u];
          }
        }
      }
      forall u | 0 <= u < |o'.unassigned|
        ensures exists k :: 0 <= k < |subjects| && subjects[k].name == o'.unassigned[u]
      {
        if u < |o.unassigned| {
          assert o'.unassigned[u] == o.unassigned[u];
          var k :| 0 <= k < |prefix| && prefix[k].name == o.unassigned[u];
          assert subjects[k].name == o'.unassigned[u];
        } else {
          assert subjects[|subjects| - 1].name == o'.unassigned[u];
        }
      }
      forall name | name in o'.schedule ensures exists k :: 0 <= k < |subjects| && subjects[k].name == name {
        if name in o.schedule {
          var k :| 0 <= k < |prefix| && prefix[k].name == name;
          assert subjects[k].name == name;
        } else {
          assert subjects[|subjects| - 1].name == name;
        }
      }
    }
  }

  /** The sum of all teachers' subject counts. */
  function TotalLoad(ts: seq<TeacherView>): nat
  {
    if ts == [] then 0 else TotalLoad(ts[..|ts| - 1]) + ts[|ts| - 1].subjectCount
  }

  /** The number of bookings over all classrooms. */
  function TotalBookings(cs: seq<ClassroomView>): nat
  {
    if cs == [] then 0 else TotalBookings(cs[..|cs| - 1]) + |cs[|cs| - 1].schedule|
  }

  lemma {:induction false} TotalLoadUpdate(ts: seq<TeacherView>, i: nat, t: TeacherView)
    requires i < |ts|
    ensures TotalLoad(ts[i := t]) + ts[i].subjectCount == TotalLoad(ts) + t.subjectCount
    decreases |ts|
  {
    var n := |ts|;
    assert ts[i := t][..n - 1] == if i == n - 1 then ts[..n - 1] else ts[..n - 1][i := t];
    if i < n - 1 {
      TotalLoadUpdate(ts[..n - 1], i, t);
    }
  }

  lemma {:induction false} TotalBookingsUpdate(cs: seq<ClassroomView>, c: nat, v: ClassroomView)
    requires c < |cs|
    ensures TotalBookings(cs[c := v]) + |cs[c].schedule| == TotalBookings(cs) + |v.schedule|
    decreases |cs|
  {
    var n := |cs|;
    assert cs[c := v][..n - 1] == if c == n - 1 then cs[..n - 1] else cs[..n - 1][c := v];
    if c < n - 1 {
      TotalBookingsUpdate(cs[..n - 1], c, v);
    }
  }

  /**
   * Every subject either adds exactly one to one teacher's count and
   * exactly one booking, or is reported: the totals grow by the number of
   * subjects placed, which is the number of subjects minus the notices.
   */
  lemma {:induction false} RunCounts(w: World, slots: seq<TimeSlot>, subjects: seq<Subject>)
    ensures var o := Run(w, slots, subjects);
      && TotalLoad(o.world.teachers) + |o.unassigned| == TotalLoad(w.teachers) + |subjects|
      && TotalBookings(o.world.classrooms) + |o.unassigned| == TotalBookings(w.classrooms) + |subjects|
    decreases |subjects|
  {
    if subjects != [] {
      var prefix := subjects[..|subjects| - 1];
      var s := subjects[|subjects| - 1];
      var o := Run(w, slots, prefix);
      RunCounts(w, slots, prefix);
      match Choose(o.world, slots)
      case None =>
      case Some(p) =>
        ScanFromSome(o.world, slots, 0, 0, p);
        var w' := Apply(o.world, slots, p, s.name);
        TotalLoadUpdate(o.world.teachers, p.teacher, w'.teachers[p.teacher]);
        TotalBookingsUpdate(o.world.classrooms, p.room, w'.classrooms[p.room]);
    }
  }
}
