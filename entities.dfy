/**
 * The four entities of the scheduler: teachers and classrooms, whose state
 * the engine updates in place, and subjects and time slots, which are
 * immutable values.
 */
module Entities {

  /** The most subjects one teacher may be given. */
  const Capacity: nat := 6

  class Teacher {
    const name: string
    var assignedSubjects: seq<string>
    var subjectCount: nat

    constructor (name: string)
      ensures this.name == name
      ensures assignedSubjects == [] && subjectCount == 0
    {
      this.name := name;
      assignedSubjects := [];
      subjectCount := 0;
    }

    /** Whether this teacher is still under capacity. */
    predicate CanTeach()
      reads this
    {
      subjectCount < Capacity
    }

    /**
     * Records one more subject. Capacity is not checked here: the caller
     * is expected to have asked CanTeach() first.
     */
    method AssignSubject(subject: string)
      modifies this
      ensures assignedSubjects == old(assignedSubjects) + [subject]
      ensures subjectCount == old(subjectCount) + 1
      ensures old(subjectCount == |assignedSubjects|) ==> subjectCount == |assignedSubjects|
      ensures old(CanTeach()) ==> subjectCount <= Capacity
    {
      assignedSubjects := assignedSubjects + [subject];
      subjectCount := subjectCount + 1;
    }
  }

  datatype Subject = Subject(name: string)

  class Classroom {
    const roomNumber: string
    /** Bookings, keyed by time-slot label: (subject name, teacher name). */
    var schedule: map<string, (string, string)>

    constructor (roomNumber: string)
      ensures this.roomNumber == roomNumber
      ensures schedule == map[]
    {
      this.roomNumber := roomNumber;
      schedule := map[];
    }

    /** Whether nothing is booked in this room at the given label. */
    predicate IsAvailable(timeSlot: string)
      reads this
    {
      timeSlot !in schedule
    }

    /**
     * Books the room at `timeSlot`. An existing booking at that label is
     * overwritten: the caller is expected to have asked IsAvailable() first.
     */
    method AssignSubject(subject: string, timeSlot: string, teacher: string)
      modifies this
      ensures schedule == old(schedule)[timeSlot := (subject, teacher)]
      ensures forall key :: key != timeSlot ==>
        (key in schedule <==> key in old(schedule)) &&
        (key in schedule ==> schedule[key] == old(schedule)[key])
      ensures old(IsAvailable(timeSlot)) ==> |schedule| == old(|schedule|) + 1
    {
      schedule := schedule[timeSlot := (subject, teacher)];
    }
  }

  datatype TimeSlot = TimeSlot(startTime: string, endTime: string) {
    /** The rendering "start - end", which is the booking key. */
    function Label(): string
    {
      startTime + " - " + endTime
    }
  }
}
