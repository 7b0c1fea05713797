/**
 * The entities of the activity planner: classes, activity instances and
 * students (types.ts). Identifiers are opaque strings; a student's
 * priorities refer to public activity ids, its assignments to instance ids.
 */
module Roster {

  /** Time slot of an activity instance: G full day (Ganztags),
      V morning (Vormittag), N afternoon (Nachmittag). */
  datatype TimeSlot = G | V | N

  /** One concrete, separately capacitated activity instance. Several
      instances may share one publicId (e.g. a morning and a full-day
      variant of the same offering). The optional location and description
      are the empty string when absent. */
  datatype Activity = Activity(
    id: string,
    publicId: int,
    name: string,
    leader: string,
    location: string,
    maxParticipants: int,
    description: string,
    timeSlot: TimeSlot)

  /** A student with ranked public-id priorities and the instance ids it
      holds. An absent isLocked is false. */
  datatype Student = Student(
    id: string,
    name: string,
    className: string,
    classLetter: string,
    priorities: seq<int>,
    assignedActivityIds: seq<string>,
    isMorningOnly: bool,
    isLocked: bool)

  datatype ClassGroup = ClassGroup(id: string, name: string, letter: string)

  /** The instance ids present in a catalogue. */
  function InstanceIds(acts: seq<Activity>): set<string>
  {
    set a | a in acts :: a.id
  }

  /** No two catalogue entries share an instance id (ids are UUIDs). */
  predicate UniqueIds(acts: seq<Activity>)
  {
    forall p, q | 0 <= p < |acts| && 0 <= q < |acts| && acts[p].id == acts[q].id :: p == q
  }

  /** A student record with its assignments cleared. What is left is
      everything the allocation engine may not change about a student. */
  function Cleared(s: Student): Student
  {
    s.(assignedActivityIds := [])
  }

  function ClearedAll(ss: seq<Student>): (r: seq<Student>)
    ensures |r| == |ss|
    ensures forall k | 0 <= k < |ss| :: r[k] == Cleared(ss[k])
  {
    seq(|ss|, k requires 0 <= k < |ss| => Cleared(ss[k]))
  }
}
