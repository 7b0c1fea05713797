/**
 * The small roster edits of the planner as transformations of an explicit
 * roster: the next free class letter (App.tsx:172-182), the public id of a
 * manually added activity (App.tsx:216-240), deleting an activity
 * (App.tsx:245-252), the drag-and-drop handlers (App.tsx:304-353) and the
 * summary counts (App.tsx:467-473).
 */
module Edits {
  import opened Roster
  import opened Seqs

  // ---------------------------------------------------------------------
  // getNextClassLetter

  /** The i-th letter of the alphabet "ABCDEFGHIJKLMNOPQRSTUVWXYZ". */
  function Letter(i: nat): (c: char)
    requires i < 26
    ensures 'A' <= c <= 'Z'
  {
    ('A' as int + i) as char
  }

  /** The letters the classes already carry. */
  function ClassLetters(classes: seq<ClassGroup>): set<string>
  {
    set c | c in classes :: c.letter
  }

  /** The scan over A..Z with its early return (App.tsx:172-182): the first
      letter no class carries, or "?" when all 26 are taken. */
  method NextClassLetter(classes: seq<ClassGroup>) returns (letter: string)
    ensures letter == "?" <==> forall i | 0 <= i < 26 :: [Letter(i)] in ClassLetters(classes)
    ensures letter != "?" ==>
      exists i | 0 <= i < 26 ::
        && letter == [Letter(i)] && letter !in ClassLetters(classes)
        && forall j | 0 <= j < i :: [Letter(j)] in ClassLetters(classes)
  {
    var existing := ClassLetters(classes);
    for i := 0 to 26
      invariant forall j | 0 <= j < i :: [Letter(j)] in existing
    {
      var candidate := [Letter(i)];
      if candidate !in existing {
        assert candidate[0] != '?';
        return candidate;
      }
    }
    return "?";
  }

  // ---------------------------------------------------------------------
  // addManualActivity

  /** `toLowerCase` on ASCII letters; other characters are kept. */
  function LowerChar(c: char): char
  {
    if 'A' <= c <= 'Z' then (c as int + 32) as char else c
  }

  function ToLower(s: string): (r: string)
    ensures |r| == |s| && forall k | 0 <= k < |s| :: r[k] == LowerChar(s[k])
  {
    seq(|s|, k requires 0 <= k < |s| => LowerChar(s[k]))
  }

  /** The form of App.tsx:216: what the user typed for a new instance. */
  datatype Draft = Draft(name: string, leader: string, maxParticipants: int,
                         description: string, location: string, timeSlot: TimeSlot)

  /** The same offering: name and leader equal up to case (App.tsx:220-223). */
  function SameNameAndLeader(name: string, leader: string): Activity -> bool
  {
    (a: Activity) => ToLower(a.name) == ToLower(name) && ToLower(a.leader) == ToLower(leader)
  }

  /** `Math.max(...activities.map(a => a.publicId))`. */
  function MaxPublicId(acts: seq<Activity>): (m: int)
    requires acts != []
    ensures forall k | 0 <= k < |acts| :: acts[k].publicId <= m
    ensures exists k | 0 <= k < |acts| :: acts[k].publicId == m
  {
    if |acts| == 1 then acts[0].publicId
    else
      var rest := MaxPublicId(acts[1..]);
      assert forall k | 1 <= k < |acts| :: acts[k] == acts[1..][k - 1];
      if acts[0].publicId >= rest then acts[0].publicId else rest
  }

  /** The public id of a new instance (App.tsx:219-229): that of the first
      instance of the same offering, otherwise one more than the largest,
      and 1 for an empty catalogue. */
  function NewPublicId(acts: seq<Activity>, name: string, leader: string): int
  {
    match Find(SameNameAndLeader(name, leader), acts)
    case Some(a) => a.publicId
    case None => (if acts != [] then MaxPublicId(acts) else 0) + 1
  }

  /** addManualActivity (App.tsx:216-240), with `id` the fresh instance
      id: nothing happens without a name and a leader. */
  function AddManualActivity(acts: seq<Activity>, d: Draft, id: string): seq<Activity>
  {
    if d.name == [] || d.leader == [] then acts
    else acts + [Activity(id, NewPublicId(acts, d.name, d.leader), d.name, d.leader, d.location,
                          d.maxParticipants, d.description, d.timeSlot)]
  }

  /** Without a name or a leader the catalogue is unchanged; otherwise the
      draft is appended as a new instance with the fresh id. */
  lemma AddManualActivityShape(acts: seq<Activity>, d: Draft, id: string)
    ensures var r := AddManualActivity(acts, d, id);
      if d.name == [] || d.leader == [] then r == acts
      else && |r| == |acts| + 1 && r[..|acts|] == acts
           && var a := r[|acts|];
              && a.id == id && a.name == d.name && a.leader == d.leader && a.location == d.location
              && a.maxParticipants == d.maxParticipants && a.description == d.description
              && a.timeSlot == d.timeSlot
              && a.publicId == NewPublicId(acts, d.name, d.leader)
  {
    if d.name != [] && d.leader != [] {
      assert AddManualActivity(acts, d, id)[..|acts|] == acts;
    }
  }

  /** A new instance of an offering already in the catalogue joins it: it
      takes the public id of the earliest instance with the same name and
      leader up to case. */
  lemma PublicIdReused(acts: seq<Activity>, name: string, leader: string, k: nat)
    requires k < |acts| && SameNameAndLeader(name, leader)(acts[k])
    requires forall j | 0 <= j < k :: !SameNameAndLeader(name, leader)(acts[j])
    ensures NewPublicId(acts, name, leader) == acts[k].publicId
  {
    var found := Find(SameNameAndLeader(name, leader), acts);
    var q :| 0 <= q < |acts| && acts[q] == found.value && SameNameAndLeader(name, leader)(acts[q])
      && forall j | 0 <= j < q :: !SameNameAndLeader(name, leader)(acts[j]);
    if q < k {
      assert false;
    } else if k < q {
      assert false;
    }
  }

  /** A new offering gets a public id no instance has: larger than every
      existing one, exactly one more than the largest, and 1 in an empty
      catalogue. */
  lemma PublicIdFresh(acts: seq<Activity>, name: string, leader: string)
    requires forall k | 0 <= k < |acts| :: !SameNameAndLeader(name, leader)(acts[k])
    ensures forall k | 0 <= k < |acts| :: acts[k].publicId < NewPublicId(acts, name, leader)
    ensures acts == [] ==> NewPublicId(acts, name, leader) == 1
    ensures acts != [] ==> exists k | 0 <= k < |acts| :: NewPublicId(acts, name, leader) == acts[k].publicId + 1
  {
    if acts != [] {
      var k :| 0 <= k < |acts| && acts[k].publicId == MaxPublicId(acts);
      assert NewPublicId(acts, name, leader) == acts[k].publicId + 1;
    }
  }

  /** A new instance shares its public id with an existing instance exactly
      when the catalogue already holds the same offering. */
  lemma PublicIdShared(acts: seq<Activity>, name: string, leader: string)
    ensures (exists k | 0 <= k < |acts| :: acts[k].publicId == NewPublicId(acts, name, leader))
        <==> (exists k | 0 <= k < |acts| :: SameNameAndLeader(name, leader)(acts[k]))
  {
    if exists k | 0 <= k < |acts| :: SameNameAndLeader(name, leader)(acts[k]) {
      var found := Find(SameNameAndLeader(name, leader), acts);
      var q :| 0 <= q < |acts| && acts[q] == found.value && SameNameAndLeader(name, leader)(acts[q]);
      assert acts[q].publicId == NewPublicId(acts, name, leader);
    } else {
      PublicIdFresh(acts, name, leader);
    }
  }

  // ---------------------------------------------------------------------
  // deleteActivity

  function HasInstanceId(id: string): Activity -> bool
  {
    (a: Activity) => a.id == id
  }

  function NotInstanceId(id: string): Activity -> bool
  {
    (a: Activity) => a.id != id
  }

  function Other(id: string): string -> bool
  {
    (x: string) => x != id
  }

  /** A student with every occurrence of one instance id removed from its
      assignments. */
  function Unassigned(s: Student, id: string): Student
  {
    s.(assignedActivityIds := Filter(Other(id), s.assignedActivityIds))
  }

  /** deleteActivity (App.tsx:245-252): the instance leaves the catalogue
      and every student's assignments. */
  function DeleteActivity(acts: seq<Activity>, students: seq<Student>, id: string)
    : (r: (seq<Activity>, seq<Student>))
    ensures |r.1| == |students|
  {
    (Filter(NotInstanceId(id), acts),
     seq(|students|, k requires 0 <= k < |students| => Unassigned(students[k], id)))
  }

  /** Removing one id from a list keeps the multiplicity of every other id
      and leaves none of it. */
  lemma {:induction false} FilterOtherCounts(id: string, ids: seq<string>)
    ensures multiset(Filter(Other(id), ids))[id] == 0
    ensures forall x | x != id :: multiset(Filter(Other(id), ids))[x] == multiset(ids)[x]
  {
    if ids != [] {
      FilterOtherCounts(id, ids[1..]);
      FilterCons(Other(id), ids);
      assert ids == [ids[0]] + ids[1..];
    }
  }

  /** What deleting an instance does: the catalogue loses exactly the
      entries with that id; every student keeps all its fields
      and every other assignment with its multiplicity, and holds the
      deleted id no more. */
  lemma DeleteActivityEffect(acts: seq<Activity>, students: seq<Student>, id: string)
    ensures var (acts', students') := DeleteActivity(acts, students, id);
      && (forall a :: a in acts' <==> a in acts && a.id != id)
      && |students'| == |students|
      && forall k | 0 <= k < |students| ::
           && Cleared(students'[k]) == Cleared(students[k])
           && id !in students'[k].assignedActivityIds
           && forall x | x != id :: multiset(students'[k].assignedActivityIds)[x] == multiset(students[k].assignedActivityIds)[x]
  {
    FilterMembers(NotInstanceId(id), acts);
    var students' := DeleteActivity(acts, students, id).1;
    forall k | 0 <= k < |students|
      ensures && id !in students'[k].assignedActivityIds
              && forall x | x != id :: multiset(students'[k].assignedActivityIds)[x] == multiset(students[k].assignedActivityIds)[x]
    {
      FilterOtherCounts(id, students[k].assignedActivityIds);
      assert id !in multiset(students'[k].assignedActivityIds);
    }
  }

  /** Deleting the same instance twice is deleting it once. */
  lemma DeleteActivityIdempotent(acts: seq<Activity>, students: seq<Student>, id: string)
    ensures var r := DeleteActivity(acts, students, id);
      DeleteActivity(r.0, r.1, id) == r
  {
    var r := DeleteActivity(acts, students, id);
    FilterMembers(NotInstanceId(id), acts);
    FilterAll(NotInstanceId(id), r.0);
    forall k | 0 <= k < |students| ensures Unassigned(r.1[k], id) == r.1[k] {
      FilterMembers(Other(id), students[k].assignedActivityIds);
      FilterAll(Other(id), r.1[k].assignedActivityIds);
    }
    assert DeleteActivity(r.0, r.1, id).1 == r.1;
  }

  // ---------------------------------------------------------------------
  // The drag-and-drop handlers

  /** What dropping onto `target` does to one student record
      (App.tsx:310-329): a student other than the dragged one, a
      morning-only student and a non-morning instance, or an instance the
      student already holds leave the record as it is; otherwise the
      instance id is appended. There is no capacity check. */
  function DropOne(s: Student, studentId: string, target: Activity): Student
  {
    if s.id != studentId then s
    else if s.isMorningOnly && target.timeSlot != V then s
    else if target.id in s.assignedActivityIds then s
    else s.(assignedActivityIds := s.assignedActivityIds + [target.id])
  }

  /** handleDropOnActivity (App.tsx:304-333): nothing happens without a
      dragged student id or when no instance has the target id. */
  function DropOnActivity(students: seq<Student>, acts: seq<Activity>, studentId: string, targetId: string)
    : (r: seq<Student>)
    ensures |r| == |students|
  {
    match Find(HasInstanceId(targetId), acts)
    case None => students
    case Some(target) =>
      if studentId == [] then students
      else seq(|students|, k requires 0 <= k < |students| => DropOne(students[k], studentId, target))
  }

  /** An id list without repetitions. */
  predicate NoRepeats(ids: seq<string>)
  {
    forall p, q | 0 <= p < q < |ids| :: ids[p] != ids[q]
  }

  /** Dropping gives the target instance to the dragged student exactly
      when it is in the catalogue, the student may attend it and does not
      hold it yet, whatever its occupancy; every other record is
      unchanged. */
  lemma DropOnActivityEffect(students: seq<Student>, acts: seq<Activity>, studentId: string, targetId: string)
    ensures var r := DropOnActivity(students, acts, studentId, targetId);
      forall k | 0 <= k < |students| ::
        var s := students[k];
        var accepted := && studentId != [] && s.id == studentId
                        && (exists q | 0 <= q < |acts| :: acts[q].id == targetId &&
                              (forall j | 0 <= j < q :: acts[j].id != targetId) &&
                              !(s.isMorningOnly && acts[q].timeSlot != V))
                        && targetId !in s.assignedActivityIds;
        r[k] == if accepted then s.(assignedActivityIds := s.assignedActivityIds + [targetId]) else s
  {
    var found := Find(HasInstanceId(targetId), acts);
    if found.Some? {
      var q :| 0 <= q < |acts| && acts[q] == found.value && HasInstanceId(targetId)(acts[q])
        && forall j | 0 <= j < q :: !HasInstanceId(targetId)(acts[j]);
      forall q' | 0 <= q' < |acts| && acts[q'].id == targetId && (forall j | 0 <= j < q' :: acts[j].id != targetId)
        ensures q' == q
      {
        if q' < q {
          assert false;
        } else if q < q' {
          assert false;
        }
      }
    }
  }

  /** A morning-only student is never given a full-day or afternoon
      instance by a drop. */
  lemma DropRefusesMorningOnly(students: seq<Student>, acts: seq<Activity>, studentId: string, targetId: string)
    requires forall q | 0 <= q < |acts| && acts[q].id == targetId :: acts[q].timeSlot != V
    ensures var r := DropOnActivity(students, acts, studentId, targetId);
      forall k | 0 <= k < |students| && students[k].isMorningOnly :: r[k] == students[k]
  {
    DropOnActivityEffect(students, acts, studentId, targetId);
  }

  /** A drop never repeats an id: the assignments of every student stay
      free of repetitions. */
  lemma DropKeepsNoRepeats(students: seq<Student>, acts: seq<Activity>, studentId: string, targetId: string)
    requires forall k | 0 <= k < |students| :: NoRepeats(students[k].assignedActivityIds)
    ensures var r := DropOnActivity(students, acts, studentId, targetId);
      forall k | 0 <= k < |r| :: NoRepeats(r[k].assignedActivityIds)
  {
    DropOnActivityEffect(students, acts, studentId, targetId);
  }

  /** handleDropOnUnassigned (App.tsx:335-345): after the user confirms,
      the dragged student's assignments are cleared. */
  function DropOnUnassigned(students: seq<Student>, studentId: string, confirmed: bool): (r: seq<Student>)
    ensures |r| == |students|
  {
    if studentId == [] || !confirmed then students
    else seq(|students|, k requires 0 <= k < |students| =>
               if students[k].id == studentId then Cleared(students[k]) else students[k])
  }

  /** Only a confirmed drop with a student id changes anything; it leaves
      the dragged student with no assignments and all else as it was. */
  lemma DropOnUnassignedEffect(students: seq<Student>, studentId: string, confirmed: bool)
    ensures var r := DropOnUnassigned(students, studentId, confirmed);
      && (studentId == [] || !confirmed ==> r == students)
      && forall k | 0 <= k < |students| ::
           && Cleared(r[k]) == Cleared(students[k])
           && (r[k].assignedActivityIds == [] <==>
                 ((studentId != [] && confirmed && students[k].id == studentId)
                  || students[k].assignedActivityIds == []))
           && (r[k].assignedActivityIds != [] ==> r[k] == students[k])
  {
  }

  /** removeAssignment (App.tsx:347-353): every occurrence of the instance
      id leaves that student's assignments. */
  function RemoveAssignment(students: seq<Student>, studentId: string, activityId: string): (r: seq<Student>)
    ensures |r| == |students|
  {
    seq(|students|, k requires 0 <= k < |students| =>
          if students[k].id == studentId then Unassigned(students[k], activityId) else students[k])
  }

  /** The student no longer holds the instance, keeps every other
      assignment with its multiplicity, and nothing else changes. */
  lemma RemoveAssignmentEffect(students: seq<Student>, studentId: string, activityId: string)
    ensures var r := RemoveAssignment(students, studentId, activityId);
      forall k | 0 <= k < |students| ::
        && Cleared(r[k]) == Cleared(students[k])
        && (students[k].id != studentId ==> r[k] == students[k])
        && (students[k].id == studentId ==>
              && activityId !in r[k].assignedActivityIds
              && forall x | x != activityId ::
                   multiset(r[k].assignedActivityIds)[x] == multiset(students[k].assignedActivityIds)[x])
  {
    var r := RemoveAssignment(students, studentId, activityId);
    forall k | 0 <= k < |students| && students[k].id == studentId
      ensures && activityId !in r[k].assignedActivityIds
              && forall x | x != activityId ::
                   multiset(r[k].assignedActivityIds)[x] == multiset(students[k].assignedActivityIds)[x]
    {
      FilterOtherCounts(activityId, students[k].assignedActivityIds);
      assert activityId !in multiset(r[k].assignedActivityIds);
    }
  }

  /** Removing an assignment undoes a drop that added it. */
  lemma RemoveUndoesDrop(students: seq<Student>, acts: seq<Activity>, studentId: string, targetId: string)
    requires forall k | 0 <= k < |students| && students[k].id == studentId ::
      targetId !in students[k].assignedActivityIds
    ensures RemoveAssignment(DropOnActivity(students, acts, studentId, targetId), studentId, targetId) == students
  {
    DropOnActivityEffect(students, acts, studentId, targetId);
    var d := DropOnActivity(students, acts, studentId, targetId);
    var r := RemoveAssignment(d, studentId, targetId);
    forall k | 0 <= k < |students| ensures r[k] == students[k] {
      if students[k].id == studentId {
        var ids := students[k].assignedActivityIds;
        FilterAll(Other(targetId), ids);
        if d[k] != students[k] {
          FilterAppend(Other(targetId), ids, [targetId]);
          assert Filter(Other(targetId), [targetId]) == [];
        }
      }
    }
  }

  // ---------------------------------------------------------------------
  // getStats

  datatype Stats = Stats(total: nat, fullyAssigned: nat, partiallyAssigned: nat, unassigned: nat)

  function IsFull(target: int): Student -> bool
  {
    (s: Student) => |s.assignedActivityIds| >= target
  }

  function IsPartial(target: int): Student -> bool
  {
    (s: Student) => |s.assignedActivityIds| > 0 && |s.assignedActivityIds| < target
  }

  predicate IsUnassigned(s: Student)
  {
    |s.assignedActivityIds| == 0
  }

  /** getStats (App.tsx:467-473) with `target` the number of courses per
      student. */
  function GetStats(students: seq<Student>, target: int): Stats
  {
    Stats(|students|, |Filter(IsFull(target), students)|, |Filter(IsPartial(target), students)|,
          |Filter(IsUnassigned, students)|)
  }

  /** Each student falls in exactly one of the three groups when at least
      one course is required, so the three counts add up to the total. */
  lemma {:induction false} StatsPartition(students: seq<Student>, target: int)
    requires target >= 1
    ensures var st := GetStats(students, target);
      st.fullyAssigned + st.partiallyAssigned + st.unassigned == st.total
  {
    if students != [] {
      StatsPartition(students[1..], target);
      FilterCons(IsFull(target), students);
      FilterCons(IsPartial(target), students);
      FilterCons(IsUnassigned, students);
    }
  }

  /** With no course required everybody counts as fully assigned, nobody as
      partially assigned, and the students without any assignment are
      counted twice. */
  lemma {:induction false} StatsWithoutTarget(students: seq<Student>, target: int)
    requires target <= 0
    ensures var st := GetStats(students, target);
      && st.fullyAssigned == st.total && st.partiallyAssigned == 0
      && st.fullyAssigned + st.partiallyAssigned + st.unassigned == st.total + st.unassigned
  {
    FilterAll(IsFull(target), students);
    FilterNone(IsPartial(target), students);
  }
}
