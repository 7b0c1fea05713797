/**
 * The checks the allocation engine applies to a (student, instance) pair,
 * and the rule by which it picks the one instance a student receives in a
 * round (App.tsx:426-456).
 */
module Constraints {
  import opened Roster
  import opened Seqs
  import opened Occupancy

  /** A morning-only student may only take a morning ('V') instance
      (App.tsx:442). */
  predicate IsEligible(s: Student, a: Activity)
  {
    !(s.isMorningOnly && a.timeSlot != V)
  }

  /** An instance has room while its counter is below its capacity
      (App.tsx:445). */
  predicate HasCapacity(a: Activity, counts: map<string, nat>)
  {
    Count(counts, a.id) < a.maxParticipants
  }

  /** All instances sharing a public id, in catalogue order (App.tsx:433). */
  function InstancesOf(acts: seq<Activity>, publicId: int): seq<Activity>
  {
    Filter(HasPublicId(publicId), acts)
  }

  function HasPublicId(publicId: int): Activity -> bool
  {
    (a: Activity) => a.publicId == publicId
  }

  /** The student already holds some instance of the public id
      (App.tsx:436). */
  predicate HoldsOffering(s: Student, acts: seq<Activity>, publicId: int)
  {
    exists a | a in InstancesOf(acts, publicId) :: a.id in s.assignedActivityIds
  }

  /** The instances of a priority that pass both checks (App.tsx:440-448). */
  function ValidInstances(s: Student, potential: seq<Activity>, counts: map<string, nat>): seq<Activity>
  {
    Filter(IsValidFor(s, counts), potential)
  }

  function IsValidFor(s: Student, counts: map<string, nat>): Activity -> bool
  {
    (a: Activity) => IsEligible(s, a) && HasCapacity(a, counts)
  }

  /** The scan over the student's priorities (App.tsx:431-456): a priority
      whose public id is already held is skipped, otherwise its first valid
      instance is taken and the scan stops. */
  function Choose(s: Student, prios: seq<int>, acts: seq<Activity>, counts: map<string, nat>): Option<Activity>
  {
    if prios == [] then None
    else if HoldsOffering(s, acts, prios[0]) then Choose(s, prios[1..], acts, counts)
    else
      var valid := ValidInstances(s, InstancesOf(acts, prios[0]), counts);
      if |valid| > 0 then Some(valid[0]) else Choose(s, prios[1..], acts, counts)
  }

  /** What the student receives, if anything, is a catalogue instance of
      one of its priorities that it does not hold yet, that it may attend
      and that has room. */
  lemma {:induction false} ChooseSound(s: Student, prios: seq<int>, acts: seq<Activity>, counts: map<string, nat>)
    ensures var r := Choose(s, prios, acts, counts);
      r.Some? ==> && r.value in acts
                  && IsEligible(s, r.value)
                  && HasCapacity(r.value, counts)
                  && !HoldsOffering(s, acts, r.value.publicId)
                  && r.value.publicId in prios
  {
    if prios != [] {
      ChooseSound(s, prios[1..], acts, counts);
      if !HoldsOffering(s, acts, prios[0]) {
        FilterMembers(HasPublicId(prios[0]), acts);
        FilterMembers(IsValidFor(s, counts), InstancesOf(acts, prios[0]));
      }
    }
  }

  /** A priority that gives the student something: not yet held, and with a
      valid instance. */
  predicate Yields(s: Student, publicId: int, acts: seq<Activity>, counts: map<string, nat>)
  {
    !HoldsOffering(s, acts, publicId) && |ValidInstances(s, InstancesOf(acts, publicId), counts)| > 0
  }

  lemma ChooseUnfold(s: Student, prios: seq<int>, acts: seq<Activity>, counts: map<string, nat>)
    requires prios != []
    ensures Choose(s, prios, acts, counts) ==
      if Yields(s, prios[0], acts, counts)
      then Some(ValidInstances(s, InstancesOf(acts, prios[0]), counts)[0])
      else Choose(s, prios[1..], acts, counts)
  {
  }

  /** The choice rule, first half: the student receives nothing exactly
      when none of its priorities yields. */
  lemma {:induction false} ChooseNothing(s: Student, prios: seq<int>, acts: seq<Activity>, counts: map<string, nat>)
    ensures Choose(s, prios, acts, counts).None? <==>
      forall k | 0 <= k < |prios| :: !Yields(s, prios[k], acts, counts)
  {
    if prios != [] {
      ChooseUnfold(s, prios, acts, counts);
      ChooseNothing(s, prios[1..], acts, counts);
      assert forall k | 0 < k < |prios| :: prios[k] == prios[1..][k - 1];
    }
  }

  /** The choice rule, second half: otherwise the student receives the
      first valid instance of the earliest-ranked priority that yields. */
  lemma {:induction false} ChooseEarliest(s: Student, prios: seq<int>, acts: seq<Activity>, counts: map<string, nat>, k: nat)
    requires k < |prios| && Yields(s, prios[k], acts, counts)
    requires forall k' | 0 <= k' < k :: !Yields(s, prios[k'], acts, counts)
    ensures Choose(s, prios, acts, counts) == Some(ValidInstances(s, InstancesOf(acts, prios[k]), counts)[0])
  {
    ChooseUnfold(s, prios, acts, counts);
    if k > 0 {
      assert !Yields(s, prios[0], acts, counts);
      assert forall k' | 0 <= k' < k - 1 :: prios[1..][k'] == prios[k' + 1];
      ChooseEarliest(s, prios[1..], acts, counts, k - 1);
    }
  }

  /** The instance a yielding priority gives is the first instance in
      catalogue order that has its public id and passes both checks. */
  lemma FirstValidInstance(s: Student, publicId: int, acts: seq<Activity>, counts: map<string, nat>) returns (q: nat)
    requires Yields(s, publicId, acts, counts)
    ensures q < |acts| && acts[q] == ValidInstances(s, InstancesOf(acts, publicId), counts)[0]
    ensures acts[q].publicId == publicId && IsEligible(s, acts[q]) && HasCapacity(acts[q], counts)
    ensures forall q' | 0 <= q' < q && acts[q'].publicId == publicId ::
      !(IsEligible(s, acts[q']) && HasCapacity(acts[q'], counts))
  {
    q := FirstOfBoth(s, publicId, acts, counts);
  }

  lemma {:induction false} FirstOfBoth(s: Student, publicId: int, acts: seq<Activity>, counts: map<string, nat>) returns (q: nat)
    requires |ValidInstances(s, InstancesOf(acts, publicId), counts)| > 0
    ensures q < |acts| && acts[q] == ValidInstances(s, InstancesOf(acts, publicId), counts)[0]
    ensures acts[q].publicId == publicId && IsEligible(s, acts[q]) && HasCapacity(acts[q], counts)
    ensures forall q' | 0 <= q' < q && acts[q'].publicId == publicId ::
      !(IsEligible(s, acts[q']) && HasCapacity(acts[q'], counts))
  {
    if acts[0].publicId == publicId && IsEligible(s, acts[0]) && HasCapacity(acts[0], counts) {
      q := 0;
    } else {
      var head := if acts[0].publicId == publicId then [acts[0]] else [];
      assert InstancesOf(acts, publicId) == head + InstancesOf(acts[1..], publicId);
      FilterAppend(IsValidFor(s, counts), head, InstancesOf(acts[1..], publicId));
      assert Filter(IsValidFor(s, counts), head) == [];
      var q' := FirstOfBoth(s, publicId, acts[1..], counts);
      q := q' + 1;
    }
  }

  /** A morning-only student whose one priority has a full-day and a
      morning instance receives the morning one, even when the full-day
      instance comes first in the catalogue and has room. */
  lemma MorningScenario(s: Student, a: Activity, b: Activity, counts: map<string, nat>)
    requires s.isMorningOnly && s.priorities == [1] && s.assignedActivityIds == []
    requires a.publicId == 1 && a.timeSlot == G && a.maxParticipants == 1
    requires b.publicId == 1 && b.timeSlot == V && b.maxParticipants == 1
    requires Count(counts, a.id) == 0 && Count(counts, b.id) == 0
    ensures Choose(s, s.priorities, [a, b], counts) == Some(b)
  {
    assert [a, b][1..] == [b] && [b][1..] == [];
    FilterCons(HasPublicId(1), [a, b]);
    FilterCons(HasPublicId(1), [b]);
    assert InstancesOf([a, b], 1) == [a, b];
    FilterCons(IsValidFor(s, counts), [a, b]);
    FilterCons(IsValidFor(s, counts), [b]);
    assert ValidInstances(s, [a, b], counts) == [b];
  }
}
