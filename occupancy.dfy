/**
 * Occupancy of activity instances: how many held assignments name an
 * instance id, and the per-instance counters the allocation run seeds from
 * the students it must not touch (App.tsx:380-401).
 */
module Occupancy {
  import opened Roster
  import opened Seqs

  /** How many times instance `id` occurs among the assignments of ss. */
  function Occurrences(ss: seq<Student>, id: string): nat
  {
    if ss == [] then 0
    else Occurrences(ss[..|ss| - 1], id) + multiset(ss[|ss| - 1].assignedActivityIds)[id]
  }

  /** The counters an allocation run starts from: one per catalogue
      instance, holding the occupancy by the students in `held`. */
  function Seed(acts: seq<Activity>, held: seq<Student>): map<string, nat>
  {
    map id | id in InstanceIds(acts) :: Occurrences(held, id)
  }

  /** A counter lookup; the counters always cover the catalogue. */
  function Count(counts: map<string, nat>, id: string): nat
  {
    if id in counts then counts[id] else 0
  }

  lemma {:induction false} OccurrencesAppend(a: seq<Student>, b: seq<Student>, id: string)
    ensures Occurrences(a + b, id) == Occurrences(a, id) + Occurrences(b, id)
    decreases |b|
  {
    if b == [] {
      assert a + b == a;
    } else {
      assert (a + b)[..|a + b| - 1] == a + b[..|b| - 1];
      OccurrencesAppend(a, b[..|b| - 1], id);
    }
  }

  lemma OccurrencesSingle(x: Student, id: string)
    ensures Occurrences([x], id) == multiset(x.assignedActivityIds)[id]
  {
    assert [x][..0] == [];
  }

  /** Occupancy does not depend on the order of the students. */
  lemma {:induction false} OccurrencesPermutation(a: seq<Student>, b: seq<Student>, id: string)
    requires multiset(a) == multiset(b)
    ensures Occurrences(a, id) == Occurrences(b, id)
    decreases |a|
  {
    if a == [] {
      assert |b| == |multiset(b)| == 0;
    } else {
      var k := PermutationHead(a, b);
      OccurrencesPermutation(a[1..], b[..k] + b[k + 1..], id);
      assert a == [a[0]] + a[1..];
      OccurrencesAppend([a[0]], a[1..], id);
      OccurrencesSingle(a[0], id);
      assert b == b[..k] + [b[k]] + b[k + 1..];
      OccurrencesAppend(b[..k] + [b[k]], b[k + 1..], id);
      OccurrencesAppend(b[..k], [b[k]], id);
      OccurrencesAppend(b[..k], b[k + 1..], id);
      OccurrencesSingle(b[k], id);
    }
  }

  /** Replacing one student changes occupancy by the difference of the two
      students' holdings. */
  lemma OccurrencesUpdate(ss: seq<Student>, k: nat, x: Student, id: string)
    requires k < |ss|
    ensures Occurrences(ss[k := x], id) + multiset(ss[k].assignedActivityIds)[id]
         == Occurrences(ss, id) + multiset(x.assignedActivityIds)[id]
  {
    assert ss == ss[..k] + [ss[k]] + ss[k + 1..];
    assert ss[k := x] == ss[..k] + [x] + ss[k + 1..];
    OccurrencesAppend(ss[..k] + [ss[k]], ss[k + 1..], id);
    OccurrencesAppend(ss[..k], [ss[k]], id);
    OccurrencesAppend(ss[..k] + [x], ss[k + 1..], id);
    OccurrencesAppend(ss[..k], [x], id);
    OccurrencesSingle(ss[k], id);
    OccurrencesSingle(x, id);
  }

  /** Each student's own holdings are part of the occupancy. */
  lemma OccurrencesBound(ss: seq<Student>, k: nat, id: string)
    requires k < |ss|
    ensures multiset(ss[k].assignedActivityIds)[id] <= Occurrences(ss, id)
  {
    assert ss == ss[..k] + [ss[k]] + ss[k + 1..];
    OccurrencesAppend(ss[..k] + [ss[k]], ss[k + 1..], id);
    OccurrencesAppend(ss[..k], [ss[k]], id);
    OccurrencesSingle(ss[k], id);
  }

  /** `activities.forEach(a => activityCounts[a.id] = 0)` (App.tsx:382-383). */
  method InitCounts(acts: seq<Activity>) returns (counts: map<string, nat>)
    ensures counts.Keys == InstanceIds(acts)
    ensures forall id | id in counts :: counts[id] == 0
  {
    counts := map[];
    for k := 0 to |acts|
      invariant counts.Keys == InstanceIds(acts[..k])
      invariant forall id | id in counts :: counts[id] == 0
    {
      assert acts[..k + 1] == acts[..k] + [acts[k]];
      counts := counts[acts[k].id := 0];
    }
    assert acts[..|acts|] == acts;
  }

  /** Counts every held assignment of `held` whose id has a counter
      (App.tsx:386-401); ids without a counter are ignored. */
  method CountHeld(counts: map<string, nat>, held: seq<Student>) returns (c: map<string, nat>)
    ensures c.Keys == counts.Keys
    ensures forall id | id in c :: c[id] == counts[id] + Occurrences(held, id)
  {
    c := counts;
    for i := 0 to |held|
      invariant c.Keys == counts.Keys
      invariant forall id | id in c :: c[id] == counts[id] + Occurrences(held[..i], id)
    {
      ghost var before := c;
      c := CountAssignments(c, held[i].assignedActivityIds);
      assert held[..i + 1][..i] == held[..i];
      assert forall id | id in c :: c[id] == before[id] + multiset(held[i].assignedActivityIds)[id];
    }
    assert held[..|held|] == held;
  }

  /** The inner loop of App.tsx:390-396 for one student. */
  method CountAssignments(counts: map<string, nat>, ids: seq<string>) returns (c: map<string, nat>)
    ensures c.Keys == counts.Keys
    ensures forall id | id in c :: c[id] == counts[id] + multiset(ids)[id]
  {
    c := counts;
    for j := 0 to |ids|
      invariant c.Keys == counts.Keys
      invariant forall id | id in c :: c[id] == counts[id] + multiset(ids[..j])[id]
    {
      assert ids[..j + 1] == ids[..j] + [ids[j]];
      if ids[j] in c {
        c := c[ids[j] := c[ids[j]] + 1];
      }
    }
    assert ids[..|ids|] == ids;
  }
}
