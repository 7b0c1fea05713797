/**
 * What an allocation run guarantees (App.tsx:356-464): capacity,
 * availability of morning-only students, no two instances of one public id
 * per student, untouched inactive and locked students, at most one new
 * instance per student and round, and a result that is the input roster
 * reordered by name.
 */
module AllocationProofs {
  import opened Roster
  import opened Seqs
  import opened Ordering
  import opened Occupancy
  import opened Constraints
  import opened Allocation

  function Max(a: int, b: int): int { if a < b then b else a }

  /** Every catalogue entry with this id is a morning instance. */
  ghost predicate MorningInstance(acts: seq<Activity>, id: string)
  {
    forall p | 0 <= p < |acts| && acts[p].id == id :: acts[p].timeSlot == V
  }

  /** Two instance ids belong to one public id. */
  ghost predicate SameOffering(acts: seq<Activity>, x: string, y: string)
  {
    exists p, q | 0 <= p < |acts| && 0 <= q < |acts| ::
      acts[p].id == x && acts[q].id == y && acts[p].publicId == acts[q].publicId
  }

  /** No two held instances share a public id. */
  ghost predicate NoSharedOffering(acts: seq<Activity>, held: seq<string>)
  {
    forall i, j | 0 <= i < j < |held| :: !SameOffering(acts, held[i], held[j])
  }

  /** What the engine keeps true of every student it assigns: at most
      `target` instances, all from the catalogue, only morning instances for
      a morning-only student, and no public id twice. */
  ghost predicate SoundHolding(acts: seq<Activity>, target: nat, s: Student)
  {
    && |s.assignedActivityIds| <= target
    && (forall i | 0 <= i < |s.assignedActivityIds| :: s.assignedActivityIds[i] in InstanceIds(acts))
    && (s.isMorningOnly ==>
          forall i | 0 <= i < |s.assignedActivityIds| :: MorningInstance(acts, s.assignedActivityIds[i]))
    && NoSharedOffering(acts, s.assignedActivityIds)
  }

  /** No counter is above its capacity unless it was seeded above it. */
  ghost predicate WithinCapacity(acts: seq<Activity>, seed: map<string, nat>, counts: map<string, nat>)
  {
    forall p | 0 <= p < |acts| ::
      Count(counts, acts[p].id) <= Max(Count(seed, acts[p].id), acts[p].maxParticipants)
  }

  /** The counter of every catalogue instance is its seed plus what the
      working students hold. */
  ghost predicate CountersMatch(acts: seq<Activity>, seed: map<string, nat>, ws: seq<Student>,
                                counts: map<string, nat>)
  {
    forall p | 0 <= p < |acts| ::
      Count(counts, acts[p].id) == Count(seed, acts[p].id) + Occurrences(ws, acts[p].id)
  }

  /** Every working student is sound. */
  ghost predicate AllSound(acts: seq<Activity>, target: nat, ws: seq<Student>)
  {
    forall s | s in ws :: SoundHolding(acts, target, s)
  }

  /** A round changes a student at most by appending one instance, and only
      when it holds fewer than `target`. */
  ghost predicate GainsAtMostOne(before: Student, after: Student, target: nat)
  {
    && Cleared(after) == Cleared(before)
    && (|before.assignedActivityIds| >= target ==> after == before)
    && (after == before ||
        (&& |after.assignedActivityIds| == |before.assignedActivityIds| + 1
         && after.assignedActivityIds[..|before.assignedActivityIds|] == before.assignedActivityIds))
  }

  /** A choice the engine may make: a catalogue instance the student may
      attend, that has room and whose public id it does not hold yet. */
  ghost predicate Allowed(acts: seq<Activity>, s: Student, counts: map<string, nat>, c: Activity)
  {
    c in acts && IsEligible(s, c) && HasCapacity(c, counts) && !HoldsOffering(s, acts, c.publicId)
  }

  /** A rule that only makes allowed choices. */
  ghost predicate RuleSound(pick: Rule, acts: seq<Activity>)
  {
    forall s, counts :: pick(s, counts).Some? ==> Allowed(acts, s, counts, pick(s, counts).value)
  }

  /** The rule of the handler is sound. */
  lemma ChoiceRuleSound(acts: seq<Activity>)
    ensures RuleSound(ChoiceRule(acts), acts)
  {
    forall s, counts ensures ChoiceRule(acts)(s, counts).Some? ==>
      Allowed(acts, s, counts, ChoiceRule(acts)(s, counts).value)
    {
      ChooseSound(s, s.priorities, acts, counts);
    }
  }

  /** What Step does when the student takes an instance. */
  lemma StepTakes(ws: seq<Student>, counts: map<string, nat>, pick: Rule, target: nat, k: nat)
    returns (c: Activity)
    requires k < |ws|
    requires Step(ws, counts, pick, target, k) != (ws, counts)
    ensures |ws[k].assignedActivityIds| < target
    ensures pick(ws[k], counts) == Some(c)
    ensures Step(ws, counts, pick, target, k) ==
      (ws[k := ws[k].(assignedActivityIds := ws[k].assignedActivityIds + [c.id])],
       counts[c.id := Count(counts, c.id) + 1])
  {
    c := pick(ws[k], counts).value;
  }

  /** One student's turn keeps the counters in step with the holdings. */
  lemma StepKeepsCounters(acts: seq<Activity>, seed: map<string, nat>, pick: Rule, target: nat,
                          ws: seq<Student>, counts: map<string, nat>, k: nat)
    requires k < |ws| && CountersMatch(acts, seed, ws, counts)
    ensures var r := Step(ws, counts, pick, target, k); CountersMatch(acts, seed, r.0, r.1)
  {
    if Step(ws, counts, pick, target, k) != (ws, counts) {
      var c := StepTakes(ws, counts, pick, target, k);
      var s := ws[k];
      var s' := s.(assignedActivityIds := s.assignedActivityIds + [c.id]);
      var ws' := ws[k := s'];
      var counts' := counts[c.id := Count(counts, c.id) + 1];
      assert multiset(s'.assignedActivityIds) == multiset(s.assignedActivityIds) + multiset{c.id};
      forall p | 0 <= p < |acts|
        ensures Count(counts', acts[p].id) == Count(seed, acts[p].id) + Occurrences(ws', acts[p].id)
      {
        OccurrencesUpdate(ws, k, s', acts[p].id);
      }
    }
  }

  /** One student's turn keeps every working student sound. */
  lemma StepKeepsSound(acts: seq<Activity>, pick: Rule, target: nat, ws: seq<Student>, counts: map<string, nat>, k: nat)
    requires UniqueIds(acts) && RuleSound(pick, acts) && k < |ws| && AllSound(acts, target, ws)
    ensures AllSound(acts, target, Step(ws, counts, pick, target, k).0)
  {
    if Step(ws, counts, pick, target, k) != (ws, counts) {
      var c := StepTakes(ws, counts, pick, target, k);
      var s' := ws[k].(assignedActivityIds := ws[k].assignedActivityIds + [c.id]);
      var ws' := ws[k := s'];
      assert Allowed(acts, ws[k], counts, c);
      NewHoldingSound(acts, target, ws[k], c);
      forall x | x in ws' ensures SoundHolding(acts, target, x) {
        var j :| 0 <= j < |ws'| && ws'[j] == x;
        if j != k {
          assert x == ws[j];
        }
      }
    }
  }

  /** One student's turn keeps every counter within its capacity. */
  lemma StepKeepsCapacity(acts: seq<Activity>, seed: map<string, nat>, pick: Rule, target: nat,
                          ws: seq<Student>, counts: map<string, nat>, k: nat)
    requires UniqueIds(acts) && RuleSound(pick, acts) && k < |ws| && WithinCapacity(acts, seed, counts)
    ensures WithinCapacity(acts, seed, Step(ws, counts, pick, target, k).1)
  {
    if Step(ws, counts, pick, target, k) != (ws, counts) {
      var c := StepTakes(ws, counts, pick, target, k);
      assert Allowed(acts, ws[k], counts, c);
      var q :| 0 <= q < |acts| && acts[q] == c;
      var counts' := counts[c.id := Count(counts, c.id) + 1];
      forall p | 0 <= p < |acts|
        ensures Count(counts', acts[p].id) <= Max(Count(seed, acts[p].id), acts[p].maxParticipants)
      {
        if acts[p].id == c.id {
          assert p == q;
        } else {
          assert Count(counts', acts[p].id) == Count(counts, acts[p].id);
        }
      }
    }
  }

  /** Appending an allowed instance keeps a student sound. */
  lemma NewHoldingSound(acts: seq<Activity>, target: nat, s: Student, c: Activity)
    requires UniqueIds(acts) && c in acts
    requires SoundHolding(acts, target, s) && |s.assignedActivityIds| < target
    requires IsEligible(s, c) && !HoldsOffering(s, acts, c.publicId)
    ensures SoundHolding(acts, target, s.(assignedActivityIds := s.assignedActivityIds + [c.id]))
  {
    var q :| 0 <= q < |acts| && acts[q] == c;
    var held := s.assignedActivityIds;
    var held' := held + [c.id];
    FilterMembers(HasPublicId(c.publicId), acts);
    assert c.id in InstanceIds(acts);
    if s.isMorningOnly {
      assert MorningInstance(acts, c.id);
    }
    forall i | 0 <= i < |held| ensures !SameOffering(acts, held[i], c.id) {
      forall p, q' | 0 <= p < |acts| && 0 <= q' < |acts| && acts[p].id == held[i] && acts[q'].id == c.id
        ensures acts[p].publicId != acts[q'].publicId
      {
        assert q' == q;
        assert acts[p] !in InstancesOf(acts, c.publicId);
      }
    }
    forall i, j | 0 <= i < j < |held'| ensures !SameOffering(acts, held'[i], held'[j]) {
      if j < |held| {
        assert held'[i] == held[i] && held'[j] == held[j];
      }
    }
  }

  /** Unfolding RoundPrefix once. */
  lemma RoundPrefixStep(ws: seq<Student>, counts: map<string, nat>, pick: Rule, target: nat, n: nat)
    requires 0 < n <= |ws|
    ensures var p := RoundPrefix(ws, counts, pick, target, n - 1);
      RoundPrefix(ws, counts, pick, target, n) == Step(p.0, p.1, pick, target, n - 1)
  {
  }

  lemma PrefixStepKeepsCounters(acts: seq<Activity>, seed: map<string, nat>, pick: Rule,
                                target: nat, ws: seq<Student>, counts: map<string, nat>, n: nat)
    requires 0 < n <= |ws|
    requires var p := RoundPrefix(ws, counts, pick, target, n - 1); CountersMatch(acts, seed, p.0, p.1)
    ensures var r := RoundPrefix(ws, counts, pick, target, n); CountersMatch(acts, seed, r.0, r.1)
  {
    var p := RoundPrefix(ws, counts, pick, target, n - 1);
    StepKeepsCounters(acts, seed, pick, target, p.0, p.1, n - 1);
    RoundPrefixStep(ws, counts, pick, target, n);
  }

  lemma {:induction false} RoundPrefixKeepsCounters(acts: seq<Activity>, seed: map<string, nat>, pick: Rule,
                                                    target: nat, ws: seq<Student>, counts: map<string, nat>, n: nat)
    requires n <= |ws| && CountersMatch(acts, seed, ws, counts)
    ensures var r := RoundPrefix(ws, counts, pick, target, n); CountersMatch(acts, seed, r.0, r.1)
  {
    if n > 0 {
      RoundPrefixKeepsCounters(acts, seed, pick, target, ws, counts, n - 1);
      PrefixStepKeepsCounters(acts, seed, pick, target, ws, counts, n);
    }
  }

  lemma PrefixStepKeepsSound(acts: seq<Activity>, pick: Rule, target: nat,
                             ws: seq<Student>, counts: map<string, nat>, n: nat)
    requires UniqueIds(acts) && RuleSound(pick, acts) && 0 < n <= |ws|
    requires AllSound(acts, target, RoundPrefix(ws, counts, pick, target, n - 1).0)
    ensures AllSound(acts, target, RoundPrefix(ws, counts, pick, target, n).0)
  {
    var p := RoundPrefix(ws, counts, pick, target, n - 1);
    StepKeepsSound(acts, pick, target, p.0, p.1, n - 1);
    RoundPrefixStep(ws, counts, pick, target, n);
  }

  lemma PrefixStepKeepsCapacity(acts: seq<Activity>, seed: map<string, nat>, pick: Rule,
                                target: nat, ws: seq<Student>, counts: map<string, nat>, n: nat)
    requires UniqueIds(acts) && RuleSound(pick, acts) && 0 < n <= |ws|
    requires WithinCapacity(acts, seed, RoundPrefix(ws, counts, pick, target, n - 1).1)
    ensures WithinCapacity(acts, seed, RoundPrefix(ws, counts, pick, target, n).1)
  {
    var p := RoundPrefix(ws, counts, pick, target, n - 1);
    StepKeepsCapacity(acts, seed, pick, target, p.0, p.1, n - 1);
    RoundPrefixStep(ws, counts, pick, target, n);
  }

  lemma {:induction false} RoundPrefixKeepsSound(acts: seq<Activity>, pick: Rule, target: nat,
                                                 ws: seq<Student>, counts: map<string, nat>, n: nat)
    requires UniqueIds(acts) && RuleSound(pick, acts) && n <= |ws| && AllSound(acts, target, ws)
    ensures AllSound(acts, target, RoundPrefix(ws, counts, pick, target, n).0)
  {
    if n > 0 {
      RoundPrefixKeepsSound(acts, pick, target, ws, counts, n - 1);
      PrefixStepKeepsSound(acts, pick, target, ws, counts, n);
    }
  }

  lemma {:induction false} RoundPrefixKeepsCapacity(acts: seq<Activity>, seed: map<string, nat>, pick: Rule,
                                                    target: nat, ws: seq<Student>, counts: map<string, nat>, n: nat)
    requires UniqueIds(acts) && RuleSound(pick, acts) && n <= |ws| && WithinCapacity(acts, seed, counts)
    ensures WithinCapacity(acts, seed, RoundPrefix(ws, counts, pick, target, n).1)
  {
    if n > 0 {
      RoundPrefixKeepsCapacity(acts, seed, pick, target, ws, counts, n - 1);
      PrefixStepKeepsCapacity(acts, seed, pick, target, ws, counts, n);
    }
  }

  /** Occupancy and soundness do not depend on the order of the working
      list. */
  lemma PermutationKeepsCounters(acts: seq<Activity>, seed: map<string, nat>,
                                 ws: seq<Student>, ws': seq<Student>, counts: map<string, nat>)
    requires CountersMatch(acts, seed, ws, counts) && multiset(ws') == multiset(ws)
    ensures CountersMatch(acts, seed, ws', counts)
  {
    forall p | 0 <= p < |acts|
      ensures Count(counts, acts[p].id) == Count(seed, acts[p].id) + Occurrences(ws', acts[p].id)
    {
      OccurrencesPermutation(ws, ws', acts[p].id);
    }
  }

  lemma PermutationKeepsSound(acts: seq<Activity>, target: nat, ws: seq<Student>, ws': seq<Student>)
    requires AllSound(acts, target, ws) && multiset(ws') == multiset(ws)
    ensures AllSound(acts, target, ws')
  {
    forall x | x in ws' ensures SoundHolding(acts, target, x) {
      assert x in multiset(ws);
    }
  }

  /** Only the first n students can have changed. */
  lemma {:induction false} RoundPrefixUntouched(ws: seq<Student>, counts: map<string, nat>, pick: Rule,
                                                target: nat, n: nat)
    requires n <= |ws|
    ensures forall j | n <= j < |ws| :: RoundPrefix(ws, counts, pick, target, n).0[j] == ws[j]
  {
    if n > 0 {
      RoundPrefixUntouched(ws, counts, pick, target, n - 1);
      RoundPrefixStep(ws, counts, pick, target, n);
    }
  }

  /** Round discipline: in one round each student gains at most one
      instance, and a student already holding `target` gains nothing. */
  lemma {:induction false} RoundPrefixGrowth(ws: seq<Student>, counts: map<string, nat>, pick: Rule,
                                             target: nat, n: nat)
    requires n <= |ws|
    ensures forall j | 0 <= j < |ws| ::
      GainsAtMostOne(ws[j], RoundPrefix(ws, counts, pick, target, n).0[j], target)
  {
    if n > 0 {
      RoundPrefixGrowth(ws, counts, pick, target, n - 1);
      RoundPrefixUntouched(ws, counts, pick, target, n - 1);
      RoundPrefixStep(ws, counts, pick, target, n);
      var p := RoundPrefix(ws, counts, pick, target, n - 1);
      var r := Step(p.0, p.1, pick, target, n - 1);
      assert p.0[n - 1] == ws[n - 1];
      forall j | 0 <= j < |ws| ensures GainsAtMostOne(ws[j], r.0[j], target) {
        if j != n - 1 {
          assert r.0[j] == p.0[j];
        } else if r != (p.0, p.1) {
          var c := StepTakes(p.0, p.1, pick, target, n - 1);
          assert r.0[j].assignedActivityIds == ws[j].assignedActivityIds + [c.id];
        }
      }
    }
  }

  lemma RoundGrowth(ws: seq<Student>, counts: map<string, nat>, pick: Rule, target: nat)
    ensures forall j | 0 <= j < |ws| :: GainsAtMostOne(ws[j], Round(ws, counts, pick, target).0[j], target)
  {
    RoundPrefixGrowth(ws, counts, pick, target, |ws|);
  }

  lemma ClearedAllAppend(a: seq<Student>, b: seq<Student>)
    ensures ClearedAll(a + b) == ClearedAll(a) + ClearedAll(b)
  {
  }

  /** Clearing assignments commutes with reordering. */
  lemma {:induction false} ClearedAllPermutation(a: seq<Student>, b: seq<Student>)
    requires multiset(a) == multiset(b)
    ensures multiset(ClearedAll(a)) == multiset(ClearedAll(b))
    decreases |a|
  {
    if a == [] {
      assert |b| == |multiset(b)| == 0;
    } else {
      var k := PermutationHead(a, b);
      ClearedAllPermutation(a[1..], b[..k] + b[k + 1..]);
      assert a == [a[0]] + a[1..];
      ClearedAllAppend([a[0]], a[1..]);
      assert b == b[..k] + [b[k]] + b[k + 1..];
      ClearedAllAppend(b[..k] + [b[k]], b[k + 1..]);
      ClearedAllAppend(b[..k], [b[k]]);
      ClearedAllAppend(b[..k], b[k + 1..]);
    }
  }

  lemma {:induction false} OccurrencesCleared(ss: seq<Student>, id: string)
    ensures Occurrences(ClearedAll(ss), id) == 0
    decreases |ss|
  {
    if ss != [] {
      var n := |ss| - 1;
      assert ClearedAll(ss)[..n] == ClearedAll(ss[..n]);
      OccurrencesCleared(ss[..n], id);
    }
  }

  /** The working list a round starts from. */
  function Ordered(prev: seq<Student>, draws: seq<nat>): (r: seq<Student>)
    requires SwapIndices(draws, |prev|)
    ensures |r| == |prev|
  {
    MorningFirst(Shuffle(prev, draws))
  }

  lemma OrderedPermutes(prev: seq<Student>, draws: seq<nat>)
    requires SwapIndices(draws, |prev|)
    ensures multiset(Ordered(prev, draws)) == multiset(prev)
  {
    ShufflePermutes(prev, draws);
    MorningFirstPermutes(Shuffle(prev, draws));
  }

  /** One round, from the reordering on, keeps each invariant. */
  lemma OneRoundKeepsCounters(acts: seq<Activity>, seed: map<string, nat>, pick: Rule, target: nat,
                              prev: seq<Student>, counts: map<string, nat>, d: seq<nat>)
    requires SwapIndices(d, |prev|) && CountersMatch(acts, seed, prev, counts)
    ensures var next := Round(Ordered(prev, d), counts, pick, target); CountersMatch(acts, seed, next.0, next.1)
  {
    var ordered := Ordered(prev, d);
    OrderedPermutes(prev, d);
    PermutationKeepsCounters(acts, seed, prev, ordered, counts);
    RoundPrefixKeepsCounters(acts, seed, pick, target, ordered, counts, |ordered|);
  }

  lemma OneRoundKeepsSound(acts: seq<Activity>, pick: Rule, target: nat, prev: seq<Student>,
                           counts: map<string, nat>, d: seq<nat>)
    requires UniqueIds(acts) && RuleSound(pick, acts) && SwapIndices(d, |prev|) && AllSound(acts, target, prev)
    ensures AllSound(acts, target, Round(Ordered(prev, d), counts, pick, target).0)
  {
    var ordered := Ordered(prev, d);
    OrderedPermutes(prev, d);
    PermutationKeepsSound(acts, target, prev, ordered);
    RoundPrefixKeepsSound(acts, pick, target, ordered, counts, |ordered|);
  }

  lemma OneRoundKeepsCapacity(acts: seq<Activity>, seed: map<string, nat>, pick: Rule, target: nat,
                              prev: seq<Student>, counts: map<string, nat>, d: seq<nat>)
    requires UniqueIds(acts) && RuleSound(pick, acts) && SwapIndices(d, |prev|)
    requires WithinCapacity(acts, seed, counts)
    ensures WithinCapacity(acts, seed, Round(Ordered(prev, d), counts, pick, target).1)
  {
    RoundPrefixKeepsCapacity(acts, seed, pick, target, Ordered(prev, d), counts, |prev|);
  }

  lemma OneRoundKeepsCleared(pick: Rule, target: nat, prev: seq<Student>, counts: map<string, nat>,
                             d: seq<nat>)
    requires SwapIndices(d, |prev|)
    ensures multiset(ClearedAll(Round(Ordered(prev, d), counts, pick, target).0)) == multiset(ClearedAll(prev))
  {
    var ordered := Ordered(prev, d);
    OrderedPermutes(prev, d);
    ClearedAllPermutation(prev, ordered);
    var next := Round(ordered, counts, pick, target);
    RoundGrowth(ordered, counts, pick, target);
    assert ClearedAll(next.0) == ClearedAll(ordered);
  }

  /** Unfolding Rounds once. */
  lemma RoundsStep(ws: seq<Student>, counts: map<string, nat>, pick: Rule, target: nat,
                   draws: seq<seq<nat>>, r: nat)
    requires 0 < r <= |draws| && forall i | 0 <= i < |draws| :: SwapIndices(draws[i], |ws|)
    ensures var prev := Rounds(ws, counts, pick, target, draws, r - 1);
      Rounds(ws, counts, pick, target, draws, r) == Round(Ordered(prev.0, draws[r - 1]), prev.1, pick, target)
  {
  }

  /** After each round the counters match the holdings. */
  lemma {:induction false} RoundsKeepCounters(acts: seq<Activity>, seed: map<string, nat>, pick: Rule, target: nat,
                                              ws: seq<Student>, draws: seq<seq<nat>>, r: nat)
    requires r <= |draws| && forall i | 0 <= i < |draws| :: SwapIndices(draws[i], |ws|)
    requires CountersMatch(acts, seed, ws, seed)
    ensures var res := Rounds(ws, seed, pick, target, draws, r); CountersMatch(acts, seed, res.0, res.1)
  {
    if r > 0 {
      RoundsKeepCounters(acts, seed, pick, target, ws, draws, r - 1);
      var prev := Rounds(ws, seed, pick, target, draws, r - 1);
      OneRoundKeepsCounters(acts, seed, pick, target, prev.0, prev.1, draws[r - 1]);
      RoundsStep(ws, seed, pick, target, draws, r);
    }
  }

  /** After each round every working student is sound. */
  lemma {:induction false} RoundsKeepSound(acts: seq<Activity>, seed: map<string, nat>, pick: Rule, target: nat,
                                           ws: seq<Student>, draws: seq<seq<nat>>, r: nat)
    requires UniqueIds(acts) && RuleSound(pick, acts)
    requires r <= |draws| && forall i | 0 <= i < |draws| :: SwapIndices(draws[i], |ws|)
    requires AllSound(acts, target, ws)
    ensures AllSound(acts, target, Rounds(ws, seed, pick, target, draws, r).0)
  {
    if r > 0 {
      RoundsKeepSound(acts, seed, pick, target, ws, draws, r - 1);
      var prev := Rounds(ws, seed, pick, target, draws, r - 1);
      OneRoundKeepsSound(acts, pick, target, prev.0, prev.1, draws[r - 1]);
      RoundsStep(ws, seed, pick, target, draws, r);
    }
  }

  /** After each round every counter is within its capacity. */
  lemma {:induction false} RoundsKeepCapacity(acts: seq<Activity>, seed: map<string, nat>, pick: Rule, target: nat,
                                              ws: seq<Student>, draws: seq<seq<nat>>, r: nat)
    requires UniqueIds(acts) && RuleSound(pick, acts)
    requires r <= |draws| && forall i | 0 <= i < |draws| :: SwapIndices(draws[i], |ws|)
    requires WithinCapacity(acts, seed, seed)
    ensures WithinCapacity(acts, seed, Rounds(ws, seed, pick, target, draws, r).1)
  {
    if r > 0 {
      RoundsKeepCapacity(acts, seed, pick, target, ws, draws, r - 1);
      var prev := Rounds(ws, seed, pick, target, draws, r - 1);
      OneRoundKeepsCapacity(acts, seed, pick, target, prev.0, prev.1, draws[r - 1]);
      RoundsStep(ws, seed, pick, target, draws, r);
    }
  }

  /** The rounds change nothing about a student but its assignments. */
  lemma {:induction false} RoundsKeepCleared(seed: map<string, nat>, pick: Rule, target: nat,
                                             ws: seq<Student>, draws: seq<seq<nat>>, r: nat)
    requires r <= |draws| && forall i | 0 <= i < |draws| :: SwapIndices(draws[i], |ws|)
    ensures multiset(ClearedAll(Rounds(ws, seed, pick, target, draws, r).0)) == multiset(ClearedAll(ws))
  {
    if r > 0 {
      RoundsKeepCleared(seed, pick, target, ws, draws, r - 1);
      var prev := Rounds(ws, seed, pick, target, draws, r - 1);
      OneRoundKeepsCleared(pick, target, prev.0, prev.1, draws[r - 1]);
      RoundsStep(ws, seed, pick, target, draws, r);
    }
  }

  /** Who is in which group. */
  lemma GroupMembers(students: seq<Student>, letters: seq<string>)
    ensures forall s :: s in Inactive(students, letters) <==> s in students && s.classLetter !in letters
    ensures forall s :: s in LockedActive(students, letters) <==>
      s in students && s.classLetter in letters && s.isLocked
    ensures forall s :: s in UnlockedActive(students, letters) <==> s in students && Reallocatable(s, letters)
  {
    FilterMembers(InClasses(letters), students);
    FilterMembers(OutsideClasses(letters), students);
    FilterMembers(IsLocked, Active(students, letters));
    FilterMembers(IsUnlocked, Active(students, letters));
  }

  /** The merge and sort of App.tsx:461-462, whatever the rounds produced:
      a reordering of the held groups and the reallocated students, in
      which every student that is not reallocatable appears, and in which
      every reallocatable student is a reallocated one. */
  lemma MergeFacts(students: seq<Student>, letters: seq<string>, R: seq<Student>, leq: (string, string) -> bool)
    ensures var held := Inactive(students, letters) + LockedActive(students, letters);
      var r := SortByName(held + R, leq);
      && multiset(r) == multiset(held) + multiset(R)
      && (forall s | s in students && !Reallocatable(s, letters) :: s in r)
      && (forall s | s in r && Reallocatable(s, letters) :: s in R)
  {
    var held := Inactive(students, letters) + LockedActive(students, letters);
    var r := SortByName(held + R, leq);
    SortByNamePermutes(held + R, leq);
    GroupMembers(students, letters);
    forall s | s in students && !Reallocatable(s, letters) ensures s in r {
      assert s in held;
      assert s in multiset(r);
    }
    forall s | s in r && Reallocatable(s, letters) ensures s in R {
      assert s in multiset(held + R);
      assert s !in held;
    }
  }

  /** An instance nobody in ss holds is in no student's assignments. */
  lemma UnheldNowhere(ss: seq<Student>, id: string)
    requires Occurrences(ss, id) == 0
    ensures forall s | s in ss :: id !in s.assignedActivityIds
  {
    forall s | s in ss ensures id !in s.assignedActivityIds {
      var k :| 0 <= k < |ss| && ss[k] == s;
      OccurrencesBound(ss, k, id);
    }
  }

  /** The three groups partition the roster. */
  lemma GroupsPartition(students: seq<Student>, letters: seq<string>)
    ensures multiset(Inactive(students, letters)) + multiset(LockedActive(students, letters))
          + multiset(UnlockedActive(students, letters)) == multiset(students)
  {
    FilterPartition(InClasses(letters), OutsideClasses(letters), students);
    FilterPartition(IsLocked, IsUnlocked, Active(students, letters));
  }

  /** The state the rounds start from satisfies each invariant. */
  lemma WorkingStart(students: seq<Student>, acts: seq<Activity>, letters: seq<string>, target: nat)
    ensures var seed := Seed(acts, Inactive(students, letters) + LockedActive(students, letters));
      && CountersMatch(acts, seed, Working(students, letters), seed)
      && AllSound(acts, target, Working(students, letters))
      && WithinCapacity(acts, seed, seed)
    ensures multiset(ClearedAll(Working(students, letters))) == multiset(ClearedAll(UnlockedActive(students, letters)))
  {
    var seed := Seed(acts, Inactive(students, letters) + LockedActive(students, letters));
    var unlocked := UnlockedActive(students, letters);
    var ws0 := Working(students, letters);
    MorningFirstPermutes(ClearedAll(unlocked));
    ClearedAllPermutation(ClearedAll(unlocked), ws0);
    assert ClearedAll(ClearedAll(unlocked)) == ClearedAll(unlocked);
    forall p | 0 <= p < |acts| ensures Occurrences(ws0, acts[p].id) == 0 {
      OccurrencesCleared(unlocked, acts[p].id);
      OccurrencesPermutation(ClearedAll(unlocked), ws0, acts[p].id);
    }
    forall x | x in ws0 ensures SoundHolding(acts, target, x) {
      assert x in multiset(ClearedAll(unlocked));
      var k :| 0 <= k < |unlocked| && ClearedAll(unlocked)[k] == x;
    }
  }

  /** Every reallocated student is sound. */
  lemma ReallocatedSound(students: seq<Student>, acts: seq<Activity>, letters: seq<string>, target: nat,
                         draws: seq<seq<nat>>)
    requires UniqueIds(acts) && DrawsFit(draws, target, |UnlockedActive(students, letters)|)
    ensures AllSound(acts, target, Reallocated(students, acts, letters, target, draws))
  {
    var seed := Seed(acts, Inactive(students, letters) + LockedActive(students, letters));
    WorkingStart(students, acts, letters, target);
    ChoiceRuleSound(acts);
    RoundsKeepSound(acts, seed, ChoiceRule(acts), target, Working(students, letters), draws, target);
  }

  /** The reallocated students are the unlocked active students up to
      their assignments. */
  lemma ReallocatedCleared(students: seq<Student>, acts: seq<Activity>, letters: seq<string>, target: nat,
                           draws: seq<seq<nat>>)
    requires DrawsFit(draws, target, |UnlockedActive(students, letters)|)
    ensures multiset(ClearedAll(Reallocated(students, acts, letters, target, draws)))
         == multiset(ClearedAll(UnlockedActive(students, letters)))
  {
    var seed := Seed(acts, Inactive(students, letters) + LockedActive(students, letters));
    WorkingStart(students, acts, letters, target);
    RoundsKeepCleared(seed, ChoiceRule(acts), target, Working(students, letters), draws, target);
  }

  /** Together with the students that seeded the counters, the reallocated
      students stay within every capacity that was not already exceeded. */
  lemma ReallocatedCapacity(students: seq<Student>, acts: seq<Activity>, letters: seq<string>, target: nat,
                            draws: seq<seq<nat>>)
    requires UniqueIds(acts) && DrawsFit(draws, target, |UnlockedActive(students, letters)|)
    ensures forall p | 0 <= p < |acts| ::
      var held := Inactive(students, letters) + LockedActive(students, letters);
      Occurrences(held + Reallocated(students, acts, letters, target, draws), acts[p].id)
        <= Max(Occurrences(held, acts[p].id), acts[p].maxParticipants)
  {
    var held := Inactive(students, letters) + LockedActive(students, letters);
    var seed := Seed(acts, held);
    var ws0 := Working(students, letters);
    WorkingStart(students, acts, letters, target);
    ChoiceRuleSound(acts);
    RoundsKeepCounters(acts, seed, ChoiceRule(acts), target, ws0, draws, target);
    RoundsKeepCapacity(acts, seed, ChoiceRule(acts), target, ws0, draws, target);
    var final := Rounds(ws0, seed, ChoiceRule(acts), target, draws, target);
    forall p | 0 <= p < |acts|
      ensures Occurrences(held + final.0, acts[p].id) <= Max(Occurrences(held, acts[p].id), acts[p].maxParticipants)
    {
      OccurrencesAppend(held, final.0, acts[p].id);
      assert acts[p].id in InstanceIds(acts);
    }
  }

  /** Preconditions: a run refuses, leaving the roster as it is, exactly
      when there are no activities, no selected classes, or no student in
      the selected classes. */
  lemma AllocateRefuses(students: seq<Student>, acts: seq<Activity>, letters: seq<string>, target: nat,
                        draws: seq<seq<nat>>, leq: (string, string) -> bool)
    requires DrawsFit(draws, target, |UnlockedActive(students, letters)|)
    ensures Allocate(students, acts, letters, target, draws, leq).Refused? <==>
      (|acts| == 0 || |letters| == 0 || forall s | s in students :: s.classLetter !in letters)
  {
    FilterMembers(InClasses(letters), students);
    if forall s | s in students :: s.classLetter !in letters {
      FilterNone(InClasses(letters), students);
    } else {
      var s :| s in students && s.classLetter in letters;
      assert s in Active(students, letters);
    }
  }

  /** Capacity: no instance ends a run above its capacity unless the
      inactive and locked students already held it above. */
  lemma AllocateCapacity(students: seq<Student>, acts: seq<Activity>, letters: seq<string>, target: nat,
                         draws: seq<seq<nat>>, leq: (string, string) -> bool)
    requires UniqueIds(acts) && DrawsFit(draws, target, |UnlockedActive(students, letters)|)
    ensures Allocate(students, acts, letters, target, draws, leq).Allocated? ==>
      forall p | 0 <= p < |acts| ::
        Occurrences(Allocate(students, acts, letters, target, draws, leq).roster, acts[p].id)
          <= Max(Occurrences(Inactive(students, letters) + LockedActive(students, letters), acts[p].id),
                 acts[p].maxParticipants)
  {
    var out := Allocate(students, acts, letters, target, draws, leq);
    if out.Allocated? {
      var held := Inactive(students, letters) + LockedActive(students, letters);
      var R := Reallocated(students, acts, letters, target, draws);
      ReallocatedCapacity(students, acts, letters, target, draws);
      SortByNamePermutes(held + R, leq);
      forall p | 0 <= p < |acts| ensures Occurrences(out.roster, acts[p].id) == Occurrences(held + R, acts[p].id) {
        OccurrencesPermutation(out.roster, held + R, acts[p].id);
      }
    }
  }

  /** A student in an inactive class or a locked one reaches the result
      record for record; the result holds exactly the three groups. */
  lemma AllocateGroups(students: seq<Student>, acts: seq<Activity>, letters: seq<string>, target: nat,
                       draws: seq<seq<nat>>, leq: (string, string) -> bool)
    requires DrawsFit(draws, target, |UnlockedActive(students, letters)|)
    ensures Allocate(students, acts, letters, target, draws, leq).Allocated? ==>
      var r := Allocate(students, acts, letters, target, draws, leq).roster;
      && multiset(r) == multiset(Inactive(students, letters)) + multiset(LockedActive(students, letters))
                      + multiset(Reallocated(students, acts, letters, target, draws))
      && (forall s | s in students && !Reallocatable(s, letters) :: s in r)
  {
    if Allocate(students, acts, letters, target, draws, leq).Allocated? {
      MergeFacts(students, letters, Reallocated(students, acts, letters, target, draws), leq);
    }
  }

  /** Availability and no duplicate public id: every student the run
      reallocated holds at most `target` catalogue instances, only morning
      ones if it is morning-only, and no public id twice. */
  lemma AllocateSoundHoldings(students: seq<Student>, acts: seq<Activity>, letters: seq<string>, target: nat,
                              draws: seq<seq<nat>>, leq: (string, string) -> bool)
    requires UniqueIds(acts) && DrawsFit(draws, target, |UnlockedActive(students, letters)|)
    ensures Allocate(students, acts, letters, target, draws, leq).Allocated? ==>
      forall s | s in Allocate(students, acts, letters, target, draws, leq).roster && Reallocatable(s, letters) ::
        SoundHolding(acts, target, s)
  {
    if Allocate(students, acts, letters, target, draws, leq).Allocated? {
      MergeFacts(students, letters, Reallocated(students, acts, letters, target, draws), leq);
      ReallocatedSound(students, acts, letters, target, draws);
    }
  }

  /** The result is the input roster up to the assignments of the
      reallocated students, ordered by name when the comparator is a total
      preorder. */
  lemma AllocatePermutes(students: seq<Student>, acts: seq<Activity>, letters: seq<string>, target: nat,
                         draws: seq<seq<nat>>, leq: (string, string) -> bool)
    requires DrawsFit(draws, target, |UnlockedActive(students, letters)|)
    ensures Allocate(students, acts, letters, target, draws, leq).Allocated? ==>
      var r := Allocate(students, acts, letters, target, draws, leq).roster;
      && multiset(ClearedAll(r)) == multiset(ClearedAll(students))
      && |r| == |students|
      && (TotalPreorder(leq) ==> SortedByName(r, leq))
  {
    var out := Allocate(students, acts, letters, target, draws, leq);
    if out.Allocated? {
      ReallocatedCleared(students, acts, letters, target, draws);
      var I, L, U := Inactive(students, letters), LockedActive(students, letters), UnlockedActive(students, letters);
      var R := Reallocated(students, acts, letters, target, draws);
      SortByNamePermutes(I + L + R, leq);
      GroupsPartition(students, letters);
      ClearedAllPermutation(out.roster, I + L + R);
      ClearedAllAppend(I + L, R);
      ClearedAllAppend(I, L);
      ClearedAllAppend(I + L, U);
      ClearedAllPermutation(I + L + U, students);
      assert |out.roster| == |multiset(out.roster)| == |multiset(ClearedAll(out.roster))|
          == |multiset(ClearedAll(students))| == |students|;
      if TotalPreorder(leq) {
        SortByNameSorted(I + L + R, leq);
      }
    }
  }

  /** A locked or inactive holder that fills an instance blocks it for
      every reallocated student. */
  lemma FullInstanceBlocks(students: seq<Student>, acts: seq<Activity>, letters: seq<string>, target: nat,
                           draws: seq<seq<nat>>, leq: (string, string) -> bool, p: nat)
    requires UniqueIds(acts) && DrawsFit(draws, target, |UnlockedActive(students, letters)|)
    requires p < |acts|
    requires Occurrences(Inactive(students, letters) + LockedActive(students, letters), acts[p].id)
             >= acts[p].maxParticipants
    ensures Allocate(students, acts, letters, target, draws, leq).Allocated? ==>
      forall s | s in Allocate(students, acts, letters, target, draws, leq).roster && Reallocatable(s, letters) ::
        acts[p].id !in s.assignedActivityIds
  {
    if Allocate(students, acts, letters, target, draws, leq).Allocated? {
      var held := Inactive(students, letters) + LockedActive(students, letters);
      var R := Reallocated(students, acts, letters, target, draws);
      ReallocatedCapacity(students, acts, letters, target, draws);
      OccurrencesAppend(held, R, acts[p].id);
      UnheldNowhere(R, acts[p].id);
      MergeFacts(students, letters, R, leq);
    }
  }

  /** One seat, two students who both want it: after the round the first
      in the working order holds it, the second holds nothing, and the
      counter is at capacity. */
  lemma CompetingScenario(s1: Student, s2: Student, a: Activity)
    requires a.maxParticipants == 1 && a.timeSlot == V
    requires s1.priorities == [a.publicId] && s1.assignedActivityIds == []
    requires s2.priorities == [a.publicId] && s2.assignedActivityIds == []
    ensures var r := Round([s1, s2], map[a.id := 0], ChoiceRule([a]), 1);
      && r.0 == [s1.(assignedActivityIds := [a.id]), s2]
      && Count(r.1, a.id) == a.maxParticipants
  {
    var ws := [s1, s2];
    var c0: map<string, nat> := map[a.id := 0];
    var pick := ChoiceRule([a]);
    assert [a][1..] == [];
    FilterCons(HasPublicId(a.publicId), [a]);
    assert InstancesOf([a], a.publicId) == [a];
    assert !HoldsOffering(s1, [a], a.publicId);
    FilterCons(IsValidFor(s1, c0), [a]);
    assert ValidInstances(s1, [a], c0) == [a];
    assert pick(s1, c0) == Some(a);
    RoundPrefixStep(ws, c0, pick, 1, 1);
    var p1 := RoundPrefix(ws, c0, pick, 1, 1);
    assert RoundPrefix(ws, c0, pick, 1, 0) == (ws, c0);
    assert s1.assignedActivityIds + [a.id] == [a.id];
    assert Count(c0, a.id) == 0;
    assert ws[0 := s1.(assignedActivityIds := [a.id])] == [s1.(assignedActivityIds := [a.id]), s2];
    assert p1 == ([s1.(assignedActivityIds := [a.id]), s2], c0[a.id := 1]);
    var c1 := c0[a.id := 1];
    assert !HasCapacity(a, c1);
    assert !HoldsOffering(s2, [a], a.publicId);
    FilterCons(IsValidFor(s2, c1), [a]);
    assert ValidInstances(s2, [a], c1) == [];
    assert !Yields(s2, s2.priorities[0], [a], c1);
    ChooseNothing(s2, s2.priorities, [a], c1);
    assert pick(s2, c1) == None;
    RoundPrefixStep(ws, c0, pick, 1, 2);
  }
}
