/**
 * The allocation engine, runAllocation (App.tsx:356-464): a greedy,
 * round-based assignment of the unlocked students of the selected classes to
 * activity instances.
 *
 * The functions state what a run computes; RunAllocation and its helper
 * methods do it the way the handler does, with a counter dictionary, an
 * in-place shuffled working array and nested loops, and are proved equal to
 * the functions. engine_proofs.dfy proves what the result satisfies.
 */
module Allocation {
  import opened Roster
  import opened Seqs
  import opened Ordering
  import opened Occupancy
  import opened Constraints

  /** The three blocking messages of App.tsx:357-374. */
  datatype Refusal = NoActivities | NoClassesSelected | NoStudentsInSelection

  /** A run either replaces the roster or refuses, leaving it unchanged. */
  datatype Outcome = Allocated(roster: seq<Student>) | Refused(reason: Refusal)

  function InClasses(letters: seq<string>): Student -> bool
  {
    (s: Student) => s.classLetter in letters
  }

  function OutsideClasses(letters: seq<string>): Student -> bool
  {
    (s: Student) => s.classLetter !in letters
  }

  predicate IsLocked(s: Student) { s.isLocked }

  predicate IsUnlocked(s: Student) { !s.isLocked }

  /** The four groups of App.tsx:368-378. */
  function Active(students: seq<Student>, letters: seq<string>): seq<Student>
  {
    Filter(InClasses(letters), students)
  }

  function Inactive(students: seq<Student>, letters: seq<string>): seq<Student>
  {
    Filter(OutsideClasses(letters), students)
  }

  function LockedActive(students: seq<Student>, letters: seq<string>): seq<Student>
  {
    Filter(IsLocked, Active(students, letters))
  }

  function UnlockedActive(students: seq<Student>, letters: seq<string>): seq<Student>
  {
    Filter(IsUnlocked, Active(students, letters))
  }

  /** A student the run reallocates: in a selected class and not locked. */
  predicate Reallocatable(s: Student, letters: seq<string>)
  {
    s.classLetter in letters && !s.isLocked
  }

  /** What a student receives in its turn, given the current counters. */
  type Rule = (Student, map<string, nat>) -> Option<Activity>

  /** The rule of App.tsx:431-456 over the catalogue. */
  function ChoiceRule(acts: seq<Activity>): Rule
  {
    (s: Student, counts: map<string, nat>) => Choose(s, s.priorities, acts, counts)
  }

  /** One student's turn in a round (App.tsx:426-456): a student already
      holding `target` instances is skipped; otherwise the chosen instance,
      if any, is appended to its assignments and its counter incremented. */
  function Step(ws: seq<Student>, counts: map<string, nat>, pick: Rule, target: nat, k: nat)
    : (seq<Student>, map<string, nat>)
    requires k < |ws|
  {
    var s := ws[k];
    if |s.assignedActivityIds| >= target then (ws, counts)
    else match pick(s, counts)
      case None => (ws, counts)
      case Some(a) =>
        (ws[k := s.(assignedActivityIds := s.assignedActivityIds + [a.id])],
         counts[a.id := Count(counts, a.id) + 1])
  }

  /** The state after the first n students of the round have had their
      turn. */
  function RoundPrefix(ws: seq<Student>, counts: map<string, nat>, pick: Rule, target: nat, n: nat)
    : (r: (seq<Student>, map<string, nat>))
    requires n <= |ws|
    ensures |r.0| == |ws|
    decreases n
  {
    if n == 0 then (ws, counts)
    else
      var p := RoundPrefix(ws, counts, pick, target, n - 1);
      Step(p.0, p.1, pick, target, n - 1)
  }

  /** A whole round over the working list in its current order. */
  function Round(ws: seq<Student>, counts: map<string, nat>, pick: Rule, target: nat)
    : (r: (seq<Student>, map<string, nat>))
    ensures |r.0| == |ws|
  {
    RoundPrefix(ws, counts, pick, target, |ws|)
  }

  /** One Fisher-Yates pass over n students for each of the rounds. */
  predicate DrawsFit(draws: seq<seq<nat>>, rounds: nat, n: nat)
  {
    |draws| == rounds && forall r | 0 <= r < rounds :: SwapIndices(draws[r], n)
  }

  /** The state after r rounds, each of which shuffles the working list,
      moves the morning-only students to the front and lets everyone take
      a turn (App.tsx:415-458). */
  function Rounds(ws: seq<Student>, counts: map<string, nat>, pick: Rule, target: nat,
                  draws: seq<seq<nat>>, r: nat)
    : (res: (seq<Student>, map<string, nat>))
    requires r <= |draws| && forall i | 0 <= i < |draws| :: SwapIndices(draws[i], |ws|)
    ensures |res.0| == |ws|
  {
    if r == 0 then (ws, counts)
    else
      var prev := Rounds(ws, counts, pick, target, draws, r - 1);
      Round(MorningFirst(Shuffle(prev.0, draws[r - 1])), prev.1, pick, target)
  }

  /** The working list a run starts its rounds from: the unlocked active
      students with their assignments cleared, morning-only first
      (App.tsx:404-412). */
  function Working(students: seq<Student>, letters: seq<string>): (ws: seq<Student>)
    ensures |ws| == |UnlockedActive(students, letters)|
  {
    MorningFirst(ClearedAll(UnlockedActive(students, letters)))
  }

  /** The reallocated students after all rounds. */
  function Reallocated(students: seq<Student>, acts: seq<Activity>, letters: seq<string>, target: nat,
                       draws: seq<seq<nat>>): seq<Student>
    requires DrawsFit(draws, target, |UnlockedActive(students, letters)|)
  {
    var held := Inactive(students, letters) + LockedActive(students, letters);
    Rounds(Working(students, letters), Seed(acts, held), ChoiceRule(acts), target, draws, target).0
  }

  /** What a run does to the roster. */
  function Allocate(students: seq<Student>, acts: seq<Activity>, letters: seq<string>, target: nat,
                    draws: seq<seq<nat>>, leq: (string, string) -> bool): Outcome
    requires DrawsFit(draws, target, |UnlockedActive(students, letters)|)
  {
    if |acts| == 0 then Refused(NoActivities)
    else if |letters| == 0 then Refused(NoClassesSelected)
    else if |Active(students, letters)| == 0 then Refused(NoStudentsInSelection)
    else
      var held := Inactive(students, letters) + LockedActive(students, letters);
      Allocated(SortByName(held + Reallocated(students, acts, letters, target, draws), leq))
  }

  /** The priority scan of App.tsx:431-456, with its continue and break. */
  method PickInstance(s: Student, acts: seq<Activity>, counts: map<string, nat>) returns (choice: Option<Activity>)
    ensures choice == Choose(s, s.priorities, acts, counts)
  {
    var k := 0;
    while k < |s.priorities|
      invariant k <= |s.priorities|
      invariant Choose(s, s.priorities[k..], acts, counts) == Choose(s, s.priorities, acts, counts)
    {
      var wanted := s.priorities[k];
      var potential := InstancesOf(acts, wanted);
      var alreadyHas := exists a | a in potential :: a.id in s.assignedActivityIds;
      assert s.priorities[k..][1..] == s.priorities[k + 1..];
      if !alreadyHas {
        var valid := ValidInstances(s, potential, counts);
        if |valid| > 0 {
          return Some(valid[0]);
        }
      }
      k := k + 1;
    }
    return None;
  }

  /** One round over the working array (App.tsx:426-457). */
  method RunRound(ws: array<Student>, acts: seq<Activity>, counts0: map<string, nat>, target: nat)
    returns (counts: map<string, nat>)
    modifies ws
    ensures (ws[..], counts) == Round(old(ws[..]), counts0, ChoiceRule(acts), target)
  {
    counts := counts0;
    for k := 0 to ws.Length
      invariant (ws[..], counts) == RoundPrefix(old(ws[..]), counts0, ChoiceRule(acts), target, k)
    {
      var student := ws[k];
      if |student.assignedActivityIds| >= target {
        continue;
      }
      var choice := PickInstance(student, acts, counts);
      if choice.Some? {
        var chosen := choice.value;
        ws[k] := student.(assignedActivityIds := student.assignedActivityIds + [chosen.id]);
        counts := counts[chosen.id := Count(counts, chosen.id) + 1];
      }
    }
  }

  /** The counters of App.tsx:382-401, seeded from the inactive students
      and then the locked active ones. */
  method SeedCounts(acts: seq<Activity>, inactive: seq<Student>, locked: seq<Student>)
    returns (counts: map<string, nat>)
    ensures counts == Seed(acts, inactive + locked)
  {
    counts := InitCounts(acts);
    counts := CountHeld(counts, inactive);
    counts := CountHeld(counts, locked);
    forall id | id in counts ensures counts[id] == Seed(acts, inactive + locked)[id] {
      OccurrencesAppend(inactive, locked, id);
    }
  }

  /** runAllocation on an explicit roster: the selected class letters, the
      number of courses per student, one Fisher-Yates pass of swap indices
      per round and the name comparator are inputs. */
  method RunAllocation(students: seq<Student>, acts: seq<Activity>, letters: seq<string>, target: nat,
                       draws: seq<seq<nat>>, leq: (string, string) -> bool)
    returns (outcome: Outcome)
    requires DrawsFit(draws, target, |UnlockedActive(students, letters)|)
    ensures outcome == Allocate(students, acts, letters, target, draws, leq)
  {
    if |acts| == 0 {
      return Refused(NoActivities);
    }
    if |letters| == 0 {
      return Refused(NoClassesSelected);
    }
    var active := Filter(InClasses(letters), students);
    var inactive := Filter(OutsideClasses(letters), students);
    if |active| == 0 {
      return Refused(NoStudentsInSelection);
    }
    var locked := Filter(IsLocked, active);
    var unlocked := Filter(IsUnlocked, active);

    var counts := SeedCounts(acts, inactive, locked);
    var working := new Student[|unlocked|](k requires 0 <= k < |unlocked| => Cleared(unlocked[k]));
    assert working[..] == ClearedAll(unlocked);
    MoveMorningOnlyFirst(working);
    assert working[..] == Working(students, letters);
    counts := RunRounds(working, acts, counts, target, draws);
    assert working[..] == Reallocated(students, acts, letters, target, draws);
    outcome := Allocated(SortByName(inactive + locked + working[..], leq));
  }

  /** The round loop of App.tsx:415-458: shuffle, morning-only first, one
      turn per student, `target` times. */
  method RunRounds(working: array<Student>, acts: seq<Activity>, seed: map<string, nat>, target: nat,
                   draws: seq<seq<nat>>)
    returns (counts: map<string, nat>)
    requires DrawsFit(draws, target, working.Length)
    modifies working
    ensures (working[..], counts) == Rounds(old(working[..]), seed, ChoiceRule(acts), target, draws, target)
  {
    counts := seed;
    var round := 1;
    while round <= target
      invariant 1 <= round <= target + 1
      invariant (working[..], counts) == Rounds(old(working[..]), seed, ChoiceRule(acts), target, draws, round - 1)
    {
      FisherYates(working, draws[round - 1]);
      MoveMorningOnlyFirst(working);
      counts := RunRound(working, acts, counts, target);
      round := round + 1;
    }
  }
}
