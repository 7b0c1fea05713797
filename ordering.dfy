/**
 * The three orderings the allocation run imposes on students
 * (App.tsx:406-423, 461-462): the Fisher-Yates shuffle of the working list,
 * the stable "morning-only first" sort, and the final sort by name.
 *
 * Math.random is injected: one Fisher-Yates pass over n cells is given as n
 * swap indices, index i holding the j <= i that Math.floor(Math.random() *
 * (i + 1)) would have produced; index 0 is never used by the pass.
 * localeCompare is injected as a comparator `leq` on names.
 */
module Ordering {
  import opened Roster
  import opened Seqs

  /** Swap indices for one Fisher-Yates pass over n cells. */
  predicate SwapIndices(draws: seq<nat>, n: nat)
  {
    |draws| == n && forall i | 0 <= i < n :: draws[i] <= i
  }

  function Swap<T>(s: seq<T>, i: nat, j: nat): (r: seq<T>)
    requires i < |s| && j < |s|
    ensures |r| == |s| && r[i] == s[j] && r[j] == s[i]
  {
    s[i := s[j]][j := s[i]]
  }

  lemma SwapPermutes<T>(s: seq<T>, i: nat, j: nat)
    requires i < |s| && j < |s|
    ensures multiset(Swap(s, i, j)) == multiset(s)
  {
  }

  /** The cells after the pass has swapped positions i, i - 1, ..., 1 (in
      that order) of s; the positions above i are already settled. */
  function ShuffleDown<T>(s: seq<T>, draws: seq<nat>, i: nat): (r: seq<T>)
    requires i < |s| && SwapIndices(draws, |s|)
    ensures |r| == |s|
    decreases i
  {
    if i == 0 then s else ShuffleDown(Swap(s, i, draws[i]), draws, i - 1)
  }

  /** One Fisher-Yates pass: `for (i = n - 1; i > 0; i--) swap(i, j)`. */
  function Shuffle<T>(s: seq<T>, draws: seq<nat>): (r: seq<T>)
    requires SwapIndices(draws, |s|)
    ensures |r| == |s|
  {
    if |s| == 0 then s else ShuffleDown(s, draws, |s| - 1)
  }

  lemma {:induction false} ShuffleDownPermutes<T>(s: seq<T>, draws: seq<nat>, i: nat)
    requires i < |s| && SwapIndices(draws, |s|)
    ensures multiset(ShuffleDown(s, draws, i)) == multiset(s)
    decreases i
  {
    if i > 0 {
      SwapPermutes(s, i, draws[i]);
      ShuffleDownPermutes(Swap(s, i, draws[i]), draws, i - 1);
    }
  }

  /** The shuffle only reorders. */
  lemma ShufflePermutes<T>(s: seq<T>, draws: seq<nat>)
    requires SwapIndices(draws, |s|)
    ensures multiset(Shuffle(s, draws)) == multiset(s)
  {
    if |s| > 0 {
      ShuffleDownPermutes(s, draws, |s| - 1);
    }
  }

  /** The in-place shuffle of App.tsx:418-421 on the working array. */
  method FisherYates<T>(a: array<T>, draws: seq<nat>)
    requires SwapIndices(draws, a.Length)
    modifies a
    ensures a[..] == Shuffle(old(a[..]), draws)
  {
    if a.Length == 0 {
      return;
    }
    var i := a.Length - 1;
    while i > 0
      invariant 0 <= i < a.Length
      invariant ShuffleDown(a[..], draws, i) == Shuffle(old(a[..]), draws)
    {
      var j := draws[i];
      ghost var before := a[..];
      var t := a[i];
      a[i] := a[j];
      a[j] := t;
      assert a[..] == Swap(before, i, j);
      i := i - 1;
    }
  }

  /** Every permutation of s is produced by some draws: no order of the
      working list is out of reach of the shuffle. */
  lemma {:induction false} ShuffleReachesEveryOrder<T>(s: seq<T>, t: seq<T>) returns (draws: seq<nat>)
    requires multiset(s) == multiset(t)
    ensures SwapIndices(draws, |s|) && Shuffle(s, draws) == t
  {
    assert |s| == |multiset(s)| == |multiset(t)| == |t|;
    if |s| == 0 {
      draws := [];
    } else {
      assert s[..|s|] == s && t[..|t|] == t;
      draws := ReachDown(s, t, |s| - 1, seq(|s|, k => 0));
    }
  }

  /** Helper of ShuffleReachesEveryOrder: the draws above i are kept, and
      those at i and below are chosen so that the pass over positions
      i, ..., 1 turns s into t. */
  lemma {:induction false} ReachDown<T>(s: seq<T>, t: seq<T>, i: nat, above: seq<nat>) returns (draws: seq<nat>)
    requires i < |s| == |t| == |above|
    requires multiset(s[..i + 1]) == multiset(t[..i + 1])
    requires s[i + 1..] == t[i + 1..]
    requires forall k | 0 <= k < |s| :: above[k] <= k
    ensures SwapIndices(draws, |s|) && ShuffleDown(s, draws, i) == t
    ensures forall k | i < k < |s| :: draws[k] == above[k]
    decreases i
  {
    if i == 0 {
      draws := above[0 := 0];
      assert s[..1] == [s[0]] && t[..1] == [t[0]];
      assert multiset{s[0]} == multiset{t[0]};
      assert s == t by {
        forall k | 0 <= k < |s| ensures s[k] == t[k] {
          if k > 0 {
            assert s[1..][k - 1] == t[1..][k - 1];
          }
        }
      }
    } else {
      var j := PermutationLast(s[..i + 1], t[..i + 1]);
      var s' := Swap(s, i, j);
      SwapSettles(s, t, i, j);
      var d := above[i := j];
      draws := ReachDown(s', t, i - 1, d);
      assert draws[i] == j;
    }
  }

  /** Swapping the element t[i] into position i of s settles that
      position: what remains below i is still a permutation of t's. */
  lemma SwapSettles<T>(s: seq<T>, t: seq<T>, i: nat, j: nat)
    requires 0 < i < |s| == |t| && j <= i
    requires multiset(s[..i + 1]) == multiset(t[..i + 1])
    requires s[i + 1..] == t[i + 1..]
    requires s[j] == t[i]
    ensures multiset(Swap(s, i, j)[..i]) == multiset(t[..i])
    ensures Swap(s, i, j)[i..] == t[i..]
  {
    var s' := Swap(s, i, j);
    var sp := Swap(s[..i + 1], i, j);
    assert sp == s'[..i + 1];
    assert sp[..i] == s'[..i];
    assert t[..i + 1][..i] == t[..i];
    Removal(sp, t[..i + 1]);
    forall k | i <= k < |s| ensures s'[k] == t[k] {
      if k > i {
        assert s[i + 1..][k - i - 1] == t[i + 1..][k - i - 1];
      }
    }
  }

  /** The last element of a permutation occurs in the other sequence. */
  lemma PermutationLast<T>(a: seq<T>, b: seq<T>) returns (j: nat)
    requires |a| > 0 && |a| == |b| && multiset(a) == multiset(b)
    ensures j < |a| && a[j] == b[|b| - 1]
  {
    assert |a| == |multiset(a)| == |multiset(b)| == |b|;
    assert b[|b| - 1] in multiset(a);
    j :| 0 <= j < |a| && a[j] == b[|b| - 1];
  }

  /** Two permutations that agree on their last element are permutations
      without it. */
  lemma Removal<T>(a: seq<T>, b: seq<T>)
    requires |a| > 0 && |a| == |b| && multiset(a) == multiset(b) && a[|a| - 1] == b[|b| - 1]
    ensures multiset(a[..|a| - 1]) == multiset(b[..|b| - 1])
  {
    var n := |a| - 1;
    assert a == a[..n] + [a[n]];
    assert b == b[..n] + [b[n]];
    forall x ensures multiset(a[..n])[x] == multiset(b[..n])[x] {
      assert multiset(a)[x] == multiset(b)[x];
    }
  }

  /** The morning-only students of ss, in their order. */
  function MorningOnes(ss: seq<Student>): (r: seq<Student>)
    ensures |r| <= |ss|
  {
    if ss == [] then [] else (if ss[0].isMorningOnly then [ss[0]] else []) + MorningOnes(ss[1..])
  }

  /** The other students of ss, in their order. */
  function Others(ss: seq<Student>): (r: seq<Student>)
    ensures |r| <= |ss|
  {
    if ss == [] then [] else (if ss[0].isMorningOnly then [] else [ss[0]]) + Others(ss[1..])
  }

  /** The two groups together are as long as ss. */
  lemma {:induction false} MorningLength(ss: seq<Student>)
    ensures |MorningOnes(ss)| + |Others(ss)| == |ss|
  {
    if ss != [] {
      MorningLength(ss[1..]);
    }
  }

  /** The two groups split ss. */
  lemma {:induction false} MorningSplit(ss: seq<Student>)
    ensures multiset(MorningOnes(ss)) + multiset(Others(ss)) == multiset(ss)
  {
    if ss != [] {
      MorningSplit(ss[1..]);
      MorningCons(ss);
      var x := if ss[0].isMorningOnly then [ss[0]] else [];
      var y := if ss[0].isMorningOnly then [] else [ss[0]];
      assert multiset(x) + multiset(y) == multiset{ss[0]};
      assert multiset(MorningOnes(ss)) == multiset(x) + multiset(MorningOnes(ss[1..]));
      assert multiset(Others(ss)) == multiset(y) + multiset(Others(ss[1..]));
      assert ss == [ss[0]] + ss[1..];
      assert multiset(ss) == multiset{ss[0]} + multiset(ss[1..]);
    }
  }

  /** Membership in the two groups. */
  lemma {:induction false} MorningMembers(ss: seq<Student>)
    ensures forall k | 0 <= k < |MorningOnes(ss)| :: MorningOnes(ss)[k].isMorningOnly
    ensures forall k | 0 <= k < |Others(ss)| :: !Others(ss)[k].isMorningOnly
  {
    if ss != [] {
      MorningMembers(ss[1..]);
      MorningCons(ss);
    }
  }

  lemma MorningCons(ss: seq<Student>)
    requires ss != []
    ensures MorningOnes(ss) == (if ss[0].isMorningOnly then [ss[0]] else []) + MorningOnes(ss[1..])
    ensures Others(ss) == (if ss[0].isMorningOnly then [] else [ss[0]]) + Others(ss[1..])
  {
  }

  lemma {:induction false} MorningAppend(a: seq<Student>, b: seq<Student>)
    ensures MorningOnes(a + b) == MorningOnes(a) + MorningOnes(b)
    ensures Others(a + b) == Others(a) + Others(b)
  {
    if a == [] {
      assert a + b == b;
    } else {
      assert (a + b)[1..] == a[1..] + b;
      MorningCons(a + b);
      MorningCons(a);
      MorningAppend(a[1..], b);
    }
  }

  /** A group of only morning-only students is its own morning group and
      has no other students. */
  lemma {:induction false} MorningUniform(ss: seq<Student>)
    requires forall k | 0 <= k < |ss| :: ss[k].isMorningOnly
    ensures MorningOnes(ss) == ss && Others(ss) == []
  {
    if ss != [] {
      assert forall k | 0 <= k < |ss[1..]| :: ss[1..][k] == ss[k + 1];
      MorningUniform(ss[1..]);
      MorningCons(ss);
      assert ss == [ss[0]] + ss[1..];
    }
  }

  /** And a group with no morning-only student is its own other group. */
  lemma {:induction false} OthersUniform(ss: seq<Student>)
    requires forall k | 0 <= k < |ss| :: !ss[k].isMorningOnly
    ensures Others(ss) == ss && MorningOnes(ss) == []
  {
    if ss != [] {
      assert forall k | 0 <= k < |ss[1..]| :: ss[1..][k] == ss[k + 1];
      OthersUniform(ss[1..]);
      MorningCons(ss);
      assert ss == [ss[0]] + ss[1..];
    }
  }

  /** The stable sort with the comparator of App.tsx:408-412 and 423: a
      stable sort on a two-valued key is a stable partition. */
  function MorningFirst(ss: seq<Student>): (r: seq<Student>)
    ensures |r| == |ss|
  {
    MorningLength(ss);
    MorningOnes(ss) + Others(ss)
  }

  /** MorningFirst only reorders. */
  lemma MorningFirstPermutes(ss: seq<Student>)
    ensures multiset(MorningFirst(ss)) == multiset(ss)
  {
    MorningSplit(ss);
  }

  /** MorningFirst puts every morning-only student ahead of every other
      one, and keeps the order within each group. */
  lemma MorningFirstOrder(ss: seq<Student>)
    ensures forall i, j | 0 <= i < j < |MorningFirst(ss)| && MorningFirst(ss)[j].isMorningOnly ::
      MorningFirst(ss)[i].isMorningOnly
    ensures MorningOnes(MorningFirst(ss)) == MorningOnes(ss)
    ensures Others(MorningFirst(ss)) == Others(ss)
  {
    var front, back := MorningOnes(ss), Others(ss);
    MorningMembers(ss);
    MorningAppend(front, back);
    MorningUniform(front);
    OthersUniform(back);
  }

  /** The in-place re-sort of the working array (App.tsx:408-412, 423). */
  method MoveMorningOnlyFirst(a: array<Student>)
    modifies a
    ensures a[..] == MorningFirst(old(a[..]))
  {
    ghost var orig := a[..];
    var front, back := [], [];
    for k := 0 to a.Length
      invariant a[..] == orig
      invariant front == MorningOnes(orig[..k])
      invariant back == Others(orig[..k])
    {
      MorningAppend(orig[..k], [orig[k]]);
      assert orig[..k + 1] == orig[..k] + [orig[k]];
      if a[k].isMorningOnly {
        front := front + [a[k]];
      } else {
        back := back + [a[k]];
      }
    }
    assert orig[..a.Length] == orig;
    var sorted := front + back;
    assert sorted == MorningFirst(orig);
    forall k | 0 <= k < a.Length {
      a[k] := sorted[k];
    }
    assert a[..] == sorted;
  }

  /** `leq` is total and transitive: what a sort comparator must be. */
  ghost predicate TotalPreorder(leq: (string, string) -> bool)
  {
    && (forall x, y :: leq(x, y) || leq(y, x))
    && (forall x, y, z :: leq(x, y) && leq(y, z) ==> leq(x, z))
  }

  ghost predicate SortedByName(ss: seq<Student>, leq: (string, string) -> bool)
  {
    forall i, j | 0 <= i < j < |ss| :: leq(ss[i].name, ss[j].name)
  }

  /** Inserts x ahead of the first student it does not come after. */
  function Insert(x: Student, t: seq<Student>, leq: (string, string) -> bool): (r: seq<Student>)
    ensures |r| == |t| + 1
  {
    if t == [] then [x]
    else if leq(x.name, t[0].name) then [x] + t
    else [t[0]] + Insert(x, t[1..], leq)
  }

  lemma {:induction false} InsertPermutes(x: Student, t: seq<Student>, leq: (string, string) -> bool)
    ensures multiset(Insert(x, t, leq)) == multiset(t) + multiset{x}
  {
    if t != [] && !leq(x.name, t[0].name) {
      InsertPermutes(x, t[1..], leq);
      assert t == [t[0]] + t[1..];
    }
  }

  /** `students.sort((a, b) => a.name.localeCompare(b.name))`, as a stable
      insertion sort (App.tsx:462). */
  function SortByName(ss: seq<Student>, leq: (string, string) -> bool): (r: seq<Student>)
    ensures |r| == |ss|
  {
    if ss == [] then []
    else Insert(ss[0], SortByName(ss[1..], leq), leq)
  }

  /** Sorting only reorders the roster. */
  lemma {:induction false} SortByNamePermutes(ss: seq<Student>, leq: (string, string) -> bool)
    ensures multiset(SortByName(ss, leq)) == multiset(ss)
  {
    if ss != [] {
      SortByNamePermutes(ss[1..], leq);
      InsertPermutes(ss[0], SortByName(ss[1..], leq), leq);
      assert ss == [ss[0]] + ss[1..];
    }
  }

  lemma {:induction false} InsertSorted(x: Student, t: seq<Student>, leq: (string, string) -> bool)
    requires TotalPreorder(leq) && SortedByName(t, leq)
    ensures SortedByName(Insert(x, t, leq), leq)
  {
    if t != [] && !leq(x.name, t[0].name) {
      var rest := Insert(x, t[1..], leq);
      InsertSorted(x, t[1..], leq);
      InsertPermutes(x, t[1..], leq);
      forall k | 0 <= k < |rest| ensures leq(t[0].name, rest[k].name) {
        assert rest[k] in multiset(rest);
        if rest[k] != x {
          assert rest[k] in t[1..];
        }
      }
    } else if t != [] {
      assert leq(x.name, t[0].name);
    }
  }

  /** Sorting by a total preorder yields a roster ordered by name. */
  lemma {:induction false} SortByNameSorted(ss: seq<Student>, leq: (string, string) -> bool)
    requires TotalPreorder(leq)
    ensures SortedByName(SortByName(ss, leq), leq)
  {
    if ss != [] {
      SortByNameSorted(ss[1..], leq);
      InsertSorted(ss[0], SortByName(ss[1..], leq), leq);
    }
  }
}
