/**
 * Sequence helpers shared by the model: JavaScript's Array.prototype.filter
 * and the facts about permutations the allocation proofs rest on.
 */
module Seqs {

  datatype Option<T> = None | Some(value: T)

  /** `s.filter(p)`: the elements of s satisfying p, in their order. */
  function Filter<T>(p: T -> bool, s: seq<T>): (r: seq<T>)
    ensures |r| <= |s|
  {
    if s == [] then [] else (if p(s[0]) then [s[0]] else []) + Filter(p, s[1..])
  }

  /** `s.find(p)`: the first element satisfying p, if any. */
  function Find<T>(p: T -> bool, s: seq<T>): (r: Option<T>)
    ensures r.None? <==> forall k | 0 <= k < |s| :: !p(s[k])
    ensures r.Some? ==> exists k | 0 <= k < |s| :: s[k] == r.value && p(s[k]) && forall j | 0 <= j < k :: !p(s[j])
  {
    if s == [] then None
    else if p(s[0]) then Some(s[0])
    else
      Find(p, s[1..])
  }

  lemma {:induction false} FilterAppend<T>(p: T -> bool, a: seq<T>, b: seq<T>)
    ensures Filter(p, a + b) == Filter(p, a) + Filter(p, b)
  {
    if a == [] {
      assert a + b == b;
    } else {
      assert (a + b)[1..] == a[1..] + b;
      FilterCons(p, a + b);
      FilterCons(p, a);
      FilterAppend(p, a[1..], b);
    }
  }

  /** Unfolding Filter once. */
  lemma FilterCons<T>(p: T -> bool, s: seq<T>)
    requires s != []
    ensures Filter(p, s) == (if p(s[0]) then [s[0]] else []) + Filter(p, s[1..])
  {
  }

  /** Filter keeps exactly the elements satisfying the predicate. */
  lemma {:induction false} FilterMembers<T>(p: T -> bool, s: seq<T>)
    ensures forall x :: x in Filter(p, s) <==> x in s && p(x)
  {
    if s != [] {
      FilterMembers(p, s[1..]);
      FilterCons(p, s);
      assert s == [s[0]] + s[1..];
    }
  }

  /** A filter and its complement split the sequence into two parts whose
      multisets add up to the whole. */
  lemma {:induction false} FilterPartition<T>(p: T -> bool, q: T -> bool, s: seq<T>)
    requires forall x :: q(x) <==> !p(x)
    ensures multiset(Filter(p, s)) + multiset(Filter(q, s)) == multiset(s)
  {
    if s != [] {
      FilterPartition(p, q, s[1..]);
      assert q(s[0]) <==> !p(s[0]);
      FilterPartitionStep(p, q, s);
      MultisetHead(s);
    }
  }

  /** The head goes to exactly one of the two filters. */
  lemma {:induction false} FilterPartitionStep<T>(p: T -> bool, q: T -> bool, s: seq<T>)
    requires s != [] && (q(s[0]) <==> !p(s[0]))
    ensures multiset(Filter(p, s)) + multiset(Filter(q, s))
         == multiset{s[0]} + (multiset(Filter(p, s[1..])) + multiset(Filter(q, s[1..])))
  {
    FilterHead(p, s);
    FilterHead(q, s);
  }

  /** A sequence's multiset is its head's plus its tail's. */
  lemma {:induction false} MultisetHead<T>(s: seq<T>)
    requires s != []
    ensures multiset(s) == multiset{s[0]} + multiset(s[1..])
  {
    assert s == [s[0]] + s[1..];
  }

  /** The head counts once in a filter it passes, and not at all otherwise. */
  lemma {:induction false} FilterHead<T>(p: T -> bool, s: seq<T>)
    requires s != []
    ensures multiset(Filter(p, s)) == (if p(s[0]) then multiset{s[0]} else multiset{}) + multiset(Filter(p, s[1..]))
  {
    FilterCons(p, s);
  }

  /** Filtering a sequence none of whose elements qualify gives nothing. */
  lemma {:induction false} FilterNone<T>(p: T -> bool, s: seq<T>)
    requires forall k | 0 <= k < |s| :: !p(s[k])
    ensures Filter(p, s) == []
  {
    if s != [] {
      FilterNone(p, s[1..]);
    }
  }

  /** Filtering a sequence all of whose elements qualify changes nothing. */
  lemma {:induction false} FilterAll<T>(p: T -> bool, s: seq<T>)
    requires forall k | 0 <= k < |s| :: p(s[k])
    ensures Filter(p, s) == s
  {
    if s != [] {
      FilterAll(p, s[1..]);
      assert s == [s[0]] + s[1..];
    }
  }

  /** The first element of a sequence occurs somewhere in any permutation
      of it, and removing the two occurrences leaves permutations. */
  lemma PermutationHead<T>(a: seq<T>, b: seq<T>) returns (k: nat)
    requires |a| > 0 && multiset(a) == multiset(b)
    ensures k < |b| && b[k] == a[0]
    ensures multiset(a[1..]) == multiset(b[..k] + b[k + 1..])
  {
    assert a[0] in multiset(b);
    k :| 0 <= k < |b| && b[k] == a[0];
    MultisetHead(a);
    MultisetAt(b, k);
    MultisetCancel(multiset(a[1..]), multiset(b[..k] + b[k + 1..]), a[0]);
  }

  /** A sequence's multiset is that of one element plus that of the rest. */
  lemma MultisetAt<T>(b: seq<T>, k: nat)
    requires k < |b|
    ensures multiset(b) == multiset{b[k]} + multiset(b[..k] + b[k + 1..])
  {
    assert b == b[..k] + [b[k]] + b[k + 1..];
  }

  /** The same element can be cancelled from both sides of a multiset equation. */
  lemma MultisetCancel<T>(m: multiset<T>, n: multiset<T>, x: T)
    requires multiset{x} + m == multiset{x} + n
    ensures m == n
  {
    forall y ensures m[y] == n[y] {
      assert (multiset{x} + m)[y] == (multiset{x} + n)[y];
    }
  }
}
