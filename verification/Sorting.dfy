/** Stable sorting by a total preorder, and the uniqueness of sorted arrangements. */
module Sorting {
  ghost predicate TotalPreorder<T(!new)>(leq: (T, T) -> bool) {
    && (forall a, b :: leq(a, b) || leq(b, a))
    && (forall a, b, c :: leq(a, b) && leq(b, c) ==> leq(a, c))
  }

  ghost predicate Sorted<T>(s: seq<T>, leq: (T, T) -> bool) {
    forall i, j :: 0 <= i < j < |s| ==> leq(s[i], s[j])
  }

  /** No two positions are tied under leq. */
  ghost predicate NoTies<T>(s: seq<T>, leq: (T, T) -> bool) {
    forall i, j :: 0 <= i < j < |s| ==> !(leq(s[i], s[j]) && leq(s[j], s[i]))
  }

  function Insert<T>(x: T, s: seq<T>, leq: (T, T) -> bool): (r: seq<T>)
    ensures |r| == |s| + 1
  {
    if s == [] || leq(x, s[0]) then [x] + s else [s[0]] + Insert(x, s[1..], leq)
  }

  /** Rust's `sort_by`: ascending, and equal elements keep their order. */
  function Sort<T>(s: seq<T>, leq: (T, T) -> bool): (r: seq<T>)
    ensures |r| == |s|
  {
    if s == [] then [] else Insert(s[0], Sort(s[1..], leq), leq)
  }

  lemma {:induction false} InsertPermutes<T>(x: T, s: seq<T>, leq: (T, T) -> bool)
    ensures multiset(Insert(x, s, leq)) == multiset{x} + multiset(s)
  {
    if s == [] || leq(x, s[0]) {
    } else {
      InsertPermutes(x, s[1..], leq);
      assert s == [s[0]] + s[1..];
    }
  }

  lemma {:induction false} SortPermutes<T>(s: seq<T>, leq: (T, T) -> bool)
    ensures multiset(Sort(s, leq)) == multiset(s)
  {
    if s != [] {
      SortPermutes(s[1..], leq);
      InsertPermutes(s[0], Sort(s[1..], leq), leq);
      assert s == [s[0]] + s[1..];
    }
  }

  lemma {:induction false} InsertSorts<T(!new)>(x: T, s: seq<T>, leq: (T, T) -> bool)
    requires TotalPreorder(leq) && Sorted(s, leq)
    ensures Sorted(Insert(x, s, leq), leq)
  {
    if s == [] || leq(x, s[0]) {
      forall j | 0 <= j < |s| ensures leq(x, s[j]) {
        assert j == 0 || leq(s[0], s[j]);
      }
    } else {
      InsertSorts(x, s[1..], leq);
      InsertPermutes(x, s[1..], leq);
      var r := Insert(x, s[1..], leq);
      forall j | 0 <= j < |r| ensures leq(s[0], r[j]) {
        assert r[j] in multiset(r);
        assert r[j] == x || r[j] in s[1..];
      }
    }
  }

  lemma {:induction false} SortSorts<T(!new)>(s: seq<T>, leq: (T, T) -> bool)
    requires TotalPreorder(leq)
    ensures Sorted(Sort(s, leq), leq)
  {
    if s != [] {
      SortSorts(s[1..], leq);
      InsertSorts(s[0], Sort(s[1..], leq), leq);
    }
  }

  lemma SortedHeadsAgree<T(!new)>(s: seq<T>, t: seq<T>, leq: (T, T) -> bool)
    requires TotalPreorder(leq) && s != [] && t != []
    requires Sorted(s, leq) && Sorted(t, leq) && NoTies(s, leq)
    requires multiset(s) == multiset(t)
    ensures s[0] == t[0]
  {
    assert t[0] in multiset(s) && s[0] in multiset(t);
    var i :| 0 <= i < |s| && s[i] == t[0];
    var j :| 0 <= j < |t| && t[j] == s[0];
  }

  lemma TailElements<T>(s: seq<T>)
    requires s != []
    ensures multiset(s[1..]) == multiset(s) - multiset{s[0]}
  {
    assert s == [s[0]] + s[1..];
  }

  /** Two sorted arrangements of the same elements agree when no two elements are tied. */
  lemma {:induction false} SortedUnique<T(!new)>(s: seq<T>, t: seq<T>, leq: (T, T) -> bool)
    requires TotalPreorder(leq)
    requires Sorted(s, leq) && Sorted(t, leq) && NoTies(s, leq)
    requires multiset(s) == multiset(t)
    ensures s == t
  {
    assert |s| == |multiset(s)| == |multiset(t)| == |t|;
    if s != [] {
      SortedHeadsAgree(s, t, leq);
      TailElements(s);
      TailElements(t);
      SortedUnique(s[1..], t[1..], leq);
      assert s == [s[0]] + s[1..] && t == [t[0]] + t[1..];
    }
  }

  /** Sorting something already sorted changes nothing. */
  lemma {:induction false} SortFixpoint<T(!new)>(s: seq<T>, leq: (T, T) -> bool)
    requires Sorted(s, leq)
    ensures Sort(s, leq) == s
  {
    if s != [] {
      SortFixpoint(s[1..], leq);
      assert s == [s[0]] + s[1..];
    }
  }

  /** Ties among the elements of a sorted sequence show up between neighbours. */
  lemma {:induction false} TiesAreAdjacent<T(!new)>(s: seq<T>, leq: (T, T) -> bool)
    requires TotalPreorder(leq) && Sorted(s, leq)
    requires forall i :: 0 <= i < |s| - 1 ==> !leq(s[i + 1], s[i])
    ensures NoTies(s, leq)
  {
    forall i, j | 0 <= i < j < |s| ensures !leq(s[j], s[i]) {
      assert !leq(s[i + 1], s[i]);
      assert i + 1 == j || leq(s[i + 1], s[j]);
    }
  }

  // -------- permutations --------

  /** p lists 0, ..., n-1 in some order. */
  ghost predicate Permutation(p: seq<nat>, n: nat) {
    && |p| == n
    && (forall i :: 0 <= i < n ==> p[i] < n)
    && (forall i, j :: 0 <= i < j < n ==> p[i] != p[j])
  }

  /** t without its element at k. */
  function Without<T>(t: seq<T>, k: nat): (r: seq<T>)
    requires k < |t|
    ensures |r| == |t| - 1
  {
    t[..k] + t[k + 1..]
  }

  lemma WithoutElements<T>(t: seq<T>, k: nat)
    requires k < |t|
    ensures multiset(Without(t, k)) == multiset(t) - multiset{t[k]}
  {
    assert t == t[..k] + [t[k]] + t[k + 1..];
  }

  /** A permutation of n positions, made to skip position k, extended by k itself. */
  function SkipThenEnd(q: seq<nat>, k: nat): (p: seq<nat>) {
    seq(|q|, i requires 0 <= i < |q| => if q[i] < k then q[i] else q[i] + 1) + [k]
  }

  lemma SkipThenEndMatches<T>(s: seq<T>, t: seq<T>, q: seq<nat>, k: nat)
    requires |s| == |t| == |q| + 1 && Permutation(q, |q|) && k <= |q|
    requires t[k] == s[|q|]
    requires forall i :: 0 <= i < |q| ==> s[i] == Without(t, k)[q[i]]
    ensures Permutation(SkipThenEnd(q, k), |s|)
    ensures forall i :: 0 <= i < |s| ==> s[i] == t[SkipThenEnd(q, k)[i]]
  {
  }

  /** Sequences with the same elements are matched by a permutation. */
  lemma {:induction false} MatchingPermutation<T>(s: seq<T>, t: seq<T>) returns (p: seq<nat>)
    requires multiset(s) == multiset(t)
    ensures |s| == |t| && Permutation(p, |s|)
    ensures forall i :: 0 <= i < |s| ==> s[i] == t[p[i]]
  {
    assert |s| == |multiset(s)| == |multiset(t)| == |t|;
    if s == [] { return []; }
    var n := |s| - 1;
    assert s[n] in multiset(t);
    var k :| 0 <= k < |t| && t[k] == s[n];
    WithoutElements(t, k);
    WithoutElements(s, n);
    var q := MatchingPermutation(Without(s, n), Without(t, k));
    p := SkipThenEnd(q, k);
    SkipThenEndMatches(s, t, q, k);
  }

  /** Rearranging by a permutation keeps the elements. */
  lemma {:induction false} PermutationKeepsElements<T>(s: seq<T>, t: seq<T>, p: seq<nat>)
    requires |s| == |t| && Permutation(p, |s|)
    requires forall i :: 0 <= i < |s| ==> s[i] == t[p[i]]
    ensures multiset(s) == multiset(t)
  {
    if s == [] {
      assert t == [];
    } else {
      var n := |s| - 1;
      var k := p[n];
      var rest := Without(t, k);
      var q: seq<nat> := seq(n, i requires 0 <= i < n => if p[i] < k then p[i] else p[i] - 1);
      forall i | 0 <= i < n ensures q[i] < n && s[..n][i] == rest[q[i]] {
        assert p[i] != p[n];
      }
      PermutationKeepsElements(s[..n], rest, q);
      WithoutElements(t, k);
      assert s == s[..n] + [s[n]];
    }
  }

  // -------- ties --------

  /** Some element is followed by one it is tied with. */
  ghost predicate AdjacentTie<T>(s: seq<T>, leq: (T, T) -> bool) {
    exists i :: 0 <= i < |s| - 1 && leq(s[i + 1], s[i])
  }

  lemma NoTiesRearranged<T>(s: seq<T>, t: seq<T>, leq: (T, T) -> bool)
    requires multiset(s) == multiset(t) && NoTies(s, leq)
    ensures NoTies(t, leq)
  {
    var p := MatchingPermutation(t, s);
    forall i, j | 0 <= i < j < |t| ensures !(leq(t[i], t[j]) && leq(t[j], t[i])) {
      assert p[i] != p[j];
      assert p[i] < p[j] || p[j] < p[i];
    }
  }

  /** After sorting, neighbours are tied exactly when some two elements were tied before. */
  lemma SortRevealsTies<T(!new)>(s: seq<T>, leq: (T, T) -> bool)
    requires TotalPreorder(leq)
    ensures AdjacentTie(Sort(s, leq), leq) <==> !NoTies(s, leq)
  {
    var t := Sort(s, leq);
    SortSorts(s, leq);
    SortPermutes(s, leq);
    if NoTies(s, leq) {
      NoTiesRearranged(s, t, leq);
      forall i | 0 <= i < |t| - 1 ensures !leq(t[i + 1], t[i]) {
        assert leq(t[i], t[i + 1]);
      }
    } else if !AdjacentTie(t, leq) {
      TiesAreAdjacent(t, leq);
      NoTiesRearranged(t, s, leq);
    }
  }

  /** Sorting elements without ties forgets the order they came in. */
  lemma SortForgetsOrder<T(!new)>(s: seq<T>, t: seq<T>, leq: (T, T) -> bool)
    requires TotalPreorder(leq) && multiset(s) == multiset(t) && NoTies(s, leq)
    ensures Sort(s, leq) == Sort(t, leq)
  {
    SortSorts(s, leq);
    SortSorts(t, leq);
    SortPermutes(s, leq);
    SortPermutes(t, leq);
    NoTiesRearranged(s, Sort(s, leq), leq);
    SortedUnique(Sort(s, leq), Sort(t, leq), leq);
  }

  // -------- sequences without repetitions --------

  ghost predicate NoRepeats<T>(s: seq<T>) {
    forall i, j :: 0 <= i < j < |s| ==> s[i] != s[j]
  }

  lemma {:induction false} Multiplicity<T>(s: seq<T>, x: T)
    requires NoRepeats(s)
    ensures multiset(s)[x] == if x in s then 1 else 0
  {
    if s != [] {
      var n := |s| - 1;
      assert s == s[..n] + [s[n]];
      Multiplicity(s[..n], x);
    }
  }

  /** Without repetitions, the same members are the same elements. */
  lemma SameMembersSameElements<T(!new)>(s: seq<T>, t: seq<T>)
    requires NoRepeats(s) && NoRepeats(t)
    requires forall x :: x in s <==> x in t
    ensures multiset(s) == multiset(t)
  {
    forall x ensures multiset(s)[x] == multiset(t)[x] {
      Multiplicity(s, x);
      Multiplicity(t, x);
    }
  }

  lemma SameElementsNoRepeats<T>(s: seq<T>, t: seq<T>)
    requires NoRepeats(s) && multiset(s) == multiset(t)
    ensures NoRepeats(t)
  {
    var p := MatchingPermutation(t, s);
    forall i, j | 0 <= i < j < |t| ensures t[i] != t[j] {
      assert p[i] != p[j];
      assert p[i] < p[j] || p[j] < p[i];
    }
  }

  lemma SameElementsSameMembers<T>(s: seq<T>, t: seq<T>, x: T)
    requires multiset(s) == multiset(t)
    ensures x in s <==> x in t
  {
    assert x in s <==> x in multiset(s);
    assert x in t <==> x in multiset(t);
  }
}
