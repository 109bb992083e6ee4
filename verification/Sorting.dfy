/** The exchange sort used for miners and coinbase outputs, and what any descending order determines. */
module Sorting {

  predicate Descending<T>(s: seq<T>, key: T -> int) {
    forall i, j :: 0 <= i < j < |s| ==> key(s[i]) >= key(s[j])
  }

  predicate DescendingInts(s: seq<int>) {
    forall i, j :: 0 <= i < j < |s| ==> s[i] >= s[j]
  }

  /** The first `i` elements are final: in order, and none below anything after them. */
  ghost predicate Settled<T>(s: seq<T>, i: nat, key: T -> int) {
    forall p, q :: 0 <= p < q < |s| && p < i ==> key(s[p]) >= key(s[q])
  }

  ghost predicate HoldsMax<T>(s: seq<T>, i: nat, j: nat, key: T -> int) {
    i < |s| && forall q :: i < q < j && q < |s| ==> key(s[i]) >= key(s[q])
  }

  function Swapped<T>(s: seq<T>, i: nat, j: nat): seq<T>
    requires i < j < |s|
  {
    s[i := s[j]][j := s[i]]
  }

  lemma SwapPermutes<T>(s: seq<T>, i: nat, j: nat)
    requires i < j < |s|
    ensures multiset(Swapped(s, i, j)) == multiset(s)
  {
  }

  lemma SwapKeeps<T>(s: seq<T>, i: nat, j: nat, key: T -> int)
    requires i < j < |s| && Settled(s, i, key) && HoldsMax(s, i, j, key) && key(s[j]) > key(s[i])
    ensures Settled(Swapped(s, i, j), i, key) && HoldsMax(Swapped(s, i, j), i, j + 1, key)
  {
  }

  /** Sorts in place, largest key first; elements with equal keys end in no particular order. */
  method ExchangeSort<T(!new)>(a: array<T>, greater: (T, T) -> bool, ghost key: T -> int)
    requires forall x, y :: greater(x, y) <==> key(x) > key(y)
    modifies a
    ensures Descending(a[..], key)
    ensures multiset(a[..]) == multiset(old(a[..]))
  {
    var i := 0;
    while i < a.Length - 1
      invariant 0 <= i && (i < a.Length || a.Length == 0)
      invariant Settled(a[..], i, key)
      invariant multiset(a[..]) == multiset(old(a[..]))
    {
      var j := i + 1;
      while j < a.Length
        invariant i < j <= a.Length
        invariant Settled(a[..], i, key) && HoldsMax(a[..], i, j, key)
        invariant multiset(a[..]) == multiset(old(a[..]))
      {
        if greater(a[j], a[i]) {
          SwapPermutes(a[..], i, j);
          SwapKeeps(a[..], i, j, key);
          ghost var s := a[..];
          a[i], a[j] := a[j], a[i];
          assert a[..] == Swapped(s, i, j);
        }
        j := j + 1;
      }
      i := i + 1;
    }
  }

  // ---------------------------------------------------------------------------------------------
  // Permutations
  // ---------------------------------------------------------------------------------------------

  function Map<A, B>(f: A -> B, s: seq<A>): (r: seq<B>)
    ensures |r| == |s| && forall i :: 0 <= i < |s| ==> r[i] == f(s[i])
  {
    seq(|s|, i requires 0 <= i < |s| => f(s[i]))
  }

  function Without<T>(s: seq<T>, j: nat): seq<T>
    requires j < |s|
  {
    s[..j] + s[j + 1..]
  }

  lemma WithoutRemoves<T>(s: seq<T>, j: nat)
    requires j < |s|
    ensures multiset(s) == multiset(Without(s, j)) + multiset{s[j]}
  {
    assert s == s[..j] + ([s[j]] + s[j + 1..]);
  }

  lemma SamePermutationLength<T>(s: seq<T>, t: seq<T>)
    requires multiset(s) == multiset(t)
    ensures |s| == |t|
  {
    assert |multiset(s)| == |s| && |multiset(t)| == |t|;
  }

  /** The head of one list stands somewhere in its permutation; without both, they still permute. */
  lemma MatchHead<T>(s: seq<T>, t: seq<T>) returns (j: nat)
    requires multiset(s) == multiset(t) && s != []
    ensures j < |t| && t[j] == s[0]
    ensures multiset(s[1..]) == multiset(Without(t, j))
  {
    assert s[0] in multiset(s);
    assert s[0] in t;
    j :| 0 <= j < |t| && t[j] == s[0];
    WithoutRemoves(s, 0);
    WithoutRemoves(t, j);
    assert Without(s, 0) == s[1..];
    assert multiset(s[1..]) == multiset(s) - multiset{s[0]};
    assert multiset(Without(t, j)) == multiset(t) - multiset{s[0]};
  }

  lemma RejoinHead<T>(s: seq<T>, t: seq<T>, j: nat)
    requires s != [] && j < |t| && t[j] == s[0] && multiset(s[1..]) == multiset(Without(t, j))
    ensures multiset(s) == multiset(t)
  {
    WithoutRemoves(s, 0);
    WithoutRemoves(t, j);
    assert Without(s, 0) == s[1..];
  }

  /** A permutation stays one under a function on the elements. */
  lemma {:induction false} MapPermutes<A, B>(f: A -> B, s: seq<A>, t: seq<A>)
    requires multiset(s) == multiset(t)
    ensures multiset(Map(f, s)) == multiset(Map(f, t))
    decreases |s|
  {
    SamePermutationLength(s, t);
    if s == [] {
      assert Map(f, s) == Map(f, t);
    } else {
      var j := MatchHead(s, t);
      MapPermutes(f, s[1..], Without(t, j));
      assert Map(f, s)[1..] == Map(f, s[1..]);
      assert Without(Map(f, t), j) == Map(f, Without(t, j));
      RejoinHead(Map(f, s), Map(f, t), j);
    }
  }

  lemma SameMaximum(s: seq<int>, t: seq<int>)
    requires DescendingInts(s) && DescendingInts(t) && multiset(s) == multiset(t) && s != [] && t != []
    ensures s[0] == t[0]
  {
    assert s[0] in multiset(s) && t[0] in multiset(t);
    assert s[0] in t && t[0] in s;
  }

  /** Two descending lists of the same numbers are the same list. */
  lemma {:induction false} DescendingUnique(s: seq<int>, t: seq<int>)
    requires DescendingInts(s) && DescendingInts(t) && multiset(s) == multiset(t)
    ensures s == t
    decreases |s|
  {
    SamePermutationLength(s, t);
    if s != [] {
      SameMaximum(s, t);
      assert s == [s[0]] + s[1..] && t == [t[0]] + t[1..];
      assert multiset(s[1..]) == multiset(s) - multiset{s[0]};
      assert multiset(t[1..]) == multiset(t) - multiset{s[0]};
      DescendingUnique(s[1..], t[1..]);
    }
  }

  predicate NoRepeats<T(==)>(s: seq<T>) {
    forall i, j :: 0 <= i < j < |s| ==> s[i] != s[j]
  }

  lemma WithoutElement<T>(s: seq<T>, j: nat, x: T)
    requires j < |s| && NoRepeats(s)
    ensures NoRepeats(Without(s, j))
    ensures x in Without(s, j) <==> x in s && x != s[j]
  {
    var w := Without(s, j);
    if x in s && x != s[j] {
      var k :| 0 <= k < |s| && s[k] == x;
      assert w[if k < j then k else k - 1] == x;
    }
  }

  lemma EmptyLike<T>(s: seq<T>, t: seq<T>)
    requires s == [] && forall x :: x in s <==> x in t
    ensures t == []
  {
    forall x
      ensures multiset(t)[x] == 0
    {
      assert x in t <==> x in multiset(t);
    }
    assert multiset(t) == multiset{};
    assert |multiset(t)| == |t|;
  }

  /** Lists without repetition that have the same elements are permutations of each other. */
  lemma {:induction false} SameElementsPermute<T>(s: seq<T>, t: seq<T>)
    requires NoRepeats(s) && NoRepeats(t) && forall x :: x in s <==> x in t
    ensures multiset(s) == multiset(t)
    decreases |s|
  {
    if s == [] {
      EmptyLike(s, t);
    } else {
      assert s[0] in t;
      var j :| 0 <= j < |t| && t[j] == s[0];
      forall x
        ensures x in s[1..] <==> x in Without(t, j)
      {
        WithoutElement(s, 0, x);
        WithoutElement(t, j, x);
        assert Without(s, 0) == s[1..];
      }
      WithoutElement(t, j, s[0]);
      SameElementsPermute(s[1..], Without(t, j));
      RejoinHead(s, t, j);
    }
  }

  // ---------------------------------------------------------------------------------------------
  // The sorted list as a function
  // ---------------------------------------------------------------------------------------------

  function Insert(x: int, s: seq<int>): seq<int> {
    if s == [] || x >= s[0] then [x] + s else [s[0]] + Insert(x, s[1..])
  }

  function SortDescending(s: seq<int>): seq<int> {
    if s == [] then [] else Insert(s[0], SortDescending(s[1..]))
  }

  lemma {:induction false} InsertPermutes(x: int, s: seq<int>)
    ensures multiset(Insert(x, s)) == multiset(s) + multiset{x}
  {
    if s != [] && x < s[0] {
      InsertPermutes(x, s[1..]);
      assert s == [s[0]] + s[1..];
    }
  }

  lemma HeadDominates(x: int, s: seq<int>)
    requires DescendingInts(s) && s != [] && x < s[0]
    ensures forall i :: 0 <= i < |Insert(x, s[1..])| ==> Insert(x, s[1..])[i] <= s[0]
  {
    var r := Insert(x, s[1..]);
    InsertPermutes(x, s[1..]);
    forall i | 0 <= i < |r|
      ensures r[i] <= s[0]
    {
      assert r[i] in multiset(r);
      assert r[i] in s[1..] || r[i] == x;
    }
  }

  lemma {:induction false} InsertSorts(x: int, s: seq<int>)
    requires DescendingInts(s)
    ensures DescendingInts(Insert(x, s))
  {
    if s != [] && x < s[0] {
      InsertSorts(x, s[1..]);
      HeadDominates(x, s);
    }
  }

  lemma {:induction false} SortDescendingSorts(s: seq<int>)
    ensures DescendingInts(SortDescending(s))
    ensures multiset(SortDescending(s)) == multiset(s)
  {
    if s != [] {
      SortDescendingSorts(s[1..]);
      InsertSorts(s[0], SortDescending(s[1..]));
      InsertPermutes(s[0], SortDescending(s[1..]));
      assert s == [s[0]] + s[1..];
    }
  }

  /** Any in-place descending sort of numbers ends with the same list. */
  lemma SortedIsUnique(s: seq<int>, t: seq<int>)
    requires DescendingInts(t) && multiset(t) == multiset(s)
    ensures t == SortDescending(s)
  {
    SortDescendingSorts(s);
    DescendingUnique(t, SortDescending(s));
  }

  // ---------------------------------------------------------------------------------------------
  // Counting
  // ---------------------------------------------------------------------------------------------

  function CountAbove(s: seq<int>, bound: int): nat {
    if s == [] then 0 else CountAbove(s[..|s| - 1], bound) + (if s[|s| - 1] > bound then 1 else 0)
  }

  lemma {:induction false} CountAboveConcat(s: seq<int>, t: seq<int>, bound: int)
    ensures CountAbove(s + t, bound) == CountAbove(s, bound) + CountAbove(t, bound)
    decreases |t|
  {
    if t == [] {
      assert s + t == s;
    } else {
      assert (s + t)[..|s + t| - 1] == s + t[..|t| - 1];
      CountAboveConcat(s, t[..|t| - 1], bound);
    }
  }

  lemma CountAboveWithout(s: seq<int>, j: nat, bound: int)
    requires j < |s|
    ensures CountAbove(s, bound) == CountAbove(Without(s, j), bound) + (if s[j] > bound then 1 else 0)
  {
    assert s == s[..j + 1] + s[j + 1..];
    assert s[..j + 1][..j] == s[..j];
    CountAboveConcat(s[..j + 1], s[j + 1..], bound);
    CountAboveConcat(s[..j], s[j + 1..], bound);
  }

  lemma {:induction false} CountAbovePermutes(s: seq<int>, t: seq<int>, bound: int)
    requires multiset(s) == multiset(t)
    ensures CountAbove(s, bound) == CountAbove(t, bound)
    decreases |s|
  {
    SamePermutationLength(s, t);
    if s != [] {
      var j := MatchHead(s, t);
      CountAbovePermutes(s[1..], Without(t, j), bound);
      assert Without(s, 0) == s[1..];
      CountAboveWithout(s, 0, bound);
      CountAboveWithout(t, j, bound);
    }
  }

  lemma {:induction false} CountAtMost(s: seq<int>, k: nat, bound: int)
    requires k <= |s| && forall i :: k <= i < |s| ==> s[i] <= bound
    ensures CountAbove(s, bound) <= k
  {
    if |s| > k {
      CountAtMost(s[..|s| - 1], k, bound);
    } else if s != [] {
      CountAtMost(s[..|s| - 1], k - 1, bound);
    }
  }

  lemma {:induction false} CountAtLeast(s: seq<int>, k: nat, bound: int)
    requires k <= |s| && forall i :: 0 <= i < k ==> s[i] > bound
    ensures CountAbove(s, bound) >= k
  {
    if |s| > k {
      CountAtLeast(s[..|s| - 1], k, bound);
    } else if s != [] {
      CountAtLeast(s[..|s| - 1], k - 1, bound);
    }
  }

  /** If only the first `k` of `s` exceed a bound, position `k` of its sorted form does not. */
  lemma RankAtMost(s: seq<int>, t: seq<int>, k: nat, bound: int)
    requires DescendingInts(t) && multiset(t) == multiset(s) && k < |s|
    requires forall i :: k <= i < |s| ==> s[i] <= bound
    ensures k < |t| && t[k] <= bound
  {
    SamePermutationLength(s, t);
    CountAtMost(s, k, bound);
    CountAbovePermutes(s, t, bound);
    if t[k] > bound {
      CountAtLeast(t, k + 1, bound);
    }
  }

  /** If the first `k + 1` of `s` reach a bound, position `k` of its sorted form does. */
  lemma RankAtLeast(s: seq<int>, t: seq<int>, k: nat, bound: int)
    requires DescendingInts(t) && multiset(t) == multiset(s) && k < |s|
    requires forall i :: 0 <= i <= k ==> s[i] >= bound
    ensures k < |t| && t[k] >= bound
  {
    SamePermutationLength(s, t);
    CountAtLeast(s, k + 1, bound - 1);
    CountAbovePermutes(s, t, bound - 1);
    if t[k] < bound {
      CountAtMost(t, k, bound - 1);
    }
  }

  // ---------------------------------------------------------------------------------------------
  // Sums
  // ---------------------------------------------------------------------------------------------

  function Sum(s: seq<int>): int {
    if s == [] then 0 else Sum(s[..|s| - 1]) + s[|s| - 1]
  }

  lemma {:induction false} SumPermutes(s: seq<int>, t: seq<int>)
    requires multiset(s) == multiset(t)
    ensures Sum(s) == Sum(t)
    decreases |s|
  {
    SamePermutationLength(s, t);
    if s != [] {
      var j := MatchHead(s, t);
      SumPermutes(s[1..], Without(t, j));
      assert Without(s, 0) == s[1..];
      SumWithout(s, 0);
      SumWithout(t, j);
    }
  }

  lemma {:induction false} SumConcat(s: seq<int>, t: seq<int>)
    ensures Sum(s + t) == Sum(s) + Sum(t)
    decreases |t|
  {
    if t == [] {
      assert s + t == s;
    } else {
      assert (s + t)[..|s + t| - 1] == s + t[..|t| - 1];
      SumConcat(s, t[..|t| - 1]);
    }
  }

  lemma SumAppend(s: seq<int>, x: int)
    ensures Sum(s + [x]) == Sum(s) + x
  {
    assert (s + [x])[..|s|] == s;
  }

  lemma SumWithout(s: seq<int>, j: nat)
    requires j < |s|
    ensures Sum(s) == Sum(Without(s, j)) + s[j]
  {
    hide Sum;
    var first, rest := s[..j], s[j + 1..];
    assert s == (first + [s[j]]) + rest;
    SumAppend(first, s[j]);
    SumConcat(first + [s[j]], rest);
    SumConcat(first, rest);
  }
}
