/** The compare-exchange kernel of odd-even transposition sort, as pure functions.
    Every implementation in this project (one array, two arrays, a padded buffer shared by
    threads, a master/worker farm) is proved to compute what these functions compute. */
module Kernel {

  /** The first n values a generator yields, where draw(k) is its k-th value. The programs'
      random initial contents are modelled this way. */
  function Draws(n: nat, draw: nat -> int): (s: seq<int>)
    ensures |s| == n
  {
    seq(n, p requires 0 <= p => draw(p))
  }

  /** The branchless compare-exchange: the smaller value goes first, the larger second. */
  function CompareExchange(first: int, second: int): (r: (int, int))
    ensures r.0 <= r.1
    ensures r == (first, second) || r == (second, first)
    ensures r == (first, second) <==> first <= second
  {
    var temp := first;
    ((if first > second then second else first), (if temp > second then temp else second))
  }

  /** The array after compare-exchanging the adjacent pair (i, i+1). */
  function ExchangeAt(s: seq<int>, i: nat): (r: seq<int>)
    requires i + 1 < |s|
    ensures |r| == |s|
    ensures r[i] <= r[i + 1]
    ensures (r[i] == s[i] && r[i + 1] == s[i + 1]) || (r[i] == s[i + 1] && r[i + 1] == s[i])
    ensures forall k :: 0 <= k < |s| && k != i && k != i + 1 ==> r[k] == s[k]
    ensures s[i] <= s[i + 1] ==> r == s
  {
    var p := CompareExchange(s[i], s[i + 1]);
    s[i := p.0][i + 1 := p.1]
  }

  /** One pass of the sort: compare-exchange the pairs (first, first+1), (first+2, first+3), ...
      that fit in s, in this order. Pass(s, 0) is the even phase, Pass(s, 1) the odd one. */
  function Pass(s: seq<int>, first: nat): (r: seq<int>)
    ensures |r| == |s|
    decreases |s| - first
  {
    if first + 1 < |s| then Pass(ExchangeAt(s, first), first + 2) else s
  }

  /** The number of pairs a pass finds inverted (each of them is swapped). */
  function Swaps(s: seq<int>, first: nat): nat
    decreases |s| - first
  {
    if first + 1 < |s| then
      (if s[first] > s[first + 1] then 1 else 0) + Swaps(ExchangeAt(s, first), first + 2)
    else 0
  }

  /** Every pair (k, k+1) with k at or after `first` and of the same parity is in order. */
  predicate PairsOrdered(s: seq<int>, first: nat)
  {
    forall k :: first <= k && k + 1 < |s| && (k - first) % 2 == 0 ==> s[k] <= s[k + 1]
  }

  predicate Sorted(s: seq<int>)
  {
    forall i, j :: 0 <= i < j < |s| ==> s[i] <= s[j]
  }

  /** What cell k holds after Pass(s, first): pairs are disjoint, so each cell is either the
      low end of a pair, the high end of a pair, or untouched. */
  function PassCell(s: seq<int>, first: nat, k: nat): int
    requires k < |s|
  {
    if first <= k && (k - first) % 2 == 0 && k + 1 < |s| then CompareExchange(s[k], s[k + 1]).0
    else if first < k && (k - first) % 2 == 1 then CompareExchange(s[k - 1], s[k]).1
    else s[k]
  }

  lemma {:induction false} PassAt(s: seq<int>, first: nat, k: nat)
    requires k < |s|
    ensures Pass(s, first)[k] == PassCell(s, first, k)
    decreases |s| - first
  {
    if first + 1 < |s| {
      var t := ExchangeAt(s, first);
      PassAt(t, first + 2, k);
      if k < first {
        assert t[k] == s[k];
      } else if k == first {
        assert PassCell(t, first + 2, k) == t[k];
      } else if k == first + 1 {
        assert PassCell(t, first + 2, k) == t[k];
      } else {
        assert t[k] == s[k];
        assert k + 1 < |s| ==> t[k + 1] == s[k + 1];
        assert t[k - 1] == s[k - 1] || k - 1 == first + 1;
        assert (k - first) % 2 == (k - (first + 2)) % 2;
      }
    }
  }

  /** A pass leaves cells before `first` alone. */
  lemma PassKeepsPrefix(s: seq<int>, first: nat, k: nat)
    requires k < |s| && k < first
    ensures Pass(s, first)[k] == s[k]
  {
    PassAt(s, first, k);
  }

  /** A pass leaves the last cell alone when the last cell has no partner of the pass's parity. */
  lemma PassKeepsUnpairedLast(s: seq<int>, first: nat)
    requires first < |s| && (|s| - 1 - first) % 2 == 0
    ensures Pass(s, first)[|s| - 1] == s[|s| - 1]
  {
    PassAt(s, first, |s| - 1);
  }

  /** After a pass, every pair of its parity is in order. */
  lemma PassOrdersPairs(s: seq<int>, first: nat)
    ensures PairsOrdered(Pass(s, first), first)
  {
    var r := Pass(s, first);
    forall k | first <= k && k + 1 < |s| && (k - first) % 2 == 0
      ensures r[k] <= r[k + 1]
    {
      PassAt(s, first, k);
      PassAt(s, first, k + 1);
      assert (k + 1 - first) % 2 == 1;
      assert PassCell(s, first, k) == CompareExchange(s[k], s[k + 1]).0;
      assert PassCell(s, first, k + 1) == CompareExchange(s[k], s[k + 1]).1;
    }
  }

  lemma ExchangePermutes(s: seq<int>, i: nat)
    requires i + 1 < |s|
    ensures multiset(ExchangeAt(s, i)) == multiset(s)
  {
    var t := ExchangeAt(s, i);
    if t != s {
      assert t == s[i := s[i + 1]][i + 1 := s[i]];
    }
  }

  /** A pass only permutes. */
  lemma {:induction false} PassPermutes(s: seq<int>, first: nat)
    ensures multiset(Pass(s, first)) == multiset(s)
    decreases |s| - first
  {
    if first + 1 < |s| {
      var t := ExchangeAt(s, first);
      PassPermutes(t, first + 2);
      ExchangePermutes(s, first);
    }
  }

  /** A pass changes nothing exactly when every pair of its parity is already in order. */
  lemma PassIdentity(s: seq<int>, first: nat)
    ensures Pass(s, first) == s <==> PairsOrdered(s, first)
  {
    var r := Pass(s, first);
    if PairsOrdered(s, first) {
      forall k | 0 <= k < |s| ensures r[k] == s[k] {
        PassAt(s, first, k);
        if first < k && (k - first) % 2 == 1 {
          ParityDown(k, first);
          assert s[k - 1] <= s[k];
        }
      }
      assert r == s;
    } else {
      var k :| first <= k && k + 1 < |s| && (k - first) % 2 == 0 && s[k] > s[k + 1];
      PassAt(s, first, k);
      assert r[k] != s[k];
    }
  }

  /** The cell before an odd offset is at an even one. */
  lemma ParityDown(k: int, first: int)
    requires (k - first) % 2 == 1
    ensures (k - 1 - first) % 2 == 0
  {
    assert k - first == (k - 1 - first) + 1;
  }

  /** Shifting the base of a parity test by two does not change it. */
  lemma ParityShift(k: int, first: int)
    ensures (k - first) % 2 == 0 <==> (k - (first + 2)) % 2 == 0
  {
    assert k - first == (k - (first + 2)) + 2;
  }

  /** Unfolds PairsOrdered by one pair. */
  lemma PairsOrderedStep(s: seq<int>, first: nat)
    requires first + 1 < |s|
    ensures PairsOrdered(s, first) <==> s[first] <= s[first + 1] && PairsOrdered(s, first + 2)
  {
    if s[first] <= s[first + 1] && PairsOrdered(s, first + 2) {
      forall k | first <= k && k + 1 < |s| && (k - first) % 2 == 0 ensures s[k] <= s[k + 1] {
        if k != first {
          ParityShift(k, first);
        }
      }
    }
    if PairsOrdered(s, first) {
      forall k | first + 2 <= k && k + 1 < |s| && (k - (first + 2)) % 2 == 0
        ensures s[k] <= s[k + 1]
      {
        ParityShift(k, first);
      }
    }
  }

  /** The pass swaps at least once exactly when some pair of its parity is inverted. */
  lemma {:induction false} SwapsDetectInversion(s: seq<int>, first: nat)
    ensures Swaps(s, first) > 0 <==> !PairsOrdered(s, first)
    decreases |s| - first
  {
    if first + 1 < |s| {
      var t := ExchangeAt(s, first);
      SwapsDetectInversion(t, first + 2);
      PairsOrderedStep(s, first);
      assert PairsOrdered(t, first + 2) == PairsOrdered(s, first + 2) by {
        assert forall k :: first + 2 <= k < |s| ==> t[k] == s[k];
      }
    }
  }

  // ---------------------------------------------------------------------------------------
  // Inversions: the termination measure

  /** How many elements of s are smaller than x. */
  function Below(x: int, s: seq<int>): nat
  {
    if s == [] then 0 else (if x > s[0] then 1 else 0) + Below(x, s[1..])
  }

  /** The number of pairs i < j with s[i] > s[j]. */
  function Inversions(s: seq<int>): nat
  {
    if s == [] then 0 else Below(s[0], s[1..]) + Inversions(s[1..])
  }

  lemma {:induction false} ExchangeTail(s: seq<int>, i: nat)
    requires 1 <= i && i + 1 < |s|
    ensures ExchangeAt(s, i) == [s[0]] + ExchangeAt(s[1..], i - 1)
  {
    assert ExchangeAt(s, i)[1..] == ExchangeAt(s[1..], i - 1);
  }

  /** Compare-exchanging a pair does not change how many elements are below x. */
  lemma {:induction false} BelowExchange(x: int, s: seq<int>, i: nat)
    requires i + 1 < |s|
    ensures Below(x, ExchangeAt(s, i)) == Below(x, s)
  {
    var t := ExchangeAt(s, i);
    if i == 0 {
      assert t[1..][1..] == s[1..][1..];
    } else {
      ExchangeTail(s, i);
      assert t[1..] == ExchangeAt(s[1..], i - 1);
      BelowExchange(x, s[1..], i - 1);
    }
  }

  /** Compare-exchanging an inverted adjacent pair removes exactly one inversion. */
  lemma {:induction false} ExchangeInversions(s: seq<int>, i: nat)
    requires i + 1 < |s|
    ensures Inversions(ExchangeAt(s, i)) + (if s[i] > s[i + 1] then 1 else 0) == Inversions(s)
  {
    var t := ExchangeAt(s, i);
    if s[i] <= s[i + 1] {
      assert t == s;
    } else if i == 0 {
      var rest := s[2..];
      assert s[1..] == [s[1]] + rest && s[1..][1..] == rest;
      assert t[1..] == [s[0]] + rest && t[1..][1..] == rest;
    } else {
      ExchangeTail(s, i);
      assert t[1..] == ExchangeAt(s[1..], i - 1);
      BelowExchange(s[0], s[1..], i - 1);
      ExchangeInversions(s[1..], i - 1);
    }
  }

  /** A pass removes exactly as many inversions as it makes swaps. */
  lemma {:induction false} PassInversions(s: seq<int>, first: nat)
    ensures Inversions(Pass(s, first)) + Swaps(s, first) == Inversions(s)
    decreases |s| - first
  {
    if first + 1 < |s| {
      ExchangeInversions(s, first);
      PassInversions(ExchangeAt(s, first), first + 2);
    }
  }

  // ---------------------------------------------------------------------------------------
  // Rounds and the whole algorithm

  /** One round of the kernel: the even phase, then the odd phase. */
  function Round(s: seq<int>): (r: seq<int>)
    ensures |r| == |s|
  {
    Pass(Pass(s, 0), 1)
  }

  /** Whether the round run on s does another round: its odd phase found an inverted pair. */
  predicate Continues(s: seq<int>)
  {
    Swaps(Pass(s, 0), 1) > 0
  }

  lemma {:induction false} AdjacentSorted(s: seq<int>)
    requires PairsOrdered(s, 0) && PairsOrdered(s, 1)
    ensures Sorted(s)
  {
    forall i, j | 0 <= i < j < |s| ensures s[i] <= s[j] {
      var k := i;
      while k < j
        invariant i <= k <= j && s[i] <= s[k]
      {
        assert s[k] <= s[k + 1] by {
          if k % 2 == 0 { assert (k - 0) % 2 == 0; } else { assert (k - 1) % 2 == 0; }
        }
        k := k + 1;
      }
    }
  }

  /** Why stopping on the odd phase alone is sound: the even phase has just ordered the even
      pairs, so the odd phase finds nothing to swap exactly when the array is sorted, and then it
      changes nothing. */
  lemma StopRule(s: seq<int>)
    ensures !Continues(s) <==> Sorted(Pass(s, 0))
    ensures !Continues(s) ==> Round(s) == Pass(s, 0)
  {
    var e := Pass(s, 0);
    PassOrdersPairs(s, 0);
    SwapsDetectInversion(e, 1);
    PassIdentity(e, 1);
    if !Continues(s) {
      AdjacentSorted(e);
    } else {
      var k :| 1 <= k && k + 1 < |e| && (k - 1) % 2 == 0 && e[k] > e[k + 1];
      assert !Sorted(e);
    }
  }

  /** A round that continues removes at least one inversion; the even phase never adds one. */
  lemma RoundInversions(s: seq<int>)
    ensures Inversions(Pass(s, 0)) <= Inversions(s)
    ensures Inversions(Round(s)) <= Inversions(Pass(s, 0))
    ensures Continues(s) ==> Inversions(Round(s)) < Inversions(s)
  {
    PassInversions(s, 0);
    PassInversions(Pass(s, 0), 1);
  }

  lemma RoundPermutes(s: seq<int>)
    ensures multiset(Round(s)) == multiset(s)
  {
    PassPermutes(s, 0);
    PassPermutes(Pass(s, 0), 1);
  }

  /** The whole algorithm: rounds until the odd phase of a round finds nothing to swap. */
  function OddEvenSorted(s: seq<int>): (r: seq<int>)
    ensures Sorted(r)
    ensures multiset(r) == multiset(s)
    decreases Inversions(s)
  {
    StopRule(s);
    RoundPermutes(s);
    if !Continues(s) then Round(s)
    else
      RoundInversions(s);
      OddEvenSorted(Round(s))
  }

  /** A round that stops returns the final result; one that does not leaves the result to
      the rounds that follow. */
  lemma RoundStep(s: seq<int>)
    ensures !Continues(s) ==> OddEvenSorted(s) == Round(s)
    ensures Continues(s) ==> OddEvenSorted(s) == OddEvenSorted(Round(s))
  {
  }

  /** Two sorted permutations of one multiset start with the same (least) element. */
  lemma SortedHeads(a: seq<int>, b: seq<int>)
    requires Sorted(a) && Sorted(b) && multiset(a) == multiset(b) && a != []
    ensures b != [] && a[0] == b[0]
  {
    assert a[0] in multiset(b) by { assert a[0] in a; }
    var j :| 0 <= j < |b| && b[j] == a[0];
    assert b[0] in multiset(a) by { assert b[0] in b; }
    var i :| 0 <= i < |a| && a[i] == b[0];
    assert a[0] <= a[i] && b[0] <= b[j];
  }

  /** Two sorted permutations of the same multiset are equal: the result of every variant is
      fixed by its input alone, whatever the partitioning. */
  lemma {:induction false} SortedPermutationUnique(a: seq<int>, b: seq<int>)
    requires Sorted(a) && Sorted(b) && multiset(a) == multiset(b)
    ensures a == b
  {
    assert |a| == |multiset(a)| == |multiset(b)| == |b|;
    if a != [] {
      SortedHeads(a, b);
      assert a == [a[0]] + a[1..] && b == [b[0]] + b[1..];
      assert multiset(a[1..]) == multiset(b[1..]) by {
        assert multiset(a) == multiset{a[0]} + multiset(a[1..]);
        assert multiset(b) == multiset{b[0]} + multiset(b[1..]);
        assert multiset(a[1..]) == multiset(a) - multiset{a[0]};
        assert multiset(b[1..]) == multiset(b) - multiset{b[0]};
      }
      SortedPermutationUnique(a[1..], b[1..]);
    }
  }

  /** Already sorted input (which includes every input of length at most 1) finishes after the
      first round, which changes nothing. */
  lemma SortedInputOneRound(s: seq<int>)
    requires Sorted(s)
    ensures Pass(s, 0) == s && !Continues(s) && Round(s) == s
    ensures OddEvenSorted(s) == s
  {
    PassIdentity(s, 0);
    PassIdentity(s, 1);
    SwapsDetectInversion(s, 1);
  }
}
