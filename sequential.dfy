/** The sequential odd-even transposition sort: one array sorted in place by rounds of an even
    phase and an odd phase, stopping after the first round whose odd phase swaps nothing. */
module Sequential {
  import opened Kernel

  /** The even phase: compare-exchange (0,1), (2,3), ... inside the first m cells. */
  method EvenPhase(vec: array<int>, m: nat)
    requires m <= vec.Length
    modifies vec
    ensures vec[..m] == Pass(old(vec[..m]), 0)
    ensures vec[m..] == old(vec[m..])
  {
    ghost var start := vec[..m];
    var i := 0;
    while i < m - 1
      invariant 0 <= i <= m
      invariant Pass(vec[..m], i) == Pass(start, 0)
      invariant vec[m..] == old(vec[m..])
    {
      ghost var before := vec[..m];
      var first := vec[i];
      var second := vec[i + 1];
      var temp := first;
      first := if first > second then second else first;
      second := if temp > second then temp else second;
      vec[i] := first;
      vec[i + 1] := second;
      assert vec[..m] == ExchangeAt(before, i);
      i := i + 2;
    }
  }

  /** The odd phase: compare-exchange (1,2), (3,4), ... inside the first m cells; test is
      whether some pair was inverted. */
  method OddPhase(vec: array<int>, m: nat) returns (test: bool)
    requires m <= vec.Length
    modifies vec
    ensures vec[..m] == Pass(old(vec[..m]), 1)
    ensures test <==> Swaps(old(vec[..m]), 1) > 0
    ensures vec[m..] == old(vec[m..])
  {
    ghost var start := vec[..m];
    ghost var swaps: nat := 0;
    test := false;
    var i := 1;
    while i < m - 1
      invariant 1 <= i <= m + 1
      invariant Pass(vec[..m], i) == Pass(start, 1)
      invariant Swaps(start, 1) == swaps + Swaps(vec[..m], i)
      invariant test <==> swaps > 0
      invariant vec[m..] == old(vec[m..])
    {
      ghost var before := vec[..m];
      var first := vec[i];
      var second := vec[i + 1];
      var temp := first;
      first := if first > second then second else first;
      second := if temp > second then temp else second;
      vec[i] := first;
      vec[i + 1] := second;
      test := test || temp > first;
      assert vec[..m] == ExchangeAt(before, i);
      swaps := swaps + if before[i] > before[i + 1] then 1 else 0;
      i := i + 2;
    }
  }

  /** Sorts the first m cells of vec in place. The result is the kernel's OddEvenSorted of the
      input, hence sorted and a permutation of the input. */
  method OddEvenSort(vec: array<int>, m: nat)
    requires m <= vec.Length
    modifies vec
    ensures vec[..m] == OddEvenSorted(old(vec[..m]))
    ensures Sorted(vec[..m]) && multiset(vec[..m]) == multiset(old(vec[..m]))
    ensures vec[m..] == old(vec[m..])
  {
    while true
      invariant OddEvenSorted(vec[..m]) == OddEvenSorted(old(vec[..m]))
      invariant vec[m..] == old(vec[m..])
      decreases Inversions(vec[..m])
    {
      ghost var start := vec[..m];
      EvenPhase(vec, m);
      var test := OddPhase(vec, m);
      RoundInversions(start);
      if !test {
        break;
      }
    }
  }
}
