/** The two-vector variant: the logical array is split by index parity into vecEven
    (positions 0, 2, 4, ...) and vecOdd (positions 1, 3, 5, ...). The even phase compares
    vecEven[i] with vecOdd[i], the odd phase vecOdd[i] with vecEven[i+1]. */
module TwoVector {
  import opened Kernel

  /** The logical array the two vectors hold: position 2k is e[k], position 2k+1 is o[k]. */
  function Interleave(e: seq<int>, o: seq<int>): (r: seq<int>)
    requires |o| <= |e| <= |o| + 1
    ensures |r| == |e| + |o|
  {
    seq(|e| + |o|, p requires 0 <= p < |e| + |o| => if p % 2 == 0 then e[p / 2] else o[p / 2])
  }

  /** The even-indexed cells of s. */
  function Evens(s: seq<int>): (e: seq<int>)
    ensures |e| == |s| / 2 + |s| % 2
  {
    seq(|s| / 2 + |s| % 2, k requires 0 <= k < |s| / 2 + |s| % 2 => s[2 * k])
  }

  /** The odd-indexed cells of s. */
  function Odds(s: seq<int>): (o: seq<int>)
    ensures |o| == |s| / 2
  {
    seq(|s| / 2, k requires 0 <= k < |s| / 2 => s[2 * k + 1])
  }

  lemma InterleaveAt(e: seq<int>, o: seq<int>, k: nat)
    requires |o| <= |e| <= |o| + 1
    ensures k < |e| ==> Interleave(e, o)[2 * k] == e[k]
    ensures k < |o| ==> Interleave(e, o)[2 * k + 1] == o[k]
  {
    assert (2 * k) % 2 == 0 && (2 * k) / 2 == k;
    assert (2 * k + 1) % 2 == 1 && (2 * k + 1) / 2 == k;
  }

  /** Splitting by parity and interleaving again gives back the array, and the other way round. */
  lemma SplitRoundTrip(s: seq<int>)
    ensures Interleave(Evens(s), Odds(s)) == s
  {
    var r := Interleave(Evens(s), Odds(s));
    forall p | 0 <= p < |s| ensures r[p] == s[p] {
      InterleaveAt(Evens(s), Odds(s), p / 2);
    }
  }

  lemma InterleaveRoundTrip(e: seq<int>, o: seq<int>)
    requires |o| <= |e| <= |o| + 1
    ensures Evens(Interleave(e, o)) == e && Odds(Interleave(e, o)) == o
  {
    forall k | 0 <= k < |e| ensures Evens(Interleave(e, o))[k] == e[k] {
      InterleaveAt(e, o, k);
    }
    forall k | 0 <= k < |o| ensures Odds(Interleave(e, o))[k] == o[k] {
      InterleaveAt(e, o, k);
    }
  }

  /** The vector sizes main allocates for length m fit the interleaving, hold m cells, and are
      exactly the sizes of the parity split of a length-m array. */
  lemma SizingFits(m: nat)
    ensures m / 2 <= m / 2 + m % 2 <= m / 2 + 1
    ensures (m / 2 + m % 2) + m / 2 == m
  {
  }

  /** Compare-exchanging vecEven[i] with vecOdd[i] is the kernel's exchange at 2i. */
  lemma ExchangeEvenPair(e: seq<int>, o: seq<int>, i: nat)
    requires |o| <= |e| <= |o| + 1 && i < |o|
    ensures 2 * i + 1 < |e| + |o|
    ensures ExchangeAt(Interleave(e, o), 2 * i)
         == Interleave(e[i := CompareExchange(e[i], o[i]).0], o[i := CompareExchange(e[i], o[i]).1])
  {
    var p := CompareExchange(e[i], o[i]);
    var e', o' := e[i := p.0], o[i := p.1];
    var l, r := ExchangeAt(Interleave(e, o), 2 * i), Interleave(e', o');
    InterleaveAt(e, o, i);
    forall q | 0 <= q < |l| ensures l[q] == r[q] {
      InterleaveAt(e, o, q / 2);
      InterleaveAt(e', o', q / 2);
    }
  }

  /** Compare-exchanging vecOdd[i] with vecEven[i+1] is the kernel's exchange at 2i+1. */
  lemma ExchangeOddPair(e: seq<int>, o: seq<int>, i: nat)
    requires |o| <= |e| <= |o| + 1 && i + 1 < |e|
    ensures i < |o| && 2 * i + 2 < |e| + |o|
    ensures ExchangeAt(Interleave(e, o), 2 * i + 1)
         == Interleave(e[i + 1 := CompareExchange(o[i], e[i + 1]).1],
                       o[i := CompareExchange(o[i], e[i + 1]).0])
  {
    var p := CompareExchange(o[i], e[i + 1]);
    var e', o' := e[i + 1 := p.1], o[i := p.0];
    var l, r := ExchangeAt(Interleave(e, o), 2 * i + 1), Interleave(e', o');
    InterleaveAt(e, o, i);
    InterleaveAt(e, o, i + 1);
    forall q | 0 <= q < |l| ensures l[q] == r[q] {
      InterleaveAt(e, o, q / 2);
      InterleaveAt(e', o', q / 2);
    }
  }

  /** After an even pass every vecEven[i] is at most vecOdd[i]. */
  lemma EvenPairsOrdered(e: seq<int>, o: seq<int>, s: seq<int>)
    requires |o| <= |e| <= |o| + 1 && Interleave(e, o) == Pass(s, 0)
    ensures forall i :: 0 <= i < |o| ==> e[i] <= o[i]
  {
    PassOrdersPairs(s, 0);
    forall i | 0 <= i < |o| ensures e[i] <= o[i] {
      InterleaveAt(e, o, i);
      assert (2 * i - 0) % 2 == 0;
    }
  }

  /** After an odd pass every vecOdd[i] is at most vecEven[i+1]. */
  lemma OddPairsOrdered(e: seq<int>, o: seq<int>, s: seq<int>)
    requires |o| <= |e| <= |o| + 1 && Interleave(e, o) == Pass(s, 1)
    ensures forall i :: 0 <= i && i + 1 < |e| ==> o[i] <= e[i + 1]
  {
    PassOrdersPairs(s, 1);
    forall i | 0 <= i && i + 1 < |e| ensures o[i] <= e[i + 1] {
      InterleaveAt(e, o, i);
      InterleaveAt(e, o, i + 1);
      assert (2 * i + 1 - 1) % 2 == 0;
    }
  }

  /** One step of the even phase: compare-exchange vecEven[i] with vecOdd[i]. */
  method ExchangeEven(vecEven: array<int>, vecOdd: array<int>, i: nat)
    requires vecEven != vecOdd
    requires vecOdd.Length <= vecEven.Length <= vecOdd.Length + 1 && i < vecOdd.Length
    modifies vecEven, vecOdd
    ensures 2 * i + 1 < vecEven.Length + vecOdd.Length
    ensures Interleave(vecEven[..], vecOdd[..]) == ExchangeAt(Interleave(old(vecEven[..]), old(vecOdd[..])), 2 * i)
  {
    ExchangeEvenPair(vecEven[..], vecOdd[..], i);
    var first := vecEven[i];
    var second := vecOdd[i];
    var temp := first;
    first := if first > second then second else first;
    second := if temp > second then temp else second;
    vecEven[i] := first;
    vecOdd[i] := second;
  }

  /** The even phase over the two vectors: the kernel's even pass on the interleaving. */
  method EvenPhase(vecEven: array<int>, vecOdd: array<int>)
    requires vecEven != vecOdd
    requires vecOdd.Length <= vecEven.Length <= vecOdd.Length + 1
    modifies vecEven, vecOdd
    ensures Interleave(vecEven[..], vecOdd[..]) == Pass(Interleave(old(vecEven[..]), old(vecOdd[..])), 0)
    ensures forall i :: 0 <= i < vecOdd.Length ==> vecEven[i] <= vecOdd[i]
  {
    ghost var start := Interleave(vecEven[..], vecOdd[..]);
    var evenEnd := vecOdd.Length;
    var i := 0;
    while i < evenEnd
      invariant 0 <= i <= evenEnd
      invariant Pass(Interleave(vecEven[..], vecOdd[..]), 2 * i) == Pass(start, 0)
    {
      ExchangeEven(vecEven, vecOdd, i);
      i := i + 1;
    }
    EvenPairsOrdered(vecEven[..], vecOdd[..], start);
  }

  /** One step of the odd phase: compare-exchange vecOdd[i] with vecEven[i+1]; swapped is
      whether the pair was inverted. */
  method ExchangeOdd(vecEven: array<int>, vecOdd: array<int>, i: nat) returns (swapped: bool)
    requires vecEven != vecOdd
    requires vecOdd.Length <= vecEven.Length <= vecOdd.Length + 1 && i + 1 < vecEven.Length
    modifies vecEven, vecOdd
    ensures 2 * i + 2 < vecEven.Length + vecOdd.Length
    ensures swapped <==> (Interleave(old(vecEven[..]), old(vecOdd[..]))[2 * i + 1]
                          > Interleave(old(vecEven[..]), old(vecOdd[..]))[2 * i + 2])
    ensures Interleave(vecEven[..], vecOdd[..]) == ExchangeAt(Interleave(old(vecEven[..]), old(vecOdd[..])), 2 * i + 1)
  {
    ExchangeOddPair(vecEven[..], vecOdd[..], i);
    InterleaveAt(vecEven[..], vecOdd[..], i);
    InterleaveAt(vecEven[..], vecOdd[..], i + 1);
    var first := vecOdd[i];
    var second := vecEven[i + 1];
    var temp := first;
    first := if first > second then second else first;
    second := if temp > second then temp else second;
    vecOdd[i] := first;
    vecEven[i + 1] := second;
    swapped := temp > first;
  }

  /** The odd phase over the two vectors: the kernel's odd pass on the interleaving; test is
      whether some pair was inverted. */
  method OddPhase(vecEven: array<int>, vecOdd: array<int>) returns (test: bool)
    requires vecEven != vecOdd
    requires vecOdd.Length <= vecEven.Length <= vecOdd.Length + 1
    modifies vecEven, vecOdd
    ensures Interleave(vecEven[..], vecOdd[..]) == Pass(Interleave(old(vecEven[..]), old(vecOdd[..])), 1)
    ensures test <==> Swaps(Interleave(old(vecEven[..]), old(vecOdd[..])), 1) > 0
    ensures forall i :: 0 <= i && i + 1 < vecEven.Length ==> vecOdd[i] <= vecEven[i + 1]
  {
    ghost var start := Interleave(vecEven[..], vecOdd[..]);
    ghost var swaps: nat := 0;
    test := false;
    var oddEnd := vecEven.Length - 1;
    var i := 0;
    while i < oddEnd
      invariant 0 <= i && (oddEnd >= 0 ==> i <= oddEnd)
      invariant Pass(Interleave(vecEven[..], vecOdd[..]), 2 * i + 1) == Pass(start, 1)
      invariant Swaps(start, 1) == swaps + Swaps(Interleave(vecEven[..], vecOdd[..]), 2 * i + 1)
      invariant test <==> swaps > 0
    {
      var swapped := ExchangeOdd(vecEven, vecOdd, i);
      swaps := swaps + if swapped then 1 else 0;
      test := test || swapped;
      i := i + 1;
    }
    OddPairsOrdered(vecEven[..], vecOdd[..], start);
  }

  /** The two-vector sort computes exactly what the sequential kernel computes on the
      interleaved array, with the same stop rule. */
  method OddEvenSort(vecEven: array<int>, vecOdd: array<int>)
    requires vecEven != vecOdd
    requires vecOdd.Length <= vecEven.Length <= vecOdd.Length + 1
    modifies vecEven, vecOdd
    ensures Interleave(vecEven[..], vecOdd[..])
         == OddEvenSorted(Interleave(old(vecEven[..]), old(vecOdd[..])))
  {
    while true
      invariant OddEvenSorted(Interleave(vecEven[..], vecOdd[..]))
             == OddEvenSorted(Interleave(old(vecEven[..]), old(vecOdd[..])))
      decreases Inversions(Interleave(vecEven[..], vecOdd[..]))
    {
      ghost var start := Interleave(vecEven[..], vecOdd[..]);
      EvenPhase(vecEven, vecOdd);
      var test := OddPhase(vecEven, vecOdd);
      RoundInversions(start);
      if !test {
        break;
      }
    }
  }

  // ---------------------------------------------------------------------------------------
  // Building the two vectors and reading the result back

  /** The logical array after main allocates value-initialised vectors of m/2 + m%2 and m/2
      cells and fills them as written: every cell drawn, except that for odd m the last even
      cell keeps its initial 0. draw(n) is the value stored from the generator's n-th call. */
  function InitialContents(m: nat, draw: nat -> int): (s: seq<int>)
    ensures |s| == m
  {
    seq(m, p requires 0 <= p => if p < 2 * (m / 2) then draw(p) else 0)
  }

  /** initializeVector as written: m/2 rounds, each drawing one even and one odd cell. */
  method InitializeVector(vecEven: array<int>, vecOdd: array<int>, draw: nat -> int, m: nat)
    requires vecEven != vecOdd
    requires m / 2 <= vecEven.Length && m / 2 <= vecOdd.Length
    modifies vecEven, vecOdd
    ensures forall k :: 0 <= k < m / 2 ==> vecEven[k] == draw(2 * k) && vecOdd[k] == draw(2 * k + 1)
    ensures vecEven[m / 2..] == old(vecEven[m / 2..]) && vecOdd[m / 2..] == old(vecOdd[m / 2..])
  {
    var i := 0;
    while i < m / 2
      invariant 0 <= i <= m / 2
      invariant forall k :: 0 <= k < i ==> vecEven[k] == draw(2 * k) && vecOdd[k] == draw(2 * k + 1)
      invariant vecEven[m / 2..] == old(vecEven[m / 2..]) && vecOdd[m / 2..] == old(vecOdd[m / 2..])
    {
      vecEven[i] := draw(2 * i);
      vecOdd[i] := draw(2 * i + 1);
      i := i + 1;
    }
  }

  /** The same, also drawing the last even cell when m is odd. */
  method InitializeVectorFull(vecEven: array<int>, vecOdd: array<int>, draw: nat -> int, m: nat)
    requires vecEven != vecOdd
    requires vecEven.Length == m / 2 + m % 2 && vecOdd.Length == m / 2
    modifies vecEven, vecOdd
    ensures Interleave(vecEven[..], vecOdd[..]) == Draws(m, draw)
  {
    InitializeVector(vecEven, vecOdd, draw, m);
    if m % 2 == 1 {
      vecEven[m / 2] := draw(m - 1);
    }
    forall p | 0 <= p < m ensures Interleave(vecEven[..], vecOdd[..])[p] == draw(p) {
      InterleaveAt(vecEven[..], vecOdd[..], p / 2);
    }
  }

  /** main's allocation followed by the initialisation as written yields InitialContents. */
  method Allocate(m: nat, draw: nat -> int) returns (vecEven: array<int>, vecOdd: array<int>)
    ensures fresh(vecEven) && fresh(vecOdd)
    ensures vecEven.Length == m / 2 + m % 2 && vecOdd.Length == m / 2
    ensures Interleave(vecEven[..], vecOdd[..]) == InitialContents(m, draw)
  {
    vecEven := new int[m / 2 + m % 2](_ => 0);
    vecOdd := new int[m / 2](_ => 0);
    InitializeVector(vecEven, vecOdd, draw, m);
    InitialInterleave(vecEven[..], vecOdd[..], m, draw);
  }

  /** Drawn cells and a zero in the last even cell for odd m interleave to InitialContents. */
  lemma InitialInterleave(e: seq<int>, o: seq<int>, m: nat, draw: nat -> int)
    requires |e| == m / 2 + m % 2 && |o| == m / 2
    requires forall k :: 0 <= k < m / 2 ==> e[k] == draw(2 * k) && o[k] == draw(2 * k + 1)
    requires m % 2 == 1 ==> e[m / 2] == 0
    ensures Interleave(e, o) == InitialContents(m, draw)
  {
    InterleaveDrawn(e, o, m, draw);
    if m % 2 == 1 {
      InterleaveAt(e, o, m / 2);
    }
    assert forall p :: 0 <= p < m ==> Interleave(e, o)[p] == InitialContents(m, draw)[p];
  }

  /** Vectors whose first m / 2 cells of each hold the draws interleave to the draws, up to
      the last even cell for odd m. */
  lemma InterleaveDrawn(e: seq<int>, o: seq<int>, m: nat, draw: nat -> int)
    requires |e| == m / 2 + m % 2 && |o| == m / 2
    requires forall k :: 0 <= k < m / 2 ==> e[k] == draw(2 * k) && o[k] == draw(2 * k + 1)
    ensures forall p :: 0 <= p < 2 * (m / 2) ==> Interleave(e, o)[p] == draw(p)
  {
    forall p | 0 <= p < 2 * (m / 2) ensures Interleave(e, o)[p] == draw(p) {
      InterleaveAt(e, o, p / 2);
    }
  }

  /** For odd m the value of the last draw never reaches the array: with m = 1 the array is [0]
      whatever the generator returns. */
  lemma OddLengthLastCellNotDrawn()
    ensures InitialContents(1, _ => 7) == [0] != Draws(1, _ => 7)
  {
    assert InitialContents(1, _ => 7)[0] == 0;
  }

  lemma InterleaveSnoc(e: seq<int>, o: seq<int>, x: int, y: int)
    requires |e| == |o|
    ensures Interleave(e + [x], o + [y]) == Interleave(e, o) + [x, y]
  {
    var l, r := Interleave(e + [x], o + [y]), Interleave(e, o) + [x, y];
    forall p | 0 <= p < |l| ensures l[p] == r[p] {
      InterleaveAt(e + [x], o + [y], p / 2);
      if p < 2 * |e| {
        InterleaveAt(e, o, p / 2);
      }
    }
  }

  /** The rebuild loop as written: for every even cell i, push vecEven[i] and vecOdd[i]. It
      reads vecOdd[i] for every i < |vecEven|, so it needs |vecEven| <= |vecOdd|: with main's
      sizing, an even m. */
  method Rebuild(vecEven: array<int>, vecOdd: array<int>) returns (sorted: seq<int>)
    requires vecEven.Length <= vecOdd.Length
    ensures sorted == Interleave(vecEven[..], vecOdd[..vecEven.Length])
  {
    sorted := [];
    var i := 0;
    while i < vecEven.Length
      invariant 0 <= i <= vecEven.Length
      invariant sorted == Interleave(vecEven[..i], vecOdd[..i])
    {
      InterleaveSnoc(vecEven[..i], vecOdd[..i], vecEven[i], vecOdd[i]);
      assert vecEven[..i + 1] == vecEven[..i] + [vecEven[i]];
      assert vecOdd[..i + 1] == vecOdd[..i] + [vecOdd[i]];
      sorted := sorted + [vecEven[i]];
      sorted := sorted + [vecOdd[i]];
      i := i + 1;
    }
    assert vecEven[..i] == vecEven[..];
  }

  /** With main's sizing (evenLen = |vec_even|, oddLen = |vec_odd|), Rebuild's requirement holds
      exactly when m is even; for every odd m the last round reads vecOdd[evenLen - 1], and
      evenLen - 1 is oddLen, one past the end. */
  lemma OddLengthRebuildOverruns(m: nat, evenLen: nat, oddLen: nat)
    requires evenLen == m / 2 + m % 2 && oddLen == m / 2
    ensures evenLen <= oddLen <==> m % 2 == 0
    ensures m % 2 == 1 ==> evenLen - 1 == oddLen
  {
  }

  /** The rebuild with the bounds check the odd case needs: vecOdd[i] only while it exists. */
  method RebuildAll(vecEven: array<int>, vecOdd: array<int>) returns (sorted: seq<int>)
    requires vecOdd.Length <= vecEven.Length <= vecOdd.Length + 1
    ensures sorted == Interleave(vecEven[..], vecOdd[..])
  {
    sorted := [];
    var i := 0;
    while i < vecOdd.Length
      invariant 0 <= i <= vecOdd.Length
      invariant sorted == Interleave(vecEven[..i], vecOdd[..i])
    {
      InterleaveSnoc(vecEven[..i], vecOdd[..i], vecEven[i], vecOdd[i]);
      assert vecEven[..i + 1] == vecEven[..i] + [vecEven[i]];
      assert vecOdd[..i + 1] == vecOdd[..i] + [vecOdd[i]];
      sorted := sorted + [vecEven[i]];
      sorted := sorted + [vecOdd[i]];
      i := i + 1;
    }
    if i < vecEven.Length {
      var l := Interleave(vecEven[..], vecOdd[..]);
      forall p | 0 <= p < |l| ensures l[p] == (sorted + [vecEven[i]])[p] {
        InterleaveAt(vecEven[..], vecOdd[..], p / 2);
        if p < 2 * i {
          InterleaveAt(vecEven[..i], vecOdd[..i], p / 2);
        }
      }
      sorted := sorted + [vecEven[i]];
    } else {
      assert vecEven[..i] == vecEven[..] && vecOdd[..i] == vecOdd[..];
    }
  }

  /** The whole program for any length m: allocate, draw all m cells, sort, read back. The
      output is the sorted permutation of the m drawn values. */
  method SortTwoVectors(m: nat, draw: nat -> int) returns (sorted: seq<int>)
    ensures sorted == OddEvenSorted(Draws(m, draw))
    ensures Sorted(sorted) && multiset(sorted) == multiset(Draws(m, draw))
  {
    var vecEven := new int[m / 2 + m % 2](_ => 0);
    var vecOdd := new int[m / 2](_ => 0);
    InitializeVectorFull(vecEven, vecOdd, draw, m);
    OddEvenSort(vecEven, vecOdd);
    sorted := RebuildAll(vecEven, vecOdd);
  }
}
