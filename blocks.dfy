/** The block decomposition behind the thread and the farm versions. Each worker owns a block of
    cells; a non-last block also holds, as its last cell, a copy of the next block's first cell.
    The logical array is read off the blocks in one of two ways:
    - OddView: the whole first block, then every later block without its first cell, so that
      at a border the left block's trailing copy is the one that counts;
    - EvenView: every non-last block without its trailing copy, then the whole last block, so
      that at a border the right block's first cell counts (this is what the final rebuild reads).
    One phase of the parallel version is every worker refreshing its border copy from its
    neighbour, then running a local pass on its own block. */
module Blocks {
  import opened Kernel

  function Last(b: seq<int>): int
    requires |b| >= 1
  {
    b[|b| - 1]
  }

  /** Every block has a cell; a non-last block has an odd number of cells, at least three: at
      least two owned cells, an even number of them, and the copy of the next block's first. */
  predicate Shaped(bs: seq<seq<int>>)
  {
    && |bs| >= 1
    && (forall j :: 0 <= j < |bs| ==> |bs[j]| >= 1)
    && (forall j :: 0 <= j < |bs| - 1 ==> |bs[j]| >= 3 && |bs[j]| % 2 == 1)
  }

  /** Blocks k.. without their first cells. */
  function OddFrom(bs: seq<seq<int>>, k: nat): seq<int>
    requires Shaped(bs)
    decreases |bs| - k
  {
    if k >= |bs| then [] else bs[k][1..] + OddFrom(bs, k + 1)
  }

  function OddView(bs: seq<seq<int>>): seq<int>
    requires Shaped(bs)
  {
    bs[0] + OddFrom(bs, 1)
  }

  /** Blocks k.., the non-last ones without their trailing copies. */
  function EvenFrom(bs: seq<seq<int>>, k: nat): seq<int>
    requires Shaped(bs)
    decreases |bs| - k
  {
    if k >= |bs| then []
    else (if k < |bs| - 1 then bs[k][..|bs[k]| - 1] else bs[k]) + EvenFrom(bs, k + 1)
  }

  function EvenView(bs: seq<seq<int>>): seq<int>
    requires Shaped(bs)
  {
    EvenFrom(bs, 0)
  }

  /** Before the even phase, worker j > 0 overwrites its first cell with the last cell of
      block j - 1. */
  function RefreshLeft(bs: seq<seq<int>>, j: nat): (b: seq<int>)
    requires Shaped(bs) && j < |bs|
    ensures |b| == |bs[j]|
  {
    if j == 0 then bs[0] else bs[j][0 := Last(bs[j - 1])]
  }

  /** Before the odd phase, a non-last worker j overwrites its trailing copy with the first
      cell of block j + 1. */
  function RefreshRight(bs: seq<seq<int>>, j: nat): (b: seq<int>)
    requires Shaped(bs) && j < |bs|
    ensures |b| == |bs[j]|
  {
    if j == |bs| - 1 then bs[j] else bs[j][|bs[j]| - 1 := bs[j + 1][0]]
  }

  /** The even phase, all workers at once: each reads its neighbour before anyone writes. */
  function ParEven(bs: seq<seq<int>>): (r: seq<seq<int>>)
    requires Shaped(bs)
    ensures |r| == |bs| && Shaped(r)
  {
    seq(|bs|, j requires 0 <= j < |bs| => Pass(RefreshLeft(bs, j), 0))
  }

  /** The odd phase, all workers at once. */
  function ParOdd(bs: seq<seq<int>>): (r: seq<seq<int>>)
    requires Shaped(bs)
    ensures |r| == |bs| && Shaped(r)
  {
    seq(|bs|, j requires 0 <= j < |bs| => Pass(RefreshRight(bs, j), 1))
  }

  /** The shared counter after the odd phase: the number of workers k.. whose local odd pass
      found an inverted pair. */
  function CondFrom(bs: seq<seq<int>>, k: nat): nat
    requires Shaped(bs)
    decreases |bs| - k
  {
    if k >= |bs| then 0
    else (if Swaps(RefreshRight(bs, k), 1) > 0 then 1 else 0) + CondFrom(bs, k + 1)
  }

  /** The two copies of every border cell agree. */
  predicate Agree(bs: seq<seq<int>>)
    requires Shaped(bs)
  {
    forall j :: 0 <= j < |bs| - 1 ==> Last(bs[j]) == bs[j + 1][0]
  }

  // Passes and swap counts over a concatenation.

  lemma {:induction false} PassShift(a: seq<int>, b: seq<int>, q: nat)
    ensures Pass(a + b, |a| + q) == a + Pass(b, q)
    decreases |b| - q
  {
    if q + 1 < |b| {
      assert ExchangeAt(a + b, |a| + q) == a + ExchangeAt(b, q);
      PassShift(a, ExchangeAt(b, q), q + 2);
    }
  }

  /** A pass starting at `first` splits at any border an even distance from `first`. */
  lemma {:induction false} PassConcat(a: seq<int>, b: seq<int>, first: nat)
    requires first <= |a| && (|a| - first) % 2 == 0
    ensures Pass(a + b, first) == Pass(a, first) + Pass(b, 0)
    decreases |a| - first
  {
    if first + 1 < |a| {
      assert ExchangeAt(a + b, first) == ExchangeAt(a, first) + b;
      PassConcat(ExchangeAt(a, first), b, first + 2);
    } else {
      PassShift(a, b, 0);
    }
  }

  lemma {:induction false} SwapsShift(a: seq<int>, b: seq<int>, q: nat)
    ensures Swaps(a + b, |a| + q) == Swaps(b, q)
    decreases |b| - q
  {
    if q + 1 < |b| {
      assert ExchangeAt(a + b, |a| + q) == a + ExchangeAt(b, q);
      SwapsShift(a, ExchangeAt(b, q), q + 2);
    }
  }

  lemma {:induction false} SwapsConcat(a: seq<int>, b: seq<int>, first: nat)
    requires first <= |a| && (|a| - first) % 2 == 0
    ensures Swaps(a + b, first) == Swaps(a, first) + Swaps(b, 0)
    decreases |a| - first
  {
    if first + 1 < |a| {
      assert ExchangeAt(a + b, first) == ExchangeAt(a, first) + b;
      SwapsConcat(ExchangeAt(a, first), b, first + 2);
    } else {
      SwapsShift(a, b, 0);
    }
  }

  // The even phase.

  /** From block k >= 1 on, the even phase's blocks, read the even way, are the even pass over
      the border cell block k copied and the blocks k.. read the odd way. */
  lemma {:induction false} EvenFromPar(bs: seq<seq<int>>, k: nat)
    requires Shaped(bs) && 1 <= k < |bs|
    ensures EvenFrom(ParEven(bs), k) == Pass([Last(bs[k - 1])] + OddFrom(bs, k), 0)
    decreases |bs| - k
  {
    if k == |bs| - 1 {
      EvenParLast(bs, k);
    } else {
      EvenFromPar(bs, k + 1);
      EvenParStep(bs, k);
    }
  }

  /** The base case of EvenFromPar: the last block. */
  lemma EvenParLast(bs: seq<seq<int>>, k: nat)
    requires Shaped(bs) && 1 <= k == |bs| - 1
    ensures EvenFrom(ParEven(bs), k) == Pass([Last(bs[k - 1])] + OddFrom(bs, k), 0)
  {
    var e, x, b := ParEven(bs), Last(bs[k - 1]), bs[k];
    assert e[k] == Pass([x] + b[1..], 0) by {
      UpdateFirst(b, x);
    }
    OddFromLast(bs, k);
    EvenFromLast(e, k);
  }

  lemma OddFromLast(bs: seq<seq<int>>, k: nat)
    requires Shaped(bs) && k == |bs| - 1
    ensures OddFrom(bs, k) == bs[k][1..]
  {
    assert OddFrom(bs, k) == bs[k][1..] + [];
  }

  lemma EvenFromLast(bs: seq<seq<int>>, k: nat)
    requires Shaped(bs) && k == |bs| - 1
    ensures EvenFrom(bs, k) == bs[k]
  {
    assert EvenFrom(bs, k) == bs[k] + [];
  }

  /** The inductive step of EvenFromPar. */
  lemma EvenParStep(bs: seq<seq<int>>, k: nat)
    requires Shaped(bs) && 1 <= k < |bs| - 1
    requires EvenFrom(ParEven(bs), k + 1) == Pass([Last(bs[k])] + OddFrom(bs, k + 1), 0)
    ensures EvenFrom(ParEven(bs), k) == Pass([Last(bs[k - 1])] + OddFrom(bs, k), 0)
  {
    var e, x, b := ParEven(bs), Last(bs[k - 1]), bs[k];
    var head := Pass([x] + b[1..], 0);
    assert e[k] == head by {
      UpdateFirst(b, x);
    }
    OddFromUnfold(bs, k);
    EvenFromUnfold(e, k);
    EvenStep(x, b, OddFrom(bs, k + 1), head, EvenFrom(e, k + 1), OddFrom(bs, k), EvenFrom(e, k));
  }

  /** The step of EvenFromPar on plain values: block b with its first cell replaced by x, passed
      and cut before its trailing copy, followed by the pass from b's last cell over more. */
  lemma EvenStep(x: int, b: seq<int>, more: seq<int>, head: seq<int>, tail: seq<int>,
                  odd: seq<int>, whole: seq<int>)
    requires |b| >= 3 && |b| % 2 == 1
    requires head == Pass([x] + b[1..], 0) && tail == Pass([Last(b)] + more, 0)
    requires odd == b[1..] + more && whole == head[..|head| - 1] + tail
    ensures whole == Pass([x] + odd, 0)
  {
    Replace(x, b, more);
    SplitEven([x] + b[1..], more);
  }

  lemma UpdateFirst(b: seq<int>, x: int)
    requires |b| >= 1
    ensures b[0 := x] == [x] + b[1..]
  {
  }

  lemma Replace(x: int, b: seq<int>, more: seq<int>)
    requires |b| >= 2
    ensures Last([x] + b[1..]) == Last(b)
    ensures [x] + (b[1..] + more) == ([x] + b[1..]) + more
  {
  }

  /** The step of EvenFromPar: an even pass over an odd-length block followed by more cells
      splits before the block's trailing copy. */
  lemma SplitEven(c: seq<int>, more: seq<int>)
    requires |c| >= 1 && |c| % 2 == 1
    ensures Pass(c, 0)[..|c| - 1] + Pass([Last(c)] + more, 0) == Pass(c + more, 0)
  {
    var head := c[..|c| - 1];
    assert c == head + [Last(c)];
    PassConcat(head, [Last(c)], 0);
    assert c + more == head + ([Last(c)] + more);
    PassConcat(head, [Last(c)] + more, 0);
  }

  /** The even phase run by all workers at once is the even pass over the logical array: what
      the blocks hold read the odd way before the phase and read the even way after it. */
  lemma EvenPhaseView(bs: seq<seq<int>>)
    requires Shaped(bs)
    ensures EvenView(ParEven(bs)) == Pass(OddView(bs), 0)
  {
    var e := ParEven(bs);
    assert e[0] == Pass(bs[0], 0);
    if |bs| == 1 {
      assert EvenView(e) == e[0] + [] == e[0];
      assert OddView(bs) == bs[0] + [] == bs[0];
    } else {
      assert EvenView(e) == e[0][..|bs[0]| - 1] + EvenFrom(e, 1);
      EvenFromPar(bs, 1);
      SplitEven(bs[0], OddFrom(bs, 1));
    }
  }

  // The odd phase.

  lemma OddFromUnfold(bs: seq<seq<int>>, k: nat)
    requires Shaped(bs) && k < |bs|
    ensures OddFrom(bs, k) == bs[k][1..] + OddFrom(bs, k + 1)
  {
  }

  lemma EvenFromUnfold(bs: seq<seq<int>>, k: nat)
    requires Shaped(bs) && k < |bs| - 1
    ensures EvenFrom(bs, k) == bs[k][..|bs[k]| - 1] + EvenFrom(bs, k + 1)
  {
  }

  lemma EvenFromHead(bs: seq<seq<int>>, k: nat)
    requires Shaped(bs) && k < |bs|
    ensures |EvenFrom(bs, k)| >= 1 && EvenFrom(bs, k)[0] == bs[k][0]
  {
  }

  lemma SplitFirst(b: seq<int>)
    requires |b| >= 1
    ensures b == [b[0]] + b[1..]
  {
  }

  /** Moving the first cell of `rest` into the trailing copy of `b`. */
  lemma Regroup(b: seq<int>, rest: seq<int>)
    requires |b| >= 2 && |rest| >= 1
    ensures b[..|b| - 1] + rest == b[|b| - 1 := rest[0]] + rest[1..]
    ensures (b[..|b| - 1] + rest)[1..] == b[|b| - 1 := rest[0]][1..] + rest[1..]
  {
    assert rest == [rest[0]] + rest[1..];
  }

  /** From block k >= 1 on, the odd phase's blocks without their first cells are the even pass
      over the blocks k.., read the even way, without their first cell. */
  lemma {:induction false} OddFromPar(e: seq<seq<int>>, k: nat)
    requires Shaped(e) && 1 <= k < |e|
    ensures OddFrom(ParOdd(e), k) == Pass(EvenFrom(e, k)[1..], 0)
    decreases |e| - k
  {
    if k == |e| - 1 {
      OddParLast(e, k);
    } else {
      OddFromPar(e, k + 1);
      OddParStep(e, k);
    }
  }

  /** Block k of the odd phase without its first cell: the even pass over the refreshed block
      without its first cell. */
  lemma OddParHead(e: seq<seq<int>>, k: nat)
    requires Shaped(e) && 1 <= k < |e|
    ensures ParOdd(e)[k][1..] == Pass(RefreshRight(e, k)[1..], 0)
  {
    var rr := RefreshRight(e, k);
    SplitFirst(rr);
    PassShift([rr[0]], rr[1..], 0);
    assert ParOdd(e)[k] == Pass(rr, 1);
  }

  /** The base case of OddFromPar: the last block. */
  lemma OddParLast(e: seq<seq<int>>, k: nat)
    requires Shaped(e) && 1 <= k == |e| - 1
    ensures OddFrom(ParOdd(e), k) == Pass(EvenFrom(e, k)[1..], 0)
  {
    OddParHead(e, k);
    EvenFromLast(e, k);
    OddFromLast(ParOdd(e), k);
  }

  /** The inductive step of OddFromPar. */
  lemma OddParStep(e: seq<seq<int>>, k: nat)
    requires Shaped(e) && 1 <= k < |e| - 1
    requires OddFrom(ParOdd(e), k + 1) == Pass(EvenFrom(e, k + 1)[1..], 0)
    ensures OddFrom(ParOdd(e), k) == Pass(EvenFrom(e, k)[1..], 0)
  {
    var o, rr, rest := ParOdd(e), RefreshRight(e, k), EvenFrom(e, k + 1);
    OddParHead(e, k);
    EvenFromHead(e, k + 1);
    EvenFromUnfold(e, k);
    OddFromUnfold(o, k);
    OddStep(e[k], rest, rr, o[k][1..], OddFrom(o, k + 1));
  }

  /** The step of OddFromPar on plain values: block b with its trailing copy refreshed to the
      first cell of rest, passed without its first cell, then the pass over rest without its
      first cell. */
  lemma OddStep(b: seq<int>, rest: seq<int>, rr: seq<int>, head: seq<int>, tail: seq<int>)
    requires |b| >= 3 && |b| % 2 == 1 && |rest| >= 1 && rr == b[|b| - 1 := rest[0]]
    requires head == Pass(rr[1..], 0) && tail == Pass(rest[1..], 0)
    ensures head + tail == Pass((b[..|b| - 1] + rest)[1..], 0)
  {
    Regroup(b, rest);
    PassConcat(rr[1..], rest[1..], 0);
  }

  /** The same split for the swap count. */
  lemma SwapsStep(b: seq<int>, rest: seq<int>, rr: seq<int>)
    requires |b| >= 3 && |b| % 2 == 1 && |rest| >= 1 && rr == b[|b| - 1 := rest[0]]
    ensures Swaps((b[..|b| - 1] + rest)[1..], 0) == Swaps(rr[1..], 0) + Swaps(rest[1..], 0)
  {
    Regroup(b, rest);
    SwapsConcat(rr[1..], rest[1..], 0);
  }

  /** The odd phase run by all workers at once is the odd pass over the logical array: read the
      even way before the phase and the odd way after it. */
  lemma OddPhaseView(e: seq<seq<int>>)
    requires Shaped(e)
    ensures OddView(ParOdd(e)) == Pass(EvenView(e), 1)
  {
    var o := ParOdd(e);
    assert o[0] == Pass(RefreshRight(e, 0), 1);
    if |e| == 1 {
      assert EvenView(e) == e[0] + [] == e[0];
      assert OddView(o) == o[0] + [] == o[0];
    } else {
      var rr := RefreshRight(e, 0);
      var rest := EvenFrom(e, 1);
      EvenFromHead(e, 1);
      assert EvenView(e) == e[0][..|e[0]| - 1] + rest;
      Regroup(e[0], rest);
      PassConcat(rr, rest[1..], 1);
      OddFromPar(e, 1);
    }
  }

  /** From block k >= 1 on, no worker reports a swap exactly when the odd pass over the blocks
      k.., read the even way, without their first cell, finds no inverted pair. */
  lemma {:induction false} CondFromPar(e: seq<seq<int>>, k: nat)
    requires Shaped(e) && 1 <= k < |e|
    ensures CondFrom(e, k) == 0 <==> Swaps(EvenFrom(e, k)[1..], 0) == 0
    decreases |e| - k
  {
    if k == |e| - 1 {
      CondParLast(e, k);
    } else {
      CondFromPar(e, k + 1);
      CondParStep(e, k);
    }
  }

  /** Worker k's odd pass counts the swaps of its refreshed block without its first cell. */
  lemma CondParHead(e: seq<seq<int>>, k: nat)
    requires Shaped(e) && k < |e|
    ensures Swaps(RefreshRight(e, k), 1) == Swaps(RefreshRight(e, k)[1..], 0)
  {
    var rr := RefreshRight(e, k);
    SplitFirst(rr);
    SwapsShift([rr[0]], rr[1..], 0);
  }

  lemma CondFromUnfold(e: seq<seq<int>>, k: nat)
    requires Shaped(e) && k < |e|
    ensures CondFrom(e, k) == (if Swaps(RefreshRight(e, k), 1) > 0 then 1 else 0) + CondFrom(e, k + 1)
  {
  }

  /** The base case of CondFromPar: the last block. */
  lemma CondParLast(e: seq<seq<int>>, k: nat)
    requires Shaped(e) && 1 <= k == |e| - 1
    ensures CondFrom(e, k) == 0 <==> Swaps(EvenFrom(e, k)[1..], 0) == 0
  {
    CondParHead(e, k);
    EvenFromLast(e, k);
    CondFromUnfold(e, k);
    assert CondFrom(e, k + 1) == 0;
  }

  /** The inductive step of CondFromPar. */
  lemma CondParStep(e: seq<seq<int>>, k: nat)
    requires Shaped(e) && 1 <= k < |e| - 1
    requires CondFrom(e, k + 1) == 0 <==> Swaps(EvenFrom(e, k + 1)[1..], 0) == 0
    ensures CondFrom(e, k) == 0 <==> Swaps(EvenFrom(e, k)[1..], 0) == 0
  {
    var rr, rest := RefreshRight(e, k), EvenFrom(e, k + 1);
    CondParHead(e, k);
    EvenFromHead(e, k + 1);
    EvenFromUnfold(e, k);
    SwapsStep(e[k], rest, rr);
    CondFromUnfold(e, k);
  }

  /** The shared counter stays 0 exactly when the odd pass over the logical array, read the even
      way, swaps nothing. */
  lemma CondZero(e: seq<seq<int>>)
    requires Shaped(e)
    ensures CondFrom(e, 0) == 0 <==> Swaps(EvenView(e), 1) == 0
  {
    var rr := RefreshRight(e, 0);
    if |e| == 1 {
      assert EvenView(e) == e[0] + [] == e[0];
      assert CondFrom(e, 1) == 0;
    } else {
      var rest := EvenFrom(e, 1);
      EvenFromHead(e, 1);
      assert EvenView(e) == e[0][..|e[0]| - 1] + rest;
      Regroup(e[0], rest);
      SwapsConcat(rr, rest[1..], 1);
      CondFromPar(e, 1);
    }
  }

  // A whole round.

  /** One round of the parallel version is one round of the sequential sort on the logical array
      read the odd way, and the shared counter stays 0 exactly when the sequential sort would
      stop after this round. */
  lemma RoundView(bs: seq<seq<int>>)
    requires Shaped(bs)
    ensures OddView(ParOdd(ParEven(bs))) == Round(OddView(bs))
    ensures CondFrom(ParEven(bs), 0) == 0 <==> !Continues(OddView(bs))
  {
    EvenPhaseView(bs);
    OddPhaseView(ParEven(bs));
    CondZero(ParEven(bs));
  }

  lemma {:induction false} CondFromZero(e: seq<seq<int>>, k: nat)
    requires Shaped(e) && CondFrom(e, k) == 0
    ensures forall j :: k <= j < |e| ==> Swaps(RefreshRight(e, j), 1) == 0
    decreases |e| - k
  {
    if k < |e| {
      CondFromZero(e, k + 1);
    }
  }

  /** Two block lists with the same parts read the even way read the same. */
  lemma {:induction false} EvenFromSame(a: seq<seq<int>>, b: seq<seq<int>>, k: nat)
    requires Shaped(a) && Shaped(b) && |a| == |b|
    requires forall j :: k <= j < |a| - 1 ==> a[j][..|a[j]| - 1] == b[j][..|b[j]| - 1]
    requires k < |a| ==> a[|a| - 1] == b[|b| - 1]
    ensures EvenFrom(a, k) == EvenFrom(b, k)
    decreases |a| - k
  {
    if k < |a| {
      EvenFromSame(a, b, k + 1);
    }
  }

  /** When no worker finds an inverted pair, every local odd pass leaves its refreshed block as
      it is. */
  lemma QuietBlocks(e: seq<seq<int>>)
    requires Shaped(e) && Swaps(EvenView(e), 1) == 0
    ensures forall j :: 0 <= j < |e| ==> ParOdd(e)[j] == RefreshRight(e, j)
  {
    CondZero(e);
    CondFromZero(e, 0);
    forall j | 0 <= j < |e|
      ensures ParOdd(e)[j] == RefreshRight(e, j)
    {
      SwapsDetectInversion(RefreshRight(e, j), 1);
      PassIdentity(RefreshRight(e, j), 1);
    }
  }

  /** Blocks that are just refreshed on the right read the same the even way, and every border
      cell's two copies agree. */
  lemma RefreshedReadings(e: seq<seq<int>>, o: seq<seq<int>>)
    requires Shaped(e) && Shaped(o) && |o| == |e|
    requires forall j :: 0 <= j < |e| ==> o[j] == RefreshRight(e, j)
    ensures EvenView(o) == EvenView(e)
    ensures Agree(o)
  {
    forall j | 0 <= j < |e| - 1
      ensures o[j][..|o[j]| - 1] == e[j][..|e[j]| - 1]
    {
    }
    forall j | 0 <= j < |e| - 1
      ensures Last(o[j]) == o[j + 1][0]
    {
      assert o[j + 1] == RefreshRight(e, j + 1);
    }
    EvenFromSame(o, e, 0);
  }

  /** An odd phase in which no worker finds an inverted pair changes nothing the even way, leaves
      the odd way reading the same, and leaves the two copies of every border cell equal. */
  lemma QuietOddPhase(e: seq<seq<int>>)
    requires Shaped(e) && Swaps(EvenView(e), 1) == 0
    ensures EvenView(ParOdd(e)) == EvenView(e)
    ensures OddView(ParOdd(e)) == EvenView(e)
    ensures Agree(ParOdd(e))
  {
    QuietBlocks(e);
    RefreshedReadings(e, ParOdd(e));
    OddPhaseView(e);
    SwapsDetectInversion(EvenView(e), 1);
    PassIdentity(EvenView(e), 1);
  }

  /** The round after which the sequential sort stops: the parallel version ends it with both
      readings equal to the sorted result and the two copies of every border cell equal. */
  lemma LastRound(bs: seq<seq<int>>)
    requires Shaped(bs) && !Continues(OddView(bs))
    ensures EvenView(ParOdd(ParEven(bs))) == OddEvenSorted(OddView(bs))
    ensures OddView(ParOdd(ParEven(bs))) == OddEvenSorted(OddView(bs))
    ensures Agree(ParOdd(ParEven(bs)))
  {
    var s := OddView(bs);
    EvenPhaseView(bs);
    QuietOddPhase(ParEven(bs));
    RoundView(bs);
    assert OddEvenSorted(s) == Round(s);
  }

  /** One round of the two simultaneous phases, as both parallel loops take it: a zero count in
      the odd phase ends the sort with the sorted result in place, any other count keeps the
      result the sort will reach and removes inversions from the odd reading. */
  lemma ParRoundStep(bs: seq<seq<int>>)
    requires Shaped(bs)
    ensures CondFrom(ParEven(bs), 0) == 0 ==>
      && EvenView(ParOdd(ParEven(bs))) == OddEvenSorted(OddView(bs))
      && OddView(ParOdd(ParEven(bs))) == OddEvenSorted(OddView(bs))
      && Agree(ParOdd(ParEven(bs)))
    ensures CondFrom(ParEven(bs), 0) != 0 ==>
      && OddEvenSorted(OddView(ParOdd(ParEven(bs)))) == OddEvenSorted(OddView(bs))
      && Inversions(OddView(ParOdd(ParEven(bs)))) < Inversions(OddView(bs))
  {
    RoundView(bs);
    if CondFrom(ParEven(bs), 0) == 0 {
      LastRound(bs);
    } else {
      RoundInversions(OddView(bs));
    }
  }
}
