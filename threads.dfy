/** The thread version on its padded buffer: every worker sorts its own block in place, refreshing
    its border copies from its neighbours' blocks before each phase. A phase of all workers is
    modelled as the workers' steps run one after the other in worker order; the lemmas below show
    that this order gives the same buffer as all workers reading before anyone writes. */
module Threads {
  import opened Kernel
  import opened Ranges
  import opened Blocks
  import opened Padded

  /** Whether buffer cell x belongs to some worker's block (its owned cells or its copy). */
  predicate Owned(t: seq<Range>, x: int)
  {
    exists j :: 0 <= j < |t| && t[j].lStart <= x <= t[j].lStart + t[j].size
  }

  /** Two buffers of the same length agree on every cell outside all blocks: the padding, which
      the sort must leave alone. */
  predicate SamePadding(a: seq<int>, b: seq<int>, t: seq<Range>)
  {
    |a| == |b| && forall x :: 0 <= x < |a| && !Owned(t, x) ==> a[x] == b[x]
  }

  lemma PaddingTrans(a: seq<int>, b: seq<int>, c: seq<int>, t: seq<Range>)
    requires SamePadding(a, b, t) && SamePadding(b, c, t)
    ensures SamePadding(a, c, t)
  {
  }

  /** Replacing a block leaves the cells outside all blocks as they were. */
  lemma PutPadding(b: seq<int>, t: seq<Range>, j: nat, nb: seq<int>)
    requires Laid(t, |b|) && j < |t| && |nb| == t[j].size + 1
    ensures SamePadding(b, Put(b, t, j, nb), t)
  {
    var p := Put(b, t, j, nb);
    forall x | 0 <= x < |b| && !Owned(t, x)
      ensures p[x] == b[x]
    {
      assert !(t[j].lStart <= x <= t[j].lStart + t[j].size);
      if x < t[j].lStart {
        assert p[x] == b[..t[j].lStart][x];
      } else {
        assert p[x] == b[t[j].lStart + t[j].size + 1..][x - (t[j].lStart + t[j].size + 1)];
      }
    }
  }

  /** The blocks while a phase is under way in worker order: workers before i have taken their
      step, the others not yet. */
  function Halfway(done: seq<seq<int>>, e: seq<seq<int>>, i: nat): seq<seq<int>>
    requires i <= |done| && i <= |e|
  {
    done[..i] + e[i..]
  }

  lemma HalfwayShaped(e: seq<seq<int>>, done: seq<seq<int>>, i: nat)
    requires Shaped(e) && |done| == |e| && i <= |e|
    requires forall j :: 0 <= j < |e| ==> |done[j]| == |e[j]|
    ensures Shaped(Halfway(done, e, i))
    ensures forall j :: 0 <= j < i ==> Halfway(done, e, i)[j] == done[j]
    ensures forall j :: i <= j < |e| ==> Halfway(done, e, i)[j] == e[j]
  {
    var h := Halfway(done, e, i);
    forall j | 0 <= j < |e| ensures h[j] == if j < i then done[j] else e[j] {
    }
  }

  lemma HalfwayStep(done: seq<seq<int>>, e: seq<seq<int>>, i: nat)
    requires |done| == |e| && i < |e|
    ensures Halfway(done, e, i)[i := done[i]] == Halfway(done, e, i + 1)
  {
    var h := Halfway(done, e, i);
    assert h[i := done[i]] == done[..i + 1] + e[i + 1..];
  }

  /** In the even phase, worker i reads block i - 1 after worker i - 1 has taken its even step;
      that step does not touch the last cell, so worker i refreshes as if it had read first. */
  lemma EvenHalfway(e: seq<seq<int>>, i: nat)
    requires Shaped(e) && i < |e|
    ensures Shaped(Halfway(ParEven(e), e, i))
    ensures RefreshLeft(Halfway(ParEven(e), e, i), i) == RefreshLeft(e, i)
  {
    var p := ParEven(e);
    var h := Halfway(p, e, i);
    assert Shaped(h) && h[i] == e[i] && (i > 0 ==> h[i - 1] == p[i - 1]) by {
      ParLengths(e);
      HalfwayShaped(e, p, i);
    }
    if i > 0 {
      EvenKeepsLast(e, i - 1);
    }
    RefreshLeftSame(h, e, i);
  }

  /** Worker i refreshes the same way from two block lists that agree on its block and on the
      last cell of the previous one. */
  lemma RefreshLeftSame(h: seq<seq<int>>, e: seq<seq<int>>, i: nat)
    requires Shaped(h) && Shaped(e) && |h| == |e| && i < |e| && h[i] == e[i]
    requires i > 0 ==> Last(h[i - 1]) == Last(e[i - 1])
    ensures RefreshLeft(h, i) == RefreshLeft(e, i)
  {
  }

  lemma ParLengths(e: seq<seq<int>>)
    requires Shaped(e)
    ensures forall j :: 0 <= j < |e| ==> |ParEven(e)[j]| == |e[j]| && |ParOdd(e)[j]| == |e[j]|
  {
    forall j | 0 <= j < |e| ensures |ParEven(e)[j]| == |e[j]| && |ParOdd(e)[j]| == |e[j]| {
      assert ParEven(e)[j] == Pass(RefreshLeft(e, j), 0);
      assert ParOdd(e)[j] == Pass(RefreshRight(e, j), 1);
    }
  }

  /** A non-last block's even step leaves its trailing copy alone. */
  lemma EvenKeepsLast(e: seq<seq<int>>, j: nat)
    requires Shaped(e) && j < |e| - 1
    ensures Last(ParEven(e)[j]) == Last(e[j])
  {
    var s := RefreshLeft(e, j);
    assert |s| == |e[j]| >= 3 && |s| % 2 == 1;
    assert s[|s| - 1] == e[j][|s| - 1];
    PassKeepsUnpairedLast(s, 0);
    assert ParEven(e)[j] == Pass(s, 0);
  }

  /** In the odd phase, worker i reads block i + 1 before worker i + 1 writes it. */
  lemma OddHalfway(e: seq<seq<int>>, i: nat)
    requires Shaped(e) && i < |e|
    ensures Shaped(Halfway(ParOdd(e), e, i))
    ensures RefreshRight(Halfway(ParOdd(e), e, i), i) == RefreshRight(e, i)
  {
    var h := Halfway(ParOdd(e), e, i);
    assert Shaped(h) && h[i] == e[i] && (i + 1 < |e| ==> h[i + 1] == e[i + 1]) by {
      ParLengths(e);
      HalfwayShaped(e, ParOdd(e), i);
    }
    RefreshRightSame(h, e, i);
  }

  /** A block's odd step leaves its first cell alone: neither the refresh of the trailing copy
      nor the pass, whose first pair is cells 1 and 2, writes cell 0. */
  lemma OddKeepsFirst(e: seq<seq<int>>, j: nat)
    requires Shaped(e) && j < |e|
    ensures ParOdd(e)[j][0] == e[j][0]
  {
    var s := RefreshRight(e, j);
    assert s[0] == e[j][0];
    PassKeepsPrefix(s, 1, 0);
    assert ParOdd(e)[j] == Pass(s, 1);
  }

  /** The odd phase does not depend on the order of two neighbours: worker i reads the same cell
      after worker i + 1's odd step as before it. */
  lemma OddOrderFree(e: seq<seq<int>>, i: nat)
    requires Shaped(e) && i + 1 < |e|
    ensures Shaped(e[i + 1 := ParOdd(e)[i + 1]])
    ensures RefreshRight(e[i + 1 := ParOdd(e)[i + 1]], i) == RefreshRight(e, i)
  {
    var b := ParOdd(e)[i + 1];
    assert |b| == |e[i + 1]| by {
      assert b == Pass(RefreshRight(e, i + 1), 1);
    }
    var h := e[i + 1 := b];
    assert Shaped(h) by {
      forall j | 0 <= j < |h| ensures |h[j]| == |e[j]| {
      }
    }
    OddKeepsFirst(e, i + 1);
    assert h[i] == e[i] && h[i + 1][0] == e[i + 1][0];
  }

  /** Worker i refreshes the same way from two block lists that agree on its block and on the
      next one. */
  lemma RefreshRightSame(h: seq<seq<int>>, e: seq<seq<int>>, i: nat)
    requires Shaped(h) && Shaped(e) && |h| == |e| && i < |e| && h[i] == e[i]
    requires i + 1 < |e| ==> h[i + 1] == e[i + 1]
    ensures RefreshRight(h, i) == RefreshRight(e, i)
  {
  }

  /** The whole buffer, once all blocks of the phase have been written. */
  lemma HalfwayDone(done: seq<seq<int>>, e: seq<seq<int>>)
    requires |done| == |e|
    ensures Halfway(done, e, |e|) == done
  {
  }

  /** The even loop of a worker: compare-exchange (0,1), (2,3), ... below size inside the
      size + 1 cells from l. */
  method EvenPass(vec: array<int>, l: nat, size: nat)
    requires l + size + 1 <= vec.Length
    modifies vec
    ensures vec[l..l + size + 1] == Pass(old(vec[l..l + size + 1]), 0)
    ensures vec[..l] == old(vec[..l]) && vec[l + size + 1..] == old(vec[l + size + 1..])
  {
    ghost var start := vec[l..l + size + 1];
    var i := 0;
    while i < size
      invariant 0 <= i <= size + 1
      invariant Pass(vec[l..l + size + 1], i) == Pass(start, 0)
      invariant vec[..l] == old(vec[..l]) && vec[l + size + 1..] == old(vec[l + size + 1..])
    {
      var _ := ExchangeCells(vec, l, size, i);
      i := i + 2;
    }
  }

  /** One compare-exchange of the loops below: cells l + i and l + i + 1 are put in order;
      swapped is whether they were inverted. */
  method ExchangeCells(vec: array<int>, l: nat, size: nat, i: nat) returns (swapped: bool)
    requires i < size && l + size + 1 <= vec.Length
    modifies vec
    ensures vec[l..l + size + 1] == ExchangeAt(old(vec[l..l + size + 1]), i)
    ensures swapped <==> (old(vec[l..l + size + 1])[i] > old(vec[l..l + size + 1])[i + 1])
    ensures vec[..l] == old(vec[..l]) && vec[l + size + 1..] == old(vec[l + size + 1..])
  {
    ghost var before := vec[l..l + size + 1];
    var first := vec[l + i];
    var second := vec[l + i + 1];
    var temp := first;
    first := if first > second then second else first;
    second := if temp > second then temp else second;
    vec[l + i] := first;
    vec[l + i + 1] := second;
    swapped := temp > first;
    assert vec[l..l + size + 1] == ExchangeAt(before, i);
  }

  /** The odd loop of a worker: compare-exchange (1,2), (3,4), ... up to size inside the
      size + 1 cells from l; test is whether a pair was inverted. */
  method OddPass(vec: array<int>, l: nat, size: nat) returns (test: bool)
    requires l + size + 1 <= vec.Length
    modifies vec
    ensures vec[l..l + size + 1] == Pass(old(vec[l..l + size + 1]), 1)
    ensures test <==> Swaps(old(vec[l..l + size + 1]), 1) > 0
    ensures vec[..l] == old(vec[..l]) && vec[l + size + 1..] == old(vec[l + size + 1..])
  {
    ghost var start := vec[l..l + size + 1];
    ghost var swaps: nat := 0;
    test := false;
    var i := 1;
    while i < size
      invariant 1 <= i <= size + 2
      invariant Pass(vec[l..l + size + 1], i) == Pass(start, 1)
      invariant Swaps(start, 1) == swaps + Swaps(vec[l..l + size + 1], i)
      invariant test <==> swaps > 0
      invariant vec[..l] == old(vec[..l]) && vec[l + size + 1..] == old(vec[l + size + 1..])
    {
      var swapped := ExchangeCells(vec, l, size, i);
      test := test || swapped;
      swaps := swaps + if swapped then 1 else 0;
      i := i + 2;
    }
  }

  /** A sequence that agrees with a outside [l, l + n) and holds mid there is a with mid
      spliced in. */
  lemma Splice(a: seq<int>, b: seq<int>, l: nat, n: nat, mid: seq<int>)
    requires |a| == |b| && l + n <= |a| && |mid| == n
    requires b[..l] == a[..l] && b[l + n..] == a[l + n..] && b[l..l + n] == mid
    ensures b == a[..l] + mid + a[l + n..]
  {
    assert b == b[..l] + b[l..l + n] + b[l + n..];
  }

  /** Overwriting one cell inside a slice is overwriting it in the slice. */
  lemma UpdateSlice(a: seq<int>, lo: nat, hi: nat, i: nat, x: int)
    requires lo <= i < hi <= |a|
    ensures a[i := x][lo..hi] == a[lo..hi][i - lo := x]
  {
  }

  /** The even refresh on the buffer: worker id > 0 copies the previous block's trailing
      cell into its own first cell. */
  lemma RefreshLeftAt(b: seq<int>, t: seq<Range>, id: nat)
    requires Laid(t, |b|) && id < |t|
    ensures id == 0 ==> b[t[id].lStart..t[id].lStart + t[id].size + 1] == RefreshLeft(BlocksOf(b, t), id)
    ensures id != 0 ==> var l := t[id].lStart;
      && b[l := b[t[id - 1].lStart + t[id - 1].size]][l..l + t[id].size + 1] == RefreshLeft(BlocksOf(b, t), id)
      && b[l := b[t[id - 1].lStart + t[id - 1].size]][..l] == b[..l]
      && b[l := b[t[id - 1].lStart + t[id - 1].size]][l + t[id].size + 1..] == b[l + t[id].size + 1..]
  {
    var bs, l := BlocksOf(b, t), t[id].lStart;
    if id != 0 {
      assert bs[id] == b[l..l + t[id].size + 1];
      assert Last(bs[id - 1]) == b[t[id - 1].lStart + t[id - 1].size];
      UpdateSlice(b, l, l + t[id].size + 1, l, b[t[id - 1].lStart + t[id - 1].size]);
    }
  }

  /** The odd refresh on the buffer: a non-last worker copies the next block's first cell into
      its trailing cell. */
  lemma RefreshRightAt(b: seq<int>, t: seq<Range>, id: nat)
    requires Laid(t, |b|) && id < |t|
    ensures id == |t| - 1 ==> b[t[id].lStart..t[id].lStart + t[id].size + 1] == RefreshRight(BlocksOf(b, t), id)
    ensures id != |t| - 1 ==> var l, e := t[id].lStart, t[id].lStart + t[id].size;
      && b[e := b[t[id + 1].lStart]][l..e + 1] == RefreshRight(BlocksOf(b, t), id)
      && b[e := b[t[id + 1].lStart]][..l] == b[..l]
      && b[e := b[t[id + 1].lStart]][e + 1..] == b[e + 1..]
  {
    var bs, l, e := BlocksOf(b, t), t[id].lStart, t[id].lStart + t[id].size;
    if id != |t| - 1 {
      assert bs[id] == b[l..e + 1];
      assert bs[id + 1][0] == b[t[id + 1].lStart];
      UpdateSlice(b, l, e + 1, e, b[t[id + 1].lStart]);
    }
  }

  /** The even refresh: worker id > 0 copies the previous block's trailing cell into its first. */
  method CopyLeft(vec: array<int>, t: seq<Range>, id: nat)
    requires Laid(t, vec.Length) && id < |t|
    modifies vec
    ensures vec[t[id].lStart..t[id].lStart + t[id].size + 1] == RefreshLeft(BlocksOf(old(vec[..]), t), id)
    ensures vec[..t[id].lStart] == old(vec[..t[id].lStart])
    ensures vec[t[id].lStart + t[id].size + 1..] == old(vec[t[id].lStart + t[id].size + 1..])
  {
    var l := t[id].lStart;
    if id != 0 {
      vec[l] := vec[t[id - 1].lStart + t[id - 1].size];
    }
    RefreshLeftAt(old(vec[..]), t, id);
    assert vec[..] == if id != 0 then old(vec[..])[l := old(vec[..])[t[id - 1].lStart + t[id - 1].size]]
                      else old(vec[..]);
  }

  /** The odd refresh: a non-last worker copies the next block's first cell into its trailing
      cell. */
  method CopyRight(vec: array<int>, t: seq<Range>, id: nat)
    requires Laid(t, vec.Length) && id < |t|
    modifies vec
    ensures vec[t[id].lStart..t[id].lStart + t[id].size + 1] == RefreshRight(BlocksOf(old(vec[..]), t), id)
    ensures vec[..t[id].lStart] == old(vec[..t[id].lStart])
    ensures vec[t[id].lStart + t[id].size + 1..] == old(vec[t[id].lStart + t[id].size + 1..])
  {
    var l, e := t[id].lStart, t[id].lStart + t[id].size;
    if id != |t| - 1 {
      vec[e] := vec[t[id + 1].lStart];
    }
    RefreshRightAt(old(vec[..]), t, id);
    assert vec[..] == if id != |t| - 1 then old(vec[..])[e := old(vec[..])[t[id + 1].lStart]]
                      else old(vec[..]);
  }

  /** Worker id's even phase (before the first barrier): refresh cell 0 from the previous
      block's trailing copy, then the even loop. */
  method EvenStep(vec: array<int>, t: seq<Range>, id: nat)
    requires Laid(t, vec.Length) && id < |t|
    modifies vec
    ensures vec[..] == Put(old(vec[..]), t, id, Pass(RefreshLeft(BlocksOf(old(vec[..]), t), id), 0))
  {
    var l := t[id].lStart;
    var size := t[id].size;
    ghost var nb := RefreshLeft(BlocksOf(old(vec[..]), t), id);
    CopyLeft(vec, t, id);
    EvenPass(vec, l, size);
    Splice(old(vec[..]), vec[..], l, size + 1, Pass(nb, 0));
  }

  /** Worker id's odd phase (between the barriers): refresh the trailing copy from the next
      block's first cell, then the odd loop. */
  method OddStep(vec: array<int>, t: seq<Range>, id: nat) returns (test: bool)
    requires Laid(t, vec.Length) && id < |t|
    modifies vec
    ensures vec[..] == Put(old(vec[..]), t, id, Pass(RefreshRight(BlocksOf(old(vec[..]), t), id), 1))
    ensures test <==> Swaps(RefreshRight(BlocksOf(old(vec[..]), t), id), 1) > 0
  {
    var l := t[id].lStart;
    var size := t[id].size;
    ghost var nb := RefreshRight(BlocksOf(old(vec[..]), t), id);
    CopyRight(vec, t, id);
    test := OddPass(vec, l, size);
    Splice(old(vec[..]), vec[..], l, size + 1, Pass(nb, 1));
  }

  /** Worker id writing its block of the phase moves the buffer one worker further through the
      phase and leaves the padding alone. */
  lemma PhaseStep(before: seq<int>, t: seq<Range>, e: seq<seq<int>>, done: seq<seq<int>>, id: nat)
    requires Laid(t, |before|) && |e| == |t| && |done| == |t| && id < |t|
    requires |done[id]| == t[id].size + 1
    requires BlocksOf(before, t) == Halfway(done, e, id)
    ensures BlocksOf(Put(before, t, id, done[id]), t) == Halfway(done, e, id + 1)
    ensures SamePadding(before, Put(before, t, id, done[id]), t)
  {
    PutBlocks(before, t, id, done[id]);
    PutPadding(before, t, id, done[id]);
    HalfwayStep(done, e, id);
  }

  /** Worker id's even step, taken after the workers before it, moves the buffer one worker
      further through the simultaneous even phase. */
  lemma EvenStepBlocks(before: seq<int>, after: seq<int>, t: seq<Range>, e: seq<seq<int>>, id: nat)
    requires Laid(t, |before|) && Shaped(e) && |e| == |t| && id < |t|
    requires BlocksOf(before, t) == Halfway(ParEven(e), e, id)
    requires after == Put(before, t, id, Pass(RefreshLeft(BlocksOf(before, t), id), 0))
    ensures BlocksOf(after, t) == Halfway(ParEven(e), e, id + 1)
    ensures SamePadding(before, after, t)
  {
    EvenHalfway(e, id);
    assert Pass(RefreshLeft(BlocksOf(before, t), id), 0) == ParEven(e)[id];
    PhaseStep(before, t, e, ParEven(e), id);
  }

  /** Worker id's odd step, taken after the workers before it, moves the buffer one worker
      further through the simultaneous odd phase, and its test is the simultaneous one. */
  lemma OddStepBlocks(before: seq<int>, after: seq<int>, t: seq<Range>, e: seq<seq<int>>, id: nat)
    requires Laid(t, |before|) && Shaped(e) && |e| == |t| && id < |t|
    requires BlocksOf(before, t) == Halfway(ParOdd(e), e, id)
    requires after == Put(before, t, id, Pass(RefreshRight(BlocksOf(before, t), id), 1))
    ensures BlocksOf(after, t) == Halfway(ParOdd(e), e, id + 1)
    ensures SamePadding(before, after, t)
    ensures RefreshRight(BlocksOf(before, t), id) == RefreshRight(e, id)
  {
    OddHalfway(e, id);
    assert Pass(RefreshRight(BlocksOf(before, t), id), 1) == ParOdd(e)[id];
    PhaseStep(before, t, e, ParOdd(e), id);
  }

  /** The even phase of all workers, run in worker order: the blocks become those of the
      simultaneous even phase, and the padding is untouched. */
  method EvenPhase(vec: array<int>, t: seq<Range>)
    requires Laid(t, vec.Length)
    modifies vec
    ensures BlocksOf(vec[..], t) == ParEven(BlocksOf(old(vec[..]), t))
    ensures SamePadding(old(vec[..]), vec[..], t)
  {
    ghost var e := BlocksOf(vec[..], t);
    var id := 0;
    while id < |t|
      invariant 0 <= id <= |t|
      invariant BlocksOf(vec[..], t) == Halfway(ParEven(e), e, id)
      invariant SamePadding(old(vec[..]), vec[..], t)
    {
      ghost var before := vec[..];
      EvenStep(vec, t, id);
      EvenStepBlocks(before, vec[..], t, e, id);
      PaddingTrans(old(vec[..]), before, vec[..], t);
      id := id + 1;
    }
    HalfwayDone(ParEven(e), e);
  }

  /** Worker id's test adds its share to the shared counter. */
  lemma Tally(e: seq<seq<int>>, id: nat, test: bool, rr: seq<int>)
    requires Shaped(e) && id < |e| && rr == RefreshRight(e, id) && (test <==> Swaps(rr, 1) > 0)
    ensures CondFrom(e, id) == (if test then 1 else 0) + CondFrom(e, id + 1)
  {
    CondFromUnfold(e, id);
  }

  /** The odd phase of all workers, run in worker order; cond is the shared counter, summing the
      workers' tests. */
  method OddPhase(vec: array<int>, t: seq<Range>) returns (cond: nat)
    requires Laid(t, vec.Length)
    modifies vec
    ensures BlocksOf(vec[..], t) == ParOdd(BlocksOf(old(vec[..]), t))
    ensures cond == CondFrom(BlocksOf(old(vec[..]), t), 0)
    ensures SamePadding(old(vec[..]), vec[..], t)
  {
    ghost var orig := vec[..];
    ghost var e := BlocksOf(orig, t);
    cond := 0;
    var id := 0;
    while id < |t|
      invariant 0 <= id <= |t|
      invariant OddProgress(orig, vec[..], t, e, id, cond)
    {
      ghost var before, i0, c0 := vec[..], id, cond;
      var test := OddStep(vec, t, id);
      cond := cond + if test then 1 else 0;
      id := id + 1;
      OddAdvance(orig, before, vec[..], t, e, i0, c0, test, id, cond);
    }
    OddDone(orig, vec[..], t, e, cond);
  }

  /** How far the odd phase has got after the first id workers: their blocks are written, cond
      holds their tests, and no padding cell has changed. */
  ghost predicate OddProgress(orig: seq<int>, v: seq<int>, t: seq<Range>, e: seq<seq<int>>, id: nat,
                              cond: int)
  {
    && Laid(t, |v|) && Shaped(e) && |e| == |t| && id <= |t|
    && BlocksOf(v, t) == Halfway(ParOdd(e), e, id)
    && cond + CondFrom(e, id) == CondFrom(e, 0)
    && SamePadding(orig, v, t)
  }

  /** After the last worker the odd phase is complete. */
  lemma OddDone(orig: seq<int>, v: seq<int>, t: seq<Range>, e: seq<seq<int>>, cond: int)
    requires OddProgress(orig, v, t, e, |t|, cond)
    ensures BlocksOf(v, t) == ParOdd(e) && cond == CondFrom(e, 0) && SamePadding(orig, v, t)
  {
    HalfwayDone(ParOdd(e), e);
  }

  /** Worker id's odd step moves the phase one worker on. */
  lemma OddAdvance(orig: seq<int>, before: seq<int>, after: seq<int>, t: seq<Range>,
                   e: seq<seq<int>>, id: nat, cond: int, test: bool, id': nat, cond': int)
    requires OddProgress(orig, before, t, e, id, cond) && id < |t|
    requires after == Put(before, t, id, Pass(RefreshRight(BlocksOf(before, t), id), 1))
    requires test <==> Swaps(RefreshRight(BlocksOf(before, t), id), 1) > 0
    requires id' == id + 1 && cond' == cond + if test then 1 else 0
    ensures OddProgress(orig, after, t, e, id', cond')
  {
    OddStepBlocks(before, after, t, e, id);
    PaddingTrans(orig, before, after, t);
    Tally(e, id, test, RefreshRight(BlocksOf(before, t), id));
  }

  /** The workers' loop: rounds of an even and an odd phase until a round's counter stays 0. The
      logical array, read either way off the blocks, ends up as the kernel's OddEvenSorted of the
      logical array it started as, and the copies agree. */
  method Sort(vec: array<int>, t: seq<Range>)
    requires Laid(t, vec.Length)
    modifies vec
    ensures EvenView(BlocksOf(vec[..], t)) == OddEvenSorted(OddView(BlocksOf(old(vec[..]), t)))
    ensures OddView(BlocksOf(vec[..], t)) == OddEvenSorted(OddView(BlocksOf(old(vec[..]), t)))
    ensures Agree(BlocksOf(vec[..], t))
    ensures SamePadding(old(vec[..]), vec[..], t)
  {
    while true
      invariant OddEvenSorted(OddView(BlocksOf(vec[..], t)))
             == OddEvenSorted(OddView(BlocksOf(old(vec[..]), t)))
      invariant SamePadding(old(vec[..]), vec[..], t)
      decreases Inversions(OddView(BlocksOf(vec[..], t)))
    {
      ghost var bs, v0 := BlocksOf(vec[..], t), vec[..];
      EvenPhase(vec, t);
      ghost var v1 := vec[..];
      var cond := OddPhase(vec, t);
      PaddingTrans(v0, v1, vec[..], t);
      PaddingTrans(old(vec[..]), v0, vec[..], t);
      ParRoundStep(bs);
      if cond == 0 {
        break;
      }
    }
  }

  /** Rebuilding the sorted vector: the owned cells of every block in worker order, and for the
      last worker also its cell at size. That is the logical array read the even way, except that
      a last worker owning no cell contributes nothing. */
  method Rebuild(vec: array<int>, t: seq<Range>) returns (sorted: seq<int>)
    requires Laid(t, vec.Length)
    ensures t[|t| - 1].size >= 1 ==> sorted == EvenView(BlocksOf(vec[..], t))
    ensures t[|t| - 1].size == 0 ==>
      sorted + [vec[t[|t| - 1].lStart]] == EvenView(BlocksOf(vec[..], t))
  {
    ghost var bs := BlocksOf(vec[..], t);
    var nw := |t|;
    sorted := [];
    var i := 0;
    while i < nw
      invariant 0 <= i <= nw
      invariant i < nw ==> sorted + EvenFrom(bs, i) == EvenView(bs)
      invariant i == nw && t[nw - 1].size >= 1 ==> sorted == EvenView(bs)
      invariant i == nw && t[nw - 1].size == 0 ==> sorted + [vec[t[nw - 1].lStart]] == EvenView(bs)
    {
      var l := t[i].lStart;
      var size := t[i].size;
      ghost var outer := sorted;
      var part := OwnedCells(vec, l, size, i == nw - 1);
      sorted := sorted + part;
      RebuildStep(bs, vec[..], t, i, outer, sorted);
      i := i + 1;
    }
  }

  /** The inner loop of the rebuild for one worker: its size owned cells from l, and for the
      last worker also the cell just after them. */
  method OwnedCells(vec: array<int>, l: nat, size: nat, last: bool) returns (part: seq<int>)
    requires l + size + (if last && size >= 1 then 1 else 0) <= vec.Length
    ensures part == if last && size >= 1 then vec[l..l + size + 1] else vec[l..l + size]
  {
    part := [];
    var j := l;
    while j < l + size
      invariant l <= j <= l + size
      invariant part == if last && j == l + size && size >= 1 then vec[l..j + 1] else vec[l..j]
    {
      part := part + [vec[j]];
      if last && j == l + size - 1 {
        part := part + [vec[j + 1]];
      }
      assert vec[l..j + 1] == vec[l..j] + [vec[j]];
      assert last && j == l + size - 1 ==> vec[l..j + 2] == vec[l..j + 1] + [vec[j + 1]];
      j := j + 1;
    }
  }

  /** One worker's share of the rebuilt vector. */
  lemma RebuildStep(bs: seq<seq<int>>, b: seq<int>, t: seq<Range>, i: nat, outer: seq<int>, sorted: seq<int>)
    requires Laid(t, |b|) && bs == BlocksOf(b, t) && i < |t|
    requires outer + EvenFrom(bs, i) == EvenView(bs)
    requires sorted == outer + if i == |t| - 1 && t[i].size >= 1
      then b[t[i].lStart..t[i].lStart + t[i].size + 1] else b[t[i].lStart..t[i].lStart + t[i].size]
    ensures i + 1 < |t| ==> sorted + EvenFrom(bs, i + 1) == EvenView(bs)
    ensures i + 1 == |t| && t[i].size >= 1 ==> sorted == EvenView(bs)
    ensures i + 1 == |t| && t[i].size == 0 ==> sorted + [b[t[i].lStart]] == EvenView(bs)
  {
    var l, size := t[i].lStart, t[i].size;
    var blk, rest := bs[i], EvenFrom(bs, i + 1);
    assert blk == b[l..l + size + 1];
    if i + 1 < |t| {
      assert EvenFrom(bs, i) == blk[..|blk| - 1] + rest;
      assert blk[..|blk| - 1] == b[l..l + size];
      AppendAssoc(outer, b[l..l + size], rest);
    } else {
      assert EvenFrom(bs, i) == blk + [] == blk;
      if size == 0 {
        assert blk == [b[l]] && b[l..l + size] == [];
      }
    }
  }

  /** The thread version end to end: assignRanges, initializeVector, the workers and the rebuild.
      The result is the kernel's OddEvenSorted of the draws for positions 0 .. m - 1, and for odd
      m also m: one more element than m. The placeholders do not show in it. */
  method ParallelSort(m: nat, nw: int, draw: nat -> int, garbage: nat -> int, c: int)
    returns (sorted: seq<int>)
    requires nw >= 1 && c != 0 && WellFormed(RangeTable(m, nw))
    ensures sorted == OddEvenSorted(Draws(OddUp(m - 1) + 1, draw))
    ensures Sorted(sorted) && multiset(sorted) == multiset(Draws(OddUp(m - 1) + 1, draw))
    ensures |sorted| == if m % 2 == 0 then m else m + 1
  {
    var vec, table := SetUp(m, nw, draw, garbage, c);
    LastRangeEnd(m, nw);
    Sort(vec, table);
    sorted := Rebuild(vec, table);
  }
}
