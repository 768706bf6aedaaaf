/** The range partitioner shared by the thread and the farm versions: [0, m) is cut into nw
    contiguous ranges, every range except the last forced to end on an odd index. */
module Ranges {

  /** A worker's range: logical [start, end], and after the buffer is built its offset lStart
      in the flat buffer and its size (the number of cells it owns, see Partition). */
  datatype Range = Range(start: int, end: int, lStart: int, size: int)

  /** The parity bump `if (end % 2 == 0) end++`. Dafny's % and C++'s % agree on whether the
      remainder is zero, also for negative ends. */
  function OddUp(x: int): (r: int)
    ensures r % 2 != 0 && x <= r <= x + 1
  {
    if x % 2 == 0 then x + 1 else x
  }

  /** The distance between successive starts: m / nw, rounded up to even. */
  function Width(m: nat, nw: nat): (w: nat)
    requires nw >= 1
    ensures w % 2 == 0 && m / nw <= w <= m / nw + 1
  {
    m / nw + (m / nw) % 2
  }

  /** The closed form of what assignRanges computes: range i starts at i * Width, a non-last
      range ends just before the next start, and the last ends at OddUp(m - 1). lStart and size
      are not set by assignRanges; they are 0 here. */
  function RangeTable(m: nat, nw: nat): (t: seq<Range>)
    requires nw >= 1
    ensures |t| == nw
  {
    seq(nw, i requires 0 <= i < nw =>
      Range(i * Width(m, nw),
            if i < nw - 1 then i * Width(m, nw) + Width(m, nw) - 1 else OddUp(m - 1), 0, 0))
  }

  /** The ranges tile the index space from 0 in worker order, each next range starting right
      after the previous one. */
  predicate Contiguous(t: seq<Range>)
  {
    && |t| >= 1
    && t[0].start == 0
    && (forall i :: 0 < i < |t| ==> t[i].start == t[i - 1].end + 1)
  }

  /** Every range holds at least one index. */
  predicate WellFormed(t: seq<Range>)
  {
    forall i :: 0 <= i < |t| ==> t[i].start <= t[i].end
  }

  /** assignRanges: pushes nw ranges, each starting after the previous end. */
  method AssignRanges(m: nat, nw: int) returns (ranges: seq<Range>)
    requires nw >= 1
    ensures ranges == RangeTable(m, nw)
  {
    var rangeSize := m / nw;
    ghost var w := Width(m, nw);
    ghost var t := RangeTable(m, nw);
    assert w == rangeSize + rangeSize % 2;
    ranges := [];
    var i := 0;
    while i < nw
      invariant 0 <= i <= nw
      invariant |ranges| == i
      invariant forall j :: 0 <= j < i ==> ranges[j] == t[j]
    {
      var start := if i == 0 then 0 else ranges[|ranges| - 1].end + 1;
      assert start == i * w by {
        if i > 0 {
          assert ranges[i - 1] == t[i - 1];
          assert (i - 1) * w + w == i * w;
        }
      }
      var end := if i != nw - 1 then start + rangeSize - 1 else m - 1;
      if end % 2 == 0 {
        end := end + 1;
      }
      assert t[i] == Range(i * w, if i < nw - 1 then i * w + w - 1 else OddUp(m - 1), 0, 0);
      assert end == t[i].end by {
        if i != nw - 1 {
          EvenMultiple(i, w);
          OddUpStep(start, rangeSize);
        }
      }
      ranges := ranges + [Range(start, end, 0, 0)];
      i := i + 1;
    }
    assert ranges == t;
  }

  /** A multiple of an even number is even. */
  lemma EvenMultiple(i: int, w: int)
    requires w % 2 == 0
    ensures (i * w) % 2 == 0
  {
    assert i * w == 2 * (i * (w / 2));
  }

  /** From an even start, bumping start + q - 1 to odd gives start + (q rounded up to even) - 1. */
  lemma OddUpStep(start: int, q: int)
    requires start % 2 == 0
    ensures OddUp(start + q - 1) == start + q + q % 2 - 1
  {
  }

  /** The table assignRanges builds is contiguous; every start is even, every non-last end is
      odd and every non-last range has the same even length Width(m, nw). */
  lemma RangeTableShape(m: nat, nw: nat)
    requires nw >= 1
    ensures Contiguous(RangeTable(m, nw))
    ensures forall i :: 0 <= i < nw ==> RangeTable(m, nw)[i].start % 2 == 0
    ensures forall i :: 0 <= i < nw - 1 ==> RangeTable(m, nw)[i].end % 2 == 1
    ensures forall i :: 0 <= i < nw - 1 ==>
      RangeTable(m, nw)[i].end - RangeTable(m, nw)[i].start + 1 == Width(m, nw)
  {
    var t, w := RangeTable(m, nw), Width(m, nw);
    forall i | 0 < i < nw ensures t[i].start == t[i - 1].end + 1 {
      assert (i - 1) * w + w - 1 + 1 == i * w;
    }
    forall i | 0 <= i < nw ensures t[i].start % 2 == 0 {
      EvenMultiple(i, w);
    }
    forall i | 0 <= i < nw - 1 ensures t[i].end % 2 == 1 {
      EvenMultiple(i, w);
      assert t[i].end == i * w + w - 1;
    }
  }

  /** The last range ends at m - 1 for even m and at m for odd m, so the ranges cover
      OddUp(m - 1) + 1 logical positions: one more than m when m is odd. */
  lemma LastRangeEnd(m: nat, nw: nat)
    requires nw >= 1
    ensures RangeTable(m, nw)[nw - 1].end == if m % 2 == 0 then m - 1 else m
  {
    assert RangeTable(m, nw)[nw - 1].end == OddUp(m - 1);
    if m % 2 == 0 {
      assert (m - 1) % 2 == 1;
    } else {
      assert (m - 1) % 2 == 0;
    }
  }

  /** Well-formedness holds exactly when non-last ranges are not empty and the last one does not
      start past its end. */
  lemma WellFormedRangeTable(m: nat, nw: nat)
    requires nw >= 1
    ensures WellFormed(RangeTable(m, nw))
        <==> (nw == 1 || Width(m, nw) >= 2) && (nw - 1) * Width(m, nw) <= OddUp(m - 1)
  {
    var t, w := RangeTable(m, nw), Width(m, nw);
    if (nw == 1 || w >= 2) && (nw - 1) * w <= OddUp(m - 1) {
      forall i | 0 <= i < nw ensures t[i].start <= t[i].end {
      }
    }
    if WellFormed(t) {
      assert t[nw - 1].start <= t[nw - 1].end;
      if nw > 1 {
        assert t[0].start <= t[0].end;
      }
    }
  }

  /** An even quotient m / nw of at least 2 always gives well-formed ranges. */
  lemma EvenQuotientWellFormed(m: nat, nw: nat)
    requires nw >= 1 && m / nw >= 2 && (m / nw) % 2 == 0
    ensures WellFormed(RangeTable(m, nw))
  {
    var q := m / nw;
    assert Width(m, nw) == q;
    assert (nw - 1) * q == nw * q - q <= m - q;
    WellFormedRangeTable(m, nw);
  }

  /** m = 15, nw = 5 satisfies m >= 2 * nw, yet the last range is [16, 15]: empty. */
  lemma IllFormedExample()
    ensures RangeTable(15, 5)[4] == Range(16, 15, 0, 0)
    ensures !WellFormed(RangeTable(15, 5))
  {
    assert Width(15, 5) == 4;
    assert RangeTable(15, 5)[4].start == 16;
    assert RangeTable(15, 5)[4].end == OddUp(14) == 15;
  }
}
