/** The padded flat buffer of the thread version: initializeVector lays the ranges out one block
    per worker, each non-last block followed by the copy of the next range's first element and by
    padding cells of -1, and records in each range where its block starts and how many cells it
    owns. */
module Padded {
  import opened Kernel
  import opened Ranges
  import opened Blocks

  // C++ integer arithmetic.

  function Abs(x: int): nat
  {
    if x < 0 then -x else x
  }

  /** C++ `/` on int: truncates toward zero. */
  function CppDiv(a: int, b: int): int
    requires b != 0
  {
    if (a < 0) == (b < 0) then Abs(a) / Abs(b) else -(Abs(a) / Abs(b))
  }

  /** C++ `%` on int: the remainder takes the sign of the dividend. */
  function CppMod(a: int, b: int): int
    requires b != 0
  {
    a - b * CppDiv(a, b)
  }

  /** On a non-negative dividend and a positive divisor C++ and Dafny agree. */
  lemma CppNonNegative(a: int, b: int)
    requires a >= 0 && b > 0
    ensures CppDiv(a, b) == a / b && CppMod(a, b) == a % b
  {
  }

  /** The padding after a block of `inter` logical cells plus its trailing copy, for a cache line
      of c bytes and 2-byte elements. */
  function Pad(inter: int, c: int): int
    requires c != 0
  {
    CppMod(CppDiv(c - CppMod(2 * (inter + 1), c), 2), 32)
  }

  /** How many -1 cells the padding loop pushes: none when Pad is not positive. */
  function PadCount(inter: int, c: int): nat
    requires c != 0
  {
    if Pad(inter, c) > 0 then Pad(inter, c) else 0
  }

  /** The padding count for each interval length, for a cache line of c bytes. The layout below
      is stated for any such count function. */
  function Pads(c: int): int -> nat
    requires c != 0
  {
    inter => PadCount(inter, c)
  }

  lemma {:induction false} MulAtLeast(c: int, t: int)
    requires c > 0 && t >= 1
    ensures c * t >= c
    decreases t
  {
    if t > 1 {
      MulAtLeast(c, t - 1);
      assert c * t == c * (t - 1) + c;
    }
  }

  lemma MultipleMod(c: int, q: int)
    requires c > 0
    ensures (c * q) % c == 0
  {
    var k, r := (c * q) / c, (c * q) % c;
    assert c * q == c * k + r;
    assert c * (q - k) == r;
    if q - k >= 1 {
      MulAtLeast(c, q - k);
    } else if q - k <= -1 {
      MulAtLeast(c, k - q);
    }
  }

  /** An even number leaves an even remainder modulo an even number. */
  lemma EvenRemainder(x: int, c: int)
    requires c > 0 && c % 2 == 0 && x % 2 == 0
    ensures (x % c) % 2 == 0
  {
    var t := x / c;
    assert x == c * t + x % c;
    assert c * t == 2 * ((c / 2) * t);
  }

  /** For an even cache line of at most 64 bytes the padding is below 32 cells and rounds a
      non-last block with its copy and padding up to a whole number of cache lines. */
  lemma PadAligned(inter: int, c: int)
    requires 0 < c <= 64 && c % 2 == 0 && inter >= 0
    ensures 0 <= Pad(inter, c) < 32 && PadCount(inter, c) == Pad(inter, c)
    ensures (2 * (inter + 1 + Pad(inter, c))) % c == 0
  {
    var x := 2 * (inter + 1);
    var r := x % c;
    var d := (c - r) / 2;
    PadValue(inter, c, r, d);
    AlignedBy(x, c, r, d, Pad(inter, c));
  }

  /** Adding twice the pad, half the distance d from x to the next multiple of c when d is
      below 32 and 0 when d is 32, lands on a multiple of c. */
  lemma AlignedBy(x: int, c: int, r: int, d: int, pad: int)
    requires 0 < c <= 64 && r == x % c && c - r == 2 * d && d <= 32
    requires pad == if d < 32 then d else 0
    ensures 0 <= pad < 32 && (x + 2 * pad) % c == 0
  {
    RoundUpMod(x, c);
    if d < 32 {
      assert x + 2 * pad == x - r + c;
    } else {
      assert r == 0 && x + 2 * pad == x - r;
    }
  }

  /** Rounding x down, or down and then up by c, to a multiple of c gives a multiple of c. */
  lemma RoundUpMod(x: int, c: int)
    requires c > 0
    ensures (x - x % c) % c == 0 && (x - x % c + c) % c == 0
  {
    var t := x / c;
    assert x - x % c == c * t;
    MultipleMod(c, t);
    assert x - x % c + c == c * (t + 1);
    MultipleMod(c, t + 1);
  }

  /** Pad in Dafny's arithmetic: for the remainder r of 2 * (inter + 1) modulo c and d half
      the distance from r to c, the pad is d, or 0 when d is 32. */
  lemma PadValue(inter: int, c: int, r: int, d: int)
    requires 0 < c <= 64 && c % 2 == 0 && inter >= 0
    requires r == (2 * (inter + 1)) % c && d == (c - r) / 2
    ensures c - r == 2 * d && 1 <= d <= 32
    ensures Pad(inter, c) == if d < 32 then d else 0
  {
    var x := 2 * (inter + 1);
    CppNonNegative(x, c);
    EvenRemainder(x, c);
    assert c - r == 2 * d;
    CppNonNegative(c - r, 2);
    CppNonNegative(d, 32);
    assert d % 32 == if d < 32 then d else 0;
    assert Pad(inter, c) == CppMod(CppDiv(c - CppMod(x, c), 2), 32);
  }

  // The layout initializeVector builds.

  /** Ranges as a partition of [0, L): contiguous from 0, none empty, every non-last one ending on
      an odd index. (That no start is negative follows from the rest.) */
  predicate Partition(r: seq<Range>)
  {
    && Contiguous(r)
    && WellFormed(r)
    && (forall j :: 0 <= j < |r| - 1 ==> r[j].end % 2 == 1)
    && (forall j :: 0 <= j < |r| ==> 0 <= r[j].start)
  }

  function Inter(r: Range): int
  {
    r.end - r.start + 1
  }

  /** The number of cells worker j owns: its range's length, one less for the last worker. */
  function Size(r: seq<Range>, j: nat): int
    requires j < |r|
  {
    if j == |r| - 1 then Inter(r[j]) - 1 else Inter(r[j])
  }

  /** The draws from position lo up to, not including, hi. */
  function DrawSpan(lo: int, hi: int, draw: nat -> int): (s: seq<int>)
    requires 0 <= lo
    ensures |s| == if hi > lo then hi - lo else 0
  {
    seq(if hi > lo then hi - lo else 0, p requires 0 <= p => draw(lo + p))
  }

  /** The cells initializeVector pushes for worker j: for j > 0 a placeholder for the copy of
      range j - 1's last element (`back`, whose value is `garbage(j)` here), range j's elements
      as drawn, and for a non-last j its copy of range j + 1's first element and the padding. */
  function BlockCells(r: seq<Range>, j: nat, draw: nat -> int, garbage: nat -> int, pads: int -> nat): seq<int>
    requires Partition(r) && j < |r|
  {
    (if j != 0 then [garbage(j)] else [])
    + DrawSpan(if j != 0 then r[j].start + 1 else 0, r[j].end + 1, draw)
    + (if j != |r| - 1 then [draw(r[j].end + 1)] + seq(pads(Inter(r[j])), _ => -1) else [])
  }

  /** The buffer after the first i workers' blocks have been pushed. */
  function Pushed(r: seq<Range>, i: nat, draw: nat -> int, garbage: nat -> int, pads: int -> nat): seq<int>
    requires Partition(r) && i <= |r|
  {
    if i == 0 then [] else Pushed(r, i - 1, draw, garbage, pads) + BlockCells(r, i - 1, draw, garbage, pads)
  }

  /** The ranges with lStart and size filled in. */
  function Table(r: seq<Range>, draw: nat -> int, garbage: nat -> int, pads: int -> nat): (t: seq<Range>)
    requires Partition(r)
    ensures |t| == |r|
  {
    seq(|r|, j requires 0 <= j < |r| =>
      r[j].(lStart := |Pushed(r, j, draw, garbage, pads)|, size := Size(r, j)))
  }

  /** The loop body of initializeVector that pushes range elements: `count` further draws. */
  method PushDraws(vec: seq<int>, n: nat, count: int, draw: nat -> int) returns (vec': seq<int>, n': nat)
    ensures vec' == vec + DrawSpan(n, n + count, draw)
    ensures n' == if count > 0 then n + count else n
  {
    vec', n' := vec, n;
    var k := 0;
    while k <= count - 1
      invariant if count > 0 then 0 <= k <= count else k == 0
      invariant n' == n + k
      invariant vec' == vec + DrawSpan(n, n + k, draw)
    {
      assert DrawSpan(n, n + k + 1, draw) == DrawSpan(n, n + k, draw) + [draw(n')];
      vec' := vec' + [draw(n')];
      n' := n' + 1;
      k := k + 1;
    }
    assert count <= 0 ==> DrawSpan(n, n + count, draw) == [];
  }

  /** The padding loop of initializeVector: `pad` cells of -1. */
  method PushPadding(vec: seq<int>, pad: int) returns (vec': seq<int>)
    ensures vec' == vec + seq(if pad > 0 then pad else 0, _ => -1)
  {
    vec' := vec;
    var q := 0;
    while q < pad
      invariant if pad > 0 then 0 <= q <= pad else q == 0
      invariant vec' == vec + seq(q, _ => -1)
    {
      assert seq(q + 1, _ => -1) == seq(q, _ => -1) + [-1];
      vec' := vec' + [-1];
      q := q + 1;
    }
    assert pad <= 0 ==> seq(if pad > 0 then pad else 0, _ => -1) == [];
  }

  lemma AppendAssoc(a: seq<int>, b: seq<int>, c: seq<int>)
    ensures (a + b) + c == a + (b + c)
  {
  }

  lemma BlockCellsSplit(r: seq<Range>, j: nat, draw: nat -> int, garbage: nat -> int, pads: int -> nat,
                        lead: seq<int>, span: seq<int>, tail: seq<int>)
    requires Partition(r) && j < |r| && 0 <= r[j].start
    requires lead == if j != 0 then [garbage(j)] else []
    requires span == DrawSpan(if j != 0 then r[j].start + 1 else 0, r[j].end + 1, draw)
    requires tail == if j != |r| - 1 then [draw(r[j].end + 1)] + seq(pads(Inter(r[j])), _ => -1) else []
    ensures BlockCells(r, j, draw, garbage, pads) == lead + span + tail
  {
  }

  lemma TableAt(r: seq<Range>, j: nat, draw: nat -> int, garbage: nat -> int, pads: int -> nat)
    requires Partition(r) && j < |r|
    ensures Table(r, draw, garbage, pads)[j]
         == r[j].(lStart := |Pushed(r, j, draw, garbage, pads)|, size := Size(r, j))
  {
  }

  /** One iteration of initializeVector's loop, after the range's size and lStart are set: the
      placeholder, the range's drawn elements, and for a non-last worker the copy of the next
      range's first element and the padding. n counts the rand() calls made so far. */
  method PushBlock(ranges: seq<Range>, i: nat, vec: seq<int>, n: nat,
                   draw: nat -> int, garbage: nat -> int, c: int, ghost pads: int -> nat)
    returns (vec': seq<int>, n': nat)
    requires Partition(ranges) && i < |ranges| && c != 0
    requires pads(Inter(ranges[i])) == PadCount(Inter(ranges[i]), c)
    requires n == if i == 0 then 0 else ranges[i].start + 1
    ensures vec' == vec + BlockCells(ranges, i, draw, garbage, pads)
    ensures n' == if i + 1 < |ranges| then ranges[i + 1].start + 1 else ranges[i].end + 1
  {
    var nw := |ranges|;
    var interSize := ranges[i].end - ranges[i].start + 1;
    var pad := Pad(interSize, c);
    ghost var lo := if i != 0 then ranges[i].start + 1 else 0;
    ghost var lead: seq<int> := if i != 0 then [garbage(i)] else [];
    vec', n' := vec, n;
    if i != 0 {
      vec' := vec' + [garbage(i)];
      interSize := interSize - 1;
    }
    assert vec' == vec + lead && n' == lo && interSize == ranges[i].end + 1 - lo;
    ghost var span := DrawSpan(lo, ranges[i].end + 1, draw);
    ghost var mid := vec';
    vec', n' := PushDraws(vec', n', interSize, draw);
    assert vec' == mid + span;
    AppendAssoc(vec, lead, span);
    ghost var tail: seq<int> := [];
    if i != nw - 1 {
      var back := draw(n');
      n' := n' + 1;
      vec' := vec' + [back];
      vec' := PushPadding(vec', pad);
      tail := [back] + seq(PadCount(Inter(ranges[i]), c), _ => -1);
      assert ranges[i + 1].start == ranges[i].end + 1;
      AppendAssoc(vec + (lead + span), [back], seq(PadCount(Inter(ranges[i]), c), _ => -1));
    }
    assert vec' == vec + (lead + span) + tail;
    AppendAssoc(vec, lead + span, tail);
    BlockCellsSplit(ranges, i, draw, garbage, pads, lead, span, tail);
  }

  /** initializeVector: the draws of rand() are draw(0), draw(1), ... in call order; the
      placeholder `back` pushed first for worker i > 0 is uninitialised in the source and is
      garbage(i) here. */
  method InitializeVector(ranges: seq<Range>, draw: nat -> int, garbage: nat -> int, c: int,
                          ghost pads: int -> nat)
    returns (vec: seq<int>, table: seq<Range>)
    requires Partition(ranges) && c != 0
    requires forall inter :: pads(inter) == PadCount(inter, c)
    ensures vec == Pushed(ranges, |ranges|, draw, garbage, pads)
    ensures table == Table(ranges, draw, garbage, pads)
  {
    var nw := |ranges|;
    ghost var tbl := Table(ranges, draw, garbage, pads);
    vec := [];
    table := ranges;
    var n: nat := 0;
    var i := 0;
    while i < nw
      invariant 0 <= i <= nw
      invariant Filled(ranges, draw, garbage, pads, tbl, i, vec, n, table)
    {
      var interSize := table[i].end - table[i].start + 1;
      TableAt(ranges, i, draw, garbage, pads);
      ghost var i0, v0, n0, t0 := i, vec, n, table;
      table := table[i := table[i].(size := if i == nw - 1 then interSize - 1 else interSize,
                                   lStart := |vec|)];
      assert table[i] == tbl[i];
      vec, n := PushBlock(ranges, i, vec, n, draw, garbage, c, pads);
      i := i + 1;
      FilledStep(ranges, draw, garbage, pads, tbl, i0, v0, n0, t0, i, vec, n, table);
    }
    FilledDone(ranges, draw, garbage, pads, tbl, vec, n, table);
  }

  /** initializeVector's loop after i ranges: the buffer holds their blocks, n draws have been
      made, the first i entries of the table are filled in and the rest are as assignRanges left
      them. */
  ghost predicate Filled(ranges: seq<Range>, draw: nat -> int, garbage: nat -> int, pads: int -> nat,
                         tbl: seq<Range>, i: nat, vec: seq<int>, n: int, table: seq<Range>)
  {
    && Partition(ranges) && i <= |ranges| && |table| == |ranges| && |tbl| == |ranges|
    && vec == Pushed(ranges, i, draw, garbage, pads)
    && n == (if i == 0 then 0 else if i < |ranges| then ranges[i].start + 1 else ranges[i - 1].end + 1)
    && (forall j :: 0 <= j < i ==> table[j] == tbl[j])
    && (forall j :: i <= j < |ranges| ==> table[j] == ranges[j])
  }

  /** One round of initializeVector's loop. */
  lemma FilledStep(ranges: seq<Range>, draw: nat -> int, garbage: nat -> int, pads: int -> nat,
                   tbl: seq<Range>, i: nat, vec: seq<int>, n: int, table: seq<Range>,
                   i': nat, vec': seq<int>, n': int, table': seq<Range>)
    requires Filled(ranges, draw, garbage, pads, tbl, i, vec, n, table) && i < |ranges|
    requires i' == i + 1 && table' == table[i := tbl[i]]
    requires vec' == vec + BlockCells(ranges, i, draw, garbage, pads)
    requires n' == if i + 1 < |ranges| then ranges[i + 1].start + 1 else ranges[i].end + 1
    ensures Filled(ranges, draw, garbage, pads, tbl, i', vec', n', table')
  {
  }

  /** After the last range the table is complete. */
  lemma FilledDone(ranges: seq<Range>, draw: nat -> int, garbage: nat -> int, pads: int -> nat,
                   tbl: seq<Range>, vec: seq<int>, n: int, table: seq<Range>)
    requires Filled(ranges, draw, garbage, pads, tbl, |ranges|, vec, n, table)
    ensures table == tbl
  {
  }

  // Reading the blocks out of a buffer.

  /** Where each worker's block sits in a buffer of n cells: in worker order without overlap,
      every non-last block owning an even number, at least two, of cells. */
  predicate Laid(t: seq<Range>, n: int)
  {
    && |t| >= 1
    && (forall j :: 0 <= j < |t| ==> 0 <= t[j].lStart && 0 <= t[j].size && t[j].lStart + t[j].size < n)
    && (forall j :: 0 <= j < |t| - 1 ==>
          2 <= t[j].size && t[j].size % 2 == 0 && t[j].lStart + t[j].size < t[j + 1].lStart)
  }

  /** Worker j's block: its owned cells and, after them, its copy of the next block's first
      cell (the last block has no copy: its size + 1 cells are all its own). */
  function Block(b: seq<int>, t: seq<Range>, j: nat): (r: seq<int>)
    requires Laid(t, |b|) && j < |t|
    ensures |r| == t[j].size + 1
  {
    b[t[j].lStart .. t[j].lStart + t[j].size + 1]
  }

  function BlocksOf(b: seq<int>, t: seq<Range>): (bs: seq<seq<int>>)
    requires Laid(t, |b|)
    ensures |bs| == |t| && Shaped(bs)
  {
    seq(|t|, j requires 0 <= j < |t| => Block(b, t, j))
  }

  /** Blocks further apart are still in order. */
  lemma {:induction false} LaidOrdered(t: seq<Range>, n: int, i: nat, j: nat)
    requires Laid(t, n) && i < j < |t|
    ensures t[i].lStart + t[i].size < t[j].lStart
    decreases j - i
  {
    if i + 1 < j {
      LaidOrdered(t, n, i + 1, j);
    }
  }

  /** The buffer with worker j's block replaced by nb. */
  function Put(b: seq<int>, t: seq<Range>, j: nat, nb: seq<int>): (r: seq<int>)
    requires Laid(t, |b|) && j < |t| && |nb| == t[j].size + 1
    ensures |r| == |b|
  {
    b[..t[j].lStart] + nb + b[t[j].lStart + t[j].size + 1..]
  }

  /** Replacing one block leaves every other block as it was. */
  lemma PutBlocks(b: seq<int>, t: seq<Range>, j: nat, nb: seq<int>)
    requires Laid(t, |b|) && j < |t| && |nb| == t[j].size + 1
    ensures BlocksOf(Put(b, t, j, nb), t) == BlocksOf(b, t)[j := nb]
  {
    var r := Put(b, t, j, nb);
    forall i | 0 <= i < |t|
      ensures Block(r, t, i) == BlocksOf(b, t)[j := nb][i]
    {
      if i < j {
        LaidOrdered(t, |b|, i, j);
      } else if j < i {
        LaidOrdered(t, |b|, j, i);
      }
    }
  }

  // What initializeVector builds.

  function BlockLength(r: seq<Range>, j: nat, pads: int -> nat): int
    requires Partition(r) && j < |r|
  {
    Inter(r[j]) + if j != |r| - 1 then 1 + pads(Inter(r[j])) else 0
  }

  lemma BlockCellsLength(r: seq<Range>, j: nat, draw: nat -> int, garbage: nat -> int, pads: int -> nat)
    requires Partition(r) && j < |r|
    ensures |BlockCells(r, j, draw, garbage, pads)| == BlockLength(r, j, pads)
  {
  }

  /** Pushing block j adds BlockLength cells. */
  lemma PushedLength(r: seq<Range>, j: nat, draw: nat -> int, garbage: nat -> int, pads: int -> nat)
    requires Partition(r) && j < |r|
    ensures |Pushed(r, j + 1, draw, garbage, pads)| == |Pushed(r, j, draw, garbage, pads)| + BlockLength(r, j, pads)
  {
    BlockCellsLength(r, j, draw, garbage, pads);
  }

  /** Block j + 1 starts where block j, its copy and its padding end. */
  lemma TableOffsets(r: seq<Range>, j: nat, draw: nat -> int, garbage: nat -> int, pads: int -> nat)
    requires Partition(r) && j < |r| - 1
    ensures Table(r, draw, garbage, pads)[j + 1].lStart
        == Table(r, draw, garbage, pads)[j].lStart + Inter(r[j]) + 1 + pads(Inter(r[j]))
  {
    TableAt(r, j, draw, garbage, pads);
    TableAt(r, j + 1, draw, garbage, pads);
    PushedLength(r, j, draw, garbage, pads);
  }

  /** The first block starts the buffer and the last block ends it. */
  lemma TableEnds(r: seq<Range>, draw: nat -> int, garbage: nat -> int, pads: int -> nat)
    requires Partition(r)
    ensures Table(r, draw, garbage, pads)[0].lStart == 0
    ensures |Pushed(r, |r|, draw, garbage, pads)|
        == Table(r, draw, garbage, pads)[|r| - 1].lStart + Table(r, draw, garbage, pads)[|r| - 1].size + 1
  {
    TableAt(r, 0, draw, garbage, pads);
    TableAt(r, |r| - 1, draw, garbage, pads);
    PushedLength(r, |r| - 1, draw, garbage, pads);
  }

  lemma {:induction false} PushedPrefix(r: seq<Range>, a: nat, b: nat, draw: nat -> int,
                                        garbage: nat -> int, pads: int -> nat)
    requires Partition(r) && a <= b <= |r|
    ensures Pushed(r, a, draw, garbage, pads) <= Pushed(r, b, draw, garbage, pads)
    decreases b - a
  {
    if a < b {
      PushedPrefix(r, a, b - 1, draw, garbage, pads);
      PrefixStep(Pushed(r, b, draw, garbage, pads), Pushed(r, b - 1, draw, garbage, pads),
                 BlockCells(r, b - 1, draw, garbage, pads), Pushed(r, a, draw, garbage, pads));
    }
  }

  lemma PrefixStep(whole: seq<int>, front: seq<int>, back: seq<int>, p: seq<int>)
    requires whole == front + back && p <= front
    ensures p <= whole
  {
  }

  /** The cell at offset k of worker j's block: the placeholder for k = 0 when j > 0, otherwise
      the element drawn for logical position start + k. */
  function InitialCell(start: int, lead: bool, g: int, k: nat, draw: nat -> int): int
    requires start >= 0
  {
    if lead && k == 0 then g else draw(start + k)
  }

  lemma BlockCellAt(r: seq<Range>, j: nat, k: nat, draw: nat -> int, garbage: nat -> int, pads: int -> nat)
    requires Partition(r) && j < |r| && k <= Size(r, j)
    ensures k < |BlockCells(r, j, draw, garbage, pads)|
    ensures BlockCells(r, j, draw, garbage, pads)[k] == InitialCell(r[j].start, j > 0, garbage(j), k, draw)
  {
    var lo := if j != 0 then r[j].start + 1 else 0;
    var lead: seq<int> := if j != 0 then [garbage(j)] else [];
    var span := DrawSpan(lo, r[j].end + 1, draw);
    var tail: seq<int> :=
      if j != |r| - 1 then [draw(r[j].end + 1)] + seq(pads(Inter(r[j])), _ => -1) else [];
    BlockCellsSplit(r, j, draw, garbage, pads, lead, span, tail);
    assert j == 0 ==> r[j].start == 0;
    assert |lead| + |span| == Inter(r[j]) && lo == r[j].start + |lead|;
    if j != |r| - 1 {
      TailHead(draw(r[j].end + 1), pads(Inter(r[j])));
    }
    LayoutAt(lead, span, tail, k, garbage(j), lo, r[j].start, r[j].end, draw, j != 0, j != |r| - 1);
  }

  /** A cell of a block laid out as an optional placeholder g, the draws from lo up to end and,
      when there is one, a tail starting with the draw for end + 1. */
  lemma LayoutAt(lead: seq<int>, span: seq<int>, tail: seq<int>, k: nat, g: int, lo: int,
                 start: int, end: int, draw: nat -> int, hasLead: bool, hasTail: bool)
    requires lead == if hasLead then [g] else []
    requires 0 <= lo == start + |lead| && start <= end && span == DrawSpan(lo, end + 1, draw)
    requires hasTail ==> |tail| >= 1 && tail[0] == draw(end + 1)
    requires k < |lead| + |span| || (hasTail && k == |lead| + |span|)
    ensures k < |lead + span + tail|
    ensures (lead + span + tail)[k] == if hasLead && k == 0 then g else draw(start + k)
  {
    ConcatAt(lead, span, tail, k);
    if k >= |lead| && k < |lead| + |span| {
      DrawSpanAt(lo, end + 1, draw, k - |lead|);
    }
  }

  lemma DrawSpanAt(lo: int, hi: int, draw: nat -> int, i: nat)
    requires 0 <= lo && i < hi - lo
    ensures DrawSpan(lo, hi, draw)[i] == draw(lo + i)
  {
  }

  lemma TailHead(x: int, n: nat)
    ensures ([x] + seq(n, _ => -1))[0] == x
  {
  }

  /** A cell of a three-part concatenation comes from the part it falls in. */
  lemma ConcatAt(lead: seq<int>, span: seq<int>, tail: seq<int>, k: nat)
    requires k < |lead| + |span| + |tail|
    ensures (lead + span + tail)[k]
         == if k < |lead| then lead[k] else if k < |lead| + |span| then span[k - |lead|]
            else tail[k - |lead| - |span|]
  {
  }

  lemma BlockPadAt(r: seq<Range>, j: nat, x: nat, draw: nat -> int, garbage: nat -> int, pads: int -> nat)
    requires Partition(r) && j < |r| - 1 && Inter(r[j]) + 1 <= x < Inter(r[j]) + 1 + pads(Inter(r[j]))
    ensures x < |BlockCells(r, j, draw, garbage, pads)|
    ensures BlockCells(r, j, draw, garbage, pads)[x] == -1
  {
    var lead: seq<int> := if j != 0 then [garbage(j)] else [];
    var span := DrawSpan(if j != 0 then r[j].start + 1 else 0, r[j].end + 1, draw);
    var tail: seq<int> := [draw(r[j].end + 1)] + seq(pads(Inter(r[j])), _ => -1);
    BlockCellsSplit(r, j, draw, garbage, pads, lead, span, tail);
    assert |lead| + |span| == Inter(r[j]);
    assert (lead + span + tail)[x] == tail[x - Inter(r[j])];
  }

  /** Cell x of block j is cell x past the blocks before it in the whole buffer. */
  lemma PushedAt(r: seq<Range>, j: nat, x: nat, draw: nat -> int, garbage: nat -> int, pads: int -> nat)
    requires Partition(r) && j < |r| && x < |BlockCells(r, j, draw, garbage, pads)|
    ensures |Pushed(r, j, draw, garbage, pads)| + x < |Pushed(r, |r|, draw, garbage, pads)|
    ensures Pushed(r, |r|, draw, garbage, pads)[|Pushed(r, j, draw, garbage, pads)| + x]
         == BlockCells(r, j, draw, garbage, pads)[x]
  {
    var whole := Pushed(r, |r|, draw, garbage, pads);
    var here := Pushed(r, j, draw, garbage, pads);
    var cells := BlockCells(r, j, draw, garbage, pads);
    PushedPrefix(r, j + 1, |r|, draw, garbage, pads);
    SuffixAt(whole, Pushed(r, j + 1, draw, garbage, pads), here, cells, x);
    assert whole[|here| + x] == cells[x];
  }

  lemma SuffixAt(whole: seq<int>, mid: seq<int>, front: seq<int>, back: seq<int>, x: nat)
    requires mid <= whole && mid == front + back && x < |back|
    ensures |front| + x < |whole| && whole[|front| + x] == back[x]
  {
    assert mid[|front| + x] == back[x];
  }

  /** Every cell a worker's block holds right after initializeVector, at its offset past the
      blocks before it. */
  lemma InitialCells(r: seq<Range>, draw: nat -> int, garbage: nat -> int, pads: int -> nat, j: nat, k: nat)
    requires Partition(r) && j < |r| && k <= Size(r, j)
    ensures |Pushed(r, j, draw, garbage, pads)| + k < |Pushed(r, |r|, draw, garbage, pads)|
    ensures Pushed(r, |r|, draw, garbage, pads)[|Pushed(r, j, draw, garbage, pads)| + k]
         == InitialCell(r[j].start, j > 0, garbage(j), k, draw)
  {
    BlockCellAt(r, j, k, draw, garbage, pads);
    PushedAt(r, j, k, draw, garbage, pads);
  }

  /** After every non-last block and its copy come pads(Inter) cells of -1: the cells at offsets
      Inter + 1 up to Inter + pads(Inter) past the blocks before it. */
  lemma InitialPadding(r: seq<Range>, draw: nat -> int, garbage: nat -> int, pads: int -> nat, j: nat, x: nat)
    requires Partition(r) && j < |r| - 1 && Inter(r[j]) + 1 <= x < Inter(r[j]) + 1 + pads(Inter(r[j]))
    ensures |Pushed(r, j, draw, garbage, pads)| + x < |Pushed(r, |r|, draw, garbage, pads)|
    ensures Pushed(r, |r|, draw, garbage, pads)[|Pushed(r, j, draw, garbage, pads)| + x] == -1
  {
    BlockPadAt(r, j, x, draw, garbage, pads);
    PushedAt(r, j, x, draw, garbage, pads);
  }

  /** A non-last range starts on an even index and holds an even number, at least two, of
      positions. */
  lemma PartitionEven(r: seq<Range>, j: nat)
    requires Partition(r) && j < |r|
    ensures r[j].start % 2 == 0
    ensures j < |r| - 1 ==> Inter(r[j]) % 2 == 0 && Inter(r[j]) >= 2
  {
    if j > 0 {
      assert r[j].start == r[j - 1].end + 1 && r[j - 1].end % 2 == 1;
    }
  }

  lemma {:induction false} PushedGrows(r: seq<Range>, a: nat, b: nat, draw: nat -> int,
                                       garbage: nat -> int, pads: int -> nat)
    requires Partition(r) && a <= b <= |r|
    ensures |Pushed(r, a, draw, garbage, pads)| <= |Pushed(r, b, draw, garbage, pads)|
    decreases b - a
  {
    if a < b {
      PushedGrows(r, a, b - 1, draw, garbage, pads);
    }
  }

  lemma InitialBounds(r: seq<Range>, draw: nat -> int, garbage: nat -> int, pads: int -> nat, j: nat)
    requires Partition(r) && j < |r|
    ensures 0 <= Table(r, draw, garbage, pads)[j].lStart && 0 <= Table(r, draw, garbage, pads)[j].size
    ensures Table(r, draw, garbage, pads)[j].lStart + Table(r, draw, garbage, pads)[j].size
          < |Pushed(r, |r|, draw, garbage, pads)|
  {
    TableAt(r, j, draw, garbage, pads);
    BlockCellsLength(r, j, draw, garbage, pads);
    PushedGrows(r, j + 1, |r|, draw, garbage, pads);
    assert |Pushed(r, j + 1, draw, garbage, pads)| == |Pushed(r, j, draw, garbage, pads)| + BlockLength(r, j, pads);
  }

  lemma InitialOrder(r: seq<Range>, draw: nat -> int, garbage: nat -> int, pads: int -> nat, j: nat)
    requires Partition(r) && j < |r| - 1
    ensures 2 <= Table(r, draw, garbage, pads)[j].size && Table(r, draw, garbage, pads)[j].size % 2 == 0
    ensures Table(r, draw, garbage, pads)[j].lStart + Table(r, draw, garbage, pads)[j].size
          < Table(r, draw, garbage, pads)[j + 1].lStart
  {
    TableAt(r, j, draw, garbage, pads);
    TableAt(r, j + 1, draw, garbage, pads);
    BlockCellsLength(r, j, draw, garbage, pads);
    assert |Pushed(r, j + 1, draw, garbage, pads)| == |Pushed(r, j, draw, garbage, pads)| + BlockLength(r, j, pads);
    PartitionEven(r, j);
  }

  /** The table initializeVector fills in lays the blocks out in order in the buffer. */
  lemma InitialLaid(r: seq<Range>, draw: nat -> int, garbage: nat -> int, pads: int -> nat)
    requires Partition(r)
    ensures Laid(Table(r, draw, garbage, pads), |Pushed(r, |r|, draw, garbage, pads)|)
  {
    forall j | 0 <= j < |r| {
      InitialBounds(r, draw, garbage, pads, j);
    }
    forall j | 0 <= j < |r| - 1 {
      InitialOrder(r, draw, garbage, pads, j);
    }
  }

  lemma DrawSpanConcat(a: nat, b: nat, c: nat, draw: nat -> int)
    requires a <= b <= c
    ensures DrawSpan(a, b, draw) + DrawSpan(b, c, draw) == DrawSpan(a, c, draw)
  {
  }

  lemma BlockCellRead(r: seq<Range>, draw: nat -> int, garbage: nat -> int, pads: int -> nat, j: nat, k: nat)
    requires Partition(r) && j < |r| && k <= Size(r, j)
    requires Laid(Table(r, draw, garbage, pads), |Pushed(r, |r|, draw, garbage, pads)|)
    ensures k < |Block(Pushed(r, |r|, draw, garbage, pads), Table(r, draw, garbage, pads), j)|
    ensures Block(Pushed(r, |r|, draw, garbage, pads), Table(r, draw, garbage, pads), j)[k]
         == InitialCell(r[j].start, j > 0, garbage(j), k, draw)
  {
    TableAt(r, j, draw, garbage, pads);
    InitialCells(r, draw, garbage, pads, j, k);
    BlockIndex(Pushed(r, |r|, draw, garbage, pads), Table(r, draw, garbage, pads), j, k);
  }

  /** Cell k of block j is cell lStart + k of the buffer. */
  lemma BlockIndex(b: seq<int>, t: seq<Range>, j: nat, k: nat)
    requires Laid(t, |b|) && j < |t| && k <= t[j].size
    ensures k < |Block(b, t, j)| && Block(b, t, j)[k] == b[t[j].lStart + k]
  {
  }

  /** A block whose every cell is the initial one holds the draws after its start. */
  lemma InitialSpan(r: seq<Range>, draw: nat -> int, garbage: nat -> int, j: nat, bk: seq<int>)
    requires Partition(r) && j < |r| && |bk| == Size(r, j) + 1
    requires forall k :: 0 <= k < |bk| ==> bk[k] == InitialCell(r[j].start, j > 0, garbage(j), k, draw)
    ensures bk[1..] == DrawSpan(r[j].start + 1, r[j].start + Size(r, j) + 1, draw)
    ensures j == 0 ==> bk == DrawSpan(0, Size(r, 0) + 1, draw)
  {
  }

  /** Cells 1 .. size of a block, read off the buffer, are the draws for the positions after
      its range's start; so is cell 0 of the first block. */
  lemma InitialBlockCells(r: seq<Range>, draw: nat -> int, garbage: nat -> int, pads: int -> nat, j: nat,
                          bk: seq<int>)
    requires Partition(r) && j < |r|
    requires Laid(Table(r, draw, garbage, pads), |Pushed(r, |r|, draw, garbage, pads)|)
    requires bk == Block(Pushed(r, |r|, draw, garbage, pads), Table(r, draw, garbage, pads), j)
    ensures bk[1..] == DrawSpan(r[j].start + 1, r[j].start + Size(r, j) + 1, draw)
    ensures j == 0 ==> bk == DrawSpan(0, Size(r, 0) + 1, draw)
  {
    TableAt(r, j, draw, garbage, pads);
    forall k | 0 <= k < |bk|
      ensures bk[k] == InitialCell(r[j].start, j > 0, garbage(j), k, draw)
    {
      BlockCellRead(r, draw, garbage, pads, j, k);
    }
    InitialSpan(r, draw, garbage, j, bk);
  }

  /** Right after initializeVector, every block without its first cell holds the draws for the
      positions after its range's start, and the first block holds those from 0. */
  lemma InitialBlock(r: seq<Range>, draw: nat -> int, garbage: nat -> int, pads: int -> nat, j: nat)
    requires Partition(r) && j < |r|
    ensures Laid(Table(r, draw, garbage, pads), |Pushed(r, |r|, draw, garbage, pads)|)
    ensures BlocksOf(Pushed(r, |r|, draw, garbage, pads), Table(r, draw, garbage, pads))[j][1..]
         == DrawSpan(r[j].start + 1, r[j].start + Size(r, j) + 1, draw)
    ensures j == 0 ==>
      BlocksOf(Pushed(r, |r|, draw, garbage, pads), Table(r, draw, garbage, pads))[0]
         == DrawSpan(0, Size(r, 0) + 1, draw)
  {
    InitialLaid(r, draw, garbage, pads);
    var p, t := Pushed(r, |r|, draw, garbage, pads), Table(r, draw, garbage, pads);
    InitialBlockCells(r, draw, garbage, pads, j, Block(p, t, j));
  }

  /** Blocks holding the draws after their starts read, the odd way, as one run of draws. */
  lemma {:induction false} OddFromSpans(r: seq<Range>, bs: seq<seq<int>>, draw: nat -> int, k: nat)
    requires Partition(r) && Shaped(bs) && |bs| == |r| && 1 <= k < |r|
    requires forall i :: 1 <= i < |r| ==>
      bs[i][1..] == DrawSpan(r[i].start + 1, r[i].start + Size(r, i) + 1, draw)
    ensures OddFrom(bs, k) == DrawSpan(r[k].start + 1, r[|r| - 1].end + 1, draw)
    decreases |r| - k
  {
    if k == |r| - 1 {
      assert OddFrom(bs, k) == bs[k][1..] + [];
    } else {
      OddFromSpans(r, bs, draw, k + 1);
      var lo, mid, hi := r[k].start + 1, r[k + 1].start + 1, r[|r| - 1].end + 1;
      assert 0 <= lo <= mid <= hi by {
        assert r[k].start <= r[k].end && r[k + 1].start <= r[k + 1].end;
        if k + 1 < |r| - 1 {
          PartitionAscending(r, k + 1, |r| - 1);
        }
      }
      assert bs[k][1..] == DrawSpan(lo, mid, draw) by {
        assert r[k].start + Size(r, k) + 1 == mid;
      }
      assert OddFrom(bs, k) == bs[k][1..] + OddFrom(bs, k + 1);
      DrawSpanConcat(lo, mid, hi, draw);
    }
  }

  lemma {:induction false} PartitionAscending(r: seq<Range>, i: nat, j: nat)
    requires Partition(r) && i < j < |r|
    ensures r[i].end < r[j].start
    decreases j - i
  {
    if i + 1 < j {
      PartitionAscending(r, i + 1, j);
    }
  }

  lemma OddViewSpans(r: seq<Range>, bs: seq<seq<int>>, draw: nat -> int)
    requires Partition(r) && Shaped(bs) && |bs| == |r|
    requires bs[0] == DrawSpan(0, Size(r, 0) + 1, draw)
    requires forall i :: 1 <= i < |r| ==>
      bs[i][1..] == DrawSpan(r[i].start + 1, r[i].start + Size(r, i) + 1, draw)
    ensures OddView(bs) == Draws(r[|r| - 1].end + 1, draw)
  {
    var last := r[|r| - 1].end + 1;
    if |r| == 1 {
      assert OddView(bs) == bs[0] + [];
    } else {
      OddFromSpans(r, bs, draw, 1);
      assert r[1].start <= r[|r| - 1].end by {
        if 1 < |r| - 1 {
          PartitionAscending(r, 1, |r| - 1);
        }
      }
      DrawSpanConcat(0, r[1].start + 1, last, draw);
    }
    assert DrawSpan(0, last, draw) == Draws(last, draw);
  }

  /** Right after initializeVector the logical array, read the odd way off the blocks, is the
      sequence of draws for positions 0 .. end of the last range: the placeholders do not show. */
  lemma InitialOddView(r: seq<Range>, draw: nat -> int, garbage: nat -> int, pads: int -> nat)
    requires Partition(r)
    ensures Laid(Table(r, draw, garbage, pads), |Pushed(r, |r|, draw, garbage, pads)|)
    ensures OddView(BlocksOf(Pushed(r, |r|, draw, garbage, pads), Table(r, draw, garbage, pads)))
         == Draws(r[|r| - 1].end + 1, draw)
  {
    InitialLaid(r, draw, garbage, pads);
    var bs := BlocksOf(Pushed(r, |r|, draw, garbage, pads), Table(r, draw, garbage, pads));
    forall i | 0 <= i < |r|
      ensures bs[i][1..] == DrawSpan(r[i].start + 1, r[i].start + Size(r, i) + 1, draw)
      ensures i == 0 ==> bs[0] == DrawSpan(0, Size(r, 0) + 1, draw)
    {
      InitialBlock(r, draw, garbage, pads, i);
    }
    OddViewSpans(r, bs, draw);
  }

  /** The layout initializeVector leaves, for the buffer b and the table t it returns: the first
      block starts the buffer and the last one ends it, every range keeps its bounds, and between
      two blocks lie exactly pads(size) cells. */
  lemma InitialLayout(r: seq<Range>, draw: nat -> int, garbage: nat -> int, pads: int -> nat,
                      t: seq<Range>, b: seq<int>)
    requires Partition(r) && t == Table(r, draw, garbage, pads) && b == Pushed(r, |r|, draw, garbage, pads)
    ensures |t| == |r| && t[0].lStart == 0 && |b| == t[|r| - 1].lStart + t[|r| - 1].size + 1
    ensures forall j :: 0 <= j < |r| ==>
      t[j].start == r[j].start && t[j].end == r[j].end && t[j].size == Size(r, j)
    ensures forall j :: 0 <= j < |r| - 1 ==> t[j + 1].lStart == t[j].lStart + t[j].size + 1 + pads(t[j].size)
  {
    TableEnds(r, draw, garbage, pads);
    forall j | 0 <= j < |r|
      ensures t[j].start == r[j].start && t[j].end == r[j].end && t[j].size == Size(r, j)
    {
      TableAt(r, j, draw, garbage, pads);
    }
    forall j | 0 <= j < |r| - 1
      ensures t[j + 1].lStart == t[j].lStart + t[j].size + 1 + pads(t[j].size)
    {
      TableAt(r, j, draw, garbage, pads);
      TableOffsets(r, j, draw, garbage, pads);
    }
  }

  /** Cell x lies between block j and block j + 1: after j's owned cells and copy, before j + 1. */
  predicate InGap(t: seq<Range>, j: int, x: int)
  {
    0 <= j < |t| - 1 && t[j].lStart + t[j].size + 1 <= x < t[j + 1].lStart
  }

  /** Every cell between two blocks of the buffer initializeVector returns is -1. */
  lemma InitialGaps(r: seq<Range>, draw: nat -> int, garbage: nat -> int, pads: int -> nat,
                    t: seq<Range>, b: seq<int>)
    requires Partition(r) && t == Table(r, draw, garbage, pads) && b == Pushed(r, |r|, draw, garbage, pads)
    ensures forall j, x :: InGap(t, j, x) ==> 0 <= x < |b| && b[x] == -1
  {
    forall j, x | InGap(t, j, x)
      ensures 0 <= x < |b| && b[x] == -1
    {
      GapAt(r, draw, garbage, pads, t, b, j, x);
    }
  }

  lemma GapAt(r: seq<Range>, draw: nat -> int, garbage: nat -> int, pads: int -> nat,
              t: seq<Range>, b: seq<int>, j: nat, x: int)
    requires Partition(r) && t == Table(r, draw, garbage, pads) && b == Pushed(r, |r|, draw, garbage, pads)
    requires j < |t| - 1 && t[j].lStart + t[j].size + 1 <= x < t[j + 1].lStart
    ensures 0 <= x < |b| && b[x] == -1
  {
    TableAt(r, j, draw, garbage, pads);
    TableOffsets(r, j, draw, garbage, pads);
    var l := |Pushed(r, j, draw, garbage, pads)|;
    assert t[j].lStart == l && t[j].size == Inter(r[j]);
    InitialPadding(r, draw, garbage, pads, j, x - l);
  }

  /** The buffer b and table t that initializeVector returns for the ranges r and a cache line of
      c bytes: the first block starts the buffer and the last one ends it, every range keeps its
      bounds and gets its size, two blocks are PadCount cells apart, and those cells are -1. */
  ghost predicate PaddedLayout(b: seq<int>, t: seq<Range>, r: seq<Range>, c: int)
    requires c != 0
  {
    && |t| == |r| >= 1 && t[0].lStart == 0 && |b| == t[|t| - 1].lStart + t[|t| - 1].size + 1
    && (forall j :: 0 <= j < |t| ==> t[j].start == r[j].start && t[j].end == r[j].end && t[j].size == Size(r, j))
    && (forall j :: 0 <= j < |t| - 1 ==> t[j + 1].lStart == t[j].lStart + t[j].size + 1 + PadCount(t[j].size, c))
    && (forall j, x :: InGap(t, j, x) ==> 0 <= x < |b| && b[x] == -1)
  }

  lemma InitialPaddedLayout(r: seq<Range>, draw: nat -> int, garbage: nat -> int, c: int, t: seq<Range>, b: seq<int>)
    requires Partition(r) && c != 0
    requires t == Table(r, draw, garbage, Pads(c)) && b == Pushed(r, |r|, draw, garbage, Pads(c))
    ensures PaddedLayout(b, t, r, c)
  {
    InitialLayout(r, draw, garbage, Pads(c), t, b);
    InitialGaps(r, draw, garbage, Pads(c), t, b);
  }

  /** For m = 15 and nw = 5 the last range [16, 15] has an interval of 0 positions, so
      initializeVector gives it size -1, which Laid does not admit: its block is the
      placeholder alone, and the sorting loops and the rebuild run over it zero times. */
  lemma IllFormedLastSize()
    ensures Inter(RangeTable(15, 5)[4]) == 0 && Size(RangeTable(15, 5), 4) == -1
  {
    IllFormedExample();
  }

  /** The table assignRanges builds, when well-formed, is a partition whose last range holds an
      even number of positions, so the last worker owns at least one cell. */
  lemma RangeTablePartition(m: nat, nw: nat)
    requires nw >= 1 && WellFormed(RangeTable(m, nw))
    ensures Partition(RangeTable(m, nw))
    ensures Inter(RangeTable(m, nw)[nw - 1]) % 2 == 0
    ensures Size(RangeTable(m, nw), nw - 1) >= 1
    ensures RangeTable(m, nw)[nw - 1].end == OddUp(m - 1)
  {
    var t, w := RangeTable(m, nw), Width(m, nw);
    RangeTableShape(m, nw);
    forall j | 0 <= j < nw ensures 0 <= t[j].start {
      assert t[j].start == j * w;
      MulNonNegative(j, w);
    }
    var last := t[nw - 1];
    assert last.end == OddUp(m - 1) && last.start % 2 == 0 && last.start <= last.end;
    EvenGap(last.start, last.end);
  }

  /** The common start of both programs: assignRanges, initializeVector and the copy of the
      buffer into the array the workers share. The buffer is laid out by the table, its last
      worker owns a cell, and its odd view holds the OddUp(m - 1) + 1 drawn values. */
  method SetUp(m: nat, nw: int, draw: nat -> int, garbage: nat -> int, c: int)
    returns (vec: array<int>, table: seq<Range>)
    requires nw >= 1 && c != 0 && WellFormed(RangeTable(m, nw))
    ensures fresh(vec)
    ensures Laid(table, vec.Length) && table[|table| - 1].size >= 1
    ensures OddView(BlocksOf(vec[..], table)) == Draws(OddUp(m - 1) + 1, draw)
    ensures PaddedLayout(vec[..], table, RangeTable(m, nw), c)
  {
    var ranges := AssignRanges(m, nw);
    RangeTablePartition(m, nw);
    var vec0;
    vec0, table := InitializeVector(ranges, draw, garbage, c, Pads(c));
    InitialState(ranges, draw, garbage, c, table, vec0);
    vec := ToArray(vec0);
  }

  /** A fresh array holding the cells of s. */
  method ToArray(s: seq<int>) returns (a: array<int>)
    ensures fresh(a) && a[..] == s
  {
    a := new int[|s|](i requires 0 <= i < |s| => s[i]);
    assert a[..] == s;
  }

  /** What SetUp promises, about the buffer b and the table t that initializeVector returns
      for the ranges r, when the last range holds an even number of positions. */
  lemma InitialState(r: seq<Range>, draw: nat -> int, garbage: nat -> int, c: int, t: seq<Range>, b: seq<int>)
    requires Partition(r) && c != 0 && Inter(r[|r| - 1]) % 2 == 0
    requires t == Table(r, draw, garbage, Pads(c)) && b == Pushed(r, |r|, draw, garbage, Pads(c))
    ensures Laid(t, |b|) && t[|t| - 1].size >= 1
    ensures OddView(BlocksOf(b, t)) == Draws(r[|r| - 1].end + 1, draw)
    ensures PaddedLayout(b, t, r, c)
  {
    InitialLaid(r, draw, garbage, Pads(c));
    InitialOddView(r, draw, garbage, Pads(c));
    LastOwnsCell(r, draw, garbage, Pads(c), t);
    InitialPaddedLayout(r, draw, garbage, c, t, b);
  }

  /** When the last range holds an even number of positions, the last worker owns a cell. */
  lemma LastOwnsCell(r: seq<Range>, draw: nat -> int, garbage: nat -> int, pads: int -> nat, t: seq<Range>)
    requires Partition(r) && Inter(r[|r| - 1]) % 2 == 0 && t == Table(r, draw, garbage, pads)
    ensures t[|t| - 1].size >= 1
  {
    TableAt(r, |r| - 1, draw, garbage, pads);
  }

  lemma MulNonNegative(a: nat, b: nat)
    ensures a * b >= 0
  {
  }

  /** From an even start to an odd end there is an even, nonzero number of positions. */
  lemma EvenGap(lo: int, hi: int)
    requires lo % 2 == 0 && hi % 2 != 0 && lo <= hi
    ensures (hi - lo + 1) % 2 == 0 && hi - lo + 1 >= 2
  {
  }
}
