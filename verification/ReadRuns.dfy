/** How far a read gets: the loop of `btrfs_low_read` over the spans of a file, with every count
    passing through the C type `int`. */
module ReadRuns {
  import opened Errno

  const INT_MAX := 0x7FFF_FFFF

  /** The conversion of a size to the C type `int`. */
  function ToInt(n: nat): (r: int)
    ensures r <= INT_MAX
    ensures n <= INT_MAX ==> r == n
    ensures r > 0 ==> r <= n
  {
    var w := n % 0x1_0000_0000;
    if w > INT_MAX then w - 0x1_0000_0000 else w
  }

  // ---------------------------------------------------------------- spans

  /** The part of a file that one extent covers, and whether the kind of the extent is known. */
  datatype Span = Span(start: nat, length: nat, known: bool) {
    function End(): nat { start + length }
  }

  /** Spans have positive length and none starts before the end of the one in front of it. There
      may be gaps between them and in front of the first. */
  predicate Ordered(spans: seq<Span>) {
    && (forall k :: 0 <= k < |spans| ==> spans[k].length > 0)
    && (forall k :: 0 <= k < |spans| - 1 ==> spans[k].End() <= spans[k + 1].start)
  }

  predicate AllKnown(spans: seq<Span>) {
    forall k :: 0 <= k < |spans| ==> spans[k].known
  }

  /** The spans cover a file from its start to its end without a gap, and are of known kinds. */
  predicate Tiled(spans: seq<Span>) {
    && Ordered(spans)
    && AllKnown(spans)
    && (forall k :: 0 <= k < |spans| - 1 ==> spans[k + 1].start == spans[k].End())
    && (spans != [] ==> spans[0].start == 0)
  }

  function SizeOf(spans: seq<Span>): nat {
    if spans == [] then 0 else spans[|spans| - 1].End()
  }

  predicate Within(span: Span, a: nat) { span.start <= a < span.End() }

  /** A span of known kind covers the place. */
  predicate Covered(spans: seq<Span>, a: nat) {
    exists k :: 0 <= k < |spans| && Within(spans[k], a) && spans[k].known
  }

  /** No span starts at or before the offset. */
  predicate Missing(spans: seq<Span>, offset: nat) {
    spans == [] || offset < spans[0].start
  }

  /** The error of a search for the offset: there is no extent, or the last that starts at or
      before the offset is of an unknown kind; 0 otherwise. */
  function Failure(spans: seq<Span>, offset: nat): (e: int)
    ensures e == 0 || e == ENOENT || e == EINVAL
    ensures e == ENOENT <==> Missing(spans, offset)
    decreases |spans|
  {
    if Missing(spans, offset) then ENOENT
    else if !Missing(spans[1..], offset) then Failure(spans[1..], offset)
    else if spans[0].known then 0
    else EINVAL
  }

  /** The first place from the offset on that no span of known kind covers. */
  function Stop(spans: seq<Span>, offset: nat): (stop: nat)
    ensures offset <= stop
    decreases |spans|
  {
    if Missing(spans, offset) || (offset < spans[0].End() && !spans[0].known) then offset
    else Stop(spans[1..], if offset < spans[0].End() then spans[0].End() else offset)
  }

  /** How many bytes there are to read in front of an end. */
  function Remaining(end: nat, offset: nat, length: nat): (n: nat)
    ensures n <= length
  {
    if end <= offset then 0
    else if end - offset < length then end - offset
    else length
  }

  /** How many bytes there are to read in front of the next gap. */
  function Unbroken(spans: seq<Span>, offset: nat, length: nat): (n: nat)
    ensures n <= length
  {
    Remaining(Stop(spans, offset), offset, length)
  }

  /** The bytes that one round takes from the span that holds the offset. */
  function Next(spans: seq<Span>, offset: nat, length: nat): (n: nat)
    ensures n <= length
    decreases |spans|
  {
    if Missing(spans, offset) then 0
    else if offset < spans[0].End() then
      if !spans[0].known then 0
      else if spans[0].End() - offset < length then spans[0].End() - offset
      else length
    else Next(spans[1..], offset, length)
  }

  lemma TailOrdered(spans: seq<Span>)
    requires Ordered(spans) && spans != []
    ensures Ordered(spans[1..])
    ensures |spans| > 1 ==> spans[0].End() <= spans[1..][0].start && SizeOf(spans[1..]) == SizeOf(spans)
  {
    var tail := spans[1..];
    forall k | 0 <= k < |tail| - 1 ensures tail[k].End() <= tail[k + 1].start {
      assert tail[k] == spans[k + 1] && tail[k + 1] == spans[(k + 1) + 1];
    }
    if |spans| > 1 {
      assert spans[0].End() <= spans[0 + 1].start;
    }
  }

  lemma {:induction false} EndsGrow(spans: seq<Span>, j: nat, k: nat)
    requires Ordered(spans) && j < k < |spans|
    ensures spans[j].End() <= spans[k].start
    decreases k - j
  {
    if j + 1 < k {
      EndsGrow(spans, j, k - 1);
    }
    assert spans[k - 1].End() <= spans[(k - 1) + 1].start;
  }

  lemma EndsBeforeSize(spans: seq<Span>, k: nat)
    requires Ordered(spans) && k < |spans|
    ensures spans[k].End() <= SizeOf(spans)
  {
    if k < |spans| - 1 {
      EndsGrow(spans, k, |spans| - 1);
    }
  }

  /** The span that a search for the offset finds is the one the round takes its bytes from. */
  lemma {:induction false} NextInSpan(spans: seq<Span>, k: nat, offset: nat, length: nat)
    requires Ordered(spans) && k < |spans| && spans[k].start <= offset
    requires k + 1 < |spans| ==> offset < spans[k + 1].start
    ensures Next(spans, offset, length) ==
            if spans[k].End() <= offset || !spans[k].known then 0
            else if spans[k].End() - offset < length then spans[k].End() - offset
            else length
    ensures Failure(spans, offset) == if spans[k].known then 0 else EINVAL
    decreases k
  {
    if k > 0 {
      EndsGrow(spans, 0, k);
      TailOrdered(spans);
      NextInSpan(spans[1..], k - 1, offset, length);
    } else {
      assert Missing(spans[1..], offset);
    }
  }

  /** A round takes nothing exactly at a gap, at the end, or when nothing is asked for. */
  lemma {:induction false} NextBounds(spans: seq<Span>, offset: nat, length: nat)
    ensures Next(spans, offset, length) <= Unbroken(spans, offset, length)
    ensures Next(spans, offset, length) == 0 <==> Unbroken(spans, offset, length) == 0
    decreases |spans|
  {
    if !Missing(spans, offset) && spans[0].End() <= offset {
      NextBounds(spans[1..], offset, length);
    }
  }

  /** No gap lies inside a round. */
  lemma {:induction false} StopStays(spans: seq<Span>, offset: nat, length: nat, r: nat)
    requires r <= Next(spans, offset, length)
    ensures Stop(spans, offset + r) == Stop(spans, offset)
    ensures r <= length && Unbroken(spans, offset + r, length - r) == Unbroken(spans, offset, length) - r
    decreases |spans|
  {
    NextBounds(spans, offset, length);
    if !Missing(spans, offset) && spans[0].End() <= offset {
      StopStays(spans[1..], offset, length, r);
    }
  }

  // ---------------------------------------------------------------- gaps

  lemma {:induction false} HoldingSpan(spans: seq<Span>, a: nat) returns (k: nat)
    requires Ordered(spans) && !Missing(spans, a)
    ensures k < |spans| && spans[k].start <= a
    ensures k + 1 < |spans| ==> a < spans[k + 1].start
    decreases |spans|
  {
    if |spans| == 1 || a < spans[1].start {
      return 0;
    }
    TailOrdered(spans);
    var j := HoldingSpan(spans[1..], a);
    return j + 1;
  }

  lemma {:induction false} CoveredTail(spans: seq<Span>, a: nat)
    requires spans != []
    ensures Covered(spans, a) <==> (Within(spans[0], a) && spans[0].known) || Covered(spans[1..], a)
  {
    if Covered(spans[1..], a) {
      var k :| 0 <= k < |spans[1..]| && Within(spans[1..][k], a) && spans[1..][k].known;
      assert Within(spans[k + 1], a) && spans[k + 1].known;
    }
    if k :| 0 <= k < |spans| && Within(spans[k], a) && spans[k].known {
      assert k > 0 ==> Within(spans[1..][k - 1], a) && spans[1..][k - 1].known;
    }
  }

  /** The bytes in front of the stop are covered, and the stop itself is not. */
  lemma {:induction false} StopMeaning(spans: seq<Span>, offset: nat)
    requires Ordered(spans)
    ensures forall a: nat :: offset <= a < Stop(spans, offset) ==> Covered(spans, a)
    ensures !Covered(spans, Stop(spans, offset))
    ensures Stop(spans, offset) <= if offset < SizeOf(spans) then SizeOf(spans) else offset
    decreases |spans|
  {
    if Missing(spans, offset) || (offset < spans[0].End() && !spans[0].known) {
      forall k | 0 < k < |spans| ensures !Within(spans[k], offset) {
        EndsGrow(spans, 0, k);
      }
    } else {
      TailOrdered(spans);
      EndsBeforeSize(spans, 0);
      var next := if offset < spans[0].End() then spans[0].End() else offset;
      StopMeaning(spans[1..], next);
      hide Covered;
      CoveredTail(spans, Stop(spans, offset));
      forall a: nat | offset <= a < Stop(spans, offset) ensures Covered(spans, a) {
        CoveredTail(spans, a);
      }
    }
  }

  /** Nothing is missing in front of the end of the file if and only if there is no gap. */
  lemma UnbrokenIff(spans: seq<Span>, offset: nat, length: nat)
    requires Ordered(spans)
    ensures Unbroken(spans, offset, length) <= Remaining(SizeOf(spans), offset, length)
    ensures var count := Remaining(SizeOf(spans), offset, length);
            Unbroken(spans, offset, length) == count <==>
            forall a: nat :: offset <= a < offset + count ==> Covered(spans, a)
  {
    hide Covered, Stop, Ordered;
    StopMeaning(spans, offset);
  }

  /** A tiled file has no gap. */
  lemma TiledUnbroken(spans: seq<Span>, offset: nat, length: nat)
    requires Tiled(spans)
    ensures Unbroken(spans, offset, length) == Remaining(SizeOf(spans), offset, length)
  {
    forall a: nat | a < SizeOf(spans) ensures Covered(spans, a) {
      var k := HoldingSpan(spans, a);
      assert k < |spans| - 1 ==> spans[k + 1].start == spans[k].End();
      assert Within(spans[k], a) && spans[k].known;
    }
    UnbrokenIff(spans, offset, length);
  }

  /** A round that starts inside the bytes of another ends where that one ends. */
  lemma {:induction false} NextShift(spans: seq<Span>, offset: nat, length: nat, r: nat)
    requires r < Next(spans, offset, length)
    ensures r <= length && Next(spans, offset + r, length - r) == Next(spans, offset, length) - r
    decreases |spans|
  {
    if spans != [] && spans[0].End() <= offset {
      NextShift(spans[1..], offset, length, r);
    }
  }

  // ---------------------------------------------------------------- the whole loop

  /** The bytes written: the rounds add up until one of them copies more than an `int` can say,
      which is the last that gets any further. */
  function Reach(spans: seq<Span>, offset: nat, length: nat): (w: nat)
    ensures w <= length
    decreases length
  {
    var n := Next(spans, offset, length);
    if n == 0 || n > INT_MAX then n else n + Reach(spans, offset + n, length - n)
  }

  /** The value returned after `got` bytes have been counted. */
  function ReturnOf(spans: seq<Span>, offset: nat, length: nat, got: nat): int
    decreases length
  {
    var n := Next(spans, offset, length);
    if n == 0 then if length > 0 && Failure(spans, offset) < 0 then Failure(spans, offset) else ToInt(got)
    else if n <= INT_MAX then ReturnOf(spans, offset + n, length - n, got + n)
    else if ToInt(n) < 0 then ToInt(n)
    else ToInt(got + ToInt(n))
  }

  /** The effect of one round on both. */
  lemma OneRound(spans: seq<Span>, offset: nat, length: nat, got: nat)
    ensures var n := Next(spans, offset, length);
            && (n == 0 ==> Reach(spans, offset, length) == 0)
            && (0 < n <= INT_MAX ==>
                  && Reach(spans, offset, length) == n + Reach(spans, offset + n, length - n)
                  && ReturnOf(spans, offset, length, got) == ReturnOf(spans, offset + n, length - n, got + n))
            && (n > INT_MAX ==>
                  && Reach(spans, offset, length) == n
                  && ReturnOf(spans, offset, length, got) ==
                     if ToInt(n) < 0 then ToInt(n) else ToInt(got + ToInt(n)))
    ensures Next(spans, offset, length) == 0 && length > 0 ==>
              ReturnOf(spans, offset, length, got) ==
              if Failure(spans, offset) < 0 then Failure(spans, offset) else ToInt(got)
  {
    hide Next, ToInt, Failure;
  }

  predicate AllSmall(spans: seq<Span>) {
    forall k :: 0 <= k < |spans| ==> spans[k].length <= INT_MAX
  }

  lemma {:induction false} NextSmall(spans: seq<Span>, offset: nat, length: nat)
    requires AllSmall(spans)
    ensures Next(spans, offset, length) <= INT_MAX
    decreases |spans|
  {
    if !Missing(spans, offset) && spans[0].End() <= offset {
      assert forall k :: 0 <= k < |spans| - 1 ==> spans[1..][k] == spans[k + 1];
      NextSmall(spans[1..], offset, length);
    }
  }

  /** Never more is written than there is to read in front of the next gap. */
  lemma {:induction false} ReachWithin(spans: seq<Span>, offset: nat, length: nat)
    ensures Reach(spans, offset, length) <= Unbroken(spans, offset, length)
    decreases length
  {
    hide Next, Unbroken;
    NextBounds(spans, offset, length);
    var n := Next(spans, offset, length);
    StopStays(spans, offset, length, n);
    if 0 < n <= INT_MAX {
      ReachWithin(spans, offset + n, length - n);
    }
  }

  /** When no extent, or the request itself, exceeds an `int`, everything there is to read is
      written, and the count of it is what the return value converts. */
  lemma {:induction false} SmallRun(spans: seq<Span>, offset: nat, length: nat, got: nat)
    requires AllSmall(spans) || Unbroken(spans, offset, length) <= INT_MAX
    ensures Reach(spans, offset, length) == Unbroken(spans, offset, length)
    ensures var count := Unbroken(spans, offset, length);
            ReturnOf(spans, offset, length, got) ==
            if count < length && Failure(spans, offset + count) < 0 then Failure(spans, offset + count)
            else ToInt(got + count)
    decreases length
  {
    hide Next, Unbroken, ToInt, AllSmall, Failure;
    NextBounds(spans, offset, length);
    if AllSmall(spans) { NextSmall(spans, offset, length); }
    var n := Next(spans, offset, length);
    StopStays(spans, offset, length, n);
    if n > 0 {
      SmallRun(spans, offset + n, length - n, got + n);
    }
  }

  lemma {:induction false} ReturnFits(spans: seq<Span>, offset: nat, length: nat, got: nat)
    ensures ReturnOf(spans, offset, length, got) <= INT_MAX
    decreases length
  {
    hide Next, Failure;
    var n := Next(spans, offset, length);
    if 0 < n <= INT_MAX {
      ReturnFits(spans, offset + n, length - n, got + n);
    }
  }

  /** The count is returned if and only if it fits the return type and the read did not stop at a
      failing search. */
  lemma ReturnIff(spans: seq<Span>, offset: nat, length: nat)
    ensures var count := Unbroken(spans, offset, length);
            ReturnOf(spans, offset, length, 0) == count
            <==> count <= INT_MAX && (count == length || Failure(spans, offset + count) == 0)
  {
    hide ToInt, ReturnOf, Unbroken, Failure;
    ReturnFits(spans, offset, length, 0);
    if Unbroken(spans, offset, length) <= INT_MAX {
      SmallRun(spans, offset, length, 0);
    }
  }

  /** Where all kinds are known, no search fails behind the first span. */
  lemma {:induction false} KnownFailure(spans: seq<Span>, offset: nat)
    requires AllKnown(spans) && !Missing(spans, offset)
    ensures Failure(spans, offset) == 0
    decreases |spans|
  {
    if !Missing(spans[1..], offset) {
      assert forall k :: 0 <= k < |spans| - 1 ==> spans[1..][k] == spans[k + 1];
      KnownFailure(spans[1..], offset);
    }
  }

  /** The span does not end inside the range, or contributes no more than an `int` can say. */
  predicate Passed(span: Span, from: nat, to: nat) {
    from < span.End() < to ==> span.End() - (if from < span.start then span.start else from) <= INT_MAX
  }

  lemma HoldingRound(spans: seq<Span>, offset: nat, length: nat) returns (k: nat)
    requires Ordered(spans) && Next(spans, offset, length) > 0
    ensures k < |spans| && Within(spans[k], offset) && spans[k].known
    ensures Next(spans, offset, length) ==
            if spans[k].End() - offset < length then spans[k].End() - offset else length
    ensures forall j :: 0 <= j < k ==> spans[j].End() <= offset
    ensures forall j :: k < j < |spans| ==> spans[k].End() <= spans[j].start
  {
    k := HoldingSpan(spans, offset);
    NextInSpan(spans, k, offset, length);
    forall j | 0 <= j < |spans| && j != k
      ensures j < k ==> spans[j].End() <= offset
      ensures j > k ==> spans[k].End() <= spans[j].start
    {
      if j < k { EndsGrow(spans, j, k); } else { EndsGrow(spans, k, j); }
    }
  }

  /** All there is to read in front of the next gap is written if and only if every extent that
      ends inside the range contributes no more than an `int` can say: only the last extent that
      is touched may contribute more. */
  lemma {:induction false} FilledIff(spans: seq<Span>, offset: nat, length: nat)
    requires Ordered(spans)
    ensures var count := Unbroken(spans, offset, length);
            Reach(spans, offset, length) == count
            <==> forall k :: 0 <= k < |spans| ==> Passed(spans[k], offset, offset + count)
    decreases length
  {
    hide Next, Ordered, Unbroken;
    var count := Unbroken(spans, offset, length);
    NextBounds(spans, offset, length);
    var n := Next(spans, offset, length);
    StopStays(spans, offset, length, n);
    if n > 0 {
      var k := HoldingRound(spans, offset, length);
      if n > INT_MAX {
        if n < count {
          assert !Passed(spans[k], offset, offset + count);
        }
      } else {
        FilledIff(spans, offset + n, length - n);
        forall j | 0 <= j < |spans|
          ensures Passed(spans[j], offset, offset + count) <==> Passed(spans[j], offset + n, offset + count)
        {}
      }
    }
  }

  /** One count above the maximum, or the sum of several, becomes negative. */
  lemma {:induction false} LargeRun(spans: seq<Span>, length: nat)
    requires Unbroken(spans, 0, length) == length == INT_MAX + 1
    ensures Reach(spans, 0, length) == length && ReturnOf(spans, 0, length, 0) == ToInt(length)
  {
    hide Next, Unbroken, Failure, ToInt;
    NextBounds(spans, 0, length);
    var n := Next(spans, 0, length);
    StopStays(spans, 0, length, n);
    NegativeCount();
    if n <= INT_MAX {
      SmallRun(spans, n, length - n, n);
    }
  }

  lemma NegativeCount()
    ensures ToInt(INT_MAX + 1) == -0x8000_0000
  {}

  /** Asked for 2 GiB of a file of that size, however it is cut into extents, the call writes
      them all and returns the smallest `int`. */
  lemma TwoGigabyteRun(spans: seq<Span>)
    requires Tiled(spans) && SizeOf(spans) == 0x8000_0000
    ensures Reach(spans, 0, 0x8000_0000) == 0x8000_0000
    ensures ReturnOf(spans, 0, 0x8000_0000, 0) == -0x8000_0000
  {
    TiledUnbroken(spans, 0, 0x8000_0000);
    hide Tiled, SizeOf, Unbroken, Reach, ReturnOf, ToInt;
    LargeRun(spans, 0x8000_0000);
    NegativeCount();
  }

  /** An extent of more than 2 GiB in front of another stops the read between them. */
  lemma StopsAfterLargeExtent()
    ensures var spans := [Span(0, 0x8000_1000, true), Span(0x8000_1000, 0x1000, true)];
            && Tiled(spans)
            && Remaining(SizeOf(spans), 0, 0x8000_2000) == 0x8000_2000
            && Reach(spans, 0, 0x8000_2000) == 0x8000_1000
            && ReturnOf(spans, 0, 0x8000_2000, 0) == 0x1000 - 0x8000_0000
  {}

  /** A gap of 4 KiB between two extents of 4 KiB stops the read in front of it. */
  lemma StopsAtGap()
    ensures var spans := [Span(0, 0x1000, true), Span(0x2000, 0x1000, true)];
            && Ordered(spans)
            && Remaining(SizeOf(spans), 0, 0x3000) == 0x3000
            && Reach(spans, 0, 0x3000) == 0x1000
            && ReturnOf(spans, 0, 0x3000, 0) == 0x1000
  {}

  /** An extent of unknown kind behind one of 4 KiB turns the result into an error, though the
      bytes in front of it have been written. */
  lemma StopsAtUnknownKind()
    ensures var spans := [Span(0, 0x1000, true), Span(0x1000, 0x1000, false)];
            && Ordered(spans)
            && Reach(spans, 0, 0x2000) == 0x1000
            && ReturnOf(spans, 0, 0x2000, 0) == -22
  {}
}
