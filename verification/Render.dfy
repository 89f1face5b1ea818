/** RenderASCII of internal/ebpf/loader.go: what it counts and how wide it draws. Its floating-point
    quotients are exact reals here. */
module Render {
  import opened Options
  import opened Words
  import opened Buckets
  import opened Reals
  import opened Race
  import opened Loader

  const BAR_WIDTH: nat := 30

  datatype Row = Row(caption: Label, filled: int, empty: int, count: U64, pct: real)

  function RowOf(b: LatencyBucket, max: U64, total: U64): Row
    requires max > 0 && total > 0
  {
    var filled := Scaled(b.count as real, max as real, BAR_WIDTH as real).Floor;
    Row(b.caption, filled, BAR_WIDTH - filled, b.count, Percent(b.count as real, total as real))
  }

  function RowsOf(buckets: seq<LatencyBucket>, max: U64, total: U64): seq<Row>
    requires max > 0 && total > 0
  {
    if buckets == [] then [] else
      var last := buckets[|buckets| - 1];
      RowsOf(buckets[..|buckets| - 1], max, total) + (if last.count == 0 then [] else [RowOf(last, max, total)])
  }

  function PctSum(rows: seq<Row>): real {
    if rows == [] then 0.0 else PctSum(rows[..|rows| - 1]) + rows[|rows| - 1].pct
  }

  ghost predicate IsMax(buckets: seq<LatencyBucket>, max: U64) {
    && (forall b :: b in buckets ==> b.count <= max)
    && (max == 0 || exists b :: b in buckets && b.count == max)
  }

  function Nonempty(buckets: seq<LatencyBucket>): seq<LatencyBucket> {
    if buckets == [] then [] else
      var last := buckets[|buckets| - 1];
      Nonempty(buckets[..|buckets| - 1]) + (if last.count == 0 then [] else [last])
  }

  /** The row shows the bucket: a bar of 30 cells, filled in proportion to the tallest one and rounded
      down, and the share of the total. */
  ghost predicate Draws(r: Row, b: LatencyBucket, max: U64, total: U64) {
    && r.caption == b.caption && r.count == b.count && r.filled + r.empty == 30
    && r.filled as real * max as real <= b.count as real * 30.0 < (r.filled + 1) as real * max as real
    && r.pct * total as real == b.count as real * 100.0
  }

  ghost predicate AllDraw(rows: seq<Row>, buckets: seq<LatencyBucket>, max: U64, total: U64) {
    |rows| == |buckets| && forall k :: 0 <= k < |rows| ==> Draws(rows[k], buckets[k], max, total)
  }

  lemma RowDraws(b: LatencyBucket, max: U64, total: U64)
    requires max > 0 && total > 0
    ensures Draws(RowOf(b, max, total), b, max, total)
  {
    var part, whole := b.count as real, max as real;
    var filled := Scaled(part, whole, 30.0).Floor;
    ScaledIff(part, whole, 30.0, filled as real);
    ScaledIff(part, whole, 30.0, (filled + 1) as real);
    ScaledTimes(part, total as real, 100.0);
  }

  lemma {:induction false} RowsDraw(buckets: seq<LatencyBucket>, max: U64, total: U64)
    requires max > 0 && total > 0
    ensures AllDraw(RowsOf(buckets, max, total), Nonempty(buckets), max, total)
  {
    if buckets == [] {
    } else {
      var last := buckets[|buckets| - 1];
      RowsDraw(buckets[..|buckets| - 1], max, total);
      RowDraws(last, max, total);
    }
  }

  /** Returns no rows for "(no I/O recorded yet)". */
  method RenderASCII(buckets: seq<LatencyBucket>) returns (rows: Option<seq<Row>>)
    ensures rows.None? <==> Wrap(Sum(Counts(buckets))) == 0
    ensures rows.Some? ==> exists max: U64 ::
              && max > 0 && IsMax(buckets, max)
              && rows.value == RowsOf(buckets, max, Wrap(Sum(Counts(buckets))))
              && AllDraw(rows.value, Nonempty(buckets), max, Wrap(Sum(Counts(buckets))))
  {
    var total: U64 := 0;
    var maxCount: U64 := 0;
    var i := 0;
    while i < |buckets|
      invariant i <= |buckets|
      invariant total == Wrap(Sum(Counts(buckets[..i])))
      invariant IsMax(buckets[..i], maxCount)
      invariant maxCount == 0 ==> total == 0
    {
      var b := buckets[i];
      TotalStep(buckets, i, total, maxCount);
      total := Add64(total, b.count);
      if b.count > maxCount {
        maxCount := b.count;
      }
      i := i + 1;
    }
    assert buckets[..i] == buckets;
    if total == 0 {
      return None;
    }
    var out: seq<Row> := [];
    i := 0;
    while i < |buckets|
      invariant i <= |buckets|
      invariant out == RowsOf(buckets[..i], maxCount, total)
    {
      var b := buckets[i];
      RowsSnoc(buckets, i, maxCount, total);
      if b.count != 0 {
        out := out + [RowOf(b, maxCount, total)];
      }
      i := i + 1;
    }
    assert buckets[..i] == buckets;
    RowsDraw(buckets, maxCount, total);
    rows := Some(out);
  }

  lemma TotalStep(buckets: seq<LatencyBucket>, i: nat, total: U64, max: U64)
    requires i < |buckets| && total == Wrap(Sum(Counts(buckets[..i]))) && IsMax(buckets[..i], max)
    ensures Add64(total, buckets[i].count) == Wrap(Sum(Counts(buckets[..i + 1])))
    ensures IsMax(buckets[..i + 1], if buckets[i].count > max then buckets[i].count else max)
  {
    assert buckets[..i + 1] == buckets[..i] + [buckets[i]];
    assert buckets[..i + 1][..i] == buckets[..i];
    MaxSnoc(buckets[..i], buckets[i], max);
    SumSnoc(buckets[..i], buckets[i]);
    AddWraps(Sum(Counts(buckets[..i])), buckets[i].count);
    WrapIs(buckets[i].count, 0, buckets[i].count);
  }

  lemma {:induction false} RowsSnoc(buckets: seq<LatencyBucket>, i: nat, max: U64, total: U64)
    requires i < |buckets| && max > 0 && total > 0
    ensures RowsOf(buckets[..i + 1], max, total)
         == RowsOf(buckets[..i], max, total) + (if buckets[i].count == 0 then [] else [RowOf(buckets[i], max, total)])
  {
    assert buckets[..i + 1][..i] == buckets[..i];
  }

  lemma MaxSnoc(buckets: seq<LatencyBucket>, b: LatencyBucket, max: U64)
    requires IsMax(buckets, max)
    ensures IsMax(buckets + [b], if b.count > max then b.count else max)
  {
    assert b in buckets + [b];
    if b.count <= max && max != 0 {
      var m :| m in buckets && m.count == max;
      assert m in buckets + [b];
    }
  }

  ghost predicate Fits(r: Row, max: U64) {
    0 <= r.filled <= BAR_WIDTH && r.empty >= 0 && (r.filled == BAR_WIDTH <==> r.count == max)
  }

  lemma BarFits(b: LatencyBucket, max: U64, total: U64)
    requires 0 < b.count <= max && total > 0
    ensures Fits(RowOf(b, max, total), max)
  {
    var part, whole := b.count as real, max as real;
    ScaledIff(part, whole, BAR_WIDTH as real, 0.0);
    ScaledIff(part, whole, BAR_WIDTH as real, BAR_WIDTH as real);
  }

  /** No bar is drawn with a negative repeat count, and exactly the tallest ones fill the width. */
  lemma {:induction false} EveryBarFits(buckets: seq<LatencyBucket>, max: U64, total: U64)
    requires max > 0 && total > 0 && forall b :: b in buckets ==> b.count <= max
    ensures forall r :: r in RowsOf(buckets, max, total) ==> Fits(r, max)
  {
    if buckets == [] {
    } else {
      var last := buckets[|buckets| - 1];
      EveryBarFits(buckets[..|buckets| - 1], max, total);
      if last.count != 0 {
        BarFits(last, max, total);
      }
    }
  }

  lemma {:induction false} PctSnoc(rows: seq<Row>, row: Row)
    ensures PctSum(rows + [row]) == PctSum(rows) + row.pct
  {
    var all := rows + [row];
    assert all[..|all| - 1] == rows && all[|all| - 1] == row;
  }

  lemma {:induction false} PctOfSnoc(rows: seq<Row>, b: LatencyBucket, sum: nat, max: U64, total: U64)
    requires max > 0 && total > 0 && PctSum(rows) == Percent(sum as real, total as real)
    ensures PctSum(rows + if b.count == 0 then [] else [RowOf(b, max, total)])
         == Percent((sum + b.count) as real, total as real)
  {
    if b.count == 0 {
      assert rows + [] == rows;
    } else {
      PctSnoc(rows, RowOf(b, max, total));
      PercentAdds(sum as real, b.count as real, total as real);
      assert (sum + b.count) as real == sum as real + b.count as real;
    }
  }

  lemma {:induction false} PercentagesAddUp(buckets: seq<LatencyBucket>, max: U64, total: U64)
    requires max > 0 && total > 0
    ensures PctSum(RowsOf(buckets, max, total)) == Percent(Sum(Counts(buckets)) as real, total as real)
  {
    if buckets == [] {
      ScaledIff(0.0, total as real, 100.0, 0.0);
    } else {
      var before, last := buckets[..|buckets| - 1], buckets[|buckets| - 1];
      PercentagesAddUp(before, max, total);
      SumSnoc(before, last);
      assert before + [last] == buckets;
      PctOfSnoc(RowsOf(before, max, total), last, Sum(Counts(before)), max, total);
    }
  }

  /** The percentages add up to 100 exactly when the u64 total did not wrap. */
  lemma {:induction false} PercentagesSumTo100Iff(buckets: seq<LatencyBucket>, max: U64)
    requires max > 0 && Wrap(Sum(Counts(buckets))) > 0
    ensures PctSum(RowsOf(buckets, max, Wrap(Sum(Counts(buckets))))) == 100.0 <==> Sum(Counts(buckets)) < TWO_64
  {
    var sum := Sum(Counts(buckets));
    var total := Wrap(sum);
    PercentagesAddUp(buckets, max, total);
    ScaledIff(sum as real, total as real, 100.0, 100.0);
    if sum < TWO_64 {
      WrapIs(sum, 0, sum);
    }
  }
}
