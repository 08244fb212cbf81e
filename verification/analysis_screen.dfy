/** The time-band chips of the analysis list: which of the four six-hour
    bands (0 = 00-06, 1 = 06-12, 2 = 12-18, 3 = 18-24) a slot touches.
    The time of day is taken as the epoch milliseconds modulo one day, that
    is on the UTC clock, exactly as the screen computes it. */
module AnalysisScreen {
  import opened Clock

  const SIX_HOURS_MS: int := 6 * HOUR_MS

  /** `t(m) = (m % day + day) % day` with the JVM remainder. */
  function TimeInDay(m: int): (r: int)
    ensures 0 <= r < DAY_MS
    ensures r == m % DAY_MS
  {
    TimeInDayIsMod(m);
    KRem(KRem(m, DAY_MS) + DAY_MS, DAY_MS)
  }

  /** The double remainder is the non-negative remainder. */
  lemma TimeInDayIsMod(m: int)
    ensures KRem(KRem(m, DAY_MS) + DAY_MS, DAY_MS) == m % DAY_MS
  {
    var x := KRem(m, DAY_MS) + DAY_MS;
    KotlinOpsOnNaturals(x, DAY_MS);
    assert x == DAY_MS * (m / DAY_MS + 1 - KDiv(m, DAY_MS)) + m % DAY_MS;
    DivModUnique(x, DAY_MS, m / DAY_MS + 1 - KDiv(m, DAY_MS), m % DAY_MS);
  }

  /** `bucketOf(timeInDay)`: the band of the hour. */
  function BucketOf(timeInDay: int): (b: int)
    ensures 0 <= b <= 3
    ensures 0 <= timeInDay < DAY_MS ==> b == timeInDay / SIX_HOURS_MS
  {
    var h := KDiv(timeInDay, HOUR_MS);
    if 0 <= h <= 5 then 0
    else if 6 <= h <= 11 then 1
    else if 12 <= h <= 17 then 2
    else 3
  }

  /** `boundaries.firstOrNull { it > cur } ?: DAY`. */
  function NextBoundary(cur: int): (r: int)
    ensures cur < DAY_MS ==> r > cur
    ensures 0 <= cur < DAY_MS ==> r == (cur / SIX_HOURS_MS + 1) * SIX_HOURS_MS
  {
    if 0 > cur then 0
    else if SIX_HOURS_MS > cur then SIX_HOURS_MS
    else if 2 * SIX_HOURS_MS > cur then 2 * SIX_HOURS_MS
    else if 3 * SIX_HOURS_MS > cur then 3 * SIX_HOURS_MS
    else if DAY_MS > cur then DAY_MS
    else DAY_MS
  }

  function Min(a: int, b: int): int {
    if a <= b then a else b
  }

  /** The `while (cur < e)` loop: record the band of `cur` unless it is the
      last one recorded, then jump to the next boundary. */
  function Walk(cur: int, e: int, result: seq<int>): (r: seq<int>)
    requires 0 <= cur && e <= DAY_MS
    decreases e - cur
  {
    if cur < e then
      var b := BucketOf(cur);
      var next := if |result| > 0 && result[|result| - 1] == b then result else result + [b];
      Walk(Min(e, NextBoundary(cur)), e, next)
    else result
  }

  /** Each pass of the loop moves `cur` strictly forward and never past
      `e`, so the loop ends. */
  lemma WalkProgress(cur: int, e: int)
    requires 0 <= cur < e <= DAY_MS
    ensures cur < Min(e, NextBoundary(cur)) <= e
  {
  }

  /** The bands `lo, lo + 1, ..., hi`. */
  function Range(lo: int, hi: int): (r: seq<int>)
    ensures lo <= hi ==> |r| == hi - lo + 1
    ensures lo > hi ==> r == []
    ensures forall i :: 0 <= i < |r| ==> r[i] == lo + i
    decreases hi - lo
  {
    if lo > hi then [] else [lo] + Range(lo + 1, hi)
  }

  /** One pass of the loop: the next boundary, when still before `e`, opens
      the following band; otherwise the last millisecond before `e` is in
      the band of `cur`. */
  lemma BandStep(cur: int, e: int)
    requires 0 <= cur < e <= DAY_MS
    ensures BucketOf(cur) <= BucketOf(e - 1)
    ensures NextBoundary(cur) < e ==> BucketOf(NextBoundary(cur)) == BucketOf(cur) + 1
    ensures NextBoundary(cur) >= e ==> BucketOf(e - 1) == BucketOf(cur)
  {
    var q := cur / SIX_HOURS_MS;
    var nb := NextBoundary(cur);
    BucketMonotone(cur, e - 1);
    assert cur == SIX_HOURS_MS * q + cur % SIX_HOURS_MS;
    assert nb == SIX_HOURS_MS * (q + 1) + 0;
    if nb < e {
      DivModUnique(nb, SIX_HOURS_MS, q + 1, 0);
    } else {
      DivModUnique(e - 1, SIX_HOURS_MS, q, e - 1 - SIX_HOURS_MS * q);
    }
  }

  /** The walk from `cur` appends every band from the one holding `cur` to
      the one holding the last millisecond before `e`, each once. */
  lemma {:induction false} WalkIsRange(cur: int, e: int, result: seq<int>)
    requires 0 <= cur && e <= DAY_MS
    requires cur < e && |result| > 0 ==> result[|result| - 1] < BucketOf(cur)
    ensures Walk(cur, e, result) == if cur < e then result + Range(BucketOf(cur), BucketOf(e - 1)) else result
    decreases e - cur
  {
    if cur < e {
      var b := BucketOf(cur);
      var nb := NextBoundary(cur);
      var next := result + [b];
      BandStep(cur, e);
      if nb < e {
        WalkIsRange(nb, e, next);
        assert Range(b, BucketOf(e - 1)) == [b] + Range(b + 1, BucketOf(e - 1));
        assert next + Range(b + 1, BucketOf(e - 1)) == result + ([b] + Range(b + 1, BucketOf(e - 1)));
      } else {
        WalkIsRange(e, e, next);
        assert Range(b, b) == [b];
      }
    }
  }

  /** A later time of day is never in an earlier band. */
  lemma BucketMonotone(a: int, b: int)
    requires 0 <= a <= b < DAY_MS
    ensures BucketOf(a) <= BucketOf(b)
  {
    assert a / SIX_HOURS_MS <= b / SIX_HOURS_MS;
  }

  /** `computeTimeBuckets(startMillis, endMillis)`: every band from the
      start's to the one holding the end's last millisecond, in order and
      each once; an end whose time of day falls before the start's counts as
      the start. */
  function ComputeTimeBuckets(startMillis: int, endMillis: int): (r: seq<int>)
    ensures var s, e := TimeInDay(startMillis), TimeInDay(endMillis);
      r == Range(BucketOf(s), if s < e then BucketOf(e - 1) else BucketOf(s))
    ensures |r| > 0 && r[0] == BucketOf(TimeInDay(startMillis))
    ensures forall i :: 0 <= i < |r| ==> 0 <= r[i] <= 3
    ensures forall i, j :: 0 <= i < j < |r| ==> r[i] < r[j]
    ensures TimeInDay(endMillis) <= TimeInDay(startMillis) ==> r == [BucketOf(TimeInDay(startMillis))]
  {
    var s, e := TimeInDay(startMillis), TimeInDay(endMillis);
    var lo := BucketOf(s);
    var hi := if s < e then BucketOf(e - 1) else lo;
    BucketMonotone(s, if s < e then e - 1 else s);
    RangeShape(lo, hi);
    BucketsBetween(s, e)
  }

  /** The loop of `computeTimeBuckets` on the two times of day `s` and
      `eRaw`: the bands from the one of `s` to the one of the millisecond
      before `eRaw`. */
  function BucketsBetween(s: int, eRaw: int): (r: seq<int>)
    requires 0 <= s < DAY_MS && 0 <= eRaw < DAY_MS
    ensures r == Range(BucketOf(s), if s < eRaw then BucketOf(eRaw - 1) else BucketOf(s))
  {
    var e := if eRaw < s then s else eRaw;
    var lo := BucketOf(s);
    WalkIsRange(s, e, []);
    assert Range(lo, lo) == [lo];
    var result := Walk(s, e, []);
    if |result| == 0 then [lo] else result
  }

  /** A run of bands from `lo` to `hi` starts at `lo`, stays within 0..3 and
      ascends strictly; a run of one band is just that band. */
  lemma RangeShape(lo: int, hi: int)
    requires 0 <= lo <= hi <= 3
    ensures |Range(lo, hi)| > 0 && Range(lo, hi)[0] == lo
    ensures forall i :: 0 <= i < |Range(lo, hi)| ==> 0 <= Range(lo, hi)[i] <= 3
    ensures forall i, j :: 0 <= i < j < |Range(lo, hi)| ==> Range(lo, hi)[i] < Range(lo, hi)[j]
    ensures Range(lo, lo) == [lo]
  {
  }

  /** A slot inside the 08:00-09:30 UTC morning touches band 1 only; one from
      05:00 to 13:00 touches bands 0, 1 and 2. */
  lemma BucketExamples(day: int)
    requires day % DAY_MS == 0
    ensures ComputeTimeBuckets(day + 8 * HOUR_MS, day + 9 * HOUR_MS + 30 * MIN_MS) == [1]
    ensures ComputeTimeBuckets(day + 5 * HOUR_MS, day + 13 * HOUR_MS) == [0, 1, 2]
  {
    DivModUnique(day + 8 * HOUR_MS, DAY_MS, day / DAY_MS, 8 * HOUR_MS);
    DivModUnique(day + 9 * HOUR_MS + 30 * MIN_MS, DAY_MS, day / DAY_MS, 9 * HOUR_MS + 30 * MIN_MS);
    DivModUnique(day + 5 * HOUR_MS, DAY_MS, day / DAY_MS, 5 * HOUR_MS);
    DivModUnique(day + 13 * HOUR_MS, DAY_MS, day / DAY_MS, 13 * HOUR_MS);
    assert Range(0, 2) == [0, 1, 2];
  }
}
