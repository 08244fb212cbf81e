/** `TimeOptions`: times of day as offsets from local midnight, the list of
    selectable offsets, their "HH:mm" labels and the conversion to and from
    absolute instants. */
module TimeOptions {
  import opened Wrappers
  import opened Text
  import opened Clock
  import TimeInput

  /** A positive factor preserves strict order. */
  lemma MulLess(a: int, b: int, k: int)
    requires k > 0
    ensures a * k < b * k <==> a < b
  {
    MulBounds(k, b - a);
    MulBounds(k, a - b);
    assert b * k - a * k == k * (b - a);
  }

  /** A step that divides an hour divides a day: `DAY_MS / step` steps fill
      it exactly. */
  lemma StepDividesDay(stepMinutes: int)
    requires stepMinutes > 0 && 60 % stepMinutes == 0
    ensures (stepMinutes * MIN_MS) * (DAY_MS / (stepMinutes * MIN_MS)) == DAY_MS
    ensures DAY_MS / (stepMinutes * MIN_MS) == 24 * (60 / stepMinutes)
  {
    var q := 60 / stepMinutes;
    assert stepMinutes * q == 60;
    assert (stepMinutes * MIN_MS) * (24 * q) == (stepMinutes * q) * (24 * MIN_MS);
    DivModUnique(DAY_MS, stepMinutes * MIN_MS, 24 * q, 0);
  }

  /** `offsets(stepMinutes)`: every step-th offset from 00:00 up to, not
      including, the next midnight. The source's `require` is the
      precondition. */
  method Offsets(stepMinutes: int) returns (list: seq<int>)
    requires stepMinutes > 0 && 60 % stepMinutes == 0
    ensures |list| == DAY_MS / (stepMinutes * MIN_MS) && |list| > 0
    ensures forall i :: 0 <= i < |list| ==> list[i] == i * (stepMinutes * MIN_MS) && 0 <= list[i] < DAY_MS
    ensures forall i :: 0 < i < |list| ==> list[i] - list[i - 1] == stepMinutes * MIN_MS
    ensures forall x :: 0 <= x < DAY_MS && x % (stepMinutes * MIN_MS) == 0 ==> x in list
  {
    var step := stepMinutes * MIN_MS;
    var n := DAY_MS / step;
    StepDividesDay(stepMinutes);
    list := [];
    var cur := 0;
    while cur < DAY_MS
      invariant cur == |list| * step && |list| <= n
      invariant forall i :: 0 <= i < |list| ==> list[i] == i * step
      decreases DAY_MS - cur
    {
      MulLess(|list|, n, step);
      list := list + [cur];
      cur := cur + step;
    }
    MulLess(|list|, n, step);
    MulLess(n - 1, n, step);
    forall i | 0 <= i < |list|
      ensures 0 <= list[i] < DAY_MS
    {
      MulLess(i, n, step);
      MulBounds(step, i);
    }
    forall x | 0 <= x < DAY_MS && x % step == 0
      ensures x in list
    {
      var k := x / step;
      MulLess(k, n, step);
      MulLess(-1, k, step);
      assert list[k] == x;
    }
  }

  /** `"%02d".format(n)`: at least two digits, zero-padded; a negative number
      keeps its sign. */
  function Pad2(n: int): (r: string)
    ensures 0 <= n < 100 ==> r == FixedDigits(n, 2)
    ensures n < 0 ==> |r| >= 2 && r[0] == '-'
  {
    if n >= 0 then
      Pad2Small(n);
      PadStart(NatToString(n), 2, '0')
    else IntToString(n)
  }

  lemma Pad2Small(n: nat)
    ensures n < 100 ==> PadStart(NatToString(n), 2, '0') == FixedDigits(n, 2)
  {
    if n < 10 {
      assert FixedDigits(n, 2) == FixedDigits(0, 1) + [DigitChar(n)];
      assert FixedDigits(0, 1) == [DigitChar(0)];
    } else if n < 100 {
      assert NatToString(n) == [DigitChar(n / 10)] + [DigitChar(n % 10)];
      assert FixedDigits(n, 2) == FixedDigits(n / 10, 1) + [DigitChar(n % 10)];
      assert FixedDigits(n / 10, 1) == [DigitChar(n / 10)];
    }
  }

  /** `offsetToLabel(offsetMillis)`: whole hours, then the minutes within the
      hour. */
  function OffsetToLabel(offsetMillis: int): (r: string)
    ensures 0 <= offsetMillis < 100 * HOUR_MS ==>
      && |r| == 5 && r[2] == ':' && AllDigits(r[..2]) && AllDigits(r[3..])
      && DigitsValue(r[..2]) == offsetMillis / HOUR_MS
      && DigitsValue(r[3..]) == (offsetMillis / MIN_MS) % 60
  {
    var hh := ToInt32(KDiv(offsetMillis, 60 * MIN_MS));
    var mm := ToInt32(KRem(KDiv(offsetMillis, MIN_MS), 60));
    LabelFields(offsetMillis);
    Pad2(hh) + ":" + Pad2(mm)
  }

  /** The two fields of a label of a non-negative offset. */
  lemma LabelFields(offsetMillis: int)
    ensures 0 <= offsetMillis < 100 * HOUR_MS ==>
      && ToInt32(KDiv(offsetMillis, 60 * MIN_MS)) == offsetMillis / HOUR_MS < 100
      && ToInt32(KRem(KDiv(offsetMillis, MIN_MS), 60)) == (offsetMillis / MIN_MS) % 60
      && DigitsValue(FixedDigits(offsetMillis / HOUR_MS, 2)) == offsetMillis / HOUR_MS
      && DigitsValue(FixedDigits((offsetMillis / MIN_MS) % 60, 2)) == (offsetMillis / MIN_MS) % 60
  {
    if 0 <= offsetMillis < 100 * HOUR_MS {
      KotlinOpsOnNaturals(offsetMillis, 60 * MIN_MS);
      KotlinOpsOnNaturals(offsetMillis, MIN_MS);
      KotlinOpsOnNaturals(offsetMillis / MIN_MS, 60);
      FixedDigitsValue(offsetMillis / HOUR_MS, 2);
      FixedDigitsValue((offsetMillis / MIN_MS) % 60, 2);
    }
  }

  /** `absoluteMillis(dateMillis, offsetMillis)` */
  function AbsoluteMillis(dateMillis: int, offsetMillis: int): (r: int)
    ensures r - dateMillis == offsetMillis
  {
    dateMillis + offsetMillis
  }

  /** `toOffsetMillis(dateMillis, absoluteMillis)` */
  function ToOffsetMillis(dateMillis: int, absoluteMillis: int): (r: int)
    ensures dateMillis + r == absoluteMillis
  {
    absoluteMillis - dateMillis
  }

  /** The two conversions undo each other. */
  lemma OffsetRoundTrips(dateMillis: int, offsetMillis: int, absoluteMillis: int)
    ensures ToOffsetMillis(dateMillis, AbsoluteMillis(dateMillis, offsetMillis)) == offsetMillis
    ensures AbsoluteMillis(dateMillis, ToOffsetMillis(dateMillis, absoluteMillis)) == absoluteMillis
  {
  }

  /** An offset within a day, from a local midnight, lands on that day. */
  lemma OffsetStaysOnDay(dateMillis: int, offsetMillis: int)
    requires IsLocalMidnight(dateMillis) && 0 <= offsetMillis < DAY_MS
    ensures DayStart(AbsoluteMillis(dateMillis, offsetMillis)) == dateMillis
  {
    DayStartUnique(AbsoluteMillis(dateMillis, offsetMillis), dateMillis);
  }

  /** A minute count that is a multiple of a divisor of 60 leaves a minute
      field that is a multiple of it too. */
  lemma MinuteFieldOnStep(q: int, s: int)
    requires q >= 0 && s > 0 && 60 % s == 0 && q % s == 0
    ensures (q % 60) % s == 0
  {
    var t := 60 / s;
    var j := q / s;
    assert q == s * j && 60 == s * t;
    assert q % 60 == s * (j - t * (q / 60));
    DivModUnique(q % 60, s, j - t * (q / 60), 0);
  }

  /** Hours and minutes of a whole-minute offset within the day. */
  lemma MinuteOfDay(offsetMillis: int)
    requires 0 <= offsetMillis < DAY_MS && offsetMillis % MIN_MS == 0
    ensures var h, m := offsetMillis / HOUR_MS, (offsetMillis / MIN_MS) % 60;
      0 <= h <= 23 && 0 <= m <= 59 && (h * 60 + m) * MIN_MS == offsetMillis
  {
    var q := offsetMillis / MIN_MS;
    var m := q % 60;
    DivModUnique(offsetMillis, MIN_MS, q, 0);
    DivModUnique(offsetMillis, HOUR_MS, q / 60, MIN_MS * m);
  }

  /** The label's digits are the hour field and the minute field. */
  lemma LabelDigits(offsetMillis: int)
    requires 0 <= offsetMillis < DAY_MS
    ensures var h, m := offsetMillis / HOUR_MS, (offsetMillis / MIN_MS) % 60;
      h < 100 && m < 100 && TimeInput.ToDigits(OffsetToLabel(offsetMillis)) == TimeInput.HhmmDigits(h, m)
  {
    var h, m := offsetMillis / HOUR_MS, (offsetMillis / MIN_MS) % 60;
    LabelFields(offsetMillis);
    assert OffsetToLabel(offsetMillis) == FixedDigits(h, 2) + ":" + FixedDigits(m, 2);
    FilterDigitsAppend(FixedDigits(h, 2) + ":", FixedDigits(m, 2));
    FilterDigitsAppend(FixedDigits(h, 2), ":");
  }

  /** The step rule holds for an offset on the step grid. */
  lemma OnStepGrid(offsetMillis: int, s: int)
    requires 0 <= offsetMillis && s > 0 && 60 % s == 0 && offsetMillis % (s * MIN_MS) == 0
    ensures KRem((offsetMillis / MIN_MS) % 60, s) == 0
  {
    var q := offsetMillis / MIN_MS;
    var k := offsetMillis / (s * MIN_MS);
    assert offsetMillis == MIN_MS * (s * k);
    DivModUnique(offsetMillis, MIN_MS, s * k, 0);
    DivModUnique(q, s, k, 0);
    MinuteFieldOnStep(q, s);
    KotlinOpsOnNaturals(q % 60, s);
  }

  /** The label of an offset, with its colon dropped, is read back as the
      same offset: every entry of `offsets(step)` survives the dialog's
      text field with that step, and every minute of the day survives it
      without one. */
  lemma LabelReadsBack(offsetMillis: int, step: Option<int>)
    requires 0 <= offsetMillis < DAY_MS && offsetMillis % MIN_MS == 0
    requires step.Some? ==> step.value > 0 && 60 % step.value == 0 && offsetMillis % (step.value * MIN_MS) == 0
    ensures TimeInput.DigitsToOffsetMillis(TimeInput.ToDigits(OffsetToLabel(offsetMillis)), step) == Some(offsetMillis)
  {
    var h, m := offsetMillis / HOUR_MS, (offsetMillis / MIN_MS) % 60;
    MinuteOfDay(offsetMillis);
    LabelDigits(offsetMillis);
    if step.Some? {
      OnStepGrid(offsetMillis, step.value);
    }
    AcceptsOnGrid(h, m, step);
    TimeInput.FourDigitsRead(h, m, step);
  }

  /** The rules accept a time of day whose minutes are on the step grid. */
  lemma AcceptsOnGrid(h: int, m: int, step: Option<int>)
    requires 0 <= h <= 23 && 0 <= m <= 59
    requires step.Some? ==> step.value > 0 && 60 % step.value == 0 && KRem(m, step.value) == 0
    ensures TimeInput.AcceptTime(h, m, step) == Some((h * 60 + m) * MIN_MS)
  {
    if step == Some(30) {
      KotlinOpsOnNaturals(m, 30);
    }
  }
}
