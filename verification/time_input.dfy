/** `TimeInput`: the "HHmm" text field of the slot dialog. Up to four digits
    are kept, shown with a colon after the hour, and read as an offset from
    local midnight with an optional minute step. */
module TimeInput {
  import opened Wrappers
  import opened Text
  import opened Clock

  /** `toDigits(raw)`: the digits of the input, at most four. */
  function ToDigits(raw: string): (r: string)
    ensures AllDigits(r) && |r| <= 4
    ensures |r| == if |FilterDigits(raw)| < 4 then |FilterDigits(raw)| else 4
    ensures r == FilterDigits(raw)[..|r|]
  {
    Take(FilterDigits(raw), 4)
  }

  /** Cleaning text that is already clean changes nothing. */
  lemma ToDigitsIdempotent(raw: string)
    ensures ToDigits(ToDigits(raw)) == ToDigits(raw)
  {
  }

  /** `digitsToDisplay(digits)`: a colon after the first two characters once
      there is a third. */
  function DigitsToDisplay(digits: string): (r: string)
    ensures |digits| <= 2 ==> r == digits
    ensures |digits| > 2 ==> |r| == |digits| + 1 && r[2] == ':'
  {
    if |digits| <= 2 then digits else digits[..2] + ":" + digits[2..]
  }

  /** The display form loses nothing: taking the colon out again gives the
      digits back. */
  lemma {:induction false} DisplayKeepsDigits(digits: string)
    requires AllDigits(digits)
    ensures FilterDigits(DigitsToDisplay(digits)) == digits
  {
    if |digits| > 2 {
      FilterDigitsAppend(digits[..2] + ":", digits[2..]);
      FilterDigitsAppend(digits[..2], ":");
      assert digits[..2] + digits[2..] == digits;
    }
  }

  /** Kotlin's `String.toIntOrNull()` on a two-character field: an optional
      sign and then digits. */
  function ParseField(s: string): (r: Option<int>)
    requires |s| == 2
    ensures AllDigits(s) ==> r == Some(DigitsValue(s))
    ensures r.Some? ==> -9 <= r.value <= 99
    ensures r.Some? && r.value >= 0 ==> (AllDigits(s) || (s[0] == '+' && IsDigit(s[1])) || s == "-0")
  {
    if s[0] == '-' || s[0] == '+' then
      if !IsDigit(s[1]) then None
      else if s[0] == '-' then Some(-DigitValue(s[1]))
      else Some(DigitValue(s[1]))
    else if AllDigits(s) then
      DigitsValueBound(s);
      Some(DigitsValue(s))
    else None
  }

  /** The hour and minute fields: the text left-padded with '0' to four
      characters, then characters 0-1 and 2-3 each read as a number. */
  function ReadFields(digits: string): (r: Option<(int, int)>)
    ensures AllDigits(digits) ==>
      var padded := PadStart(digits, 4, '0');
      r == Some((DigitsValue(padded[..2]), DigitsValue(padded[2..4])))
  {
    var padded := PadStart(digits, 4, '0');
    PadStartDigits(digits, 4);
    match (ParseField(padded[..2]), ParseField(padded[2..4]))
    case (Some(hh), Some(mm)) => Some((hh, mm))
    case _ => None
  }

  /** The range and step rules applied to the two fields. */
  function AcceptTime(hh: int, mm: int, step: Option<int>): (r: Option<int>)
    requires step != Some(0)
    ensures r.Some? <==>
      && 0 <= hh <= 23 && 0 <= mm <= 59
      && (step.Some? ==> KRem(mm, step.value) == 0)
      && !(step == Some(30) && hh == 23 && mm > 30)
    ensures r.Some? ==> r.value == (hh * 60 + mm) * MIN_MS
  {
    if !(0 <= hh <= 23) || !(0 <= mm <= 59) then None
    else if hh == 23 && mm > 30 && step == Some(30) then None
    else if step.Some? && KRem(mm, step.value) != 0 then None
    else if step == Some(30) && hh == 23 && mm > 30 then None
    else Some((hh * 60 + mm) * MIN_MS)
  }

  /** An accepted time is a whole minute of the day, and its minute field
      is the one that was read. */
  lemma AcceptedIsMinuteOfDay(hh: int, mm: int, step: Option<int>)
    requires step != Some(0)
    ensures AcceptTime(hh, mm, step).Some? ==>
      var v := AcceptTime(hh, mm, step).value;
      0 <= v < DAY_MS && v % MIN_MS == 0 && (v / MIN_MS) % 60 == mm && v / MIN_MS / 60 == hh
  {
    if AcceptTime(hh, mm, step).Some? {
      var q := hh * 60 + mm;
      DivModUnique(q * MIN_MS, MIN_MS, q, 0);
      DivModUnique(q, 60, hh, mm);
    }
  }

  /** `digitsToOffsetMillis(digits, allowStepMinutes)`; `step` is
      `allowStepMinutes` and `None` means "no step rule". A zero step would
      throw on `mm % 0`, so callers pass a non-zero one. */
  function DigitsToOffsetMillis(digits: string, step: Option<int>): (r: Option<int>)
    requires step != Some(0)
    ensures |digits| < 3 ==> r.None?
    ensures r.Some? ==> 0 <= r.value < DAY_MS && r.value % MIN_MS == 0
    ensures r.Some? && step.Some? ==> KRem((r.value / MIN_MS) % 60, step.value) == 0
    ensures r.Some? && step == Some(30) ==> r.value <= 84_600_000
    ensures AllDigits(digits) && r.Some? ==>
      var padded := PadStart(digits, 4, '0');
      var hh, mm := DigitsValue(padded[..2]), DigitsValue(padded[2..4]);
      hh <= 23 && mm <= 59 && r.value == (hh * 60 + mm) * MIN_MS
  {
    if |digits| < 3 then None
    else
      match ReadFields(digits)
      case None => None
      case Some(f) =>
        var r := AcceptTime(f.0, f.1, step);
        AcceptedIsMinuteOfDay(f.0, f.1, step);
        r
  }

  /** Characters after the fourth are ignored. */
  lemma ExtraCharactersIgnored(digits: string, step: Option<int>)
    requires step != Some(0) && |digits| > 4
    ensures DigitsToOffsetMillis(digits, step) == DigitsToOffsetMillis(digits[..4], step)
  {
    assert digits[..4][..2] == digits[..2] && digits[..4][2..4] == digits[2..4];
  }

  /** The four digits of a wall-clock time. */
  function HhmmDigits(hh: nat, mm: nat): (r: string)
    requires hh < 100 && mm < 100
    ensures |r| == 4 && AllDigits(r)
    ensures DigitsValue(r[..2]) == hh && DigitsValue(r[2..]) == mm
  {
    FixedDigitsValue(hh, 2);
    FixedDigitsValue(mm, 2);
    var r := FixedDigits(hh, 2) + FixedDigits(mm, 2);
    assert r[..2] == FixedDigits(hh, 2) && r[2..] == FixedDigits(mm, 2);
    r
  }

  /** Four digits are read as exactly their hour and minute fields. */
  lemma FourDigitsRead(hh: nat, mm: nat, step: Option<int>)
    requires hh < 100 && mm < 100 && step != Some(0)
    ensures DigitsToOffsetMillis(HhmmDigits(hh, mm), step) == AcceptTime(hh, mm, step)
  {
    var d := HhmmDigits(hh, mm);
    assert d[2..4] == d[2..];
    assert PadStart(d, 4, '0') == d;
  }

  /** Without a step rule every time from 00:00 to 23:59 is accepted. */
  lemma NoStepAcceptsEveryMinute(hh: nat, mm: nat)
    requires hh <= 23 && mm <= 59
    ensures DigitsToOffsetMillis(HhmmDigits(hh, mm), None) == Some((hh * 60 + mm) * MIN_MS)
  {
    FourDigitsRead(hh, mm, None);
  }

  /** With the 30-minute step, four digits are accepted exactly on the hour
      and the half hour, from 00:00 to 23:30. */
  lemma HalfHourStepAccepts(hh: nat, mm: nat)
    requires hh < 100 && mm < 100
    ensures DigitsToOffsetMillis(HhmmDigits(hh, mm), Some(30)).Some? <==> hh <= 23 && (mm == 0 || mm == 30)
  {
    FourDigitsRead(hh, mm, Some(30));
    KotlinOpsOnNaturals(mm, 30);
  }

  /** Three digits read as one hour digit and two minute digits. */
  lemma ThreeDigitsAreHmm(digits: string, step: Option<int>)
    requires step != Some(0) && |digits| == 3 && AllDigits(digits)
    ensures var r := DigitsToOffsetMillis(digits, step);
      r.Some? ==> r.value == (DigitValue(digits[0]) * 60 + DigitsValue(digits[1..])) * MIN_MS
  {
    var padded := PadStart(digits, 4, '0');
    assert padded == "0" + digits;
    assert padded[..2] == "0" + digits[..1];
    assert padded[2..4] == digits[1..];
    var h := padded[..2];
    assert h[..1] == "0" && h[1] == digits[0];
    assert DigitsValue(h[..1]) == 0 by {
      assert h[..1][..0] == [];
    }
  }
}
