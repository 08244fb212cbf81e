/** Millisecond time arithmetic shared by the data layer and the UI helpers.
    The device time zone is fixed at UTC+8 (Asia/Taipei, no daylight saving);
    `DayStart` plays the role of every Calendar "set time of day to 00:00". */
module Clock {

  const MIN_MS: int := 60_000
  const HOUR_MS: int := 3_600_000
  const DAY_MS: int := 86_400_000
  /** Offset of local wall-clock time from UTC. */
  const ZONE_OFFSET_MS: int := 28_800_000

  /** `d` is 00:00:00.000 of some local calendar day. */
  predicate IsLocalMidnight(d: int) {
    (d + ZONE_OFFSET_MS) % DAY_MS == 0
  }

  /** Local midnight of the day containing `t`. */
  function DayStart(t: int): (d: int)
    ensures d <= t < d + DAY_MS
    ensures IsLocalMidnight(d)
  {
    t - (t + ZONE_OFFSET_MS) % DAY_MS
  }

  /** A local midnight at most one day before `t` is `t`'s day start. */
  lemma DayStartUnique(t: int, d: int)
    requires IsLocalMidnight(d) && d <= t < d + DAY_MS
    ensures DayStart(t) == d
  {
    var d' := DayStart(t);
    var k := (d + ZONE_OFFSET_MS) / DAY_MS;
    var k' := (d' + ZONE_OFFSET_MS) / DAY_MS;
    assert d + ZONE_OFFSET_MS == DAY_MS * k;
    assert d' + ZONE_OFFSET_MS == DAY_MS * k';
    assert -DAY_MS < d - d' < DAY_MS;
    assert d - d' == DAY_MS * (k - k');
  }

  /** Day start is a projection: applying it twice changes nothing, and
      every instant of a day has the same day start. */
  lemma DayStartOfDay(t: int, u: int)
    requires DayStart(t) <= u < DayStart(t) + DAY_MS
    ensures DayStart(u) == DayStart(t)
    ensures DayStart(DayStart(t)) == DayStart(t)
  {
    DayStartUnique(u, DayStart(t));
    DayStartUnique(DayStart(t), DayStart(t));
  }

  /** Kotlin/JVM `/` on Long: truncates toward zero. */
  function KDiv(a: int, b: int): int
    requires b != 0
  {
    if a >= 0 && b > 0 then a / b
    else if a < 0 && b > 0 then -((-a) / b)
    else if a >= 0 then -(a / (-b))
    else (-a) / (-b)
  }

  /** Kotlin/JVM `%` on Long: the remainder takes the sign of the dividend. */
  function KRem(a: int, b: int): (r: int)
    requires b != 0
    ensures a == b * KDiv(a, b) + r
    ensures a >= 0 ==> 0 <= r
    ensures a < 0 ==> r <= 0
    ensures -(if b > 0 then b else -b) < r < (if b > 0 then b else -b)
  {
    a - b * KDiv(a, b)
  }

  /** On non-negative operands the JVM operators agree with Dafny's. */
  lemma KotlinOpsOnNaturals(a: int, b: int)
    requires a >= 0 && b > 0
    ensures KDiv(a, b) == a / b && KRem(a, b) == a % b
  {
  }

  /** A positive factor keeps a non-zero integer at least that far from 0. */
  lemma MulBounds(b: int, d: int)
    requires b > 0
    ensures d >= 1 ==> b * d >= b
    ensures d <= -1 ==> b * d <= -b
  {
  }

  /** Dividing a multiple of `b` by `b` gives the factor back exactly. */
  lemma MulDiv(b: int, k: int)
    requires b > 0
    ensures (b * k) / b == k && (b * k) % b == 0
  {
    var q := (b * k) / b;
    var r := (b * k) % b;
    assert b * (k - q) == r by {
      assert b * k == b * q + r;
    }
    MulBounds(b, k - q);
  }

  /** With a positive divisor the JVM remainder is zero exactly when the
      divisor divides the dividend. */
  lemma KRemZero(a: int, b: int)
    requires b != 0
    ensures b > 0 ==> (KRem(a, b) == 0 <==> a % b == 0)
  {
    if b > 0 && a % b == 0 {
      var q := a / b;
      assert a == b * q;
      if a < 0 {
        assert -a == b * (-q);
        MulDiv(b, -q);
      }
    }
    if b > 0 && KRem(a, b) == 0 {
      MulDiv(b, KDiv(a, b));
    }
  }

  /** Quotient and remainder by a positive divisor are unique. */
  lemma DivModUnique(a: int, k: int, q: int, r: int)
    requires k > 0 && a == k * q + r && 0 <= r < k
    ensures a / k == q && a % k == r
  {
    var q' := a / k;
    assert k * (q - q') == a % k - r;
    MulBounds(k, q - q');
  }

  /** Kotlin's `Long.toInt()`: the low 32 bits read as a signed number. */
  function ToInt32(x: int): (r: int)
    ensures -0x8000_0000 <= r < 0x8000_0000
    ensures -0x8000_0000 <= x < 0x8000_0000 ==> r == x
  {
    (x + 0x8000_0000) % 0x1_0000_0000 - 0x8000_0000
  }
}
