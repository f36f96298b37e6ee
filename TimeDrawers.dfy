/**
  The DateTime and TimeSpan branches of DrawField. Both values are counts
  of 100 ns ticks in a 64-bit signed integer. The TimeSpan branch shows
  the Hours, Minutes and Seconds components in three int fields and
  rebuilds the value with `new TimeSpan(hours, minutes, seconds)`.
*/
module TimeDrawers {
  import opened Common

  type Int32 = x: int | -0x8000_0000 <= x < 0x8000_0000
  type Int64 = x: int | -0x8000_0000_0000_0000 <= x < 0x8000_0000_0000_0000

  const TicksPerSecond: int := 10_000_000
  const TicksPerMinute: int := 600_000_000
  const TicksPerHour: int := 36_000_000_000
  const TicksPerDay: int := 864_000_000_000

  /** The largest and smallest whole-second counts a TimeSpan can hold:
      long.MaxValue and long.MinValue divided by TicksPerSecond. */
  const MaxSeconds: int := 922_337_203_685
  const MinSeconds: int := -922_337_203_685

  /** C#'s `/` on long: the quotient truncated toward zero. */
  function Quot(a: int, b: int): (q: int)
    requires b > 0
    ensures a >= 0 ==> q == a / b
    ensures a < 0 ==> q == -((-a) / b)
  {
    if a >= 0 then a / b else -((-a) / b)
  }

  /** Truncation toward zero: the quotient has the sign of the dividend,
      and its magnitude is the largest number of whole divisors that fit
      into the dividend's magnitude. */
  lemma QuotTruncates(a: int, b: int)
    requires b > 0
    ensures a >= 0 ==> 0 <= Quot(a, b) && b * Quot(a, b) <= a < b * Quot(a, b) + b
    ensures a < 0 ==> Quot(a, b) <= 0 && b * -Quot(a, b) <= -a < b * -Quot(a, b) + b
  {
    if a >= 0 {
      DivBounds(a, b);
    } else {
      DivBounds(-a, b);
    }
  }

  /** Euclidean division of a natural number by a positive divisor. */
  lemma DivBounds(n: nat, b: int)
    requires b > 0
    ensures 0 <= n / b && b * (n / b) <= n < b * (n / b) + b
  {
  }

  /** C#'s `%` on long: the remainder takes the sign of the dividend. */
  function Rem(a: int, b: int): (r: int)
    requires b > 0
    ensures a == b * Quot(a, b) + r
    ensures a >= 0 ==> 0 <= r < b
    ensures a < 0 ==> -b < r <= 0
  {
    a - b * Quot(a, b)
  }

  /** TimeSpan.Days, Hours, Minutes, Seconds and the sub-second ticks: each
      component lies in its own range and carries the sign of the value. */
  function Days(t: Int64): (d: int)
    ensures t >= 0 ==> d >= 0
    ensures t < 0 ==> d <= 0
  {
    Quot(t, TicksPerDay)
  }

  function Hours(t: Int64): (h: int)
    ensures t >= 0 ==> 0 <= h < 24
    ensures t < 0 ==> -24 < h <= 0
  {
    Rem(Quot(t, TicksPerHour), 24)
  }

  function Minutes(t: Int64): (m: int)
    ensures t >= 0 ==> 0 <= m < 60
    ensures t < 0 ==> -60 < m <= 0
  {
    Rem(Quot(t, TicksPerMinute), 60)
  }

  function Seconds(t: Int64): (s: int)
    ensures t >= 0 ==> 0 <= s < 60
    ensures t < 0 ==> -60 < s <= 0
  {
    Rem(Quot(t, TicksPerSecond), 60)
  }

  function SubSecond(t: Int64): (f: int)
    ensures t >= 0 ==> 0 <= f < TicksPerSecond
    ensures t < 0 ==> -TicksPerSecond < f <= 0
  {
    Rem(t, TicksPerSecond)
  }

  /** `new TimeSpan(hours, minutes, seconds)`: the total is counted in whole
      seconds and must fit once scaled to ticks. */
  function FromHms(hours: Int32, minutes: Int32, seconds: Int32): (r: Result<Int64>)
    ensures r.Err? <==> !(MinSeconds <= hours * 3600 + minutes * 60 + seconds <= MaxSeconds)
    ensures r.Err? ==> r.error == ArgumentOutOfRange
    ensures r.Ok? ==> r.value == (hours * 3600 + minutes * 60 + seconds) * TicksPerSecond
  {
    var totalSeconds := hours * 3600 + minutes * 60 + seconds;
    if totalSeconds > MaxSeconds || totalSeconds < MinSeconds then Err(ArgumentOutOfRange)
    else Ok(totalSeconds * TicksPerSecond)
  }

  /** Dividing by a larger tick unit is dividing the count of the next
      smaller unit. */
  lemma UnitQuotients(n: nat)
    ensures n / TicksPerMinute == (n / TicksPerSecond) / 60
    ensures n / TicksPerHour == (n / TicksPerMinute) / 60
    ensures n / TicksPerDay == (n / TicksPerHour) / 24
  {
  }

  /** A non-negative tick count is the sum of its components. */
  lemma DecomposeNat(n: nat)
    requires n < 0x8000_0000_0000_0000
    ensures n == Days(n) * TicksPerDay + Hours(n) * TicksPerHour + Minutes(n) * TicksPerMinute
                 + Seconds(n) * TicksPerSecond + SubSecond(n)
  {
    var s := n / TicksPerSecond;
    UnitQuotients(n);
    var m := n / TicksPerMinute;
    var h := n / TicksPerHour;
    assert m == s / 60;
    assert h == m / 60;
    assert Days(n) == h / 24;
    assert n == s * TicksPerSecond + SubSecond(n);
    assert s == m * 60 + Seconds(n);
    assert m == h * 60 + Minutes(n);
    assert h == Days(n) * 24 + Hours(n);
  }

  /** Every tick count is the sum of its components, each carrying the
      sign of the whole. */
  lemma Decompose(t: Int64)
    ensures t == Days(t) * TicksPerDay + Hours(t) * TicksPerHour + Minutes(t) * TicksPerMinute
                 + Seconds(t) * TicksPerSecond + SubSecond(t)
  {
    if t >= 0 {
      DecomposeNat(t);
    } else if t > -0x8000_0000_0000_0000 {
      var n: nat := -t;
      DecomposeNat(n);
      assert Days(t) == -Days(n);
      assert Hours(t) == -Hours(n);
      assert Minutes(t) == -Minutes(n);
      assert Seconds(t) == -Seconds(n);
      assert SubSecond(t) == -SubSecond(n);
    } else {
      assert Days(t) == -10675199 && Hours(t) == -2 && Minutes(t) == -48;
      assert Seconds(t) == -5 && SubSecond(t) == -4775808;
    }
  }

  /**
    The constructor and the three components are inverse: hours, minutes
    and seconds within a day, all of one sign, build a span whose
    components are those three, with no days and no fraction.
  */
  lemma HmsRoundTrip(hours: Int32, minutes: Int32, seconds: Int32)
    requires (0 <= hours < 24 && 0 <= minutes < 60 && 0 <= seconds < 60) ||
             (-24 < hours <= 0 && -60 < minutes <= 0 && -60 < seconds <= 0)
    ensures FromHms(hours, minutes, seconds).Ok?
    ensures var t := FromHms(hours, minutes, seconds).value;
            Hours(t) == hours && Minutes(t) == minutes && Seconds(t) == seconds &&
            Days(t) == 0 && SubSecond(t) == 0
  {
    var total := hours * 3600 + minutes * 60 + seconds;
    var t: Int64 := total * TicksPerSecond;
    assert FromHms(hours, minutes, seconds) == Ok(t);
    if 0 <= hours && 0 <= minutes && 0 <= seconds {
      HmsNat(hours, minutes, seconds);
    } else {
      HmsNeg(-hours, -minutes, -seconds);
      assert t == -((-hours * 3600 + -minutes * 60 + -seconds) * TicksPerSecond);
    }
  }

  /** The non-positive half of HmsRoundTrip, by negation of the other half. */
  lemma HmsNeg(hours: int, minutes: int, seconds: int)
    requires 0 <= hours < 24 && 0 <= minutes < 60 && 0 <= seconds < 60
    ensures var t := -((hours * 3600 + minutes * 60 + seconds) * TicksPerSecond);
            Hours(t) == -hours && Minutes(t) == -minutes && Seconds(t) == -seconds &&
            Days(t) == 0 && SubSecond(t) == 0
  {
    ComposeNeg(0, hours, minutes, seconds, 0);
    assert (hours * 3600 + minutes * 60 + seconds) * TicksPerSecond ==
           0 * TicksPerDay + hours * TicksPerHour + minutes * TicksPerMinute + seconds * TicksPerSecond + 0;
  }

  /** Truncating division commutes with negation. */
  lemma QuotNegates(a: int, b: int)
    requires b > 0
    ensures Quot(-a, b) == -Quot(a, b)
  {
  }

  /** So does the remainder that goes with it. */
  lemma RemNegates(a: int, b: int)
    requires b > 0
    ensures Rem(-a, b) == -Rem(a, b)
  {
    QuotNegates(a, b);
  }

  /** The non-negative half of HmsRoundTrip. */
  lemma HmsNat(hours: int, minutes: int, seconds: int)
    requires 0 <= hours < 24 && 0 <= minutes < 60 && 0 <= seconds < 60
    ensures var t := (hours * 3600 + minutes * 60 + seconds) * TicksPerSecond;
            Hours(t) == hours && Minutes(t) == minutes && Seconds(t) == seconds &&
            Days(t) == 0 && SubSecond(t) == 0
  {
    var t := (hours * 3600 + minutes * 60 + seconds) * TicksPerSecond;
    assert t / TicksPerSecond == hours * 3600 + minutes * 60 + seconds;
    assert t / TicksPerMinute == hours * 60 + minutes;
    assert t / TicksPerHour == hours;
    assert t / TicksPerDay == 0;
    assert t % TicksPerSecond == 0;
  }

  /**
    The TimeSpan branch as written: the three int fields start at the
    Hours, Minutes and Seconds of the value, the user may change them, and
    the result is rebuilt from the three fields alone.
  */
  function DrawTimeSpanAsWritten(hours: Int32, minutes: Int32, seconds: Int32): Result<Int64>
  {
    FromHms(hours, minutes, seconds)
  }

  /**
    Drawing a TimeSpan without touching it gives back the value with its
    days and its fraction of a second dropped: one day becomes zero, and
    so does half a millisecond.
  */
  lemma RedrawDropsDaysAndFraction(t: Int64)
    ensures DrawTimeSpanAsWritten(Hours(t), Minutes(t), Seconds(t)) ==
              Ok(t - Days(t) * TicksPerDay - SubSecond(t))
  {
    Decompose(t);
  }

  /** The two inputs named above: one day, and half a millisecond (5000 ticks). */
  lemma RedrawCounterexamples()
    ensures DrawTimeSpanAsWritten(Hours(TicksPerDay), Minutes(TicksPerDay), Seconds(TicksPerDay)) == Ok(0)
    ensures DrawTimeSpanAsWritten(Hours(5000), Minutes(5000), Seconds(5000)) == Ok(0)
  {
  }

  /**
    The TimeSpan branch as evidently intended: the edited hours, minutes
    and seconds are added to the days and the fraction of a second of the
    old value. A total outside the 64-bit tick range is rejected like the
    TimeSpan constructors reject it. DrawTimeSpanComponents says when the
    days and the fraction are kept.
  */
  function DrawTimeSpan(t: Int64, hours: Int32, minutes: Int32, seconds: Int32): (r: Result<Int64>)
    ensures r.Err? <==> !(-0x8000_0000_0000_0000 <= Days(t) * TicksPerDay +
                          (hours * 3600 + minutes * 60 + seconds) * TicksPerSecond + SubSecond(t)
                          < 0x8000_0000_0000_0000)
    ensures r.Err? ==> r.error == ArgumentOutOfRange
    ensures r.Ok? ==> Days(t) * TicksPerDay + SubSecond(t) == r.value - (hours * 3600 + minutes * 60 + seconds) * TicksPerSecond
  {
    var ticks := Days(t) * TicksPerDay + (hours * 3600 + minutes * 60 + seconds) * TicksPerSecond + SubSecond(t);
    if -0x8000_0000_0000_0000 <= ticks < 0x8000_0000_0000_0000 then Ok(ticks) else Err(ArgumentOutOfRange)
  }

  /** Drawing a TimeSpan without touching it gives back the same value. */
  lemma RedrawKeepsTimeSpan(t: Int64)
    ensures DrawTimeSpan(t, Hours(t), Minutes(t), Seconds(t)) == Ok(t)
  {
    Decompose(t);
  }

  /**
    Fields edited within a day and with the sign of the value give a span
    whose days and fraction are the old ones and whose hours, minutes and
    seconds are the edited ones. Only a value within a day of the end of
    the 64-bit range can overflow.
  */
  lemma DrawTimeSpanComponents(t: Int64, hours: Int32, minutes: Int32, seconds: Int32)
    requires (t >= 0 && 0 <= hours < 24 && 0 <= minutes < 60 && 0 <= seconds < 60) ||
             (t < 0 && -24 < hours <= 0 && -60 < minutes <= 0 && -60 < seconds <= 0)
    ensures -10675199 < Days(t) < 10675199 ==> DrawTimeSpan(t, hours, minutes, seconds).Ok?
    ensures DrawTimeSpan(t, hours, minutes, seconds).Ok? ==>
              var v := DrawTimeSpan(t, hours, minutes, seconds).value;
              Days(v) == Days(t) && Hours(v) == hours && Minutes(v) == minutes &&
              Seconds(v) == seconds && SubSecond(v) == SubSecond(t)
  {
    var r := DrawTimeSpan(t, hours, minutes, seconds);
    if r.Ok? {
      if t >= 0 {
        ComposeNat(Days(t), hours, minutes, seconds, SubSecond(t));
      } else {
        ComposeNeg(-Days(t), -hours, -minutes, -seconds, -SubSecond(t));
      }
    }
  }

  /** The components of a non-negative sum of components within their ranges. */
  lemma ComposeNat(d: nat, h: int, m: int, s: int, f: int)
    requires 0 <= h < 24 && 0 <= m < 60 && 0 <= s < 60 && 0 <= f < TicksPerSecond
    requires d * TicksPerDay + h * TicksPerHour + m * TicksPerMinute + s * TicksPerSecond + f < 0x8000_0000_0000_0000
    ensures var u := d * TicksPerDay + h * TicksPerHour + m * TicksPerMinute + s * TicksPerSecond + f;
            Days(u) == d && Hours(u) == h && Minutes(u) == m && Seconds(u) == s && SubSecond(u) == f
  {
    UnitsOf(d, h, m, s, f);
  }

  /** The components of the negation of such a sum, one of them long.MinValue. */
  lemma ComposeNeg(d: int, h: int, m: int, s: int, f: int)
    requires 0 <= d && 0 <= h < 24 && 0 <= m < 60 && 0 <= s < 60 && 0 <= f < TicksPerSecond
    requires d * TicksPerDay + h * TicksPerHour + m * TicksPerMinute + s * TicksPerSecond + f <= 0x8000_0000_0000_0000
    ensures var v := -(d * TicksPerDay + h * TicksPerHour + m * TicksPerMinute + s * TicksPerSecond + f);
            Days(v) == -d && Hours(v) == -h && Minutes(v) == -m && Seconds(v) == -s && SubSecond(v) == -f
  {
    var u := d * TicksPerDay + h * TicksPerHour + m * TicksPerMinute + s * TicksPerSecond + f;
    UnitsOf(d, h, m, s, f);
    NegatedComponents(u);
  }

  /** The components of a non-positive tick count, from those of its magnitude. */
  lemma NegatedComponents(u: int)
    requires 0 <= u <= 0x8000_0000_0000_0000
    ensures Days(-u) == -(u / TicksPerDay)
    ensures Hours(-u) == -Rem(u / TicksPerHour, 24)
    ensures Minutes(-u) == -Rem(u / TicksPerMinute, 60)
    ensures Seconds(-u) == -Rem(u / TicksPerSecond, 60)
    ensures SubSecond(-u) == -Rem(u, TicksPerSecond)
  {
    RemNegates(u / TicksPerHour, 24);
    RemNegates(u / TicksPerMinute, 60);
    RemNegates(u / TicksPerSecond, 60);
    RemNegates(u, TicksPerSecond);
  }

  /** The whole units in a sum of components within their ranges. */
  lemma UnitsOf(d: nat, h: int, m: int, s: int, f: int)
    requires 0 <= h < 24 && 0 <= m < 60 && 0 <= s < 60 && 0 <= f < TicksPerSecond
    ensures var u := d * TicksPerDay + h * TicksPerHour + m * TicksPerMinute + s * TicksPerSecond + f;
            u / TicksPerSecond == d * 86400 + h * 3600 + m * 60 + s && u % TicksPerSecond == f &&
            u / TicksPerMinute == d * 1440 + h * 60 + m && u / TicksPerHour == d * 24 + h &&
            u / TicksPerDay == d &&
            Rem(d * 24 + h, 24) == h && Rem(d * 1440 + h * 60 + m, 60) == m &&
            Rem(d * 86400 + h * 3600 + m * 60 + s, 60) == s
  {
    var u := d * TicksPerDay + h * TicksPerHour + m * TicksPerMinute + s * TicksPerSecond + f;
    assert u / TicksPerSecond == d * 86400 + h * 3600 + m * 60 + s;
    assert u / TicksPerMinute == d * 1440 + h * 60 + m;
    assert u / TicksPerHour == d * 24 + h;
    assert u / TicksPerDay == d;
    assert (d * 24 + h) / 24 == d;
    assert (d * 1440 + h * 60 + m) / 60 == d * 24 + h;
    assert (d * 86400 + h * 3600 + m * 60 + s) / 60 == d * 1440 + h * 60 + m;
  }

  /** Editing one field changes the value by exactly that many units. */
  lemma EditHoursShifts(t: Int64, hours: Int32)
    requires DrawTimeSpan(t, hours, Minutes(t), Seconds(t)).Ok?
    ensures DrawTimeSpan(t, hours, Minutes(t), Seconds(t)).value == t + (hours - Hours(t)) * TicksPerHour
  {
    Decompose(t);
  }

  /**
    The DateTime branch: the value is shown as text, and the edited text
    replaces it only when it parses. `tryParse` stands for DateTime.TryParse.
  */
  function DrawDateTime(value: Int64, typed: string, tryParse: string -> Option<Int64>): (r: Int64)
    ensures tryParse(typed).None? ==> r == value
    ensures tryParse(typed).Some? ==> r == tryParse(typed).value
  {
    match tryParse(typed)
    case Some(parsed) => parsed
    case None => value
  }

  /**
    The field shows the value formatted to whole seconds. When parsing that
    text gives back the value truncated to the second (`toString` and
    `tryParse` stand for the format and the parser), an untouched redraw
    keeps a value that is a whole number of seconds and drops the
    fraction of any other.
  */
  lemma UntouchedDateTime(value: Int64, toString: Int64 -> string, tryParse: string -> Option<Int64>)
    requires 0 <= value
    requires tryParse(toString(value)) == Some(value - value % TicksPerSecond)
    ensures DrawDateTime(value, toString(value), tryParse) == value - value % TicksPerSecond
    ensures DrawDateTime(value, toString(value), tryParse) == value <==> value % TicksPerSecond == 0
  {
  }
}
