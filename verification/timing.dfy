/** The time arithmetic of the multi-threaded services: the split of the
    elapsed milliseconds in the final statistics, `formatTime`, and the
    remaining-time estimate of the progress screen. Java's `long` division
    truncates toward zero; it is written out here. */
module Timing {
  import opened Strings

  /** Java's `/` on integers: the quotient truncated toward zero. */
  function JavaDiv(a: int, b: int): (q: int)
    requires b > 0
    ensures a >= 0 ==> 0 <= q && b * q <= a < b * q + b
    ensures a < 0 ==> q <= 0 && b * q - b < a <= b * q
  {
    if a >= 0 then a / b else -((-a) / b)
  }

  /** Java's `%` on integers: the remainder takes the sign of the dividend. */
  function JavaRem(a: int, b: int): (r: int)
    requires b > 0
    ensures b * JavaDiv(a, b) + r == a
    ensures a >= 0 ==> 0 <= r < b
    ensures a < 0 ==> -b < r <= 0
  {
    a - b * JavaDiv(a, b)
  }

  lemma JavaDivNeg(a: int, b: int)
    requires b > 0
    ensures JavaDiv(-a, b) == -JavaDiv(a, b)
    ensures JavaRem(-a, b) == -JavaRem(a, b)
  {
  }

  lemma MulAtLeast(d: int, t: int)
    requires d > 0
    ensures t >= 1 ==> d * t >= d
  {
    if t >= 1 {
      assert d * t == d + d * (t - 1);
    }
  }

  /** A quotient and remainder in range are the quotient and remainder. */
  lemma DivUnique(x: int, d: int, q: int, r: int)
    requires d > 0 && 0 <= r < d && x == d * q + r
    ensures x / d == q && x % d == r
  {
    var q0 := x / d;
    var r0 := x % d;
    assert x == d * q0 + r0;
    assert d * (q0 - q) == r - r0;
    assert d * (q - q0) == r0 - r;
    MulAtLeast(d, q0 - q);
    MulAtLeast(d, q - q0);
  }

  /** Dividing by `a` and then by `b` is dividing by `a * b`, and the
      remainders nest the same way. */
  lemma DivDiv(x: nat, a: nat, b: nat)
    requires a > 0 && b > 0
    ensures (x / a) / b == x / (a * b)
    ensures (x % (a * b)) % a == x % a
    ensures (x % (a * b)) / a == (x / a) % b
  {
    var q := x / a;
    var r := x % a;
    var q2 := q / b;
    var r2 := q % b;
    assert x == a * q + r;
    assert q == b * q2 + r2;
    assert a * q == (a * b) * q2 + a * r2;
    MulAtLeast(a, b - r2);
    assert a * (b - r2) == a * b - a * r2;
    DivUnique(x, a * b, q2, a * r2 + r);
    DivUnique(a * r2 + r, a, r2, r);
  }

  datatype Clock = Clock(hours: int, minutes: int, seconds: int)

  /** The split of the total time in `printStatistics`: whole hours, then
      minutes and seconds each taken modulo 60, all from the millisecond
      count. */
  function SplitElapsed(ms: int): (c: Clock)
    ensures ms >= 0 ==> 0 <= c.hours && 0 <= c.minutes < 60 && 0 <= c.seconds < 60
    ensures ms < 0 ==> c.hours <= 0 && -60 < c.minutes <= 0 && -60 < c.seconds <= 0
  {
    Clock(JavaDiv(ms, 1000 * 60 * 60), JavaRem(JavaDiv(ms, 1000 * 60), 60), JavaRem(JavaDiv(ms, 1000), 60))
  }

  /** For a non-negative duration the parts are a proper clock reading of
      the whole seconds: minutes and seconds below 60, and together they
      make up the elapsed seconds exactly. */
  lemma SplitElapsedExact(ms: int)
    requires ms >= 0
    ensures var c := SplitElapsed(ms);
            && 0 <= c.minutes < 60 && 0 <= c.seconds < 60 && 0 <= c.hours
            && c.hours * 3600 + c.minutes * 60 + c.seconds == ms / 1000
  {
    var t := ms / 1000;
    DivDiv(ms, 1000, 60);
    DivDiv(ms, 1000, 3600);
    DivDiv(t, 60, 60);
    var c := SplitElapsed(ms);
    assert c.hours == t / 3600;
    assert c.minutes == (t / 60) % 60;
    assert c.seconds == t % 60;
    assert t == 60 * (t / 60) + t % 60;
    assert t / 60 == 60 * ((t / 60) / 60) + (t / 60) % 60;
  }

  /** A negative duration (the clock stepped back) splits into the negated
      parts of its magnitude. */
  lemma SplitElapsedNegative(ms: int)
    requires ms < 0
    ensures SplitElapsed(ms) == var c := SplitElapsed(-ms); Clock(-c.hours, -c.minutes, -c.seconds)
  {
    JavaDivNeg(-ms, 1000 * 60 * 60);
    JavaDivNeg(-ms, 1000 * 60);
    JavaDivNeg(-ms, 1000);
    JavaDivNeg(JavaDiv(-ms, 1000 * 60), 60);
    JavaDivNeg(JavaDiv(-ms, 1000), 60);
  }

  const Unknown: string := "--:--"

  /** `formatTime`: `--:--` for a negative count; otherwise `H:MM:SS` when
      there is at least an hour, `M:SS` when there is not. */
  function FormatTime(seconds: int): (r: string)
    ensures seconds < 0 ==> r == Unknown
  {
    if seconds < 0 then Unknown
    else
      var h := seconds / 3600;
      var m := (seconds % 3600) / 60;
      var s := seconds % 60;
      if h > 0 then DecimalString(h) + ":" + Pad2(m) + ":" + Pad2(s)
      else DecimalString(m) + ":" + Pad2(s)
  }

  lemma DigitsHaveNoColon(s: string)
    requires AllDigits(s)
    ensures ':' !in s
  {
  }

  /** Reading a formatted time back: cut at the colons, the pieces are
      decimal numbers, the last one or two are two digits below 60, and
      together they give the number of seconds formatted. */
  lemma FormatTimeReadsBack(seconds: int)
    requires seconds >= 0
    ensures var p := Split(FormatTime(seconds), ':');
            && (seconds >= 3600 ==>
                  && |p| == 3 && AllDigits(p[0]) && AllDigits(p[1]) && AllDigits(p[2])
                  && |p[1]| == 2 && |p[2]| == 2
                  && DecimalValue(p[1]) < 60 && DecimalValue(p[2]) < 60
                  && DecimalValue(p[0]) * 3600 + DecimalValue(p[1]) * 60 + DecimalValue(p[2]) == seconds)
            && (seconds < 3600 ==>
                  && |p| == 2 && AllDigits(p[0]) && AllDigits(p[1])
                  && |p[1]| == 2 && DecimalValue(p[0]) < 60 && DecimalValue(p[1]) < 60
                  && DecimalValue(p[0]) * 60 + DecimalValue(p[1]) == seconds)
  {
    if seconds >= 3600 {
      HoursReadBack(seconds);
    } else {
      MinutesReadBack(seconds);
    }
  }

  /** The hours, minutes and seconds `formatTime` prints make up the count. */
  lemma ClockParts(seconds: nat)
    ensures var m := (seconds % 3600) / 60;
            && seconds == 3600 * (seconds / 3600) + 60 * m + seconds % 60
            && m < 60
  {
    assert seconds == 3600 * (seconds / 3600) + seconds % 3600;
    assert seconds % 3600 == 60 * ((seconds % 3600) / 60) + (seconds % 3600) % 60;
    DivDiv(seconds, 60, 60);
  }

  lemma SplitTwo(a: string, b: string)
    requires AllDigits(a) && AllDigits(b)
    ensures Split(a + ":" + b, ':') == [a, b]
  {
    DigitsHaveNoColon(a);
    DigitsHaveNoColon(b);
    SplitNoSeparator(b, ':');
    assert a + ":" + b == a + [':'] + b;
    SplitAppend(a, b, ':');
  }

  lemma SplitThree(a: string, b: string, c: string)
    requires AllDigits(a) && AllDigits(b) && AllDigits(c)
    ensures Split(a + ":" + b + ":" + c, ':') == [a, b, c]
  {
    DigitsHaveNoColon(a);
    SplitTwo(b, c);
    assert a + ":" + b + ":" + c == a + [':'] + (b + ":" + c);
    SplitAppend(a, b + ":" + c, ':');
  }

  lemma HoursReadBack(seconds: nat)
    requires seconds >= 3600
    ensures var p := Split(FormatTime(seconds), ':');
            && |p| == 3 && AllDigits(p[0]) && AllDigits(p[1]) && AllDigits(p[2])
            && |p[1]| == 2 && |p[2]| == 2
            && DecimalValue(p[1]) < 60 && DecimalValue(p[2]) < 60
            && DecimalValue(p[0]) * 3600 + DecimalValue(p[1]) * 60 + DecimalValue(p[2]) == seconds
  {
    var h := seconds / 3600;
    var m := (seconds % 3600) / 60;
    var s := seconds % 60;
    ClockParts(seconds);
    DecimalRoundTrip(h);
    assert FormatTime(seconds) == DecimalString(h) + ":" + Pad2(m) + ":" + Pad2(s);
    SplitThree(DecimalString(h), Pad2(m), Pad2(s));
  }

  lemma MinutesReadBack(seconds: nat)
    requires seconds < 3600
    ensures var p := Split(FormatTime(seconds), ':');
            && |p| == 2 && AllDigits(p[0]) && AllDigits(p[1])
            && |p[1]| == 2 && DecimalValue(p[0]) < 60 && DecimalValue(p[1]) < 60
            && DecimalValue(p[0]) * 60 + DecimalValue(p[1]) == seconds
  {
    var m := (seconds % 3600) / 60;
    var s := seconds % 60;
    ClockParts(seconds);
    DecimalRoundTrip(m);
    assert FormatTime(seconds) == DecimalString(m) + ":" + Pad2(s);
    SplitTwo(DecimalString(m), Pad2(s));
  }

  /** 65 seconds read `1:05`. */
  lemma FormatMinuteExample(r: string)
    requires r == "1:05"
    ensures FormatTime(65) == r
  {
    assert DecimalString(1) == "1";
    assert Pad2(5) == "05";
  }

  /** 3661 seconds read `1:01:01`. */
  lemma FormatHourExample(r: string)
    requires r == "1:01:01"
    ensures FormatTime(3661) == r
  {
    assert DecimalString(1) == "1";
    assert Pad2(1) == "01";
  }

  /** The remaining-time estimate of the progress screen: the elapsed time
      scaled up to all rows, minus the time already spent, never below zero;
      nothing is estimated before the first row completes. */
  function RemainingSeconds(elapsed: int, total: int, completed: int): (r: int)
    requires completed >= 0
    ensures r >= 0
  {
    var estimated := if completed > 0 then JavaDiv(elapsed * total, completed) else 0;
    if estimated - elapsed > 0 then estimated - elapsed else 0
  }

  /** Taking `c * e` off the dividend takes `e` off the quotient. */
  lemma DivShift(y: int, c: int, e: int)
    requires c > 0
    ensures (y - c * e) / c == y / c - e
  {
    var q := y / c;
    var r := y % c;
    assert y == c * q + r;
    assert y - c * e == c * (q - e) + r;
    DivUnique(y - c * e, c, q - e, r);
  }

  lemma DivNonPositive(y: int, c: int)
    requires c > 0 && y <= 0
    ensures y / c <= 0
  {
    assert y == c * (y / c) + y % c;
    MulAtLeast(c, y / c);
  }

  lemma MulNonNegative(a: nat, b: nat)
    ensures a * b >= 0
  {
  }

  lemma Distribute(e: int, t: int, c: int)
    ensures e * (t - c) == e * t - c * e
    ensures e * (t - c) == -(e * (c - t))
  {
  }

  /** Once a row has completed, the estimate is the share of the elapsed
      time that the rows still to go would take, when that is positive. */
  lemma RemainingStarted(elapsed: nat, total: nat, completed: nat)
    requires completed > 0
    ensures var left := (elapsed * (total - completed)) / completed;
            RemainingSeconds(elapsed, total, completed) == if left > 0 then left else 0
  {
    Distribute(elapsed, total, completed);
    DivShift(elapsed * total, completed, elapsed);
  }

  /** With a non-negative elapsed time, nothing remains before the first
      completion or once every row has completed. */
  lemma RemainingAtEnds(elapsed: nat, total: nat, completed: nat)
    ensures completed == 0 ==> RemainingSeconds(elapsed, total, completed) == 0
    ensures 0 < completed && completed >= total ==> RemainingSeconds(elapsed, total, completed) == 0
  {
    if 0 < completed && completed >= total {
      RemainingStarted(elapsed, total, completed);
      Distribute(elapsed, total, completed);
      MulNonNegative(elapsed, completed - total);
      DivNonPositive(elapsed * (total - completed), completed);
    }
  }

  /** Part way through, the estimate is the elapsed time per completed row
      times the rows still to go, rounded down as a whole. */
  lemma RemainingEstimate(elapsed: nat, total: nat, completed: nat)
    requires 0 < completed <= total
    ensures RemainingSeconds(elapsed, total, completed) == (elapsed * (total - completed)) / completed
  {
    RemainingStarted(elapsed, total, completed);
    MulNonNegative(elapsed, total - completed);
    DivNonNegative(elapsed * (total - completed), completed);
  }

  lemma DivNonNegative(y: int, c: int)
    requires c > 0 && y >= 0
    ensures y / c >= 0
  {
  }
}
