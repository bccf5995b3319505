/** Percentages, smoothed speed and remaining time. Quotients are exact; rounding is half to even. */
module SoftwareProgress {
  import opened Wrappers
  import opened SoftwareTasks

  function Max(a: int, b: int): int {
    if a >= b then a else b
  }

  /** The integer nearest to `num / den`; on a tie, the even one. */
  function RoundHalfEven(num: int, den: int): (r: int)
    requires den > 0
  {
    var q, rest := num / den, num % den;
    if 2 * rest < den || (2 * rest == den && q % 2 == 0) then q else q + 1
  }

  lemma RoundIsNearest(num: int, den: int)
    requires den > 0
    ensures var r := RoundHalfEven(num, den);
            && -den <= 2 * (r * den - num) <= den
            && (2 * (r * den - num) == den || 2 * (num - r * den) == den ==> r % 2 == 0)
  {
    assert num == (num / den) * den + num % den;
    assert (num / den + 1) * den == (num / den) * den + den;
  }

  lemma TimesIsMonotone(a: int, b: int, den: int)
    requires den > 0
    ensures a <= b <==> a * den <= b * den
  {
    if a <= b {
      assert (b - a) * den >= 0;
    } else {
      assert (a - b) * den > 0;
    }
  }

  lemma QuotientStaysBetween(num: int, den: int, low: int, high: int)
    requires den > 0 && low * den <= num <= high * den
    ensures low <= num / den <= high && (num / den == high ==> num % den == 0)
  {
    var q, rest := num / den, num % den;
    TimesIsMonotone(low, q, den);
    TimesIsMonotone(q, high, den);
    TimesIsMonotone(q + 1, low, den);
    assert num == q * den + rest && (q + 1) * den == q * den + den;
  }

  /** Rounding a quotient between two integers stays between them. */
  lemma RoundStaysBetween(num: int, den: int, low: int, high: int)
    requires den > 0 && low * den <= num <= high * den
    ensures low <= RoundHalfEven(num, den) <= high
  {
    QuotientStaysBetween(num, den, low, high);
  }

  function CeilDiv(num: int, den: int): int
    requires den > 0
  {
    if num % den == 0 then num / den else num / den + 1
  }

  // ----- percentages -----

  function MonotonicPercent(t: Task, percent: Option<int>): Option<int> {
    if t.percent == Some(100) && !t.Terminal() && percent.Some? && percent.value < 100 then percent
    else if t.percent.Some? && percent.Some? then Some(Max(t.percent.value, percent.value))
    else if percent.None? then t.percent
    else percent
  }

  /** A shown percentage never falls, except from a 100 shown before the end. */
  ghost predicate NeverFalls(t: Task, percent: Option<int>) {
    t.percent.Some? ==>
      percent.Some?
      && (percent.value >= t.percent.value || (t.percent.value == 100 && !t.Terminal()))
  }

  lemma MonotonicPercentNeverFalls(t: Task, percent: Option<int>)
    ensures NeverFalls(t, MonotonicPercent(t, percent))
    ensures PercentRange(t.percent) && PercentRange(percent) ==>
              PercentRange(MonotonicPercent(t, percent))
  {
  }

  /** The merged percentage is the higher of the two, and the reported one in place of a 100 that was shown
      before the end; a missing report changes nothing. */
  lemma MonotonicPercentIs(t: Task, percent: Option<int>)
    ensures percent.None? ==> MonotonicPercent(t, percent) == t.percent
    ensures t.percent.None? ==> MonotonicPercent(t, percent) == percent
    ensures t.percent.Some? && percent.Some? ==>
              var shown, told := t.percent.value, percent.value;
              var merged := MonotonicPercent(t, percent);
              if shown == 100 && told < 100 && !(t.state in {Completed, Failed, Canceled}) then merged == Some(told)
              else merged.Some? && merged.value >= shown && merged.value >= told && merged.value in {shown, told}
  {
  }

  // ----- download metrics -----

  function InstantSpeed(delta: int, elapsed: int): int
    requires elapsed > 0
  {
    Max(1, RoundHalfEven(delta * SECOND, elapsed))
  }

  function SmoothedSpeed(previous: Option<int>, instant: int): int {
    if previous.None? then instant else Max(1, RoundHalfEven(previous.value * 2 + instant, 3))
  }

  /** `x` is the integer nearest to `num / den`, or 1 if that is less than 1. */
  ghost predicate IsRounded(x: int, num: int, den: int) {
    exists r: int ::
      && -den <= 2 * (r * den - num) <= den && (2 * (r * den - num) in {den, -den} ==> r % 2 == 0)
      && x == if r < 1 then 1 else r
  }

  /** Speeds are whole numbers of bytes a second: the bytes of an interval over its time, and two parts of
      the old speed to one of the new. */
  lemma SpeedsAreRounded(previous: Option<int>, delta: int, elapsed: int, instant: int)
    requires elapsed > 0
    ensures IsRounded(InstantSpeed(delta, elapsed), delta * 1_000_000, elapsed)
    ensures match previous
            case None => SmoothedSpeed(previous, instant) == instant
            case Some(speed) => IsRounded(SmoothedSpeed(previous, instant), 2 * speed + instant, 3)
  {
    RoundIsNearest(delta * 1_000_000, elapsed);
    assert SECOND == 1_000_000;
    if previous.Some? {
      RoundIsNearest(previous.value * 2 + instant, 3);
    }
  }

  /** The smoothed speed lies between the previous speed and the instant one, and is at least 1. */
  lemma SmoothedSpeedIsBetween(previous: Option<int>, instant: int)
    requires instant >= 1 && (previous.Some? ==> previous.value >= 1)
    ensures SmoothedSpeed(previous, instant) >= 1
    ensures previous.Some? ==>
              previous.value <= SmoothedSpeed(previous, instant) <= instant
              || instant <= SmoothedSpeed(previous, instant) <= previous.value
  {
    if previous.Some? {
      var low, high := if previous.value <= instant then previous.value else instant,
                       Max(previous.value, instant);
      RoundStaysBetween(previous.value * 2 + instant, 3, low, high);
    }
  }

  function RemainingSeconds(remaining: int, speed: int): int
    requires speed > 0
  {
    Max(0, CeilDiv(Max(0, remaining), speed))
  }

  /** The estimate is the least number of whole seconds that covers the remaining bytes. */
  lemma RemainingSecondsIsLeast(remaining: int, speed: int, seconds: int)
    requires speed > 0 && seconds >= 0
    ensures RemainingSeconds(remaining, speed) >= 0
    ensures seconds * speed >= remaining <==> seconds >= RemainingSeconds(remaining, speed)
  {
    var need := Max(0, remaining);
    CeilDivBounds(need, speed);
    var r := CeilDiv(need, speed);
    TimesIsMonotone(r, seconds, speed);
    TimesIsMonotone(seconds, r - 1, speed);
    TimesIsMonotone(0, seconds, speed);
  }

  lemma CeilDivBounds(num: int, den: int)
    requires num >= 0 && den > 0
    ensures 0 <= CeilDiv(num, den)
    ensures (CeilDiv(num, den) - 1) * den < num <= CeilDiv(num, den) * den
  {
    assert num == (num / den) * den + num % den;
    assert (num / den + 1) * den == (num / den) * den + den;
    assert (num / den - 1) * den == (num / den) * den - den;
  }

  datatype Metrics = Metrics(downloaded: Option<int>, total: Option<int>, speed: Option<int>, eta: Option<int>)

  function DownloadMetrics(t: Task, p: Progress, now: int): Metrics {
    if p.state.NowCompleted? || !p.phase.Downloading? || p.downloaded.None? || p.total.None? then
      Metrics(p.downloaded, p.total, None, None)
    else
      var elapsed := now - t.updatedAt;
      var measured := t.downloaded.Some? && elapsed > 0 && p.downloaded.value > t.downloaded.value;
      var speed :=
        if measured then
          Some(SmoothedSpeed(t.speed, InstantSpeed(p.downloaded.value - t.downloaded.value, elapsed)))
        else t.speed;
      var eta :=
        if speed.Some? && speed.value > 0 then
          Some(RemainingSeconds(p.total.value - p.downloaded.value, speed.value))
        else None;
      Metrics(p.downloaded, p.total, speed, eta)
  }

  ghost predicate PositiveSpeed(speed: Option<int>) {
    speed.Some? ==> speed.value >= 1
  }

  lemma MetricsKeepSpeedPositive(t: Task, p: Progress, now: int)
    requires PositiveSpeed(t.speed)
    ensures PositiveSpeed(DownloadMetrics(t, p, now).speed)
  {
  }

  ghost predicate Between(x: int, a: int, b: int) {
    a <= x <= b || b <= x <= a
  }

  /** The shown speed changes only when bytes have arrived since the last look, and then lies between
      the old speed and the speed of that interval; the shown estimate is the least number of whole
      seconds in which the shown speed covers what remains. */
  lemma MetricsDescribeDownload(t: Task, p: Progress, now: int, seconds: nat)
    requires PositiveSpeed(t.speed)
    ensures var m := DownloadMetrics(t, p, now);
            && m.downloaded == p.downloaded && m.total == p.total
            && (m.eta.Some? ==>
                  && m.speed.Some? && p.downloaded.Some? && p.total.Some?
                  && (seconds * m.speed.value >= p.total.value - p.downloaded.value <==> seconds >= m.eta.value))
            && (m.speed.Some? && m.speed != t.speed ==>
                  && p.phase.Downloading? && t.downloaded.Some? && p.downloaded.Some?
                  && p.downloaded.value > t.downloaded.value && now > t.updatedAt
                  && var instant := InstantSpeed(p.downloaded.value - t.downloaded.value, now - t.updatedAt);
                     Between(m.speed.value, if t.speed.Some? then t.speed.value else instant, instant))
  {
    hide RemainingSeconds, SmoothedSpeed, InstantSpeed;
    var m := DownloadMetrics(t, p, now);
    if m.eta.Some? {
      RemainingSecondsIsLeast(p.total.value - p.downloaded.value, m.speed.value, seconds);
    }
    if m.speed.Some? && m.speed != t.speed {
      var delta, elapsed := p.downloaded.value - t.downloaded.value, now - t.updatedAt;
      SpeedIsPositive(delta, elapsed);
      SmoothedSpeedIsBetween(t.speed, InstantSpeed(delta, elapsed));
      FirstSpeed(InstantSpeed(delta, elapsed));
    }
  }

  /** Speed and remaining time are shown exactly while bytes are being downloaded and both numbers are
      known; the speed is taken anew exactly when more bytes and some time have come in. */
  lemma MetricsShown(t: Task, p: Progress, now: int)
    ensures var m := DownloadMetrics(t, p, now);
            && (m.eta.Some? <==>
                  && !p.state.NowCompleted? && p.phase.Downloading? && p.downloaded.Some? && p.total.Some?
                  && m.speed.Some? && m.speed.value >= 1)
            && if p.state.NowCompleted? || !p.phase.Downloading? || p.downloaded.None? || p.total.None? then
                 m.speed.None?
               else if t.downloaded.Some? && p.downloaded.value > t.downloaded.value && now > t.updatedAt then
                 m.speed == Some(SmoothedSpeed(t.speed, InstantSpeed(p.downloaded.value - t.downloaded.value,
                                                                    now - t.updatedAt)))
               else m.speed == t.speed
  {
  }

  lemma SpeedIsPositive(delta: int, elapsed: int)
    requires elapsed > 0
    ensures InstantSpeed(delta, elapsed) >= 1
  {
  }

  lemma FirstSpeed(instant: int)
    ensures SmoothedSpeed(None, instant) == instant
  {
  }
}
