/**
 * One iteration of the monitor's main loop as a state machine. The state is
 * the previous CPU, network and clock snapshot, the time of the next ping
 * and the last ping result; each tick takes the fresh readings, the clock
 * value, the outcome the ping process would have if it were started now and
 * the random delay to the next ping, and returns what the iteration logs and
 * shows.
 */
module Monitor {
  import opened Wrappers
  import opened Readers
  import opened Presentation
  import opened Ping

  /** Degrees Fahrenheit from degrees Celsius. */
  function Fahrenheit(tempC: real): (f: real)
    ensures (f - 32.0) * 5.0 == tempC * 9.0
  {
    tempC * 9.0 / 5.0 + 32.0
  }

  /** Converting to Fahrenheit keeps the order of temperatures, strictly. */
  lemma FahrenheitIncreasing(c1: real, c2: real)
    requires c1 < c2
    ensures Fahrenheit(c1) < Fahrenheit(c2)
  {
  }

  /** A reading of 45000 millidegrees is 45 °C, shown as 113 °F. */
  lemma TemperatureExample()
    ensures Celsius(45000) == 45.0 && Fahrenheit(Celsius(45000)) == 113.0
  {
  }

  /**
   * CPU usage in percent over one interval: the share of the elapsed ticks
   * that were not idle, or 0 when no ticks elapsed. It is not clamped.
   */
  function CpuUsage(idleDelta: int, totalDelta: int): (usage: real)
    ensures totalDelta == 0 ==> usage == 0.0
    ensures totalDelta != 0 ==> usage * totalDelta as real == (totalDelta - idleDelta) as real * 100.0
  {
    if totalDelta != 0 then (1.0 - idleDelta as real / totalDelta as real) * 100.0 else 0.0
  }

  /** When idle time is a part of the elapsed time, the usage is a percentage. */
  lemma UsageIsPercentage(idleDelta: int, totalDelta: int)
    requires 0 <= idleDelta <= totalDelta && totalDelta > 0
    ensures 0.0 <= CpuUsage(idleDelta, totalDelta) <= 100.0
  {
    var u := CpuUsage(idleDelta, totalDelta);
    var t := totalDelta as real;
    assert u * t == (t - idleDelta as real) * 100.0;
    assert 0.0 <= (t - idleDelta as real) * 100.0 <= t * 100.0;
    assert (100.0 - u) * t == idleDelta as real * 100.0;
  }

  /** A busier interval never shows a lower usage: the usage falls as the idle share grows. */
  lemma UsageFallsWithIdle(i1: int, i2: int, totalDelta: int)
    requires i1 <= i2 && totalDelta > 0
    ensures CpuUsage(i2, totalDelta) <= CpuUsage(i1, totalDelta)
  {
    var t := totalDelta as real;
    var u1, u2 := CpuUsage(i1, totalDelta), CpuUsage(i2, totalDelta);
    assert (u1 - u2) * t == (i2 - i1) as real * 100.0;
    if u1 < u2 {
      assert (u1 - u2) * t < 0.0;
    }
  }

  /** 100 idle ticks out of 200 elapsed ticks is 50 percent usage. */
  lemma UsageExample()
    ensures CpuUsage(100, 200) == 50.0
  {
  }

  /** `max(current - previous, 0)`: a counter that went backwards counts as no traffic. */
  function CounterDelta(previous: int, current: int): (d: nat)
    ensures d >= current - previous
    ensures current >= previous ==> d == current - previous
    ensures current < previous ==> d == 0
  {
    if current - previous > 0 then current - previous else 0
  }

  /** Bytes per second over an interval, or 0 when no time elapsed. */
  function ByteRate(previous: int, current: int, elapsed: real): (rate: real)
    ensures rate >= 0.0
    ensures elapsed > 0.0 ==> rate * elapsed == CounterDelta(previous, current) as real
    ensures elapsed <= 0.0 ==> rate == 0.0
  {
    if elapsed > 0.0 then CounterDelta(previous, current) as real / elapsed else 0.0
  }

  /** A counter that went backwards (an interface reset) shows a rate of 0. */
  lemma CounterResetRate(previous: int, current: int, elapsed: real)
    requires current <= previous
    ensures ByteRate(previous, current, elapsed) == 0.0
  {
    if elapsed > 0.0 {
      assert ByteRate(previous, current, elapsed) * elapsed == 0.0;
    }
  }

  /** 102400 bytes received in one second are shown as 100.00 KB/s. */
  lemma DownloadRateExample(previous: int, unit: nat, scaled: real)
    requires IsScaling(Clamp(ByteRate(previous, previous + 102400, 1.0)), unit, scaled)
    ensures Units[unit] == "KB/s" && scaled == 100.0
  {
    assert ByteRate(previous, previous + 102400, 1.0) == 102400.0;
    assert IsScaling(102400.0, 1, 100.0);
    ScalingUnique(102400.0, unit, scaled, 1, 100.0);
  }

  /** 51200 bytes sent in one second are shown as 50.00 KB/s. */
  lemma UploadRateExample(previous: int, unit: nat, scaled: real)
    requires IsScaling(Clamp(ByteRate(previous, previous + 51200, 1.0)), unit, scaled)
    ensures Units[unit] == "KB/s" && scaled == 50.0
  {
    assert ByteRate(previous, previous + 51200, 1.0) == 51200.0;
    assert IsScaling(51200.0, 1, 50.0);
    ScalingUnique(51200.0, unit, scaled, 1, 50.0);
  }

  /** The ping line of the display and the log. */
  datatype PingStatus = PingError(message: string) | PingAverage(ms: real) | PingPending

  /**
   * The ping status shown: the error when there is a non-empty one (an empty
   * message is false in Python), otherwise the average when there is one,
   * otherwise pending.
   */
  function Status(avg: Option<real>, error: Option<string>): (s: PingStatus)
    ensures s.PingError? <==> error.Some? && error.value != []
    ensures s.PingAverage? <==> (error.None? || error.value == []) && avg.Some?
    ensures s.PingError? ==> s.message == error.value
    ensures s.PingAverage? ==> s.ms == avg.value
  {
    if error.Some? && error.value != [] then PingError(error.value)
    else if avg.Some? then PingAverage(avg.value)
    else PingPending
  }

  /**
   * What a ping outcome shows: an average as itself, an error message as
   * itself, except that an exception with empty text shows as pending.
   */
  lemma StatusOfOutcome(o: PingOutcome)
    ensures o.Average? ==> Status(AsPair(o).0, AsPair(o).1) == PingAverage(o.ms)
    ensures o.Failure? && o.message != [] ==> Status(AsPair(o).0, AsPair(o).1) == PingError(o.message)
    ensures o.Failure? && o.message == [] ==> Status(AsPair(o).0, AsPair(o).1) == PingPending
  {
  }

  /** Everything one iteration logs and shows. */
  datatype Report = Report(
    usage: real,
    tempC: real,
    tempF: real,
    rxRate: real,
    txRate: real,
    cpuColor: Color,
    tempColor: Color,
    upload: (nat, real),      // unit index and scaled value of the transmit rate
    download: (nat, real),    // unit index and scaled value of the receive rate
    ping: PingStatus)

  /** The bounds of the random delay between two pings, in seconds. */
  const MinPingDelay: real := 10.0
  const MaxPingDelay: real := 40.0

  /** The state carried from one iteration of the main loop to the next. */
  class Monitor {
    var prevIdle: int
    var prevTotal: int
    var prevRx: int
    var prevTx: int
    var prevTime: real
    var nextPingTime: real
    var lastPingAvg: Option<real>
    var lastPingError: Option<string>

    /** A ping result is never both an average and an error. */
    predicate Valid()
      reads this
    {
      !(lastPingAvg.Some? && lastPingError.Some?)
    }

    /**
     * The set-up before the loop: the first snapshot, no ping result yet,
     * and the first ping `delay` seconds after the start.
     */
    constructor(cpu: CpuTimes, net: NetBytes, start: real, delay: real)
      requires MinPingDelay <= delay <= MaxPingDelay
      ensures Valid()
      ensures prevIdle == cpu.idle && prevTotal == cpu.total
      ensures prevRx == net.rx && prevTx == net.tx && prevTime == start
      ensures nextPingTime == start + delay
      ensures lastPingAvg == None && lastPingError == None
    {
      prevIdle, prevTotal := cpu.idle, cpu.total;
      prevRx, prevTx := net.rx, net.tx;
      prevTime := start;
      nextPingTime := start + delay;
      lastPingAvg, lastPingError := None, None;
    }

    /**
     * One iteration at clock value `now`: usage and rates against the
     * previous snapshot, which the fresh readings replace; a ping (with
     * outcome `exec`) when it is due, after which the next one is `delay`
     * seconds away; and the colours, scaled rates and ping status shown.
     */
    method Tick(cpu: CpuTimes, tempC: real, net: NetBytes, now: real,
                exec: ProcessResult, parseFloat: string -> Option<real>, delay: real)
      returns (report: Report)
      requires Valid()
      requires MinPingDelay <= delay <= MaxPingDelay
      modifies this
      ensures Valid()
      ensures prevIdle == cpu.idle && prevTotal == cpu.total
      ensures prevRx == net.rx && prevTx == net.tx && prevTime == now
      ensures report.usage == CpuUsage(cpu.idle - old(prevIdle), cpu.total - old(prevTotal))
      ensures report.tempC == tempC && report.tempF == Fahrenheit(tempC)
      ensures report.rxRate == ByteRate(old(prevRx), net.rx, now - old(prevTime))
      ensures report.txRate == ByteRate(old(prevTx), net.tx, now - old(prevTime))
      ensures report.cpuColor == ColorForCpu(report.usage)
      ensures report.tempColor == ColorForTemp(tempC)
      ensures IsScaling(Clamp(report.txRate), report.upload.0, report.upload.1)
      ensures IsScaling(Clamp(report.rxRate), report.download.0, report.download.1)
      ensures now >= old(nextPingTime) ==>
        (lastPingAvg, lastPingError) == AsPair(Classify(exec, parseFloat))
        && nextPingTime == now + delay
        && now + MinPingDelay <= nextPingTime <= now + MaxPingDelay
      ensures now < old(nextPingTime) ==>
        lastPingAvg == old(lastPingAvg) && lastPingError == old(lastPingError)
        && nextPingTime == old(nextPingTime)
      ensures report.ping == Status(lastPingAvg, lastPingError)
    {
      var idleDelta := cpu.idle - prevIdle;
      var totalDelta := cpu.total - prevTotal;
      prevIdle, prevTotal := cpu.idle, cpu.total;
      var usage := CpuUsage(idleDelta, totalDelta);

      var tempF := Fahrenheit(tempC);

      var elapsed := now - prevTime;
      prevTime := now;
      var rxRate := ByteRate(prevRx, net.rx, elapsed);
      var txRate := ByteRate(prevTx, net.tx, elapsed);
      prevRx, prevTx := net.rx, net.tx;

      if now >= nextPingTime {
        lastPingAvg, lastPingError := RunPing(exec, parseFloat);
        nextPingTime := now + delay;
      }

      var upUnit, upScaled := ScaleRate(txRate);
      var downUnit, downScaled := ScaleRate(rxRate);
      report := Report(usage, tempC, tempF, rxRate, txRate, ColorForCpu(usage), ColorForTemp(tempC),
                       (upUnit, upScaled), (downUnit, downScaled), Status(lastPingAvg, lastPingError));
    }
  }
}
