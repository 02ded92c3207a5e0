/**
 * The presentation rules of the monitor: the colour bands for CPU usage and
 * temperature, and the unit selection that turns a byte rate into a value
 * between 0 and 1024 of B/s, KB/s, MB/s, GB/s or TB/s. The colours stand for
 * the ANSI escape codes the terminal receives; the `%7.2f` text layout of a
 * rate is left to the caller, which gets the unit and the scaled value.
 */
module Presentation {

  /** The display colours, from the plain terminal colour up to the most alarming one. */
  datatype Color = Reset | Yellow | Orange | Red | Purple

  /** How alarming a colour is: Reset < Yellow < Orange < Red < Purple. */
  function Rank(c: Color): nat
  {
    match c
    case Reset => 0
    case Yellow => 1
    case Orange => 2
    case Red => 3
    case Purple => 4
  }

  /**
   * `color_for_cpu`: each colour is shown for exactly one half-open band of
   * usage, with inclusive lower bounds at 30, 50, 70 and 90 percent.
   */
  function ColorForCpu(usage: real): (c: Color)
    ensures c == Purple <==> usage >= 90.0
    ensures c == Red <==> 70.0 <= usage < 90.0
    ensures c == Orange <==> 50.0 <= usage < 70.0
    ensures c == Yellow <==> 30.0 <= usage < 50.0
    ensures c == Reset <==> usage < 30.0
  {
    if usage >= 90.0 then Purple
    else if usage >= 70.0 then Red
    else if usage >= 50.0 then Orange
    else if usage >= 30.0 then Yellow
    else Reset
  }

  /** A higher usage is never shown in a less alarming colour. */
  lemma CpuColorMonotonic(u1: real, u2: real)
    requires u1 <= u2
    ensures Rank(ColorForCpu(u1)) <= Rank(ColorForCpu(u2))
  {
  }

  /**
   * `color_for_temp`: each colour is shown for exactly one half-open band of
   * degrees Celsius, with inclusive lower bounds at 60, 68 and 75; purple is
   * never used.
   */
  function ColorForTemp(tempC: real): (c: Color)
    ensures c != Purple
    ensures c == Red <==> tempC >= 75.0
    ensures c == Orange <==> 68.0 <= tempC < 75.0
    ensures c == Yellow <==> 60.0 <= tempC < 68.0
    ensures c == Reset <==> tempC < 60.0
  {
    if tempC >= 75.0 then Red
    else if tempC >= 68.0 then Orange
    else if tempC >= 60.0 then Yellow
    else Reset
  }

  /** A higher temperature is never shown in a less alarming colour. */
  lemma TempColorMonotonic(t1: real, t2: real)
    requires t1 <= t2
    ensures Rank(ColorForTemp(t1)) <= Rank(ColorForTemp(t2))
  {
  }

  // ================================================================ byte rates

  /** The unit names, each 1024 times the one before. */
  const Units: seq<string> := ["B/s", "KB/s", "MB/s", "GB/s", "TB/s"]

  /** Index of the largest unit, where scaling stops whatever the value. */
  const LastUnit: nat := 4

  /** 1024 to the power `k`: the number of bytes per second in one of unit `k`. */
  function Pow1024(k: nat): (p: real)
    ensures p >= 1.0
  {
    if k == 0 then 1.0 else 1024.0 * Pow1024(k - 1)
  }

  /** `max(rate, 0.0)`: a negative rate is shown as zero. */
  function Clamp(rate: real): (v: real)
    ensures v >= 0.0 && v >= rate
    ensures rate >= 0.0 ==> v == rate
    ensures rate < 0.0 ==> v == 0.0
  {
    if rate >= 0.0 then rate else 0.0
  }

  /**
   * `scaled` of unit `unit` stands for `value` bytes per second, and `unit`
   * is the one `format_bytes_per_sec` picks: the smallest unit in which the
   * value is below 1024, or the largest unit when there is none.
   */
  predicate IsScaling(value: real, unit: nat, scaled: real)
  {
    unit <= LastUnit
    && scaled * Pow1024(unit) == value
    && (unit < LastUnit ==> scaled < 1024.0)
    && (unit > 0 ==> scaled >= 1.0)
  }

  /**
   * The scaling loop of `format_bytes_per_sec`: start in B/s with the
   * clamped rate and divide by 1024 while the value is at least 1024 and a
   * larger unit remains.
   */
  method ScaleRate(rate: real) returns (unit: nat, scaled: real)
    ensures IsScaling(Clamp(rate), unit, scaled)
    ensures Clamp(rate) < 1024.0 ==> unit == 0 && scaled == Clamp(rate)
  {
    var value := Clamp(rate);
    unit, scaled := 0, value;
    while !(scaled < 1024.0 || unit == LastUnit)
      invariant unit <= LastUnit
      invariant scaled * Pow1024(unit) == value
      invariant unit > 0 ==> scaled >= 1.0
      decreases LastUnit - unit
    {
      scaled := scaled / 1024.0;
      unit := unit + 1;
    }
  }

  /** A larger unit is never smaller: `Pow1024` is monotonic. */
  lemma {:induction false} Pow1024Monotonic(a: nat, b: nat)
    requires a <= b
    ensures Pow1024(a) <= Pow1024(b)
    decreases b
  {
    if a < b {
      Pow1024Monotonic(a, b - 1);
    }
  }

  /** A scaling in unit `u` places the value between one of unit `u` and one of unit `u + 1`. */
  lemma ScalingBounds(value: real, u: nat, s: real)
    requires IsScaling(value, u, s)
    ensures u > 0 ==> Pow1024(u) <= value
    ensures u < LastUnit ==> value < Pow1024(u + 1)
  {
    var p := Pow1024(u);
    if u > 0 {
      assert s * p >= 1.0 * p;
    }
    if u < LastUnit {
      assert s * p < 1024.0 * p;
    }
  }

  /** There is only one way to scale a value: the unit and the scaled value are determined by it. */
  lemma ScalingUnique(value: real, u1: nat, s1: real, u2: nat, s2: real)
    requires IsScaling(value, u1, s1) && IsScaling(value, u2, s2)
    ensures u1 == u2 && s1 == s2
  {
    ScalingBounds(value, u1, s1);
    ScalingBounds(value, u2, s2);
    if u1 < u2 {
      Pow1024Monotonic(u1 + 1, u2);
      assert false;
    } else if u2 < u1 {
      Pow1024Monotonic(u2 + 1, u1);
      assert false;
    }
    var p := Pow1024(u1);
    assert (s1 - s2) * p == 0.0;
  }

  /** A rate of 500 bytes per second is shown as 500.00 B/s. */
  lemma ScaleFiveHundred(unit: nat, scaled: real)
    requires IsScaling(Clamp(500.0), unit, scaled)
    ensures Units[unit] == "B/s" && scaled == 500.0
  {
    assert IsScaling(500.0, 0, 500.0);
    ScalingUnique(500.0, unit, scaled, 0, 500.0);
  }

  /** A rate of 2048 bytes per second is shown as 2.00 KB/s. */
  lemma ScaleTwoKilobytes(unit: nat, scaled: real)
    requires IsScaling(Clamp(2048.0), unit, scaled)
    ensures Units[unit] == "KB/s" && scaled == 2.0
  {
    assert IsScaling(2048.0, 1, 2.0);
    ScalingUnique(2048.0, unit, scaled, 1, 2.0);
  }

  /** A rate of 1536 bytes per second is shown as 1.50 KB/s. */
  lemma ScaleOneAndAHalfKilobytes(unit: nat, scaled: real)
    requires IsScaling(Clamp(1536.0), unit, scaled)
    ensures Units[unit] == "KB/s" && scaled == 1.5
  {
    assert IsScaling(1536.0, 1, 1.5);
    ScalingUnique(1536.0, unit, scaled, 1, 1.5);
  }

  /** A negative rate is shown as 0.00 B/s. */
  lemma ScaleNegative(rate: real, unit: nat, scaled: real)
    requires rate < 0.0
    requires IsScaling(Clamp(rate), unit, scaled)
    ensures Units[unit] == "B/s" && scaled == 0.0
  {
    assert IsScaling(0.0, 0, 0.0);
    ScalingUnique(0.0, unit, scaled, 0, 0.0);
  }

  /** Rates of 1024^4 bytes per second and more all stay in TB/s, however large. */
  lemma ScaleHugeStaysTerabytes(value: real, unit: nat, scaled: real)
    requires value >= Pow1024(LastUnit)
    requires IsScaling(value, unit, scaled)
    ensures Units[unit] == "TB/s" && scaled >= 1.0
  {
    ScalingBounds(value, unit, scaled);
    if unit < LastUnit {
      Pow1024Monotonic(unit + 1, LastUnit);
      assert false;
    }
  }
}
