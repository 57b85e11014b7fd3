/**
  The extruder's heater controller: one heating zone's setpoint, its temperature
  sensing (a thermistor read through a calibration table, or a thermocouple scaled
  linearly) and its two control laws, bang-bang and PID.

  Hardware is outside the model: the analog reads of one sampling round are a parameter
  (`samples`), the clock value is a parameter (`time`) and the duty written to the output
  pin is returned. The PID gains are integers and the 1.1 and 0.95 scalings are integer
  truncations of 11/10 and 95/100.
*/
module HeaterControl {
  import opened CNumeric
  import opened SampleMath
  import opened Wrappers

  /** Analog samples averaged per measurement (build configuration). */
  const TEMPERATURE_SAMPLES: nat := 5
  /** Minimum milliseconds between two control updates (build configuration). */
  const TEMP_UPDATE_INTERVAL: int := 100
  /** Ceiling on the drive the integral term may contribute (build configuration). */
  const TEMP_PID_INTEGRAL_DRIVE_MAX: int := 110
  /** Default PID gains (build configuration), as integers. */
  const TEMP_PID_PGAIN: int := 5
  const TEMP_PID_IGAIN: int := 1
  const TEMP_PID_DGAIN: int := 10

  /** The bang-bang drive levels. */
  const HEATER_LOW: int := 64
  const HEATER_HIGH: int := 255

  /** Full-scale PWM duty. */
  const DUTY_MAX: int := 255

  /** The build-time choice between the two control laws. */
  datatype ControlLaw = PidControl | BangBangControl

  /** One row of the thermistor table: an ADC value and its temperature in Celsius. */
  datatype TempTableEntry = TempTableEntry(raw: int, celsius: int)

  /** The calibration table's rows come in strictly increasing ADC order. */
  predicate IncreasingRaw(t: seq<TempTableEntry>)
  {
    forall i :: 1 <= i < |t| ==> t[i - 1].raw < t[i].raw
  }

  // ---------------------------------------------------------------------------
  // Setpoint bookkeeping

  /** `max_temperature` for a target: `(int)(temp * 1.1)`, the 1.1 product truncated toward zero. */
  function MaxTemperatureFor(temp: int): (m: int)
    ensures temp >= 0 ==> 10 * m <= 11 * temp < 10 * m + 10
    ensures temp < 0 ==> 10 * m - 10 < 11 * temp <= 10 * m
  {
    CDiv(11 * temp, 10)
  }

  /** `hasReachedTargetTemperature`: the current temperature exceeds `(int)(target * 0.95)`. */
  function ReachedTarget(current: int, target: int): (r: bool)
    ensures target >= 0 ==> (r <==> 100 * current > 95 * target)
    ensures target < 0 ==> (r <==> 100 * (current - 1) >= 95 * target)
  {
    current > CDiv(95 * target, 100)
  }

  /** A zone sitting exactly at its target counts as there precisely when the target is positive. */
  lemma AtTargetReached(target: int)
    ensures ReachedTarget(target, target) <==> target > 0
  {
  }

  /** Warmer never un-reaches the target. */
  lemma ReachedTargetMonotone(c1: int, c2: int, target: int)
    requires c1 <= c2 && ReachedTarget(c1, target)
    ensures ReachedTarget(c2, target)
  {
  }

  /** For a non-negative target the ceiling lies at or above it. */
  lemma MaxAtLeastTarget(temp: int)
    requires temp >= 0
    ensures temp <= MaxTemperatureFor(temp)
    ensures temp >= 10 ==> temp < MaxTemperatureFor(temp)
  {
  }

  // ---------------------------------------------------------------------------
  // Sensing

  /** `read_thermistor`'s table scan from row `i` on: interpolate in the first bracket above `raw`. */
  function ThermistorScan(t: seq<TempTableEntry>, raw: int, i: nat): (c: int)
    requires IncreasingRaw(t) && 1 <= i
    decreases |t| - i
  {
    if i >= |t| then 0
    else if t[i].raw > raw then Min255(Interpolate(t[i - 1], t[i], raw))
    else ThermistorScan(t, raw, i + 1)
  }

  /** The linear interpolation of `raw` between two rows, with C's truncating division. */
  function Interpolate(lo: TempTableEntry, hi: TempTableEntry, raw: int): (c: int)
    requires lo.raw < hi.raw
  {
    lo.celsius + CDiv((raw - lo.raw) * (hi.celsius - lo.celsius), hi.raw - lo.raw)
  }

  function Min255(c: int): (r: int)
    ensures r <= 255 && (c <= 255 ==> r == c) && (c > 255 ==> r == 255)
  {
    if c > 255 then 255 else c
  }

  /** The temperature `read_thermistor` reports for an averaged reading `raw`. */
  function ThermistorCelsius(t: seq<TempTableEntry>, raw: int): (c: int)
    requires IncreasingRaw(t)
  {
    ThermistorScan(t, raw, 1)
  }

  /**
    The thermistor reading never exceeds 255; it is 0 when no row from index 1 on lies above
    `raw`; otherwise it interpolates in the bracket ending at the first row above `raw`.
  */
  lemma {:induction false} ThermistorCelsiusSpec(t: seq<TempTableEntry>, raw: int)
    requires IncreasingRaw(t)
    ensures ThermistorCelsius(t, raw) <= 255
    ensures (forall i :: 1 <= i < |t| ==> t[i].raw <= raw) ==> ThermistorCelsius(t, raw) == 0
    ensures forall i :: 1 <= i < |t| && t[i].raw > raw && (forall j :: 1 <= j < i ==> t[j].raw <= raw) ==>
      ThermistorCelsius(t, raw) == Min255(Interpolate(t[i - 1], t[i], raw))
  {
    forall k | 1 <= k
      ensures ThermistorScan(t, raw, k) <= 255
      ensures (forall i :: k <= i < |t| ==> t[i].raw <= raw) ==> ThermistorScan(t, raw, k) == 0
    {
      ScanFacts(t, raw, k);
    }
    forall i | 1 <= i < |t| && t[i].raw > raw && (forall j :: 1 <= j < i ==> t[j].raw <= raw)
      ensures ThermistorCelsius(t, raw) == Min255(Interpolate(t[i - 1], t[i], raw))
    {
      ScanFindsFirst(t, raw, 1, i);
    }
  }

  lemma {:induction false} ScanFacts(t: seq<TempTableEntry>, raw: int, k: nat)
    requires IncreasingRaw(t) && 1 <= k
    ensures ThermistorScan(t, raw, k) <= 255
    ensures (forall i :: k <= i < |t| ==> t[i].raw <= raw) ==> ThermistorScan(t, raw, k) == 0
    decreases |t| - k
  {
    if k < |t| && t[k].raw <= raw {
      ScanFacts(t, raw, k + 1);
    }
  }

  lemma {:induction false} ScanFindsFirst(t: seq<TempTableEntry>, raw: int, k: nat, i: nat)
    requires IncreasingRaw(t) && 1 <= k <= i < |t|
    requires t[i].raw > raw && forall j :: k <= j < i ==> t[j].raw <= raw
    ensures ThermistorScan(t, raw, k) == Min255(Interpolate(t[i - 1], t[i], raw))
    decreases i - k
  {
    if k < i {
      ScanFindsFirst(t, raw, k + 1, i);
    }
  }

  /** `read_thermocouple`: `(5.0 * raw * 100.0) / 1024.0` converted to `int`, exact for 10-bit raw values. */
  function ThermocoupleCelsius(raw: AdcReading): (c: int)
    ensures 0 <= c <= 499
    ensures 1024 * c <= 500 * raw < 1024 * c + 1024
  {
    (500 * raw) / 1024
  }

  /** The temperature `get_current_temperature` reports from one round of samples. */
  function MeasuredTemperature(usesThermocoupler: bool, samples: seq<AdcReading>, t: seq<TempTableEntry>): (c: int)
    requires |samples| > 0 && IncreasingRaw(t)
  {
    if usesThermocoupler then ThermocoupleCelsius(MeanReading(samples)) else ThermistorCelsius(t, Mean(samples))
  }

  // ---------------------------------------------------------------------------
  // Control laws

  /** Bang-bang `temp_update`: full drive below the target, sustain drive below the ceiling, else off. */
  function BangBangOutput(enabled: bool, current: int, target: int, maxTemp: int, high: int, low: int): (o: int)
    ensures !enabled ==> o == 0
    ensures enabled && current < target ==> o == high
    ensures enabled && target <= current < maxTemp ==> o == low
    ensures enabled && current >= target && current >= maxTemp ==> o == 0
  {
    if !enabled then 0
    else if current < target then high
    else if current < maxTemp then low
    else 0
  }

  /** With `high >= low >= 0` the bang-bang drive never rises as the zone warms, and stays in `[0, high]`. */
  lemma BangBangNonIncreasing(enabled: bool, c1: int, c2: int, target: int, maxTemp: int, high: int, low: int)
    requires high >= low >= 0 && c1 <= c2
    ensures BangBangOutput(enabled, c2, target, maxTemp, high, low) <= BangBangOutput(enabled, c1, target, maxTemp, high, low)
    ensures 0 <= BangBangOutput(enabled, c1, target, maxTemp, high, low) <= high
  {
  }

  datatype PidGains = PidGains(p: int, i: int, d: int)

  /** The integral accumulator and the previous temperature sample. */
  datatype PidState = PidState(iState: int, dState: int)

  /** The integral accumulator's clamp bounds. */
  datatype IntegralBounds = IntegralBounds(lo: int, hi: int)

  /** PID `temp_update` on values: the duty and the new controller state. */
  datatype PidUpdate = PidUpdate(output: int, state: PidState)

  function PidStep(enabled: bool, g: PidGains, b: IntegralBounds, target: int, current: int, st: PidState): (r: PidUpdate)
    ensures 0 <= r.output <= DUTY_MAX
    ensures !enabled ==> r.output == 0 && r.state == st
    ensures enabled ==> r.state.dState == current
    ensures enabled && b.lo <= b.hi ==> b.lo <= r.state.iState <= b.hi
    ensures enabled ==> r.state.iState == Constrain(st.iState + (target - current), b.lo, b.hi)
  {
    if enabled then
      var error := target - current;
      var pTerm := g.p * error;
      var iState := Constrain(st.iState + error, b.lo, b.hi);
      var iTerm := g.i * iState;
      var dTerm := g.d * (current - st.dState);
      PidUpdate(Constrain(pTerm + iTerm - dTerm, 0, DUTY_MAX), PidState(iState, current))
    else
      PidUpdate(0, st)
  }

  /** The accumulator never leaves its bounds, whatever sequence of temperatures the zone goes through. */
  lemma {:induction false} PidIntegralStaysBounded(g: PidGains, b: IntegralBounds, target: int, temps: seq<int>, st: PidState)
    requires b.lo <= st.iState <= b.hi
    ensures b.lo <= PidRun(g, b, target, temps, st).iState <= b.hi
    decreases |temps|
  {
    if temps != [] {
      PidIntegralStaysBounded(g, b, target, temps[1..], PidStep(true, g, b, target, temps[0], st).state);
    }
  }

  /** The controller state after enabled updates at the temperatures `temps`, in order. */
  function PidRun(g: PidGains, b: IntegralBounds, target: int, temps: seq<int>, st: PidState): (r: PidState)
    decreases |temps|
  {
    if temps == [] then st
    else PidRun(g, b, target, temps[1..], PidStep(true, g, b, target, temps[0], st).state)
  }

  /**
    `temp_pid_update_windup`: symmetric bounds `-DRIVE_MAX / iGain` and `DRIVE_MAX / iGain`,
    so the integral term `iGain * iState` stays within the drive ceiling.
  */
  function WindupBounds(driveMax: int, iGain: int): (b: IntegralBounds)
    requires iGain != 0
    ensures b.lo == -b.hi
    ensures iGain > 0 && driveMax >= 0 ==> 0 <= b.hi && b.hi * iGain <= driveMax < (b.hi + 1) * iGain
  {
    CDivNegate(driveMax, iGain);
    IntegralBounds(CDiv(-driveMax, iGain), CDiv(driveMax, iGain))
  }

  /** Within the windup bounds the integral term's contribution stays within the drive ceiling. */
  lemma IntegralTermBounded(driveMax: int, iGain: int, iState: int)
    requires iGain > 0 && driveMax >= 0
    requires WindupBounds(driveMax, iGain).lo <= iState <= WindupBounds(driveMax, iGain).hi
    ensures -driveMax <= iGain * iState <= driveMax
  {
    var h := WindupBounds(driveMax, iGain).hi;
    MulBetween(iGain, -h, iState, h);
    assert iGain * h == h * iGain;
  }

  lemma MulBetween(k: nat, lo: int, x: int, hi: int)
    requires lo <= x <= hi
    ensures k * lo <= k * x <= k * hi
  {
    assert k * x - k * lo == k * (x - lo);
    assert k * hi - k * x == k * (hi - x);
  }

  // ---------------------------------------------------------------------------
  // The heater

  class Heater {
    /** Which of the two build-time `temp_update` laws this zone runs. */
    const law: ControlLaw

    var usesThermocoupler: bool
    var inputPin: int
    var outputPin: int
    var tempControlEnabled: bool

    var currentTemperature: int
    var targetTemperature: int
    var maxTemperature: int
    var tempPrevTime: int

    var tempIState: int
    var tempDState: int
    var tempPGain: int
    var tempIGain: int
    var tempDGain: int
    var tempIStateMin: int
    var tempIStateMax: int

    /** The integral accumulator lies within its clamp bounds. */
    ghost predicate Valid()
      reads this
    {
      tempIStateMin <= tempIState <= tempIStateMax
    }

    ghost function Gains(): (g: PidGains)
      reads this
    {
      PidGains(tempPGain, tempIGain, tempDGain)
    }

    ghost function Bounds(): (b: IntegralBounds)
      reads this
    {
      IntegralBounds(tempIStateMin, tempIStateMax)
    }

    ghost function Pid(): (p: PidState)
      reads this
    {
      PidState(tempIState, tempDState)
    }

    /** `init`: bind the pins and the sensor kind, enable control, zero the temperatures, reset the PID. */
    constructor Init(inPin: int, outPin: int, isThermocoupler: bool, law: ControlLaw)
      ensures Valid()
      ensures this.law == law && usesThermocoupler == isThermocoupler
      ensures inputPin == inPin && outputPin == outPin && tempControlEnabled
      ensures currentTemperature == 0 && targetTemperature == 0 && maxTemperature == 0
      ensures Pid() == PidState(0, 0) && Gains() == PidGains(TEMP_PID_PGAIN, TEMP_PID_IGAIN, TEMP_PID_DGAIN)
      ensures Bounds() == WindupBounds(TEMP_PID_INTEGRAL_DRIVE_MAX, TEMP_PID_IGAIN)
      ensures tempPrevTime == 0
    {
      this.law := law;
      usesThermocoupler := isThermocoupler;
      inputPin := inPin;
      outputPin := outPin;
      tempControlEnabled := true;
      tempIState := 0;
      tempDState := 0;
      tempPGain := TEMP_PID_PGAIN;
      tempIGain := TEMP_PID_IGAIN;
      tempDGain := TEMP_PID_DGAIN;
      tempIStateMin, tempIStateMax := 0, 0;
      currentTemperature := 0;
      targetTemperature := 0;
      maxTemperature := 0;
      tempPrevTime := 0;
      new;
      TempPidUpdateWindup();
    }

    /** `temp_pid_update_windup`: recompute the accumulator's bounds from the integral gain. */
    method TempPidUpdateWindup()
      requires tempIGain != 0
      modifies this`tempIStateMin, this`tempIStateMax
      ensures Bounds() == WindupBounds(TEMP_PID_INTEGRAL_DRIVE_MAX, tempIGain)
    {
      tempIStateMin := CDiv(-TEMP_PID_INTEGRAL_DRIVE_MAX, tempIGain);
      tempIStateMax := CDiv(TEMP_PID_INTEGRAL_DRIVE_MAX, tempIGain);
    }

    /** `set_target_temperature`: store the target and its 110% ceiling. */
    method SetTargetTemperature(temp: int)
      modifies this`targetTemperature, this`maxTemperature
      ensures targetTemperature == temp && maxTemperature == MaxTemperatureFor(temp)
    {
      targetTemperature := temp;
      maxTemperature := CDiv(11 * temp, 10);
    }

    /** `hasReachedTargetTemperature`. */
    method HasReachedTargetTemperature() returns (r: bool)
      ensures r == ReachedTarget(currentTemperature, targetTemperature)
    {
      r := currentTemperature > CDiv(95 * targetTemperature, 100);
    }

    /** `sample_temperature`: the truncated mean of one round of analog samples. */
    method SampleTemperature(samples: seq<AdcReading>) returns (raw: int)
      requires |samples| == TEMPERATURE_SAMPLES
      ensures raw == Mean(samples)
      ensures Min(samples) <= raw <= Max(samples)
    {
      raw := 0;
      for i := 0 to TEMPERATURE_SAMPLES
        invariant raw == Sum(samples[..i])
        invariant 0 <= raw <= i * ADC_MAX <= INT16_MAX
      {
        AdcSumBound(samples[..i + 1]);
        SumPrefix(samples, i);
        raw := raw + samples[i];
      }
      assert samples[..TEMPERATURE_SAMPLES] == samples;
      raw := raw / TEMPERATURE_SAMPLES;
      MeanBetweenMinAndMax(samples);
    }

    /** `read_thermistor`: scan the table for the first row above the averaged reading. */
    method ReadThermistor(samples: seq<AdcReading>, temptable: seq<TempTableEntry>) returns (celsius: int)
      requires |samples| == TEMPERATURE_SAMPLES && IncreasingRaw(temptable)
      requires |temptable| < 256  // the scan's counter is a byte
      ensures celsius == ThermistorCelsius(temptable, Mean(samples))
    {
      var raw := SampleTemperature(samples);
      celsius := 0;
      var i := 1;
      while i < |temptable|
        invariant 1 <= i && (|temptable| >= 1 ==> i <= |temptable|)
        invariant ThermistorScan(temptable, raw, i) == ThermistorCelsius(temptable, raw)
        invariant celsius == 0
      {
        if temptable[i].raw > raw {
          celsius := temptable[i - 1].celsius +
            CDiv((raw - temptable[i - 1].raw) * (temptable[i].celsius - temptable[i - 1].celsius),
                 temptable[i].raw - temptable[i - 1].raw);
          if celsius > 255 {
            celsius := 255;
          }
          break;
        }
        i := i + 1;
      }
      if i >= |temptable| {
        celsius := 0;
      }
    }

    /** `read_thermocouple`. */
    method ReadThermocouple(samples: seq<AdcReading>) returns (celsius: int)
      requires |samples| == TEMPERATURE_SAMPLES
      ensures celsius == ThermocoupleCelsius(MeanReading(samples))
      ensures 0 <= celsius <= 499
    {
      var raw := SampleTemperature(samples);
      assert raw == MeanReading(samples);
      celsius := (500 * raw) / 1024;
    }

    /** `get_current_temperature`: read whichever sensor the zone has. */
    method GetCurrentTemperature(samples: seq<AdcReading>, temptable: seq<TempTableEntry>) returns (celsius: int)
      requires |samples| == TEMPERATURE_SAMPLES && IncreasingRaw(temptable) && |temptable| < 256
      ensures celsius == MeasuredTemperature(usesThermocoupler, samples, temptable)
    {
      if usesThermocoupler {
        celsius := ReadThermocouple(samples);
      } else {
        celsius := ReadThermistor(samples, temptable);
      }
    }

    /** Bang-bang `temp_update`. */
    method TempUpdateBangBang() returns (output: int)
      ensures output == BangBangOutput(tempControlEnabled, currentTemperature, targetTemperature,
                                       maxTemperature, HEATER_HIGH, HEATER_LOW)
    {
      if tempControlEnabled {
        if currentTemperature < targetTemperature {
          output := HEATER_HIGH;
        } else if currentTemperature < maxTemperature {
          output := HEATER_LOW;
        } else {
          output := 0;
        }
      } else {
        output := 0;
      }
    }

    /** PID `temp_update`: returns the clamped duty and advances the accumulator and the previous sample. */
    method TempUpdatePid() returns (output: int)
      requires Valid()
      modifies this`tempIState, this`tempDState
      ensures Valid()
      ensures PidUpdate(output, Pid()) ==
        PidStep(tempControlEnabled, Gains(), Bounds(), targetTemperature, currentTemperature, old(Pid()))
    {
      if tempControlEnabled {
        var error := targetTemperature - currentTemperature;
        var pTerm := tempPGain * error;
        tempIState := tempIState + error;
        tempIState := Constrain(tempIState, tempIStateMin, tempIStateMax);
        var iTerm := tempIGain * tempIState;
        var dTerm := tempDGain * (currentTemperature - tempDState);
        tempDState := currentTemperature;
        output := pTerm + iTerm - dTerm;
        output := Constrain(output, 0, DUTY_MAX);
      } else {
        output := 0;
      }
    }

    /**
      `manage_temperature`: always refresh the current temperature; when more than
      `TEMP_UPDATE_INTERVAL` has passed since the last update, run the control law and
      return the duty to write to the output pin.
    */
    method ManageTemperature(samples: seq<AdcReading>, temptable: seq<TempTableEntry>, time: int)
      returns (written: Option<int>)
      requires Valid()
      requires |samples| == TEMPERATURE_SAMPLES && IncreasingRaw(temptable) && |temptable| < 256
      modifies this`currentTemperature, this`tempPrevTime, this`tempIState, this`tempDState
      ensures Valid()
      ensures currentTemperature == MeasuredTemperature(usesThermocoupler, samples, temptable)
      ensures written.Some? <==> time - old(tempPrevTime) > TEMP_UPDATE_INTERVAL
      ensures written.None? ==> tempPrevTime == old(tempPrevTime) && Pid() == old(Pid())
      ensures written.Some? && law == BangBangControl ==>
        && tempPrevTime == time && Pid() == old(Pid())
        && written.value == BangBangOutput(tempControlEnabled, currentTemperature, targetTemperature,
                                           maxTemperature, HEATER_HIGH, HEATER_LOW)
      ensures written.Some? && law == PidControl ==>
        && tempPrevTime == time
        && PidUpdate(written.value, Pid()) ==
           PidStep(tempControlEnabled, Gains(), Bounds(), targetTemperature, currentTemperature, old(Pid()))
    {
      currentTemperature := GetCurrentTemperature(samples, temptable);
      var dt := time - tempPrevTime;
      written := None;
      if dt > TEMP_UPDATE_INTERVAL {
        tempPrevTime := time;
        var output;
        if law == PidControl {
          output := TempUpdatePid();
        } else {
          output := TempUpdateBangBang();
        }
        written := Some(output);
      }
    }
  }
}
