# RepRap Gen3 firmware core in Dafny

This project models three pieces of the RepRap Gen3 electronics firmware and proves properties of them.

- **The motherboard's command dispatcher** (`command_thread.dfy`, module `CommandThread`). A cooperative
  slice runs on every pass of the main loop. It does nothing while the thread is paused. A MOVING state
  returns to READY once the steppers have stopped, and a DELAY state once its timeout has elapsed. In
  READY, the slice starts the command at the head of the command buffer, but only when every byte of
  that command has arrived; a partial command waits. Multi-byte fields are little-endian `int32_t`
  values decoded by four pops.
- **The extruder's heater** (`heater.dfy`, module `HeaterControl`). It covers the setpoint with its
  110 % ceiling and the "reached" test at 95 %. It covers the averaged analog sample, the thermistor
  table scan and the linear thermocouple scale. It covers the two control laws, bang-bang and clamped
  PID with anti-windup bounds, and the rate-limited `manage_temperature` loop.
- **The v2 extruder's thermistor channel** (`thermistor.dfy`, module `ThermistorSampler`). A ring of
  the most recent samples is kept in an array. `update` writes the newest sample, averages the ring in
  a 16-bit accumulator, and looks the average up in a calibration table held in EEPROM. The lookup is
  O(1) because the table's entries sit at fixed intervals over the converter's range.

`numeric.dfy` holds the shared ground. Module `CNumeric` models C's truncating `/`, Arduino's
`constrain` and the fixed-width types. Module `Wrappers` holds `Option`. Module `SampleMath` holds
sums, truncated means, minima and maxima.

The model takes the source's own form. Objects whose fields the firmware updates are classes; their
methods carry `modifies` clauses and are proved against pure specification functions. Examples:
`Dispatcher.RunCommandSlice` against `Slice`, `Heater.TempUpdatePid` against `PidStep`, and
`Thermistor.Update` against `WriteAll` and `TableTemperature`. The properties are then lemmas about
those functions. The firmware's loops are `for`/`while` loops with invariants; see
`Heater.SampleTemperature`, `Heater.ReadThermistor` and `Thermistor.Average`.

## Hardware, collaborators and assumptions

These are parameters or results rather than calls:

- **Answers of the collaborators the dispatcher queries.** `steppers.isRunning()` and
  `delay_timeout.hasElapsed()` become the `running` and `elapsed` parameters.
- **Calls the dispatcher makes.** `isRunning`, `hasElapsed`, `setTarget`, `definePosition` and
  `start` are returned in order as a `seq<Call>`.
- **Heater inputs and outputs.** The analog reads of one sampling round are the `samples` parameter.
  `millis()` is the `time` parameter. The duty `analogWrite` would send is returned as
  `Some(duty)`, or `None` when no update is due.
- **Thermistor inputs.** The sample `pin_.getAnalogValue()` returns is a parameter of `Update`. The
  EEPROM is a byte sequence.

These constants and choices are assumptions:

- **Opcodes.** `Commands.hh` is not part of this model. The opcodes are assumed from the Gen3 host
  protocol: QUEUE_POINT_ABS = 129, SET_POSITION = 130, DELAY = 133.
- **Build configuration.** `Configuration.h`/`.hh` is not part of this model. The values are
  representative: TEMPERATURE_SAMPLES = 5, TEMP_UPDATE_INTERVAL = 100, TEMP_PID_INTEGRAL_DRIVE_MAX
  = 110, gains 5/1/10, SAMPLE_COUNT = 4, ADC_RANGE = 1024, THERM_TABLE_SIZE = 20.
- **Generality.** The lemmas about the control laws and the table geometry are stated for arbitrary
  gains, bounds and geometries wherever that matters.
- **Bang-bang drive levels.** These are `heater_low = 64` and `heater_high = 255`, from
  `ArduinoSlaveExtruder/Variables.cpp:16-17`.
- **The thermistor table of `read_thermistor`.** `ThermistorTable.h` is not part of this model.
  Its `temptable` is assumed to have strictly increasing raw values (`IncreasingRaw`). The
  `ReadThermistor`, `GetCurrentTemperature` and `ManageTemperature` methods of `Heater` require it.
- **Bracket bounds and the model's representative geometry.** The lemmas that keep the interpolation inside
  its bracket (`ExactGeometryBracket`, `InterpolationWithinBracket`,
  `InterpolationExactAtBreakpoints`, `InterpolationMonotone`) need the slot width to divide the
  converter's range exactly. The model's representative 1024/20 geometry (1024 values over 19
  slots) does not, so these lemmas do not apply to `Thermistor.Update` with those constants. `BracketBoundNeedsExactGeometry` shows a result
  of 54 in a bracket from 0 to 53 degrees.
- **Undeclared names in `Thermistor.cc`.** `update` refers to three names it never declares: `i`
  (line 11), `table_index` (line 27) and `table_offset` (lines 29-30). The model reads them as the
  evidently meant `next_sample_`, `floor_table_index` and `table_offset_`.
- **The thermistor table scan.** `read_thermistor` does not clamp to the first and last table
  temperatures. The model follows its code (`ThermistorCelsiusSpec`):
  - A reading below the first breakpoint extrapolates from the first bracket, capped at 255.
  - A reading at or above the last breakpoint yields 0.

## Model

| member | source | states |
|---|---|---|
| CNumeric.CDiv | v2/src/Extruder/Heater.cc:166-167 | C's `/`: the quotient's magnitude is the floor of the magnitudes' quotient and its sign is the XOR of the operands' signs (truncation toward zero) |
| CNumeric.DivMonotone | v2/src/Extruder/Thermistor.cc:24 | division by the table's positive divisor never falls as the dividend grows, so bracket indices rise with the average |
| CNumeric.CDivNegate | v2/src/Extruder/Heater.cc:166-167 | negating the dividend negates a truncating quotient, which is what makes the windup bounds symmetric |
| CNumeric.Constrain | v2/src/Extruder/Heater.cc:150 | `constrain` lies in `[lo, hi]` when `lo <= hi`, is `x` when `x` is already inside, is `lo` below the range and `hi` above it |
| SampleMath.MeanReading | v2/src/Extruder/Thermistor.cc:15-19 | the truncated mean of 10-bit readings is itself a 10-bit reading |
| SampleMath.Mean | v2/src/Extruder/Heater.cc:104 | `raw / TEMPERATURE_SAMPLES` and `cumulative / SAMPLE_COUNT`: the sum divided by the count, truncated; no contract of its own, pinned down by `MeanBetweenMinAndMax` and `MeanReading` |
| SampleMath.MeanBetweenMinAndMax | v2/src/Extruder/Heater.cc:95-108 | the truncated mean of non-negative samples lies between the smallest and the largest sample |
| SampleMath.AdcSumBound | v2/src/Extruder/Heater.cc:97-101 | readings of the 10-bit converter sum to at most 1023 per sample |
| CommandThread.UnsignedLE | v2/src/Motherboard/CommandThread.cc:19-32 | four bytes least significant first denote a value below 2^32 |
| CommandThread.Int32FromBytes | v2/src/Motherboard/CommandThread.cc:19-32 | `pop32`'s union: the result is congruent to the bytes' little-endian value modulo 2^32, and non-negative exactly when the top byte is below 128 |
| CommandThread.Int32RoundTrip | v2/src/Motherboard/CommandThread.cc:19-32 | decoding the little-endian image of any `int32_t` gives it back |
| CommandThread.Int32BytesRoundTrip | v2/src/Motherboard/CommandThread.cc:19-32 | every four-byte field is the image of the value it decodes to, so decoding loses nothing |
| CommandThread.ToUint32 | v2/src/Motherboard/CommandThread.cc:88 | the `int32_t` to `uint32_t` conversion keeps non-negative values and adds 2^32 to negative ones |
| CommandThread.Uint32OfField | v2/src/Motherboard/CommandThread.cc:88 | DELAY's microseconds are the unsigned value of its four bytes |
| CommandThread.CommandSize | v2/src/Motherboard/CommandThread.cc:64-90 | each known command is an opcode byte followed by whole 32-bit fields (5 to 17 bytes) |
| CommandThread.Dispatcher.constructor | v2/src/Motherboard/CommandThread.cc:9-39 | the thread starts unpaused, in READY, with an empty buffer |
| CommandThread.Dispatcher.PauseCommandThread | v2/src/Motherboard/CommandThread.cc:11-13 | sets the pause flag and nothing else |
| CommandThread.Dispatcher.IsCommandThreadPaused | v2/src/Motherboard/CommandThread.cc:15-17 | reports the pause flag and changes nothing |
| CommandThread.Dispatcher.Pop | v2/src/Motherboard/CommandThread.cc:27-30 | `command_buffer.pop()` returns the head byte and removes exactly it |
| CommandThread.Dispatcher.Pop32 | v2/src/Motherboard/CommandThread.cc:19-32 | `pop32` removes exactly four bytes and returns the `int32_t` they encode |
| CommandThread.Dispatcher.ResetCommands | v2/src/Motherboard/CommandThread.cc:43-46 | the buffer is emptied and the mode is READY whatever it was; the pause flag is untouched |
| CommandThread.Dispatcher.RunCommandSlice | v2/src/Motherboard/CommandThread.cc:49-94 | the new state and the collaborator calls are those of the slice function `Slice` applied to the old state |
| CommandThread.Dispatcher.DispatchCommand | v2/src/Motherboard/CommandThread.cc:60-93 | in READY, the new state and the calls are those `Dispatch` gives for the old queue |
| CommandThread.Dispatch | v2/src/Motherboard/CommandThread.cc:60-93 | step 3 of a slice in READY, branch by branch; no contract of its own, pinned down by `IncompleteCommandWaits`, `QueuePointAbsDispatch`, `SetPositionDispatch`, `DelayDispatch`, `UnknownOpcodeStalls` and `AtMostOneCommandPerSlice` |
| CommandThread.Slice | v2/src/Motherboard/CommandThread.cc:49-94 | `runCommandSlice` as a function of the state and the collaborators' answers; no contract of its own, pinned down by `PausedSliceIsNoOp`, `SliceKeepsPauseFlag`, `MovingCompletesWhenSteppersStop`, `DelayCompletesWhenTimeoutElapses`, `ReadySliceIgnoresAnswers` and `AtMostOneCommandPerSlice` |
| CommandThread.PausedSliceIsNoOp | v2/src/Motherboard/CommandThread.cc:50 | while paused a slice changes nothing and calls nobody |
| CommandThread.PausedSlicesAreNoOps | v2/src/Motherboard/CommandThread.cc:50 | any number of paused slices change nothing and call nobody, whatever the collaborators answer |
| CommandThread.SliceKeepsPauseFlag | v2/src/Motherboard/CommandThread.cc:49-94 | a slice never changes the pause flag and never enters WAIT_ON_TOOL; in WAIT_ON_TOOL, which nothing handles, it changes nothing and calls nobody |
| CommandThread.MovingCompletesWhenSteppersStop | v2/src/Motherboard/CommandThread.cc:51-53 | in MOVING the slice asks the steppers first; it stays MOVING, untouched, exactly while they run, and otherwise proceeds as a READY slice |
| CommandThread.DelayCompletesWhenTimeoutElapses | v2/src/Motherboard/CommandThread.cc:54-59 | in DELAY the slice asks the timeout first; it stays in DELAY exactly until it has elapsed, and then proceeds as a READY slice |
| CommandThread.ReadySliceIgnoresAnswers | v2/src/Motherboard/CommandThread.cc:51-60 | in READY no collaborator is queried, so the outcome does not depend on their answers |
| CommandThread.IncompleteCommandWaits | v2/src/Motherboard/CommandThread.cc:62-91 | a known command whose bytes have not all arrived is left in the buffer untouched and nothing is called |
| CommandThread.IncompleteCommandWaitsForever | v2/src/Motherboard/CommandThread.cc:62-91 | without new bytes, an incomplete command waits across any number of slices |
| CommandThread.UnknownOpcodeStalls | v2/src/Motherboard/CommandThread.cc:62-92 | an unknown opcode at the head is never popped: the thread stays READY with the same buffer forever |
| CommandThread.QueuePointAbsDispatch | v2/src/Motherboard/CommandThread.cc:64-74 | a complete QUEUE_POINT_ABS pops exactly 17 bytes, calls `setTarget` with the four decoded fields, and enters MOVING |
| CommandThread.SetPositionDispatch | v2/src/Motherboard/CommandThread.cc:75-83 | a complete SET_POSITION pops exactly 13 bytes, calls `definePosition` with the three decoded fields, and stays READY |
| CommandThread.DelayDispatch | v2/src/Motherboard/CommandThread.cc:84-90 | a complete DELAY pops exactly 5 bytes, starts the timeout with the unsigned field, and enters DELAY |
| CommandThread.AtMostOneCommandPerSlice | v2/src/Motherboard/CommandThread.cc:60-93 | a slice consumes either nothing or exactly the one complete command at the head, and starts at most one command |
| CommandThread.QueuePointAbsExample | v2/src/Motherboard/CommandThread.cc:64-74 | the host's 17-byte encoding of the move (100, 0, 0) at rate 500 yields exactly that `setTarget` and an empty buffer |
| HeaterControl.MaxTemperatureFor | v2/src/Extruder/Heater.cc:31 | the ceiling is 11/10 of the target truncated toward zero, for targets of either sign |
| HeaterControl.ReachedTarget | v2/src/Extruder/Heater.cc:36 | for a non-negative target, reached exactly when the current temperature exceeds 95 % of it; for a negative target, the truncated boundary |
| HeaterControl.AtTargetReached | v2/src/Extruder/Heater.cc:36 | a zone sitting exactly at its target counts as reached precisely when the target is positive |
| HeaterControl.ReachedTargetMonotone | v2/src/Extruder/Heater.cc:36 | a warmer zone never un-reaches its target |
| HeaterControl.MaxAtLeastTarget | v2/src/Extruder/Heater.cc:31 | for a non-negative target the ceiling is at least the target, and above it from 10 degrees on |
| HeaterControl.Min255 | v2/src/Extruder/Heater.cc:70-71 | the thermistor result is capped at 255 and otherwise unchanged |
| HeaterControl.Interpolate | v2/src/Extruder/Heater.cc:65-68 | the linear interpolation between two table rows with C's truncating division; no contract of its own, used by `ThermistorCelsiusSpec` |
| HeaterControl.ThermistorScan | v2/src/Extruder/Heater.cc:61-79 | the scan from row `i` on; no contract of its own, pinned down by `ThermistorCelsiusSpec` through `ScanFacts` and `ScanFindsFirst` |
| HeaterControl.ThermistorCelsius | v2/src/Extruder/Heater.cc:54-82 | the result of `read_thermistor` for an averaged reading; no contract of its own, pinned down by `ThermistorCelsiusSpec` |
| HeaterControl.ThermistorCelsiusSpec | v2/src/Extruder/Heater.cc:54-82 | the reading is at most 255; it is 0 when no row from index 1 on lies above the raw value; otherwise it interpolates in the bracket ending at the first row above it |
| HeaterControl.ThermocoupleCelsius | v2/src/Extruder/Heater.cc:87-90 | the thermocouple reading is the floor of 500 * raw / 1024, between 0 and 499 |
| HeaterControl.MeasuredTemperature | v2/src/Extruder/Heater.cc:43-49 | `get_current_temperature`: the thermocouple scale or the thermistor scan of the averaged round, by sensor kind; no contract of its own, the `GetCurrentTemperature` and `ManageTemperature` methods are proved against it |
| HeaterControl.BangBangOutput | v2/src/Extruder/Heater.cc:172-190 | disabled gives 0; below the target full drive; below the ceiling the sustain drive; otherwise 0 |
| HeaterControl.BangBangNonIncreasing | v2/src/Extruder/Heater.cc:172-190 | with high >= low >= 0, the drive never rises as the zone warms and stays in `[0, high]` |
| HeaterControl.PidStep | v2/src/Extruder/Heater.cc:138-162 | the duty lies in [0, 255]; disabled gives 0 and keeps the state; enabled records the current temperature and clamps the accumulated error to its bounds |
| HeaterControl.PidIntegralStaysBounded | v2/src/Extruder/Heater.cc:149-150 | the accumulator never leaves its bounds over any sequence of temperatures |
| HeaterControl.WindupBounds | v2/src/Extruder/Heater.cc:164-168 | the bounds are symmetric, and the upper one is the largest state whose integral term stays within the drive ceiling |
| HeaterControl.IntegralTermBounded | v2/src/Extruder/Heater.cc:151 | within the windup bounds the integral term lies within plus or minus the drive ceiling |
| HeaterControl.Heater.Init | v2/src/Extruder/Heater.cc:6-26 | binds pins and sensor kind, enables control, zeroes the temperatures and the PID state, sets the default gains, and then sets the windup bounds by calling `TempPidUpdateWindup` |
| HeaterControl.Heater.TempPidUpdateWindup | v2/src/Extruder/Heater.cc:164-168 | the accumulator's bounds become `WindupBounds` of the drive ceiling and the integral gain |
| HeaterControl.Heater.SetTargetTemperature | v2/src/Extruder/Heater.cc:28-32 | stores the target and its 110 % ceiling |
| HeaterControl.Heater.HasReachedTargetTemperature | v2/src/Extruder/Heater.cc:34-37 | answers `ReachedTarget` for the current and target temperatures |
| HeaterControl.Heater.SampleTemperature | v2/src/Extruder/Heater.cc:95-108 | the result is the truncated mean of the round's samples, between their minimum and maximum |
| HeaterControl.Heater.ReadThermistor | v2/src/Extruder/Heater.cc:54-82 | the table scan loop computes `ThermistorCelsius` of the averaged reading |
| HeaterControl.Heater.ReadThermocouple | v2/src/Extruder/Heater.cc:87-90 | the result is the thermocouple scale of the averaged reading, between 0 and 499 |
| HeaterControl.Heater.GetCurrentTemperature | v2/src/Extruder/Heater.cc:43-49 | reads the sensor the zone has |
| HeaterControl.Heater.TempUpdateBangBang | v2/src/Extruder/Heater.cc:172-190 | the duty is `BangBangOutput` of the zone's state with the drive levels 255 and 64 |
| HeaterControl.Heater.TempUpdatePid | v2/src/Extruder/Heater.cc:138-162 | the duty and the new accumulator and previous sample are `PidStep` of the old state; the bounds invariant is kept |
| HeaterControl.Heater.ManageTemperature | v2/src/Extruder/Heater.cc:116-134 | always refreshes the current temperature; updates exactly when more than the interval has passed, then records the time and writes the chosen law's duty; otherwise the controller state is untouched |
| ThermistorSampler.RingSumFitsInt16 | v2/src/Extruder/Thermistor.cc:15-18 | the sum of a full ring of 10-bit samples fits the `int16_t` accumulator |
| ThermistorSampler.SlotWidth | v2/src/Extruder/Thermistor.cc:22 | the slot width is at least 1, so the final division is defined |
| ThermistorSampler.FloorTableIndex | v2/src/Extruder/Thermistor.cc:24 | `floor_table_index`; no contract of its own, pinned down by `BracketIndexInRange`, `ExactGeometryBracket` and `LookupArithmetic` |
| ThermistorSampler.EntryFloor | v2/src/Extruder/Thermistor.cc:27 | `entry_floor`; no contract of its own, pinned down by `EntryFloorBelowAverage`, `ExactGeometryBracket` and `LookupArithmetic` |
| ThermistorSampler.Interpolate | v2/src/Extruder/Thermistor.cc:32-33 | the final interpolation of `update`; no contract of its own, pinned down by `InterpolationAtBracketStart`, `InterpolationWithinBracket`, `InterpolationMonotoneInBracket` and `BracketBoundNeedsExactGeometry` |
| ThermistorSampler.BracketIndexInRange | v2/src/Extruder/Thermistor.cc:24-25 | for any average in the converter's range the bracket `[k, k + 1]` lies inside the table |
| ThermistorSampler.EntryFloorBelowAverage | v2/src/Extruder/Thermistor.cc:27 | the bracket's start lies at or below the average, so the interpolation offset is non-negative |
| ThermistorSampler.InterpolationAtBracketStart | v2/src/Extruder/Thermistor.cc:32-33 | at the start of its bracket the result is the bracket's lower temperature |
| ThermistorSampler.ExactGeometryBracket | v2/src/Extruder/Thermistor.cc:21-27 | when the slot width divides the range, the bracket of an average starts at the multiple of the slot width below it |
| ThermistorSampler.InterpolationWithinBracket | v2/src/Extruder/Thermistor.cc:21-33 | with evenly dividing slots, the result lies between the bracket's two temperatures, whichever way the table runs |
| ThermistorSampler.InterpolationExactAtBreakpoints | v2/src/Extruder/Thermistor.cc:21-33 | with evenly dividing slots, at each breakpoint the result is exactly that entry's temperature |
| ThermistorSampler.InterpolationMonotoneInBracket | v2/src/Extruder/Thermistor.cc:21-33 | with evenly dividing slots, inside one rising bracket a larger average never gives a lower temperature |
| ThermistorSampler.InterpolationMonotone | v2/src/Extruder/Thermistor.cc:21-33 | with evenly dividing slots and temperatures that rise along the table, the lookup of a larger average is never lower, across brackets too |
| ThermistorSampler.BracketBoundNeedsExactGeometry | v2/src/Extruder/Thermistor.cc:21-33 | with 1024 converter values and 20 entries the slots do not divide evenly, and the result can leave its bracket (54 in a 0 to 53 bracket) |
| ThermistorSampler.WordRoundTrip | v2/src/Extruder/Thermistor.cc:29-30 | `eeprom_read_word` into an `int16_t` reads back the little-endian word stored there |
| ThermistorSampler.TableLayout | v2/src/Extruder/Thermistor.cc:29-30 | entry `k` of a stored table has its converter word at offset 4k and its temperature word at 4k + 2 |
| ThermistorSampler.ReadWord | v2/src/Extruder/Thermistor.cc:29-30 | `eeprom_read_word` stored into an `int16_t`; no contract of its own, pinned down by `WordRoundTrip` and `TableLayout` |
| ThermistorSampler.TempWordAddress | v2/src/Extruder/Thermistor.cc:29-30 | the address `table_offset_ + 4k + 2`; no contract of its own, `TableLayout` proves it is where entry `k`'s temperature word is stored |
| ThermistorSampler.TableTemperature | v2/src/Extruder/Thermistor.cc:21-33 | the temperature `update` computes from the average; no contract of its own, pinned down by `TableTemperatureOfEntries` and `InterpolationMonotone` |
| ThermistorSampler.TableTemperatureOfEntries | v2/src/Extruder/Thermistor.cc:24-33 | read through the layout, the lookup interpolates between the temperatures of entries `k` and `k + 1` of the bracket |
| ThermistorSampler.WriteAll | v2/src/Extruder/Thermistor.cc:11-12 | writing samples keeps the ring's size and the write index inside it |
| ThermistorSampler.WriteAllSlots | v2/src/Extruder/Thermistor.cc:11-12 | after up to N writes, the d-th written sample sits d slots round from the old index, the other slots are unchanged, and the index has advanced modulo N |
| ThermistorSampler.WriteAllAppend | v2/src/Extruder/Thermistor.cc:11-12 | successive writes compose: writing `xs` then `ys` is writing `xs + ys` |
| ThermistorSampler.RingHoldsLastSamples | v2/src/Extruder/Thermistor.cc:11-12 | after N writes the index is back where it started and the ring holds exactly those N samples, oldest at the index |
| ThermistorSampler.RingMeanOfLastSamples | v2/src/Extruder/Thermistor.cc:11-19 | after N writes the ring's sum and mean are those of the last N samples, whatever the starting index |
| ThermistorSampler.Thermistor.constructor | v2/src/Extruder/Thermistor.cc:4-8 | the ring starts zeroed, the write index at 0, the table offset stored |
| ThermistorSampler.Thermistor.Update | v2/src/Extruder/Thermistor.cc:10-34 | the sample goes into the write index's slot and nothing else in the ring changes; the index advances modulo N; the temperature is the table lookup of the ring's mean |
| ThermistorSampler.Thermistor.Average | v2/src/Extruder/Thermistor.cc:14-19 | the averaging loop yields the truncated mean of the whole ring without overflowing 16 bits |
| ThermistorSampler.LookupArithmetic | v2/src/Extruder/Thermistor.cc:24-27 | the firmware's constant-folded bracket arithmetic agrees with the table functions, stays inside the table, and both products `avg * (THERM_TABLE_SIZE - 1)` and `k * ADC_RANGE` fit a 16-bit `int` |

## Left out

- Hardware I/O is left out: the pins, `analogRead`, `analogWrite`, `millis`, `pin_.setDirection` and
  the EEPROM driver. Values read from hardware are parameters and values written are results.
- The stepper driver, `Timeout` and `CommandQueue` internals are not part of this model. Their
  answers are parameters, and the queue is a byte sequence.
- The dispatcher never enters WAIT_ON_TOOL in the source, so the model never does either; the state
  is declared and preserved.
- The C++ globals `command_thread_paused` and `mode` are fields of one `Dispatcher` object.
- Build-time `#if TEMP_PID` selection is the `law` constant of each `Heater`.
  `Init` sets the PID state, gains and windup bounds whatever the `law` is, whereas `init` does so
  only under `#if TEMP_PID`; a bang-bang heater therefore carries PID fields it never uses.
- HeaterControl.PidStep: the source's `pTerm`, `iTerm` and `dTerm` are floats converted to `int` at
  the sum. The model's representative gains 5/1/10 are integers, and for integer gains the
  truncation is exact. Fractional gains are not modelled.
- HeaterControl.MaxTemperatureFor and HeaterControl.ReachedTarget: the float products `temp * 1.1`
  and `target * 0.95` are taken as the exact decimal fractions 11/10 and 95/100. Binary
  floating-point rounding at the truncation boundary is not modelled.
- HeaterControl.Heater.ManageTemperature: `millis()` rollover is ignored, as the source says it does.
  The truncation of `time - temp_prev_time` to a 16-bit `int` is not modelled.
- The unused `dt` argument of `temp_update` is dropped.
- HeaterControl.Heater.Init: `temp_prev_time` is not set by `init`, so the model starts it at 0, the
  value of a zero-initialised global `Heater`.
- ThermistorSampler.Thermistor.constructor: `Thermistor.cc` never sets `current_temp_` in the
  constructor, so the model starts it at 0, the value of a zero-initialised global object.
  What `current_temp_` holds before the first `update` is not modelled beyond that.
- HeaterControl.Heater.ReadThermistor is modelled without `int` overflow in the interpolation
  product. It requires fewer than 256 table rows because its loop counter is a `byte`.
- ThermistorSampler.Thermistor.Update is modelled without 16-bit overflow in the interpolation
  product `(avg - entry_floor) * (ceiling - floor)`. The bracket index products are proved to fit 16 bits (`LookupArithmetic`).
- `int` and `int16_t` overflow in the temperature arithmetic of both files is not modelled. The
  values are unbounded integers, apart from the 16-bit accumulator that is proved to be enough.
