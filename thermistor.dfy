/**
  The v2 extruder's thermistor channel: a ring of the most recent ADC samples, their
  average, and an O(1) lookup of that average in a calibration table kept in EEPROM
  whose entries sit at fixed intervals over the converter's range.

  The EEPROM is a byte sequence; `eeprom_read_word` reads a little-endian 16-bit word
  from it. The pin is left out: each `update` receives the sample the pin would return.
*/
module ThermistorSampler {
  import opened CNumeric
  import opened SampleMath

  /** Samples kept in the ring (compile-time constant). */
  const SAMPLE_COUNT: nat := 4
  /** Values the converter can produce: 0 .. ADC_RANGE - 1. */
  const ADC_RANGE: int := 1024
  /** Entries in the calibration table (compile-time constant). */
  const THERM_TABLE_SIZE: int := 20

  /** How the table's entries divide the converter's range. */
  datatype TableGeometry = TableGeometry(adcRange: int, tableSize: int)

  predicate ValidGeometry(g: TableGeometry)
  {
    g.tableSize >= 2 && g.adcRange >= g.tableSize - 1
  }

  const GEOMETRY: TableGeometry := TableGeometry(ADC_RANGE, THERM_TABLE_SIZE)

  /** The sum of the whole ring fits the 16-bit `cumulative` accumulator. */
  lemma RingSumFitsInt16(buffer: seq<AdcReading>)
    requires |buffer| == SAMPLE_COUNT
    ensures 0 <= Sum(buffer) <= INT16_MAX
  {
    AdcSumBound(buffer);
  }

  // ---------------------------------------------------------------------------
  // Bracket arithmetic

  /** `SLOT_WIDTH`: the table's nominal spacing, truncated. */
  function SlotWidth(g: TableGeometry): (w: int)
    requires ValidGeometry(g)
    ensures w >= 1
  {
    g.adcRange / (g.tableSize - 1)
  }

  /** `floor_table_index`: the entry at or below `avg`. */
  function FloorTableIndex(avg: int, g: TableGeometry): (k: int)
    requires ValidGeometry(g)
  {
    CDiv(avg * (g.tableSize - 1), g.adcRange)
  }

  /** `entry_floor`: the ADC value at which entry `k` sits. */
  function EntryFloor(k: int, g: TableGeometry): (e: int)
    requires ValidGeometry(g)
  {
    CDiv(k * g.adcRange, g.tableSize - 1)
  }

  /** The last line of `update`: interpolate between the bracket's two temperature words. */
  function Interpolate(avg: int, floor: int, ceiling: int, g: TableGeometry): (t: int)
    requires ValidGeometry(g)
  {
    var entryFloor := EntryFloor(FloorTableIndex(avg, g), g);
    floor + CDiv((avg - entryFloor) * (ceiling - floor), SlotWidth(g))
  }

  /** For an average inside the converter's range the bracket `[k, k + 1]` lies inside the table. */
  lemma BracketIndexInRange(avg: int, g: TableGeometry)
    requires ValidGeometry(g) && 0 <= avg < g.adcRange
    ensures 0 <= FloorTableIndex(avg, g) <= g.tableSize - 2
  {
    var n, range := g.tableSize - 1, g.adcRange;
    var x := avg * n;
    MulLeft(0, avg, n);
    MulLeft(avg, range - 1, n);
    CDivNonNegative(x, range);
    var k := x / range;
    DivBounds(x, range);
    // k * range <= x <= (range - 1) * n < n * range
    if k > n - 1 {
      MulLeft(n, k, range);
      assert false;
    }
  }

  /** The entry the bracket starts at lies at or below the average. */
  lemma EntryFloorBelowAverage(avg: int, g: TableGeometry)
    requires ValidGeometry(g) && 0 <= avg
    ensures EntryFloor(FloorTableIndex(avg, g), g) <= avg
  {
    var n, range := g.tableSize - 1, g.adcRange;
    var x := avg * n;
    MulLeft(0, avg, n);
    CDivNonNegative(x, range);
    var k := x / range;
    DivBounds(x, range);
    var y := k * range;
    MulLeft(0, k, range);
    CDivNonNegative(y, n);
    var e := y / n;
    DivBounds(y, n);
    // e * n <= k * range <= avg * n
    CancelFactor(e, avg, n);
  }

  /** At the start of its bracket the interpolation yields the bracket's floor temperature. */
  lemma InterpolationAtBracketStart(avg: int, floor: int, ceiling: int, g: TableGeometry)
    requires ValidGeometry(g) && avg == EntryFloor(FloorTableIndex(avg, g), g)
    ensures Interpolate(avg, floor, ceiling, g) == floor
  {
    var entryFloor := EntryFloor(FloorTableIndex(avg, g), g);
    assert (avg - entryFloor) * (ceiling - floor) == 0;
    CDivNonNegative(0, SlotWidth(g));
  }

  /** A truncated fraction `r / w` (with `0 <= r < w`) of a non-negative `delta` lies in `[0, delta]`. */
  lemma FractionBetweenNonNegative(r: int, w: int, delta: int)
    requires 0 <= r < w && 0 <= delta
    ensures 0 <= CDiv(r * delta, w) <= delta
  {
    var p := r * delta;
    MulLeft(0, r, delta);
    MulLeft(r, w, delta);
    CDivNonNegative(p, w);
    var q := p / w;
    DivBounds(p, w);
    // q * w <= p <= w * delta
    assert w * delta == delta * w;
    CancelFactor(q, delta, w);
  }

  /** ... and of any `delta`, between 0 and `delta`. */
  lemma FractionBetween(r: int, w: int, delta: int)
    requires 0 <= r < w
    ensures delta >= 0 ==> 0 <= CDiv(r * delta, w) <= delta
    ensures delta < 0 ==> delta <= CDiv(r * delta, w) <= 0
  {
    if delta >= 0 {
      FractionBetweenNonNegative(r, w, delta);
    } else {
      FractionBetweenNonNegative(r, w, -delta);
      assert r * -delta == -(r * delta);
      CDivNegate(r * delta, w);
    }
  }

  /** When the spacing divides the range exactly, the bracket of `avg` starts at the multiple of the slot width below it. */
  lemma ExactGeometryBracket(avg: int, g: TableGeometry)
    requires ValidGeometry(g) && 0 <= avg
    requires g.adcRange == SlotWidth(g) * (g.tableSize - 1)
    ensures FloorTableIndex(avg, g) == avg / SlotWidth(g)
    ensures EntryFloor(FloorTableIndex(avg, g), g) == (avg / SlotWidth(g)) * SlotWidth(g)
  {
    var n, w := g.tableSize - 1, SlotWidth(g);
    var k := avg / w;
    ExactFloorIndex(avg, n, w, k, avg % w);
    MulLeft(0, k, w * n);
    ExactEntryFloor(k, n, w);
  }

  /** With `range == w * n` and `avg == k * w + r`, `avg * n / range` is `k`. */
  lemma ExactFloorIndex(avg: int, n: int, w: int, k: int, r: int)
    requires n >= 1 && w >= 1 && 0 <= avg && avg == k * w + r && 0 <= r < w
    ensures CDiv(avg * n, w * n) == k
  {
    assert avg * n == k * (w * n) + r * n by {
      Distribute3(k, w, r, n);
    }
    MulLeft(0, r, n);
    MulLeft(r, w - 1, n);
    MulLeft(0, avg, n);
    MulLeft(1, w, n);
    CDivNonNegative(avg * n, w * n);
    DivUnique(avg * n, w * n, k, r * n);
  }

  /** With `range == w * n`, entry `k` sits at `k * w`. */
  lemma ExactEntryFloor(k: int, n: int, w: int)
    requires n >= 1 && w >= 1 && 0 <= k * (w * n)
    ensures CDiv(k * (w * n), n) == k * w
  {
    assert k * (w * n) == (k * w) * n;
    CDivNonNegative(k * (w * n), n);
    DivUnique(k * (w * n), n, k * w, 0);
  }

  lemma Distribute3(k: int, w: int, r: int, n: int)
    ensures (k * w + r) * n == k * (w * n) + r * n
  {
  }

  /**
    When the slot width divides the converter's range exactly, the interpolated temperature
    lies between the bracket's two temperatures, whichever way the table runs.
  */
  lemma InterpolationWithinBracket(avg: int, floor: int, ceiling: int, g: TableGeometry)
    requires ValidGeometry(g) && 0 <= avg
    requires g.adcRange == SlotWidth(g) * (g.tableSize - 1)
    ensures floor <= ceiling ==> floor <= Interpolate(avg, floor, ceiling, g) <= ceiling
    ensures ceiling <= floor ==> ceiling <= Interpolate(avg, floor, ceiling, g) <= floor
  {
    var w := SlotWidth(g);
    ExactGeometryBracket(avg, g);
    assert avg - (avg / w) * w == avg % w;
    FractionBetween(avg % w, w, ceiling - floor);
  }

  /** ... and at each breakpoint below the last it is exactly that breakpoint's temperature. */
  lemma InterpolationExactAtBreakpoints(k: int, floor: int, ceiling: int, g: TableGeometry)
    requires ValidGeometry(g) && 0 <= k
    requires g.adcRange == SlotWidth(g) * (g.tableSize - 1)
    ensures FloorTableIndex(k * SlotWidth(g), g) == k
    ensures Interpolate(k * SlotWidth(g), floor, ceiling, g) == floor
  {
    var w := SlotWidth(g);
    MulLeft(0, k, w);
    ExactGeometryBracket(k * w, g);
    DivUnique(k * w, w, k, 0);
    InterpolationAtBracketStart(k * w, floor, ceiling, g);
  }

  /**
    Without exact division the bracket bound fails: with 1024 converter values and 20 entries
    the slot width truncates to 53, but the slot starting at 53 is 54 wide, so at 107 a bracket
    running from 0 to 53 degrees yields 54.
  */
  lemma BracketBoundNeedsExactGeometry()
    ensures Interpolate(107, 0, 53, TableGeometry(1024, 20)) == 54
  {
    var g := TableGeometry(1024, 20);
    assert FloorTableIndex(107, g) == 1;
    assert EntryFloor(1, g) == 53;
    assert SlotWidth(g) == 53;
  }

  // ---------------------------------------------------------------------------
  // The calibration table in EEPROM

  /** `eeprom_read_word` stored into an `int16_t`: the little-endian word at `addr`, two's complement. */
  function ReadWord(eeprom: seq<Byte>, addr: int): (w: Int16)
    requires 0 <= addr && addr + 2 <= |eeprom|
  {
    var lo, hi: int := eeprom[addr], eeprom[addr + 1];
    var u := lo + 256 * hi;
    if u >= 0x8000 then u - TWO_16 else u
  }

  /** The little-endian image of a 16-bit word. */
  function WordBytes(w: Int16): (b: seq<Byte>)
    ensures |b| == 2
  {
    var u := w % TWO_16;
    [u % 256, u / 256]
  }

  lemma WordRoundTrip(w: Int16, prefix: seq<Byte>, suffix: seq<Byte>)
    ensures ReadWord(prefix + WordBytes(w) + suffix, |prefix|) == w
  {
    var image := prefix + WordBytes(w) + suffix;
    assert image[|prefix|] == WordBytes(w)[0] && image[|prefix| + 1] == WordBytes(w)[1];
  }

  /** One table entry as stored: the ADC word, then the temperature word. */
  datatype CalibrationEntry = CalibrationEntry(raw: Int16, celsius: Int16)

  /** The table's EEPROM image, four bytes per entry. */
  function EncodeTable(entries: seq<CalibrationEntry>): (image: seq<Byte>)
    ensures |image| == 4 * |entries|
  {
    if entries == [] then []
    else WordBytes(entries[0].raw) + WordBytes(entries[0].celsius) + EncodeTable(entries[1..])
  }

  /** The byte address of entry `k`'s temperature word. */
  function TempWordAddress(tableOffset: int, k: int): (addr: int)
  {
    tableOffset + 4 * k + 2
  }

  /** Entry `k` of a table stored at `|prefix|` has its ADC word at `+4k` and its temperature word at `+4k+2`. */
  lemma {:induction false} TableLayout(prefix: seq<Byte>, entries: seq<CalibrationEntry>, suffix: seq<Byte>, k: nat)
    requires k < |entries|
    ensures var image := prefix + EncodeTable(entries) + suffix;
      && ReadWord(image, |prefix| + 4 * k) == entries[k].raw
      && ReadWord(image, TempWordAddress(|prefix|, k)) == entries[k].celsius
    decreases k
  {
    var e := entries[0];
    var rest := EncodeTable(entries[1..]);
    var image := prefix + EncodeTable(entries) + suffix;
    if k == 0 {
      assert image == prefix + WordBytes(e.raw) + (WordBytes(e.celsius) + rest + suffix);
      WordRoundTrip(e.raw, prefix, WordBytes(e.celsius) + rest + suffix);
      assert image == (prefix + WordBytes(e.raw)) + WordBytes(e.celsius) + (rest + suffix);
      WordRoundTrip(e.celsius, prefix + WordBytes(e.raw), rest + suffix);
    } else {
      var longer := prefix + WordBytes(e.raw) + WordBytes(e.celsius);
      assert image == longer + EncodeTable(entries[1..]) + suffix;
      TableLayout(longer, entries[1..], suffix, k - 1);
    }
  }

  /** The table occupies `tableSize` four-byte entries of the EEPROM from `tableOffset` on. */
  predicate TableFits(eeprom: seq<Byte>, tableOffset: int, g: TableGeometry)
  {
    0 <= tableOffset && tableOffset + 4 * g.tableSize <= |eeprom|
  }

  /** The temperature `update` computes from the average `avg`. */
  function TableTemperature(avg: int, eeprom: seq<Byte>, tableOffset: int, g: TableGeometry): (t: int)
    requires ValidGeometry(g) && 0 <= avg < g.adcRange && TableFits(eeprom, tableOffset, g)
  {
    BracketIndexInRange(avg, g);
    var k := FloorTableIndex(avg, g);
    var floor := ReadWord(eeprom, TempWordAddress(tableOffset, k));
    var ceiling := ReadWord(eeprom, TempWordAddress(tableOffset, k + 1));
    Interpolate(avg, floor, ceiling, g)
  }

  /** Read through the layout: `update` interpolates between the temperatures of entries `k` and `k + 1`. */
  lemma TableTemperatureOfEntries(avg: int, prefix: seq<Byte>, entries: seq<CalibrationEntry>, suffix: seq<Byte>, g: TableGeometry)
    requires ValidGeometry(g) && 0 <= avg < g.adcRange && |entries| == g.tableSize
    ensures var eeprom := prefix + EncodeTable(entries) + suffix;
      var k := FloorTableIndex(avg, g);
      && TableFits(eeprom, |prefix|, g) && 0 <= k && k + 1 < |entries|
      && TableTemperature(avg, eeprom, |prefix|, g) == Interpolate(avg, entries[k].celsius, entries[k + 1].celsius, g)
  {
    BracketIndexInRange(avg, g);
    var k := FloorTableIndex(avg, g);
    TableLayout(prefix, entries, suffix, k);
    TableLayout(prefix, entries, suffix, k + 1);
  }

  /** The calibration temperatures never fall from one entry to a later one. */
  predicate RisingCelsius(entries: seq<CalibrationEntry>)
  {
    forall i, j :: 0 <= i <= j < |entries| ==> entries[i].celsius <= entries[j].celsius
  }

  /** Inside one bracket of evenly dividing slots, a rising bracket gives a result that rises with the average. */
  lemma InterpolationMonotoneInBracket(a1: int, a2: int, floor: int, ceiling: int, g: TableGeometry)
    requires ValidGeometry(g) && g.adcRange == SlotWidth(g) * (g.tableSize - 1)
    requires 0 <= a1 <= a2 && a1 / SlotWidth(g) == a2 / SlotWidth(g) && floor <= ceiling
    ensures Interpolate(a1, floor, ceiling, g) <= Interpolate(a2, floor, ceiling, g)
  {
    var w, delta := SlotWidth(g), ceiling - floor;
    ExactGeometryBracket(a1, g);
    ExactGeometryBracket(a2, g);
    var start := EntryFloor(FloorTableIndex(a1, g), g);
    assert start == EntryFloor(FloorTableIndex(a2, g), g);
    EntryFloorBelowAverage(a1, g);
    var r1, r2 := a1 - start, a2 - start;
    MulLeft(0, r1, delta);
    MulLeft(r1, r2, delta);
    DivMonotone(r1 * delta, r2 * delta, w);
    CDivNonNegative(r1 * delta, w);
    CDivNonNegative(r2 * delta, w);
    assert Interpolate(a1, floor, ceiling, g) == floor + CDiv(r1 * delta, w);
    assert Interpolate(a2, floor, ceiling, g) == floor + CDiv(r2 * delta, w);
  }

  /**
    With evenly dividing slots and a table whose temperatures rise with the entry index, the
    temperature `update` computes never falls as the averaged reading rises.
  */
  lemma InterpolationMonotone(a1: int, a2: int, prefix: seq<Byte>, entries: seq<CalibrationEntry>, suffix: seq<Byte>, g: TableGeometry)
    requires ValidGeometry(g) && g.adcRange == SlotWidth(g) * (g.tableSize - 1)
    requires |entries| == g.tableSize && RisingCelsius(entries)
    requires 0 <= a1 <= a2 < g.adcRange
    ensures var eeprom := prefix + EncodeTable(entries) + suffix;
      && TableFits(eeprom, |prefix|, g)
      && TableTemperature(a1, eeprom, |prefix|, g) <= TableTemperature(a2, eeprom, |prefix|, g)
  {
    TableTemperatureOfEntries(a1, prefix, entries, suffix, g);
    TableTemperatureOfEntries(a2, prefix, entries, suffix, g);
    var w := SlotWidth(g);
    ExactGeometryBracket(a1, g);
    ExactGeometryBracket(a2, g);
    DivMonotone(a1, a2, w);
    var k1, k2 := FloorTableIndex(a1, g), FloorTableIndex(a2, g);
    if k1 == k2 {
      InterpolationMonotoneInBracket(a1, a2, entries[k1].celsius, entries[k1 + 1].celsius, g);
    } else {
      InterpolationWithinBracket(a1, entries[k1].celsius, entries[k1 + 1].celsius, g);
      InterpolationWithinBracket(a2, entries[k2].celsius, entries[k2 + 1].celsius, g);
      assert entries[k1 + 1].celsius <= entries[k2].celsius;
    }
  }

  // ---------------------------------------------------------------------------
  // The ring of samples

  /** The ring after writing `xs` one by one from slot `next` on: the buffer and the next slot. */
  datatype Ring = Ring(buffer: seq<int>, next: int)

  function WriteAll(r: Ring, xs: seq<int>): (r': Ring)
    requires 0 <= r.next < |r.buffer|
    ensures |r'.buffer| == |r.buffer| && 0 <= r'.next < |r.buffer|
    decreases |xs|
  {
    if xs == [] then r
    else WriteAll(Ring(r.buffer[r.next := xs[0]], (r.next + 1) % |r.buffer|), xs[1..])
  }

  /** How many writes after the one at `next` slot `j` is reached, going round a ring of `n` slots. */
  function Offset(next: int, j: int, n: int): (d: int)
  {
    if j >= next then j - next else j - next + n
  }

  /**
    Writing up to `N` samples from slot `next` on puts the `d`-th of them into the slot `d`
    places further round, leaves the slots not reached unchanged, and advances the write
    index by the number of samples modulo `N`.
  */
  lemma {:induction false} WriteAllSlots(r: Ring, xs: seq<int>)
    requires 0 <= r.next < |r.buffer| && |xs| <= |r.buffer|
    ensures WriteAll(r, xs).next == (r.next + |xs|) % |r.buffer|
    ensures forall j :: 0 <= j < |r.buffer| && Offset(r.next, j, |r.buffer|) < |xs| ==>
      WriteAll(r, xs).buffer[j] == xs[Offset(r.next, j, |r.buffer|)]
    ensures forall j :: 0 <= j < |r.buffer| && |xs| <= Offset(r.next, j, |r.buffer|) ==>
      WriteAll(r, xs).buffer[j] == r.buffer[j]
    decreases |xs|
  {
    var n := |r.buffer|;
    ModSmall(r.next + |xs|, n);
    if xs != [] {
      ModSmall(r.next + 1, n);
      var step := Ring(r.buffer[r.next := xs[0]], (r.next + 1) % n);
      WriteAllSlots(step, xs[1..]);
      ModSmall(step.next + |xs| - 1, n);
      assert WriteAll(r, xs) == WriteAll(step, xs[1..]);
    }
  }

  /**
    Once `N` samples have been written, the write index is back where it started and the ring
    holds exactly those `N` samples: the oldest at the write index, each later one a slot further round.
  */
  lemma RingHoldsLastSamples(r: Ring, xs: seq<int>)
    requires 0 <= r.next < |r.buffer| && |xs| == |r.buffer|
    ensures WriteAll(r, xs).next == r.next
    ensures forall j :: 0 <= j < |xs| ==> 0 <= Offset(r.next, j, |xs|) < |xs| && WriteAll(r, xs).buffer[j] == xs[Offset(r.next, j, |xs|)]
  {
    WriteAllSlots(r, xs);
    ModSmall(r.next + |xs|, |xs|);
  }

  /** Writing `xs` and then `ys` is writing `xs + ys`: successive `update` calls compose. */
  lemma {:induction false} WriteAllAppend(r: Ring, xs: seq<int>, ys: seq<int>)
    requires 0 <= r.next < |r.buffer|
    ensures WriteAll(WriteAll(r, xs), ys) == WriteAll(r, xs + ys)
    decreases |xs|
  {
    if xs == [] {
      assert xs + ys == ys;
    } else {
      var step := Ring(r.buffer[r.next := xs[0]], (r.next + 1) % |r.buffer|);
      assert (xs + ys)[0] == xs[0] && (xs + ys)[1..] == xs[1..] + ys;
      WriteAllAppend(step, xs[1..], ys);
    }
  }

  /** A full ring written from any index holds the samples rotated, so it has their sum and their mean. */
  lemma RingMeanOfLastSamples(r: Ring, xs: seq<int>)
    requires 0 <= r.next < |r.buffer| && |xs| == |r.buffer|
    ensures Sum(WriteAll(r, xs).buffer) == Sum(xs)
    ensures Mean(WriteAll(r, xs).buffer) == Mean(xs)
  {
    var n, buffer := |xs|, WriteAll(r, xs).buffer;
    RingHoldsLastSamples(r, xs);
    var cut := n - r.next;
    assert buffer == xs[cut..] + xs[..cut] by {
      forall j | 0 <= j < n
        ensures buffer[j] == (xs[cut..] + xs[..cut])[j]
      {
        assert 0 <= Offset(r.next, j, n) < n;
      }
    }
    SumAppend(xs[cut..], xs[..cut]);
    SumAppend(xs[..cut], xs[cut..]);
    assert xs[..cut] + xs[cut..] == xs;
  }

  // ---------------------------------------------------------------------------
  // The channel

  class Thermistor {
    /** `table_offset_`: where the calibration table starts in EEPROM. */
    const tableOffset: int
    /** `sample_buffer_`. */
    const sampleBuffer: array<AdcReading>
    /** `next_sample_`: the slot the next sample goes into. */
    var nextSample: int
    /** `current_temp_`. */
    var currentTemp: int

    ghost predicate Valid()
      reads this
    {
      sampleBuffer.Length == SAMPLE_COUNT && 0 <= nextSample < SAMPLE_COUNT
    }

    ghost function RingState(): (r: Ring)
      reads this, sampleBuffer
    {
      Ring(sampleBuffer[..], nextSample)
    }

    /** The constructor: a zeroed ring written from slot 0. */
    constructor (tableOffset: int)
      ensures Valid() && fresh(sampleBuffer)
      ensures sampleBuffer[..] == seq(SAMPLE_COUNT, _ => 0) && nextSample == 0
      ensures this.tableOffset == tableOffset && currentTemp == 0
    {
      this.tableOffset := tableOffset;
      nextSample := 0;
      currentTemp := 0;
      var buffer := new AdcReading[SAMPLE_COUNT];
      for i := 0 to SAMPLE_COUNT
        invariant forall j :: 0 <= j < i ==> buffer[j] == 0
      {
        buffer[i] := 0;
      }
      sampleBuffer := buffer;
    }

    /**
      `update`: store the sample at the write index, advance the index, average the whole ring
      and look the average up in the table.
    */
    method Update(sample: AdcReading, eeprom: seq<Byte>)
      requires Valid() && TableFits(eeprom, tableOffset, GEOMETRY)
      modifies this`nextSample, this`currentTemp, sampleBuffer
      ensures Valid()
      ensures RingState() == WriteAll(old(RingState()), [sample])
      ensures sampleBuffer[..] == old(sampleBuffer[..])[old(nextSample) := sample]
      ensures nextSample == (old(nextSample) + 1) % SAMPLE_COUNT
      ensures currentTemp == TableTemperature(MeanReading(sampleBuffer[..]), eeprom, tableOffset, GEOMETRY)
    {
      sampleBuffer[nextSample] := sample;
      nextSample := (nextSample + 1) % SAMPLE_COUNT;

      var avg := Average();

      var floorTableIndex := (avg * (THERM_TABLE_SIZE - 1)) / ADC_RANGE;
      var ceilingTableIndex := floorTableIndex + 1;
      var entryFloor := (floorTableIndex * ADC_RANGE) / (THERM_TABLE_SIZE - 1);
      LookupArithmetic(avg);

      var floor := ReadWord(eeprom, tableOffset + (4 * floorTableIndex) + 2);
      var ceiling := ReadWord(eeprom, tableOffset + (4 * ceilingTableIndex) + 2);

      currentTemp := floor + CDiv((avg - entryFloor) * (ceiling - floor), SlotWidth(GEOMETRY));
    }

    /** The averaging loop of `update`: the truncated mean of the whole ring, summed in a 16-bit accumulator. */
    method Average() returns (avg: AdcReading)
      requires Valid()
      ensures avg == MeanReading(sampleBuffer[..])
    {
      var cumulative := 0;
      for i := 0 to SAMPLE_COUNT
        invariant cumulative == Sum(sampleBuffer[..i])
        invariant 0 <= cumulative <= i * ADC_MAX <= INT16_MAX
      {
        AdcSumBound(sampleBuffer[..i + 1]);
        SumPrefix(sampleBuffer[..], i);
        assert sampleBuffer[..][..i] == sampleBuffer[..i] && sampleBuffer[..][..i + 1] == sampleBuffer[..i + 1];
        cumulative := cumulative + sampleBuffer[i];
      }
      assert sampleBuffer[..SAMPLE_COUNT] == sampleBuffer[..];
      assert cumulative / SAMPLE_COUNT == MeanReading(sampleBuffer[..]);
      avg := cumulative / SAMPLE_COUNT;
    }
  }

  /**
    The bracket arithmetic of `update`, written with the firmware's constants, agrees with the
    table functions, stays inside the table, and keeps both products within a 16-bit `int`.
  */
  lemma LookupArithmetic(avg: AdcReading)
    ensures 0 <= avg * (THERM_TABLE_SIZE - 1) <= INT16_MAX
    ensures var k := (avg * (THERM_TABLE_SIZE - 1)) / ADC_RANGE;
      && k == FloorTableIndex(avg, GEOMETRY) && 0 <= k <= THERM_TABLE_SIZE - 2
      && 0 <= k * ADC_RANGE <= INT16_MAX
      && (k * ADC_RANGE) / (THERM_TABLE_SIZE - 1) == EntryFloor(k, GEOMETRY)
  {
    BracketIndexInRange(avg, GEOMETRY);
    MulLeft(0, avg, THERM_TABLE_SIZE - 1);
    MulLeft(avg, ADC_MAX, THERM_TABLE_SIZE - 1);
    CDivNonNegative(avg * (THERM_TABLE_SIZE - 1), ADC_RANGE);
    var k := (avg * (THERM_TABLE_SIZE - 1)) / ADC_RANGE;
    CDivNonNegative(k * ADC_RANGE, THERM_TABLE_SIZE - 1);
  }
}
