/**
  The monitor's shared state and the three things that change it: the
  pump actuator, one tick of the moisture loop and one tick of the climate
  loop, together with finite runs of the two loops.
 */
module PlantMonitor {
  import opened Wrappers
  import opened Moisture
  import opened View

  /** A digital line value: 0 is off, 1 is on. */
  type Level = x: int | 0 <= x <= 1

  /** How many times a sequence of line writes switched the pump on. */
  function OnCount(writes: seq<Level>): nat {
    if writes == [] then 0
    else OnCount(writes[..|writes| - 1]) + writes[|writes| - 1]
  }

  lemma {:induction false} OnCountAppend(a: seq<Level>, b: seq<Level>)
    ensures OnCount(a + b) == OnCount(a) + OnCount(b)
    decreases |b|
  {
    if b == [] {
      assert a + b == a;
    } else {
      var ab := a + b;
      assert ab[..|ab| - 1] == a + b[..|b| - 1];
      OnCountAppend(a, b[..|b| - 1]);
    }
  }

  /** One watering cycle, on then off, switches the pump on exactly once. */
  lemma OnCountPulse(writes: seq<Level>)
    ensures OnCount(writes + [1, 0]) == OnCount(writes) + 1
  {
    OnCountAppend(writes, [1, 0]);
    assert [1, 0][..1] == [1] && [1][..0] == [];
  }

  /** The writes of k watering cycles: k times on, then off. */
  function Pulses(k: nat): (writes: seq<Level>)
    ensures |writes| == 2 * k
  {
    seq(2 * k, i => if i % 2 == 0 then 1 else 0)
  }

  /** k watering cycles switch the line on exactly k times. */
  lemma {:induction false} OnCountPulses(k: nat)
    ensures OnCount(Pulses(k)) == k
  {
    if k > 0 {
      OnCountPulses(k - 1);
      PulsesAdd(k - 1, 1);
      assert Pulses(1) == [1, 0];
      OnCountPulse(Pulses(k - 1));
    }
  }

  /** Two runs of cycles, one after the other, are one run of cycles. */
  lemma PulsesAdd(a: nat, b: nat)
    ensures Pulses(a) + Pulses(b) == Pulses(a + b)
  {
    var l, r, ab := Pulses(a), Pulses(b), Pulses(a + b);
    forall j | 0 <= j < |ab| ensures (l + r)[j] == ab[j] {
      if j >= 2 * a {
        assert (j - 2 * a) % 2 == j % 2;
      }
    }
  }

  /** A log of a cycles followed by b more cycles is a log of a + b cycles. */
  lemma PulsesJoin(base: seq<Level>, mid: seq<Level>, last: seq<Level>, a: nat, b: nat, total: nat)
    requires mid == base + Pulses(a)
    requires last == mid + Pulses(b)
    requires total == a + b
    ensures last == base + Pulses(total)
  {
    PulsesAdd(a, b);
    ConcatAssoc(base, Pulses(a), Pulses(b));
  }

  /** What a run of moisture ticks has done so far, stated on the values of
      the fields before (m0, w0, k0) and after (m, w, k): the history has
      grown by the readings' percentages and, when the line was off, the
      watering count by the thirsty readings and the log by as many cycles. */
  ghost predicate Progress(done: seq<Tick>, off: bool, m0: seq<real>, w0: seq<Level>, k0: nat,
                           m: seq<real>, w: seq<Level>, k: nat)
  {
    && m == m0 + Percents(Readings(done))
    && k == k0 + (if off then ThirstyCount(Readings(done)) else 0)
    && w == w0 + Pulses(k - k0)
  }

  /** One more tick, handled as `ProcessFrame` handles it, extends the
      progress of a run by that tick. */
  lemma ProgressStep(ticks: seq<Tick>, i: nat, off: bool,
                     m0: seq<real>, w0: seq<Level>, k0: nat,
                     m1: seq<real>, w1: seq<Level>, k1: nat,
                     m2: seq<real>, w2: seq<Level>, k2: nat)
    requires i < |ticks|
    requires Progress(ticks[..i], off, m0, w0, k0, m1, w1, k1)
    requires m2 == m1 + Sample(Classify(ticks[i]))
    requires k2 == k1 + (if off then Thirst(Classify(ticks[i])) else 0)
    requires w2 == w1 + Pulses(k2 - k1)
    ensures Progress(ticks[..i + 1], off, m0, w0, k0, m2, w2, k2)
  {
    StreamStep(ticks, i);
    ConcatAssoc(m0, Percents(Readings(ticks[..i])), Sample(Classify(ticks[i])));
    PulsesJoin(w0, w1, w2, k1 - k0, k2 - k1, k2 - k0);
  }

  /** What a call of the DHT22 driver returns: humidity and temperature,
      either of which may be missing. */
  datatype DhtReading = DhtReading(humidity: Option<real>, temperature: Option<real>)

  /** `humidity is not None and temperature is not None`. */
  predicate Succeeded(r: DhtReading) {
    r.humidity.Some? && r.temperature.Some?
  }

  /** The temperatures that a run of sensor reads appends, in order. */
  function Temperatures(samples: seq<DhtReading>): (ts: seq<real>)
    ensures |ts| <= |samples|
  {
    if samples == [] then []
    else
      var last := samples[|samples| - 1];
      Temperatures(samples[..|samples| - 1]) + (if Succeeded(last) then [last.temperature.value] else [])
  }

  /** The humidities that a run of sensor reads appends, in order. */
  function Humidities(samples: seq<DhtReading>): (hs: seq<real>)
    ensures |hs| <= |samples|
  {
    if samples == [] then []
    else
      var last := samples[|samples| - 1];
      Humidities(samples[..|samples| - 1]) + (if Succeeded(last) then [last.humidity.value] else [])
  }

  /** Both histories grow together: one entry each per successful read. */
  lemma {:induction false} ClimateInStep(samples: seq<DhtReading>)
    ensures |Temperatures(samples)| == |Humidities(samples)|
  {
    if samples != [] {
      ClimateInStep(samples[..|samples| - 1]);
    }
  }

  /** What one tick of the moisture loop asks of the rest of the program. */
  datatype Events = Events(pumpRequested: bool, refreshRequested: bool)

  class Monitor {
    /** The value the pump line reads back (`pump_line.get_value()`). */
    var line: Level
    /** Every value this program has written to the pump line, in order. */
    var lineWrites: seq<Level>
    /** Completed watering cycles. */
    var waterings: nat
    /** The three per-plant histories of the single plant. */
    var moisture: seq<real>
    var temperature: seq<real>
    var humidity: seq<real>

    ghost predicate Valid()
      reads this
    {
      && lineWrites != [] && lineWrites[0] == 0
      && waterings == OnCount(lineWrites)
      && |temperature| == |humidity|
    }

    /** Start-up: the line is requested, driven low, and all histories are empty. */
    constructor ()
      ensures Valid()
      ensures line == 0 && lineWrites == [0] && waterings == 0
      ensures moisture == [] && temperature == [] && humidity == []
    {
      line := 0;
      lineWrites := [0];
      waterings := 0;
      moisture := [];
      temperature := [];
      humidity := [];
      assert [0][..0] == [];
    }

    /** `pump_line.set_value(v)`. This is only a step inside `WaterPump`:
        on its own, a write of 1 breaks `Valid`, which counts a watering
        only for a completed on/off cycle. */
    method SetLine(v: Level)
      modifies this
      ensures line == v && lineWrites == old(lineWrites) + [v]
      ensures waterings == old(waterings)
      ensures moisture == old(moisture) && temperature == old(temperature) && humidity == old(humidity)
    {
      line := v;
      lineWrites := lineWrites + [v];
    }

    /** `water_pump`: if the line reads off, one full on/off cycle and one
        watering more; otherwise nothing at all changes. */
    method WaterPump() returns (watered: bool)
      requires Valid()
      modifies this
      ensures Valid()
      ensures watered <==> old(line) == 0
      ensures watered ==> line == 0 && lineWrites == old(lineWrites) + [1, 0] && waterings == old(waterings) + 1
      ensures !watered ==> line == old(line) && lineWrites == old(lineWrites) && waterings == old(waterings)
      ensures moisture == old(moisture) && temperature == old(temperature) && humidity == old(humidity)
    {
      if line == 0 {
        SetLine(1);
        // The pump runs for `duration` seconds here; time is not modelled.
        SetLine(0);
        waterings := waterings + 1;
        assert lineWrites == old(lineWrites) + [1, 0];
        OnCountPulse(old(lineWrites));
        watered := true;
      } else {
        watered := false;
      }
    }

    /** One tick of `read_from_arduino`, given as whether bytes were
        waiting and the decoded line. A reading is appended as a
        percentage, waters the plant when the code is under the threshold
        and asks for a refresh; any other frame changes nothing. */
    method ProcessFrame(t: Tick) returns (ev: Events)
      requires Valid()
      modifies this
      ensures Valid()
      ensures var f := Classify(t);
        && (ev.refreshRequested <==> f.Reading?)
        && (ev.pumpRequested <==> f.Reading? && f.raw < MoistureThreshold)
        && moisture == old(moisture) + Sample(f)
      ensures temperature == old(temperature) && humidity == old(humidity)
      ensures line == old(line)
      ensures var watered := ev.pumpRequested && old(line) == 0;
        && waterings == old(waterings) + (if watered then 1 else 0)
        && lineWrites == old(lineWrites) + (if watered then [1, 0] else [])
      // The same count and writes, in the terms of a run of ticks.
      ensures waterings == old(waterings) + (if old(line) == 0 then Thirst(Classify(t)) else 0)
      ensures lineWrites == old(lineWrites) + Pulses(waterings - old(waterings))
    {
      ev := Events(false, false);
      match Classify(t) {
        case Reading(raw) =>
          moisture := moisture + [Percent(raw)];
          if raw < MoistureThreshold {
            var _ := WaterPump();
            ev := ev.(pumpRequested := true);
          }
          ev := ev.(refreshRequested := true);
        case _ =>
      }
    }

    /** One tick of `read_from_dht22`: a read with both values appends to
        both histories, any other read to neither. */
    method ClimateStep(reading: DhtReading) returns (ok: bool)
      requires Valid()
      modifies this
      ensures Valid()
      ensures ok <==> Succeeded(reading)
      ensures temperature == old(temperature) + (if ok then [reading.temperature.value] else [])
      ensures humidity == old(humidity) + (if ok then [reading.humidity.value] else [])
      ensures moisture == old(moisture)
      ensures line == old(line) && lineWrites == old(lineWrites) && waterings == old(waterings)
    {
      ok := Succeeded(reading);
      if ok {
        temperature := temperature + [reading.temperature.value];
        humidity := humidity + [reading.humidity.value];
      }
    }

    /** One pass of the moisture loop within a run of ticks: the progress
        of the run so far extends by tick i. */
    method MoistureTick(ticks: seq<Tick>, i: nat, ghost off: bool,
                        ghost m0: seq<real>, ghost w0: seq<Level>, ghost k0: nat)
      requires Valid()
      requires i < |ticks|
      requires off <==> line == 0
      requires Progress(ticks[..i], off, m0, w0, k0, moisture, lineWrites, waterings)
      modifies this
      ensures Valid()
      ensures temperature == old(temperature) && humidity == old(humidity)
      ensures line == old(line)
      ensures Progress(ticks[..i + 1], off, m0, w0, k0, moisture, lineWrites, waterings)
    {
      ghost var m1, w1, k1 := moisture, lineWrites, waterings;
      var _ := ProcessFrame(ticks[i]);
      ProgressStep(ticks, i, off, m0, w0, k0, m1, w1, k1, moisture, lineWrites, waterings);
    }

    /** The moisture loop over a finite run of ticks. */
    method RunMoistureLoop(ticks: seq<Tick>)
      requires Valid()
      modifies this
      ensures Valid()
      ensures moisture == old(moisture) + Percents(Readings(ticks))
      ensures temperature == old(temperature) && humidity == old(humidity)
      ensures line == old(line)
      ensures waterings == old(waterings) + (if old(line) == 0 then ThirstyCount(Readings(ticks)) else 0)
      ensures lineWrites == old(lineWrites) + Pulses(if old(line) == 0 then ThirstyCount(Readings(ticks)) else 0)
    {
      var i := 0;
      assert ticks[..0] == [];
      while i < |ticks|
        invariant 0 <= i <= |ticks|
        invariant Valid()
        invariant temperature == old(temperature) && humidity == old(humidity)
        invariant line == old(line)
        invariant Progress(ticks[..i], old(line) == 0, old(moisture), old(lineWrites), old(waterings),
                           moisture, lineWrites, waterings)
      {
        MoistureTick(ticks, i, old(line) == 0, old(moisture), old(lineWrites), old(waterings));
        i := i + 1;
      }
      assert ticks[..i] == ticks;
    }

    /** The climate loop over a finite run of sensor reads. */
    method RunClimateLoop(samples: seq<DhtReading>) returns (failures: nat)
      requires Valid()
      modifies this
      ensures Valid()
      ensures temperature == old(temperature) + Temperatures(samples)
      ensures humidity == old(humidity) + Humidities(samples)
      ensures failures == |samples| - |Temperatures(samples)|
      ensures moisture == old(moisture)
      ensures line == old(line) && lineWrites == old(lineWrites) && waterings == old(waterings)
    {
      failures := 0;
      var i := 0;
      while i < |samples|
        invariant 0 <= i <= |samples|
        invariant Valid()
        invariant temperature == old(temperature) + Temperatures(samples[..i])
        invariant humidity == old(humidity) + Humidities(samples[..i])
        invariant failures + |Temperatures(samples[..i])| == i
        invariant moisture == old(moisture)
        invariant line == old(line) && lineWrites == old(lineWrites) && waterings == old(waterings)
      {
        var ok := ClimateStep(samples[i]);
        assert samples[..i + 1][..i] == samples[..i];
        assert samples[..i + 1][i] == samples[i];
        if !ok { failures := failures + 1; }
        i := i + 1;
      }
      assert samples[..i] == samples;
    }
  }

  /** The threshold is strict: a frame of 300 leaves the pump alone, and a
      frame of 299 runs it once. */
  method ThresholdBoundary() returns (at300: Events, at299: Events, waterings: nat)
    ensures at300.refreshRequested && !at300.pumpRequested
    ensures at299.refreshRequested && at299.pumpRequested
    ensures waterings == 1
  {
    var m := new Monitor();
    ExampleFrame300();
    at300 := m.ProcessFrame(Tick(true, "300\n"));
    ExampleFrame299();
    at299 := m.ProcessFrame(Tick(true, "299\n"));
    waterings := m.waterings;
  }

  /** The serial stream "310\n295\n280\n" from a fresh start: three
      samples, and the pump runs for the second and third only, each time
      switched on once and off again. */
  method SerialStreamRun() returns (history: seq<real>, waterings: nat, switchedOn: nat)
    ensures |history| == 3
    ensures 69.6 < history[0] < 69.8 && 71.1 < history[1] < 71.2 && 72.6 < history[2] < 72.7
    ensures waterings == 2 && switchedOn == 2
  {
    var m := new Monitor();
    SerialStreamExample();
    m.RunMoistureLoop(ExampleStream);
    history, waterings, switchedOn := m.moisture, m.waterings, OnCount(m.lineWrites);
    assert history == Percents([310, 295, 280]);
    PercentsAt([310, 295, 280], 0);
    PercentsAt([310, 295, 280], 1);
    PercentsAt([310, 295, 280], 2);
  }
}
