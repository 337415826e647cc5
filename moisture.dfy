/**
  The pure part of the soil-moisture loop: turning a raw ADC code into a
  percentage, deciding what a serial frame is, and what a finite stream of
  polling ticks contributes to the moisture history.
 */
module Moisture {
  import opened Wrappers
  import opened Text

  /** Raw codes strictly below this call for watering. */
  const MoistureThreshold: int := 300

  /** The largest code of the sensor's 10-bit converter; it reads as 0 % moisture. */
  const AdcMax: int := 1023

  /** `(1023 - raw) / 1023 * 100`, with exact real arithmetic. There is no
      clamping: codes outside [0, 1023] give percentages outside [0, 100]. */
  function Percent(raw: int): (p: real)
    ensures 0 <= raw <= AdcMax ==> 0.0 <= p <= 100.0
    ensures raw < 0 ==> p > 100.0
    ensures raw > AdcMax ==> p < 0.0
    ensures raw == 0 ==> p == 100.0
    ensures raw == AdcMax ==> p == 0.0
  {
    (AdcMax - raw) as real / AdcMax as real * 100.0
  }

  /** A drier (larger) code never reads as a higher percentage. */
  lemma PercentAntitone(a: int, b: int)
    requires a <= b
    ensures Percent(b) <= Percent(a)
  {
  }

  /** Different codes give different percentages: the code can be recovered. */
  lemma PercentRecoversRaw(raw: int)
    ensures AdcMax as real - Percent(raw) * AdcMax as real / 100.0 == raw as real
  {
  }

  /** What one polling tick of the serial port sees: whether bytes were
      waiting, and the decoded line read when they were. */
  datatype Tick = Tick(waiting: bool, text: string)

  /** How the loop body treats a tick. */
  datatype Frame =
    | NoData            // nothing waiting on the port
    | Blank             // the stripped line is empty
    | Rejected          // `int()` raised ValueError
    | Reading(raw: int) // a raw moisture code

  /** The body of the moisture loop up to the append: no bytes waiting,
      a blank line, `int()` failing, or a code. */
  function Classify(t: Tick): Frame {
    if !t.waiting then NoData
    else
      var stripped := Strip(t.text);
      if stripped == [] then Blank
      else match ParseInt(stripped)
        case None => Rejected
        case Some(raw) => Reading(raw)
  }

  /** Which frames fall in which case: blank exactly when the line is all
      white space, a reading exactly when the stripped line is a decimal
      literal, and then with the value `int()` gives it. */
  lemma ClassifySpec(t: Tick)
    ensures Classify(t) == NoData <==> !t.waiting
    ensures Classify(t) == Blank <==> t.waiting && AllSpace(t.text)
    ensures Classify(t) == Rejected <==> t.waiting && !AllSpace(t.text) && !IsDecimal(Strip(t.text))
    ensures Classify(t).Reading? <==> t.waiting && IsDecimal(Strip(t.text))
    ensures Classify(t).Reading? ==> ParseInt(Strip(t.text)) == Some(Classify(t).raw)
  {
    StripSpec(t.text);
  }

  /** A frame carrying the firmware's spelling of a code, with the line
      terminator and any other padding, is read as that code. */
  lemma ClassifyPaddedReading(pre: string, raw: int, post: string)
    requires AllSpace(pre) && AllSpace(post)
    ensures Classify(Tick(true, pre + ShowInt(raw) + post)) == Reading(raw)
  {
    var s := ShowInt(raw);
    ParseShowInt(raw);
    assert IsDecimal(s);
    assert !IsSpace(s[0]) by {
      if s[0] != '-' { assert Unsigned(s) == s; assert IsDigit(s[0]); }
    }
    assert !IsSpace(s[|s| - 1]) by {
      assert IsDigit(Unsigned(s)[|Unsigned(s)| - 1]);
    }
    StripUnpads(pre, s, post);
  }

  /** The code a frame contributes to the history: one for a reading,
      none otherwise. */
  function Codes(f: Frame): (raws: seq<int>)
    ensures |raws| <= 1
  {
    if f.Reading? then [f.raw] else []
  }

  /** The raw codes of the ticks that carried a reading, in arrival order. */
  function Readings(ticks: seq<Tick>): (raws: seq<int>)
    ensures |raws| <= |ticks|
  {
    if ticks == [] then [] else Readings(ticks[..|ticks| - 1]) + Codes(Classify(ticks[|ticks| - 1]))
  }

  /** The percentage of every code, in the same order. */
  function Percents(raws: seq<int>): (ps: seq<real>)
    ensures |ps| == |raws|
  {
    if raws == [] then [] else Percents(raws[..|raws| - 1]) + [Percent(raws[|raws| - 1])]
  }

  lemma {:induction false} PercentsAt(raws: seq<int>, i: nat)
    requires i < |raws|
    ensures Percents(raws)[i] == Percent(raws[i])
    decreases |raws|
  {
    if i < |raws| - 1 {
      PercentsAt(raws[..|raws| - 1], i);
    }
  }

  /** How many of the codes ask for watering. */
  function ThirstyCount(raws: seq<int>): (n: nat)
    ensures n <= |raws|
  {
    if raws == [] then 0
    else ThirstyCount(raws[..|raws| - 1]) + (if raws[|raws| - 1] < MoistureThreshold then 1 else 0)
  }

  lemma ConcatAssoc<T>(a: seq<T>, b: seq<T>, c: seq<T>)
    ensures a + b + c == a + (b + c)
  {
  }

  lemma ReadingsSnoc(ticks: seq<Tick>, t: Tick)
    ensures Readings(ticks + [t]) == Readings(ticks) + Codes(Classify(t))
  {
    assert (ticks + [t])[..|ticks|] == ticks;
  }

  /** Readings of two consecutive stretches of ticks are the two lists joined. */
  lemma {:induction false} ReadingsAppend(a: seq<Tick>, b: seq<Tick>)
    ensures Readings(a + b) == Readings(a) + Readings(b)
    decreases |b|
  {
    if b == [] {
      assert a + b == a;
    } else {
      var b', t := b[..|b| - 1], b[|b| - 1];
      assert b == b' + [t];
      assert a + b == (a + b') + [t];
      ReadingsAppend(a, b');
      ReadingsSnoc(a + b', t);
      ReadingsSnoc(b', t);
      ConcatAssoc(Readings(a), Readings(b'), Codes(Classify(t)));
    }
  }

  /** Ticks without a reading, wherever they sit in the stream, add nothing:
      the number of samples is the number of well-formed frames. */
  lemma NoiseIgnored(a: seq<Tick>, noise: Tick, b: seq<Tick>)
    requires !Classify(noise).Reading?
    ensures Readings(a + [noise] + b) == Readings(a + b)
  {
    ReadingsAppend(a + [noise], b);
    ReadingsSnoc(a, noise);
    ReadingsAppend(a, b);
    assert Readings(a + [noise]) == Readings(a);
  }

  lemma {:induction false} ThirstyCountAppend(a: seq<int>, b: seq<int>)
    ensures ThirstyCount(a + b) == ThirstyCount(a) + ThirstyCount(b)
    decreases |b|
  {
    if b == [] {
      assert a + b == a;
    } else {
      var ab := a + b;
      assert ab[..|ab| - 1] == a + b[..|b| - 1];
      ThirstyCountAppend(a, b[..|b| - 1]);
    }
  }

  lemma {:induction false} PercentsAppend(a: seq<int>, b: seq<int>)
    ensures Percents(a + b) == Percents(a) + Percents(b)
    decreases |b|
  {
    if b == [] {
      assert a + b == a;
    } else {
      var b', r := b[..|b| - 1], b[|b| - 1];
      assert b == b' + [r];
      assert (a + b)[..|a + b| - 1] == a + b';
      PercentsAppend(a, b');
      ConcatAssoc(Percents(a), Percents(b'), [Percent(r)]);
    }
  }

  /** The percentage a frame appends to the history: one for a reading,
      none otherwise. */
  function Sample(f: Frame): seq<real> {
    if f.Reading? then [Percent(f.raw)] else []
  }

  /** Whether a frame asks for watering, as a count of zero or one. */
  function Thirst(f: Frame): nat {
    if f.Reading? && f.raw < MoistureThreshold then 1 else 0
  }

  /** What one more tick adds to the readings, their percentages and the
      count of those that ask for watering. */
  lemma StreamStep(ticks: seq<Tick>, i: nat)
    requires i < |ticks|
    ensures var f := Classify(ticks[i]);
      var before := Readings(ticks[..i]);
      var after := Readings(ticks[..i + 1]);
      && after == before + Codes(f)
      && Percents(after) == Percents(before) + Sample(f)
      && ThirstyCount(after) == ThirstyCount(before) + Thirst(f)
  {
    var f := Classify(ticks[i]);
    var added := Codes(f);
    assert ticks[..i + 1] == ticks[..i] + [ticks[i]];
    ReadingsSnoc(ticks[..i], ticks[i]);
    PercentsAppend(Readings(ticks[..i]), added);
    ThirstyCountAppend(Readings(ticks[..i]), added);
    assert added == [] || added == [added[0]];
    assert ThirstyCount(added) == Thirst(f) by {
      if added != [] { assert added[..0] == []; }
    }
  }

  /** A code the firmware prints, followed by the newline `readline` keeps. */
  lemma NewlineFrame(raw: int, text: string)
    requires text == ShowInt(raw) + "\n"
    ensures Classify(Tick(true, text)) == Reading(raw)
  {
    var nl := "\n";
    assert AllSpace(nl) by { assert IsSpace(nl[0]); }
    assert "" + ShowInt(raw) + nl == text;
    ClassifyPaddedReading("", raw, nl);
  }

  /** The three frames of the stream below, one at a time. */
  lemma ExampleFrame310()
    ensures Classify(Tick(true, "310\n")) == Reading(310)
  {
    assert ShowInt(310) == "310" by { assert ShowNat(31) == "31"; }
    NewlineFrame(310, "310\n");
  }

  lemma ExampleFrame295()
    ensures Classify(Tick(true, "295\n")) == Reading(295)
  {
    assert ShowInt(295) == "295" by { assert ShowNat(29) == "29"; }
    NewlineFrame(295, "295\n");
  }

  lemma ExampleFrame280()
    ensures Classify(Tick(true, "280\n")) == Reading(280)
  {
    assert ShowInt(280) == "280" by { assert ShowNat(28) == "28"; }
    NewlineFrame(280, "280\n");
  }

  /** The two frames either side of the threshold. */
  lemma ExampleFrame300()
    ensures Classify(Tick(true, "300\n")) == Reading(300)
  {
    assert ShowInt(300) == "300" by { assert ShowNat(30) == "30"; }
    NewlineFrame(300, "300\n");
  }

  lemma ExampleFrame299()
    ensures Classify(Tick(true, "299\n")) == Reading(299)
  {
    assert ShowInt(299) == "299" by { assert ShowNat(29) == "29"; }
    NewlineFrame(299, "299\n");
  }

  lemma ThreeReadings(t1: Tick, t2: Tick, t3: Tick, r1: int, r2: int, r3: int)
    requires Classify(t1) == Reading(r1) && Classify(t2) == Reading(r2) && Classify(t3) == Reading(r3)
    ensures Readings([t1, t2, t3]) == [r1, r2, r3]
  {
    var s1, s2, s3 := [t1], [t1, t2], [t1, t2, t3];
    assert Codes(Classify(t1)) == [r1] && Codes(Classify(t2)) == [r2] && Codes(Classify(t3)) == [r3];
    assert Readings(s1) == [r1] by {
      ReadingsSnoc([], t1);
      assert [] + [t1] == s1;
    }
    assert Readings(s2) == [r1, r2] by {
      ReadingsSnoc(s1, t2);
      assert s1 + [t2] == s2;
    }
    ReadingsSnoc(s2, t3);
    assert s2 + [t3] == s3;
  }

  /** The serial stream "310\n295\n280\n" of three frames. */
  const ExampleStream: seq<Tick> := [Tick(true, "310\n"), Tick(true, "295\n"), Tick(true, "280\n")]

  /** That stream yields three samples of about 69.7 %, 71.2 % and 72.6 %,
      of which only the last two ask for watering. */
  lemma SerialStreamExample()
    ensures var raws := Readings(ExampleStream);
      && raws == [310, 295, 280]
      && 69.6 < Percent(raws[0]) < 69.8
      && 71.1 < Percent(raws[1]) < 71.2
      && 72.6 < Percent(raws[2]) < 72.7
      && !(raws[0] < MoistureThreshold) && raws[1] < MoistureThreshold && raws[2] < MoistureThreshold
      && ThirstyCount(raws) == 2
  {
    ExampleFrame310();
    ExampleFrame295();
    ExampleFrame280();
    ThreeReadings(ExampleStream[0], ExampleStream[1], ExampleStream[2], 310, 295, 280);
    assert ExampleStream == [ExampleStream[0], ExampleStream[1], ExampleStream[2]];
    var raws := [310, 295, 280];
    assert raws[..2] == [310, 295] && raws[..2][..1] == [310] && raws[..2][..1][..0] == [];
  }
}
