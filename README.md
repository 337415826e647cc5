# Plant monitor: pump guard and sensor loops

This project models the control logic of the single-plant monitor in
`raspi.py`. A soil-moisture probe sends one raw 10-bit code per line over a
serial port. The moisture loop turns each well-formed code into a
percentage, appends it to the plant's history, runs the water pump when
the code is below 300, and asks the window to refresh. A DHT22 loop adds
temperature and humidity to their histories when a read returns both
values. The pump routine switches the GPIO line on and then off again, but
only if the line reads off. The window shows the last ten moisture
samples, every sample, and the latest temperature and humidity, or "N/A"
when there are none.

Files:

- `wrappers.dfy` holds `Option`.
- `text.dfy` holds Python's `str.strip()` and `int()` on the stripped text.
- `moisture.dfy` covers the percentage formula, how a polling tick is
  classified, and what a finite stream of ticks adds to the history.
- `view.dfy` covers `data[-10:]`, `history[-1] if history else "N/A"` and
  what `update_graphs` draws.
- `monitor.dfy` holds the shared state as a class `Monitor`: the pump line,
  the log of values written to it, the three histories, the pump routine,
  one tick of each loop, and finite runs of both loops.

The line's current value (`line`) is kept apart from the log of every value
this program wrote to it (`lineWrites`). `Monitor.Valid` ties the number of
completed waterings to the number of times the log switched the line on.
A state whose line already reads on is allowed, so the pump routine's
"already on" branch can be reached.

## Model

| member | source | states |
|---|---|---|
| Text.IsSpace | raspi.py:42 | the definition of the characters `str.strip()` removes: tab to carriage return, the four separators 0x1C to 0x1F, space, and the other Unicode white space; `Text.StripSpec` states what stripping with it does |
| Text.TrimLeft | raspi.py:42 | the left-stripped text is never longer than the input |
| Text.TrimRight | raspi.py:42 | the right-stripped text is never longer than the input |
| Text.Strip | raspi.py:42 | the stripped text is never longer than the input |
| Text.TrimLeftSpec | raspi.py:42 | `lstrip` leaves a suffix of the input; everything it drops is white space; the result does not start with white space |
| Text.TrimRightSpec | raspi.py:42 | `rstrip` leaves a prefix of the input; everything it drops is white space; the result does not end with white space |
| Text.StripSpec | raspi.py:42-43 | the stripped text is empty exactly when the line is all white space; otherwise it neither starts nor ends with white space |
| Text.StripUnpads | raspi.py:42 | stripping any white-space padding from a core that has no white space at either end gives back exactly that core |
| Text.StripIdempotent | raspi.py:42 | stripping twice is the same as stripping once |
| Text.DigitValue | raspi.py:45 | a decimal digit has a value below ten |
| Text.DigitChar | raspi.py:45 | the character written for a value below ten is a digit of that value |
| Text.DigitsValue | raspi.py:45 | the definition of the value of a run of decimal digits, most significant first; `Text.ShowNatValue` states that it reads back what `Text.ShowNat` writes |
| Text.Unsigned | raspi.py:45 | the definition of the text after an optional leading `+` or `-` |
| Text.IsDecimal | raspi.py:45 | the definition of what `int()` accepts here: an optional sign followed by at least one digit; `Text.ParseInt` states what it gives for such text |
| Text.ShowNat | raspi.py:45 | a natural number is written as a non-empty run of digits |
| Text.ShowInt | raspi.py:45 | an integer is never written as the empty text |
| Text.ShowNatValue | raspi.py:45 | reading back the digits written for n gives n |
| Text.ParseInt | raspi.py:45 | `int()` accepts only non-empty text; a negative result comes only from a leading `-`; text without a leading `-` gives a non-negative value |
| Text.ParseShowInt | raspi.py:45 | `int()` reads every integer written in its canonical spelling back as that integer (round trip) |
| Text.ParsePlus | raspi.py:45 | a leading `+` in front of digits does not change the value `int()` gives |
| Moisture.Percent | raspi.py:46 | codes 0..1023 map into [0, 100]; 0 maps to 100 and 1023 to 0; negative codes go above 100 and codes above 1023 go below 0, since there is no clamping |
| Moisture.PercentAntitone | raspi.py:46 | a larger (drier) code never gives a higher percentage |
| Moisture.PercentRecoversRaw | raspi.py:46 | the code can be recovered from its percentage, so the mapping is one-to-one |
| Moisture.Classify | raspi.py:41-45 | the definition of the four outcomes of one polling tick: nothing waiting, a blank line, a line `int()` rejects, or a reading with its code; `Moisture.ClassifySpec` states each outcome's condition |
| Moisture.ClassifySpec | raspi.py:41-45 | a tick has no data exactly when no bytes are waiting. It is blank exactly when the line is all white space. It is rejected exactly when the stripped line is not a decimal literal. It is a reading exactly when the stripped line is one, and then its value is what `int()` gives |
| Moisture.ClassifyPaddedReading | raspi.py:42-45 | a code in the firmware's spelling, with any white-space padding around it, is read as that code |
| Moisture.NewlineFrame | raspi.py:42-45 | a code followed by the newline that `readline` keeps is read as that code |
| Moisture.Codes | raspi.py:43-47 | one frame contributes at most one code |
| Moisture.Readings | raspi.py:40-47 | a stream of ticks yields at most one code per tick |
| Moisture.Percents | raspi.py:46-47 | the history gets one percentage per code |
| Moisture.PercentsAt | raspi.py:46-47 | entry i of the history is the percentage of code i, in arrival order |
| Moisture.ThirstyCount | raspi.py:50-51 | the number of codes that ask for water is at most the number of codes |
| Moisture.ReadingsSnoc | raspi.py:40-47 | one more tick adds exactly the code of its frame, at the end |
| Moisture.ReadingsAppend | raspi.py:40-47 | the codes of two consecutive stretches of ticks are the two code lists joined |
| Moisture.NoiseIgnored | raspi.py:41-56 | a tick with no data, a blank line or a rejected line, anywhere in the stream, changes nothing |
| Moisture.ThirstyCountAppend | raspi.py:50-51 | the count of codes asking for water adds up over consecutive stretches |
| Moisture.PercentsAppend | raspi.py:46-47 | the percentages of two joined code lists are the two percentage lists joined |
| Moisture.StreamStep | raspi.py:40-57 | one more tick extends the codes by that tick's code, the history by its percentage, and the watering count by one exactly when the code is below 300 |
| Moisture.ExampleFrame310 | raspi.py:42-45 | the frame "310\n" is read as 310 |
| Moisture.ExampleFrame295 | raspi.py:42-45 | the frame "295\n" is read as 295 |
| Moisture.ExampleFrame280 | raspi.py:42-45 | the frame "280\n" is read as 280 |
| Moisture.ExampleFrame300 | raspi.py:42-45 | the frame "300\n" is read as 300 |
| Moisture.ExampleFrame299 | raspi.py:42-45 | the frame "299\n" is read as 299 |
| Moisture.ThreeReadings | raspi.py:40-47 | three ticks that each carry a reading give those three codes, in order |
| Moisture.SerialStreamExample | raspi.py:40-51 | "310\n295\n280\n" gives the codes 310, 295 and 280, about 69.7 %, 71.2 % and 72.6 %, and only the last two ask for water |
| View.ShortTerm | raspi.py:76 | `data[-10:]` holds min(n, 10) samples, and they are the last ones in their original order |
| View.ShortTermOf37 | raspi.py:76 | with 37 samples, the chart shows samples 28 to 37 |
| View.ShortTermIsSuffix | raspi.py:76 | the history is the part the short-term chart leaves out, followed by the chart |
| View.ShortTermSlides | raspi.py:76 | after an append, the window is the old window plus the new sample, cut back to ten |
| View.Latest | raspi.py:106-107 | the label is "N/A" exactly when the history is empty; otherwise it shows the last entry |
| View.LatestAfterAppend | raspi.py:106-107 | right after an append, the label shows the value appended |
| View.Render | raspi.py:70-115 | the long-term chart is the whole history and the short-term chart is a suffix of at most ten samples (all of them when there are fewer); each label is "N/A" exactly when its history is empty, and otherwise shows the last entry of that history |
| PlantMonitor.OnCountAppend | raspi.py:31-33 | the number of times the line was switched on adds up over consecutive stretches of writes |
| PlantMonitor.OnCountPulse | raspi.py:31-33 | one on-then-off cycle switches the line on exactly once |
| PlantMonitor.Pulses | raspi.py:31-33 | the writes of k watering cycles are 2k values long |
| PlantMonitor.OnCountPulses | raspi.py:31-33 | k watering cycles switch the line on exactly k times |
| PlantMonitor.PulsesAdd | raspi.py:31-33 | a cycles followed by b cycles are a + b cycles |
| PlantMonitor.PulsesJoin | raspi.py:28-36 | a write log grown by a cycles and then by b more is the first log grown by a + b cycles |
| PlantMonitor.Succeeded | raspi.py:62 | the definition of a successful DHT22 read: both humidity and temperature are present |
| PlantMonitor.Temperatures | raspi.py:62-63 | a run of reads appends at most one temperature per read |
| PlantMonitor.Humidities | raspi.py:62-64 | a run of reads appends at most one humidity per read |
| PlantMonitor.ProgressStep | raspi.py:40-57 | one more tick, handled as one pass of the moisture loop handles it, extends what the run has done so far (history, watering count, write log) by that tick |
| PlantMonitor.ClimateInStep | raspi.py:62-64 | any run of DHT22 reads appends the same number of temperatures and humidities |
| PlantMonitor.Monitor.constructor | raspi.py:19-26 | at start-up the line has been written 0 only, no watering has happened, and all three histories are empty |
| PlantMonitor.Monitor.SetLine | raspi.py:31-33 | a write sets the line and appends the value to the write log; nothing else changes |
| PlantMonitor.Monitor.WaterPump | raspi.py:28-36 | waters exactly when the line reads off. Watering writes 1 then 0, ends with the line off and adds one watering. When the line reads on, nothing changes. The histories are never touched |
| PlantMonitor.Monitor.ProcessFrame | raspi.py:41-56 | a reading appends exactly its percentage and asks for a refresh. It asks for the pump exactly when the code is below 300, and the pump then runs only if the line was off. No data, blank and rejected frames change nothing and ask for nothing. A watering adds exactly one on/off cycle to the write log. Temperature and humidity are untouched and the line ends as it started |
| PlantMonitor.Monitor.MoistureTick | raspi.py:40-57 | one pass of the moisture loop within a run extends what the run has done so far by that tick; the climate histories and the line are unchanged |
| PlantMonitor.Monitor.ClimateStep | raspi.py:61-67 | a read with both values appends temperature and humidity; any other read appends neither; nothing else changes |
| PlantMonitor.Monitor.RunMoistureLoop | raspi.py:38-57 | after a run of ticks, the moisture history is the old one followed by the percentages of the readings in arrival order. With the line off at the start, waterings grow by the number of codes below 300; with it on, they do not grow. The write log grows by exactly one on/off cycle per watering, and not at all with the line on. The climate histories and the line are unchanged |
| PlantMonitor.Monitor.RunClimateLoop | raspi.py:59-68 | after a run of DHT22 reads, each climate history is extended by the values of the successful reads, in order. The failure count is the number of reads that lacked a value. Moisture and the pump are untouched |
| PlantMonitor.ThresholdBoundary | raspi.py:50-51 | from a fresh start, a code of 300 asks for a refresh but not for water, and 299 asks for both; exactly one watering happens |
| PlantMonitor.SerialStreamRun | raspi.py:38-57 | from a fresh start, "310\n295\n280\n" leaves three samples of about 69.7 %, 71.2 % and 72.6 %, two waterings, and a line switched on twice |

## Left out

- The Tk window, the charts' drawing (`figsize`, titles, labels, colours, `plt.close`) and the label text formatting. Only what the charts and labels show is modelled, in `View.Render`.
- View.Latest: "N/A" is the `NotAvailable` constructor rather than the text, and the `°C` and `%` label suffixes are not modelled.
- Opening the serial port, `in_waiting` and `readline`. Each polling tick is given as a `Tick`: whether bytes were waiting, and the decoded line.
- UTF-8 decoding. A `UnicodeDecodeError` is not caught by the source and would end the moisture thread; the model takes the line as already decoded.
- `gpiod` chip and line requests are left out. The line is the field `line`; another process that changes it between calls is not modelled.
- `Adafruit_DHT.read`. Each read is given as a `DhtReading` with two optional values, in the order the driver returns them.
- Threads, `time.sleep` (the one-second and five-second polls, and the pump's three seconds), and `root.after`. The pump's duration is not modelled. The refresh request is the event's `refreshRequested` flag. Concurrent calls of the pump routine by two threads are not modelled.
- The `while True` loops become finite runs over a given sequence of ticks or reads (`RunMoistureLoop`, `RunClimateLoop`).
- PlantMonitor.Monitor.RunMoistureLoop: it states the history and the watering count, but not how many refreshes were requested. That is one per reading, as `ProcessFrame` states for each tick.
- Moisture.Percent: Python's float arithmetic overflows for very large codes. Above about 1.8e309 in magnitude, the percentage becomes an infinity. Above about 1.8e311, the division raises `OverflowError`, which `except ValueError` (raspi.py:55) does not catch, so the moisture thread ends. The model keeps the exact finite real for every code, and so waters for a huge negative code. The firmware sends 10-bit codes, so these paths are not modelled.
- Text.ParseInt: Python's `int()` raises `ValueError` for a literal of more than 4300 digits, so the source reports invalid data. The model reads such a literal as its value.
- Floating point. The percentage is an exact real, so the example's bounds hold for the exact value rather than the IEEE-754 double. DHT22 values are reals.
- Text.ParseInt: accepts only an optional sign followed by ASCII digits. It does not model `int()`'s `_` digit separators or non-ASCII Unicode digits.
- `print` output, which produces only messages.
- The entry guard at raspi.py:157 compares an undefined `name` with `"main"`. As written it would raise `NameError` instead of starting the threads and the window. Start-up is modelled as the `Monitor` constructor, and the guard is not modelled.
- The plant-selection combobox, which offers only "Plant A". The dictionaries keyed by plant name are the three history fields of the single plant.
