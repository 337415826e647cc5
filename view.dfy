/**
  What the window shows, as values: the short-term moisture chart (the last
  ten samples), the long-term chart (every sample), and the latest
  temperature and humidity or a placeholder.
 */
module View {

  /** How many samples the short-term chart holds. */
  const ShortTermWindow: nat := 10

  /** Python's `data[-10:]`: the last ten samples, or all of them when
      there are fewer, in their original order. */
  function ShortTerm<T>(data: seq<T>): (w: seq<T>)
    ensures |w| == if |data| < ShortTermWindow then |data| else ShortTermWindow
    ensures forall i :: 0 <= i < |w| ==> w[i] == data[|data| - |w| + i]
  {
    if |data| <= ShortTermWindow then data else data[|data| - ShortTermWindow..]
  }

  /** A history of 37 samples shows samples 28 to 37 (counting from one). */
  lemma ShortTermOf37<T>(data: seq<T>)
    requires |data| == 37
    ensures ShortTerm(data) == data[27..37]
  {
  }

  /** The window is a suffix of the history: the history is what the chart
      leaves out, followed by the chart. */
  lemma ShortTermIsSuffix<T>(data: seq<T>)
    ensures data == data[..|data| - |ShortTerm(data)|] + ShortTerm(data)
  {
    var w := ShortTerm(data);
    var k := |data| - |w|;
    assert data[k..] == w;
  }

  /** A new sample slides the window: the new window is the old window
      with the sample appended, cut back to ten. */
  lemma ShortTermSlides<T>(data: seq<T>, x: T)
    ensures ShortTerm(data + [x]) == ShortTerm(ShortTerm(data) + [x])
  {
    var n := |data|;
    if n >= ShortTermWindow {
      var w := data[n - ShortTermWindow..];
      assert ShortTerm(data) == w;
      assert (w + [x])[1..] == data[n - ShortTermWindow + 1..] + [x];
      assert (data + [x])[n + 1 - ShortTermWindow..] == data[n - ShortTermWindow + 1..] + [x];
    } else {
      assert ShortTerm(data) == data;
    }
  }

  /** A label value: a reading, or the "N/A" placeholder. */
  datatype Shown<T> = Value(v: T) | NotAvailable

  /** `history[-1] if history else "N/A"`. */
  function Latest<T>(history: seq<T>): (s: Shown<T>)
    ensures s == NotAvailable <==> history == []
    ensures s.Value? ==> s.v == history[|history| - 1]
  {
    if history != [] then Value(history[|history| - 1]) else NotAvailable
  }

  /** After an append the label shows what was appended. */
  lemma LatestAfterAppend<T>(history: seq<T>, x: T)
    ensures Latest(history + [x]) == Value(x)
  {
  }

  /** One refresh of the window: both charts and both labels. */
  datatype Dashboard = Dashboard(
    shortTerm: seq<real>,
    longTerm: seq<real>,
    temperature: Shown<real>,
    humidity: Shown<real>)

  /** What `update_graphs` draws from the three histories. */
  function Render(moisture: seq<real>, temperature: seq<real>, humidity: seq<real>): (d: Dashboard)
    ensures d.longTerm == moisture
    ensures |d.shortTerm| <= ShortTermWindow && |d.shortTerm| <= |moisture|
    ensures |d.shortTerm| == ShortTermWindow || d.shortTerm == moisture
    ensures moisture == moisture[..|moisture| - |d.shortTerm|] + d.shortTerm
    ensures d.temperature == NotAvailable <==> temperature == []
    ensures d.temperature.Value? ==> d.temperature.v == temperature[|temperature| - 1]
    ensures d.humidity == NotAvailable <==> humidity == []
    ensures d.humidity.Value? ==> d.humidity.v == humidity[|humidity| - 1]
  {
    ShortTermIsSuffix(moisture);
    Dashboard(ShortTerm(moisture), moisture, Latest(temperature), Latest(humidity))
  }
}
