/** The pure helpers of `components/frame/weather-panel.tsx`: the chance of
    rain (the largest precipitation probability in the next hours and when it
    occurs), the text describing it, and the reading of the screen
    orientation. Fetching the forecast and the refresh interval are not
    modelled; the hourly probabilities and the current hour are parameters. */
module WeatherPanel {
  import opened Wrappers
  import opened JsArray
  import opened JsNumber

  /** The number of hours `fetchWeather` looks ahead for rain. */
  const RAIN_WINDOW_HOURS: nat := 8

  /** The `{ index, value }` record `calcPrecProb` returns. */
  datatype PrecProb = PrecProb(index: int, value: int)

  /** `arr[index] == value` is the largest of `arr[lo..hi]` and no earlier
      position of that range reaches it. */
  ghost predicate FirstMaximumIn(arr: seq<int>, lo: nat, hi: nat, index: int, value: int) {
    lo <= index < hi <= |arr| && arr[index] == value &&
    (forall j :: lo <= j < hi ==> arr[j] <= value) &&
    (forall j :: lo <= j < index ==> arr[j] < value)
  }

  /** The peak of a non-empty window as the source finds it: `Math.max`,
      then `find` of the first element equal to it (with the `|| 0`
      fallback), then `indexOf` of that value. The `find` and the fallback
      always give the maximum itself, and `indexOf` its first position. */
  function PeakOf(slice: seq<int>): (r: PrecProb)
    requires |slice| > 0
    ensures FirstMaximumIn(slice, 0, |slice|, r.index, r.value)
  {
    var m := Max(slice);
    var found := Find(slice, (v: int) => v == m);
    assert found == Some(m);
    var maxValue := if found.Some? && found.value != 0 then found.value else 0;
    assert maxValue == m;
    var index := IndexOf(slice, maxValue);
    assert forall j :: 0 <= j < index ==> slice[j] != m && slice[j] <= m;
    PrecProb(index, maxValue)
  }

  /** A first maximum of a window is the first maximum of the same range
      of the whole array, shifted by the window's start. */
  lemma FirstMaximumShift(arr: seq<int>, lo: nat, hi: nat, index: int, value: int)
    requires lo <= hi <= |arr|
    requires FirstMaximumIn(arr[lo..hi], 0, hi - lo, index, value)
    ensures FirstMaximumIn(arr, lo, hi, index + lo, value)
  {
    var w := arr[lo..hi];
    forall j | lo <= j < hi ensures arr[j] <= value {
      assert arr[j] == w[j - lo];
    }
    forall j | lo <= j < index + lo ensures arr[j] < value {
      assert arr[j] == w[j - lo];
    }
  }

  /** The peak of the window `arr[lo..hi]` is the first maximum of that
      range of `arr`. */
  lemma WindowPeak(arr: seq<int>, lo: nat, hi: nat)
    requires lo < hi <= |arr|
    ensures FirstMaximumIn(arr, lo, hi, PeakOf(arr[lo..hi]).index + lo, PeakOf(arr[lo..hi]).value)
  {
    FirstMaximumShift(arr, lo, hi, PeakOf(arr[lo..hi]).index, PeakOf(arr[lo..hi]).value);
  }

  /** `calcPrecProb`: the maximum of the window `arr.slice(start, start + n)`
      and its position in `arr`. The window is empty exactly when it starts
      past the data or is zero hours long, and then the result is index 0,
      value 0. Otherwise the value is the window's maximum and the index is
      the first position in the window that holds it. */
  function CalcPrecProb(start: nat, n: nat, arr: seq<int>): (r: PrecProb)
    ensures (start >= |arr| || n == 0) ==> r == PrecProb(0, 0)
    ensures start < |arr| && n > 0 ==> FirstMaximumIn(arr, start, Min(start + n, |arr|), r.index, r.value)
  {
    var slice := Slice(arr, start, start + n);
    SliceNonNegative(arr, start, start + n);
    if |slice| == 0 then PrecProb(0, 0)
    else
      var end := Min(start + n, |arr|);
      assert slice == arr[start..end];
      var p := PeakOf(slice);
      WindowPeak(arr, start, end);
      PrecProb(p.index + start, p.value)
  }

  /** `pluralize`: the singular form exactly for a count of one. */
  function Pluralize(word: string, pluralWord: string, count: int): (r: string)
    ensures count == 1 ==> r == word
    ensures count != 1 ==> r == pluralWord
  {
    if count == 1 then word else pluralWord
  }

  /** How many hours from now the rain peak comes (`rainHr - currentHour`). */
  function RainHourOffset(currentHour: nat, precipitation: seq<int>): int {
    CalcPrecProb(currentHour, RAIN_WINDOW_HOURS, precipitation).index - currentHour
  }

  /** The two rain strings of the panel. */
  datatype RainReport = RainReport(rainPrediction: string, rainPredictionDescription: string)

  /** The description `fetchWeather` builds for a distance of `hours`
      hours: "in next", the number as JavaScript writes it, and "hour"
      exactly for one. */
  function RainDescription(hours: int): (r: string)
    ensures hours >= 0 ==> r == "in next " + NatToString(hours) + " " + (if hours == 1 then "hour" else "hours")
    ensures hours < 0 ==> r == "in next -" + NatToString(-hours) + " hours"
  {
    if hours >= 0 then
      assert IntToString(hours) == NatToString(hours);
      "in next " + IntToString(hours) + " " + Pluralize("hour", "hours", hours)
    else
      var digits := NatToString(-hours);
      assert "in next " + ("-" + digits) + " " + "hours" == "in next -" + digits + " hours";
      "in next " + IntToString(hours) + " " + Pluralize("hour", "hours", hours)
  }

  /** The rain strings `fetchWeather` assembles: the peak probability
      with a percent sign, and how many hours until it comes. */
  function RainReportOf(currentHour: nat, precipitation: seq<int>): (r: RainReport)
    ensures |r.rainPrediction| >= 2 && r.rainPrediction[|r.rainPrediction| - 1] == '%'
    ensures "in next " <= r.rainPredictionDescription
  {
    var prob := CalcPrecProb(currentHour, RAIN_WINDOW_HOURS, precipitation);
    var nextNPrecHrs := RainHourOffset(currentHour, precipitation);
    RainReport(IntToString(prob.value) + "%", RainDescription(nextNPrecHrs))
  }

  /** With data from the current hour on, the rain prediction is the first
      maximum of the next eight hours followed by `%`. */
  lemma RainPredictionIsPeak(currentHour: nat, precipitation: seq<int>)
    ensures currentHour < |precipitation| ==>
              var prob := CalcPrecProb(currentHour, RAIN_WINDOW_HOURS, precipitation);
              FirstMaximumIn(precipitation, currentHour, Min(currentHour + RAIN_WINDOW_HOURS, |precipitation|),
                             prob.index, prob.value) &&
              RainReportOf(currentHour, precipitation).rainPrediction == IntToString(prob.value) + "%"
  {
  }

  /** With data from the current hour on, the description names the
      distance `k` of that peak, 0 to 7 hours, with "hour" exactly for one. */
  lemma RainReportWording(currentHour: nat, precipitation: seq<int>)
    ensures currentHour < |precipitation| ==>
              var k := CalcPrecProb(currentHour, RAIN_WINDOW_HOURS, precipitation).index - currentHour;
              0 <= k < RAIN_WINDOW_HOURS &&
              RainReportOf(currentHour, precipitation).rainPredictionDescription ==
              "in next " + NatToString(k) + " " + (if k == 1 then "hour" else "hours")
  {
    RainHourOffsetRange(currentHour, precipitation);
  }

  /** With no data left from the current hour on, the panel reports "0%"
      and the negated current hour as the distance. */
  lemma RainReportWithoutData(currentHour: nat, precipitation: seq<int>)
    ensures currentHour >= |precipitation| && currentHour > 0 ==>
              RainReportOf(currentHour, precipitation) ==
              RainReport("0%", "in next -" + NatToString(currentHour) + " hours")
    ensures currentHour >= |precipitation| && currentHour == 0 ==>
              RainReportOf(currentHour, precipitation) == RainReport("0%", "in next 0 hours")
  {
    if currentHour >= |precipitation| {
      assert CalcPrecProb(currentHour, RAIN_WINDOW_HOURS, precipitation) == PrecProb(0, 0);
      assert IntToString(0) == "0";
      RainHourOffsetRange(currentHour, precipitation);
      var r := RainReportOf(currentHour, precipitation);
      assert r.rainPrediction == "0%";
      assert r.rainPredictionDescription == RainDescription(0 - currentHour);
      if currentHour == 0 {
        assert NatToString(0) == "0";
        assert "in next " + "0" + " " + "hours" == "in next 0 hours";
      }
    }
  }

  /** The peak lies within the next eight hours of data; with no data left
      from the current hour on, the index 0 turns into `-currentHour`. */
  lemma RainHourOffsetRange(currentHour: nat, precipitation: seq<int>)
    ensures currentHour < |precipitation| ==>
              0 <= RainHourOffset(currentHour, precipitation) < RAIN_WINDOW_HOURS &&
              RainHourOffset(currentHour, precipitation) < |precipitation| - currentHour
    ensures currentHour >= |precipitation| ==> RainHourOffset(currentHour, precipitation) == 0 - currentHour
  {
  }

  datatype Orientation = Portrait | Landscape

  /** `determineOrientation`: portrait exactly when the screen orientation
      type starts with "portrait". */
  function DetermineOrientation(orientationType: string): (o: Orientation)
    ensures o == Portrait <==> |orientationType| >= 8 && orientationType[..8] == "portrait"
  {
    if "portrait" <= orientationType then Portrait else Landscape
  }

  /** The four orientation types a screen reports. */
  lemma OrientationTypes()
    ensures DetermineOrientation("portrait-primary") == Portrait
    ensures DetermineOrientation("portrait-secondary") == Portrait
    ensures DetermineOrientation("landscape-primary") == Landscape
    ensures DetermineOrientation("landscape-secondary") == Landscape
  {
    assert "portrait-primary"[..8] == "portrait";
    assert "portrait-secondary"[..8] == "portrait";
    assert "landscape-primary"[0] != "portrait"[0];
    assert "landscape-secondary"[0] != "portrait"[0];
  }
}
