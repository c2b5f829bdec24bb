/** The forecast strip of `components/frame/weather-forecast-view.tsx`: the
    next `n` hourly forecasts picked out of the day's hourly arrays, the
    12-hour clock labels, and the choice of weather icon from the WMO weather
    interpretation codes (WMO code table 4677) that Open-Meteo reports. The
    current hour, which the source reads from the clock, is a parameter. */
module WeatherForecastView {
  import opened Wrappers
  import opened JsArray
  import opened JsNumber

  /** The icon components the tables use (the icon library's names). */
  datatype WeatherIcon =
    | Sunny | PartlySunny | Cloudy | Foggy | Drizzle | Rain | Snow | Thunderstorm
    | MoonFull | CloudMoon | MoonFoggy

  /** `defaultWeatherIcon`: the cloud outline. */
  const DEFAULT_WEATHER_ICON: WeatherIcon := Cloudy

  /** `WeatherIconDayMap`. */
  const WEATHER_ICON_DAY_MAP: map<int, WeatherIcon> := map[
    0 := Sunny, 1 := Sunny, 2 := PartlySunny, 3 := Cloudy,
    45 := Foggy, 48 := Foggy,
    51 := Drizzle, 53 := Drizzle, 55 := Drizzle, 56 := Drizzle, 57 := Drizzle,
    61 := Rain, 63 := Rain, 65 := Rain, 66 := Rain, 67 := Rain,
    71 := Snow, 73 := Snow, 75 := Snow, 77 := Snow,
    80 := Drizzle, 81 := Drizzle, 82 := Drizzle,
    85 := Snow, 86 := Snow,
    95 := Thunderstorm, 96 := Thunderstorm, 99 := Thunderstorm]

  /** `WeatherIconNightMap`. */
  const WEATHER_ICON_NIGHT_MAP: map<int, WeatherIcon> := map[
    0 := MoonFull, 1 := MoonFull, 2 := CloudMoon, 3 := CloudMoon,
    45 := MoonFoggy, 48 := MoonFoggy,
    51 := Drizzle, 53 := Drizzle, 55 := Drizzle, 56 := Drizzle, 57 := Drizzle,
    61 := Rain, 63 := Rain, 65 := Rain, 66 := Rain, 67 := Rain,
    71 := Snow, 73 := Snow, 75 := Snow, 77 := Snow,
    80 := Drizzle, 81 := Drizzle, 82 := Drizzle,
    85 := Snow, 86 := Snow,
    95 := Thunderstorm, 96 := Thunderstorm, 99 := Thunderstorm]

  /** The WMO weather interpretation codes the tables know. */
  const WMO_CODES: set<int> := {
    0, 1, 2, 3, 45, 48, 51, 53, 55, 56, 57, 61, 63, 65, 66, 67,
    71, 73, 75, 77, 80, 81, 82, 85, 86, 95, 96, 99}

  /** Both tables know exactly the same codes. */
  lemma TablesCoverWmoCodes()
    ensures WEATHER_ICON_DAY_MAP.Keys == WMO_CODES
    ensures WEATHER_ICON_NIGHT_MAP.Keys == WMO_CODES
  {
  }

  /** Day and night differ only for clear, cloudy and foggy skies: from
      drizzle (code 51) on, both tables show the same icon. */
  lemma TablesAgreeFromDrizzleOn(code: int)
    requires code in WMO_CODES && code >= 51
    ensures WEATHER_ICON_DAY_MAP[code] == WEATHER_ICON_NIGHT_MAP[code]
  {
    if code <= 57 {
      assert code in {51, 53, 55, 56, 57};
    } else if code <= 67 {
      assert code in {61, 63, 65, 66, 67};
    } else if code <= 77 {
      assert code in {71, 73, 75, 77};
    } else if code <= 86 {
      assert code in {80, 81, 82, 85, 86};
    } else {
      assert code in {95, 96, 99};
    }
  }

  /** Daytime is the half-open interval from the sunrise hour to the sunset hour. */
  predicate IsDayTime(currentHour: int, sunriseHour: int, sunsetHour: int) {
    currentHour >= sunriseHour && currentHour < sunsetHour
  }

  /** `getWeatherIcon`: the day or night table by the current hour, and the
      default icon for a code the table lacks (or an `undefined` code). */
  function GetWeatherIcon(code: Option<int>, sunriseHour: int, sunsetHour: int, currentHour: int): (icon: WeatherIcon)
    ensures code.Some? && code.value in WMO_CODES && IsDayTime(currentHour, sunriseHour, sunsetHour) ==>
              icon == WEATHER_ICON_DAY_MAP[code.value]
    ensures code.Some? && code.value in WMO_CODES && !IsDayTime(currentHour, sunriseHour, sunsetHour) ==>
              icon == WEATHER_ICON_NIGHT_MAP[code.value]
    ensures (code.None? || code.value !in WMO_CODES) ==> icon == DEFAULT_WEATHER_ICON
  {
    var table := if IsDayTime(currentHour, sunriseHour, sunsetHour) then WEATHER_ICON_DAY_MAP else WEATHER_ICON_NIGHT_MAP;
    if code.Some? && code.value in table then table[code.value] else DEFAULT_WEATHER_ICON
  }

  /** `nextNItems`: the window of `n` items from `start`, or, when that is
      short, `arr.slice(arr.length - n, arr.length)`. */
  function NextNItems<T>(start: nat, n: nat, arr: seq<T>): (r: seq<T>)
    ensures |r| <= n
    ensures n <= |arr| ==> |r| == n
  {
    SliceNonNegative(arr, start, start + n);
    var slice := Slice(arr, start, start + n);
    if |slice| < n then Slice(arr, |arr| - n, |arr|) else slice
  }

  /** A window that fits is taken as it is. */
  lemma NextNItemsFits<T>(start: nat, n: nat, arr: seq<T>)
    requires start + n <= |arr|
    ensures NextNItems(start, n, arr) == arr[start..start + n]
  {
  }

  /** A window that runs past the end falls back to the last `n` items. */
  lemma NextNItemsFallsBackToTail<T>(start: nat, n: nat, arr: seq<T>)
    requires n <= |arr| < start + n
    ensures NextNItems(start, n, arr) == arr[|arr| - n..]
    ensures |NextNItems(start, n, arr)| == n
  {
    SliceNonNegative(arr, start, start + n);
  }

  /** With fewer than `n` items the fallback's start `arr.length - n` is
      negative, and `slice` counts it from the end: the result is the suffix
      from `2 * |arr| - n`, which drops the first `n - |arr|` items whenever
      `n < 2 * |arr|`, and is all of `arr` only once `n >= 2 * |arr|`. */
  lemma NextNItemsShortArray<T>(start: nat, n: nat, arr: seq<T>)
    requires |arr| < n
    ensures n < 2 * |arr| ==> NextNItems(start, n, arr) == arr[2 * |arr| - n..]
    ensures n >= 2 * |arr| ==> NextNItems(start, n, arr) == arr
  {
    SliceNonNegative(arr, start, start + n);
  }

  /** `startHour`: the current hour, held back so that `n` hours fit before
      midnight. */
  function StartHour(currentHour: int, n: int): (h: int)
    ensures h <= currentHour && h <= 24 - n
    ensures h == currentHour || h == 24 - n
  {
    if currentHour < 24 - n then currentHour else 24 - n
  }

  /** One entry of the strip; `temperature` is `None` where the source would
      read past the end of its window (and round `undefined` to `NaN`). */
  datatype Forecast = Forecast(hour: int, icon: WeatherIcon, temperature: Option<int>)

  /** Forecast `i` of the strip. */
  function ForecastAt(i: nat, n: nat, tempArr: seq<int>, weatherCodeArr: seq<int>,
                      sunriseHour: int, sunsetHour: int, currentHour: nat): Forecast
  {
    Forecast(i + StartHour(currentHour, n),
             GetWeatherIcon(At(NextNItems(currentHour, n, weatherCodeArr), i), sunriseHour, sunsetHour, currentHour),
             At(NextNItems(currentHour, n, tempArr), i))
  }

  /** The strip `makeForeCastArr` builds, as a value. */
  function ForecastArr(n: nat, tempArr: seq<int>, weatherCodeArr: seq<int>,
                       sunriseHour: int, sunsetHour: int, currentHour: nat): (fs: seq<Forecast>)
    ensures |fs| == n
  {
    seq(n, i requires 0 <= i < n => ForecastAt(i, n, tempArr, weatherCodeArr, sunriseHour, sunsetHour, currentHour))
  }

  /** `makeForeCastArr`: pushes the `n` forecasts one by one. */
  method MakeForeCastArr(n: nat, tempArr: seq<int>, weatherCodeArr: seq<int>,
                         sunriseHour: int, sunsetHour: int, currentHour: nat)
    returns (forecastArr: seq<Forecast>)
    ensures forecastArr == ForecastArr(n, tempArr, weatherCodeArr, sunriseHour, sunsetHour, currentHour)
  {
    var nextTemps := NextNItems(currentHour, n, tempArr);
    var nextWeatherCodes := NextNItems(currentHour, n, weatherCodeArr);
    var startHour := if currentHour < 24 - n then currentHour else 24 - n;
    ghost var strip := ForecastArr(n, tempArr, weatherCodeArr, sunriseHour, sunsetHour, currentHour);
    forecastArr := [];
    var i := 0;
    while i < n
      invariant 0 <= i <= n
      invariant forecastArr == strip[..i]
    {
      var weatherCode := At(nextWeatherCodes, i);
      var weatherIcon := GetWeatherIcon(weatherCode, sunriseHour, sunsetHour, currentHour);
      var forecast := Forecast(i + startHour, weatherIcon, At(nextTemps, i));
      assert forecast == strip[i];
      PrefixStep(strip, i);
      forecastArr := forecastArr + [forecast];
      i := i + 1;
    }
    assert strip[..n] == strip;
  }

  /** A prefix one longer is the shorter prefix and the next element. */
  lemma PrefixStep<T>(s: seq<T>, i: nat)
    requires i < |s|
    ensures s[..i + 1] == s[..i] + [s[i]]
  {
  }

  /** The strip has `n` entries with consecutive hours from
      `min(currentHour, 24 - n)`; for a current hour of the day and
      `1 <= n <= 24` every hour is an hour of the day. */
  lemma ForecastHours(n: nat, tempArr: seq<int>, weatherCodeArr: seq<int>,
                      sunriseHour: int, sunsetHour: int, currentHour: nat)
    ensures var fs := ForecastArr(n, tempArr, weatherCodeArr, sunriseHour, sunsetHour, currentHour);
            |fs| == n &&
            (forall i :: 0 <= i < n ==> fs[i].hour == i + Min(currentHour, 24 - n)) &&
            (currentHour <= 23 && 1 <= n <= 24 ==> forall i :: 0 <= i < n ==> 0 <= fs[i].hour <= 23)
  {
  }

  /** With a full day of hourly data, each forecast shows the values of the
      array entry for its own hour: the window `nextNItems` picks and the
      hour `startHour` assigns always agree. */
  lemma ForecastMatchesItsHour(n: nat, tempArr: seq<int>, weatherCodeArr: seq<int>,
                               sunriseHour: int, sunsetHour: int, currentHour: nat)
    requires |tempArr| == 24 && |weatherCodeArr| == 24
    requires currentHour <= 23 && 1 <= n <= 24
    ensures var fs := ForecastArr(n, tempArr, weatherCodeArr, sunriseHour, sunsetHour, currentHour);
            forall i :: 0 <= i < n ==>
              0 <= fs[i].hour < 24 &&
              fs[i].temperature == Some(tempArr[fs[i].hour]) &&
              fs[i].icon == GetWeatherIcon(Some(weatherCodeArr[fs[i].hour]), sunriseHour, sunsetHour, currentHour)
  {
    forall i | 0 <= i < n {
      ForecastEntryMatchesItsHour(n, tempArr, weatherCodeArr, sunriseHour, sunsetHour, currentHour, i);
    }
  }

  lemma ForecastEntryMatchesItsHour(n: nat, tempArr: seq<int>, weatherCodeArr: seq<int>,
                                    sunriseHour: int, sunsetHour: int, currentHour: nat, i: nat)
    requires |tempArr| == 24 && |weatherCodeArr| == 24
    requires currentHour <= 23 && 1 <= n <= 24 && i < n
    ensures var f := ForecastAt(i, n, tempArr, weatherCodeArr, sunriseHour, sunsetHour, currentHour);
            0 <= f.hour < 24 &&
            f.temperature == Some(tempArr[f.hour]) &&
            f.icon == GetWeatherIcon(Some(weatherCodeArr[f.hour]), sunriseHour, sunsetHour, currentHour)
  {
    WindowEntry(n, tempArr, currentHour, i);
    WindowEntry(n, weatherCodeArr, currentHour, i);
  }

  /** Entry `i` of the window is the array entry of hour `startHour + i`. */
  lemma WindowEntry<T>(n: nat, arr: seq<T>, currentHour: nat, i: nat)
    requires |arr| == 24 && currentHour <= 23 && 1 <= n <= 24 && i < n
    ensures StartHour(currentHour, n) + i < 24
    ensures |NextNItems(currentHour, n, arr)| == n
    ensures NextNItems(currentHour, n, arr)[i] == arr[StartHour(currentHour, n) + i]
  {
    WindowAtStartHour(n, arr, currentHour);
  }

  lemma WindowAtStartHour<T>(n: nat, arr: seq<T>, currentHour: nat)
    requires |arr| == 24 && currentHour <= 23 && 1 <= n <= 24
    ensures 0 <= StartHour(currentHour, n) && StartHour(currentHour, n) + n <= 24
    ensures NextNItems(currentHour, n, arr) == arr[StartHour(currentHour, n)..StartHour(currentHour, n) + n]
  {
    if currentHour + n <= 24 {
      NextNItemsFits(currentHour, n, arr);
    } else {
      NextNItemsFallsBackToTail(currentHour, n, arr);
    }
  }

  /** Every icon of the strip is chosen by the current hour, not by the hour
      it forecasts: a strip that runs past sunset still shows day icons. */
  lemma ForecastIconsUseCurrentHour(n: nat, tempArr: seq<int>, weatherCodeArr: seq<int>,
                                    sunriseHour: int, sunsetHour: int, currentHour: nat, i: nat)
    requires i < n
    requires i < |NextNItems(currentHour, n, weatherCodeArr)|
    requires NextNItems(currentHour, n, weatherCodeArr)[i] in WMO_CODES
    ensures var code := NextNItems(currentHour, n, weatherCodeArr)[i];
            var f := ForecastArr(n, tempArr, weatherCodeArr, sunriseHour, sunsetHour, currentHour)[i];
            f.icon == if IsDayTime(currentHour, sunriseHour, sunsetHour)
                      then WEATHER_ICON_DAY_MAP[code]
                      else WEATHER_ICON_NIGHT_MAP[code]
  {
  }

  /** The hour on a 12-hour clock, 1 to 12 for a non-negative hour. */
  function Hour12(hour: int): (h: int)
    ensures hour >= 0 ==> 1 <= h <= 12
  {
    var adjustedHour := Rem(hour, 24);
    if Rem(adjustedHour, 12) == 0 then 12 else Rem(adjustedHour, 12)
  }

  function Period(hour: int): string {
    if Rem(hour, 24) >= 12 then "pm" else "am"
  }

  /** `convertHourTo12HourFormat`: the 12-hour number and "am" or "pm".
      For a non-negative hour the label reads back as the hour of the day. */
  function ConvertHourTo12HourFormat(hour: int): (text: string)
    ensures hour >= 0 ==> ParseHourLabel(text) == Some(hour % 24)
  {
    var digits := IntToString(Hour12(hour));
    var period := Period(hour);
    if hour >= 0 then
      assert digits == NatToString(Hour12(hour));
      ParseNatOfNatToString(Hour12(hour));
      HourLabelRoundTrip(hour);
      var text := digits + period;
      assert text[..|text| - 2] == digits && text[|text| - 2..] == period;
      text
    else
      digits + period
  }

  /** Reads a label of a decimal number followed by "am" or "pm" back into
      the hour of the day. */
  function ParseHourLabel(s: string): Option<int> {
    if |s| < 3 then None
    else
      var hour12 := ParseNat(s[..|s| - 2]);
      var period := s[|s| - 2..];
      if hour12.Some? && (period == "am" || period == "pm") then Some(HourOfDay(hour12.value, period)) else None
  }

  /** The label depends only on the hour modulo 24; for a non-negative hour
      it shows 1 to 12 and "pm" exactly from noon on. */
  lemma HourLabelShape(hour: nat)
    ensures ConvertHourTo12HourFormat(hour) == ConvertHourTo12HourFormat(hour % 24)
    ensures 1 <= Hour12(hour) <= 12
    ensures ConvertHourTo12HourFormat(hour) == NatToString(Hour12(hour)) + Period(hour)
    ensures Period(hour) == "pm" <==> hour % 24 >= 12
  {
    var h := hour % 24;
    assert Rem(hour, 24) == h && Rem(h, 24) == h;
    assert Hour12(hour) == Hour12(h) && Period(hour) == Period(h);
    assert 0 <= Rem(h, 12) < 12;
  }

  /** Reading the label back: the 12-hour clock loses nothing of the hour of the day. */
  function HourOfDay(hour12: int, period: string): int {
    hour12 % 12 + (if period == "pm" then 12 else 0)
  }

  lemma HourLabelRoundTrip(hour: nat)
    ensures HourOfDay(Hour12(hour), Period(hour)) == hour % 24
  {
  }

  lemma HourLabelExamples()
    ensures ConvertHourTo12HourFormat(0) == "12am"
    ensures ConvertHourTo12HourFormat(12) == "12pm"
    ensures ConvertHourTo12HourFormat(13) == "1pm"
    ensures ConvertHourTo12HourFormat(35) == "11am"
  {
    assert Hour12(0) == 12 && Period(0) == "am";
    assert Hour12(12) == 12 && Period(12) == "pm";
    assert Hour12(13) == 1 && Period(13) == "pm";
    assert Hour12(35) == 11 && Period(35) == "am";
    assert NatToString(1) == "1";
    assert NatToString(12) == "12";
    assert NatToString(11) == "11";
  }
}
