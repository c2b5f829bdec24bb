# HomeServer front end: verified model of its UI state logic

This project models the state logic of the HomeServer web front end: the React/TypeScript client of a small home server that shows a gallery of photos, a photo-frame screen with a weather panel, and the shared UI plumbing these use. It is written in Dafny and every stated property is proved. The parts modelled are:

- **Toast queue.** The toast queue of `ToastProvider` keeps toasts newest first. Dismissing a toast happens in two phases: the toast is first marked as deleting, and a 300 ms removal timer later takes it out. Each toast also has a 3000 ms auto-dismiss timer and a click dispatch.
- **Popup host.** The host of `PopupProvider` holds one active popup at a time. It has a background-dismiss flag and a stored one-shot callback.
- **Weather forecast strip.** The strip in `weather-forecast-view.tsx` covers:
  - the `nextNItems` window;
  - the hours of the forecasts;
  - the icon tables for the WMO weather interpretation codes, by day and by night;
  - the 12-hour clock labels.
- **Weather panel helpers.** These come from `weather-panel.tsx`:
  - the peak chance of rain in the next eight hours;
  - the wording of the rain description;
  - the screen orientation.
- **Buttons.** The buttons in `button.tsx` cover:
  - the style of each variant;
  - the rotating loading text;
  - the cancellable delayed click;
  - `TimeoutButton`, with its countdown and its `m:ss` label.
- **Gallery page.** The page's photo selection is a `Set` of frame ids. The page also has the confirmation dialogs and their messages, and the long-press gate of a grid item.
- **Theme.** The theme of `ThemeProvider` covers resolving the stored theme and persisting it in local storage.

How the source's runtime pieces appear in the model:

- React state that the source updates in place becomes a Dafny `class` with `modifies` methods:
  - `ToastQueue`, `PopupHost` and `GalleryPage`;
  - `PhotoGridItem`, `TimeoutButton`, `DelayButton` and `ThemeState`.
- Pure helpers become functions with lemmas.
- JavaScript semantics that matter are written out in small modules:
  - `JsNumber`: `%` truncates toward zero, number-to-string, and parsing digits back;
  - `JsArray`: `slice` with negative positions, `indexOf`, `find`, `Math.max` and indexing past the end (`undefined`);
  - `JsSet`: a `Set` iterates in insertion order.
- Timers become explicit "timer fires" methods.
- The things the source reads from the environment become parameters:
  - the clock (`new Date().getHours()`);
  - `Math.random` toast ids;
  - the dark-mode preference;
  - the screen orientation type.
- Local storage is a `map<string, string>`.
- React nodes and callbacks are opaque values.

Behaviour worth noting:

- Dismissal callbacks on replacement:
  - `show` replaces the current popup without calling its `onDismiss`; only `dismiss` calls it (`PopupHost.Show`, `PopupHost.Dismiss`).
  - `NoBackgroundDismissScenario` exhibits this: the replaced popup's callback is dropped uncalled.
- Short arrays in `nextNItems`:
  - With fewer than `n` items, `arr.slice(arr.length - n, ...)` has a negative start, and JavaScript counts a negative start from the end (ECMA-262, section 23.1.3.28).
  - So the result is not all of `arr`; it is the suffix from `2 * |arr| - n`.
  - This is stated in `WeatherForecastView.NextNItemsShortArray`.
- An early click on `TimeoutButton` leaves an interval running for good; it is the second row under "## Findings". The model counts live intervals to capture it.

## Model

| member | source | states |
|---|---|---|
| ToastContext.Toast.Kind | homeserver-fe/src/hooks/ToastContext.tsx:17-43 | the discriminant `t` names exactly the variant, and so which fields the toast has |
| ToastContext.IsSet | homeserver-fe/src/hooks/ToastProvider.tsx:109 | an optional flag is on exactly when it is present and true; an absent flag reads as off |
| ToastProvider.MarkDeleting | homeserver-fe/src/hooks/ToastProvider.tsx:26-30 | marking keeps length, order, ids and kinds; a toast is deleting afterwards iff it was before or has the id; toasts with other ids are untouched and no other field changes |
| ToastProvider.RemoveId | homeserver-fe/src/hooks/ToastProvider.tsx:33-35 | a toast remains iff it was listed and its id differs; the list never grows |
| ToastProvider.RemoveIdDistributes | homeserver-fe/src/hooks/ToastProvider.tsx:34 | removal over a concatenation is the concatenation of removals, so the survivors keep their relative order |
| ToastProvider.RemoveIdIdempotent | homeserver-fe/src/hooks/ToastProvider.tsx:33-35 | a second removal timer for the same id changes nothing |
| ToastProvider.MarkDeletingIdempotent | homeserver-fe/src/hooks/ToastProvider.tsx:26-30 | marking the same id twice equals marking it once |
| ToastProvider.AutoDismissDelay | homeserver-fe/src/hooks/ToastProvider.tsx:108-115 | a rendered toast starts a dismiss timer iff `meta.userDismissed` is not set, and the delay is 3000 ms |
| ToastProvider.ProgressBarSeconds | homeserver-fe/src/hooks/ToastProvider.tsx:134 | a progress bar shows iff `meta.showProgress` is set, and it lasts as long as the auto-dismiss delay |
| ToastProvider.ClickHandlers | homeserver-fe/src/hooks/ToastProvider.tsx:119-170 | every click ends with the outer element's dismissal; a click on the body runs only that; the close button adds a second dismissal exactly on a message toast; an action button with an existing action of a message toast runs that action's callback before the dismissal, and otherwise only the dismissal |
| ToastProvider.ClickAlwaysDismisses | homeserver-fe/src/hooks/ToastProvider.tsx:131 | whatever part of a toast is clicked, at least one dismissal of it runs |
| ToastProvider.MessageOf | homeserver-fe/src/hooks/ToastProvider.tsx:46-74 | the helpers build a message toast with the given id, text and style, not deleting, without meta or actions |
| ToastProvider.ToastQueue.constructor | homeserver-fe/src/hooks/ToastProvider.tsx:22 | the queue starts empty with no removal scheduled |
| ToastProvider.ToastQueue.Push | homeserver-fe/src/hooks/ToastProvider.tsx:38-40 | the new toast goes in front of the others, nothing deduplicated; the marked-before-removal invariant is kept for an id not awaiting removal |
| ToastProvider.ToastQueue.Clear | homeserver-fe/src/hooks/ToastProvider.tsx:42-44 | the list empties at once while scheduled removal timers stay scheduled |
| ToastProvider.ToastQueue.Dismiss | homeserver-fe/src/hooks/ToastProvider.tsx:24-36 | the toasts with the id are marked and one removal timer for the id is scheduled; the invariant is preserved |
| ToastProvider.ToastQueue.RemovalTimerFires | homeserver-fe/src/hooks/ToastProvider.tsx:33-35 | the oldest removal timer filters its id out (nothing happens without one); every toast it removes had been marked deleting first |
| ToastProvider.ToastQueue.PushMessage | homeserver-fe/src/hooks/ToastProvider.tsx:46-74 | a fresh message toast goes in front; no removal is scheduled |
| ToastProvider.ToastQueue.Success | homeserver-fe/src/hooks/ToastProvider.tsx:56-64 | pushes a success message toast in front |
| ToastProvider.ToastQueue.Error | homeserver-fe/src/hooks/ToastProvider.tsx:46-54 | pushes an error message toast in front |
| ToastProvider.ToastQueue.Info | homeserver-fe/src/hooks/ToastProvider.tsx:66-74 | pushes an info message toast in front |
| ToastProvider.ToastQueue.AutoDismissTimerFires | homeserver-fe/src/hooks/ToastProvider.tsx:108-115 | the 3000 ms timer dismisses iff a toast with the id is listed without `userDismissed`; otherwise nothing changes |
| ToastProvider.ToastQueue.Click | homeserver-fe/src/hooks/ToastProvider.tsx:119-170 | a click marks the toast, schedules one removal per dismissal handler (two for a message's close button), and runs the clicked action's callback |
| ToastProvider.PushVia | homeserver-fe/src/hooks/ToastContext.tsx:53 | through a null context handle (outside a provider) a push does nothing; through a real one it pushes |
| PopupProvider.PopupHost.constructor | homeserver-fe/src/hooks/PopupProvider.tsx:8-10 | no popup, background dismissal on, no stored callback |
| PopupProvider.PopupHost.Show | homeserver-fe/src/hooks/PopupProvider.tsx:12-20 | the popup, the flag (default true) and the callback are replaced wholesale, and no callback runs |
| PopupProvider.PopupHost.Dismiss | homeserver-fe/src/hooks/PopupProvider.tsx:22-28 | the state resets to no popup with background dismissal on; the stored callback is cleared and run, so each `show`'s callback runs at most once and a second dismiss calls nothing |
| PopupProvider.PopupHost.MouseDown | homeserver-fe/src/hooks/PopupProvider.tsx:32-44 | a press dismisses iff a popup is shown, it lands on the backdrop and background dismissal is on; otherwise nothing changes |
| WeatherForecastView.TablesCoverWmoCodes | homeserver-fe/src/components/frame/weather-forecast-view.tsx:103-163 | the day and night tables cover exactly the same 28 WMO codes |
| WeatherForecastView.TablesAgreeFromDrizzleOn | homeserver-fe/src/components/frame/weather-forecast-view.tsx:103-163 | day and night icons differ only for clear, cloudy and fog codes; from drizzle (51) on they agree |
| WeatherForecastView.GetWeatherIcon | homeserver-fe/src/components/frame/weather-forecast-view.tsx:87-102 | a known code takes the day table iff sunrise <= hour < sunset and the night table otherwise; an unknown or missing code gives the cloudy default |
| WeatherForecastView.NextNItems | homeserver-fe/src/components/frame/weather-forecast-view.tsx:43-49 | the window never has more than `n` items, and exactly `n` whenever the array has at least `n` |
| WeatherForecastView.NextNItemsFits | homeserver-fe/src/components/frame/weather-forecast-view.tsx:43-49 | a window that fits is `arr[start..start+n]` |
| WeatherForecastView.NextNItemsFallsBackToTail | homeserver-fe/src/components/frame/weather-forecast-view.tsx:43-49 | a window running past the end falls back to the last `n` items and has length `n` |
| WeatherForecastView.NextNItemsShortArray | homeserver-fe/src/components/frame/weather-forecast-view.tsx:43-49 | with fewer than `n` items the result is the suffix from `2*length - n`, all of `arr` only when `n >= 2*length` |
| WeatherForecastView.StartHour | homeserver-fe/src/components/frame/weather-forecast-view.tsx:62 | the start hour is the smaller of the current hour and `24 - n` |
| WeatherForecastView.ForecastArr | homeserver-fe/src/components/frame/weather-forecast-view.tsx:64-75 | the strip has exactly `n` forecasts |
| WeatherForecastView.MakeForeCastArr | homeserver-fe/src/components/frame/weather-forecast-view.tsx:51-76 | the loop pushes exactly the strip `ForecastArr` describes |
| WeatherForecastView.ForecastHours | homeserver-fe/src/components/frame/weather-forecast-view.tsx:62-70 | the hours are consecutive from `min(currentHour, 24 - n)`, and stay within 0..23 for an hour of the day and 1 <= n <= 24 |
| WeatherForecastView.WindowAtStartHour | homeserver-fe/src/components/frame/weather-forecast-view.tsx:43-62 | with 24 hourly entries the window `nextNItems` picks starts exactly at `startHour` |
| WeatherForecastView.ForecastMatchesItsHour | homeserver-fe/src/components/frame/weather-forecast-view.tsx:59-71 | with 24 hourly entries, each forecast shows the temperature and code of the entry for its own hour |
| WeatherForecastView.ForecastIconsUseCurrentHour | homeserver-fe/src/components/frame/weather-forecast-view.tsx:66-67 | every icon of the strip is chosen by the current hour, not by the hour it forecasts |
| WeatherForecastView.Hour12 | homeserver-fe/src/components/frame/weather-forecast-view.tsx:78-82 | for a non-negative hour the 12-hour number is between 1 and 12 |
| WeatherForecastView.ConvertHourTo12HourFormat | homeserver-fe/src/components/frame/weather-forecast-view.tsx:78-83 | for a non-negative hour the label, read back as a number and "am" or "pm", gives the hour of the day |
| WeatherForecastView.HourLabelShape | homeserver-fe/src/components/frame/weather-forecast-view.tsx:78-83 | the label depends only on the hour mod 24, shows 1..12, and says "pm" iff the hour mod 24 is at least 12 |
| WeatherForecastView.HourLabelRoundTrip | homeserver-fe/src/components/frame/weather-forecast-view.tsx:78-83 | the 12-hour number and the period together give back the hour of the day |
| WeatherForecastView.HourLabelExamples | homeserver-fe/src/components/frame/weather-forecast-view.tsx:78-83 | 0 is "12am", 12 is "12pm", 13 is "1pm", 35 is "11am" |
| WeatherPanel.PeakOf | homeserver-fe/src/components/frame/weather-panel.tsx:245-247 | `max`, then `find`, then `indexOf` yields the window's maximum at its first position, even for a maximum of 0 |
| WeatherPanel.CalcPrecProb | homeserver-fe/src/components/frame/weather-panel.tsx:238-248 | an empty window (starting past the data or zero hours long) gives index 0, value 0; otherwise the value is the window maximum, found at the index, which is the first position of the maximum within `[start, min(start + window length, data length))` |
| WeatherPanel.WindowPeak | homeserver-fe/src/components/frame/weather-panel.tsx:242-247 | the peak of the subsequence `arr[lo..hi]`, moved by `lo`, is the first maximum of that range of `arr` |
| WeatherPanel.Pluralize | homeserver-fe/src/components/frame/weather-panel.tsx:250-252 | the singular form exactly for a count of 1 |
| WeatherPanel.RainDescription | homeserver-fe/src/components/frame/weather-panel.tsx:187-189 | for a distance of k >= 0 hours the text is "in next ", k in decimal, a space, and "hour" exactly for k = 1, "hours" otherwise; for a negative distance it is "in next -", the magnitude and " hours" |
| WeatherPanel.RainReportOf | homeserver-fe/src/components/frame/weather-panel.tsx:180-196 | the prediction is a number followed by "%" and the description starts with "in next " |
| WeatherPanel.RainPredictionIsPeak | homeserver-fe/src/components/frame/weather-panel.tsx:180-196 | with data from the current hour on, the prediction is the first maximum of the next eight hours of data followed by "%" |
| WeatherPanel.RainReportWording | homeserver-fe/src/components/frame/weather-panel.tsx:180-196 | with data from the current hour on, the description names the peak's distance k, with 0 <= k < 8, and says "hour" exactly for k = 1 |
| WeatherPanel.RainReportWithoutData | homeserver-fe/src/components/frame/weather-panel.tsx:180-196 | with no data from the current hour on, the panel shows "0%" and "in next -h hours" for the current hour h, or "in next 0 hours" at midnight |
| WeatherPanel.RainHourOffsetRange | homeserver-fe/src/components/frame/weather-panel.tsx:180-189 | with data from the current hour on, the rain peak is 0..7 hours away and within the data; with none the offset is `-currentHour` |
| WeatherPanel.DetermineOrientation | homeserver-fe/src/components/frame/weather-panel.tsx:90-93 | portrait iff the orientation type starts with "portrait" |
| WeatherPanel.OrientationTypes | homeserver-fe/src/components/frame/weather-panel.tsx:90-93 | the two portrait types give portrait and the two landscape types give landscape |
| Button.GetButtonStyles | homeserver-fe/src/components/common/button.tsx:33-57 | every style starts with the base styles and a space, followed by the variant's colours |
| Button.DisabledUsesDefaultStyle | homeserver-fe/src/components/common/button.tsx:33-57 | `disabled` and no variant give the same string, whose colour part is the default primary colours |
| Button.InitialLoadingText | homeserver-fe/src/components/common/button.tsx:86-92 | a non-empty `loadingText` wins; else the first loading text (`undefined` for an empty list); else the empty string |
| Button.RotationPeriodMs | homeserver-fe/src/components/common/button.tsx:95-106 | the rotation runs iff there are loading texts and a non-zero interval, with period interval * 1000 ms |
| Button.LoadingIndex | homeserver-fe/src/components/common/button.tsx:102 | the first position of the current text, or -1 exactly when it is not among the texts |
| Button.NextLoadingText | homeserver-fe/src/components/common/button.tsx:101-105 | whenever the step shows a text, it is one of the loading texts |
| Button.NextLoadingTextNeverWraps | homeserver-fe/src/components/common/button.tsx:101-105 | as written, the step goes one text on and shows nothing after the last text; after nothing it starts again at the first; with one text it never moves |
| Button.NextLoadingTextBlankStep | homeserver-fe/src/components/common/button.tsx:103 | after "Almost done", the last of two texts, the button shows no text |
| Button.NextLoadingTextCorrected | homeserver-fe/src/components/common/button.tsx:103 | the corrected step always shows one of the texts: the next one, or the first after the last or after an unknown text |
| Button.RotateForward | homeserver-fe/src/components/common/button.tsx:100-106 | for texts without repeats, j corrected steps from text k show text k + j before the end |
| Button.RotateWrapsAround | homeserver-fe/src/components/common/button.tsx:100-106 | the corrected rotation goes from the last text back to the first |
| Button.CorrectedRotationCycles | homeserver-fe/src/components/common/button.tsx:100-106 | the corrected rotation returns to its starting text after exactly as many steps as there are texts |
| Button.DelayButton.constructor | homeserver-fe/src/components/common/button.tsx:87-93 | no cover, no interval, no click yet |
| Button.DelayButton.Click | homeserver-fe/src/components/common/button.tsx:119-136 | no `onClick`: nothing; partial delay props: `onClick` runs at once; full delay props: the cover toggles, arming the interval or cancelling it, and `onClick` does not run yet |
| Button.DelayButton.CleanupDelay | homeserver-fe/src/components/common/button.tsx:138-142 | the interval is cleared and the cover hidden |
| Button.DelayButton.DelayElapsed | homeserver-fe/src/components/common/button.tsx:131-134 | an armed interval runs `onClick` once and cleans up; a cancelled one never runs it |
| Button.Countdown | homeserver-fe/src/components/common/button.tsx:235-244 | from a time left within the timeout, a tick stays within 1..timeout, and it reaches the timeout exactly when the time left was 1 or below; otherwise it is one less |
| Button.CountdownReachesTimeout | homeserver-fe/src/components/common/button.tsx:235-244 | from t seconds, ticks 1..t-1 count down by one each, and tick t resets to the timeout |
| Button.ClickableAgainAfterTimeoutTicks | homeserver-fe/src/components/common/button.tsx:233-259 | after a click at the full timeout T, the button is back at T after exactly T ticks and after no fewer |
| Button.TwoDigitSeconds | homeserver-fe/src/components/common/button.tsx:248-252 | the seconds part is always two digits whose value is the seconds |
| Button.FormatTime | homeserver-fe/src/components/common/button.tsx:248-252 | reading the `m:ss` label back as `m * 60 + ss` gives exactly the time left |
| Button.TimeoutButton.constructor | homeserver-fe/src/components/common/button.tsx:217-231 | the timeout is `buttonTimeout ?? 120`, the countdown is full, and the interval starts on mount iff `clickableByDefault` is not true |
| Button.TimeoutButton.StartTimer | homeserver-fe/src/components/common/button.tsx:233-246 | one more live interval, held by the ref |
| Button.TimeoutButton.Clickable | homeserver-fe/src/components/common/button.tsx:254-271 | in a valid state the button accepts clicks and shows its children exactly when the countdown is back at the full timeout |
| Button.TimeoutButton.FormattedTime | homeserver-fe/src/components/common/button.tsx:248-271 | the label shown while disabled reads back as exactly the time left |
| Button.TimeoutButton.Tick | homeserver-fe/src/components/common/button.tsx:235-245 | a live interval applies the countdown; at 1 or below it clears the referenced interval; time left stays in [1, T] and a single timer stays single |
| Button.TimeoutButton.Click | homeserver-fe/src/components/common/button.tsx:254-259 | `onClick` runs and a timer starts iff the time left is the full timeout and there is an `onClick`; otherwise nothing changes |
| Button.TimeoutButton.StartTimerCorrected | homeserver-fe/src/components/common/button.tsx:233-246 | corrected: the referenced interval is cleared before the new one starts, so a single timer stays single |
| Button.TimeoutButton.ClickCorrected | homeserver-fe/src/components/common/button.tsx:254-259 | corrected: the same clicks run `onClick`, and from a single timer a click leaves at most one interval running |
| Button.TimeoutButton.Unmount | homeserver-fe/src/components/common/button.tsx:225-230 | the referenced interval is cleared |
| Button.ClickAndWait | homeserver-fe/src/components/common/button.tsx:233-259 | an idle button clicked and then ticked T times has run `onClick` once and is idle and clickable again |
| Button.EarlyClickScenario | homeserver-fe/src/components/common/button.tsx:221-259 | as written, a click in the first second after mount leaves an unreferenced interval running for good, and the button is disabled again after the reset |
| Button.EarlyClickScenarioCorrected | homeserver-fe/src/components/common/button.tsx:221-259 | with the corrected click the same sequence ends clickable with no interval running |
| Gallery.PhotoCountShape | homeserver-fe/src/routes/gallery/index.tsx:210 | the phrase starts with the count in decimal, which reads back exactly, and ends in "photos" iff the count is above one |
| Gallery.CountMessageShape | homeserver-fe/src/routes/gallery/index.tsx:210 | a dialog message names the count right after its prefix and ends "s?" iff the count is above one |
| Gallery.BatchDeleteMessage | homeserver-fe/src/routes/gallery/index.tsx:206-210 | the batch-delete message starts with its fixed wording, the digits that follow read back as the count, and it ends in "photos?" exactly when the count is above one |
| Gallery.UploadMessage | homeserver-fe/src/routes/gallery/index.tsx:55 | the upload message starts with its fixed wording, the digits that follow read back as the file count, and it ends in "photos?" exactly when the count is above one |
| Gallery.UploadConfirmation | homeserver-fe/src/routes/gallery/index.tsx:48-62 | the upload dialog appears iff at least one file was chosen, with the upload message for that many files |
| Gallery.Toggled | homeserver-fe/src/routes/gallery/index.tsx:189-199 | the toggled id is selected afterwards iff it was not before; no other id changes; still no repeats |
| Gallery.ToggleTwice | homeserver-fe/src/routes/gallery/index.tsx:189-199 | toggling twice restores the members, and the exact order when the id was not selected |
| Gallery.GalleryPage.constructor | homeserver-fe/src/routes/gallery/index.tsx:150-151 | nothing selected, not in selection mode |
| Gallery.GalleryPage.ToggleSelection | homeserver-fe/src/routes/gallery/index.tsx:189-199 | adds the id if absent, removes it if present, and touches no other id |
| Gallery.GalleryPage.HandleLongPress | homeserver-fe/src/routes/gallery/index.tsx:181-187 | the id is selected and selection mode is on; no other id changes; repeating it changes nothing |
| Gallery.GalleryPage.CancelSelection | homeserver-fe/src/routes/gallery/index.tsx:201-203 | the selection empties and selection mode turns off |
| Gallery.GalleryPage.HandleImageClick | homeserver-fe/src/routes/gallery/index.tsx:173-179 | while selecting, the click toggles the id and opens no popup; otherwise it opens the photo popup and leaves the selection unchanged |
| Gallery.GalleryPage.HandleBatchDelete | homeserver-fe/src/routes/gallery/index.tsx:205-218 | the dialog names the selected count, is destructive, and sends exactly the selected ids in insertion order |
| Gallery.GalleryPage.BatchDeleteSettled | homeserver-fe/src/routes/gallery/index.tsx:159-171 | on success the frames refetch, the dialog closes, a success toast shows and the selection clears; on failure only an error toast shows |
| Gallery.PhotoGridItem.constructor | homeserver-fe/src/routes/gallery/index.tsx:298-299 | no long press, no timer |
| Gallery.PhotoGridItem.PressStart | homeserver-fe/src/routes/gallery/index.tsx:301-307 | resets the long-press flag and schedules one more 500 ms timeout, held by the ref |
| Gallery.PhotoGridItem.PressEnd | homeserver-fe/src/routes/gallery/index.tsx:309-313 | clears the referenced timeout if still pending; the flag is untouched |
| Gallery.PhotoGridItem.LongPressTimerFires | homeserver-fe/src/routes/gallery/index.tsx:303-306 | a pending timeout fires `onLongPress` and sets the flag; with none pending nothing happens |
| Gallery.PhotoGridItem.Click | homeserver-fe/src/routes/gallery/index.tsx:315-319 | `onClick` runs iff the long press has not fired |
| ThemeProvider.ParseTheme | homeserver-fe/src/hooks/ThemeProvider.tsx:52-55 | a string is accepted iff it is "light", "dark" or "system", and then it is that theme's name |
| ThemeProvider.ParseThemeName | homeserver-fe/src/hooks/ThemeProvider.tsx:50-56 | every theme's stored name is accepted as that theme |
| ThemeProvider.RetrieveLocalTheme | homeserver-fe/src/hooks/ThemeProvider.tsx:50-56 | a valid stored name is returned unchanged; a missing or invalid value gives `system` |
| ThemeProvider.SetLocalTheme | homeserver-fe/src/hooks/ThemeProvider.tsx:58-60 | the `theme` key holds the theme's name and every other key is untouched |
| ThemeProvider.RetrieveAfterSet | homeserver-fe/src/hooks/ThemeProvider.tsx:50-60 | a stored theme reads back as the same theme, whatever else the store holds |
| ThemeProvider.ResolveTheme | homeserver-fe/src/hooks/ThemeProvider.tsx:43-48 | the result is dark iff the theme is dark, or is system with a dark preference; an explicit theme resolves to itself |
| ThemeProvider.ThemeState.IsDark | homeserver-fe/src/hooks/ThemeProvider.tsx:31-32 | the wrapper is dark exactly when the theme is dark, or is system with a dark preference |
| ThemeProvider.ThemeState.constructor | homeserver-fe/src/hooks/ThemeProvider.tsx:9 | the state starts as what the store holds |
| ThemeProvider.ThemeState.SwitchTheme | homeserver-fe/src/hooks/ThemeProvider.tsx:24-27 | state and store both hold the new theme, so a later read of the store returns it; state and store stay in agreement |
| ThemeProvider.ThemeState.PreferenceChanged | homeserver-fe/src/hooks/ThemeProvider.tsx:14-18 | the reload on a preference change reads the same theme back from the store |

## Left out

- Rendering is not modelled: markup, class names other than the button styles, animations and the progress-bar and delay-cover widths are not represented.
- I/O is represented by parameters or effects:
  - the HTTP calls (`API_CLIENT` and the react-query queries and mutations) are outcomes passed in or effects returned;
  - of `fetchWeather` only the rain strings it assembles are modelled (`WeatherPanel.RainReportOf`); the request, the Open-Meteo decoding and the weather panel's refresh loop are not;
  - `photo-frame.tsx` is not modelled: it involves randomness, a wake lock and video playback.
- Floating-point values are whole numbers in the model:
  - temperatures and probabilities are integers;
  - the button props `buttonTimeout`, `delaySeconds` and `loadingTextInterval` are JavaScript numbers that may be fractional or negative; the model takes `buttonTimeout` as a natural number and the other two as integers;
  - `Math.round` does not appear, and a temperature read past its window is `None` rather than `NaN`.
- The clock is split: the source reads the current hour twice, once in `makeForeCastArr` and once in `getWeatherIcon`. The model uses one current hour for both.
- Timer identity is abstracted:
  - timers are counted, not identified;
  - `TimeoutButton.Tick` fires "one live interval" without saying which;
  - `PhotoGridItem` timeouts fire oldest first.
- ToastProvider.ToastQueue.AutoDismissTimerFires: does not model the timer restarting when the toast re-renders. The effect's dependencies include the `onDismiss` function, which is recreated on each render, so the real delay can exceed 3000 ms. The model says only whether a timer exists.
- `meta.showConfetti` is carried in the toast data but has no effect, as in the source.
- React nodes are opaque: a popup node is always present once shown, so a falsy node (`0`, `""`), for which the backdrop would not render, is not modelled.
- Callbacks are recorded, not executed: a callback that calls back into the provider (re-entrancy) is not modelled.
- Gallery mutations are left out:
  - the single-photo delete in `PhotoViewDialog` and the upload mutation are not modelled beyond their confirmation message;
  - the `isPending` loading flags of the dialogs are not modelled.
- The `BackButton` and `ClosePopupButton` wrappers are not modelled. They only forward to router navigation and to `PopupHost.Dismiss`.
- The `loading` state of a button is not modelled. It renders a disabled button without an `onClick`.

## Findings

| source | as written | input that shows it | evidently intended | confidence | as-written member | corrected member |
|---|---|---|---|---|---|---|
| homeserver-fe/src/components/common/button.tsx:103 | `oldIdx + (1 % loadingTexts.length)`: the parentheses enclose only `1 % length`, so the remainder is taken of 1 and the index is never wrapped | `loadingTexts = ["Saving", "Almost done"]` while "Almost done" shows: the next text is `undefined` and the button shows no text; with a single text it never changes | `(oldIdx + 1) % loadingTexts.length`, cycling through the texts | not executed | Button.NextLoadingTextBlankStep | Button.CorrectedRotationCycles |
| homeserver-fe/src/components/common/button.tsx:221-259 | without `clickableByDefault` the countdown starts on mount, but the time left equals the timeout until the first tick, so a click in that second calls `startTimer` again; it overwrites `intervalRef` without clearing the interval it held | `buttonTimeout = 2`, no `clickableByDefault`, a click right after mount: two intervals run; the reset clears only the referenced one, and the other keeps counting down, so the button is disabled again one second after every reset | `startTimer` clears the interval `intervalRef` holds before starting a new one, so at most one interval runs | not executed | Button.EarlyClickScenario | Button.TimeoutButton.ClickCorrected |
