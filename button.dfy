/** The buttons of `components/common/button.tsx`: the style chosen by
    variant, the rotating loading text, the delayed (cancellable) click, and
    `TimeoutButton`, which after a click stays disabled for a countdown.
    Interval expiries are explicit methods; `onClick` is represented by
    counting its invocations. */
module Button {
  import opened Wrappers
  import opened JsArray
  import opened JsNumber
  import opened JsSet

  // ---------------------------------------------------------------- styles

  datatype ButtonVariant =
    | Primary | Tonal | Disabled | Error | Outlined | ErrorOutlined | Transparent | ErrorTransparent | Subtle

  const BASE_STYLES: string :=
    "flex flex-row gap-2 rounded-3xl py-1 px-3 items-center active:scale-95 cursor-pointer hover:drop-shadow-sm shadow-primary/20"

  /** The colour classes of each variant; a variant without a case of its
      own (`disabled`, or none at all) gets the default colours. */
  function VariantColours(form: Option<ButtonVariant>): string {
    match form
    case Some(Primary) => "bg-primary-container text-on-primary-container"
    case Some(Tonal) => "bg-secondary-container text-on-secondary-container"
    case Some(Error) => "bg-error/10  text-on-error-container"
    case Some(ErrorOutlined) => "bg-transparent border border-error text-error"
    case Some(Outlined) => "bg-transparent border border-outline"
    case Some(Transparent) => "bg-transparent text-on-background hover:text-primary active:text-primary"
    case Some(ErrorTransparent) => "bg-transparent text-error hover:bg-error/10 active:bg-error/10"
    case Some(Subtle) => "bg-transparent hover:bg-on-background/10 active:bg-on-background/10"
    case _ => "bg-primary text-on-primary"
  }

  /** `getButtonStyles`: the base styles, a space, the variant's colours. */
  function GetButtonStyles(form: Option<ButtonVariant>): (s: string)
    ensures BASE_STYLES + " " <= s
    ensures s[|BASE_STYLES| + 1..] == VariantColours(form)
  {
    BASE_STYLES + " " + VariantColours(form)
  }

  /** `disabled` is styled exactly like a button without a variant: the
      base styles and the primary colours. */
  lemma DisabledUsesDefaultStyle()
    ensures GetButtonStyles(Some(Disabled)) == GetButtonStyles(None)
    ensures GetButtonStyles(None)[|BASE_STYLES| + 1..] == "bg-primary text-on-primary"
  {
    assert VariantColours(Some(Disabled)) == VariantColours(None);
  }

  // ---------------------------------------------------------- loading text

  /** The initial `lText`: a non-empty `loadingText`, else the first of
      `loadingTexts` (`undefined` for an empty list), else the empty string. */
  function InitialLoadingText(loadingText: Option<string>, loadingTexts: Option<seq<string>>): (r: Option<string>)
    ensures loadingText.Some? && loadingText.value != "" ==> r == loadingText
    ensures (loadingText.None? || loadingText.value == "") && loadingTexts.Some? && |loadingTexts.value| > 0 ==>
              r == Some(loadingTexts.value[0])
    ensures (loadingText.None? || loadingText.value == "") && loadingTexts == Some([]) ==> r.None?
    ensures (loadingText.None? || loadingText.value == "") && loadingTexts.None? ==> r == Some("")
  {
    if loadingText.Some? && loadingText.value != "" then loadingText
    else if loadingTexts.Some? then At(loadingTexts.value, 0)
    else Some("")
  }

  /** The rotation interval is installed only with a non-empty list of texts
      and a non-zero interval (in seconds). */
  predicate RotationStarts(loadingTexts: Option<seq<string>>, loadingTextInterval: Option<int>) {
    loadingTexts.Some? && loadingTextInterval.Some? && loadingTextInterval.value != 0 &&
    |loadingTexts.value| != 0
  }

  /** The rotation period in milliseconds, when the rotation runs. */
  function RotationPeriodMs(loadingTexts: Option<seq<string>>, loadingTextInterval: Option<int>): (ms: Option<int>)
    ensures ms.Some? <==> RotationStarts(loadingTexts, loadingTextInterval)
    ensures ms.Some? ==> ms.value == loadingTextInterval.value * 1000 && ms.value != 0
  {
    if RotationStarts(loadingTexts, loadingTextInterval) then Some(loadingTextInterval.value * 1000) else None
  }

  /** `loadingTexts.indexOf(prev)`: the first position of the text; an
      `undefined` text is found nowhere. */
  function LoadingIndex(texts: seq<string>, prev: Option<string>): (k: int)
    ensures -1 <= k < |texts|
    ensures k >= 0 ==> prev == Some(texts[k])
    ensures k >= 0 ==> forall j :: 0 <= j < k ==> texts[j] != texts[k]
    ensures k == -1 ==> prev.None? || prev.value !in texts
  {
    if prev.None? then -1 else IndexOf(texts, prev.value)
  }

  /** One step of the rotation as written: `oldIdx + (1 % loadingTexts.length)`.
      The remainder binds first, so the index is never wrapped. */
  function NextLoadingText(texts: seq<string>, prev: Option<string>): (r: Option<string>)
    requires |texts| > 0
    ensures r.Some? ==> r.value in texts
  {
    At(texts, LoadingIndex(texts, prev) + Rem(1, |texts|))
  }

  /** As written, with two or more texts the step moves one place on and
      runs off the end after the last text (showing `undefined`); from
      there the next step starts again at the first text. With a single
      text it never moves, and after `undefined` it stays `undefined`. */
  lemma NextLoadingTextNeverWraps(texts: seq<string>, prev: Option<string>)
    requires |texts| > 0
    ensures |texts| >= 2 ==> NextLoadingText(texts, prev) == At(texts, LoadingIndex(texts, prev) + 1)
    ensures |texts| >= 2 && LoadingIndex(texts, prev) == |texts| - 1 ==> NextLoadingText(texts, prev).None?
    ensures |texts| >= 2 && prev.None? ==> NextLoadingText(texts, prev) == Some(texts[0])
    ensures |texts| == 1 ==> NextLoadingText(texts, prev) == (if prev == Some(texts[0]) then prev else None)
  {
    if |texts| >= 2 {
      RemOfSmaller(1, |texts|);
    } else {
      RemOfSelf(1);
    }
  }

  /** The input that shows it: after the last of two texts the button shows
      no text at all. */
  lemma NextLoadingTextBlankStep()
    ensures NextLoadingText(["Saving", "Almost done"], Some("Almost done")).None?
  {
    var texts := ["Saving", "Almost done"];
    assert texts[0] != "Almost done" by { assert texts[0][0] != "Almost done"[0]; }
    assert texts[1..] == ["Almost done"];
    assert IndexOf(texts, "Almost done") == 1;
  }

  /** The evidently intended step, `(oldIdx + 1) % loadingTexts.length`:
      the text after `texts[k]` is `texts[k + 1]`, the last text is followed
      by the first, and so is a text not in the list. */
  function NextLoadingTextCorrected(texts: seq<string>, prev: Option<string>): (r: Option<string>)
    requires |texts| > 0
    ensures r.Some? && r.value in texts
    ensures LoadingIndex(texts, prev) == -1 ==> r == Some(texts[0])
    ensures 0 <= LoadingIndex(texts, prev) < |texts| - 1 ==> r == Some(texts[LoadingIndex(texts, prev) + 1])
    ensures LoadingIndex(texts, prev) == |texts| - 1 ==> r == Some(texts[0])
  {
    var k := LoadingIndex(texts, prev) + 1;
    if k < |texts| then RemOfSmaller(k, |texts|); At(texts, k % |texts|)
    else RemOfSelf(|texts|); At(texts, k % |texts|)
  }

  /** `steps` corrected rotation steps. */
  function RotateCorrected(texts: seq<string>, prev: Option<string>, steps: nat): Option<string>
    requires |texts| > 0
    decreases steps
  {
    if steps == 0 then prev else RotateCorrected(texts, NextLoadingTextCorrected(texts, prev), steps - 1)
  }

  /** In a list without repeats, each text is found at its own position. */
  lemma LoadingIndexDistinct(texts: seq<string>, k: nat)
    requires Distinct(texts) && k < |texts|
    ensures LoadingIndex(texts, Some(texts[k])) == k
  {
  }

  lemma {:induction false} RotateSplit(texts: seq<string>, prev: Option<string>, a: nat, b: nat)
    requires |texts| > 0
    ensures RotateCorrected(texts, prev, a + b) == RotateCorrected(texts, RotateCorrected(texts, prev, a), b)
    decreases a
  {
    if a > 0 {
      RotateSplit(texts, NextLoadingTextCorrected(texts, prev), a - 1, b);
    }
  }

  /** Before the end of the list, each step moves one text on. */
  lemma {:induction false} RotateForward(texts: seq<string>, k: nat, j: nat)
    requires Distinct(texts) && k + j < |texts|
    ensures RotateCorrected(texts, Some(texts[k]), j) == Some(texts[k + j])
    decreases j
  {
    if j > 0 {
      LoadingIndexDistinct(texts, k);
      var next := NextLoadingTextCorrected(texts, Some(texts[k]));
      assert next == Some(texts[k + 1]);
      assert RotateCorrected(texts, Some(texts[k]), j) == RotateCorrected(texts, next, j - 1);
      RotateForward(texts, k + 1, j - 1);
    }
  }

  /** After the last text the corrected rotation goes back to the first. */
  lemma {:induction false} RotateWrapsAround(texts: seq<string>, k: nat)
    requires Distinct(texts) && k < |texts|
    ensures RotateCorrected(texts, Some(texts[k]), |texts| - k) == Some(texts[0])
  {
    var n := |texts|;
    var m: nat := n - 1 - k;
    RotateForward(texts, k, m);
    assert k + m == n - 1;
    var before := RotateCorrected(texts, Some(texts[k]), m);
    assert before == Some(texts[n - 1]);
    LoadingIndexDistinct(texts, n - 1);
    var last := NextLoadingTextCorrected(texts, before);
    assert last == Some(texts[0]);
    assert RotateCorrected(texts, before, 1) == last;
    RotateSplit(texts, Some(texts[k]), m, 1);
  }

  /** So the corrected rotation cycles through all texts: after exactly
      `|texts|` steps it shows the text it started from. */
  lemma {:induction false} CorrectedRotationCycles(texts: seq<string>, k: nat)
    requires Distinct(texts) && k < |texts|
    ensures RotateCorrected(texts, Some(texts[k]), |texts|) == Some(texts[k])
  {
    RotateWrapsAround(texts, k);
    RotateSplit(texts, Some(texts[k]), |texts| - k, k);
    RotateForward(texts, 0, k);
  }

  // --------------------------------------------------------- delayed click

  /** The delay props; each may be absent. */
  datatype DelayConfig = DelayConfig(delay: Option<bool>, delaySeconds: Option<int>, delayText: Option<string>)

  /** `delay && delaySeconds && delayText` are all truthy. */
  predicate FullDelay(c: DelayConfig) {
    c.delay == Some(true) && c.delaySeconds.Some? && c.delaySeconds.value != 0 &&
    c.delayText.Some? && c.delayText.value != ""
  }

  /** A button whose click may be delayed behind a cancellable cover. */
  class DelayButton {
    const config: DelayConfig
    const hasOnClick: bool
    /** The `showDelayCover` state. */
    var showDelayCover: bool
    /** `delayInterval.current` holds a live interval. */
    var intervalArmed: bool
    /** How many times `onClick` has run. */
    var clicks: nat

    ghost predicate Valid()
      reads this
    {
      showDelayCover == intervalArmed
    }

    constructor (config: DelayConfig, hasOnClick: bool)
      ensures Valid()
      ensures this.config == config && this.hasOnClick == hasOnClick
      ensures !showDelayCover && !intervalArmed && clicks == 0
    {
      this.config := config;
      this.hasOnClick := hasOnClick;
      showDelayCover := false;
      intervalArmed := false;
      clicks := 0;
    }

    /** `handleDelayClick`: without an `onClick` nothing happens; without
        full delay props `onClick` runs at once; otherwise the click shows
        the cover and arms the interval, or cancels a pending one. (A
        button without `delay` is rendered with `onClick` itself, which has
        the same effect.) */
    method Click()
      requires Valid()
      modifies this
      ensures Valid()
      ensures !hasOnClick ==> showDelayCover == old(showDelayCover) && clicks == old(clicks)
      ensures hasOnClick && !FullDelay(config) ==>
                clicks == old(clicks) + 1 && showDelayCover == old(showDelayCover)
      ensures hasOnClick && FullDelay(config) ==>
                clicks == old(clicks) && showDelayCover == !old(showDelayCover)
    {
      if !hasOnClick {
        return;
      }
      if !FullDelay(config) {
        clicks := clicks + 1;
        return;
      }
      if showDelayCover {
        CleanupDelay();
      } else {
        showDelayCover := true;
        intervalArmed := true;
      }
    }

    /** `cleanupDelay`: the interval is cleared and the cover hidden. */
    method CleanupDelay()
      modifies this
      ensures !showDelayCover && !intervalArmed && clicks == old(clicks)
    {
      intervalArmed := false;
      showDelayCover := false;
    }

    /** The delay interval fires: `onClick` runs once and the delay is
        cleaned up. A cleared interval never fires. */
    method DelayElapsed()
      requires Valid()
      modifies this
      ensures Valid()
      ensures old(intervalArmed) ==> clicks == old(clicks) + 1 && !showDelayCover
      ensures !old(intervalArmed) ==> clicks == old(clicks) && showDelayCover == old(showDelayCover)
    {
      if intervalArmed {
        clicks := clicks + 1;
        CleanupDelay();
      }
    }
  }

  /** A second click while the cover shows cancels the delayed click: the
      interval is gone and `onClick` never runs. */
  method CancelledDelayScenario(seconds: int, text: string)
    requires seconds != 0 && text != ""
  {
    var b := new DelayButton(DelayConfig(Some(true), Some(seconds), Some(text)), true);
    b.Click();
    assert b.showDelayCover;
    b.Click();
    b.DelayElapsed();
    assert b.clicks == 0 && !b.showDelayCover;
  }

  // -------------------------------------------------------- timeout button

  /** `DEFAULT_BUTTON_TIMEOUT`: two minutes, in seconds. */
  const DEFAULT_BUTTON_TIMEOUT: nat := 2 * 60

  /** One tick of the countdown: at 1 or below it resets to the timeout;
      otherwise it counts down by one second. */
  function Countdown(timeLeft: nat, timeout: nat): (r: nat)
    ensures 1 <= timeout && timeLeft <= timeout ==> 1 <= r <= timeout
    ensures timeLeft <= timeout ==> (r == timeout <==> timeLeft <= 1)
    ensures r == timeout || r == timeLeft - 1
  {
    if timeLeft <= 1 then timeout else timeLeft - 1
  }

  /** The countdown after `k` ticks. */
  function CountdownAfter(timeLeft: nat, timeout: nat, k: nat): nat
    decreases k
  {
    if k == 0 then timeLeft else CountdownAfter(Countdown(timeLeft, timeout), timeout, k - 1)
  }

  /** From `t` seconds left, the first `t - 1` ticks count down and tick
      number `t` resets to the timeout. */
  lemma {:induction false} CountdownReachesTimeout(t: nat, timeout: nat, k: nat)
    requires 1 <= t && k <= t
    ensures k < t ==> CountdownAfter(t, timeout, k) == t - k
    ensures k == t ==> CountdownAfter(t, timeout, k) == timeout
  {
    if k > 0 {
      if t == 1 {
        assert CountdownAfter(timeout, timeout, 0) == timeout;
      } else {
        CountdownReachesTimeout(t - 1, timeout, k - 1);
      }
    }
  }

  /** After a click at the full timeout `T`, the button is
      clickable again after exactly `T` ticks, and after no fewer. */
  lemma ClickableAgainAfterTimeoutTicks(timeout: nat, k: nat)
    requires 1 <= timeout && 1 <= k <= timeout
    ensures (CountdownAfter(timeout, timeout, k) == timeout) <==> k == timeout
  {
    CountdownReachesTimeout(timeout, timeout, k);
  }

  /** `formatedTime`: minutes, a colon, and the seconds padded to two
      digits. The label shows exactly the time left: reading it back as
      minutes and two-digit seconds gives `timeLeft` again. */
  function FormatTime(timeLeft: nat): (shown: string)
    ensures ParseTime(shown) == Some(timeLeft)
  {
    var minutes := timeLeft / 60;
    var remainingSeconds := timeLeft % 60;
    var ss := (if remainingSeconds < 10 then "0" else "") + NatToString(remainingSeconds);
    assert timeLeft == minutes * 60 + remainingSeconds;
    TwoDigitSeconds(remainingSeconds);
    ParseTimeOfLabel(minutes, remainingSeconds, ss);
    NatToString(minutes) + ":" + ss
  }

  /** Reads an `m:ss` label back into seconds. */
  function ParseTime(s: string): Option<nat> {
    var colon := IndexOf(s, ':');
    if colon < 0 then None
    else
      var minutes := ParseNat(s[..colon]);
      var seconds := s[colon + 1..];
      if minutes.Some? && |seconds| == 2 && AllDigits(seconds) && DigitsValue(seconds) < 60
      then Some(minutes.value * 60 + DigitsValue(seconds))
      else None
  }

  /** The seconds part is always two digits. */
  lemma TwoDigitSeconds(ss: nat)
    requires ss < 60
    ensures var s := (if ss < 10 then "0" else "") + NatToString(ss);
            |s| == 2 && AllDigits(s) && DigitsValue(s) == ss
  {
    DigitsValueOfNatToString(ss);
    if ss < 10 {
      var s := "0" + NatToString(ss);
      assert NatToString(ss) == [DigitChar(ss)];
      assert s[..1] == "0";
      assert DigitsValue("0") == 0;
    } else {
      assert NatToString(ss) == NatToString(ss / 10) + [DigitChar(ss % 10)];
      assert |NatToString(ss / 10)| == 1;
    }
  }

  /** A label made of a rendered number of minutes, a colon and two digits
      of seconds reads back as that many seconds in total. */
  lemma ParseTimeOfLabel(minutes: nat, seconds: nat, ss: string)
    requires |ss| == 2 && AllDigits(ss) && DigitsValue(ss) == seconds < 60
    ensures ParseTime(NatToString(minutes) + ":" + ss) == Some(minutes * 60 + seconds)
  {
    var m := NatToString(minutes);
    var s := m + ":" + ss;
    ColonAfterDigits(m, ss);
    assert s[..|m|] == m;
    assert s[|m| + 1..] == ss;
    ParseNatOfNatToString(minutes);
  }

  /** In a string of digits, a colon, and anything, the first colon is the
      one after the digits. */
  lemma ColonAfterDigits(m: string, rest: string)
    requires AllDigits(m)
    ensures IndexOf(m + ":" + rest, ':') == |m|
  {
    var s := m + ":" + rest;
    assert s[|m|] == ':';
    forall j | 0 <= j < |m|
      ensures s[j] != ':'
    {
      assert s[j] == m[j] && IsDigit(m[j]);
    }
  }

  /** `TimeoutButton`: after a click it stays disabled and shows the time
      left until a 1-second interval has counted down to the timeout again.
      The source keeps the newest interval in `intervalRef`; starting one
      while another runs leaves the older one running unreferenced, so the
      model counts the live intervals. */
  class TimeoutButton {
    /** `buttonTimeout ?? DEFAULT_BUTTON_TIMEOUT`. */
    const buttonTimeoutValue: nat
    const hasOnClick: bool
    /** The `timeLeft` state. */
    var timeLeft: nat
    /** Intervals started and not yet cleared. */
    var liveIntervals: nat
    /** `intervalRef.current` holds one of them (always the newest). */
    var refLive: bool
    /** How many times `onClick` has run. */
    var clicks: nat

    ghost predicate Valid()
      reads this
    {
      && (refLive ==> liveIntervals >= 1)
      && timeLeft <= buttonTimeoutValue
      && (buttonTimeoutValue >= 1 ==> timeLeft >= 1)
    }

    /** At most one interval, and it is the referenced one. */
    predicate SingleTimer()
      reads this
    {
      (liveIntervals == 0 && !refLive) || (liveIntervals == 1 && refLive)
    }

    /** Mounting: the countdown starts at once unless `clickableByDefault`. */
    constructor (buttonTimeout: Option<nat>, clickableByDefault: Option<bool>, hasOnClick: bool)
      ensures Valid() && SingleTimer()
      ensures buttonTimeoutValue == (if buttonTimeout.Some? then buttonTimeout.value else DEFAULT_BUTTON_TIMEOUT)
      ensures timeLeft == buttonTimeoutValue && clicks == 0 && this.hasOnClick == hasOnClick
      ensures refLive <==> clickableByDefault != Some(true)
    {
      buttonTimeoutValue := if buttonTimeout.Some? then buttonTimeout.value else DEFAULT_BUTTON_TIMEOUT;
      this.hasOnClick := hasOnClick;
      timeLeft := buttonTimeoutValue;
      clicks := 0;
      if clickableByDefault != Some(true) {
        liveIntervals, refLive := 1, true;
      } else {
        liveIntervals, refLive := 0, false;
      }
    }

    /** The button accepts a click (and shows its children) only at the
        full timeout. */
    predicate Clickable()
      reads this
      ensures Valid() ==> (Clickable() <==> timeLeft >= buttonTimeoutValue)
    {
      timeLeft == buttonTimeoutValue
    }

    /** The label shown instead of the children while disabled. */
    function FormattedTime(): (s: string)
      reads this
      ensures ParseTime(s) == Some(timeLeft)
    {
      FormatTime(timeLeft)
    }

    /** `startTimer`: a new interval, now the referenced one. */
    method StartTimer()
      modifies this
      ensures liveIntervals == old(liveIntervals) + 1 && refLive
      ensures timeLeft == old(timeLeft) && clicks == old(clicks)
    {
      liveIntervals := liveIntervals + 1;
      refLive := true;
    }

    /** One live interval fires. At 1 second or below it clears the
        referenced interval (if any) and resets to the timeout. */
    method Tick()
      requires Valid()
      modifies this
      ensures Valid()
      ensures old(liveIntervals) == 0 ==>
                timeLeft == old(timeLeft) && liveIntervals == 0 && refLive == old(refLive)
      ensures old(liveIntervals) > 0 ==> timeLeft == Countdown(old(timeLeft), buttonTimeoutValue)
      ensures old(liveIntervals) > 0 && old(timeLeft) <= 1 && old(refLive) ==>
                liveIntervals == old(liveIntervals) - 1 && !refLive
      ensures !(old(liveIntervals) > 0 && old(timeLeft) <= 1 && old(refLive)) ==>
                liveIntervals == old(liveIntervals) && refLive == old(refLive)
      ensures clicks == old(clicks)
      ensures old(SingleTimer()) ==> SingleTimer()
    {
      if liveIntervals == 0 {
        return;
      }
      if timeLeft <= 1 {
        if refLive {
          liveIntervals := liveIntervals - 1;
          refLive := false;
        }
        timeLeft := buttonTimeoutValue;
      } else {
        timeLeft := timeLeft - 1;
      }
    }

    /** `handleClick`: only at the full timeout, and only with an `onClick`,
        does the click run it and start the countdown. */
    method Click() returns (fired: bool)
      requires Valid()
      modifies this
      ensures Valid()
      ensures fired <==> old(timeLeft) == buttonTimeoutValue && hasOnClick
      ensures fired ==> clicks == old(clicks) + 1 && liveIntervals == old(liveIntervals) + 1 && refLive
      ensures !fired ==> clicks == old(clicks) && liveIntervals == old(liveIntervals) && refLive == old(refLive)
      ensures timeLeft == old(timeLeft)
    {
      fired := timeLeft == buttonTimeoutValue && hasOnClick;
      if fired {
        clicks := clicks + 1;
        StartTimer();
      }
    }

    /** The evidently intended `startTimer`: the referenced interval, if
        any, is cleared before the new one starts, so at most one interval
        ever runs. */
    method StartTimerCorrected()
      requires Valid()
      modifies this
      ensures Valid()
      ensures old(refLive) ==> liveIntervals == old(liveIntervals)
      ensures !old(refLive) ==> liveIntervals == old(liveIntervals) + 1
      ensures refLive && timeLeft == old(timeLeft) && clicks == old(clicks)
      ensures old(SingleTimer()) ==> SingleTimer()
    {
      if refLive {
        liveIntervals := liveIntervals - 1;
      }
      liveIntervals := liveIntervals + 1;
      refLive := true;
    }

    /** `handleClick` with the corrected `startTimer`: the same clicks run
        `onClick`, and a click never leaves a second interval running. */
    method ClickCorrected() returns (fired: bool)
      requires Valid()
      modifies this
      ensures Valid()
      ensures fired <==> old(timeLeft) == buttonTimeoutValue && hasOnClick
      ensures fired ==> clicks == old(clicks) + 1 && refLive
      ensures fired && old(refLive) ==> liveIntervals == old(liveIntervals)
      ensures fired && !old(refLive) ==> liveIntervals == old(liveIntervals) + 1
      ensures !fired ==> clicks == old(clicks) && liveIntervals == old(liveIntervals) && refLive == old(refLive)
      ensures timeLeft == old(timeLeft)
      ensures old(SingleTimer()) ==> SingleTimer() && liveIntervals <= 1
    {
      fired := timeLeft == buttonTimeoutValue && hasOnClick;
      if fired {
        clicks := clicks + 1;
        StartTimerCorrected();
      }
    }

    /** Unmounting clears the referenced interval. */
    method Unmount()
      requires Valid()
      modifies this
      ensures Valid()
      ensures old(refLive) ==> liveIntervals == old(liveIntervals) - 1
      ensures !old(refLive) ==> liveIntervals == old(liveIntervals)
      ensures !refLive && timeLeft == old(timeLeft) && clicks == old(clicks)
    {
      if refLive {
        liveIntervals := liveIntervals - 1;
        refLive := false;
      }
    }
  }

  /** A click on an idle button with an `onClick`, followed by `T` ticks,
      runs `onClick` once and leaves the button idle and clickable again. */
  method ClickAndWait(b: TimeoutButton)
    requires b.Valid() && b.Clickable() && b.hasOnClick && b.liveIntervals == 0 && !b.refLive
    requires b.buttonTimeoutValue >= 1
    modifies b
    ensures b.Valid() && b.Clickable()
    ensures b.liveIntervals == 0 && !b.refLive && b.clicks == old(b.clicks) + 1
  {
    var fired := b.Click();
    var k := 0;
    while k < b.buttonTimeoutValue
      invariant 0 <= k <= b.buttonTimeoutValue
      invariant b.Valid()
      invariant b.clicks == old(b.clicks) + 1
      invariant k < b.buttonTimeoutValue ==>
                  b.timeLeft == b.buttonTimeoutValue - k && b.liveIntervals == 1 && b.refLive
      invariant k == b.buttonTimeoutValue ==> b.Clickable() && b.liveIntervals == 0 && !b.refLive
    {
      b.Tick();
      k := k + 1;
    }
  }

  /** Without `clickableByDefault` the countdown starts on mount, but the
      time left still equals the timeout until the first tick: a click in
      that first second starts a second interval. Once the countdown has
      reset, the unreferenced interval keeps counting down, so the button
      is disabled again after one tick and no interval is ever cleared. */
  method EarlyClickScenario() returns (b: TimeoutButton)
    ensures b.liveIntervals == 1 && !b.refLive && !b.Clickable()
  {
    b := new TimeoutButton(Some(2), None, true);
    var fired := b.Click();
    assert fired && b.liveIntervals == 2 && !b.SingleTimer();
    b.Tick();
    b.Tick();
    assert b.Clickable() && b.liveIntervals == 1 && !b.refLive;
    b.Tick();
    assert !b.Clickable();
    b.Tick();
    b.Tick();
  }

  /** The same early click with the corrected click: the running interval
      is replaced, not doubled, and once the countdown has reset the button
      stays clickable with no interval left running. */
  method EarlyClickScenarioCorrected() returns (b: TimeoutButton)
    ensures b.liveIntervals == 0 && !b.refLive && b.Clickable()
  {
    b := new TimeoutButton(Some(2), None, true);
    var fired := b.ClickCorrected();
    assert fired && b.liveIntervals == 1 && b.SingleTimer();
    b.Tick();
    b.Tick();
    assert b.Clickable() && b.liveIntervals == 0;
    b.Tick();
    b.Tick();
    b.Tick();
  }
}
