/** The session countdown of `LoginTimer`: a one-second tick, the warnings
    ten and five minutes before expiry, the expiry itself, and the remaining
    time written as days, hours, minutes and seconds. */
module LoginTimer {
  import opened Wrappers
  import opened JsText
  import opened Browser
  import opened GlobalData

  const FiveMinuteWarning := "Sua sessão vai expirar em menos de 5 minutos!"
  const TenMinuteWarning := "Sua sessão vai expirar em menos de 10 minutos!"

  // ---------------------------------------------------------------------------
  // The tick
  // ---------------------------------------------------------------------------

  /** The `setTimeLeft` updater of `handleTimeUpdate`. */
  function TickOf(timeLeft: int): (r: int)
    ensures r >= 0
  {
    if timeLeft <= 0 then 0 else timeLeft - 1
  }

  /** `timeLeft` after `n` ticks. */
  function Ticks(timeLeft: int, n: nat): int
  {
    if n == 0 then timeLeft else TickOf(Ticks(timeLeft, n - 1))
  }

  /** Counting down from `t` never goes below zero, loses one second per tick
      while above zero, and reaches zero after exactly `t` ticks. */
  lemma {:induction false} TicksCountDown(t: nat, n: nat)
    ensures Ticks(t, n) == if n <= t then t - n else 0
    ensures Ticks(t, n) == 0 <==> n >= t
  {
    if n > 0 {
      TicksCountDown(t, n - 1);
    }
  }

  /** The ten-minute flag after a tick that reads the captured flag and time. */
  function TenGivenAfterTick(tenGiven: bool, capturedTenGiven: bool, capturedTimeLeft: int): bool {
    tenGiven || (!capturedTenGiven && capturedTimeLeft <= 600)
  }

  // ---------------------------------------------------------------------------
  // The warning and expiry effect
  // ---------------------------------------------------------------------------

  /** What one run of the effect on `[timeLeft, pageLoading]` decides: whether
      the login expires, the toast calls made, and the new warning flags. */
  datatype Evaluation = Evaluation(expire: bool, toasts: seq<Toast>, tenGiven: bool, fiveGiven: bool)

  function Evaluate(pageLoading: bool, userLoginTime: int, timeLeft: int, tenGiven: bool, fiveGiven: bool): Evaluation
  {
    if pageLoading || !(userLoginTime > 0) then Evaluation(false, [], tenGiven, fiveGiven)
    else if timeLeft <= 0 then Evaluation(true, [], tenGiven, fiveGiven)
    else
      var five := timeLeft < 300 && !fiveGiven;
      var ten := timeLeft > 300 && timeLeft < 600 && !tenGiven;
      Evaluation(false,
        (if five then [Dismiss(TenMinuteWarningId), Warn(FiveMinuteWarning, Some(FiveMinuteWarningId))] else [])
        + (if ten then [Warn(TenMinuteWarning, Some(TenMinuteWarningId))] else []),
        tenGiven || ten, fiveGiven || five)
  }

  predicate ShowsTenMinuteWarning(e: Evaluation) {
    Warn(TenMinuteWarning, Some(TenMinuteWarningId)) in e.toasts
  }

  predicate ShowsFiveMinuteWarning(e: Evaluation) {
    Warn(FiveMinuteWarning, Some(FiveMinuteWarningId)) in e.toasts
  }

  /** The effect does nothing while the page loads or without a login time;
      with one, it expires the login exactly when no time is left, and then
      shows nothing. */
  lemma EvaluateExpiry(pageLoading: bool, userLoginTime: int, timeLeft: int, tenGiven: bool, fiveGiven: bool)
    ensures var e := Evaluate(pageLoading, userLoginTime, timeLeft, tenGiven, fiveGiven);
      && (pageLoading || userLoginTime <= 0 ==> e == Evaluation(false, [], tenGiven, fiveGiven))
      && (e.expire <==> !pageLoading && userLoginTime > 0 && timeLeft <= 0)
      && (e.expire ==> e.toasts == [])
  {
  }

  /** The five-minute warning shows, after dismissing the ten-minute one,
      exactly when under 300 seconds are left and it was not shown before;
      the ten-minute warning exactly when strictly between 300 and 600
      seconds are left and it was not shown before. At exactly 300 seconds
      neither shows. Each sets its flag, so it shows once. */
  lemma EvaluateWarnings(pageLoading: bool, userLoginTime: int, timeLeft: int, tenGiven: bool, fiveGiven: bool)
    ensures var e := Evaluate(pageLoading, userLoginTime, timeLeft, tenGiven, fiveGiven);
      var active := !pageLoading && userLoginTime > 0 && timeLeft > 0;
      && (ShowsFiveMinuteWarning(e) <==> active && timeLeft < 300 && !fiveGiven)
      && (ShowsFiveMinuteWarning(e) ==> e.toasts[0] == Dismiss(TenMinuteWarningId) && e.fiveGiven)
      && (ShowsTenMinuteWarning(e) <==> active && 300 < timeLeft < 600 && !tenGiven)
      && (ShowsTenMinuteWarning(e) ==> e.tenGiven)
      && (timeLeft == 300 ==> e.toasts == [])
      && (ShowsFiveMinuteWarning(e) ==> !ShowsFiveMinuteWarning(Evaluate(pageLoading, userLoginTime, timeLeft, e.tenGiven, e.fiveGiven)))
  {
    var e := Evaluate(pageLoading, userLoginTime, timeLeft, tenGiven, fiveGiven);
    var tenWarn := Warn(TenMinuteWarning, Some(TenMinuteWarningId));
    var fiveWarn := Warn(FiveMinuteWarning, Some(FiveMinuteWarningId));
    assert tenWarn != fiveWarn by {
      assert TenMinuteWarning[37] != FiveMinuteWarning[37];
    }
    assert Dismiss(TenMinuteWarningId) != fiveWarn;
  }

  // ---------------------------------------------------------------------------
  // The component state
  // ---------------------------------------------------------------------------

  class Timer {
    var timeLeft: int
    var tenMinutesWarningGiven: bool
    var fiveMinutesWarningGiven: bool
    /** The values the interval callback sees: the interval is created once,
        so `handleTimeUpdate` keeps reading the first render's state. */
    const firstTenMinutesWarningGiven: bool
    const firstTimeLeft: int

    constructor ()
      ensures timeLeft == 0 && !tenMinutesWarningGiven && !fiveMinutesWarningGiven
      ensures !firstTenMinutesWarningGiven && firstTimeLeft == 0
    {
      timeLeft := 0;
      tenMinutesWarningGiven := false;
      fiveMinutesWarningGiven := false;
      firstTenMinutesWarningGiven := false;
      firstTimeLeft := 0;
    }

    /** The effect on a new `userLoginTime`: the countdown restarts from it
        and both warnings are armed again. */
    method OnUserLoginTimeChanged(userLoginTime: int)
      modifies this
      ensures timeLeft == userLoginTime && !tenMinutesWarningGiven && !fiveMinutesWarningGiven
    {
      if timeLeft != userLoginTime {
        timeLeft := userLoginTime;
      }
      tenMinutesWarningGiven := false;
      fiveMinutesWarningGiven := false;
    }

    /** `handleTimeUpdate`, once a second. */
    method HandleTimeUpdate()
      modifies this
      ensures timeLeft == TickOf(old(timeLeft))
      ensures tenMinutesWarningGiven == TenGivenAfterTick(old(tenMinutesWarningGiven), firstTenMinutesWarningGiven, firstTimeLeft)
      ensures fiveMinutesWarningGiven == old(fiveMinutesWarningGiven)
    {
      if timeLeft <= 0 {
        timeLeft := 0;
      } else {
        timeLeft := timeLeft - 1;
      }
      if !firstTenMinutesWarningGiven && firstTimeLeft <= 600 {
        tenMinutesWarningGiven := true;
      }
    }

    /** The effect on `[timeLeft, pageLoading]`. */
    method OnTimeLeftOrPageLoadingChanged(global: GlobalState, window: Window)
      modifies this, global, window
      ensures var e := Evaluate(old(global.pageLoading), old(global.userLoginTime), timeLeft,
                                old(tenMinutesWarningGiven), old(fiveMinutesWarningGiven));
        && tenMinutesWarningGiven == e.tenGiven && fiveMinutesWarningGiven == e.fiveGiven
        && window.toasts == old(window.toasts) + e.toasts
        && (e.expire ==> global.tokenHasExpired && global.userLoginTime == 0)
        && (!e.expire ==> global.tokenHasExpired == old(global.tokenHasExpired) && global.userLoginTime == old(global.userLoginTime))
      ensures timeLeft == old(timeLeft) && global.pageLoading == old(global.pageLoading)
      ensures global.activeLinkUrl == old(global.activeLinkUrl) && global.lastVisitedPages == old(global.lastVisitedPages)
      ensures global.userLoginData == old(global.userLoginData)
      ensures window.localStorage == old(window.localStorage) && window.navigations == old(window.navigations)
    {
      if global.pageLoading || !(global.userLoginTime > 0) {
        return;
      }
      if timeLeft <= 0 {
        global.tokenHasExpired := true;
        global.userLoginTime := 0;
        return;
      }
      if timeLeft < 300 && !fiveMinutesWarningGiven {
        window.toasts := window.toasts + [Dismiss(TenMinuteWarningId)];
        window.toasts := window.toasts + [Warn(FiveMinuteWarning, Some(FiveMinuteWarningId))];
        fiveMinutesWarningGiven := true;
      }
      if timeLeft > 300 && timeLeft < 600 && !tenMinutesWarningGiven {
        window.toasts := window.toasts + [Warn(TenMinuteWarning, Some(TenMinuteWarningId))];
        tenMinutesWarningGiven := true;
      }
    }
  }

  /** With the values the interval captured (no warning given, no time left),
      every tick sets the ten-minute flag, so the effect that follows a tick
      never shows the ten-minute warning: a countdown that passes through the
      ten-minute window one tick at a time never shows it. */
  lemma TickSilencesTenMinuteWarning(pageLoading: bool, userLoginTime: int, timeLeft: int, tenGiven: bool, fiveGiven: bool)
    ensures !ShowsTenMinuteWarning(Evaluate(pageLoading, userLoginTime, TickOf(timeLeft),
                                            TenGivenAfterTick(tenGiven, false, 0), fiveGiven))
  {
    var e := Evaluate(pageLoading, userLoginTime, TickOf(timeLeft), true, fiveGiven);
    assert Warn(TenMinuteWarning, Some(TenMinuteWarningId)) != Warn(FiveMinuteWarning, Some(FiveMinuteWarningId)) by {
      assert TenMinuteWarning[37] != FiveMinuteWarning[37];
    }
  }

  // ---------------------------------------------------------------------------
  // The display
  // ---------------------------------------------------------------------------

  /** JavaScript's `%`: the remainder takes the sign of the dividend. */
  function JsRem(a: int, b: int): (r: int)
    requires b > 0
    ensures a >= 0 ==> 0 <= r < b
    ensures a < 0 ==> -b < r <= 0
  {
    if a >= 0 then a % b else -((-a) % b)
  }

  datatype Duration = Duration(days: int, hours: int, minutes: int, seconds: int)

  /** `Math.floor` of the quotients the component computes; with a positive
      divisor Dafny's `/` is the floor of the quotient. */
  function DurationOf(timeLeft: int): Duration {
    Duration(
      timeLeft / (60 * 60 * 24),
      JsRem(timeLeft, 60 * 60 * 24) / (60 * 60),
      JsRem(timeLeft, 60 * 60) / 60,
      JsRem(timeLeft, 60))
  }

  /** For a non-negative time the units add back up to it, and hours,
      minutes and seconds stay below a day, an hour and a minute; for a
      negative time no unit is positive. */
  lemma DurationDecomposes(timeLeft: int)
    ensures var d := DurationOf(timeLeft);
      && (timeLeft >= 0 ==>
            && d.days * 86400 + d.hours * 3600 + d.minutes * 60 + d.seconds == timeLeft
            && 0 <= d.hours < 24 && 0 <= d.minutes < 60 && 0 <= d.seconds < 60)
      && (timeLeft < 0 ==> d.days < 0 && d.hours <= 0 && d.minutes <= 0 && d.seconds <= 0)
  {
    var d := DurationOf(timeLeft);
    if timeLeft >= 0 {
      var days, dayRest := timeLeft / 86400, timeLeft % 86400;
      var hours, hourRest := dayRest / 3600, dayRest % 3600;
      var minutes, seconds := hourRest / 60, hourRest % 60;
      assert timeLeft == days * 86400 + dayRest;
      assert dayRest == hours * 3600 + hourRest;
      assert hourRest == minutes * 60 + seconds;
      assert timeLeft == (days * 24 + hours) * 3600 + hourRest;
      DivModUnique(timeLeft, days * 24 + hours, 3600, hourRest);
      assert timeLeft == ((days * 24 + hours) * 60 + minutes) * 60 + seconds;
      DivModUnique(timeLeft, (days * 24 + hours) * 60 + minutes, 60, seconds);
      assert d == Duration(days, hours, minutes, seconds);
    } else {
      NegativeQuotient(timeLeft, 86400);
      NegativeQuotient(JsRem(timeLeft, 86400), 3600);
      NegativeQuotient(JsRem(timeLeft, 3600), 60);
    }
  }

  /** Euclidean division has one quotient and one remainder. */
  lemma DivModUnique(t: int, q: int, b: int, r: int)
    requires b > 0 && t == q * b + r && 0 <= r < b
    ensures t / b == q && t % b == r
  {
    var q', r' := t / b, t % b;
    assert (q - q') * b == r' - r;
    if q > q' {
      MulAtLeast(q - q', b);
      assert false;
    } else if q < q' {
      MulAtLeast(q' - q, b);
      assert false;
    }
  }

  lemma {:induction false} MulAtLeast(k: int, b: int)
    requires k >= 1 && b > 0
    ensures k * b >= b
    decreases k
  {
    if k > 1 {
      MulAtLeast(k - 1, b);
      assert k * b == (k - 1) * b + b;
    }
  }

  lemma NegativeQuotient(a: int, b: int)
    requires a <= 0 && b > 0
    ensures a / b <= 0 && (a < 0 ==> a / b < 0)
  {
  }

  /** The text of one unit, written only when it is positive. */
  function UnitText(amount: int, unit: string): string {
    if amount > 0 then IntToString(amount) + unit else ""
  }

  /** `hoursString + minutesString + secondsString`. */
  function TimerText(timeLeft: int): string {
    var d := DurationOf(timeLeft);
    UnitText(d.days, " d ") + UnitText(d.hours, " h ") + UnitText(d.minutes, " m ") + UnitText(d.seconds, " s")
  }

  /** The rendered timer: nothing unless some time is left. */
  function Render(timeLeft: int): Option<string> {
    if timeLeft > 0 then Some(TimerText(timeLeft)) else None
  }

  /** The timer text is empty exactly when no time is left, so whatever is
      rendered shows at least one unit. */
  lemma TimerTextEmptyIff(timeLeft: int)
    ensures TimerText(timeLeft) == [] <==> timeLeft <= 0
    ensures Render(timeLeft).Some? ==> Render(timeLeft).value != []
  {
    DurationDecomposes(timeLeft);
  }
}
