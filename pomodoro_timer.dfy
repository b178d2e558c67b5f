/** The Pomodoro timer: a countdown in one of four modes whose length comes
    from the settings, ticking once a second while it runs, stopping at 0
    and counting the focus rounds completed. */
module PomodoroTimer {
  import opened Base
  import opened Text
  import opened DayPlanner

  datatype Mode = Focus | ShortBreak | LongBreak | DeepWork

  /** Mode lengths in minutes, as the settings inputs leave them, and the
      sound switch. */
  datatype Settings = Settings(focus: int, shortBreak: int, longBreak: int, deepWork: int, soundEnabled: bool)

  const DefaultSettings: Settings := Settings(25, 5, 15, 50, true)

  /** The length in minutes of a mode. */
  function Minutes(settings: Settings, mode: Mode): int
  {
    match mode
    case Focus => settings.focus
    case ShortBreak => settings.shortBreak
    case LongBreak => settings.longBreak
    case DeepWork => settings.deepWork
  }

  /** The state the timer's methods change. */
  datatype TimerState = TimerState(mode: Mode, timeLeft: int, isRunning: bool, rounds: int, settings: Settings)

  /** One second of the countdown: only while running and above 0, and by
      exactly one second. */
  function TickStep(s: TimerState): (r: TimerState)
    ensures s.isRunning && s.timeLeft > 0 ==> r == s.(timeLeft := s.timeLeft - 1)
    ensures !(s.isRunning && s.timeLeft > 0) ==> r == s
    ensures s.timeLeft >= 0 ==> r.timeLeft >= 0
  {
    if s.isRunning && s.timeLeft > 0 then s.(timeLeft := s.timeLeft - 1) else s
  }

  /** The countdown reaching 0: the timer stops, and a finished focus
      session counts one more round. */
  function CompleteStep(s: TimerState): (r: TimerState)
    ensures !r.isRunning
    ensures r.rounds == (if s.mode == Focus then s.rounds + 1 else s.rounds)
    ensures r.mode == s.mode && r.timeLeft == s.timeLeft && r.settings == s.settings
  {
    s.(isRunning := false, rounds := if s.mode == Focus then s.rounds + 1 else s.rounds)
  }

  /** One run of the countdown effect: a tick while running above 0, the
      completion at 0, nothing otherwise. */
  function EffectStep(s: TimerState): (r: TimerState)
  {
    if s.isRunning && s.timeLeft > 0 then TickStep(s)
    else if s.timeLeft == 0 then CompleteStep(s)
    else s
  }

  function ToggleStep(s: TimerState): (r: TimerState)
    ensures r.isRunning == !s.isRunning
    ensures r.(isRunning := s.isRunning) == s
  {
    s.(isRunning := !s.isRunning)
  }

  /** Back to the full length of the current mode, stopped. */
  function ResetStep(s: TimerState): (r: TimerState)
    ensures !r.isRunning && r.timeLeft == Minutes(s.settings, s.mode) * 60
    ensures r.mode == s.mode && r.rounds == s.rounds && r.settings == s.settings
  {
    s.(isRunning := false, timeLeft := Minutes(s.settings, s.mode) * 60)
  }

  /** A new mode at its full length, stopped. */
  function ChangeModeStep(s: TimerState, newMode: Mode): (r: TimerState)
    ensures r.mode == newMode && !r.isRunning && r.timeLeft == Minutes(s.settings, newMode) * 60
    ensures r.rounds == s.rounds && r.settings == s.settings
  {
    s.(mode := newMode, isRunning := false, timeLeft := Minutes(s.settings, newMode) * 60)
  }

  /** `n` ticks of the countdown. */
  function TickN(s: TimerState, n: nat): TimerState
    decreases n
  {
    if n == 0 then s else TickN(TickStep(s), n - 1)
  }

  /** A running countdown goes down one second per tick and stays at 0: it
      never goes below 0 and nothing else changes. */
  lemma {:induction false} TicksStopAtZero(s: TimerState, n: nat)
    requires s.isRunning && s.timeLeft >= 0
    ensures TickN(s, n) == s.(timeLeft := if n <= s.timeLeft then s.timeLeft - n else 0)
    decreases n
  {
    if n > 0 {
      TicksStopAtZero(TickStep(s), n - 1);
    }
  }

  /** What the countdown effect depends on: `[isRunning, timeLeft]`. */
  function Deps(s: TimerState): (bool, int)
  {
    (s.isRunning, s.timeLeft)
  }

  /** The countdown effect as React runs it: once, and again after every run
      that changes its dependencies, for at most `fuel` runs. A run that
      leaves `isRunning` and `timeLeft` as they were is the last. */
  function Settle(step: TimerState -> TimerState, s: TimerState, fuel: nat): TimerState
    decreases fuel
  {
    if fuel == 0 then s
    else if Deps(step(s)) == Deps(s) then step(s)
    else Settle(step, step(s), fuel - 1)
  }

  /** The effect AS WRITTEN counts a finished focus session twice: the
      completion stops the timer, which changes `isRunning`, so the effect
      runs again with `timeLeft` still 0 and completes once more. */
  lemma {:induction false} FocusSessionCountsTwoRounds(s: TimerState, fuel: nat)
    requires s.mode == Focus && s.isRunning && s.timeLeft >= 0 && fuel >= s.timeLeft + 2
    ensures Settle(EffectStep, s, fuel) == s.(isRunning := false, timeLeft := 0, rounds := s.rounds + 2)
    decreases s.timeLeft
  {
    if s.timeLeft > 0 {
      assert Deps(EffectStep(s)) != Deps(s);
      FocusSessionCountsTwoRounds(TickStep(s), fuel - 1);
    } else {
      var done := CompleteStep(s);
      assert Deps(EffectStep(s)) != Deps(s);
      assert Deps(EffectStep(done)) == Deps(done);
    }
  }

  /** The effect as intended: the completion runs only while the timer is
      running, so it happens once, when the countdown reaches 0. */
  function IntendedEffectStep(s: TimerState): (r: TimerState)
    ensures r.rounds <= s.rounds + 1
    ensures !s.isRunning ==> r == s
  {
    if s.isRunning && s.timeLeft > 0 then TickStep(s)
    else if s.isRunning && s.timeLeft == 0 then CompleteStep(s)
    else s
  }

  /** Under the intended effect a full focus session counts exactly one
      round and leaves the timer stopped at 0. */
  lemma {:induction false} FocusSessionCountsOneRound(s: TimerState, fuel: nat)
    requires s.mode == Focus && s.isRunning && s.timeLeft >= 0 && fuel >= s.timeLeft + 2
    ensures Settle(IntendedEffectStep, s, fuel) == s.(isRunning := false, timeLeft := 0, rounds := s.rounds + 1)
    decreases s.timeLeft
  {
    if s.timeLeft > 0 {
      assert Deps(IntendedEffectStep(s)) != Deps(s);
      FocusSessionCountsOneRound(TickStep(s), fuel - 1);
    } else {
      var done := CompleteStep(s);
      assert Deps(IntendedEffectStep(s)) != Deps(s);
      assert IntendedEffectStep(done) == done;
    }
  }

  /** Rounds only count finished focus sessions: no step of a break or of
      deep work changes them. */
  lemma RoundsOnlyInFocus(s: TimerState, newMode: Mode)
    requires s.mode != Focus
    ensures EffectStep(s).rounds == s.rounds
    ensures ToggleStep(s).rounds == s.rounds && ResetStep(s).rounds == s.rounds
    ensures ChangeModeStep(s, newMode).rounds == s.rounds
  {
  }

  lemma ToggleTwice(s: TimerState)
    ensures ToggleStep(ToggleStep(s)) == s
  {
  }

  /** A reset right after a mode change changes nothing. */
  lemma ResetAfterChangeMode(s: TimerState, newMode: Mode)
    ensures ResetStep(ChangeModeStep(s, newMode)) == ChangeModeStep(s, newMode)
  {
  }

  /** The timer component's state. */
  class Timer {
    var mode: Mode
    var timeLeft: int
    var isRunning: bool
    var rounds: int
    var settings: Settings

    function State(): TimerState
      reads this
    {
      TimerState(mode, timeLeft, isRunning, rounds, settings)
    }

    /** A new timer: focus mode at 25 minutes, stopped, no rounds yet. */
    constructor ()
      ensures mode == Focus && timeLeft == 1500 && !isRunning && rounds == 0
      ensures settings == DefaultSettings && timeLeft == Minutes(settings, mode) * 60
    {
      mode := Focus;
      timeLeft := 25 * 60;
      isRunning := false;
      rounds := 0;
      settings := DefaultSettings;
    }

    /** The interval's callback: one second off a running countdown. */
    method Tick()
      modifies this
      ensures State() == TickStep(old(State()))
    {
      if isRunning && timeLeft > 0 {
        timeLeft := timeLeft - 1;
      }
    }

    /** `handleTimerComplete`; the completion sound is left out. */
    method Complete()
      modifies this
      ensures State() == CompleteStep(old(State()))
    {
      isRunning := false;
      if mode == Focus {
        rounds := rounds + 1;
      }
    }

    /** One run of the countdown effect. */
    method RunEffect()
      modifies this
      ensures State() == EffectStep(old(State()))
    {
      if isRunning && timeLeft > 0 {
        Tick();
      } else if timeLeft == 0 {
        Complete();
      }
    }

    method ToggleTimer()
      modifies this
      ensures State() == ToggleStep(old(State()))
    {
      isRunning := !isRunning;
    }

    method ResetTimer()
      modifies this
      ensures State() == ResetStep(old(State()))
    {
      isRunning := false;
      timeLeft := Minutes(settings, mode) * 60;
    }

    method ChangeMode(newMode: Mode)
      modifies this
      ensures State() == ChangeModeStep(old(State()), newMode)
    {
      mode := newMode;
      isRunning := false;
      timeLeft := Minutes(settings, newMode) * 60;
    }

    /** Typing into one of the three duration inputs: the setting takes the
      parsed number, or its default when that is `NaN` or 0. The countdown
      itself keeps going until the next reset or mode change. */
    method SetDuration(field: Mode, text: string)
      requires field != DeepWork
      modifies this
      ensures settings == old(settings).(
        focus := if field == Focus then DurationInput(text, 25) else old(settings).focus,
        shortBreak := if field == ShortBreak then DurationInput(text, 5) else old(settings).shortBreak,
        longBreak := if field == LongBreak then DurationInput(text, 15) else old(settings).longBreak)
      ensures mode == old(mode) && timeLeft == old(timeLeft) && isRunning == old(isRunning) && rounds == old(rounds)
    {
      match field
      case Focus => settings := settings.(focus := DurationInput(text, 25));
      case ShortBreak => settings := settings.(shortBreak := DurationInput(text, 5));
      case LongBreak => settings := settings.(longBreak := DurationInput(text, 15));
    }

    /** The sound switch in the settings. */
    method ToggleSound()
      modifies this
      ensures settings == old(settings).(soundEnabled := !old(settings).soundEnabled)
      ensures mode == old(mode) && timeLeft == old(timeLeft) && isRunning == old(isRunning) && rounds == old(rounds)
    {
      settings := settings.(soundEnabled := !settings.soundEnabled);
    }
  }

  /** `parseInt(text)`: leading white space, an optional sign and the
      longest run of digits after it; `NaN` when there are no digits. */
  function ParseIntPrefix(text: string): (r: Option<int>)
    ensures AllDigits(text) && text != [] ==> r == Some(DigitsValue(text))
  {
    var t := TrimStart(text);
    TrimStartKeepsDigits(text);
    var negative := t != [] && t[0] == '-';
    var unsigned := if t != [] && (t[0] == '-' || t[0] == '+') then t[1..] else t;
    var digits := DigitPrefix(unsigned);
    if digits == [] then None
    else Some(if negative then 0 - DigitsValue(digits) else DigitsValue(digits))
  }

  lemma TrimStartKeepsDigits(text: string)
    ensures AllDigits(text) ==> TrimStart(text) == text
  {
    if text != [] && AllDigits(text) {
      assert IsDigit(text[0]);
    }
  }

  /** The longest run of digits that starts the text. */
  function DigitPrefix(s: string): (r: string)
    ensures AllDigits(r) && StartsWith(s, r)
    ensures AllDigits(s) ==> r == s
    ensures r != [] <==> s != [] && IsDigit(s[0])
  {
    if s != [] && IsDigit(s[0]) then [s[0]] + DigitPrefix(s[1..]) else []
  }

  /** `parseInt(text) || fallback`: `NaN` and 0 give the fallback. */
  function DurationInput(text: string, fallback: int): (r: int)
    ensures fallback != 0 ==> r != 0
    ensures r == fallback || Some(r) == ParseIntPrefix(text)
  {
    var parsed := ParseIntPrefix(text);
    if parsed.None? || parsed.value == 0 then fallback else parsed.value
  }

  /** A whole number of minutes typed into an input is taken as it is; an
      empty input or 0 gives the default. */
  lemma DurationInputRoundTrip(n: nat, fallback: int)
    ensures n > 0 ==> DurationInput(NatToString(n), fallback) == n
    ensures DurationInput(NatToString(0), fallback) == fallback
    ensures DurationInput("", fallback) == fallback
  {
    NatToStringValue(n);
    NatToStringValue(0);
  }

  /** `mm:ss` of a number of seconds, each part padded to two characters;
      the minutes are `Math.floor(s / 60)` and the seconds JavaScript's `s % 60`. */
  function FormatTime(seconds: int): string
  {
    PadInt(seconds / 60, 2) + ":" + PadInt(JsRem(seconds, 60), 2)
  }

  /** For a countdown that has not gone below 0 the text is the minutes and
      the seconds under 60, and it reads back as the same number of seconds. */
  lemma FormatTimeFields(seconds: nat, mins: nat, secs: nat)
    requires secs < 60 && seconds == mins * 60 + secs
    ensures FormatTime(seconds) == ClockText(mins, secs)
    ensures ClockMinutes(FormatTime(seconds)) == Some(seconds)
  {
    assert seconds / 60 == mins && seconds % 60 == secs;
    ClockTextMinutes(mins, secs);
  }

  /** The share of the current session already elapsed, in percent; `None`
      where the session length is 0 and the division gives no number. */
  function Progress(s: TimerState): (p: Option<real>)
    ensures Minutes(s.settings, s.mode) == 0 <==> p.None?
    ensures p.Some? && 0 <= s.timeLeft <= Minutes(s.settings, s.mode) * 60 ==> 0.0 <= p.value <= 100.0
    ensures p.Some? && s.timeLeft == Minutes(s.settings, s.mode) * 60 ==> p.value == 0.0
    ensures p.Some? && s.timeLeft == 0 ==> p.value == 100.0
  {
    var total := Minutes(s.settings, s.mode) * 60;
    if total == 0 then None
    else
      var ratio := (total - s.timeLeft) as real / total as real;
      assert ratio * total as real == (total - s.timeLeft) as real;
      Some(ratio * 100.0)
  }
}
