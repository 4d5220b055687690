/**
 * The focus stopwatch of `src/js/stopwatch.js`: a countdown of `duration`
 * minutes held as `timeLeft` seconds, which the start button runs and pauses,
 * the interval callback counts down once a second, and reset and the
 * duration input rewind. `formatTime` renders the seconds left as MM:SS.
 */
module Stopwatch {
  import opened SeqUtil

  /** The duration used when the settings hold none (or a falsy one). */
  const DefaultMinutes: int := 5
  /** The longest duration the duration input accepts. */
  const MaxMinutes: int := 120
  const SecondsPerMinute: int := 60

  /** The fields `isRunning`, `timeLeft` (seconds) and `duration` (minutes). */
  datatype Watch = Watch(isRunning: bool, timeLeft: int, duration: int)

  /** The state the buttons keep: a duration in range, a countdown within it, and a running watch has time left. */
  predicate Valid(w: Watch)
  {
    && 1 <= w.duration <= MaxMinutes
    && 0 <= w.timeLeft <= w.duration * SecondsPerMinute
    && (w.isRunning ==> w.timeLeft > 0)
  }

  /** `settings.stopwatchDuration || 5`: a missing or zero setting falls back to the default. */
  function LoadedDuration(stored: Option<int>): int
  {
    match stored
    case None => DefaultMinutes
    case Some(v) => if v == 0 then DefaultMinutes else v
  }

  /** `startTimer`: only a stopped watch with time left starts. */
  function StartStep(w: Watch): Watch
  {
    if !w.isRunning && w.timeLeft > 0 then w.(isRunning := true) else w
  }

  /** `pauseTimer`, and `stopTimer`, which only pauses. */
  function PauseStep(w: Watch): Watch
  {
    if w.isRunning then w.(isRunning := false) else w
  }

  /** `resumeTimer`: the start guard, then `startTimer`. */
  function ResumeStep(w: Watch): Watch
  {
    if !w.isRunning && w.timeLeft > 0 then StartStep(w) else w
  }

  /** `resetTimer`: stop, then rewind to the whole duration. */
  function ResetStep(w: Watch): Watch
  {
    var stopped := PauseStep(w);
    stopped.(timeLeft := stopped.duration * SecondsPerMinute)
  }

  /** `setDuration(minutes)`: store the duration, then reset. */
  function SetDurationStep(w: Watch, minutes: int): Watch
  {
    ResetStep(w.(duration := minutes))
  }

  /** One firing of the interval callback: one second less, and stop on reaching zero. */
  function TickStep(w: Watch): Watch
  {
    var counted := w.(timeLeft := w.timeLeft - 1);
    if counted.timeLeft <= 0 then PauseStep(counted) else counted
  }

  /**
   * The duration input's change handler, given `parseInt` of the input
   * (`None` for NaN): only 1..120 minutes reach `setDuration`.
   */
  function DurationChangeStep(w: Watch, parsed: Option<int>): Watch
  {
    if parsed.Some? && 0 < parsed.value <= MaxMinutes then SetDurationStep(w, parsed.value) else w
  }

  /** The start button's click handler: pause a running watch, start any other. */
  function StartClickStep(w: Watch): Watch
  {
    if w.isRunning then PauseStep(w) else StartStep(w)
  }

  /** The state right after construction: the loaded duration, then `init`'s reset. */
  function Initial(stored: Option<int>): Watch
  {
    ResetStep(Watch(false, 0, LoadedDuration(stored)))
  }

  /** `canStart` of `updateDisplay`. */
  predicate CanStart(w: Watch)
  {
    !w.isRunning && w.timeLeft > 0
  }

  /** Whether `updateDisplay` enables the stop button. */
  predicate CanStop(w: Watch)
  {
    w.isRunning
  }

  /** `canReset` of `updateDisplay`. */
  predicate CanReset(w: Watch)
  {
    !w.isRunning
  }

  /**
   * Start runs the watch exactly when the start button is enabled, and
   * otherwise changes nothing; it never touches the countdown or the
   * duration. Resume behaves exactly as start.
   */
  lemma StartEffect(w: Watch)
    ensures StartStep(w) != w <==> CanStart(w)
    ensures CanStart(w) ==> StartStep(w).isRunning
    ensures StartStep(w).timeLeft == w.timeLeft && StartStep(w).duration == w.duration
    ensures ResumeStep(w) == StartStep(w)
  {
  }

  /**
   * Pause and stop leave the watch stopped without touching the countdown or
   * the duration; they change something exactly when the stop button is
   * enabled, and pausing twice is pausing once.
   */
  lemma PauseEffect(w: Watch)
    ensures !PauseStep(w).isRunning
    ensures PauseStep(w).timeLeft == w.timeLeft && PauseStep(w).duration == w.duration
    ensures PauseStep(w) != w <==> CanStop(w)
    ensures PauseStep(PauseStep(w)) == PauseStep(w)
  {
  }

  /** Reset leaves the watch stopped with the whole duration left, and is idempotent. */
  lemma ResetEffect(w: Watch)
    ensures !ResetStep(w).isRunning
    ensures ResetStep(w).timeLeft == w.duration * SecondsPerMinute && ResetStep(w).duration == w.duration
    ensures ResetStep(ResetStep(w)) == ResetStep(w)
  {
  }

  /**
   * The duration input: an accepted value becomes the duration and rewinds
   * the stopped watch to it; anything outside 1..120 changes nothing.
   */
  lemma DurationChangeEffect(w: Watch, parsed: Option<int>)
    ensures parsed.Some? && 1 <= parsed.value <= MaxMinutes ==>
      DurationChangeStep(w, parsed) == Watch(false, parsed.value * SecondsPerMinute, parsed.value)
    ensures parsed.None? || parsed.value < 1 || parsed.value > MaxMinutes ==>
      DurationChangeStep(w, parsed) == w
  {
  }

  /**
   * The start button toggles: it pauses a running watch, starts a stopped
   * one with time left, and does nothing to a stopped watch at zero.
   */
  lemma StartClickToggles(w: Watch)
    ensures CanStop(w) ==> StartClickStep(w) == w.(isRunning := false)
    ensures CanStart(w) ==> StartClickStep(w) == w.(isRunning := true)
    ensures !CanStop(w) && !CanStart(w) ==> StartClickStep(w) == w
    ensures CanReset(w) <==> !CanStop(w)
  {
  }

  /** The watch loaded from a duration setting in range (or none) starts stopped at its full duration, and valid. */
  lemma InitialValid(stored: Option<int>)
    requires stored.None? || 0 <= stored.value <= MaxMinutes
    ensures Valid(Initial(stored))
    ensures !Initial(stored).isRunning
    ensures Initial(stored).timeLeft == LoadedDuration(stored) * SecondsPerMinute
  {
  }

  /** Every step keeps the state valid; a tick only fires while the watch runs. */
  lemma StepsKeepValid(w: Watch, minutes: Option<int>)
    requires Valid(w)
    ensures Valid(StartStep(w)) && Valid(PauseStep(w)) && Valid(ResumeStep(w)) && Valid(ResetStep(w))
    ensures Valid(DurationChangeStep(w, minutes)) && Valid(StartClickStep(w))
    ensures w.isRunning ==> Valid(TickStep(w))
  {
  }

  /** A tick takes one second off, and the watch stops exactly when it reaches zero. */
  lemma TickEffect(w: Watch)
    requires Valid(w) && w.isRunning
    ensures TickStep(w).timeLeft == w.timeLeft - 1 && TickStep(w).duration == w.duration
    ensures TickStep(w).isRunning <==> TickStep(w).timeLeft > 0
  {
  }

  /** `n` firings of the interval, which stops firing once the watch is stopped. */
  function Ticks(w: Watch, n: nat): Watch
    decreases n
  {
    if n == 0 || !w.isRunning then w else Ticks(TickStep(w), n - 1)
  }

  /**
   * A running countdown keeps running through its first `timeLeft - 1` ticks,
   * and after exactly `timeLeft` ticks it is stopped at zero.
   */
  lemma {:induction false} Countdown(w: Watch, n: nat)
    requires w.isRunning && 0 < w.timeLeft && n <= w.timeLeft
    ensures Ticks(w, n).timeLeft == w.timeLeft - n && Ticks(w, n).duration == w.duration
    ensures Ticks(w, n).isRunning <==> n < w.timeLeft
    decreases n
  {
    if n > 0 {
      var next := TickStep(w);
      if next.isRunning {
        Countdown(next, n - 1);
      } else {
        assert Ticks(next, n - 1) == next;
      }
    }
  }

  /** The character of a decimal digit value. */
  function DigitChar(d: int): char
    requires 0 <= d < 10
  {
    (48 + d) as char
  }

  predicate IsDigit(c: char)
  {
    '0' <= c <= '9'
  }

  predicate AllDigits(s: string)
  {
    forall i :: 0 <= i < |s| ==> IsDigit(s[i])
  }

  /** The number a string of decimal digits denotes (leading zeros allowed). */
  function DigitsValue(s: string): nat
    requires AllDigits(s)
  {
    if s == [] then 0
    else DigitsValue(s[..|s| - 1]) * 10 + (s[|s| - 1] as int - 48)
  }

  /** `n.toString()` for a non-negative integer: its decimal digits, no leading zero. */
  function NatToString(n: nat): (s: string)
    ensures |s| >= 1 && AllDigits(s)
    ensures DigitsValue(s) == n
    ensures |s| > 1 ==> s[0] != '0'
    ensures n < 10 <==> |s| == 1
  {
    if n < 10 then [DigitChar(n)]
    else
      var s := NatToString(n / 10) + [DigitChar(n % 10)];
      assert s[..|s| - 1] == NatToString(n / 10);
      s
  }

  /** `n.toString()` for any integer: a minus sign before the digits of a negative one. */
  function IntToString(n: int): string
  {
    if n < 0 then "-" + NatToString(-n) else NatToString(n)
  }

  /** `s.padStart(2, '0')`. */
  function PadStart2(s: string): (r: string)
    ensures |s| >= 2 ==> r == s
    ensures |s| < 2 ==> |r| == 2 && r[2 - |s|..] == s && forall i :: 0 <= i < 2 - |s| ==> r[i] == '0'
  {
    if |s| == 0 then "00" else if |s| == 1 then "0" + s else s
  }

  /** JavaScript's `%`: the remainder takes the sign of the dividend. */
  function JsRem(a: int, b: int): (r: int)
    requires b > 0
    ensures a >= 0 ==> 0 <= r < b && a == (a / b) * b + r
    ensures a < 0 ==> -b < r <= 0 && a == -((-a) / b) * b + r
  {
    if a >= 0 then a % b else -((-a) % b)
  }

  /** `formatTime(seconds)`: `Math.floor(seconds / 60)` and `seconds % 60`, each padded to two characters. */
  function FormatTime(seconds: int): string
  {
    var mins := seconds / SecondsPerMinute;
    var secs := JsRem(seconds, SecondsPerMinute);
    PadStart2(IntToString(mins)) + ":" + PadStart2(IntToString(secs))
  }

  /** Reads an MM:SS text back: digits, a colon, then exactly two digits of seconds below 60. */
  function ParseTime(t: string): (r: Option<int>)
    ensures r.Some? ==> r.value >= 0
  {
    if |t| >= 4 && t[|t| - 3] == ':' && AllDigits(t[..|t| - 3]) && AllDigits(t[|t| - 2..])
       && DigitsValue(t[|t| - 2..]) < SecondsPerMinute
    then Some(DigitsValue(t[..|t| - 3]) * SecondsPerMinute + DigitsValue(t[|t| - 2..]))
    else None
  }

  /** Two-character padding of digits keeps them digits of the same value. */
  lemma PadDigits(s: string)
    requires |s| >= 1 && AllDigits(s)
    ensures AllDigits(PadStart2(s)) && |PadStart2(s)| >= 2
    ensures DigitsValue(PadStart2(s)) == DigitsValue(s)
  {
    if |s| == 1 {
      var p := PadStart2(s);
      assert p[..1] == "0" && p[..1][..0] == [];
    }
  }

  /** A minutes field and a two-digit seconds field below 60, joined by a colon, read back as their total. */
  lemma ParseJoined(m: string, sec: string, total: int)
    requires |m| >= 2 && AllDigits(m) && |sec| == 2 && AllDigits(sec) && DigitsValue(sec) < SecondsPerMinute
    requires total == DigitsValue(m) * SecondsPerMinute + DigitsValue(sec)
    ensures var t := m + ":" + sec;
      && |t| >= 5 && t[|t| - 3] == ':' && AllDigits(t[..|t| - 3]) && AllDigits(t[|t| - 2..])
      && ParseTime(t) == Some(total)
  {
    var t := m + ":" + sec;
    assert t[..|t| - 3] == m && t[|t| - 2..] == sec;
  }

  /**
   * For a non-negative count of seconds, the rendering has a minutes field
   * of at least two digits and a seconds field of exactly two digits, and
   * reading it back gives the count.
   */
  lemma FormatTimeRoundTrip(seconds: int)
    requires seconds >= 0
    ensures var t := FormatTime(seconds);
      && |t| >= 5 && t[|t| - 3] == ':'
      && AllDigits(t[..|t| - 3]) && AllDigits(t[|t| - 2..])
      && ParseTime(t) == Some(seconds)
  {
    var mins, secs := seconds / SecondsPerMinute, seconds % SecondsPerMinute;
    var m, sec := PadStart2(NatToString(mins)), PadStart2(NatToString(secs));
    assert FormatTime(seconds) == m + ":" + sec by {
      FormatNonNegative(seconds);
    }
    assert AllDigits(m) && |m| >= 2 && DigitsValue(m) == mins by {
      PadDigits(NatToString(mins));
    }
    assert AllDigits(sec) && |sec| == 2 && DigitsValue(sec) == secs by {
      SecondsFieldWidth(secs);
      PadDigits(NatToString(secs));
    }
    assert mins * SecondsPerMinute + secs == seconds;
    ParseJoined(m, sec, seconds);
  }

  /** For a non-negative count, `formatTime` pads the decimal digits of the quotient and remainder by 60. */
  lemma FormatNonNegative(seconds: int)
    requires seconds >= 0
    ensures FormatTime(seconds)
      == PadStart2(NatToString(seconds / SecondsPerMinute)) + ":"
         + PadStart2(NatToString(seconds % SecondsPerMinute))
  {
  }

  /** A count of seconds below a minute has at most two digits. */
  lemma SecondsFieldWidth(secs: nat)
    requires secs < SecondsPerMinute
    ensures |NatToString(secs)| <= 2
  {
    if secs >= 10 {
      assert NatToString(secs) == NatToString(secs / 10) + [DigitChar(secs % 10)];
    }
  }

  class StopwatchManager {
    var isRunning: bool
    /** Seconds left in the countdown. */
    var timeLeft: int
    /** Minutes of a full countdown. */
    var duration: int

    function State(): Watch
      reads this
    {
      Watch(isRunning, timeLeft, duration)
    }

    /** Loads the duration setting, then `init` resets the countdown to it. */
    constructor(stored: Option<int>)
      ensures State() == Initial(stored)
    {
      isRunning := false;
      timeLeft := 0;
      duration := DefaultMinutes;
      new;
      duration := LoadedDuration(stored);
      ResetTimer();
    }

    /** `startTimer`: the guard, then running (the interval is `Tick`). */
    method StartTimer()
      modifies this
      ensures State() == StartStep(old(State()))
    {
      if !isRunning && timeLeft > 0 {
        isRunning := true;
      }
    }

    /** The body of the interval callback. */
    method Tick()
      requires isRunning
      modifies this
      ensures State() == TickStep(old(State()))
    {
      timeLeft := timeLeft - 1;
      if timeLeft <= 0 {
        StopTimer();
      }
    }

    method PauseTimer()
      modifies this
      ensures State() == PauseStep(old(State()))
    {
      if isRunning {
        isRunning := false;
      }
    }

    method ResumeTimer()
      modifies this
      ensures State() == ResumeStep(old(State()))
    {
      if !isRunning && timeLeft > 0 {
        StartTimer();
      }
    }

    method StopTimer()
      modifies this
      ensures State() == PauseStep(old(State()))
    {
      PauseTimer();
    }

    /** `resetTimer`, also what the completion timeout runs three seconds after the end. */
    method ResetTimer()
      modifies this
      ensures State() == ResetStep(old(State()))
    {
      StopTimer();
      timeLeft := duration * SecondsPerMinute;
    }

    method SetDuration(minutes: int)
      modifies this
      ensures State() == SetDurationStep(old(State()), minutes)
    {
      duration := minutes;
      ResetTimer();
    }

    /** The duration input's change handler with `parseInt` of its value. */
    method OnDurationChange(parsed: Option<int>)
      modifies this
      ensures State() == DurationChangeStep(old(State()), parsed)
    {
      if parsed.Some? && 0 < parsed.value <= MaxMinutes {
        SetDuration(parsed.value);
      }
    }

    /** The start button's click handler. */
    method OnStartClick()
      modifies this
      ensures State() == StartClickStep(old(State()))
    {
      if isRunning {
        PauseTimer();
      } else {
        StartTimer();
      }
    }
  }
}
