/**
 * The pomodoro timer: three modes with a length in minutes each, the time
 * left in milliseconds, whether it runs, and the key that restarts the
 * countdown widget. The widget's own ticking belongs to the host; it
 * reaches the timer through Tick and Complete.
 */
module Pomodoro {
  import opened Optional
  import opened JsText
  import opened EventTimes

  datatype Mode = Focus | ShortBreak | LongBreak

  /** The length of each mode, in minutes. */
  datatype Settings = Settings(pomodoro: int, shortBreak: int, longBreak: int)

  const DefaultSettings: Settings := Settings(25, 5, 15)

  const MsPerMinute: int := 60 * 1000

  /** `settings[mode]`. */
  function MinutesFor(s: Settings, m: Mode): int
  {
    match m
    case Focus => s.pomodoro
    case ShortBreak => s.shortBreak
    case LongBreak => s.longBreak
  }

  /** The full length of a mode: `settings[mode] * 60 * 1000`. */
  function Duration(s: Settings, m: Mode): int
  {
    MinutesFor(s, m) * MsPerMinute
  }

  /** The largest value of each mode's slider; every slider starts at 1
      and steps by 1. */
  function SliderMax(m: Mode): int
  {
    if m == ShortBreak then 30 else 60
  }

  predicate SettingsInRange(s: Settings)
  {
    forall m: Mode :: 1 <= MinutesFor(s, m) <= SliderMax(m)
  }

  /** `{ ...prev, [type]: value }`: that mode's length is the new value,
      and the others keep theirs. */
  function WithSetting(s: Settings, m: Mode, value: int): (r: Settings)
    ensures MinutesFor(r, m) == value
    ensures forall k: Mode :: k != m ==> MinutesFor(r, k) == MinutesFor(s, k)
  {
    match m
    case Focus => s.(pomodoro := value)
    case ShortBreak => s.(shortBreak := value)
    case LongBreak => s.(longBreak := value)
  }

  /** The defaults are slider values, and a slider value keeps every
      length a slider value, so every full length lies between one minute
      and one hour. */
  lemma SettingsStayInRange(s: Settings, m: Mode, value: int, k: Mode)
    requires SettingsInRange(s) && 1 <= value <= SliderMax(m)
    ensures SettingsInRange(DefaultSettings)
    ensures SettingsInRange(WithSetting(s, m, value))
    ensures MsPerMinute <= Duration(s, k) <= 60 * MsPerMinute
  {
    assert 1 <= MinutesFor(s, k) <= SliderMax(k);
  }

  class PomodoroTimer {
    var settings: Settings
    var mode: Mode
    var timeLeft: int
    var isRunning: bool
    var key: nat

    predicate Valid()
      reads this
    {
      SettingsInRange(settings)
    }

    /** The state of the first render: focus mode, the default lengths, a
        full focus period left, stopped, key 0. */
    constructor ()
      ensures settings == DefaultSettings && mode == Focus
      ensures timeLeft == 25 * 60 * 1000 && !isRunning && key == 0
      ensures Valid()
    {
      settings := DefaultSettings;
      mode := Focus;
      timeLeft := Duration(DefaultSettings, Focus);
      isRunning := false;
      key := 0;
    }

    method Start()
      modifies this
      ensures isRunning
      ensures settings == old(settings) && mode == old(mode)
      ensures timeLeft == old(timeLeft) && key == old(key)
    {
      isRunning := true;
    }

    method Pause()
      modifies this
      ensures !isRunning
      ensures settings == old(settings) && mode == old(mode)
      ensures timeLeft == old(timeLeft) && key == old(key)
    {
      isRunning := false;
    }

    /** Stop, refill the current mode's full length, and bump the key so
        the widget starts over. */
    method Reset()
      modifies this
      ensures !isRunning && timeLeft == Duration(settings, mode) && key == old(key) + 1
      ensures settings == old(settings) && mode == old(mode)
    {
      isRunning := false;
      timeLeft := Duration(settings, mode);
      key := key + 1;
    }

    /** The effect on mount, which resets once. */
    method Mount()
      modifies this
      ensures !isRunning && timeLeft == Duration(settings, mode) && key == old(key) + 1
      ensures settings == old(settings) && mode == old(mode)
    {
      Reset();
    }

    /** The widget reached zero: stop, call the completion callback when
        the page gave one, and reset to the full length of the same mode. */
    method Complete(hasCallback: bool) returns (callbackCalled: bool)
      modifies this
      ensures callbackCalled == hasCallback
      ensures !isRunning && timeLeft == Duration(settings, mode) && key == old(key) + 1
      ensures settings == old(settings) && mode == old(mode)
    {
      isRunning := false;
      callbackCalled := hasCallback;
      Reset();
    }

    /** The widget reports the milliseconds left. */
    method Tick(total: int)
      modifies this
      ensures timeLeft == total
      ensures settings == old(settings) && mode == old(mode)
      ensures isRunning == old(isRunning) && key == old(key)
    {
      timeLeft := total;
    }

    /** A tab click. Choosing the current mode leaves the state as it is;
        another mode changes it, and the effect on the mode resets. */
    method SetMode(m: Mode)
      modifies this
      ensures mode == m && settings == old(settings)
      ensures m == old(mode) ==>
        timeLeft == old(timeLeft) && isRunning == old(isRunning) && key == old(key)
      ensures m != old(mode) ==>
        !isRunning && timeLeft == Duration(settings, m) && key == old(key) + 1
    {
      if m != mode {
        mode := m;
        Reset();
      }
    }

    /** A slider move. The settings object is always a new one, so the
        effect on the settings resets even when the value is the same. */
    method UpdateSettings(m: Mode, value: int)
      requires Valid() && 1 <= value <= SliderMax(m)
      modifies this
      ensures Valid()
      ensures settings == WithSetting(old(settings), m, value) && mode == old(mode)
      ensures !isRunning && timeLeft == Duration(settings, mode) && key == old(key) + 1
    {
      SettingsStayInRange(settings, m, value, mode);
      settings := WithSetting(settings, m, value);
      Reset();
    }
  }

  /** The renderer: "00:00" once completed, else the minutes and seconds
      it is given, each padded to two digits. */
  function Renderer(minutes: nat, seconds: nat, completed: bool): string
  {
    if completed then "00:00" else TwoDigits(minutes) + ":" + TwoDigits(seconds)
  }

  lemma TwoDigitsLength(n: nat)
    requires n < 100
    ensures |TwoDigits(n)| == 2
  {
    if n >= 10 {
      assert NatToString(n) == NatToString(n / 10) + [DigitChar(n % 10)];
    }
  }

  /** Below 100 the renderer's text is five characters, a colon in the
      middle, and reads back as the minutes and seconds it shows. */
  lemma RendererReadsBack(minutes: nat, seconds: nat)
    requires minutes < 100 && seconds < 100
    ensures |Renderer(minutes, seconds, false)| == 5 && Renderer(minutes, seconds, false)[2] == ':'
    ensures HoursOf(Renderer(minutes, seconds, false)) == Some(minutes)
    ensures MinutesOf(Renderer(minutes, seconds, false)) == Some(seconds)
  {
    TwoDigitsLength(minutes);
    TwoDigitsLength(seconds);
    ReadTwoDigitTime(minutes, seconds);
  }

  /** The minutes and seconds the countdown widget hands the renderer for
      `total` milliseconds left: the minutes within the hour, since the
      widget counts whole hours separately, and the seconds within the
      minute. */
  function WidgetMinutes(total: nat): nat { (total / MsPerMinute) % 60 }
  function WidgetSeconds(total: nat): nat { (total / 1000) % 60 }

  /** The text shown for `total` milliseconds left, as written. */
  function ShownTime(total: nat): string
  {
    Renderer(WidgetMinutes(total), WidgetSeconds(total), total == 0)
  }

  lemma ZeroZeroText()
    ensures Renderer(0, 0, false) == "00:00"
  {
    assert NatToString(0) == "0";
    assert TwoDigits(0) == "00";
  }

  /** A full hour, the longest focus or long break the sliders allow,
      shows "00:00" before it starts, the text of a completed timer. */
  lemma FullHourShowsZero()
    ensures SettingsInRange(Settings(60, 5, 15))
    ensures ShownTime(Duration(Settings(60, 5, 15), Focus)) == ShownTime(0) == "00:00"
  {
    var d := Duration(Settings(60, 5, 15), Focus);
    assert d == 3600000;
    assert WidgetMinutes(d) == 0 && WidgetSeconds(d) == 0;
    ZeroZeroText();
  }

  /** The text with all the whole minutes left, hours included. */
  function ShownTimeWholeMinutes(total: nat): string
  {
    Renderer(total / MsPerMinute, WidgetSeconds(total), total == 0)
  }

  /** Any time under 100 minutes left reads back as its whole minutes and
      its seconds within the minute. */
  lemma ShownWholeMinutesReadBack(total: nat)
    requires 0 < total < 100 * MsPerMinute
    ensures HoursOf(ShownTimeWholeMinutes(total)) == Some(total / MsPerMinute)
    ensures MinutesOf(ShownTimeWholeMinutes(total)) == Some(WidgetSeconds(total))
  {
    RendererReadsBack(total / MsPerMinute, WidgetSeconds(total));
  }

  lemma WholeMinutesOfLength(k: int)
    requires 1 <= k <= 60
    ensures 0 < k * MsPerMinute < 100 * MsPerMinute
    ensures (k * MsPerMinute) / MsPerMinute == k && ((k * MsPerMinute) / 1000) % 60 == 0
  {
    assert k * MsPerMinute == (k * 60) * 1000;
  }

  /** Every full length a slider allows shows its own minutes and zero
      seconds. */
  lemma FullLengthShown(s: Settings, m: Mode)
    requires SettingsInRange(s)
    ensures HoursOf(ShownTimeWholeMinutes(Duration(s, m))) == Some(MinutesFor(s, m))
    ensures MinutesOf(ShownTimeWholeMinutes(Duration(s, m))) == Some(0)
  {
    assert 1 <= MinutesFor(s, m) <= SliderMax(m);
    WholeMinutesOfLength(MinutesFor(s, m));
    ShownWholeMinutesReadBack(Duration(s, m));
  }
}
