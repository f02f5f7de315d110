/**
  One iteration of the firmware's main loop as a pure step:
  sample both buttons, run button A's action under the current mode,
  advance the mode on button B, compute the head colour and shift the
  chase buffer, take the new clock reading, and test the shutoff timer
  against it.
 */
module TickLoop {

  import opened Tables
  import opened ShutoffTimer
  import opened Chase
  import opened ModeMachine

  /** What `digitalRead` returns for a button pin: LOW (0) or HIGH (1). */
  type PinLevel = x: int | 0 <= x <= 1

  const Low: PinLevel := 0
  const High: PinLevel := 1

  /**
    A button reads as pressed while its pin is LOW: the pins are pulled up
    and the button pulls them to ground. The level is sampled every tick,
    with no edge detection.
   */
  function Pressed(level: PinLevel): (pressed: bool)
    ensures pressed <==> level == Low
    ensures pressed != (level == High)
  {
    !(level != 0)
  }

  /** What one tick produces besides the next state. */
  datatype TickOutput = TickOutput(next: Controller, redraw: bool, powerOff: bool)

  /**
    The state left by setup: colour 0, full brightness at level index 0,
    timer off at index 0 with the zero target, mode 0, every LED showing
    the first palette colour, and a pending redraw.
   */
  function Init(clock: WallTime): (s: Controller)
    ensures Inv(s)
    ensures s.mode == ColorMode && s.colorIndex == 0 && s.lightLevel == 255
    ensures !s.timerOn && s.needUpdate && s.nowTime == clock
    ensures forall i :: 0 <= i < |s.leds| ==> s.leds[i] == Palette[0]
  {
    Controller(
      mode := ColorMode,
      colorIndex := 0,
      lightIndex := 0,
      lightLevel := 255,
      timerIndex := 0,
      timerOn := false,
      timerTarget := WallTime(0, 0, 0),
      nowTime := clock,
      needUpdate := true,
      leds := seq(NbLed, _ => Palette[0]))
  }

  /** The shutoff test: power off when the timer is on and its target is reached. */
  function CheckTimer(timerOn: bool, target: WallTime, now: WallTime): (off: bool)
    ensures off ==> timerOn
  {
    timerOn && Expired(now, target)
  }

  /** For in-range readings the shutoff test is a seconds-of-day comparison. */
  lemma CheckTimerMeaning(timerOn: bool, target: WallTime, now: WallTime)
    requires Valid(target) && Valid(now)
    ensures CheckTimer(timerOn, target, now)
            <==> timerOn && SecondsOfDay(target) <= SecondsOfDay(now)
  {
    ExpiredIffNotLater(now, target);
  }

  /**
    One tick. Button A's action runs first, under the mode in force at the
    start of the tick; button B's mode change follows. Timer arming uses
    the clock reading of the previous tick, the shutoff test the reading
    of this tick.
   */
  function Step(s: Controller, a: PinLevel, b: PinLevel, clock: WallTime, scale8: Scale8): (t: TickOutput)
    requires Inv(s)
    ensures Inv(t.next)
    ensures t.redraw <==> s.needUpdate || Pressed(a) || Pressed(b)
    ensures !t.next.needUpdate && t.next.nowTime == clock
    ensures Pressed(b) ==> t.next.mode == Next(s.mode, ModeCount)
    ensures !Pressed(b) ==> t.next.mode == s.mode
    ensures Pressed(a) && !Pressed(b)
            ==> t.next == Action(s).(leds := t.next.leds, nowTime := clock, needUpdate := false)
    ensures !Pressed(a) ==> t.next.colorIndex == s.colorIndex && t.next.lightIndex == s.lightIndex
                            && t.next.timerIndex == s.timerIndex && t.next.timerOn == s.timerOn
                            && t.next.timerTarget == s.timerTarget
    ensures t.next.leds[0] == t.next.leds[1]
                           == Head(Palette[t.next.colorIndex], t.next.lightLevel, scale8)
    ensures forall i :: 2 <= i < NbLed ==> t.next.leds[i] == s.leds[i - 1]
    ensures t.powerOff ==> t.next.timerOn
  {
    var acted := if Pressed(a) then Action(s) else s;
    var moved := if Pressed(b) then NextMode(acted) else acted;
    var head := Head(Palette[moved.colorIndex], moved.lightLevel, scale8);
    var next := moved.(leds := Shift(moved.leds, head), nowTime := clock, needUpdate := false);
    TickOutput(next, s.needUpdate || Pressed(a) || Pressed(b), CheckTimer(next.timerOn, next.timerTarget, clock))
  }

  /** The shutoff signal of a tick, in seconds-of-day terms. */
  lemma StepPowerOff(s: Controller, a: PinLevel, b: PinLevel, clock: WallTime, scale8: Scale8)
    requires Inv(s) && Valid(clock)
    ensures var t := Step(s, a, b, clock, scale8);
            t.powerOff <==> t.next.timerOn && SecondsOfDay(t.next.timerTarget) <= SecondsOfDay(clock)
  {
    var t := Step(s, a, b, clock, scale8);
    CheckTimerMeaning(t.next.timerOn, t.next.timerTarget, clock);
  }

  /**
    With both buttons pressed, the settings end up as "action of the old
    mode, then next mode": button A never acts under the mode button B
    selects in the same tick.
   */
  lemma BothPressedActsBeforeModeChange(s: Controller, clock: WallTime, scale8: Scale8)
    requires Inv(s)
    ensures var t := Step(s, Low, Low, clock, scale8);
            t.next == NextMode(Action(s)).(leds := t.next.leds, nowTime := clock, needUpdate := false)
  {
  }

  /**
    With neither button pressed, only the LEDs, the clock reading and the
    dirty flag change; a redraw happens only if one was already pending.
   */
  lemma NoPressKeepsSettings(s: Controller, clock: WallTime, scale8: Scale8)
    requires Inv(s)
    ensures var t := Step(s, High, High, clock, scale8);
            && t.next == s.(leds := t.next.leds, nowTime := clock, needUpdate := false)
            && (t.redraw <==> s.needUpdate)
  {
  }

  /**
    Arming in timer mode and testing at the same clock reading: the tick
    powers off at once exactly when the newly selected duration carries
    the target past midnight.
   */
  lemma ArmAcrossMidnightPowersOff(s: Controller, scale8: Scale8)
    requires Inv(s) && Valid(s.nowTime)
    requires s.mode == TimerMode
    requires TimerTable[Next(s.timerIndex, |TimerTable|)] != 0
    ensures var t := Step(s, Low, High, s.nowTime, scale8);
            t.powerOff <==> SecondsOfDay(s.nowTime) + TimerTable[t.next.timerIndex] >= SecondsPerDay
  {
    var t := Step(s, Low, High, s.nowTime, scale8);
    var d := TimerTable[t.next.timerIndex];
    assert t.next.timerTarget == Arm(s.nowTime, d);
    StepPowerOff(s, Low, High, s.nowTime, scale8);
    ExpiredIffNotLater(s.nowTime, t.next.timerTarget);
    ArmExpiredIffWraps(s.nowTime, d);
  }

  /**
    The same wrap seen by the firmware's own order: arming uses the previous
    tick's reading and the test uses this tick's later reading. If the
    selected duration carries the target past midnight and the clock has
    not itself passed midnight since the previous reading, the tick powers
    off at once.
   */
  lemma ArmAcrossMidnightLaterReadingPowersOff(s: Controller, clock: WallTime, scale8: Scale8)
    requires Inv(s) && Valid(s.nowTime) && Valid(clock)
    requires SecondsOfDay(s.nowTime) <= SecondsOfDay(clock)
    requires s.mode == TimerMode
    requires SecondsOfDay(s.nowTime) + TimerTable[Next(s.timerIndex, |TimerTable|)] >= SecondsPerDay
    ensures Step(s, Low, High, clock, scale8).powerOff
  {
    var t := Step(s, Low, High, clock, scale8);
    var d := TimerTable[t.next.timerIndex];
    assert t.next.timerTarget == Arm(s.nowTime, d);
    ArmExpiredIffWraps(s.nowTime, d);
    ExpiredIffNotLater(s.nowTime, t.next.timerTarget);
    StepPowerOff(s, Low, High, clock, scale8);
  }

  /**
    From setup: A (colour: red to blue), then B (mode: colour to
    brightness), then A (brightness: 255 to 128). The head colour is blue
    dimmed to level 128.
   */
  lemma PressSequenceScenario(clock: WallTime, scale8: Scale8)
    ensures var s1 := Step(Init(clock), Low, High, clock, scale8).next;
            var s2 := Step(s1, High, Low, clock, scale8).next;
            var s3 := Step(s2, Low, High, clock, scale8).next;
            && s3.mode == LightMode && s3.colorIndex == 1
            && s3.lightIndex == 1 && s3.lightLevel == 128
            && s3.leds[0] == Rgb(scale8(0, 128), scale8(0, 128), scale8(255, 128))
  {
  }
}
