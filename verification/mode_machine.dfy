/**
  The controller's mutable state and the four mode actions that button A
  triggers: colour cycle, brightness cycle, shutoff-timer select and clock
  sync. Every index advances modulo the length of its table.
 */
module ModeMachine {

  import opened Tables
  import opened ShutoffTimer

  const ModeCount: nat := 4
  const ColorMode: nat := 0
  const LightMode: nat := 1
  const TimerMode: nat := 2
  const ClockMode: nat := 3

  /**
    The firmware's globals. `nowTime` is the clock as read on the previous
    tick (or in setup); `needUpdate` is the display-dirty flag; `leds` is
    the chase buffer.
   */
  datatype Controller = Controller(
    mode: nat,
    colorIndex: nat,
    lightIndex: nat,
    lightLevel: Byte,
    timerIndex: nat,
    timerOn: bool,
    timerTarget: WallTime,
    nowTime: WallTime,
    needUpdate: bool,
    leds: seq<Rgb>)

  /** What the firmware keeps true between ticks. */
  predicate Inv(s: Controller) {
    && s.mode < ModeCount
    && s.colorIndex < |Palette|
    && s.lightIndex < |LevelTable|
    && s.lightLevel == LevelTable[s.lightIndex]
    && s.timerIndex < |TimerTable|
    && (s.timerOn <==> TimerTable[s.timerIndex] != 0)
    && Valid(s.timerTarget)
    && |s.leds| == NbLed
  }

  /** Mode 0: select the next palette colour; nothing else changes. */
  function CycleColor(s: Controller): (r: Controller)
    ensures r.colorIndex < |Palette|
    ensures s.colorIndex < |Palette| - 1 ==> r.colorIndex == s.colorIndex + 1
    ensures s.colorIndex == |Palette| - 1 ==> r.colorIndex == 0
    ensures r == s.(colorIndex := r.colorIndex)
  {
    s.(colorIndex := Next(s.colorIndex, |Palette|))
  }

  /**
    Mode 1: select the next brightness level; the stored level always
    matches the selected table entry, and nothing else changes.
   */
  function ChangeLightLevel(s: Controller): (r: Controller)
    ensures r.lightIndex < |LevelTable|
    ensures r.lightLevel == LevelTable[r.lightIndex]
    ensures s.lightIndex < |LevelTable| - 1 ==> r.lightIndex == s.lightIndex + 1
    ensures s.lightIndex == |LevelTable| - 1 ==> r.lightIndex == 0 && r.lightLevel == 255
    ensures r == s.(lightIndex := r.lightIndex, lightLevel := r.lightLevel)
  {
    var i := Next(s.lightIndex, |LevelTable|);
    s.(lightIndex := i, lightLevel := LevelTable[i])
  }

  /**
    Mode 2: select the next timer duration. A zero duration switches the
    timer off and keeps the old target; any other duration arms a valid
    target `duration` seconds after the previous tick's clock reading.
   */
  function SelectTimer(s: Controller): (r: Controller)
    ensures r.timerIndex < |TimerTable|
    ensures s.timerIndex < |TimerTable| - 1 ==> r.timerIndex == s.timerIndex + 1
    ensures s.timerIndex == |TimerTable| - 1 ==> r.timerIndex == 0
    ensures r.timerOn <==> TimerTable[r.timerIndex] != 0
    ensures !r.timerOn ==> r.timerTarget == s.timerTarget
    ensures r.timerOn ==> Valid(r.timerTarget)
    ensures r.timerOn ==> SecondsOfDay(r.timerTarget)
                          == (SecondsOfDay(s.nowTime) + TimerTable[r.timerIndex]) % SecondsPerDay
    ensures r == s.(timerIndex := r.timerIndex, timerOn := r.timerOn, timerTarget := r.timerTarget)
  {
    var i := Next(s.timerIndex, |TimerTable|);
    var duration := TimerTable[i];
    if duration == 0 then
      s.(timerIndex := i, timerOn := false)
    else
      s.(timerIndex := i, timerOn := true, timerTarget := Arm(s.nowTime, duration))
  }

  /**
    Button A: run the action of the mode in force. Mode 3 synchronises the
    real-time clock over the network, which leaves the controller state
    as it was (the new time arrives through later clock readings).
   */
  function Action(s: Controller): (r: Controller)
    ensures s.mode == ColorMode ==> r == CycleColor(s)
    ensures s.mode == LightMode ==> r == ChangeLightLevel(s)
    ensures s.mode == TimerMode ==> r == SelectTimer(s)
    ensures s.mode == ClockMode ==> r == s
    ensures r.mode == s.mode && r.leds == s.leds && r.nowTime == s.nowTime
    ensures r.needUpdate == s.needUpdate
    ensures Inv(s) ==> Inv(r)
  {
    if s.mode == ColorMode then CycleColor(s)
    else if s.mode == LightMode then ChangeLightLevel(s)
    else if s.mode == TimerMode then SelectTimer(s)
    else s
  }

  /** Button B: advance to the next mode. */
  function NextMode(s: Controller): (r: Controller)
    ensures r.mode < ModeCount
    ensures s.mode < ModeCount - 1 ==> r.mode == s.mode + 1
    ensures s.mode == ModeCount - 1 ==> r.mode == ColorMode
    ensures r == s.(mode := r.mode)
  {
    s.(mode := Next(s.mode, ModeCount))
  }

  /** `k` repetitions of one action. */
  function Repeat(f: Controller -> Controller, s: Controller, k: nat): Controller {
    if k == 0 then s else f(Repeat(f, s, k - 1))
  }

  /** k colour actions move the colour index k places round the palette. */
  lemma {:induction false} RepeatCycleColor(s: Controller, k: nat)
    requires s.colorIndex < |Palette|
    ensures Repeat(CycleColor, s, k) == s.(colorIndex := Advance(s.colorIndex, |Palette|, k))
  {
    if k > 0 {
      RepeatCycleColor(s, k - 1);
    }
  }

  /** Nine colour actions return to the starting state. */
  lemma NineColorsRestore(s: Controller)
    requires s.colorIndex < |Palette|
    ensures Repeat(CycleColor, s, |Palette|) == s
  {
    RepeatCycleColor(s, |Palette|);
    FullCycle(s.colorIndex, |Palette|);
  }

  /** k brightness actions move k places round the level table, level in step. */
  lemma {:induction false} RepeatChangeLightLevel(s: Controller, k: nat)
    requires s.lightIndex < |LevelTable|
    requires s.lightLevel == LevelTable[s.lightIndex]
    ensures Repeat(ChangeLightLevel, s, k)
            == s.(lightIndex := Advance(s.lightIndex, |LevelTable|, k),
                  lightLevel := LevelTable[Advance(s.lightIndex, |LevelTable|, k)])
  {
    if k > 0 {
      RepeatChangeLightLevel(s, k - 1);
    }
  }

  /**
    From full brightness (index 0), the k-th brightness action selects
    level `LevelTable[k % 7]`: 128, 64, 32, 16, 8, 0, then 255 again, and
    seven actions restore the starting state.
   */
  lemma BrightnessSequence(s: Controller, k: nat)
    requires s.lightIndex == 0 && s.lightLevel == 255
    ensures Repeat(ChangeLightLevel, s, k).lightLevel == LevelTable[k % |LevelTable|]
    ensures Repeat(ChangeLightLevel, s, |LevelTable|) == s
  {
    RepeatChangeLightLevel(s, k);
    AdvanceIsModular(0, |LevelTable|, k);
    RepeatChangeLightLevel(s, |LevelTable|);
    FullCycle(0, |LevelTable|);
  }

  /** Four mode presses return to the starting state. */
  lemma {:induction false} FourModesRestore(s: Controller)
    requires s.mode < ModeCount
    ensures Repeat(NextMode, s, ModeCount) == s
  {
    assert Repeat(NextMode, s, 4) == NextMode(NextMode(NextMode(NextMode(s)))) by {
      assert Repeat(NextMode, s, 1) == NextMode(s);
      assert Repeat(NextMode, s, 2) == NextMode(NextMode(s));
      assert Repeat(NextMode, s, 3) == NextMode(NextMode(NextMode(s)));
    }
  }

  /**
    k timer actions move the timer index k places round the duration table,
    keep "on iff the selected duration is non-zero", and touch only the
    timer fields.
   */
  lemma {:induction false} RepeatSelectTimer(s: Controller, k: nat)
    requires s.timerIndex < |TimerTable|
    requires s.timerOn <==> TimerTable[s.timerIndex] != 0
    ensures Repeat(SelectTimer, s, k).timerIndex == Advance(s.timerIndex, |TimerTable|, k)
    ensures Repeat(SelectTimer, s, k).timerOn <==> TimerTable[Repeat(SelectTimer, s, k).timerIndex] != 0
    ensures Repeat(SelectTimer, s, k) == s.(timerIndex := Repeat(SelectTimer, s, k).timerIndex,
                                           timerOn := Repeat(SelectTimer, s, k).timerOn,
                                           timerTarget := Repeat(SelectTimer, s, k).timerTarget)
  {
    if k > 0 {
      RepeatSelectTimer(s, k - 1);
    }
  }

  /** Six timer actions bring back the timer selection and its on/off state. */
  lemma SixTimersRestoreSelection(s: Controller)
    requires s.timerIndex < |TimerTable|
    requires s.timerOn <==> TimerTable[s.timerIndex] != 0
    ensures Repeat(SelectTimer, s, |TimerTable|).timerIndex == s.timerIndex
    ensures Repeat(SelectTimer, s, |TimerTable|).timerOn == s.timerOn
  {
    RepeatSelectTimer(s, |TimerTable|);
    FullCycle(s.timerIndex, |TimerTable|);
  }
}
