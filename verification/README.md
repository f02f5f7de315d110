# StickLED controller — a Dafny model

StickLED is the firmware of a small wearable LED accessory. It has a
ring of 12 addressable LEDs, a small display, two buttons (A and B), a
real-time clock and a power controller. This project models the
firmware's per-tick controller as pure Dafny functions over an immutable
state record, and proves properties of that model.

- **Tables** (`tables.dfy`) holds the 9-colour palette, the brightness
  levels `[255, 128, 64, 32, 16, 8, 0]` and the shutoff durations
  `[0, 5 s, 30 min, 1 h, 1 h 30 min, 2 h]`. It also defines the
  "next index modulo table length" counter that every selector uses.
- **ShutoffTimer** (`shutoff_timer.dfy`) models timer arithmetic. `Arm`
  adds a duration to a wall-clock time, carrying seconds into minutes
  and minutes into hours; hours wrap at 24. `Expired` compares the target
  with the clock field by field (hours, then minutes, then seconds).
  Both are proved against seconds since midnight.
- **Chase** (`chase.dfy`) models the LED chase buffer. The head colour is
  dimmed by FastLED's `nscale8` only below full brightness. The buffer
  step follows the firmware's statement order.
- **ModeMachine** (`mode_machine.dfy`) holds the controller state and the
  four mode actions that button A triggers: colour cycle, brightness
  cycle, timer select and clock sync. It also holds the mode advance
  that button B triggers.
- **TickLoop** (`tick_loop.dfy`) defines the state after `setup` and one
  iteration of `loop`: `Step(state, pinA, pinB, clock, scale8) -> (state', redraw, powerOff)`.
- **Arith** (`arith.dfy`) holds the facts about Euclidean division the
  proofs use.

Behaviour of the code that the proofs make explicit:

- The firmware writes the new head into `leds[0]` before it shifts the
  array. The head therefore appears at positions 0 and 1. The old
  `leds[0]` is lost, and a constant colour fills the strip after 11
  ticks, not 12. The model follows this code order rather than a
  "shift, then write" order.
- `setup` fills every LED with the first palette colour (red), not black.
- A timer target that wraps past midnight compares as already reached.
  Arming uses the previous tick's reading. If `now + duration` reaches
  midnight, the tick powers off at once when it tests the same reading
  (`ArmAcrossMidnightPowersOff`). It also powers off at once when it
  tests this tick's later reading, as long as the clock has not itself
  passed midnight (`ArmAcrossMidnightLaterReadingPowersOff`). For
  example, a 2-hour timer armed at 22:30 shuts the device off
  immediately.
- Button A's action runs under the mode that was active before button
  B's press in the same tick.
- Timer arming uses the clock reading from the previous tick. The expiry
  test uses this tick's reading.
- The display-dirty flag starts `true`. It is set by any press and
  cleared after each redraw.

## Model

| member | source | states |
|---|---|---|
| `ShutoffTimer.Arm` | src/main.cpp:117-122 | for any duration, the armed target is a valid time (h<24, m<60, s<60) whose seconds-of-day is `(seconds-of-day(now) + duration) mod 86400` |
| `ShutoffTimer.Expired` | src/main.cpp:157-169 | the field-by-field test (hours, then minutes, then seconds); the contract states only that equality counts as expired, that a later target hour never fires, and that firing needs an earlier hour or a minute no later than now's. Its full meaning is `ExpiredIffNotLater` |
| `ShutoffTimer.ExpiredIffNotLater` | src/main.cpp:157-169 | for in-range minute/second fields, the field-by-field expiry test holds iff target's seconds-of-day ≤ now's (equality counts as expired) |
| `ShutoffTimer.ArmExpiredIffWraps` | src/main.cpp:117-169 | for a valid `now` and 0 < d ≤ one day, the freshly armed target tests as expired at `now` iff `now + d` reaches midnight; without a wrap it does not |
| `ShutoffTimer.ArmExamples` | src/main.cpp:117-169 | 23:59.58 + 5 s arms 00:00.03; 10:00.00 + 1 h arms 11:00.00; expiry is inclusive at equality and false one second before |
| `Chase.Head` | src/main.cpp:338-343 | the contract states only the brightness gate: at level 255 the head is the palette colour unscaled; below 255 each channel is passed through `scale8` (a parameter standing for FastLED's `nscale8`) |
| `Chase.HeadOffIsBlack` | src/main.cpp:338-343 | at level 0 the head is black, provided `scale8` maps level 0 to 0 |
| `Chase.Shift` | src/main.cpp:339-347 | the buffer after one tick, position by position: 12 LEDs, head at 0 and 1, old `leds[i-1]` at i for 2 ≤ i ≤ 11 (old `leds[0]` is lost); `ShiftInPlace` proves the code's loop computes it |
| `Chase.ShiftInPlace` | src/main.cpp:339-347 | writing the head first and then copying `leds[i-1]` to `leds[i]` for i = 11..1 yields head at 0 and 1, and old `leds[i-1]` at i for 2 ≤ i ≤ 11 |
| `Chase.TicksTrail` | src/main.cpp:344-347 | after n ≥ 1 ticks with a constant head, positions 0..n hold the head, and position i > n holds the colour that was at i − n |
| `Chase.TicksSettle` | src/main.cpp:344-347 | after 11 or more ticks with a constant head, all 12 LEDs hold it |
| `ModeMachine.CycleColor` | src/main.cpp:86-90 | the colour index advances by one and wraps from 8 to 0; no other field changes |
| `ModeMachine.ChangeLightLevel` | src/main.cpp:177-182 | the level index advances by one and wraps from 6 to 0; the level equals the selected table entry; no other field changes |
| `ModeMachine.SelectTimer` | src/main.cpp:105-126 | the timer index advances modulo 6; the timer is on iff the selected duration is non-zero; a zero duration keeps the old target; otherwise the target is valid and lies duration seconds (mod one day) after the previous clock reading; only timer fields change |
| `ModeMachine.Action` | src/main.cpp:85-94 | button A runs mode 0 → colour, 1 → brightness, 2 → timer, 3 → no model state change; mode, LEDs and clock reading are untouched; the invariant is preserved |
| `ModeMachine.NextMode` | src/main.cpp:332-336 | the mode advances by one and wraps from 3 to 0; nothing else changes |
| `ModeMachine.RepeatCycleColor` | src/main.cpp:86-90 | k colour actions advance the colour index by k modulo 9 and change nothing else |
| `ModeMachine.NineColorsRestore` | src/main.cpp:88 | nine colour actions restore the state |
| `ModeMachine.RepeatChangeLightLevel` | src/main.cpp:177-182 | k brightness actions advance the level index by k modulo 7, keeping the level equal to the table entry |
| `ModeMachine.BrightnessSequence` | src/main.cpp:179-180 | from index 0 (255), the k-th action selects `LevelTable[k mod 7]` (128, 64, 32, 16, 8, 0, 255); seven actions restore the state |
| `ModeMachine.FourModesRestore` | src/main.cpp:334 | four mode advances restore the state |
| `ModeMachine.RepeatSelectTimer` | src/main.cpp:107-113 | k timer actions advance the timer index by k modulo 6, keep "on iff duration ≠ 0", and change only timer fields |
| `ModeMachine.SixTimersRestoreSelection` | src/main.cpp:107-113 | six timer actions restore the timer index and on/off flag |
| `TickLoop.Pressed` | src/main.cpp:36-39 | `on = !digitalRead(pin)`: a button reads as pressed iff its pin is LOW (active-low), sampled per tick |
| `TickLoop.Init` | src/main.cpp:302-310 | setup establishes the controller invariant: mode 0, colour 0, level 255 at index 0, timer off at index 0, all LEDs the first palette colour, redraw pending |
| `TickLoop.CheckTimer` | src/main.cpp:150-174 | power-off is never signalled while the timer is off |
| `TickLoop.CheckTimerMeaning` | src/main.cpp:150-174 | for valid times, power-off iff the timer is on and target seconds-of-day ≤ now's |
| `TickLoop.Step` | src/main.cpp:320-371 | a tick preserves the invariant (all indices in range, level matches its index, timer on iff duration ≠ 0, 12 LEDs); redraw iff a redraw was pending or a button is pressed; B advances the mode; with A alone the settings become the active mode's action; without A no setting changes; LEDs 0 and 1 hold the head, which is unscaled at level 255; LED i holds old LED i−1 for 2 ≤ i ≤ 11 |
| `TickLoop.StepPowerOff` | src/main.cpp:359-371 | the tick's power-off signal compares the settled timer target with this tick's clock reading, in seconds-of-day |
| `TickLoop.BothPressedActsBeforeModeChange` | src/main.cpp:327-336 | with both buttons pressed, the settings equal "old mode's action, then next mode" |
| `TickLoop.NoPressKeepsSettings` | src/main.cpp:324-336 | with neither button pressed (both pins High), only LEDs, clock reading and dirty flag change, and a redraw happens iff one was pending |
| `TickLoop.ArmAcrossMidnightPowersOff` | src/main.cpp:105-174 | arming in timer mode and testing at the same reading powers off on that tick iff the new duration carries past midnight |
| `TickLoop.ArmAcrossMidnightLaterReadingPowersOff` | src/main.cpp:105-174 | arming from the previous tick's reading and testing this tick's later reading (clock not past midnight since) powers off on that tick whenever the new duration carries past midnight |
| `TickLoop.PressSequenceScenario` | src/main.cpp:320-347 | from setup, A, then B, then A gives mode 1, colour 1 (blue) and level 128; the head is blue dimmed by `scale8` at 128 |

## Left out

- Display output is not modelled: `renderMain`, `renderTimer`, captions,
  the clock label, battery drawing and `snprintf` formatting. This is
  pixel output only. The model keeps only the redraw flag.
- `dispBattery` is not modelled. It uses floating point and reads
  power-controller telemetry only for display.
- `setupDateTime` (WiFi, NTP, RTC write) is not modelled. Mode 3's
  action leaves the model state unchanged. The time it writes reaches
  the model through later clock readings, which are step inputs.
- `digitalRead` and `rtc.getTime` are not modelled. Pin levels and clock
  readings are inputs of `Step` and `Init`.
- Hardware setup in `setup` is not modelled (CPU frequency, serial, I2C,
  power-controller configuration, LED driver registration). Neither are
  `FastLED.show` and `FastLED.delay`. They are output and pacing only.
- `nscale8` is FastLED library code that is not part of this model. It
  is a parameter `scale8` of `Step`, applied to each channel.
- Palette LED colours use FastLED's HTML colour codes for `CRGB::Red`
  and the other named colours. The proofs rely only on the entries that
  the scenario names.
- The `TFT_*` display colours and the Japanese captions are not
  modelled. They are used only for rendering.
- `axp.powerOff()` is not modelled as an effect. `Step` returns a
  `powerOff` flag. What happens after power-off is not modelled.
- The 32-bit `int` arithmetic of `selectTimer` is modelled with unbounded
  integers. With the table's durations (at most 7200 s) and clock fields
  below 256, no intermediate value comes near overflow.
- WallTime fields are natural numbers. The RTC's fields are never
  negative, so C's truncating `/` and `%` agree with Dafny's.
- ShutoffTimer.ArmExpiredIffWraps: requires a duration of at most one
  day. The firmware's durations are at most two hours. For longer
  durations the carry wraps more than once and the statement does not
  hold.
- TickLoop.Step: requires the controller invariant. The firmware's
  globals satisfy it from `setup` onwards, because every index is
  reduced modulo its table length.
