/**
  The static tables of the StickLED controller: the colour palette, the
  brightness levels and the shutoff-timer durations, together with the
  8-bit colour type the LED strip consumes.
 */
module Tables {

  import Arith

  /** An unsigned 8-bit value, as `uint8_t` in the firmware. */
  type Byte = x: int | 0 <= x < 256

  /** One LED colour, one byte per channel (FastLED's `CRGB`). */
  datatype Rgb = Rgb(r: Byte, g: Byte, b: Byte)

  const Black: Rgb := Rgb(0, 0, 0)

  /** Number of LEDs on the strip. */
  const NbLed: nat := 12

  /**
    LED colours of the nine palette entries, in table order: red, blue,
    green, orange, purple, yellow, white, olive, forest green. The values
    are FastLED's HTML colour codes.
   */
  const Palette: seq<Rgb> := [
    Rgb(0xFF, 0x00, 0x00),
    Rgb(0x00, 0x00, 0xFF),
    Rgb(0x00, 0x80, 0x00),
    Rgb(0xFF, 0xA5, 0x00),
    Rgb(0x80, 0x00, 0x80),
    Rgb(0xFF, 0xFF, 0x00),
    Rgb(0xFF, 0xFF, 0xFF),
    Rgb(0x80, 0x80, 0x00),
    Rgb(0x22, 0x8B, 0x22)
  ]

  /** Brightness levels, from full to off. */
  const LevelTable: seq<Byte> := [255, 128, 64, 32, 16, 8, 0]

  const Minute: nat := 60
  const Hour: nat := 60 * Minute

  /** Shutoff durations in seconds; entry 0 means "no timer". */
  const TimerTable: seq<nat> := [0, 5, 30 * Minute, Hour, Hour + 30 * Minute, 2 * Hour]

  /** `(i + 1) % n`: how every index of the controller advances. */
  function Next(i: nat, n: nat): (r: nat)
    requires 0 < n
    ensures r < n
    ensures i < n ==> (r == 0 <==> i == n - 1)
    ensures i < n - 1 ==> r == i + 1
  {
    (i + 1) % n
  }

  /** Advancing a reduced index k times lands on `(i + k) % n`. */
  function Advance(i: nat, n: nat, k: nat): nat
    requires 0 < n
  {
    if k == 0 then i else Next(Advance(i, n, k - 1), n)
  }

  lemma {:induction false} AdvanceIsModular(i: nat, n: nat, k: nat)
    requires 0 < n && i < n
    ensures Advance(i, n, k) == (i + k) % n
  {
    if k > 0 {
      AdvanceIsModular(i, n, k - 1);
      Arith.ModSucc(i + k - 1, n);
    }
  }

  /** Going once round a table of n entries returns to the start. */
  lemma FullCycle(i: nat, n: nat)
    requires 0 < n && i < n
    ensures Advance(i, n, n) == i
  {
    AdvanceIsModular(i, n, n);
    Arith.ModUnique(i + n, n, 1, i);
  }
}
