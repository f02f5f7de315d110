/**
  The LED chase buffer. Each tick the firmware writes the new head colour
  into `leds[0]` and only then shifts the array one place outwards, from
  index 11 down to 1. Because of that order the head lands in both
  `leds[0]` and `leds[1]`, and the previous `leds[0]` is overwritten
  before it can move.
 */
module Chase {

  import opened Tables

  /** FastLED's per-channel `scale8`, which `nscale8` applies to r, g and b. */
  type Scale8 = (Byte, Byte) -> Byte

  /**
    The colour written at the head: the palette colour, dimmed channel by
    channel only when the brightness is below full.
   */
  function Head(color: Rgb, level: Byte, scale8: Scale8): (head: Rgb)
    ensures level == 255 ==> head == color
    ensures level < 255 ==> head == Rgb(scale8(color.r, level), scale8(color.g, level), scale8(color.b, level))
  {
    if level < 255 then Rgb(scale8(color.r, level), scale8(color.g, level), scale8(color.b, level))
    else color
  }

  /** At brightness 0 the head is black whenever `scale8` maps level 0 to 0. */
  lemma HeadOffIsBlack(color: Rgb, scale8: Scale8)
    requires forall x: Byte :: scale8(x, 0) == 0
    ensures Head(color, 0, scale8) == Black
  {
  }

  /**
    The buffer after one tick, described position by position: head at
    0 and 1, every other position takes its inner neighbour's old colour.
   */
  function Shift(leds: seq<Rgb>, head: Rgb): (r: seq<Rgb>)
    requires |leds| == NbLed
    ensures |r| == NbLed
    ensures r[0] == head && r[1] == head
    ensures forall i :: 2 <= i < NbLed ==> r[i] == leds[i - 1]
  {
    [head, head] + leds[1..NbLed - 1]
  }

  /**
    One tick in the firmware's statement order: write the head, then copy
    `leds[i - 1]` into `leds[i]` for i from 11 down to 1.
   */
  method ShiftInPlace(leds: seq<Rgb>, head: Rgb) returns (out: seq<Rgb>)
    requires |leds| == NbLed
    ensures out == Shift(leds, head)
  {
    var written := leds[0 := head];
    out := written;
    var i := NbLed - 1;
    while i > 0
      invariant 0 <= i < NbLed
      invariant |out| == NbLed
      invariant forall j :: 0 <= j <= i ==> out[j] == written[j]
      invariant forall j :: i < j < NbLed ==> out[j] == written[j - 1]
    {
      out := out[i := out[i - 1]];
      i := i - 1;
    }
  }

  /** The buffer after `n` ticks with the same head colour. */
  function Ticks(leds: seq<Rgb>, head: Rgb, n: nat): (r: seq<Rgb>)
    requires |leds| == NbLed
    ensures |r| == NbLed
  {
    if n == 0 then leds else Shift(Ticks(leds, head, n - 1), head)
  }

  /**
    After n >= 1 ticks of a constant head, positions 0..n hold the head and
    position i > n still holds the colour that was at i - n.
   */
  lemma {:induction false} TicksTrail(leds: seq<Rgb>, head: Rgb, n: nat)
    requires |leds| == NbLed && 1 <= n
    ensures forall i :: 0 <= i < NbLed ==>
      Ticks(leds, head, n)[i] == (if i <= n then head else leds[i - n])
  {
    if n > 1 {
      TicksTrail(leds, head, n - 1);
    }
  }

  /** Eleven ticks of a constant head fill the whole strip with it. */
  lemma TicksSettle(leds: seq<Rgb>, head: Rgb, n: nat)
    requires |leds| == NbLed && NbLed - 1 <= n
    ensures Ticks(leds, head, n) == seq(NbLed, _ => head)
  {
    TicksTrail(leds, head, n);
  }
}
