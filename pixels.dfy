/**
 * What the rendering routines leave in the ring's pixel buffer, as functions
 * of the buffer they start from, and the phase logic of the pulse mode.
 */
module Pixels {
  import opened Wrappers
  import opened RingDefs
  import opened Channels

  /** Every pixel of the ring holds `c`. */
  function Solid(c: Rgb): (s: seq<Rgb>)
    ensures |s| == LedCount && forall i :: 0 <= i < |s| ==> s[i] == c
  {
    seq(LedCount, i => c)
  }

  predicate AllOff(s: seq<Rgb>)
  {
    forall i :: 0 <= i < |s| ==> s[i] == Off
  }

  /** Pixels lo <= i < hi repainted with `c`; indices off the ring are ignored. */
  function Painted(s: seq<Rgb>, lo: int, hi: int, c: Rgb): (r: seq<Rgb>)
    ensures |r| == |s|
  {
    seq(|s|, i requires 0 <= i < |s| => if lo <= i < hi then c else s[i])
  }

  /** The pixel range of part `part` of `total` equal parts of the ring. */
  function PartRange(total: uint8, part: uint8): (int, int)
    requires total >= 1
  {
    var size := LedCount / total;
    ((part - 1) * size, part * size)
  }

  /** The (parts, part) a section id selects; ids from NUM_OF_SECTIONS on select nothing. */
  function SectionParts(section: uint8): Option<(uint8, uint8)>
  {
    if section == LEFT then Some((2, 1))
    else if section == RIGHT then Some((2, 2))
    else if section == FIRST_QUARTER then Some((4, 1))
    else if section == SECOND_QUARTER then Some((4, 2))
    else if section == THIRD_QUARTER then Some((4, 3))
    else if section == FOURTH_QUARTER then Some((4, 4))
    else None
  }

  /** The contiguous pixel range of a section, or None. */
  function SectionRange(section: uint8): Option<(int, int)>
  {
    match SectionParts(section)
    case None => None
    case Some(tp) => Some(PartRange(tp.0, tp.1))
  }

  /** The buffer after showing `section` in `c`: only that range is repainted. */
  function SectionPainted(s: seq<Rgb>, section: uint8, c: Rgb): (r: seq<Rgb>)
    ensures |r| == |s|
  {
    match SectionRange(section)
    case None => s
    case Some(lh) => Painted(s, lh.0, lh.1, c)
  }

  /**
   * The six sections as pixel ranges: the halves [0,30) and [30,60) and the
   * quarters of 15 pixels each. Every id from NUM_OF_SECTIONS on has none.
   */
  lemma SectionRanges(section: uint8)
    ensures section == LEFT ==> SectionRange(section) == Some((0, 30))
    ensures section == RIGHT ==> SectionRange(section) == Some((30, 60))
    ensures section == FIRST_QUARTER ==> SectionRange(section) == Some((0, 15))
    ensures section == SECOND_QUARTER ==> SectionRange(section) == Some((15, 30))
    ensures section == THIRD_QUARTER ==> SectionRange(section) == Some((30, 45))
    ensures section == FOURTH_QUARTER ==> SectionRange(section) == Some((45, 60))
    ensures section >= NUM_OF_SECTIONS <==> SectionRange(section).None?
  {
  }

  /** Showing a section repaints exactly its range and leaves every other pixel. */
  lemma SectionPaintedExactly(s: seq<Rgb>, section: uint8, c: Rgb, i: int)
    requires |s| == LedCount && 0 <= i < LedCount
    ensures section >= NUM_OF_SECTIONS ==> SectionPainted(s, section, c) == s
    ensures section < NUM_OF_SECTIONS ==>
      var lh := SectionRange(section).value;
      0 <= lh.0 < lh.1 <= LedCount && lh.1 - lh.0 >= 15 &&
      SectionPainted(s, section, c)[i] == if lh.0 <= i < lh.1 then c else s[i]
  {
    SectionRanges(section);
  }

  lemma NoBrighterTransitive(a: Rgb, b: Rgb, c: Rgb)
    requires NoBrighter(a, b) && NoBrighter(b, c)
    ensures NoBrighter(a, c)
  {
  }

  /** One fade pass: every pixel rescaled to `b`/255 of its current value. */
  function FadePass(s: seq<Rgb>, b: uint8): (r: seq<Rgb>)
    ensures |r| == |s|
  {
    seq(|s|, i requires 0 <= i < |s| => Scaled(s[i], b))
  }

  /**
   * The fade-out run from pass `b` down: it stops after a pass that leaves
   * every pixel dark, or after the pass at brightness 1.
   */
  function FadeFrom(s: seq<Rgb>, b: uint8): (r: seq<Rgb>)
    requires b >= 1
    ensures |r| == |s|
    decreases b
  {
    var t := FadePass(s, b);
    if AllOff(t) || b == 1 then t else FadeFrom(t, b - 1)
  }

  /** One pass of the run: it ends the run when it leaves the ring dark or was the pass at 1. */
  lemma FadeFromUnfold(s: seq<Rgb>, b: uint8)
    requires b >= 1
    ensures AllOff(FadePass(s, b)) || b == 1 ==> FadeFrom(s, b) == FadePass(s, b)
    ensures !AllOff(FadePass(s, b)) && b > 1 ==> FadeFrom(s, b) == FadeFrom(FadePass(s, b), b - 1)
  {
  }

  /** The first pass, at 255, leaves every pixel as it was. */
  lemma FadeFirstPassUnchanged(s: seq<Rgb>)
    ensures FadePass(s, 255) == s
  {
  }

  /** No pass of the fade-out makes any channel of any pixel brighter. */
  lemma {:induction false} FadeNeverBrightens(s: seq<Rgb>, b: uint8, i: int)
    requires b >= 1 && 0 <= i < |s|
    ensures NoBrighter(FadeFrom(s, b)[i], s[i])
    decreases b
  {
    FadePassNoBrighter(s, b, i);
    if !(AllOff(FadePass(s, b)) || b == 1) {
      FadeNeverBrightens(FadePass(s, b), b - 1, i);
      NoBrighterTransitive(FadeFrom(FadePass(s, b), b - 1)[i], FadePass(s, b)[i], s[i]);
    }
  }

  lemma FadePassNoBrighter(s: seq<Rgb>, b: uint8, i: int)
    requires 0 <= i < |s|
    ensures NoBrighter(FadePass(s, b)[i], s[i])
  {
  }

  /**
   * With every channel at most b + 1 the fade-out from pass b ends with every
   * pixel dark: after the pass at b each channel is at most b, and the pass at
   * 1 takes whatever is left to zero.
   */
  lemma {:induction false} FadeFromEndsDark(s: seq<Rgb>, b: uint8)
    requires b >= 1
    requires forall i :: 0 <= i < |s| ==> ChannelsAtMost(s[i], b + 1)
    ensures AllOff(FadeFrom(s, b))
    decreases b
  {
    var t := FadePass(s, b);
    forall i | 0 <= i < |s|
      ensures ChannelsAtMost(t[i], b)
      ensures b == 1 ==> t[i] == Off
    {
      ScaleBelowLevel(s[i].r, b);
      ScaleBelowLevel(s[i].g, b);
      ScaleBelowLevel(s[i].b, b);
    }
    if !(AllOff(t) || b == 1) {
      FadeFromEndsDark(t, b - 1);
    }
  }

  /** The whole fade-out, from 255, always ends with the ring dark. */
  lemma FadeOutEndsDark(s: seq<Rgb>)
    ensures AllOff(FadeFrom(s, 255))
  {
    FadeFromEndsDark(s, 255);
  }

  /** The roulette frame: only pixel `idx` lit, in `c`. */
  function RouletteFrame(idx: int, c: Rgb): (r: seq<Rgb>)
    ensures |r| == LedCount
  {
    seq(LedCount, i => if i == idx then c else Off)
  }

  /** The pixel a hue lights: the uint16 truncation ColorHSV applies, then the hue wheel. */
  function HueColor(hue: int -> Rgb, h: int): Rgb
  {
    hue(h % 0x1_0000)
  }

  /** The hue of pixel `i` when the first pixel has hue `first`. */
  function PixelHue(first: int, i: int): int
  {
    first + i * 65536 / LedCount
  }

  /** One theatre-chase frame: every third pixel from `b` lit by its hue, the rest cleared. */
  function ChaseFrame(b: int, first: int, hue: int -> Rgb): (r: seq<Rgb>)
    ensures |r| == LedCount
  {
    seq(LedCount, i => if b <= i && (i - b) % 3 == 0 then HueColor(hue, PixelHue(first, i)) else Off)
  }

  /** How far the first pixel's hue advances per frame: one wheel over 90 frames. */
  const ChaseHueStep: int := 65536 / 90

  /**
   * The buffer after the full theatre chase (30 repetitions of 3 frames): the
   * last frame's, with pixels 2, 5, 8, ... lit and all others dark.
   */
  lemma ChaseLastFrame(hue: int -> Rgb, i: int)
    requires 0 <= i < LedCount
    ensures ChaseFrame(2, 89 * ChaseHueStep, hue)[i] ==
      if i % 3 == 2 then HueColor(hue, PixelHue(89 * ChaseHueStep, i)) else Off
  {
  }

  /**
   * A pulse phase (level, descending) that a pulse step keeps. A descending
   * level has not yet reached 0 and an ascending one has not yet reached 255.
   */
  predicate PhaseOk(level: int, descending: bool)
  {
    if descending then 1 <= level <= 255 else 0 <= level <= 254
  }

  /**
   * One pulse step. A raised change flag first resets the phase to
   * (255, descending). The level then moves one step, and the direction
   * flips on reaching 0 and on reaching 255.
   */
  function PulseStep(level: int, descending: bool, reset: bool): (r: (int, bool))
    ensures reset || PhaseOk(level, descending) ==> PhaseOk(r.0, r.1) && 0 <= r.0 <= 255
  {
    var (l, d) := if reset then (255, true) else (level, descending);
    if d then (l - 1, l - 1 != 0) else (l + 1, l + 1 == 255)
  }

  /** The direction flips exactly when the level reaches 0 or 255. */
  lemma PulseFlips(level: int, descending: bool)
    requires PhaseOk(level, descending)
    ensures var r := PulseStep(level, descending, false);
      (r.1 != descending <==> r.0 == 0 || r.0 == 255) &&
      (r.0 == 0 ==> !r.1) && (r.0 == 255 ==> r.1)
  {
  }

  /** `k` pulse steps without a reset. */
  function PulseSteps(level: int, descending: bool, k: nat): (int, bool)
    decreases k
  {
    if k == 0 then (level, descending)
    else
      var r := PulseStep(level, descending, false);
      PulseSteps(r.0, r.1, k - 1)
  }

  /** Descending from `level`, `level` steps reach (0, ascending). */
  lemma {:induction false} PulseDescends(level: int)
    requires 1 <= level <= 255
    ensures PulseSteps(level, true, level) == (0, false)
    decreases level
  {
    if level > 1 {
      PulseDescends(level - 1);
    }
  }

  /** Ascending from `level`, 255 - `level` steps reach (255, descending). */
  lemma {:induction false} PulseAscends(level: int)
    requires 0 <= level <= 254
    ensures PulseSteps(level, false, 255 - level) == (255, true)
    decreases 255 - level
  {
    if level < 254 {
      PulseAscends(level + 1);
    }
  }

  lemma {:induction false} PulseStepsAdd(level: int, descending: bool, j: nat, k: nat)
    ensures PulseSteps(level, descending, j + k) ==
      var m := PulseSteps(level, descending, j); PulseSteps(m.0, m.1, k)
    decreases j
  {
    if j > 0 {
      var r := PulseStep(level, descending, false);
      PulseStepsAdd(r.0, r.1, j - 1, k);
    }
  }

  /** One more step after `k` steps is the (k + 1)-th step. */
  lemma PulseStepsNext(level: int, descending: bool, k: nat)
    ensures var m := PulseSteps(level, descending, k);
      PulseSteps(level, descending, k + 1) == PulseStep(m.0, m.1, false)
  {
    PulseStepsAdd(level, descending, k, 1);
  }

  /** From the reset phase the pulse is periodic: 510 steps return to (255, descending). */
  lemma PulsePeriod()
    ensures PulseSteps(255, true, 510) == (255, true)
  {
    PulseDescends(255);
    PulseAscends(0);
    PulseStepsAdd(255, true, 255, 255);
  }
}
