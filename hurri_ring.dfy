/**
 * The LED ring controller: the command interpreter that commits a decoded
 * command to the controller's fields, and the per-tick engine that renders
 * the current mode into the 60-pixel buffer.
 *
 * The strip is an ideal buffer: a pixel reads back what was last written to
 * it and a write to an index off the ring is ignored. Flushing the buffer to
 * the hardware, delays and debug output have no effect on the model.
 */
module Ring {
  import opened Wrappers
  import opened RingDefs
  import opened Channels
  import opened ColorText
  import opened Command
  import opened Pixels
  import opened Shuffle

  class HurriRing {
    /** The strip's pixel buffer. */
    const pixels: array<Rgb>
    var brightness: uint8
    var colorParam: rgb24
    var numberParam: uint8
    var state: State
    var lastState: State
    var stateChange: bool
    var rouletteIdx: uint8
    var rouletteSpeed: uint8
    /** The pulse routine's two function-local statics, kept as fields. */
    var pulseBrightness: int
    var directionToggle: bool

    ghost predicate Valid()
      reads this
    {
      pixels.Length == LedCount && rouletteIdx < LedCount
    }

    /** The fields the command interpreter writes. */
    function Settings(): RenderState
      reads this
    {
      RenderState(state, lastState, colorParam, numberParam, stateChange)
    }

    /** A new controller: a dark ring, IDLE, and a pending change flag. */
    constructor ()
      ensures Valid() && fresh(pixels)
      ensures pixels[..] == Solid(Off)
      ensures brightness == InitialBrightness && colorParam == InitialColor && numberParam == InitialNumber
      ensures state == IDLE && lastState == IDLE && stateChange
      ensures rouletteIdx == InitialRouletteIdx && rouletteSpeed == InitialRouletteSpeed
      ensures pulseBrightness == 0 && directionToggle
    {
      pixels := new Rgb[LedCount](_ => Off);
      brightness := InitialBrightness;
      colorParam := InitialColor;
      numberParam := InitialNumber;
      state := IDLE;
      lastState := IDLE;
      stateChange := true;
      rouletteIdx := InitialRouletteIdx;
      rouletteSpeed := InitialRouletteSpeed;
      pulseBrightness := 0;
      directionToggle := true;
      new;
      assert pixels[..] == Solid(Off);
    }

    /** The strip's clear(): every pixel dark. */
    method Clear()
      requires Valid()
      modifies pixels
      ensures pixels[..] == Solid(Off)
    {
      forall i | 0 <= i < pixels.Length {
        pixels[i] := Off;
      }
    }

    /** The strip's setPixelColor: pixel `i` stores the bytes of `c`; an index off the ring is ignored. */
    method SetPixel(i: int, c: rgb24)
      requires Valid()
      modifies pixels
      ensures pixels[..] == if 0 <= i < LedCount then old(pixels[..])[i := Unpack(c)] else old(pixels[..])
    {
      if 0 <= i < pixels.Length {
        pixels[i] := Unpack(c);
      }
    }

    /**
     * The start-up animation: three pulse steps in green, then a dark ring.
     * On a new controller the raised change flag makes the first step reset
     * the pulse phase, which leaves it at (252, descending).
     */
    method Init()
      requires Valid()
      modifies this`pulseBrightness, this`directionToggle, this`stateChange, pixels
      ensures var first := PulseStep(old(pulseBrightness), old(directionToggle), old(stateChange));
        (pulseBrightness, directionToggle) == PulseSteps(first.0, first.1, 2)
      ensures old(stateChange) ==> pulseBrightness == 252 && directionToggle
      ensures !stateChange
      ensures pixels[..] == Solid(Off)
    {
      ghost var first := PulseStep(pulseBrightness, directionToggle, stateChange);
      var i := 0;
      while i <= 2
        modifies this`pulseBrightness, this`directionToggle, this`stateChange, pixels
        invariant 0 <= i <= 3
        invariant i == 0 ==> pulseBrightness == old(pulseBrightness) && directionToggle == old(directionToggle)
        invariant i == 0 ==> stateChange == old(stateChange)
        invariant i > 0 ==> !stateChange && (pulseBrightness, directionToggle) == PulseSteps(first.0, first.1, i - 1)
      {
        if i > 0 {
          PulseStepsNext(first.0, first.1, i - 1);
        }
        Pulse(1, GREEN);
        i := i + 1;
      }
      if old(stateChange) {
        assert first == (254, true);
        assert PulseSteps(254, true, 2) == (252, true);
      }
      SetColor(BLACK, brightness, false);
      assert Scaled(Unpack(BLACK), brightness) == Off;
    }

    /**
     * One tick of the engine: a switch on the current mode. Which routines
     * consume the change flag and which leave it set is part of the contract.
     * `draws` and `section` stand for the random numbers the tick may use and
     * `hue` for the strip's hue wheel with gamma correction.
     */
    method Loop(draws: seq<int>, section: uint8, hue: int -> Rgb)
      requires Valid()
      requires ValidDraws(draws, LedCount) && section < NUM_OF_SECTIONS
      requires state == RANDOM_NUMBER && stateChange ==> numberParam <= LedCount
      modifies this, pixels
      ensures Valid()
      ensures state == old(state) && lastState == old(lastState)
      ensures colorParam == old(colorParam) && numberParam == old(numberParam)
      ensures rouletteSpeed == old(rouletteSpeed)
      ensures stateChange == (old(stateChange) && old(state) in {FREEZE, SHOW_SECTION, SHUFFLE_SECTIONS, BRIGHTNESS})
      ensures brightness == if old(state) == BRIGHTNESS then old(numberParam) else old(brightness)
      ensures (pulseBrightness, directionToggle) ==
        if old(state) == PULSE then PulseStep(old(pulseBrightness), old(directionToggle), old(stateChange))
        else (old(pulseBrightness), old(directionToggle))
      ensures rouletteIdx == if old(state) == ROULETTE then (old(rouletteIdx) + 1) % LedCount else old(rouletteIdx)
      ensures old(state) in {IDLE, UNKNOWN, RAINBOW_WIPE} ==> pixels[..] == Solid(Off)
      ensures old(state) == STATIC ==> pixels[..] == Solid(Scaled(Unpack(colorParam), brightness))
      ensures old(state) == RAINBOW ==> pixels[..] == ChaseFrame(2, 89 * ChaseHueStep, hue)
      ensures old(state) in {FREEZE, BRIGHTNESS} ==> pixels[..] == old(pixels[..])
      ensures old(state) == PULSE ==> pixels[..] == Solid(Scaled(Unpack(colorParam), pulseBrightness % 256))
      ensures old(state) == ROULETTE ==> pixels[..] == RouletteFrame(old(rouletteIdx), Unpack(colorParam))
      ensures old(state) == RANDOM_NUMBER ==>
        pixels[..] == if old(stateChange) then RandomNumberFrame(numberParam, draws, Unpack(colorParam)) else old(pixels[..])
      ensures old(state) == SHOW_SECTION ==> pixels[..] == SectionPainted(old(pixels[..]), numberParam, Unpack(colorParam))
      ensures old(state) == SHUFFLE_SECTIONS ==>
        pixels[..] == FadeFrom(SectionPainted(old(pixels[..]), section, Unpack(RED)), 255) && AllOff(pixels[..])
    {
      match state
      case IDLE => SetColor(BLACK, brightness, false);
      case RAINBOW => TheaterChaseRainbow(5, hue);
      case RAINBOW_WIPE => RainbowWipe(5, hue);
      case FREEZE =>
      case PULSE => Pulse(5, colorParam);
      case ROULETTE => Roulette(colorParam);
      case RANDOM_NUMBER => RandomNumber(numberParam, colorParam, draws);
      case STATIC => Static(colorParam);
      case SHOW_SECTION => ShowSection(numberParam, colorParam);
      case SHUFFLE_SECTIONS => ShuffleSections(section);
      case BRIGHTNESS => SetBrightness(numberParam);
      case UNKNOWN => SetColor(BLACK, brightness, false);
    }

    /** Switches the mode directly, bypassing the interpreter; nothing else changes. */
    method SetState(s: State)
      modifies this`state
      ensures state == s
    {
      state := s;
    }

    method SetBrightness(b: uint8)
      modifies this`brightness
      ensures brightness == b
    {
      brightness := b;
    }

    /**
     * Fills the ring with `color` at brightness `b`. The change flag is
     * consumed unless `once` is set.
     */
    method SetColor(color: rgb24, b: uint8, once: bool)
      requires Valid()
      modifies this`stateChange, pixels
      ensures stateChange == (old(stateChange) && once)
      ensures pixels[..] == Solid(Scaled(Unpack(color), b))
    {
      if !once {
        stateChange := false;
      }
      var red, green, blue := Red(color), Green(color), Blue(color);
      var adjusted := Pack(ScaleChannel(red, b), ScaleChannel(green, b), ScaleChannel(blue, b));
      UnpackPack(ScaleChannel(red, b), ScaleChannel(green, b), ScaleChannel(blue, b));
      var i := 0;
      while i < pixels.Length
        modifies pixels
        invariant 0 <= i <= pixels.Length
        invariant forall k :: 0 <= k < i ==> pixels[k] == Unpack(adjusted)
      {
        pixels[i] := Unpack(adjusted);
        i := i + 1;
      }
    }

    /**
     * Fades the ring out: passes at brightness 255, 254, ..., 1, each
     * rescaling every pixel's current value, stopping early after a pass that
     * leaves every channel zero.
     */
    method FadeOut(stepDelay: uint8)
      requires Valid()
      modifies pixels
      ensures pixels[..] == FadeFrom(old(pixels[..]), 255)
    {
      var level: uint8 := 255;
      while level > 0
        modifies pixels
        invariant level > 0 ==> FadeFrom(pixels[..], level) == FadeFrom(old(pixels[..]), 255)
        invariant level == 0 ==> pixels[..] == FadeFrom(old(pixels[..]), 255)
        decreases level
      {
        ghost var before := pixels[..];
        var allLedsOff := FadeStep(level);
        FadeFromUnfold(before, level);
        if allLedsOff {
          break;
        }
        level := level - 1;
      }
    }

    /**
     * One pass of the fade-out at `level`: every pixel rescaled from its
     * current value; `allLedsOff` tells whether the ring is now dark.
     */
    method FadeStep(level: uint8) returns (allLedsOff: bool)
      requires Valid()
      modifies pixels
      ensures pixels[..] == FadePass(old(pixels[..]), level)
      ensures allLedsOff == AllOff(pixels[..])
    {
      ghost var before := pixels[..];
      ghost var after := FadePass(before, level);
      allLedsOff := true;
      var i := 0;
      while i < pixels.Length
        modifies pixels
        invariant 0 <= i <= pixels.Length
        invariant forall k :: 0 <= k < i ==> pixels[k] == after[k]
        invariant forall k :: i <= k < pixels.Length ==> pixels[k] == before[k]
        invariant allLedsOff == forall k :: 0 <= k < i ==> after[k] == Off
      {
        assert after[i] == Scaled(pixels[i], level);
        var lit := FadePixel(i, level);
        if lit {
          allLedsOff := false;
        }
        i := i + 1;
      }
      assert pixels[..] == after;
    }

    /**
     * The body of a fade pass for pixel `i`: its channels rescaled to
     * `level`/255; `lit` tells whether any channel is still above zero.
     */
    method FadePixel(i: int, level: uint8) returns (lit: bool)
      requires Valid() && 0 <= i < LedCount
      modifies pixels
      ensures pixels[..] == old(pixels[..])[i := Scaled(old(pixels[i]), level)]
      ensures lit == (Scaled(old(pixels[i]), level) != Off)
    {
      var color := pixels[i];
      var r := ScaleChannel(color.r, level);
      var g := ScaleChannel(color.g, level);
      var b := ScaleChannel(color.b, level);
      pixels[i] := Rgb(r, g, b);
      lit := r > 0 || g > 0 || b > 0;
    }

    /**
     * One pulse step in `color`: the phase moves as PulseStep says, resetting
     * first if the change flag is raised, and the ring is filled with `color`
     * at the new level taken as a byte.
     */
    method Pulse(wait: int, color: rgb24)
      requires Valid()
      modifies this`pulseBrightness, this`directionToggle, this`stateChange, pixels
      ensures (pulseBrightness, directionToggle) == PulseStep(old(pulseBrightness), old(directionToggle), old(stateChange))
      ensures pixels[..] == Solid(Scaled(Unpack(color), pulseBrightness % 256))
      ensures !stateChange
    {
      if stateChange {
        pulseBrightness := 255;
        directionToggle := true;
      }
      if directionToggle {
        pulseBrightness := pulseBrightness - 1;
        if pulseBrightness == 0 {
          directionToggle := false;
        }
      } else {
        pulseBrightness := pulseBrightness + 1;
        if pulseBrightness == 255 {
          directionToggle := true;
        }
      }
      SetColor(color, pulseBrightness % 256, false);
    }

    /**
     * The theatre chase: 30 repetitions of 3 frames, each frame clearing the
     * ring and lighting every third pixel from its phase offset by hue. What
     * stays in the buffer is the last frame.
     */
    method TheaterChaseRainbow(wait: int, hue: int -> Rgb)
      requires Valid()
      modifies this`stateChange, pixels
      ensures !stateChange
      ensures pixels[..] == ChaseFrame(2, 89 * ChaseHueStep, hue)
    {
      stateChange := false;
      var firstPixelHue := 0;
      var a := 0;
      while a < 30
        modifies pixels
        invariant 0 <= a <= 30
        invariant firstPixelHue == 3 * a * ChaseHueStep
        invariant a > 0 ==> pixels[..] == ChaseFrame(2, firstPixelHue - ChaseHueStep, hue)
      {
        var b := 0;
        while b < 3
          modifies pixels
          invariant 0 <= b <= 3
          invariant firstPixelHue == (3 * a + b) * ChaseHueStep
          invariant a > 0 || b > 0 ==>
            pixels[..] == ChaseFrame(if b > 0 then b - 1 else 2, firstPixelHue - ChaseHueStep, hue)
        {
          ChaseStep(b, firstPixelHue, hue);
          firstPixelHue := firstPixelHue + ChaseHueStep;
          b := b + 1;
        }
        a := a + 1;
      }
    }

    /**
     * One theatre-chase frame: the ring cleared, then every third pixel from
     * `b` set to its hue, with the first pixel at hue `firstPixelHue`.
     */
    method ChaseStep(b: int, firstPixelHue: int, hue: int -> Rgb)
      requires Valid() && 0 <= b
      modifies pixels
      ensures pixels[..] == ChaseFrame(b, firstPixelHue, hue)
    {
      Clear();
      var c := b;
      while c < pixels.Length
        modifies pixels
        invariant b <= c <= LedCount + b && (c - b) % 3 == 0
        invariant forall i :: 0 <= i < LedCount ==>
          pixels[i] == if b <= i < c && (i - b) % 3 == 0 then HueColor(hue, PixelHue(firstPixelHue, i)) else Off
      {
        var h := firstPixelHue + c * 65536 / LedCount;
        pixels[c] := hue(h % 0x1_0000);
        c := c + 3;
      }
    }

    /**
     * The rainbow wipe: pixel after pixel set to its hue, then the whole
     * buffer cleared (without a final flush).
     */
    method RainbowWipe(wait: int, hue: int -> Rgb)
      requires Valid()
      modifies this`stateChange, pixels
      ensures !stateChange
      ensures pixels[..] == Solid(Off)
    {
      stateChange := false;
      var firstPixelHue := 0;
      var i := 0;
      while i < pixels.Length
        modifies pixels
        invariant 0 <= i <= pixels.Length
        invariant forall k :: 0 <= k < i ==> pixels[k] == HueColor(hue, PixelHue(firstPixelHue, k))
      {
        var h := firstPixelHue + i * 65536 / LedCount;
        pixels[i] := hue(h % 0x1_0000);
        i := i + 1;
      }
      Clear();
    }

    /**
     * One roulette step: only the pixel under the cursor lit, then the cursor
     * advanced, wrapping at the ring size.
     */
    method Roulette(color: rgb24)
      requires Valid()
      modifies this`stateChange, this`rouletteIdx, pixels
      ensures Valid()
      ensures pixels[..] == RouletteFrame(old(rouletteIdx), Unpack(color))
      ensures rouletteIdx == (old(rouletteIdx) + 1) % LedCount
      ensures !stateChange
    {
      stateChange := false;
      Clear();
      SetPixel(rouletteIdx, color);
      assert pixels[..] == RouletteFrame(old(rouletteIdx), Unpack(color));
      rouletteIdx := rouletteIdx + 1;
      if rouletteIdx >= LedCount {
        rouletteIdx := 0;
      }
    }

    /**
     * The random-number mode. Only when the change flag is raised: the ring is
     * cleared, an array filled with 1 .. 60 is shuffled and the pixels its
     * first `n` entries name are lit; the entry 60 names no pixel and pixel 0
     * is never named (RandomNumberFrameLit). The flag is consumed either way.
     */
    method RandomNumber(n: uint8, color: rgb24, draws: seq<int>)
      requires Valid()
      requires stateChange ==> n <= LedCount && ValidDraws(draws, LedCount)
      modifies this`stateChange, pixels
      ensures !stateChange
      ensures old(stateChange) ==> pixels[..] == RandomNumberFrame(n, draws, Unpack(color))
      ensures old(stateChange) && color != BLACK ==>
        Lit(pixels[..]) == RandomNumberWrites(n, draws) && pixels[0] == Off
      ensures !old(stateChange) ==> pixels[..] == old(pixels[..])
    {
      if stateChange {
        SetColor(BLACK, brightness, false);
        assert Scaled(Unpack(BLACK), brightness) == Off;
        var arr := new int[LedCount];
        var i := 0;
        while i < LedCount
          modifies arr
          invariant 0 <= i <= LedCount
          invariant forall k :: 0 <= k < i ==> arr[k] == k + 1
        {
          arr[i] := i + 1;
          i := i + 1;
        }
        assert arr[..] == OneToLedCount();
        ShuffleArray(arr, draws);
        ghost var shuffled := arr[..];
        var index := 0;
        while index < n
          modifies pixels
          invariant 0 <= index <= n
          invariant forall k :: 0 <= k < LedCount ==> pixels[k] == if k in shuffled[..index] then Unpack(color) else Off
        {
          SetPixel(arr[index], color);
          assert shuffled[..index + 1] == shuffled[..index] + [shuffled[index]];
          index := index + 1;
        }
        assert pixels[..] == RandomNumberFrame(n, draws, Unpack(color));
        if color != BLACK {
          RandomNumberFrameLit(n, draws, Unpack(color));
        }
      }
      stateChange := false;
    }

    /** The Fisher-Yates shuffle, from the last index down to 1, with the given draws. */
    method ShuffleArray(a: array<int>, draws: seq<int>)
      requires ValidDraws(draws, a.Length)
      modifies a
      ensures a[..] == Shuffled(old(a[..]), draws)
    {
      var i := a.Length - 1;
      while i > 0
        invariant a.Length == 0 ==> a[..] == old(a[..])
        invariant a.Length > 0 ==> 0 <= i < a.Length
        invariant a.Length > 0 ==> FisherYates(a[..], draws, i) == Shuffled(old(a[..]), draws)
      {
        var j := draws[i];
        var temp := a[i];
        a[i] := a[j];
        a[j] := temp;
        i := i - 1;
      }
    }

    method Static(color: rgb24)
      requires Valid()
      modifies this`stateChange, pixels
      ensures !stateChange
      ensures pixels[..] == Solid(Scaled(Unpack(color), brightness))
    {
      SetColor(color, brightness, false);
    }

    /** Lights one section of the ring in `color`; an unknown section id lights nothing. */
    method ShowSection(section: uint8, color: rgb24)
      requires Valid()
      modifies pixels
      ensures pixels[..] == SectionPainted(old(pixels[..]), section, Unpack(color))
    {
      if section == LEFT {
        ShowRingPart(2, 1, color);
      } else if section == RIGHT {
        ShowRingPart(2, 2, color);
      } else if section == FIRST_QUARTER {
        ShowRingPart(4, 1, color);
      } else if section == SECOND_QUARTER {
        ShowRingPart(4, 2, color);
      } else if section == THIRD_QUARTER {
        ShowRingPart(4, 3, color);
      } else if section == FOURTH_QUARTER {
        ShowRingPart(4, 4, color);
      }
    }

    /** Lights part `part` of `total` equal parts; every other pixel keeps its value. */
    method ShowRingPart(total: uint8, part: uint8, color: rgb24)
      requires Valid() && total >= 1
      modifies pixels
      ensures pixels[..] == Painted(old(pixels[..]), PartRange(total, part).0, PartRange(total, part).1, Unpack(color))
    {
      var partSize: uint8 := LedCount / total;
      var lo, hi := (part - 1) * partSize, partSize * part;
      assert hi == lo + partSize;
      PaintRange(lo, hi, color);
    }

    /** The loop of a ring part: pixels lo <= i < hi set to `color`, one at a time. */
    method PaintRange(lo: int, hi: int, color: rgb24)
      requires Valid() && lo <= hi
      modifies pixels
      ensures pixels[..] == Painted(old(pixels[..]), lo, hi, Unpack(color))
    {
      var i := lo;
      while i < hi
        modifies pixels
        invariant lo <= i <= hi
        invariant forall k :: 0 <= k < LedCount ==> pixels[k] == if lo <= k < i then Unpack(color) else old(pixels[k])
      {
        SetPixel(i, color);
        i := i + 1;
      }
    }

    /** Lights a randomly drawn section in red, then fades the whole ring out. */
    method ShuffleSections(section: uint8)
      requires Valid() && section < NUM_OF_SECTIONS
      modifies pixels
      ensures pixels[..] == FadeFrom(SectionPainted(old(pixels[..]), section, Unpack(RED)), 255)
      ensures AllOff(pixels[..])
    {
      ShowSection(section, RED);
      FadeOut(5);
      FadeOutEndsDark(SectionPainted(old(pixels[..]), section, Unpack(RED)));
    }

    /**
     * Interprets one complete command of `data`, decoded by `decode`, and
     * commits it as Interpret says. An empty command is ignored.
     */
    method HandleBleCommand(data: string, decode: string -> Document)
      requires Valid()
      requires |data| >= 1 ==> WellTyped(decode(data))
      modifies this`state, this`lastState, this`colorParam, this`numberParam, this`stateChange
      ensures |data| >= 1 ==> Settings() == Interpret(old(Settings()), |data|, decode(data))
      ensures |data| == 0 ==> Settings() == old(Settings())
    {
      if |data| < 1 {
        return;
      }
      var doc := decode(data);
      if doc.Parsed? {
        lastState := state;
        var s := StringToState(doc.state, state);
        var color, number, changed := ReadParameters(doc.parameter);
        if s != lastState || changed {
          changed := true;
        }
        state := s;
        colorParam := color;
        numberParam := number;
        stateChange := changed;
        assert Settings() == Interpret(old(Settings()), |data|, doc);
      }
    }
  }

  /**
   * The loop over the parameter objects, starting from colour 0, number 0 and
   * no change: the last colour and the last number supplied win, and
   * `changed` records whether any object supplied either.
   */
  method ReadParameters(ps: seq<JsonObject>) returns (color: rgb24, number: uint8, changed: bool)
    requires AllWellTyped(ps)
    ensures color == ColorOf(ps) && number == NumberOf(ps)
    ensures changed == SawParam(ps)
  {
    color, number, changed := 0, 0, false;
    var paramIdx := 0;
    while paramIdx < |ps|
      invariant 0 <= paramIdx <= |ps|
      invariant AllWellTyped(ps[..paramIdx])
      invariant color == ColorOf(ps[..paramIdx])
      invariant number == NumberOf(ps[..paramIdx])
      invariant changed == SawParam(ps[..paramIdx])
    {
      var item := ps[paramIdx];
      var mentioned;
      color, number, mentioned := ReadObject(item, color, number);
      changed := changed || mentioned;
      PrefixStep(ps, paramIdx);
      paramIdx := paramIdx + 1;
    }
    assert ps[..paramIdx] == ps;
  }

  /**
   * The key loop over one parameter object: each "color" key sets the colour
   * from the text the object holds under that key, each "number" key the
   * number, and `mentioned` records whether either key was seen. Other keys
   * are skipped.
   */
  method ReadObject(item: JsonObject, color: rgb24, number: uint8) returns (newColor: rgb24, newNumber: uint8, mentioned: bool)
    requires WellTypedObject(item)
    ensures newColor == if HasKey(item, ColorKey) then ObjectColor(item) else color
    ensures newNumber == if HasKey(item, NumberKey) then ObjectNumber(item) else number
    ensures mentioned == Mentions(item)
  {
    newColor, newNumber, mentioned := color, number, false;
    var k := 0;
    while k < |item|
      invariant 0 <= k <= |item|
      invariant HasKey(item[..k], ColorKey) ==> HasKey(item, ColorKey)
      invariant HasKey(item[..k], NumberKey) ==> HasKey(item, NumberKey)
      invariant newColor == if HasKey(item[..k], ColorKey) then ObjectColor(item) else color
      invariant newNumber == if HasKey(item[..k], NumberKey) then ObjectNumber(item) else number
      invariant mentioned == Mentions(item[..k])
    {
      var key := item[k].0;
      HasKeyStep(item, k, ColorKey);
      HasKeyStep(item, k, NumberKey);
      if key == ColorKey {
        var rgb := ParseColor(Lookup(item, ColorKey).value.text).value;
        newColor := Pack(rgb.0, rgb.1, rgb.2);
        mentioned := true;
      } else if key == NumberKey {
        newNumber := Lookup(item, NumberKey).value.n;
        mentioned := true;
      }
      k := k + 1;
    }
    assert item[..k] == item;
  }
}
