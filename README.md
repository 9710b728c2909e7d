# HurriRing LED-ring controller, modelled in Dafny

HurriRing drives a ring of 60 RGB pixels from commands received over a BLE
characteristic. The model covers the three parts of the controller that
carry logic:

- **The fragment reassembler** (`Reassembler.Callbacks.OnWrite`). A command
  may arrive in several writes. Each chunk is appended to a buffer. When the
  buffer ends in `}`, the whole buffer is handed to the interpreter and the
  buffer empties.
- **The command interpreter** (`Ring.HurriRing.HandleBleCommand`, with
  `RingDefs.StringToState`). It takes a decoded document: either a decode
  failure, or a mode name with a list of parameter objects. It commits the
  mode, the last mode, the colour and number parameters and the change flag.
  The commit rule is the function `Command.Interpret`.
- **The per-tick engine** (`Ring.HurriRing.Loop`). It is a switch on the
  current mode that runs one step of that mode's routine against the
  60-pixel buffer:
  - solid fill with brightness scaling;
  - a cumulative fade-out with early exit;
  - a pulse phase counter;
  - a roulette cursor;
  - a Fisher-Yates shuffle that lights a random set of pixels;
  - contiguous ring sections;
  - two hue animations;
  - the brightness side channel.

  Each routine's contract also records whether it consumes the one-shot
  change flag.

The controller is the class `Ring.HurriRing`. Its fields are those of the C++
class. The pulse routine's two function-local statics become the fields
`pulseBrightness` and `directionToggle`. The strip's pixel buffer is an
`array<Rgb>` of length 60. Each entry holds the three bytes the strip stores
for a pixel. The strip is treated as an ideal buffer: a pixel reads back what
was last written to it, and a write to an index off the ring is ignored.

What each routine leaves in the buffer is stated by functions of the
buffer's old contents, in module `Pixels`. Those functions carry their own
lemmas:
- the fade-out never brightens a pixel and always ends dark;
- a section repaints exactly its range;
- the pulse direction flips exactly at 0 and 255, and the pulse repeats every 510 steps.

The shuffle is `Shuffle.Shuffled`, proved to return a permutation of its input.

Inputs the controller takes from code outside this model become parameters:
- the JSON decoder becomes `decode: string -> Document`;
- `random()` becomes a sequence of draws `draws` (the draw for index i lies in
  [0, i]) and a `section` argument below `NUM_OF_SECTIONS`;
- the strip's gamma-corrected hue wheel (`gamma32(ColorHSV(h))`) becomes
  `hue: int -> Rgb`.

Delays, `show()` and debug printing have no effect on the model.

### Two behaviours of the code worth knowing

- **Absent parameters reset.** Every successful command resets both
  `colorParam` and `numberParam` to 0 before reading its parameters (lines
  399-400), and commits them whether or not they were supplied (446-447). A
  parameter that a command leaves out does not keep its previous value.
  `Command.ColorOfAbsent` and `Command.NumberOfAbsent` state this.
- **The random-number array is 1-based.** The random-number mode fills its
  array with 1 .. 60 (line 321) and uses the entries as pixel indices (line
  329), which run 0 .. 59. The controller method `Ring.HurriRing.RandomNumber`
  models this as written. The consequence is recorded under "## Findings".
  The corrected fill is modelled beside it: `Shuffle.IntendedRandomNumberFrame`
  and `Shuffle.IntendedRandomNumberWrites`.

## Model

| member | source | states |
|---|---|---|
| Reassembler.FeedDispatches | lib/HurriRing/HurriRing.cpp:30-45 | One write dispatches exactly when the appended buffer ends in `}`. It then dispatches the whole appended buffer and leaves the buffer empty; otherwise it keeps the buffer followed by the chunk. Either way the new buffer never ends in `}`. |
| Reassembler.ReassembleConserves | lib/HurriRing/HurriRing.cpp:21-46 | Over any run of writes, nothing is lost or duplicated: the dispatched messages followed by the leftover buffer are exactly the old buffer followed by every chunk. |
| Reassembler.ReassembleMessagesComplete | lib/HurriRing/HurriRing.cpp:33-45 | Every dispatched message ends in `}`. After at least one write, the leftover buffer does not. |
| Reassembler.FragmentedMessage | lib/HurriRing/HurriRing.cpp:21-46 | A command split over several writes, whose buffer first ends in `}` with the last chunk, is dispatched once, as old buffer plus all chunks, and the buffer ends empty. |
| Reassembler.Callbacks.constructor | lib/HurriRing/HurriRing.cpp:13-18 | The callback object starts with an empty buffer bound to its controller. |
| Reassembler.Callbacks.OnWrite | lib/HurriRing/HurriRing.cpp:21-46 | One write, as `Feed` says. On dispatch, the message is the concatenation of all chunks since the last dispatch, the controller's fields become `Interpret` of it, and the buffer is empty. Otherwise nothing is dispatched and no controller field changes. |
| RingDefs.StringToState | lib/HurriRing/HurriRing.cpp:167-176 | A name in the table resolves to its entry; any other name resolves to the current mode. The result is UNKNOWN only if UNKNOWN was already current. |
| RingDefs.StateTableHasEveryMode | lib/HurriRing/HurriRing.h:45-57 | Every mode except UNKNOWN is in the name table under its enumerator's spelling. |
| RingDefs.StateTableOnlyModes | lib/HurriRing/HurriRing.h:20-57 | Every table entry is the mode spelled by its key. No entry is UNKNOWN, and "UNKNOWN" is not a key, so the table holds exactly the 11 names IDLE … BRIGHTNESS. |
| RingDefs.NoNameResolvesToUnknown | lib/HurriRing/HurriRing.h:45-57 | No command string resolves to UNKNOWN from any other mode. |
| Command.Lookup | lib/HurriRing/HurriRing.cpp:422 | A keyed lookup finds a value exactly when the object has the key, and that value is one the object holds under the key. |
| Command.Interpret | lib/HurriRing/HurriRing.cpp:393-450 | An empty command or a decode failure changes no field, not even the last mode. Otherwise the last mode becomes the old mode, and the change flag is "mode moved or some colour/number key was seen". |
| Command.ColorOfLastWins | lib/HurriRing/HurriRing.cpp:415-428 | With several colour parameters, the colour committed is that of the last object carrying a "color" key. |
| Command.ColorOfAbsent | lib/HurriRing/HurriRing.cpp:399-400 | Without any "color" key, the colour committed is 0: it does not keep its previous value. |
| Command.NumberOfLastWins | lib/HurriRing/HurriRing.cpp:415-433 | With several number parameters, the number committed is that of the last object carrying a "number" key. |
| Command.NumberOfAbsent | lib/HurriRing/HurriRing.cpp:399-400 | Without any "number" key, the number committed is 0. |
| Command.KnownNameSelectsMode | lib/HurriRing/HurriRing.cpp:410-413 | A command with a name in the table selects that mode, whatever mode was current. |
| Command.UnknownNameIsNoChange | lib/HurriRing/HurriRing.cpp:413-448 | An unknown name without parameters keeps the mode and raises no change. The last mode becomes the current one, and both parameters become 0. |
| Command.RepeatedCommand | lib/HurriRing/HurriRing.cpp:437-448 | The same command sent twice in a row: the second time the mode stays, and the change flag is raised only if parameters were supplied. |
| Command.ColorParameterPacks | lib/HurriRing/HurriRing.cpp:421-425 | The text "R,G,B" a client writes for (R, G, B), given as the colour parameter, commits R * 65536 + G * 256 + B. |
| ColorText.ParseByteCanonical | lib/HurriRing/HurriRing.cpp:424 | Each byte's canonical decimal spelling is read back as that byte. |
| ColorText.ParseByteRejectsNonDigit | lib/HurriRing/HurriRing.cpp:424 | The model reads a component only when it is plain digits. A component with any other character, such as white space or a sign, gets no value here, although `%hhu` would accept it (see "## Left out"). |
| ColorText.FormatDecimalReadsBack | lib/HurriRing/HurriRing.cpp:424 | The decimal spelling of a number is non-empty digits that read back as the number. |
| ColorText.ParseFormatColor | lib/HurriRing/HurriRing.cpp:424 | Round trip: scanning "R,G,B" written from (R, G, B) yields exactly (R, G, B). |
| Ring.ReadObject | lib/HurriRing/HurriRing.cpp:418-434 | The key loop over one parameter object replaces the colour exactly when the object has a "color" key, and the number exactly when it has a "number" key. It reports whether either key was seen. |
| Ring.ReadParameters | lib/HurriRing/HurriRing.cpp:399-435 | Starting from colour 0 and number 0, the loop over the parameter objects yields the last colour and the last number supplied. It reports exactly whether any object supplied either. |
| Ring.HurriRing.HandleBleCommand | lib/HurriRing/HurriRing.cpp:393-450 | The nested parameter loop commits exactly what `Interpret` says, so every `Command` lemma above holds of it. An empty command changes nothing. |
| Ring.HurriRing.constructor | lib/HurriRing/HurriRing.h:87-102 | A new controller has brightness 150, colour 0xFFFFFF, number 0, roulette index 0 and speed 5. Its mode and last mode are IDLE, the change flag is raised, and the ring is dark. |
| Ring.HurriRing.Init | lib/HurriRing/HurriRing.cpp:93-96 | Three green pulse steps, then a dark ring. On a new controller the raised flag makes the first step reset the pulse, leaving the phase at (252, descending) with the flag consumed. |
| Ring.HurriRing.Loop | lib/HurriRing/HurriRing.cpp:99-148 | One tick per mode, with the buffer each mode leaves; IDLE and UNKNOWN end all dark, so repeated IDLE ticks are idempotent. The flag survives only FREEZE, SHOW_SECTION, SHUFFLE_SECTIONS and BRIGHTNESS. BRIGHTNESS sets the brightness to the number parameter; no tick changes mode or parameters. |
| Ring.HurriRing.SetState | lib/HurriRing/HurriRing.cpp:150-153 | The mode becomes the argument and nothing else changes. |
| Ring.HurriRing.SetBrightness | lib/HurriRing/HurriRing.cpp:155-157 | The brightness becomes the argument and nothing else changes. |
| Ring.HurriRing.SetPixel | lib/HurriRing/HurriRing.cpp:329 | A pixel write stores the colour's bytes at an index on the ring; a write off the ring changes nothing. |
| Ring.HurriRing.SetColor | lib/HurriRing/HurriRing.cpp:220-231 | All 60 pixels hold the same colour, each channel scaled to ch * b / 255. The flag is consumed unless `once`. |
| Channels.ScaleChannel | lib/HurriRing/HurriRing.cpp:226 | A scaled channel is never brighter, is unchanged at brightness 255, and is 0 at brightness 0. |
| Channels.Scaled | lib/HurriRing/HurriRing.cpp:226 | No channel of a scaled pixel is brighter than before. At 255 the pixel is unchanged; at 0, or from a dark pixel, it is dark. |
| Channels.Pack | lib/HurriRing/HurriRing.cpp:425 | `(r << 16) \| (g << 8) \| b` unpacks back to r, g and b, and is 0 exactly when all three are 0. |
| Channels.Unpack | lib/HurriRing/HurriRing.cpp:223-225 | The bytes of a packed colour are all zero exactly for BLACK. |
| Channels.PackUnpack | lib/HurriRing/HurriRing.cpp:223-226 | Unpacking a colour and packing its channels again gives back the colour. |
| Channels.UnpackPack | lib/HurriRing/HurriRing.cpp:223-226 | Packing channels and unpacking again gives back the channels. |
| Channels.ColorConstants | lib/HurriRing/HurriRing.h:59-67 | Each colour constant unpacks to its channels: RED to (255, 0, 0), and so on; BLACK unpacks to dark. |
| Ring.HurriRing.FadeOut | lib/HurriRing/HurriRing.cpp:233-262 | The fade-out leaves `FadeFrom(old buffer, 255)`: passes at 255, 254, … 1, stopping after the first pass that leaves every pixel dark. The loop terminates within 255 passes. |
| Ring.HurriRing.FadeStep | lib/HurriRing/HurriRing.cpp:238-254 | One pass rescales every pixel from its current value, and reports exactly whether the ring is now dark. |
| Ring.HurriRing.FadePixel | lib/HurriRing/HurriRing.cpp:240-253 | The pass body rescales pixel i only, and reports whether any of its channels is still above 0. |
| Pixels.FadeFirstPassUnchanged | lib/HurriRing/HurriRing.cpp:237-249 | The first pass, at 255, leaves every pixel unchanged. |
| Pixels.FadeNeverBrightens | lib/HurriRing/HurriRing.cpp:237-261 | No channel of any pixel is brighter after the fade-out than before. |
| Pixels.FadeOutEndsDark | lib/HurriRing/HurriRing.cpp:237-261 | The fade-out always ends with every pixel dark. |
| Pixels.FadeFromEndsDark | lib/HurriRing/HurriRing.cpp:237-261 | From pass b, with every channel at most b + 1, the fade-out ends dark. |
| Channels.ScaleBelowLevel | lib/HurriRing/HurriRing.cpp:246-248 | Scaling a channel of at most b + 1 by b leaves at most b, and the pass at 1 leaves 0. |
| Ring.HurriRing.Pulse | lib/HurriRing/HurriRing.cpp:264-285 | The phase moves as `PulseStep` says, resetting first when the flag is raised. The ring shows the colour at the new level taken as a byte, and the flag is consumed. |
| Pixels.PulseStep | lib/HurriRing/HurriRing.cpp:267-282 | From a reset, or from a well-formed phase, a step keeps the level in [0, 255], at least 1 when descending and at most 254 when ascending. |
| Pixels.PulseFlips | lib/HurriRing/HurriRing.cpp:272-282 | The direction flips exactly when the level reaches 0 or 255: to ascending at 0, to descending at 255. |
| Pixels.PulseDescends | lib/HurriRing/HurriRing.cpp:272-276 | Descending from level l, l steps reach (0, ascending). |
| Pixels.PulseAscends | lib/HurriRing/HurriRing.cpp:277-281 | Ascending from level l, 255 - l steps reach (255, descending). |
| Pixels.PulsePeriod | lib/HurriRing/HurriRing.cpp:267-282 | After a reset, 510 steps return to (255, descending). |
| Ring.HurriRing.Roulette | lib/HurriRing/HurriRing.cpp:301-313 | Exactly the pixel at the old cursor holds the colour and every other pixel is dark. The cursor becomes (old + 1) mod 60, so it stays on the ring, and the flag is consumed. |
| Ring.HurriRing.ShuffleArray | lib/HurriRing/HurriRing.cpp:382-391 | The array ends as `Shuffled(old array, draws)`: the Fisher-Yates swaps from the last index down to 1. |
| Shuffle.ShuffledPermutes | lib/HurriRing/HurriRing.cpp:382-391 | Whatever the draws, the shuffle returns a permutation of its input. |
| Shuffle.FisherYatesPermutes | lib/HurriRing/HurriRing.cpp:384-390 | The remaining swaps from index i down keep the multiset of entries. |
| Shuffle.ShuffledKeepsEntries | lib/HurriRing/HurriRing.cpp:382-391 | The shuffle keeps distinct entries distinct and keeps the set of entries. |
| Shuffle.FisherYatesKeepsEntries | lib/HurriRing/HurriRing.cpp:384-390 | The same, for the remaining swaps from index i down. |
| Shuffle.SwapPermutes | lib/HurriRing/HurriRing.cpp:387-389 | One swap keeps the multiset of entries. |
| Ring.HurriRing.RandomNumber | lib/HurriRing/HurriRing.cpp:315-334 | The ring changes only when the flag is raised. It becomes dark, then the pixels named by the first n entries of the shuffled 1 .. 60 array light in the colour. With a colour that is not black, the lit pixels are exactly `RandomNumberWrites(n, draws)` and pixel 0 stays dark. The flag is consumed either way. |
| Shuffle.RandomNumberFrameLit | lib/HurriRing/HurriRing.cpp:319-330 | As written, with a colour that is not black: the lit pixels are exactly the pixels the entries write, and pixel 0 is dark. n pixels light, or n - 1 when the entry 60 is among the first n. |
| Shuffle.RandomNumberFrameMissesOnePixel | lib/HurriRing/HurriRing.cpp:319-330 | As written, asking for all 60 pixels in a colour that is not black lights only 59, whatever the draws, and pixel 0 stays dark. |
| Shuffle.RandomNumberLightsExactly | lib/HurriRing/HurriRing.cpp:315-334 | With the corrected 0 .. 59 fill and a colour that is not black, the mode lights exactly the intended pixels, so exactly n distinct pixels. |
| Shuffle.IntendedRandomNumberWrites | lib/HurriRing/HurriRing.cpp:319-330 | Corrected fill 0 .. 59: n shuffled entries write exactly n distinct pixels, all on the ring. |
| Shuffle.OneToLedCountShuffled | lib/HurriRing/HurriRing.cpp:319-324 | As written, the shuffled array holds distinct entries, each from 1 to 60. |
| Shuffle.WrittenCount | lib/HurriRing/HurriRing.cpp:327-330 | Distinct entries from 1 to 60 write one pixel each, except the entry 60, which is off the ring. Pixel 0 is never written. |
| Shuffle.RandomNumberWritesAsWritten | lib/HurriRing/HurriRing.cpp:319-330 | As written, pixel 0 is never lit. n entries light n pixels, or n - 1 when 60 is among them. |
| Shuffle.RandomNumberMissesOnePixel | lib/HurriRing/HurriRing.cpp:319-330 | As written, asking for all 60 pixels lights only 59, whatever the draws, and pixel 0 stays dark. |
| Ring.HurriRing.Static | lib/HurriRing/HurriRing.cpp:336-338 | The ring shows the colour at the current brightness, and the flag is consumed. |
| Ring.HurriRing.ShowSection | lib/HurriRing/HurriRing.cpp:340-361 | Only the selected section's range is repainted; a section id from NUM_OF_SECTIONS on paints nothing. |
| Ring.HurriRing.ShowRingPart | lib/HurriRing/HurriRing.cpp:363-373 | Exactly the pixels [(part-1)*(60/total), part*(60/total)) are repainted, and all others keep their value. |
| Ring.HurriRing.PaintRange | lib/HurriRing/HurriRing.cpp:367-372 | The loop of a ring part writes exactly the pixels lo <= i < hi on the ring, and every other pixel keeps its value. |
| Pixels.SectionRanges | lib/HurriRing/HurriRing.cpp:340-361 | LEFT is [0,30), RIGHT [30,60), and the quarters are [0,15), [15,30), [30,45) and [45,60). Exactly the ids from NUM_OF_SECTIONS on have no range. |
| Pixels.SectionPaintedExactly | lib/HurriRing/HurriRing.h:35-43 | Showing a section repaints exactly its range of at least 15 pixels on the ring. Every other pixel keeps its value, and an id ≥ NUM_OF_SECTIONS changes nothing. |
| Ring.HurriRing.ShuffleSections | lib/HurriRing/HurriRing.cpp:375-380 | A drawn section is shown in red, then the ring fades out from that buffer and ends all dark. The flag is left alone. |
| Ring.HurriRing.TheaterChaseRainbow | lib/HurriRing/HurriRing.cpp:197-218 | After 30 repetitions of 3 frames, the buffer holds the last frame (offset 2, first hue 89 steps on), and the flag is consumed. |
| Ring.HurriRing.ChaseStep | lib/HurriRing/HurriRing.cpp:203-212 | One frame: the ring cleared, then every third pixel from b lit by its hue. |
| Pixels.ChaseLastFrame | lib/HurriRing/HurriRing.cpp:201-217 | In the final frame exactly the pixels 2, 5, 8, … are lit, by their hue, and all others are dark. |
| Ring.HurriRing.RainbowWipe | lib/HurriRing/HurriRing.cpp:287-299 | The wipe sets pixel after pixel to its hue, then ends with a cleared buffer. The flag is consumed. |

## Left out

- BLE plumbing: server, service, characteristic, advertising and callback registration (HurriRing.cpp lines 58-91), and the static `instance` self-reference (52-56). These are calls into the BLE library.
- Debug output: `_printd`, `setDebugFlag` and the `Serial` prints in `onWrite`. They have no effect on the state.
- `delay` and `show()`: timing and the flush to the hardware. `show()` is not modelled at all, so the model does not say what the hardware displays between flushes. For example, the rainbow wipe's final `clear()` (line 298) is never flushed.
- Ring.HurriRing.Pulse: the division `wait*255/this->brightness` in its delay (line 284) divides by zero when the brightness is 0. It is part of the delay and is not modelled.
- Ring.HurriRing.Pulse: `pulseBrightness` is an unbounded integer. The statics start at level 0, descending. Without a reset the level would run down past 0 towards an `int` overflow after about 2^31 steps, which is not modelled. With the reset that a new controller's raised flag forces in `Init`, the level stays in [0, 255].
- JSON deserialisation (`deserializeJson`, `as<String>()`, `as<uint8_t>()`, the 200-byte document capacity) belongs to ArduinoJson. The decoder is the parameter `decode`, and a document arrives with its numbers already coerced to bytes.
- Ring.HurriRing.HandleBleCommand: requires a well-typed document, and interprets only canonical colour text: three runs of decimal digits, each at most 255, separated by single commas.
  - `sscanf(colorString, "%hhu,%hhu,%hhu", ...)` (line 424) accepts more than that. It skips white space before each number (`"255, 0, 0"`), takes a sign (`"+255,0,0"`) and ignores trailing text (`"255,0,0,7"`, `"255,0,0 "`). That tolerance is not modelled, and such texts lie outside the well-typed documents.
  - Only a scan that stops before the third component leaves components unset, as uninitialised values. A number too large for a byte is undefined behaviour in `%hhu`.
  - A document with 256 or more parameter objects makes the 8-bit loop index wrap, so the loop never ends. It is not given a meaning.
- Ring.HurriRing.Loop and Ring.HurriRing.RandomNumber: require a number parameter of at most 60 when the random-number mode consumes the flag. A larger number reads past the end of the 60-entry array (lines 319 and 327-329).
- The Adafruit NeoPixel internals:
  - `ColorHSV` and `gamma32` are folded into the `hue` parameter; the routines' contracts hold for every hue wheel.
  - The library's own `setBrightness` (line 61) and the brightness rescaling of `getPixelColor` are out: the strip is an ideal buffer.
  - `begin()` is out.
- `random()` becomes the caller-supplied `draws` and `section`. There is no claim about the distribution of the draws.
- `_fadeIn` is declared but never defined (HurriRing.h line 111). `wifiCheckCounter` is never used (line 93).

## Findings

| source | as written | input that shows it | evidently intended | confidence | as-written member | corrected member |
|---|---|---|---|---|---|---|
| lib/HurriRing/HurriRing.cpp:319-330 | The random-number mode fills its index array with 1 .. 60 and lights `array[index]` for the first n entries. Pixel 0 can never be lit, and the entry 60 names a pixel off the ring, so that write is lost. | RANDOM_NUMBER with number 60, with any draws: only 59 pixels light, and pixel 0 stays dark. Any n whose shuffled prefix contains 60 lights n - 1 pixels. | The entries are used as pixel indices (line 329), which run 0 .. 59, and the mode is asked for n pixels. So the array should hold 0 .. 59, and n shuffled entries should light exactly n distinct pixels. | medium (not executed) | Shuffle.RandomNumberFrameMissesOnePixel | Shuffle.IntendedRandomNumberWrites |
