/**
 * The enumerations, constants, default field values and the mode-name table
 * that the LED ring controller declares in its header.
 */
module RingDefs {

  /** An unsigned 8-bit quantity: the width of the controller's uint8_t fields. */
  type uint8 = x: int | 0 <= x < 0x100

  /** A colour packed as 0xRRGGBB: what one pixel of the strip holds. */
  type rgb24 = x: int | 0 <= x < 0x100_0000

  /** The number of pixels on the ring. */
  const LedCount: nat := 60

  /** The rendering modes, in the order (and so with the ordinals) of the State enum. */
  datatype State =
    | IDLE
    | RAINBOW
    | RAINBOW_WIPE
    | FREEZE
    | PULSE
    | ROULETTE
    | RANDOM_NUMBER
    | STATIC
    | SHUFFLE_SECTIONS
    | SHOW_SECTION
    | BRIGHTNESS
    | UNKNOWN

  /** The Section enum: a section id is compared against these as a plain number. */
  const LEFT: uint8 := 0
  const RIGHT: uint8 := 1
  const FIRST_QUARTER: uint8 := 2
  const SECOND_QUARTER: uint8 := 3
  const THIRD_QUARTER: uint8 := 4
  const FOURTH_QUARTER: uint8 := 5
  /** One past the last section id: the exclusive bound of a random section draw. */
  const NUM_OF_SECTIONS: uint8 := 6

  /** The Color enum, packed 0xRRGGBB. */
  const RED: rgb24 := 0xFF0000
  const GREEN: rgb24 := 0x00FF00
  const YELLOW: rgb24 := 0xFFFF00
  const BLUE: rgb24 := 0x0000FF
  const WHITE: rgb24 := 0xFFFFFF
  const BLACK: rgb24 := 0x000000

  /** Default member values of a freshly constructed controller. */
  const InitialBrightness: uint8 := 150
  const InitialColor: rgb24 := 0xFFFFFF
  const InitialNumber: uint8 := 0
  const InitialRouletteIdx: uint8 := 0
  const InitialRouletteSpeed: uint8 := 5

  /** The constant name table consulted by the command interpreter. */
  const StateTable: map<string, State> := map[
    "IDLE" := IDLE,
    "RAINBOW" := RAINBOW,
    "RAINBOW_WIPE" := RAINBOW_WIPE,
    "FREEZE" := FREEZE,
    "PULSE" := PULSE,
    "ROULETTE" := ROULETTE,
    "RANDOM_NUMBER" := RANDOM_NUMBER,
    "STATIC" := STATIC,
    "SHUFFLE_SECTIONS" := SHUFFLE_SECTIONS,
    "SHOW_SECTION" := SHOW_SECTION,
    "BRIGHTNESS" := BRIGHTNESS
  ]

  /** The enumerator's own spelling: an independent reference for the name table. */
  function StateName(s: State): string
  {
    match s
    case IDLE => "IDLE"
    case RAINBOW => "RAINBOW"
    case RAINBOW_WIPE => "RAINBOW_WIPE"
    case FREEZE => "FREEZE"
    case PULSE => "PULSE"
    case ROULETTE => "ROULETTE"
    case RANDOM_NUMBER => "RANDOM_NUMBER"
    case STATIC => "STATIC"
    case SHUFFLE_SECTIONS => "SHUFFLE_SECTIONS"
    case SHOW_SECTION => "SHOW_SECTION"
    case BRIGHTNESS => "BRIGHTNESS"
    case UNKNOWN => "UNKNOWN"
  }

  /**
   * Resolves a mode name. A name the table does not hold is not an error:
   * it resolves to the mode that is current, so the command changes no mode.
   */
  function StringToState(name: string, current: State): (r: State)
    ensures name in StateTable ==> r == StateTable[name]
    ensures name !in StateTable ==> r == current
    ensures r == UNKNOWN ==> current == UNKNOWN
  {
    if name in StateTable then StateTable[name] else current
  }

  /** Every mode other than UNKNOWN is in the table under its own spelling. */
  lemma StateTableHasEveryMode(s: State)
    requires s != UNKNOWN
    ensures StateName(s) in StateTable && StateTable[StateName(s)] == s
  {
    match s
    case IDLE =>
    case RAINBOW =>
    case RAINBOW_WIPE =>
    case FREEZE =>
    case PULSE =>
    case ROULETTE =>
    case RANDOM_NUMBER =>
    case STATIC =>
    case SHUFFLE_SECTIONS =>
    case SHOW_SECTION =>
    case BRIGHTNESS =>
  }

  /**
   * Every entry of the table is a mode spelled as its enumerator, and none is
   * UNKNOWN; "UNKNOWN" itself has no entry.
   */
  lemma StateTableOnlyModes(name: string)
    requires name in StateTable
    ensures StateName(StateTable[name]) == name
    ensures StateTable[name] != UNKNOWN
    ensures StateName(UNKNOWN) !in StateTable
  {
  }

  /** A resolved name is UNKNOWN only when UNKNOWN was already current. */
  lemma NoNameResolvesToUnknown(name: string, current: State)
    requires current != UNKNOWN
    ensures StringToState(name, current) != UNKNOWN
  {
  }
}
