/**
 * A decoded command document and the interpreter's commit rule.
 *
 * Decoding the text of a command into a document is done outside the
 * controller; this module starts from its result. A document is either a
 * decode failure or a mode name with an ordered list of parameter objects,
 * each an ordered list of key/value pairs.
 */
module Command {
  import opened Wrappers
  import opened RingDefs
  import opened Channels
  import opened ColorText

  /** A decoded parameter value: text, or a number already coerced to a byte. */
  datatype Value = Text(text: string) | Number(n: uint8)

  type JsonObject = seq<(string, Value)>

  datatype Document = Malformed | Parsed(state: string, parameter: seq<JsonObject>)

  /** The interpreter's share of the controller state. */
  datatype RenderState = RenderState(state: State, lastState: State, color: rgb24, number: uint8, changed: bool)

  const ColorKey: string := "color"
  const NumberKey: string := "number"

  predicate HasKey(obj: JsonObject, key: string)
  {
    exists i :: 0 <= i < |obj| && obj[i].0 == key
  }

  /** Reading the pairs in order: one more pair adds its own key and no other. */
  lemma HasKeyStep(obj: JsonObject, k: nat, key: string)
    requires k < |obj|
    ensures HasKey(obj[..k + 1], key) <==> HasKey(obj[..k], key) || obj[k].0 == key
    ensures HasKey(obj[..k + 1], key) ==> HasKey(obj, key)
  {
    assert obj[..k + 1] == obj[..k] + [obj[k]];
  }

  /** The value of the first pair with `key`, as a keyed lookup into an object sees it. */
  function Lookup(obj: JsonObject, key: string): (r: Option<Value>)
    ensures r.Some? <==> HasKey(obj, key)
    ensures r.Some? ==> exists i :: 0 <= i < |obj| && obj[i].0 == key && obj[i].1 == r.value
  {
    if obj == [] then None
    else if obj[0].0 == key then Some(obj[0].1)
    else
      var r := Lookup(obj[1..], key);
      assert forall i :: 0 <= i < |obj[1..]| ==> obj[1..][i] == obj[i + 1];
      assert HasKey(obj, key) ==> HasKey(obj[1..], key);
      r
  }

  /**
   * The values the interpreter can read: a "color" value is well-formed
   * "R,G,B" text and a "number" value is a number.
   */
  predicate WellTypedObject(obj: JsonObject)
  {
    forall i :: 0 <= i < |obj| ==>
      (obj[i].0 == ColorKey ==> obj[i].1.Text? && ParseColor(obj[i].1.text).Some?) &&
      (obj[i].0 == NumberKey ==> obj[i].1.Number?)
  }

  /**
   * A document the model gives a meaning to: its values are well typed and it
   * has fewer than 256 parameter objects, which is all an 8-bit loop index
   * reaches and more than a 200-byte document can hold.
   */
  predicate WellTyped(doc: Document)
  {
    doc.Parsed? ==>
      |doc.parameter| < 256 &&
      forall k :: 0 <= k < |doc.parameter| ==> WellTypedObject(doc.parameter[k])
  }

  /** The packed colour an object with a "color" key supplies. */
  function ObjectColor(obj: JsonObject): rgb24
    requires WellTypedObject(obj) && HasKey(obj, ColorKey)
  {
    var v := Lookup(obj, ColorKey).value;
    var c := ParseColor(v.text).value;
    Pack(c.0, c.1, c.2)
  }

  /** The number an object with a "number" key supplies. */
  function ObjectNumber(obj: JsonObject): uint8
    requires WellTypedObject(obj) && HasKey(obj, NumberKey)
  {
    Lookup(obj, NumberKey).value.n
  }

  predicate AllWellTyped(ps: seq<JsonObject>)
  {
    forall k :: 0 <= k < |ps| ==> WellTypedObject(ps[k])
  }

  /** The colour the parameter list leaves behind: the last one given, else 0. */
  function ColorOf(ps: seq<JsonObject>): rgb24
    requires AllWellTyped(ps)
  {
    if ps == [] then BLACK
    else if HasKey(ps[|ps| - 1], ColorKey) then ObjectColor(ps[|ps| - 1])
    else ColorOf(ps[..|ps| - 1])
  }

  /** The number the parameter list leaves behind: the last one given, else 0. */
  function NumberOf(ps: seq<JsonObject>): uint8
    requires AllWellTyped(ps)
  {
    if ps == [] then 0
    else if HasKey(ps[|ps| - 1], NumberKey) then ObjectNumber(ps[|ps| - 1])
    else NumberOf(ps[..|ps| - 1])
  }

  /** An object names a parameter the interpreter acts on. */
  predicate Mentions(obj: JsonObject)
  {
    HasKey(obj, ColorKey) || HasKey(obj, NumberKey)
  }

  /** Some object of the list supplies a colour or a number. */
  predicate SawParam(ps: seq<JsonObject>)
  {
    exists k :: 0 <= k < |ps| && Mentions(ps[k])
  }

  /**
   * The commit rule for one command of `length` bytes decoded as `doc`.
   * An empty command or a decode failure changes nothing; otherwise the old
   * mode becomes the last mode, the name is resolved, the parameters are
   * replaced (absent ones by 0) and the change flag records whether the mode
   * moved or any parameter was supplied.
   */
  function Interpret(rs: RenderState, length: nat, doc: Document): (r: RenderState)
    requires WellTyped(doc)
    ensures length == 0 || doc.Malformed? ==> r == rs
    ensures length > 0 && doc.Parsed? ==> r.lastState == rs.state
    ensures length > 0 && doc.Parsed? ==> r.changed == (r.state != rs.state || SawParam(doc.parameter))
  {
    if length < 1 || doc.Malformed? then rs
    else
      var s := StringToState(doc.state, rs.state);
      RenderState(s, rs.state, ColorOf(doc.parameter), NumberOf(doc.parameter),
                  s != rs.state || SawParam(doc.parameter))
  }

  /**
   * Reading the parameter objects in order: one more object replaces the
   * colour and the number exactly when it supplies them, and adds to the
   * change evidence exactly when it mentions either.
   */
  lemma PrefixStep(ps: seq<JsonObject>, i: nat)
    requires AllWellTyped(ps) && i < |ps|
    ensures AllWellTyped(ps[..i]) && AllWellTyped(ps[..i + 1])
    ensures ColorOf(ps[..i + 1]) == if HasKey(ps[i], ColorKey) then ObjectColor(ps[i]) else ColorOf(ps[..i])
    ensures NumberOf(ps[..i + 1]) == if HasKey(ps[i], NumberKey) then ObjectNumber(ps[i]) else NumberOf(ps[..i])
    ensures SawParam(ps[..i + 1]) == (SawParam(ps[..i]) || Mentions(ps[i]))
  {
    var next := ps[..i + 1];
    assert next[..i] == ps[..i] && next[i] == ps[i];
  }

  /** Last one wins: the colour is that of the last object with a "color" key. */
  lemma {:induction false} ColorOfLastWins(ps: seq<JsonObject>, i: nat)
    requires AllWellTyped(ps)
    requires i < |ps| && HasKey(ps[i], ColorKey)
    requires forall j :: i < j < |ps| ==> !HasKey(ps[j], ColorKey)
    ensures ColorOf(ps) == ObjectColor(ps[i])
  {
    if i < |ps| - 1 {
      var front := ps[..|ps| - 1];
      assert forall j :: 0 <= j < |front| ==> front[j] == ps[j];
      ColorOfLastWins(front, i);
    }
  }

  /** Without any "color" key the colour is reset to 0; it does not persist. */
  lemma {:induction false} ColorOfAbsent(ps: seq<JsonObject>)
    requires AllWellTyped(ps)
    requires forall j :: 0 <= j < |ps| ==> !HasKey(ps[j], ColorKey)
    ensures ColorOf(ps) == BLACK
  {
    if ps != [] {
      var front := ps[..|ps| - 1];
      assert forall j :: 0 <= j < |front| ==> front[j] == ps[j];
      ColorOfAbsent(front);
    }
  }

  /** Last one wins: the number is that of the last object with a "number" key. */
  lemma {:induction false} NumberOfLastWins(ps: seq<JsonObject>, i: nat)
    requires AllWellTyped(ps)
    requires i < |ps| && HasKey(ps[i], NumberKey)
    requires forall j :: i < j < |ps| ==> !HasKey(ps[j], NumberKey)
    ensures NumberOf(ps) == ObjectNumber(ps[i])
  {
    if i < |ps| - 1 {
      var front := ps[..|ps| - 1];
      assert forall j :: 0 <= j < |front| ==> front[j] == ps[j];
      NumberOfLastWins(front, i);
    }
  }

  /** Without any "number" key the number is reset to 0. */
  lemma {:induction false} NumberOfAbsent(ps: seq<JsonObject>)
    requires AllWellTyped(ps)
    requires forall j :: 0 <= j < |ps| ==> !HasKey(ps[j], NumberKey)
    ensures NumberOf(ps) == 0
  {
    if ps != [] {
      var front := ps[..|ps| - 1];
      assert forall j :: 0 <= j < |front| ==> front[j] == ps[j];
      NumberOfAbsent(front);
    }
  }

  /** A known name selects its table entry, whatever mode was current. */
  lemma KnownNameSelectsMode(rs: RenderState, length: nat, doc: Document)
    requires WellTyped(doc) && length > 0 && doc.Parsed?
    requires doc.state in StateTable
    ensures Interpret(rs, length, doc).state == StateTable[doc.state]
  {
  }

  /**
   * An unknown name without parameters keeps the mode, raises no change, and
   * still resets both parameters to 0.
   */
  lemma UnknownNameIsNoChange(rs: RenderState, length: nat, doc: Document)
    requires WellTyped(doc) && length > 0 && doc.Parsed?
    requires doc.state !in StateTable
    requires forall j :: 0 <= j < |doc.parameter| ==> !Mentions(doc.parameter[j])
    ensures var r := Interpret(rs, length, doc);
      r.state == rs.state && r.lastState == rs.state && !r.changed && r.color == BLACK && r.number == 0
  {
    ColorOfAbsent(doc.parameter);
    NumberOfAbsent(doc.parameter);
  }

  /**
   * Sending the same command twice in a row: the second time the mode is
   * unchanged, so the change flag is raised only if parameters were given.
   */
  lemma RepeatedCommand(rs: RenderState, length: nat, doc: Document)
    requires WellTyped(doc) && length > 0 && doc.Parsed?
    ensures var once := Interpret(rs, length, doc);
      var twice := Interpret(once, length, doc);
      twice.state == once.state && twice.lastState == once.state &&
      twice.changed == SawParam(doc.parameter)
  {
    var once := Interpret(rs, length, doc);
    if doc.state !in StateTable {
      assert StringToState(doc.state, once.state) == once.state;
    }
  }

  /**
   * The colour text a client writes for (r, g, b), given as the only "color"
   * parameter, commits the packed value r * 65536 + g * 256 + b.
   */
  lemma ColorParameterPacks(rs: RenderState, length: nat, name: string, r: uint8, g: uint8, b: uint8)
    requires length > 0
    ensures var doc := Parsed(name, [[(ColorKey, Text(FormatColor(r, g, b)))]]);
      WellTyped(doc) && Interpret(rs, length, doc).color == r * 0x1_0000 + g * 0x100 + b
  {
    ParseFormatColor(r, g, b);
    var obj: JsonObject := [(ColorKey, Text(FormatColor(r, g, b)))];
    assert Lookup(obj, ColorKey) == Some(Text(FormatColor(r, g, b)));
  }
}
