/**
 * The white-point adjust mode of the LED board's debug console
 * (console_wp.c): a cursor that selects one LED and one of two lines, keys
 * that move the cursor, and keys that raise or lower the selected LED's
 * white-point correction (stored in the RAM configuration) or its test
 * brightness (kept by the console itself).
 *
 * The console's state lives in the class WpConsole; what one key press does
 * to it is specified by the function Step on a snapshot of that state, a
 * Panel, and the properties of the mode are lemmas about Step.
 *
 * Terminal output, the LED refresh after every key and the line editor that
 * reads a direct edit are not modelled: the key and, for a direct edit, the
 * outcome of parsing the typed line are parameters.
 */
module ConsoleWp {
  import opened Words
  import opened ConfigRecord
  import opened ConfigStore

  /** Which line of the input mask the cursor is on. */
  datatype Line = Whitepoint | Brightness

  /** The brightness every LED has when the console starts. */
  const FULL_BRIGHTNESS: u8 := 0xff

  /**
   * inc16_unless_overflow: the new value of `data` after adding the 16-bit
   * signed `delta`. The sum is taken when it stays within a uint16_t, and
   * the value is left as it is otherwise.
   */
  function Inc16UnlessOverflow(data: u16, delta: int): (r: u16)
    requires -0x8000 <= delta < 0x8000
    ensures 0 <= data + delta <= 0xffff ==> r == data + delta
    ensures !(0 <= data + delta <= 0xffff) ==> r == data
  {
    if (delta < 0 && data < -delta) || (delta > 0 && data > 0xffff - delta) then data
    else data + delta
  }

  /** inc8_unless_overflow: the same, for a uint8_t and an 8-bit signed `delta`. */
  function Inc8UnlessOverflow(data: u8, delta: int): (r: u8)
    requires -0x80 <= delta < 0x80
    ensures 0 <= data + delta <= 0xff ==> r == data + delta
    ensures !(0 <= data + delta <= 0xff) ==> r == data
  {
    if (delta < 0 && data < -delta) || (delta > 0 && data > 0xff - delta) then data
    else data + delta
  }

  /** The cast `(uint8_t) delta`: the value modulo 256. */
  function ToU8(x: int): (b: u8)
    ensures (b - x) % 0x100 == 0
  {
    x % 0x100
  }

  /** Passing a uint8_t as an int8_t argument: two's complement. */
  function ToI8(b: u8): (x: int)
    ensures -0x80 <= x < 0x80 && (b - x) % 0x100 == 0
  {
    if b < 0x80 then b else b - 0x100
  }

  /** Everything a key press can read or change, as one value. */
  datatype Panel = Panel(led: int, line: Line, config: Record, brightnesses: seq<u8>)
  {
    /** `selected_led` selects an LED; there is one brightness per LED. */
    predicate Valid() {
      0 <= led < MODULE_LENGTH && |brightnesses| == MODULE_LENGTH
    }

    /** The white-point word the cursor's LED maps to, `physical_led[selected_led]`. */
    function Physical(): (phy: u8)
      requires Valid()
    {
      config.physicalLed[led]
    }
  }

  /** The other line. */
  function Toggle(line: Line): (r: Line)
    ensures r != line
  {
    if line == Whitepoint then Brightness else Whitepoint
  }

  /**
   * inc_selected: adjust the selected value by `delta`. On the white-point
   * line the correction of the LED's physical index moves; an index past
   * the end of white_correction writes outside the array, and here that
   * write is lost. On the brightness line only deltas strictly between
   * -0x80 and 0x7f are applied, after a round trip through uint8_t.
   */
  function Adjusted(p: Panel, delta: int): (q: Panel)
    requires p.Valid() && -0x8000 <= delta < 0x8000
    ensures q.Valid() && q.led == p.led && q.line == p.line
  {
    match p.line
    case Whitepoint =>
      var phy := p.Physical();
      if phy < MODULE_LENGTH then
        var wc := p.config.whiteCorrection;
        p.(config := p.config.(whiteCorrection := wc[phy := Inc16UnlessOverflow(wc[phy], delta)]))
      else p
    case Brightness =>
      if delta < 0x7f && delta > -0x80 then
        p.(brightnesses := p.brightnesses[p.led := Inc8UnlessOverflow(p.brightnesses[p.led], ToI8(ToU8(delta)))])
      else p
  }

  /**
   * The value-update part of run_direct_edit: `parsed` is what parse_int
   * made of the typed line, None when it failed. A white-point value is
   * stored through the uint16_t truncation; a brightness above 0xff is
   * ignored.
   */
  function Edited(p: Panel, parsed: Option<u32>): (q: Panel)
    requires p.Valid()
    ensures q.Valid() && q.led == p.led && q.line == p.line
  {
    match parsed
    case None => p
    case Some(input) =>
      if p.line == Whitepoint then
        var phy := p.Physical();
        if phy < MODULE_LENGTH then
          p.(config := p.config.(whiteCorrection := p.config.whiteCorrection[phy := input % 0x1_0000]))
        else p
      else if input <= 0xff then
        p.(brightnesses := p.brightnesses[p.led := input])
      else p
  }

  /** The keys run_command_wp acts on. */
  const KEYS := {'q', '\t', 'd', 'l', 'a', 'h', 'w', 'k', 'W', 'K', 's', 'j', 'S', 'J', 'e'}

  /** What one key press does to the panel (run_command_wp without its output). */
  function Step(p: Panel, key: char, parsed: Option<u32>): (q: Panel)
    requires p.Valid()
    ensures q.Valid()
    ensures key !in KEYS ==> q == p
  {
    if key == '\t' then p.(line := Toggle(p.line))
    else if key == 'd' || key == 'l' then
      if p.led < MODULE_LENGTH - 1 then p.(led := p.led + 1) else p
    else if key == 'a' || key == 'h' then
      if p.led > 0 then p.(led := p.led - 1) else p
    else if key == 'w' || key == 'k' then Adjusted(p, 1)
    else if key == 'W' || key == 'K' then Adjusted(p, 0x100)
    else if key == 's' || key == 'j' then Adjusted(p, -1)
    else if key == 'S' || key == 'J' then Adjusted(p, -0x100)
    else if key == 'e' then Edited(p, parsed)
    else p
  }

  /** The console's state between key presses: the file-static variables of console_wp.c. */
  class WpConsole {
    /** `selected_led` */
    var selectedLed: int
    /** `selected_line` */
    var selectedLine: Line
    /** `brightnesses` */
    const brightnesses: array<u8>
    /** The owner of the RAM configuration `config`. */
    const store: Store

    ghost predicate Valid()
      reads this
    {
      brightnesses.Length == MODULE_LENGTH && 0 <= selectedLed < MODULE_LENGTH
    }

    /** The state as a Panel. */
    ghost function State(): (p: Panel)
      reads this, brightnesses, store
    {
      Panel(selectedLed, selectedLine, store.config, brightnesses[..])
    }

    /** The initial values of the file-static variables. */
    constructor (store: Store)
      ensures Valid() && fresh(brightnesses) && this.store == store
      ensures State() == Panel(0, Whitepoint, store.config, seq(MODULE_LENGTH, _ => FULL_BRIGHTNESS))
    {
      selectedLed := 0;
      selectedLine := Whitepoint;
      brightnesses := new u8[MODULE_LENGTH](_ => FULL_BRIGHTNESS);
      this.store := store;
    }

    /** inc_selected */
    method IncSelected(delta: int)
      requires Valid() && -0x8000 <= delta < 0x8000
      modifies store, brightnesses
      ensures Valid()
      ensures State() == Adjusted(old(State()), delta)
    {
      match selectedLine
      case Whitepoint =>
        var phy := store.config.physicalLed[selectedLed];
        if phy < MODULE_LENGTH {
          var wc := store.config.whiteCorrection;
          store.config := store.config.(whiteCorrection := wc[phy := Inc16UnlessOverflow(wc[phy], delta)]);
        }
      case Brightness =>
        if delta < 0x7f && delta > -0x80 {
          var delta8 := ToU8(delta);
          brightnesses[selectedLed] := Inc8UnlessOverflow(brightnesses[selectedLed], ToI8(delta8));
        }
    }

    /** The value-update part of run_direct_edit. */
    method RunDirectEdit(parsed: Option<u32>)
      requires Valid()
      modifies store, brightnesses
      ensures Valid()
      ensures State() == Edited(old(State()), parsed)
    {
      if parsed.None? {
        return;
      }
      var input := parsed.value;
      if selectedLine == Whitepoint {
        var phy := store.config.physicalLed[selectedLed];
        if phy < MODULE_LENGTH {
          store.config := store.config.(whiteCorrection := store.config.whiteCorrection[phy := input % 0x1_0000]);
        }
      } else {
        if input <= 0xff {
          brightnesses[selectedLed] := input;
        }
      }
    }

    /**
     * run_command_wp for the key `key`; `parsed` is the outcome of the line
     * read by a direct edit. Returns 0 on every path, and reports in
     * `toPrompt` whether the console switched back to the prompt.
     */
    method RunCommandWp(key: char, parsed: Option<u32>) returns (r: int, toPrompt: bool)
      requires Valid()
      modifies this, store, brightnesses
      ensures Valid()
      ensures r == 0
      ensures toPrompt <==> key == 'q'
      ensures State() == Step(old(State()), key, parsed)
    {
      r, toPrompt := 0, false;
      match key
      case 'q' =>
        toPrompt := true;
      case '\t' =>
        if selectedLine == Whitepoint {
          selectedLine := Brightness;
        } else {
          selectedLine := Whitepoint;
        }
      case 'd' =>
        if selectedLed < MODULE_LENGTH - 1 {
          selectedLed := selectedLed + 1;
        }
      case 'l' =>
        if selectedLed < MODULE_LENGTH - 1 {
          selectedLed := selectedLed + 1;
        }
      case 'a' =>
        if selectedLed > 0 {
          selectedLed := selectedLed - 1;
        }
      case 'h' =>
        if selectedLed > 0 {
          selectedLed := selectedLed - 1;
        }
      case 'w' => IncSelected(1);
      case 'k' => IncSelected(1);
      case 'W' => IncSelected(0x100);
      case 'K' => IncSelected(0x100);
      case 's' => IncSelected(-1);
      case 'j' => IncSelected(-1);
      case 'S' => IncSelected(-0x100);
      case 'J' => IncSelected(-0x100);
      case 'e' => RunDirectEdit(parsed);
      case _ =>
    }
  }

  // ---------------------------------------------------------------------
  // Properties of the white-point adjust mode

  /** Moving the cursor never leaves the LED range, and stops at both ends. */
  lemma SelectionStaysInRange(p: Panel, key: char, parsed: Option<u32>)
    requires p.Valid()
    ensures 0 <= Step(p, key, parsed).led < MODULE_LENGTH
    ensures (key == 'd' || key == 'l') ==> Step(p, key, parsed).led == if p.led < MODULE_LENGTH - 1 then p.led + 1 else p.led
    ensures (key == 'a' || key == 'h') ==> Step(p, key, parsed).led == if p.led > 0 then p.led - 1 else 0
    ensures key !in {'d', 'l', 'a', 'h'} ==> Step(p, key, parsed).led == p.led
  {
  }

  /** TAB switches the line, and a second TAB switches it back. */
  lemma TabTwice(p: Panel, parsed: Option<u32>, parsed': Option<u32>)
    requires p.Valid()
    ensures Step(p, '\t', parsed).line != p.line
    ensures Step(Step(p, '\t', parsed), '\t', parsed') == p
  {
  }

  /**
   * A white-point adjustment or direct edit changes at most the correction
   * of the selected LED's physical index; nothing else in the configuration
   * and no brightness changes.
   */
  lemma WhitepointTouchesOneWord(p: Panel, key: char, parsed: Option<u32>)
    requires p.Valid() && p.line == Whitepoint && key in {'w', 'k', 'W', 'K', 's', 'j', 'S', 'J', 'e'}
    ensures var q := Step(p, key, parsed);
      && q.brightnesses == p.brightnesses
      && q.config.myAddress == p.config.myAddress
      && q.config.heatLimit == p.config.heatLimit
      && q.config.physicalLed == p.config.physicalLed
      && q.config.ledColor == p.config.ledColor
      && forall i :: 0 <= i < MODULE_LENGTH && i != p.Physical() ==>
           q.config.whiteCorrection[i] == p.config.whiteCorrection[i]
  {
  }

  /**
   * On the brightness line only the selected LED's brightness can change,
   * and the configuration is untouched. Every key but the direct edit 'e'
   * moves it by one step at most; 'e' may store any byte.
   */
  lemma BrightnessTouchesOneLed(p: Panel, key: char, parsed: Option<u32>)
    requires p.Valid() && p.line == Brightness
    ensures var q := Step(p, key, parsed);
      && q.config == p.config
      && (forall i :: 0 <= i < MODULE_LENGTH && i != p.led ==> q.brightnesses[i] == p.brightnesses[i])
      && (key != 'e' ==> -1 <= q.brightnesses[p.led] as int - p.brightnesses[p.led] as int <= 1)
  {
  }

  /** On the brightness line the coarse keys (±0x100) change nothing. */
  lemma CoarseKeysSkipBrightness(p: Panel, key: char, parsed: Option<u32>)
    requires p.Valid() && p.line == Brightness && key in {'W', 'K', 'S', 'J'}
    ensures Step(p, key, parsed) == p
  {
  }

  /** A fine step up followed by a fine step down restores the panel, unless the step up was stopped at the top. */
  lemma {:induction false} UpThenDown(p: Panel, parsed: Option<u32>)
    requires p.Valid()
    requires p.line == Whitepoint ==> p.Physical() >= MODULE_LENGTH || p.config.whiteCorrection[p.Physical()] < 0xffff
    requires p.line == Brightness ==> p.brightnesses[p.led] < 0xff
    ensures Step(Step(p, 'k', parsed), 'j', parsed) == p
  {
    var q := Step(p, 'k', parsed);
    if p.line == Whitepoint && p.Physical() < MODULE_LENGTH {
      var phy := p.Physical();
      assert q.config.whiteCorrection[phy] == p.config.whiteCorrection[phy] + 1;
      assert Step(q, 'j', parsed).config.whiteCorrection == p.config.whiteCorrection;
    } else if p.line == Brightness {
      assert ToI8(ToU8(1)) == 1 && ToI8(ToU8(-1)) == -1;
      assert q.brightnesses[p.led] == p.brightnesses[p.led] + 1;
      assert Step(q, 'j', parsed).brightnesses == p.brightnesses;
    }
  }

  /** A direct edit whose line did not parse leaves everything as it was. */
  lemma ParseFailureKeepsState(p: Panel)
    requires p.Valid()
    ensures Step(p, 'e', None) == p
  {
  }

  /**
   * A direct edit stores a white-point value of up to three hex digits (all
   * the line editor accepts) exactly, and a brightness only when it fits in
   * a byte.
   */
  lemma DirectEditStores(p: Panel, input: u32)
    requires p.Valid()
    ensures var q := Step(p, 'e', Some(input));
      && (p.line == Whitepoint && p.Physical() < MODULE_LENGTH && input <= 0xfff ==>
            q.config.whiteCorrection[p.Physical()] == input)
      && (p.line == Brightness && input <= 0xff ==> q.brightnesses[p.led] == input)
      && (p.line == Brightness && input > 0xff ==> q == p)
  {
  }
}
