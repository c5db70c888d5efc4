/**
 * The configuration record `config_entry_t`: the copy in RAM and the copy in
 * every slot of the configuration page, and its layout as the 16-bit words
 * that save_config copies into flash one at a time.
 *
 * The header that declares the record is not part of this model. The field
 * order is the order of the initialisers in config.c; the record is taken to
 * be packed and little-endian (the board is a Cortex-M3), `physical_led` to
 * hold bytes and `led_color` 32-bit words, as the erased-page initialiser
 * (0xff and 0xffffffff) suggests.
 */
module ConfigRecord {
  import opened Words

  /** Number of LEDs of one module (the permutation initialiser has 16 entries). */
  const MODULE_LENGTH := 16

  /**
   * Number of heat sensors. The header that defines it is not part of this
   * model; every value from 0 to 6 gives the same ENTRY_COUNT (8).
   */
  const HEAT_SENSOR_LEN := 4

  /**
   * The four legal LED colours of the firmware. Their values live in the
   * firmware header and are not part of this model: only their being four
   * distinct values, none of them the erased pattern 0xffffffff, is used.
   */
  const RED: u32 := 1
  const GREEN: u32 := 2
  const BLUE: u32 := 3
  const WHITE: u32 := 4

  datatype Entry = Entry(
    whiteCorrection: seq<u16>,
    myAddress: u16,
    heatLimit: seq<u16>,
    physicalLed: seq<u8>,
    ledColor: seq<u32>)
  {
    /** The fixed array lengths of config_entry_t. */
    predicate WellFormed() {
      && |whiteCorrection| == MODULE_LENGTH
      && |heatLimit| == HEAT_SENSOR_LEN
      && |physicalLed| == MODULE_LENGTH
      && |ledColor| == MODULE_LENGTH
    }
  }

  type Record = e: Entry | e.WellFormed()
    witness Entry(seq(16, _ => 0), 0, seq(4, _ => 0), seq(16, _ => 0), seq(16, _ => 0))

  // Word offsets of the fields inside the record.
  const ADDRESS_AT := MODULE_LENGTH
  const HEAT_AT := ADDRESS_AT + 1
  const LED_AT := HEAT_AT + HEAT_SENSOR_LEN
  const COLOR_AT := LED_AT + MODULE_LENGTH / 2
  /** sizeof(config_entry_t) / sizeof(uint16_t) */
  const RECORD_WORDS := COLOR_AT + 2 * MODULE_LENGTH

  /** The RAM configuration at reset (config.c:15-21). */
  const DEFAULT_CONFIG: Record := Entry(
    seq(MODULE_LENGTH, _ => 0xffff),
    0x00fd,
    seq(HEAT_SENSOR_LEN, _ => 0xffff),
    seq(MODULE_LENGTH, (i: int) requires 0 <= i < MODULE_LENGTH => i as u8),
    seq(MODULE_LENGTH, _ => WHITE))

  /** The record image the page initialiser puts into every slot (config.c:46-53). */
  const ERASED_ENTRY: Record := Entry(
    seq(MODULE_LENGTH, _ => 0xffff),
    0xffff,
    seq(HEAT_SENSOR_LEN, _ => 0xffff),
    seq(MODULE_LENGTH, _ => 0xff),
    seq(MODULE_LENGTH, _ => 0xffff_ffff))

  /** Two bytes per half-word, the lower index in the low byte. */
  function PackBytes(b: seq<u8>): (ws: seq<u16>)
    requires |b| % 2 == 0
    ensures |ws| == |b| / 2
    decreases |b|
  {
    if b == [] then [] else [b[0] as int + 0x100 * (b[1] as int)] + PackBytes(b[2..])
  }

  function UnpackBytes(ws: seq<u16>): (b: seq<u8>)
    ensures |b| == 2 * |ws|
  {
    if ws == [] then [] else [ws[0] % 0x100, ws[0] / 0x100] + UnpackBytes(ws[1..])
  }

  /** Two half-words per 32-bit word, the low half first. */
  function PackLongs(c: seq<u32>): (ws: seq<u16>)
    ensures |ws| == 2 * |c|
  {
    if c == [] then [] else [c[0] % 0x1_0000, c[0] / 0x1_0000] + PackLongs(c[1..])
  }

  function UnpackLongs(ws: seq<u16>): (c: seq<u32>)
    requires |ws| % 2 == 0
    ensures |c| == |ws| / 2
    decreases |ws|
  {
    if ws == [] then [] else [ws[0] as int + 0x1_0000 * (ws[1] as int)] + UnpackLongs(ws[2..])
  }

  lemma {:induction false} UnpackPackBytes(b: seq<u8>)
    requires |b| % 2 == 0
    ensures UnpackBytes(PackBytes(b)) == b
    decreases |b|
  {
    if b != [] {
      UnpackPackBytes(b[2..]);
      var w := PackBytes(b);
      assert w[1..] == PackBytes(b[2..]);
      assert w[0] % 0x100 == b[0] && w[0] / 0x100 == b[1];
    }
  }

  lemma {:induction false} PackUnpackBytes(ws: seq<u16>)
    ensures PackBytes(UnpackBytes(ws)) == ws
  {
    if ws != [] {
      PackUnpackBytes(ws[1..]);
      var b := UnpackBytes(ws);
      assert b[2..] == UnpackBytes(ws[1..]);
    }
  }

  lemma {:induction false} UnpackPackLongs(c: seq<u32>)
    ensures UnpackLongs(PackLongs(c)) == c
  {
    if c != [] {
      UnpackPackLongs(c[1..]);
      var w := PackLongs(c);
      assert w[2..] == PackLongs(c[1..]);
    }
  }

  lemma {:induction false} PackUnpackLongs(ws: seq<u16>)
    requires |ws| % 2 == 0
    ensures PackLongs(UnpackLongs(ws)) == ws
    decreases |ws|
  {
    if ws != [] {
      PackUnpackLongs(ws[2..]);
      var c := UnpackLongs(ws);
      assert c[1..] == UnpackLongs(ws[2..]);
      assert c[0] % 0x1_0000 == ws[0] && c[0] / 0x1_0000 == ws[1];
    }
  }

  /** The record as the half-words `(uint16_t*) &config` walks over. */
  function Encode(e: Record): (ws: seq<u16>)
    ensures |ws| == RECORD_WORDS
    ensures UnpackBytes(ws[LED_AT..COLOR_AT]) == e.physicalLed && UnpackLongs(ws[COLOR_AT..]) == e.ledColor
  {
    UnpackPackBytes(e.physicalLed);
    UnpackPackLongs(e.ledColor);
    var ws := e.whiteCorrection + [e.myAddress] + e.heatLimit + PackBytes(e.physicalLed) + PackLongs(e.ledColor);
    assert ws[LED_AT..COLOR_AT] == PackBytes(e.physicalLed);
    assert ws[COLOR_AT..] == PackLongs(e.ledColor);
    ws
  }

  /** The record a slot's half-words hold, as the structure copy at load reads it. */
  function Decode(ws: seq<u16>): (e: Record)
    requires |ws| == RECORD_WORDS
    ensures PackBytes(e.physicalLed) == ws[LED_AT..COLOR_AT] && PackLongs(e.ledColor) == ws[COLOR_AT..]
  {
    PackUnpackBytes(ws[LED_AT..COLOR_AT]);
    PackUnpackLongs(ws[COLOR_AT..]);
    Entry(ws[..ADDRESS_AT], ws[ADDRESS_AT], ws[HEAT_AT..LED_AT],
          UnpackBytes(ws[LED_AT..COLOR_AT]), UnpackLongs(ws[COLOR_AT..]))
  }

  /** Copying a record word by word and reading the words back as a record loses nothing. */
  lemma DecodeEncode(e: Record)
    ensures Decode(Encode(e)) == e
  {
    var ws := Encode(e);
    assert ws[..ADDRESS_AT] == e.whiteCorrection;
    assert ws[HEAT_AT..LED_AT] == e.heatLimit;
    assert ws[LED_AT..COLOR_AT] == PackBytes(e.physicalLed);
    assert ws[COLOR_AT..] == PackLongs(e.ledColor);
    UnpackPackBytes(e.physicalLed);
    UnpackPackLongs(e.ledColor);
  }

  /** Every word pattern is some record, and encoding it gives the same words back. */
  lemma EncodeDecode(ws: seq<u16>)
    requires |ws| == RECORD_WORDS
    ensures Encode(Decode(ws)) == ws
  {
    PackUnpackBytes(ws[LED_AT..COLOR_AT]);
    PackUnpackLongs(ws[COLOR_AT..]);
    assert ws == ws[..ADDRESS_AT] + [ws[ADDRESS_AT]] + ws[HEAT_AT..LED_AT]
               + ws[LED_AT..COLOR_AT] + ws[COLOR_AT..];
  }

  lemma {:induction false} UnpackBytesErased(n: nat)
    ensures UnpackBytes(seq(n, _ => 0xffff)) == seq(2 * n, _ => 0xff)
  {
    if n > 0 {
      UnpackBytesErased(n - 1);
      assert seq(n, _ => 0xffff)[1..] == seq(n - 1, _ => 0xffff);
    }
  }

  lemma {:induction false} UnpackLongsErased(n: nat)
    ensures UnpackLongs(seq(2 * n, _ => 0xffff)) == seq(n, _ => 0xffff_ffff)
  {
    if n > 0 {
      UnpackLongsErased(n - 1);
      assert seq(2 * n, _ => 0xffff)[2..] == seq(2 * (n - 1), _ => 0xffff);
    }
  }

  /** An erased slot reads back as the page initialiser's record image. */
  lemma ErasedSlotDecodes()
    ensures Decode(seq(RECORD_WORDS, _ => 0xffff)) == ERASED_ENTRY
  {
    var ws: seq<u16> := seq(RECORD_WORDS, _ => 0xffff);
    assert ws[LED_AT..COLOR_AT] == seq(MODULE_LENGTH / 2, _ => 0xffff);
    assert ws[COLOR_AT..] == seq(2 * MODULE_LENGTH, _ => 0xffff);
    UnpackBytesErased(MODULE_LENGTH / 2);
    UnpackLongsErased(MODULE_LENGTH);
  }
}
