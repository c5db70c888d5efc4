/**
 * The client library's colour value, `vlpp::rgba_color` (rgba_color.cpp):
 * four 8-bit channels, a constructor that parses a hex colour code, the
 * comparison operators and the stream output that prints a colour as a
 * code again.
 *
 * A thrown `std::invalid_argument` is the result InvalidArgument.
 * Characters are taken in the "C" locale: the hex digits are 0-9, a-f and
 * A-F, and only A-Z have a lower-case form.
 */
module RgbaColor {
  import opened Words

  /** A value of a client operation, or the invalid_argument it throws. */
  datatype Result<+T> = Ok(value: T) | InvalidArgument

  /** `rgba_color(red, green, blue, alpha)`: the four-channel constructor is the datatype's own. */
  datatype Color = Color(red: u8, green: u8, blue: u8, alpha: u8)

  // ---------------------------------------------------------------------
  // Characters

  /** isdigit */
  predicate IsDigit(c: char) {
    '0' <= c <= '9'
  }

  /** isxdigit */
  predicate IsXDigit(c: char) {
    IsDigit(c) || 'a' <= c <= 'f' || 'A' <= c <= 'F'
  }

  /** tolower */
  function ToLower(c: char): (r: char)
    ensures 'A' <= c <= 'Z' ==> r as int == c as int + 32
    ensures !('A' <= c <= 'Z') ==> r == c
  {
    if 'A' <= c <= 'Z' then (c as int + 32) as char else c
  }

  /** The digit `std::hex` prints for a value below 16: 0-9, then a-f. */
  function HexDigit(d: nat): (c: char)
    requires d < 16
    ensures IsXDigit(c) && ToLower(c) == c
  {
    if d < 10 then ('0' as int + d) as char else ('a' as int + d - 10) as char
  }

  lemma HexDigitInjective(d: nat, e: nat)
    requires d < 16 && e < 16 && HexDigit(d) == HexDigit(e)
    ensures d == e
  {
  }

  // ---------------------------------------------------------------------
  // Parsing

  /**
   * hex_to_byte: the byte two hex digits spell, high digit first, in either
   * case; InvalidArgument when either character is not a hex digit. The
   * byte's own two digits, as printed, are the two characters in lower case.
   */
  function HexToByte(high: char, low: char): (r: Result<u8>)
    ensures r.Ok? <==> IsXDigit(high) && IsXDigit(low)
    ensures r.Ok? ==> HexDigit(r.value / 16) == ToLower(high) && HexDigit(r.value % 16) == ToLower(low)
  {
    if !IsXDigit(high) || !IsXDigit(low) then InvalidArgument
    else
      var h := if IsDigit(high) then (high as int - '0' as int) * 0x10
               else (10 + ToLower(high) as int - 'a' as int) * 0x10;
      var l := if IsDigit(low) then low as int - '0' as int
               else 10 + ToLower(low) as int - 'a' as int;
      Ok(h + l)
  }

  /** Upper- and lower-case digits spell the same byte. */
  lemma HexToByteIgnoresCase(high: char, low: char)
    ensures HexToByte(high, low) == HexToByte(ToLower(high), ToLower(low))
  {
  }

  /** The printed digits of a byte parse back to that byte. */
  lemma {:induction false} HexToBytePrinted(b: u8)
    ensures HexToByte(HexDigit(b / 16), HexDigit(b % 16)) == Ok(b)
  {
    var r := HexToByte(HexDigit(b / 16), HexDigit(b % 16));
    HexDigitInjective(r.value / 16, b / 16);
    HexDigitInjective(r.value % 16, b % 16);
  }

  /** The code with at most one leading '#' removed. */
  function StripHash(code: string): (s: string)
    ensures s == code || (code != [] && code[0] == '#' && s == code[1..])
  {
    if code != [] && code[0] == '#' then code[1..] else code
  }

  predicate AllHex(s: string) {
    forall i :: 0 <= i < |s| ==> IsXDigit(s[i])
  }

  /**
   * `rgba_color(std::string colorcode)`: after an optional '#', eight hex
   * digits set red, green, blue and alpha, and six set red, green and blue;
   * any other length, or a character that is not a hex digit, throws. The
   * six-digit form does not assign alpha, which then keeps whatever
   * `priorAlpha` the object's storage held.
   */
  function FromCode(code: string, priorAlpha: u8): (r: Result<Color>)
    ensures r.Ok? <==> (|StripHash(code)| == 8 || |StripHash(code)| == 6) && AllHex(StripHash(code))
    ensures r.Ok? && |StripHash(code)| == 6 ==> r.value.alpha == priorAlpha
  {
    var s := StripHash(code);
    if |s| == 8 || |s| == 6 then
      var alpha := if |s| == 8 then HexToByte(s[6], s[7]) else Ok(priorAlpha);
      var red := HexToByte(s[0], s[1]);
      var green := HexToByte(s[2], s[3]);
      var blue := HexToByte(s[4], s[5]);
      if alpha.Ok? && red.Ok? && green.Ok? && blue.Ok? then
        Ok(Color(red.value, green.value, blue.value, alpha.value))
      else
        assert !AllHex(s) by {
          if !red.Ok? {
            assert !IsXDigit(s[0]) || !IsXDigit(s[1]);
          } else if !green.Ok? {
            assert !IsXDigit(s[2]) || !IsXDigit(s[3]);
          } else if !blue.Ok? {
            assert !IsXDigit(s[4]) || !IsXDigit(s[5]);
          } else {
            assert !IsXDigit(s[6]) || !IsXDigit(s[7]);
          }
        }
        InvalidArgument
    else InvalidArgument
  }

  // ---------------------------------------------------------------------
  // Comparison

  /** operator== */
  function Equal(a: Color, b: Color): (r: bool)
    ensures r <==> a == b
  {
    if a.red != b.red then false
    else if a.green != b.green then false
    else if a.blue != b.blue then false
    else if a.alpha != b.alpha then false
    else true
  }

  /** operator!= */
  function NotEqual(a: Color, b: Color): (r: bool)
    ensures r <==> a != b
  {
    !Equal(a, b)
  }

  /** operator<: alpha first, then red, green and blue. */
  function Less(a: Color, b: Color): (r: bool)
    ensures r ==> a != b
    ensures a.alpha != b.alpha ==> (r <==> a.alpha < b.alpha)
  {
    if a.alpha < b.alpha then true
    else if a.alpha > b.alpha then false
    else if a.red < b.red then true
    else if a.red > b.red then false
    else if a.green < b.green then true
    else if a.green > b.green then false
    else if a.blue < b.blue then true
    else if a.blue > b.blue then false
    else false
  }

  /** The colour as one 32-bit number, alpha in the top byte and blue in the bottom one. */
  function Key(c: Color): (k: nat)
    ensures k < 0x1_0000_0000
  {
    ((c.alpha * 0x100 + c.red) * 0x100 + c.green) * 0x100 + c.blue
  }

  /** A number below 256 written after another in base 256 can be read back off. */
  lemma SplitByte(x: nat, d: nat, y: nat, e: nat)
    requires d < 0x100 && e < 0x100 && x * 0x100 + d == y * 0x100 + e
    ensures x == y && d == e
  {
    assert (x - y) * 0x100 == e - d;
  }

  /** Different colours have different keys. */
  lemma KeyInjective(a: Color, b: Color)
    requires Key(a) == Key(b)
    ensures a == b
  {
    SplitByte((a.alpha * 0x100 + a.red) * 0x100 + a.green, a.blue, (b.alpha * 0x100 + b.red) * 0x100 + b.green, b.blue);
    SplitByte(a.alpha * 0x100 + a.red, a.green, b.alpha * 0x100 + b.red, b.green);
    SplitByte(a.alpha, a.red, b.alpha, b.red);
  }

  /** operator< orders colours by their keys. */
  lemma LessIsKeyOrder(a: Color, b: Color)
    ensures Less(a, b) <==> Key(a) < Key(b)
  {
    var ha, hb := a.alpha * 0x100 + a.red, b.alpha * 0x100 + b.red;
    var ma, mb := ha * 0x100 + a.green, hb * 0x100 + b.green;
    assert Key(a) == ma * 0x100 + a.blue && Key(b) == mb * 0x100 + b.blue;
    assert ha < hb ==> ma < mb;
    assert ma < mb ==> Key(a) < Key(b);
  }

  /** operator< is a strict total order and agrees with operator==. */
  lemma LessIsStrictTotalOrder(a: Color, b: Color, c: Color)
    ensures !Less(a, a)
    ensures Less(a, b) && Less(b, c) ==> Less(a, c)
    ensures Less(a, b) || Equal(a, b) || Less(b, a)
    ensures !(Less(a, b) && Less(b, a)) && (Equal(a, b) ==> !Less(a, b))
  {
    LessIsKeyOrder(a, a);
    LessIsKeyOrder(a, b);
    LessIsKeyOrder(b, a);
    LessIsKeyOrder(b, c);
    LessIsKeyOrder(a, c);
    if Key(a) == Key(b) {
      KeyInjective(a, b);
    }
  }

  // ---------------------------------------------------------------------
  // Printing

  /** Two digits, zero-padded, as `std::setw(2)` with fill '0' and `std::hex` prints a byte. */
  function Hex2(b: u8): string {
    [HexDigit(b / 16), HexDigit(b % 16)]
  }

  /** operator<<: '#' and the red, green, blue and alpha bytes in lower-case hex. */
  function Print(c: Color): (s: string)
    ensures |s| == 9 && s[0] == '#'
    ensures forall i :: 1 <= i < 9 ==> IsXDigit(s[i]) && ToLower(s[i]) == s[i]
  {
    "#" + Hex2(c.red) + Hex2(c.green) + Hex2(c.blue) + Hex2(c.alpha)
  }

  /** A printed colour parses back to the same colour, alpha included. */
  lemma ParsePrint(c: Color, priorAlpha: u8)
    ensures FromCode(Print(c), priorAlpha) == Ok(c)
  {
    var s := Print(c)[1..];
    assert StripHash(Print(c)) == s;
    HexToBytePrinted(c.red);
    HexToBytePrinted(c.green);
    HexToBytePrinted(c.blue);
    HexToBytePrinted(c.alpha);
  }

  /** Two lower-case hex digits are how the byte they spell prints. */
  lemma PairPrinted(high: char, low: char)
    requires IsXDigit(high) && ToLower(high) == high && IsXDigit(low) && ToLower(low) == low
    ensures HexToByte(high, low).Ok? && Hex2(HexToByte(high, low).value) == [high, low]
  {
  }

  /** A '#' and eight lower-case hex digits is exactly how some colour prints. */
  lemma PrintParse(code: string, priorAlpha: u8)
    requires |code| == 9 && code[0] == '#'
    requires forall i :: 1 <= i < 9 ==> IsXDigit(code[i]) && ToLower(code[i]) == code[i]
    ensures FromCode(code, priorAlpha).Ok?
    ensures Print(FromCode(code, priorAlpha).value) == code
  {
    var s := StripHash(code);
    assert s == code[1..];
    PairPrinted(code[1], code[2]);
    PairPrinted(code[3], code[4]);
    PairPrinted(code[5], code[6]);
    PairPrinted(code[7], code[8]);
    assert code == "#" + [code[1], code[2]] + [code[3], code[4]] + [code[5], code[6]] + [code[7], code[8]];
  }
}
