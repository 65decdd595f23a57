/**
 * Colour encoding of a pixel.
 *
 * Pixel.render scales white, red, green and blue by brightness/255 and packs them
 * into one word, eight bits per channel (white highest). SimulatorPixel.render
 * scales red, green and blue the same way and formats them as a `#rrggbb` string.
 * Channels and brightness are non-negative integers here.
 */
module Color {

  /**
   * `int(channel * (brightness / 255))`. The floating-point product is approximated
   * by exact integer arithmetic rounded down.
   */
  function Scale(channel: nat, brightness: nat): (v: nat)
    ensures brightness <= 255 ==> v <= channel
    ensures brightness == 255 ==> v == channel
    ensures brightness == 0 ==> v == 0
  {
    channel * brightness / 255
  }

  /** Python's `a | b` on non-negative integers, one bit at a time from the lowest. */
  function BitOr(a: nat, b: nat): (r: nat)
    ensures a <= r && b <= r
    ensures r <= a + b
    decreases a + b
  {
    if a == 0 then b
    else if b == 0 then a
    else 2 * BitOr(a / 2, b / 2) + (if a % 2 == 1 || b % 2 == 1 then 1 else 0)
  }

  function Pow2(k: nat): (p: nat)
    ensures p > 0
  {
    if k == 0 then 1 else 2 * Pow2(k - 1)
  }

  /**
   * Pixel.render: `(w << 24) | (r << 16) | (g << 8) | b` on the scaled channels;
   * a left shift by k of a non-negative integer multiplies it by 2^k.
   */
  function Pack(white: nat, red: nat, green: nat, blue: nat, brightness: nat): (word: nat)
    ensures Scale(white, brightness) * 0x100_0000 <= word && Scale(red, brightness) * 0x1_0000 <= word
    ensures Scale(green, brightness) * 0x100 <= word && Scale(blue, brightness) <= word
    ensures word <= Scale(white, brightness) * 0x100_0000 + Scale(red, brightness) * 0x1_0000
                  + Scale(green, brightness) * 0x100 + Scale(blue, brightness)
  {
    BitOr(
      BitOr(
        BitOr(Scale(white, brightness) * 0x100_0000, Scale(red, brightness) * 0x1_0000),
        Scale(green, brightness) * 0x100),
      Scale(blue, brightness))
  }

  /** The four byte fields of a packed word, white in the highest byte. */
  datatype Rgbw = Rgbw(white: nat, red: nat, green: nat, blue: nat)

  function Unpack(word: nat): (c: Rgbw)
    ensures c.white < 256 && c.red < 256 && c.green < 256 && c.blue < 256
  {
    Rgbw(word / 0x100_0000 % 256, word / 0x1_0000 % 256, word / 0x100 % 256, word % 256)
  }

  /** OR-ing a number below 2^k into a multiple of 2^k adds it. */
  lemma {:induction false} BitOrLow(x: nat, k: nat, b: nat)
    requires b < Pow2(k)
    ensures BitOr(x * Pow2(k), b) == x * Pow2(k) + b
  {
    if k == 0 || x == 0 || b == 0 {
    } else {
      var a := x * Pow2(k);
      assert a == 2 * (x * Pow2(k - 1));
      assert a / 2 == x * Pow2(k - 1) && a % 2 == 0;
      BitOrLow(x, k - 1, b / 2);
    }
  }

  /** Shifting left by k is one doubling after a shift by k - 1. */
  lemma Pow2Step(x: nat, k: nat)
    requires k > 0
    ensures x * Pow2(k) == 2 * (x * Pow2(k - 1))
    ensures x > 0 ==> x * Pow2(k) > 0
  {
    assert Pow2(k) == 2 * Pow2(k - 1);
    assert x * (2 * Pow2(k - 1)) == 2 * (x * Pow2(k - 1));
  }

  /** Doubling both sides adds a zero bit below the OR. */
  lemma BitOrDouble(a: nat, b: nat)
    requires a > 0 && b > 0
    ensures BitOr(2 * a, 2 * b) == 2 * BitOr(a, b)
  {
    assert (2 * a) / 2 == a && (2 * a) % 2 == 0;
    assert (2 * b) / 2 == b && (2 * b) % 2 == 0;
  }

  /** OR commutes with multiplying both sides by 2^k. */
  lemma {:induction false} BitOrScaled(x: nat, y: nat, k: nat)
    ensures BitOr(x * Pow2(k), y * Pow2(k)) == BitOr(x, y) * Pow2(k)
  {
    if k == 0 {
      assert Pow2(0) == 1;
    } else if x == 0 || y == 0 {
      assert x * Pow2(k) == 0 || y * Pow2(k) == 0;
    } else {
      var x', y' := x * Pow2(k - 1), y * Pow2(k - 1);
      Pow2Step(x, k);
      Pow2Step(y, k);
      Pow2Step(BitOr(x, y), k);
      BitOrScaled(x, y, k - 1);
      calc {
        BitOr(x * Pow2(k), y * Pow2(k));
        BitOr(2 * x', 2 * y');
        { BitOrDouble(x', y'); }
        2 * BitOr(x', y');
        2 * (BitOr(x, y) * Pow2(k - 1));
      }
    }
  }

  lemma Pow2Bytes()
    ensures Pow2(8) == 0x100 && Pow2(16) == 0x1_0000
  {
  }

  /** OR-ing a byte into a number shifted left by eight adds it. */
  lemma OrByte(x: nat, b: nat)
    requires b < 256
    ensures BitOr(x * 0x100, b) == x * 0x100 + b
  {
    Pow2Bytes();
    BitOrLow(x, 8, b);
  }

  /** The same, with both sides shifted left by a further k bits. */
  lemma OrByteShifted(x: nat, b: nat, k: nat)
    requires b < 256
    ensures BitOr(x * 0x100 * Pow2(k), b * Pow2(k)) == (x * 0x100 + b) * Pow2(k)
  {
    BitOrScaled(x * 0x100, b, k);
    OrByte(x, b);
  }

  /** Packing bytes: the three ORs never meet a common bit, so they add. */
  lemma PackBytes(w: nat, r: nat, g: nat, b: nat)
    requires w < 256 && r < 256 && g < 256 && b < 256
    ensures BitOr(BitOr(BitOr(w * 0x100_0000, r * 0x1_0000), g * 0x100), b)
         == ((w * 0x100 + r) * 0x100 + g) * 0x100 + b
  {
    Pow2Bytes();
    // (w << 24) | (r << 16) == ((w << 8) | r) << 16
    OrByteShifted(w, r, 16);
    var hi := w * 0x100 + r;
    assert BitOr(w * 0x100_0000, r * 0x1_0000) == hi * 0x1_0000;
    // (hi << 16) | (g << 8) == ((hi << 8) | g) << 8
    OrByteShifted(hi, g, 8);
    assert BitOr(hi * 0x1_0000, g * 0x100) == (hi * 0x100 + g) * 0x100;
    OrByte(hi * 0x100 + g, b);
  }

  /** Reading the byte fields back out of a sum of shifted bytes. */
  lemma UnpackBytes(w: nat, r: nat, g: nat, b: nat)
    requires w < 256 && r < 256 && g < 256 && b < 256
    ensures ((w * 0x100 + r) * 0x100 + g) * 0x100 + b < 0x1_0000_0000
    ensures Unpack(((w * 0x100 + r) * 0x100 + g) * 0x100 + b) == Rgbw(w, r, g, b)
  {
    // Each division by 0x100 drops the lowest byte.
    var word := ((w * 0x100 + r) * 0x100 + g) * 0x100 + b;
    assert word / 0x100 == (w * 0x100 + r) * 0x100 + g;
    assert word / 0x1_0000 == w * 0x100 + r;
    assert word / 0x100_0000 == w;
  }

  /**
   * With every channel and the brightness in 0..255, each byte field of the packed word
   * is the scaled channel (never more than the raw one), the fields do not overlap, and
   * the word fits in 32 bits.
   */
  lemma PackFields(white: nat, red: nat, green: nat, blue: nat, brightness: nat)
    requires white < 256 && red < 256 && green < 256 && blue < 256 && brightness < 256
    ensures Pack(white, red, green, blue, brightness) < 0x1_0000_0000
    ensures Unpack(Pack(white, red, green, blue, brightness))
         == Rgbw(Scale(white, brightness), Scale(red, brightness), Scale(green, brightness), Scale(blue, brightness))
    ensures Unpack(Pack(white, red, green, blue, brightness)).white <= white
    ensures Unpack(Pack(white, red, green, blue, brightness)).red <= red
    ensures Unpack(Pack(white, red, green, blue, brightness)).green <= green
    ensures Unpack(Pack(white, red, green, blue, brightness)).blue <= blue
    ensures Pack(white, red, green, blue, brightness)
         == Scale(white, brightness) * 0x100_0000 + Scale(red, brightness) * 0x1_0000
          + Scale(green, brightness) * 0x100 + Scale(blue, brightness)
  {
    var w, r, g, b := Scale(white, brightness), Scale(red, brightness), Scale(green, brightness), Scale(blue, brightness);
    PackBytes(w, r, g, b);
    UnpackBytes(w, r, g, b);
  }

  /** At full brightness the word is the raw channels packed; unpacking gives them back. */
  lemma PackFullBrightness(white: nat, red: nat, green: nat, blue: nat)
    requires white < 256 && red < 256 && green < 256 && blue < 256
    ensures Pack(white, red, green, blue, 255) == white * 0x100_0000 + red * 0x1_0000 + green * 0x100 + blue
    ensures Unpack(Pack(white, red, green, blue, 255)) == Rgbw(white, red, green, blue)
  {
    PackFields(white, red, green, blue, 255);
  }

  /** At brightness 0 every pixel renders to 0, whatever its channels. */
  lemma PackZeroBrightness(white: nat, red: nat, green: nat, blue: nat)
    ensures Pack(white, red, green, blue, 0) == 0
  {
  }

  // ---- SimulatorPixel.render -------------------------------------------------

  predicate IsHexDigit(ch: char)
  {
    '0' <= ch <= '9' || 'a' <= ch <= 'f'
  }

  /** A lower-case hexadecimal digit, as Python's `x` format writes it. */
  function HexDigit(d: nat): (ch: char)
    requires d < 16
    ensures IsHexDigit(ch)
  {
    "0123456789abcdef"[d]
  }

  function DigitValue(ch: char): (d: nat)
    ensures d < 16
  {
    if '0' <= ch <= '9' then (ch as int) - ('0' as int)
    else if 'a' <= ch <= 'f' then (ch as int) - ('a' as int) + 10
    else 0
  }

  /** The hexadecimal digits of n, most significant first, with no leading zero. */
  function Hex(n: nat): (s: string)
    ensures |s| >= 1
    ensures forall i :: 0 <= i < |s| ==> IsHexDigit(s[i])
    ensures n < 16 <==> |s| == 1
  {
    if n < 16 then [HexDigit(n)] else Hex(n / 16) + [HexDigit(n % 16)]
  }

  /** Python's `format(n, '02x')`: the hexadecimal digits of n, padded with zeros to two. */
  function Hex02(n: nat): (s: string)
    ensures forall i :: 0 <= i < |s| ==> IsHexDigit(s[i])
  {
    if n < 16 then ['0', HexDigit(n)] else Hex(n)
  }

  /** SimulatorPixel.render: `#` and the scaled red, green and blue; white takes no part. */
  function HexColor(red: nat, green: nat, blue: nat, brightness: nat): (s: string)
    ensures |s| >= 7 && s[0] == '#'
  {
    "#" + Hex02(Scale(red, brightness)) + Hex02(Scale(green, brightness)) + Hex02(Scale(blue, brightness))
  }

  /** Reads a string of hexadecimal digits, most significant first. */
  function ParseHex(s: string): nat
  {
    if s == [] then 0 else ParseHex(s[..|s| - 1]) * 16 + DigitValue(s[|s| - 1])
  }

  lemma HexDigitValue(d: nat)
    requires d < 16
    ensures DigitValue(HexDigit(d)) == d
  {
  }

  /** Reading back the digits Hex writes gives the number. */
  lemma {:induction false} HexRoundTrip(n: nat)
    ensures ParseHex(Hex(n)) == n
  {
    HexDigitValue(n % 16);
    if n >= 16 {
      HexRoundTrip(n / 16);
      var s := Hex(n);
      assert s[..|s| - 1] == Hex(n / 16);
    }
  }

  /** A byte formats to exactly two digits, which read back as the byte. */
  lemma Hex02Byte(n: nat)
    requires n < 256
    ensures |Hex02(n)| == 2
    ensures ParseHex(Hex02(n)) == n
  {
    HexDigitValue(n % 16);
    if n >= 16 {
      HexRoundTrip(n);
    } else {
      var s := Hex02(n);
      assert s[..1] == ['0'] && s[..1][..0] == [];
      assert ParseHex(s[..1]) == 0;
    }
  }

  /**
   * With channels and brightness in 0..255 the simulator colour is seven characters:
   * `#` and two lower-case hex digits each for red, green and blue, which decode to
   * the scaled channels.
   */
  lemma HexColorDecodes(red: nat, green: nat, blue: nat, brightness: nat)
    requires red < 256 && green < 256 && blue < 256 && brightness < 256
    ensures |HexColor(red, green, blue, brightness)| == 7
    ensures forall i :: 1 <= i < 7 ==> IsHexDigit(HexColor(red, green, blue, brightness)[i])
    ensures ParseHex(HexColor(red, green, blue, brightness)[1..3]) == Scale(red, brightness)
    ensures ParseHex(HexColor(red, green, blue, brightness)[3..5]) == Scale(green, brightness)
    ensures ParseHex(HexColor(red, green, blue, brightness)[5..7]) == Scale(blue, brightness)
  {
    var r, g, b := Scale(red, brightness), Scale(green, brightness), Scale(blue, brightness);
    Hex02Byte(r);
    Hex02Byte(g);
    Hex02Byte(b);
    var s := HexColor(red, green, blue, brightness);
    assert s[1..3] == Hex02(r);
    assert s[3..5] == Hex02(g);
    assert s[5..7] == Hex02(b);
  }

  /** A pixel with no colour shows as black in the simulator, at any brightness. */
  lemma HexColorBlack(brightness: nat)
    ensures HexColor(0, 0, 0, brightness) == "#000000"
  {
  }
}
