/** The two constant three-colour palettes of `determineColorsForDisplay`, the
    day/night decision that picks one of them, and the "#rrggbb" text form in
    which the program hands a colour to the display. */
module Palette {
  import opened Wrappers
  import opened Classifier

  type Channel = x: int | 0 <= x < 256

  datatype Rgb = Rgb(red: Channel, green: Channel, blue: Channel)

  datatype Palette = Palette(hot: Rgb, neutral: Rgb, cold: Rgb) {
    function ColourOf(b: Bucket): Rgb {
      match b
      case Hot => hot
      case Neutral => neutral
      case Cold => cold
    }
  }

  /** Colours used between sunrise and sunset. */
  const Day := Palette(Rgb(0xd4, 0x1c, 0x0f), Rgb(0xff, 0xff, 0xff), Rgb(0x03, 0x4e, 0xff))

  /** Dimmed colours used before sunrise and after sunset. */
  const Dim := Palette(Rgb(0x15, 0x02, 0x01), Rgb(0x19, 0x19, 0x19), Rgb(0x00, 0x07, 0x19))

  /** The display dims strictly outside the closed interval [sunrise, sunset]. */
  function ShouldDim(now: int, sunrise: int, sunset: int): (dim: bool)
    ensures !dim <==> sunrise <= now <= sunset
  {
    now > sunset || now < sunrise
  }

  /** Each channel divided by `factor`, rounding down. */
  function Darken(c: Rgb, factor: nat): Rgb
    requires factor > 0
  {
    Rgb(c.red / factor, c.green / factor, c.blue / factor)
  }

  /** The palette of the day/night decision: the day colours, or each of them
      with every channel divided by ten. */
  function PaletteFor(dim: bool): (p: Palette)
    ensures forall b :: p.ColourOf(b) == (if dim then Darken(Day.ColourOf(b), 10) else Day.ColourOf(b))
  {
    if dim then Dim else Day
  }

  // ---------------------------------------------------------------------------
  // "#rrggbb" text form

  function HexDigit(d: nat): (c: char)
    requires d < 16
    ensures '0' <= c <= '9' || 'a' <= c <= 'f'
  {
    if d < 10 then ('0' as int + d) as char else ('a' as int + d - 10) as char
  }

  function HexDigitValue(c: char): Option<nat> {
    if '0' <= c <= '9' then Some(c as int - '0' as int)
    else if 'a' <= c <= 'f' then Some(c as int - 'a' as int + 10)
    else if 'A' <= c <= 'F' then Some(c as int - 'A' as int + 10)
    else None
  }

  function HexByte(x: Channel): string {
    [HexDigit(x / 16), HexDigit(x % 16)]
  }

  /** The colour as the program writes it: '#' and two lower-case hexadecimal
      digits per channel, red first. */
  function Hex(c: Rgb): (s: string)
    ensures |s| == 7 && s[0] == '#'
    ensures forall i :: 1 <= i < |s| ==> '0' <= s[i] <= '9' || 'a' <= s[i] <= 'f'
  {
    "#" + HexByte(c.red) + HexByte(c.green) + HexByte(c.blue)
  }

  function ParseByte(hi: char, lo: char): Option<Channel> {
    match (HexDigitValue(hi), HexDigitValue(lo))
    case (Some(h), Some(l)) => if h < 16 && l < 16 then Some(h * 16 + l) else None
    case _ => None
  }

  /** Reads a "#rrggbb" colour back; anything of another shape is rejected. */
  function ParseHex(s: string): (r: Option<Rgb>)
    ensures r.Some? ==> |s| == 7 && s[0] == '#'
  {
    if |s| != 7 || s[0] != '#' then None
    else
      match (ParseByte(s[1], s[2]), ParseByte(s[3], s[4]), ParseByte(s[5], s[6]))
      case (Some(r), Some(g), Some(b)) => Some(Rgb(r, g, b))
      case _ => None
  }

  /** Reading back the text form of any colour gives that colour. */
  lemma HexRoundTrip(c: Rgb)
    ensures ParseHex(Hex(c)) == Some(c)
  {
  }

  /** The text forms of the palettes are the program's colour literals. */
  lemma PaletteLiterals()
    ensures Hex(Dim.hot) == "#150201"
    ensures Hex(Dim.neutral) == "#191919"
    ensures Hex(Dim.cold) == "#000719"
    ensures Hex(Day.hot) == "#d41c0f"
    ensures Hex(Day.neutral) == "#ffffff"
    ensures Hex(Day.cold) == "#034eff"
  {
  }

  // ---------------------------------------------------------------------------
  // Relations between the two palettes

  /** The six colours are pairwise distinct, so a colour on the display tells
      both the bucket and whether the display was dimmed. */
  lemma ColoursIdentifyBucketAndDim(d1: bool, b1: Bucket, d2: bool, b2: Bucket)
    requires PaletteFor(d1).ColourOf(b1) == PaletteFor(d2).ColourOf(b2)
    ensures d1 == d2 && b1 == b2
  {
  }
}
