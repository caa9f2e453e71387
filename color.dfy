/** `HexToColor`: the `#RRGGBB` text of a bar's colour field turned into
    an RGB triple, with black as the fallback. */
module Color {
  import opened CString

  type Byte = x: int | 0 <= x < 256

  /** A `COLORREF`, channel by channel. */
  datatype Rgb = Rgb(r: Byte, g: Byte, b: Byte)

  const Black: Rgb := Rgb(0, 0, 0)

  /** The `RGB` macro: each channel is cast to `BYTE`, which keeps its low
      eight bits. */
  function RGB(r: int, g: int, b: int): Rgb {
    Rgb(r % 256, g % 256, b % 256)
  }

  /** Channels that already fit in a byte are kept as they are. */
  lemma RGBOfBytes(r: int, g: int, b: int)
    requires 0 <= r < 256 && 0 <= g < 256 && 0 <= b < 256
    ensures RGB(r, g, b) == Rgb(r, g, b)
  {
  }

  /** `sscanf(hex, "#%02x%02x%02x", &r, &g, &b)` when all three conversions
      succeed; None when it converts fewer than three, the case in which
      HexToColor reports "Invalid color format". */
  function ParseHex(hex: string): (r: Option<Rgb>)
    ensures |hex| == 0 || hex[0] != '#' ==> r.None?
  {
    if |hex| == 0 || hex[0] != '#' then None
    else
      match ScanHex2(hex, 1)
      case None => None
      case Some(red) =>
        match ScanHex2(hex, red.next)
        case None => None
        case Some(green) =>
          match ScanHex2(hex, green.next)
          case None => None
          case Some(blue) => Some(RGB(red.value, green.value, blue.value))
  }

  /** The colour of a bar: the parsed triple, or black when the text does
      not convert. */
  function HexToColor(hex: string): Rgb {
    match ParseHex(hex)
    case Some(c) => c
    case None => Black
  }

  /** Two hexadecimal digits at `i` convert to the byte they spell. */
  lemma HexPairAt(hex: string, i: nat)
    requires i + 2 <= |hex| && IsHexDigit(hex[i]) && IsHexDigit(hex[i + 1])
    ensures AllHexDigits(hex[i..i + 2]) && HexValue(hex[i..i + 2]) < 256
    ensures ScanHex2(hex, i) == Some(Scanned(HexValue(hex[i..i + 2]), i + 2))
  {
    assert hex[i..i + 2][0] == hex[i] && hex[i..i + 2][1] == hex[i + 1];
    assert SkipSpace(hex, i) == i;
    assert HexDigitsEnd(hex, i, 2) == i + 2;
    HexValueBound(hex[i..i + 2]);
  }

  /** For `#` followed by three pairs of hexadecimal digits, the pairs give
      red, green and blue in that order. */
  lemma HexPairsInOrder(hex: string)
    requires |hex| >= 7 && hex[0] == '#'
    requires forall k :: 1 <= k < 7 ==> IsHexDigit(hex[k])
    ensures ParseHex(hex).Some? && HexToColor(hex) == ParseHex(hex).value
    ensures ParseHex(hex).value.r == HexValue(hex[1..3])
    ensures ParseHex(hex).value.g == HexValue(hex[3..5])
    ensures ParseHex(hex).value.b == HexValue(hex[5..7])
  {
    HexPairAt(hex, 1);
    HexPairAt(hex, 3);
    HexPairAt(hex, 5);
    var red, green, blue := HexValue(hex[1..3]), HexValue(hex[3..5]), HexValue(hex[5..7]);
    RGBOfBytes(red, green, blue);
    assert ParseHex(hex) == Some(Rgb(red, green, blue));
  }

  function HexChar(d: nat): (c: char)
    requires d < 16
    ensures IsHexDigit(c) && HexDigitValue(c) == d
  {
    if d < 10 then ('0' as int + d) as char else ('A' as int + d - 10) as char
  }

  function HexByte(v: Byte): string {
    [HexChar(v / 16), HexChar(v % 16)]
  }

  /** The `#RRGGBB` text of a colour, as the default configuration writes
      it; the partner of HexToColor. */
  function FormatColor(c: Rgb): (s: string)
    ensures |s| == 7 && s[0] == '#' && AllHexDigits(s[1..])
  {
    "#" + HexByte(c.r) + HexByte(c.g) + HexByte(c.b)
  }

  lemma HexByteValue(v: Byte)
    ensures HexValue(HexByte(v)) == v
  {
    var s := HexByte(v);
    assert s[..|s| - 1] == [HexChar(v / 16)];
    assert HexValue([HexChar(v / 16)]) == v / 16 by {
      assert [HexChar(v / 16)][..0] == [];
    }
  }

  /** HexToColor reads back every colour FormatColor writes. */
  lemma {:induction false} HexToColorRoundTrip(c: Rgb)
    ensures ParseHex(FormatColor(c)) == Some(c)
    ensures HexToColor(FormatColor(c)) == c
  {
    var s := FormatColor(c);
    assert s[1..3] == HexByte(c.r) && s[3..5] == HexByte(c.g) && s[5..7] == HexByte(c.b);
    HexByteAt(s, 1, c.r);
    HexByteAt(s, 3, c.g);
    HexByteAt(s, 5, c.b);
    RGBOfBytes(c.r, c.g, c.b);
  }

  /** The two digits HexByte writes, found at `i`, convert back to `v`. */
  lemma HexByteAt(s: string, i: nat, v: Byte)
    requires i + 2 <= |s| && s[i..i + 2] == HexByte(v)
    ensures ScanHex2(s, i) == Some(Scanned(v, i + 2))
  {
    assert s[i] == s[i..i + 2][0] && s[i + 1] == s[i..i + 2][1];
    HexPairAt(s, i);
    HexByteValue(v);
  }

  /** A `#` followed by a character that is neither white space, a sign
      nor a hexadecimal digit converts nothing, and gives black. */
  lemma NonHexIsBlack(hex: string)
    requires |hex| >= 2 && hex[0] == '#'
    requires !IsSpace(hex[1]) && hex[1] != '+' && hex[1] != '-' && !IsHexDigit(hex[1])
    ensures ParseHex(hex) == None
    ensures HexToColor(hex) == Black
  {
    assert SkipSpace(hex, 1) == 1;
    assert HexDigitsEnd(hex, 1, 2) == 1;
  }

  lemma HexDigitAtEnd(hex: string, i: nat)
    requires i + 1 == |hex| && IsHexDigit(hex[i])
    ensures ScanHex2(hex, i) == Some(Scanned(HexDigitValue(hex[i]), i + 1))
  {
    assert SkipSpace(hex, i) == i;
    assert HexDigitsEnd(hex, i, 2) == i + 1;
    var d := hex[i..i + 1];
    assert d == [hex[i]] && d[..|d| - 1] == [];
    assert HexValue(d) == HexDigitValue(hex[i]);
  }

  /** Each field is at most two characters but may be shorter: five digits
      convert as 12, 34 and 5 rather than being rejected. */
  lemma ShortFieldAccepted()
    ensures ParseHex("#12345") == Some(Rgb(0x12, 0x34, 0x05))
  {
    var s := "#12345";
    HexPairAt(s, 1);
    HexPairAt(s, 3);
    HexDigitAtEnd(s, 5);
    assert HexValue(s[1..3]) == 0x12 by {
      assert s[1..3][..1][..0] == [];
    }
    assert HexValue(s[3..5]) == 0x34 by {
      assert s[3..5][..1][..0] == [];
    }
  }

  /** A `-` and one digit make a whole `%02x` field: the field converts to
      the negated digit. */
  lemma NegatedDigitAt(hex: string, i: nat)
    requires i + 2 <= |hex| && hex[i] == '-' && IsHexDigit(hex[i + 1])
    ensures ScanHex2(hex, i) == Some(Scanned(-(HexDigitValue(hex[i + 1]) as int), i + 2))
  {
    assert SkipSpace(hex, i) == i;
    assert HexDigitsEnd(hex, i + 1, 1) == i + 2;
    var d := hex[i + 1..i + 2];
    assert d == [hex[i + 1]] && d[..|d| - 1] == [];
  }

  /** `%02x` accepts a sign, and `RGB` keeps the low eight bits of what it
      is given: each `-1` field becomes 255. */
  lemma NegativeFieldsWrap()
    ensures ParseHex("#-1-1-1") == Some(Rgb(255, 255, 255))
  {
    var s := "#-1-1-1";
    NegatedDigitAt(s, 1);
    NegatedDigitAt(s, 3);
    NegatedDigitAt(s, 5);
  }
}
