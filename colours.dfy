/**
  The colour table of the mushroom infobox template (mycota/colour_picker.py): named
  byte triples, the integer array built from them, and their `#rrggbb` strings.
*/
module Colours {
  import opened Wrappers

  newtype byte = x: int | 0 <= x < 256

  /** One entry of `COLOURS`: a colour name and its `bytes` value. */
  datatype Entry = Entry(name: string, bytes: seq<byte>)

  /** A row of `colour_array`: red, green and blue as integers. */
  datatype Triple = Triple(red: int, green: int, blue: int)

  /** `COLOURS`, in the insertion order a `dict` keeps. */
  const ColourTable: seq<Entry> := [
    Entry("black",          [0x00, 0x00, 0x00]),
    Entry("white",          [0xFF, 0xFF, 0xFF]),
    Entry("olive",          [0x78, 0x88, 0x61]),
    Entry("olive-brown",    [0x87, 0x81, 0x56]),
    Entry("brown",          [0x5d, 0x43, 0x1f]),
    Entry("yellow",         [0xf2, 0xef, 0xba]),
    Entry("pink",           [0xf7, 0xcf, 0xca]),
    Entry("tan",            [0xcb, 0xa7, 0x77]),
    Entry("salmon",         [0xf6, 0xcf, 0xb3]),
    Entry("ochre",          [0xcc, 0x77, 0x22]),
    Entry("cream",          [0xfa, 0xf5, 0xe7]),
    Entry("buff",           [0xeb, 0xd6, 0x9a]),
    Entry("blackish-brown", [0x27, 0x1c, 0x13]),
    Entry("reddish-brown",  [0x67, 0x32, 0x1a]),
    Entry("pinkish-brown",  [0xf4, 0xc6, 0xa6]),
    Entry("green",          [0x7c, 0x8a, 0x68]),
    Entry("yellow-orange",  [0xff, 0xbf, 0x68]),
    Entry("purple",         [0x5a, 0x43, 0x64]),
    Entry("purple-black",   [0x3b, 0x2a, 0x42]),
    Entry("purple-brown",   [0x4b, 0x35, 0x45]),
    Entry("yellow-brown",   [0xcb, 0x97, 0x35])
  ]

  predicate AllTriples(entries: seq<Entry>) {
    forall i | 0 <= i < |entries| :: |entries[i].bytes| == 3
  }

  /** The table has 21 colours, each exactly three bytes long. */
  lemma TableTriples()
    ensures |ColourTable| == 21 && AllTriples(ColourTable)
  {
  }

  predicate InByteRange(t: Triple) {
    0 <= t.red < 256 && 0 <= t.green < 256 && 0 <= t.blue < 256
  }

  /** `np.array([tuple(triple) for triple in COLOURS.values()])`: one row of integers per entry. */
  function ColourArray(entries: seq<Entry>): (rows: seq<Triple>)
    requires AllTriples(entries)
    ensures |rows| == |entries|
    ensures forall i | 0 <= i < |rows| :: InByteRange(rows[i])
    ensures forall i | 0 <= i < |rows| ::
      rows[i] == Triple(entries[i].bytes[0] as int, entries[i].bytes[1] as int, entries[i].bytes[2] as int)
  {
    seq(|entries|, i requires 0 <= i < |entries| =>
      Triple(entries[i].bytes[0] as int, entries[i].bytes[1] as int, entries[i].bytes[2] as int))
  }

  predicate IsLowerHex(c: char) {
    '0' <= c <= '9' || 'a' <= c <= 'f'
  }

  function HexDigit(n: int): (c: char)
    requires 0 <= n < 16
    ensures IsLowerHex(c)
  {
    if n < 10 then ('0' as int + n) as char else ('a' as int + n - 10) as char
  }

  function HexValue(c: char): (n: int)
    requires IsLowerHex(c)
    ensures 0 <= n < 16
  {
    if c <= '9' then c as int - '0' as int else c as int - 'a' as int + 10
  }

  lemma HexDigitValue(n: int)
    requires 0 <= n < 16
    ensures HexValue(HexDigit(n)) == n
  {
  }

  lemma HexValueDigit(c: char)
    requires IsLowerHex(c)
    ensures HexDigit(HexValue(c)) == c
  {
  }

  /** Python's `f'{n:02x}'` for 0 <= n < 256: two lowercase hex digits, high one first. */
  function Hex2(n: int): (s: string)
    requires 0 <= n < 256
    ensures |s| == 2 && IsLowerHex(s[0]) && IsLowerHex(s[1])
  {
    [HexDigit(n / 16), HexDigit(n % 16)]
  }

  /** `f'#{red:02x}{green:02x}{blue:02x}'`. */
  function ColourStr(t: Triple): (s: string)
    requires InByteRange(t)
    ensures |s| == 7 && s[0] == '#'
    ensures forall i | 1 <= i < 7 :: IsLowerHex(s[i])
  {
    "#" + Hex2(t.red) + Hex2(t.green) + Hex2(t.blue)
  }

  /** Reads a `#rrggbb` string with lowercase hex digits back into its triple. */
  function ParseColourStr(s: string): (r: Option<Triple>)
    ensures r.Some? ==> InByteRange(r.value)
  {
    if |s| == 7 && s[0] == '#' && forall i | 1 <= i < 7 :: IsLowerHex(s[i]) then
      Some(Triple(16 * HexValue(s[1]) + HexValue(s[2]),
                  16 * HexValue(s[3]) + HexValue(s[4]),
                  16 * HexValue(s[5]) + HexValue(s[6])))
    else None
  }

  /** Every colour string reads back as the triple it was written from. */
  lemma ColourStrRoundTrip(t: Triple)
    requires InByteRange(t)
    ensures ParseColourStr(ColourStr(t)) == Some(t)
  {
    var s := ColourStr(t);
    HexDigitValue(t.red / 16);
    HexDigitValue(t.red % 16);
    HexDigitValue(t.green / 16);
    HexDigitValue(t.green % 16);
    HexDigitValue(t.blue / 16);
    HexDigitValue(t.blue % 16);
  }

  /** Two hex digits read as a number are written back as the same two digits. */
  lemma Hex2Value(hi: char, lo: char)
    requires IsLowerHex(hi) && IsLowerHex(lo)
    ensures 0 <= 16 * HexValue(hi) + HexValue(lo) < 256
    ensures Hex2(16 * HexValue(hi) + HexValue(lo)) == [hi, lo]
  {
    var n := 16 * HexValue(hi) + HexValue(lo);
    assert n / 16 == HexValue(hi) && n % 16 == HexValue(lo);
    HexValueDigit(hi);
    HexValueDigit(lo);
  }

  /** Six hex digits read as a triple are written back as the same six digits. */
  lemma ColourStrOfDigits(r1: char, r0: char, g1: char, g0: char, b1: char, b0: char)
    requires IsLowerHex(r1) && IsLowerHex(r0) && IsLowerHex(g1) && IsLowerHex(g0) && IsLowerHex(b1) && IsLowerHex(b0)
    ensures var t := Triple(16 * HexValue(r1) + HexValue(r0), 16 * HexValue(g1) + HexValue(g0), 16 * HexValue(b1) + HexValue(b0));
      InByteRange(t) && ColourStr(t) == ['#', r1, r0, g1, g0, b1, b0]
  {
    Hex2Value(r1, r0);
    Hex2Value(g1, g0);
    Hex2Value(b1, b0);
  }

  /** A string that reads as a triple is exactly that triple's colour string. */
  lemma ParseColourStrExact(s: string)
    requires ParseColourStr(s).Some?
    ensures ColourStr(ParseColourStr(s).value) == s
  {
    assert IsLowerHex(s[1]) && IsLowerHex(s[2]) && IsLowerHex(s[3]);
    assert IsLowerHex(s[4]) && IsLowerHex(s[5]) && IsLowerHex(s[6]);
    ColourStrOfDigits(s[1], s[2], s[3], s[4], s[5], s[6]);
    assert s == ['#', s[1], s[2], s[3], s[4], s[5], s[6]];
  }

  /** `colour_strs`: one string per entry, in table order, each reading back as that entry's row. */
  function ColourStrs(entries: seq<Entry>): (strs: seq<string>)
    requires AllTriples(entries)
    ensures |strs| == |entries|
    ensures forall i | 0 <= i < |strs| :: ParseColourStr(strs[i]) == Some(ColourArray(entries)[i])
  {
    var rows := ColourArray(entries);
    assert forall i | 0 <= i < |rows| :: ParseColourStr(ColourStr(rows[i])) == Some(rows[i]) by {
      forall i | 0 <= i < |rows| ensures ParseColourStr(ColourStr(rows[i])) == Some(rows[i]) {
        ColourStrRoundTrip(rows[i]);
      }
    }
    seq(|rows|, i requires 0 <= i < |rows| => ColourStr(rows[i]))
  }
}
