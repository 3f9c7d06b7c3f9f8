/** A printer for firmware files, and the round trip through the parser. */
module ImagePrinter {
  import opened Bytes
  import opened Sections
  import opened Versions
  import opened ImageFormat
  import opened ImageProofs

  const UPPER_DIGITS: seq<byte> :=
    [0x30, 0x31, 0x32, 0x33, 0x34, 0x35, 0x36, 0x37, 0x38, 0x39, 0x41, 0x42, 0x43, 0x44, 0x45, 0x46]
  const LOWER_DIGITS: seq<byte> :=
    [0x30, 0x31, 0x32, 0x33, 0x34, 0x35, 0x36, 0x37, 0x38, 0x39, 0x61, 0x62, 0x63, 0x64, 0x65, 0x66]

  function Digit(d: nat, upper: bool): (c: byte)
    requires d < 16
  {
    if upper then UPPER_DIGITS[d] else LOWER_DIGITS[d]
  }

  // The last n hexadecimal digits of v.
  function HexWord(v: nat, n: nat, upper: bool): (w: seq<byte>)
    ensures |w| == n
  {
    if n == 0 then [] else HexWord(v / 16, n - 1, upper) + [Digit(v % 16, upper)]
  }

  lemma DigitIsHex(d: nat, upper: bool)
    requires d < 16
    ensures IsHexDigit(Digit(d, upper)) && DigitValue(Digit(d, upper)) == d
  {
    assert d == 0 || d == 1 || d == 2 || d == 3 || d == 4 || d == 5 || d == 6 || d == 7
        || d == 8 || d == 9 || d == 10 || d == 11 || d == 12 || d == 13 || d == 14 || d == 15;
  }

  // The digits spell the number.
  lemma {:induction false} HexWordSpells(v: nat, n: nat, upper: bool)
    requires v < Pow16(n)
    ensures IsHex(HexWord(v, n, upper)) && HexValue(HexWord(v, n, upper)) == v
    decreases n
  {
    if n > 0 {
      var high := HexWord(v / 16, n - 1, upper);
      HexWordSpells(v / 16, n - 1, upper);
      DigitIsHex(v % 16, upper);
      assert HexWord(v, n, upper)[..n - 1] == high;
    }
  }

  lemma EightDigits(v: nat, upper: bool)
    requires v < TWO_POW_32
    ensures Spelling(HexWord(v, 8, upper)) && HexValue(HexWord(v, 8, upper)) == v
  {
    assert Pow16(4) == 0x1_0000;
    assert Pow16(8) == TWO_POW_32;
    HexWordSpells(v, 8, upper);
  }

  function FromInt32(v: int): nat {
    v % TWO_POW_32
  }

  // Numbers that fit the file's 32-bit fields.
  predicate Printable(s: Section) {
    && s.address < TWO_POW_32 && 0 < s.byteCnt < 0x8000_0000
    && -0x8000_0000 <= s.erasePageCnt < 0x8000_0000
    && s.version < TWO_POW_32 && s.checksum < TWO_POW_32
    && s.reserved01 < TWO_POW_32 && s.reserved02 < TWO_POW_32 && s.reserved03 < TWO_POW_32
    && s.content.Some?
  }

  function Spell(s: Section, upper: bool): SpelledSection {
    SpelledSection(HexWord(s.address, 8, upper), HexWord(FromInt32(s.byteCnt), 8, upper),
                   HexWord(FromInt32(s.erasePageCnt), 8, upper), HexWord(s.version, 8, upper),
                   HexWord(s.checksum, 8, upper), HexWord(s.reserved01, 8, upper),
                   HexWord(s.reserved02, 8, upper), HexWord(s.reserved03, 8, upper),
                   if s.content.Some? then s.content.value else [])
  }

  function SpellAll(ss: seq<Section>, upper: bool): (ts: seq<SpelledSection>) {
    seq(|ss|, k requires 0 <= k < |ss| => Spell(ss[k], upper))
  }

  predicate PrintableVersion(v: Version) {
    && v.display < TWO_POW_32 && v.hidden < TWO_POW_32 && v.product1 < TWO_POW_32
    && v.product2 < TWO_POW_32 && v.icName1 < TWO_POW_32 && v.icName2 < TWO_POW_32
  }

  function SpellHeader(v: Version, flag: nat, upper: bool): SpelledHeader {
    SpelledHeader(HexWord(v.display, 8, upper), HexWord(v.hidden, 8, upper), HexWord(v.product1, 8, upper),
                  HexWord(v.product2, 8, upper), HexWord(v.icName1, 8, upper), HexWord(v.icName2, 8, upper),
                  HexWord(0, 8, upper), HexWord(0, 8, upper), HexWord(flag, 4, upper))
  }

  // The file for a version, an update flag and a list of sections, in either case of digits.
  function PrintImage(v: Version, flag: nat, ss: seq<Section>, upper: bool): seq<byte> {
    Render(SpellHeader(v, flag, upper), SpellAll(ss, upper))
  }

  lemma SpelledMeansSame(s: Section, upper: bool)
    requires Printable(s)
    ensures Spell(s, upper).Spelled() && Spell(s, upper).Meaning() == s
  {
    hide HexWord, Spelling, HexValue;
    EightDigits(s.address, upper);
    EightDigits(FromInt32(s.byteCnt), upper);
    EightDigits(FromInt32(s.erasePageCnt), upper);
    EightDigits(s.version, upper);
    EightDigits(s.checksum, upper);
    EightDigits(s.reserved01, upper);
    EightDigits(s.reserved02, upper);
    EightDigits(s.reserved03, upper);
  }

  lemma HeaderMeansSame(v: Version, flag: nat, upper: bool)
    requires PrintableVersion(v) && flag < 0x1_0000
    ensures var h := SpellHeader(v, flag, upper);
            h.Valid() && h.Meaning() == v && HexValue(h.flag) == flag
  {
    EightDigits(v.display, upper);
    EightDigits(v.hidden, upper);
    EightDigits(v.product1, upper);
    EightDigits(v.product2, upper);
    EightDigits(v.icName1, upper);
    EightDigits(v.icName2, upper);
    EightDigits(0, upper);
    assert Pow16(4) == 0x1_0000;
    HexWordSpells(flag, 4, upper);
    hide HexWord, HexValue;
  }

  // Round trip: printing any versions, flag and non-empty list of checked sections, with payload bytes of any value,
  // and parsing the file gives back the same versions, flag and list in order.
  lemma PrintedImageParses(v: Version, flag: nat, ss: seq<Section>, upper: bool, v0: Version, all0: int)
    requires PrintableVersion(v) && flag < 0x1_0000 && ss != []
    requires forall k :: 0 <= k < |ss| ==> Printable(ss[k]) && Checked(ss[k])
    ensures Parse(PrintImage(v, flag, ss, upper), v0, all0) == Parsed(0, v, flag, ss)
  {
    hide Parse, Render, SpellHeader, HexValue, Checked, Spell, SpelledSection.Spelled, SpelledSection.Meaning;
    var ts := SpellAll(ss, upper);
    forall k | 0 <= k < |ss| ensures ts[k].Valid() && ts[k].Meaning() == ss[k] {
      SpelledMeansSame(ss[k], upper);
    }
    assert Meanings(ts) == ss;
    assert AllValid(ts);
    HeaderMeansSame(v, flag, upper);
    ParseRendered(SpellHeader(v, flag, upper), ts, v0, all0);
  }
}
