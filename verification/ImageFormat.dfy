/** The firmware file: text lines that name a version, a section or one of its numbers, with each section's payload
    as raw bytes between two lines. This is what the parser computes, as functions on the bytes still to be read. */
module ImageFormat {
  import opened Bytes
  import opened Wrappers
  import opened Sections
  import opened Versions
  import opened Checksum

  const LINE_SIZE := 128

  const NEWLINE: byte := 0x0A
  const SEMICOLON: byte := 0x3B
  const DOLLAR: byte := 0x24
  const HASH: byte := 0x23
  const STAR: byte := 0x2A

  const ERROR_BAD_DIGIT := -2
  const ERROR_PARSING_FORMAT_INVALID := 0x8100_0003 - TWO_POW_32
  const ERROR_PARSING_CHECKSUM_FAIL := 0x8100_0004 - TWO_POW_32
  const ERROR_PARSING_DATA_CNT_FAIL := 0x8100_0007 - TWO_POW_32
  const ERROR_PARSING_HEADER_DATA_INVALID_LENGTH := 0x8100_0008 - TWO_POW_32

  // ----- Lines -----

  predicate IsBlank(ch: byte) {
    ch == 0x0D || ch == 0x09 || ch == 0x20
  }

  datatype Line = Line(buff: seq<byte>, rest: seq<byte>)

  // Reads up to a newline, a full buffer or the end of data, dropping blanks and everything after a semicolon.
  function ReadLine(data: seq<byte>, buff: seq<byte>, comment: bool): (l: Line)
    ensures |l.rest| <= |data| && (data != [] && |buff| < LINE_SIZE ==> |l.rest| < |data|)
    ensures |buff| <= LINE_SIZE ==> |l.buff| <= LINE_SIZE
    decreases |data|
  {
    if data == [] || LINE_SIZE <= |buff| then Line(buff, data)
    else
      var ch, tail := data[0], data[1..];
      if ch == NEWLINE then Line(buff, tail)
      else if IsBlank(ch) then ReadLine(tail, buff, comment)
      else if ch == SEMICOLON then ReadLine(tail, buff, true)
      else if comment then ReadLine(tail, buff, comment)
      else ReadLine(tail, buff + [ch], comment)
  }

  // ----- Hexadecimal numbers -----

  predicate IsHexDigit(c: byte) {
    0x30 <= c <= 0x39 || 0x41 <= c <= 0x46 || 0x61 <= c <= 0x66
  }

  function DigitValue(c: byte): (d: nat)
    ensures d < 16
  {
    if 0x30 <= c <= 0x39 then Val(c) - 0x30
    else if 0x41 <= c <= 0x46 then Val(c) - 0x37
    else if 0x61 <= c <= 0x66 then Val(c) - 0x57
    else 0
  }

  predicate IsHex(s: seq<byte>) {
    forall i :: 0 <= i < |s| ==> IsHexDigit(s[i])
  }

  function HexValue(s: seq<byte>): nat {
    if s == [] then 0 else HexValue(s[..|s| - 1]) * 16 + DigitValue(s[|s| - 1])
  }

  // Weight of a digit with k digits to its right.
  function Pow16(k: nat): (p: nat)
    ensures 0 < p
  {
    if k == 0 then 1 else 16 * Pow16(k - 1)
  }

  // The result of a conversion, or of anything else in the parser: a value, an error code, or behaviour that the
  // C standard leaves undefined (a shift by 32 or more, a read past the end of an array).
  datatype Result<T> = Ok(value: T) | Err(code: int) | Undefined

  // More than eight digits shift the first one out of the 32-bit word.
  function ConvHexStr2Int(s: seq<byte>): Result<nat> {
    if 8 < |s| && IsHexDigit(s[0]) then Undefined
    else if IsHex(s) then Ok(HexValue(s))
    else Err(ERROR_BAD_DIGIT)
  }

  function ToInt32(v: nat): int {
    if v < 0x8000_0000 then v else v - TWO_POW_32
  }

  // ----- The state machine -----

  datatype Level = LNone | LAddress | LLength | LEraseSize | LVersion | LChecksum | LReserve01 | LReserve02

  datatype State = State(dollars: nat, all: int, version: Version, level: Level, sections: seq<Section>)

  // What a line does: the state and the data after it, or the error that ends the parse (in the state so far).
  datatype Step = Next(st: State, rest: seq<byte>) | Stop(code: int, last: State) | Wild

  function SetVersionWord(v: Version, k: nat, w: nat): Version {
    match k
    case 1 => v.(display := w)
    case 2 => v.(hidden := w)
    case 3 => v.(product1 := w)
    case 4 => v.(product2 := w)
    case 5 => v.(icName1 := w)
    case 6 => v.(icName2 := w)
    case _ => v
  }

  // The four characters after the dollar sign, with the zero bytes that fill the line buffer.
  function FlagDigits(buff: seq<byte>): seq<byte> {
    var padded := buff + [0, 0, 0, 0, 0];
    padded[1..5]
  }

  // A dollar line: six version words, two lines that are skipped, and the update flag.
  function DollarLine(st: State, buff: seq<byte>, text: seq<byte>, rest: seq<byte>): Step
    requires 0 < |text|
  {
    var n := st.dollars + 1;
    var st1 := st.(dollars := n);
    if 1 <= n <= 6 then
      match ConvHexStr2Int(text[1..])
      case Ok(v) => Next(st1.(version := SetVersionWord(st1.version, n, v)), rest)
      case Err(code) => Stop(code, st1)
      case Undefined => Wild
    else if n == 9 then
      match ConvHexStr2Int(FlagDigits(buff))
      case Ok(v) => Next(st1.(all := v), rest)
      case Err(code) => Stop(code, st1)
      case Undefined => Wild
    else Next(st1, rest)
  }

  function NewSection(address: nat): Section {
    Section(address, 0, 0, 0, 0, 0, 0, 0, None)
  }

  // A hash line begins a section.
  function HashLine(st: State, text: seq<byte>, rest: seq<byte>): Step
    requires 0 < |text|
  {
    if |text| < 2 then Stop(ERROR_PARSING_HEADER_DATA_INVALID_LENGTH, st)
    else if st.level != LNone then Stop(ERROR_PARSING_FORMAT_INVALID, st)
    else
      match ConvHexStr2Int(text[1..])
      case Ok(v) => Next(st.(sections := st.sections + [NewSection(v)], level := LAddress), rest)
      case Err(code) => Stop(code, st)
      case Undefined => Wild
  }

  // The section under construction with one more number; the last number is followed by the payload.
  function NumberLine(st: State, v: nat, rest: seq<byte>): Step
    requires st.level != LNone && st.sections != []
  {
    var n := |st.sections| - 1;
    var s := st.sections[n];
    match st.level
    case LAddress =>
      if ToInt32(v) < 1 then Stop(ERROR_PARSING_DATA_CNT_FAIL, st)
      else Next(st.(sections := st.sections[n := s.(byteCnt := ToInt32(v))], level := LLength), rest)
    case LLength => Next(st.(sections := st.sections[n := s.(erasePageCnt := ToInt32(v))], level := LEraseSize), rest)
    case LEraseSize => Next(st.(sections := st.sections[n := s.(version := v)], level := LVersion), rest)
    case LVersion => Next(st.(sections := st.sections[n := s.(checksum := v)], level := LChecksum), rest)
    case LChecksum => Next(st.(sections := st.sections[n := s.(reserved01 := v)], level := LReserve01), rest)
    case LReserve01 => Next(st.(sections := st.sections[n := s.(reserved02 := v)], level := LReserve02), rest)
    case LReserve02 => PayloadAfter(st, s.(reserved03 := v), rest)
  }

  // Copies the payload and checks it; reading beyond the data or the payload is undefined.
  function PayloadAfter(st: State, s: Section, rest: seq<byte>): Step
    requires st.sections != []
  {
    if s.byteCnt < 0 || |rest| < s.byteCnt then Wild
    else
      var payload := rest[..s.byteCnt];
      var st1 := st.(sections := st.sections[|st.sections| - 1 := s.(content := Some(payload))]);
      match PayloadChecksum(s.address, payload)
      case None => Wild
      case Some(c) =>
        if c != s.checksum then Stop(ERROR_PARSING_CHECKSUM_FAIL, st1)
        else Next(st1.(level := LNone), rest[s.byteCnt..])
  }

  function StarLine(st: State, text: seq<byte>, rest: seq<byte>): Step
    requires 0 < |text| && (st.level != LNone ==> st.sections != [])
  {
    if |text| < 2 then Stop(ERROR_PARSING_HEADER_DATA_INVALID_LENGTH, st)
    else if st.level == LNone then Stop(ERROR_PARSING_FORMAT_INVALID, st)
    else
      match ConvHexStr2Int(text[1..])
      case Ok(v) => NumberLine(st, v, rest)
      case Err(code) => Stop(code, st)
      case Undefined => Wild
  }

  // One line, read as a C string. A buffer that is full without a zero byte has no end as a string.
  function ParseLine(st: State, buff: seq<byte>, rest: seq<byte>): Step
    requires st.level != LNone ==> st.sections != []
  {
    var text := UntilZero(buff);
    if LINE_SIZE <= |text| then Wild
    else if text == [] then Next(st, rest)
    else if text[0] == DOLLAR then DollarLine(st, buff, text, rest)
    else if text[0] == HASH then HashLine(st, text, rest)
    else if text[0] == STAR then StarLine(st, text, rest)
    else Stop(ERROR_PARSING_FORMAT_INVALID, st)
  }

  // A step consumes no more than is there, keeps a section under construction unless the level is none, and stops
  // only with an error.
  lemma StepShape(st: State, buff: seq<byte>, rest: seq<byte>)
    requires st.level != LNone ==> st.sections != []
    ensures var step := ParseLine(st, buff, rest);
            && (step.Next? ==> |step.rest| <= |rest| && (step.st.level != LNone ==> step.st.sections != []))
            && (step.Stop? ==> step.code < 0)
  {
  }

  // The outcome of a parse; on an error the list of sections is dropped.
  datatype Outcome = Parsed(errnum: int, version: Version, all: int, sections: seq<Section>) | Runaway

  // The parse of the data from a state on. The line that reaches the end of the data is dropped.
  function ParseFrom(data: seq<byte>, st: State): Outcome
    requires st.level != LNone ==> st.sections != []
    decreases |data|
  {
    var line := ReadLine(data, [], false);
    StepShape(st, line.buff, line.rest);
    if line.rest == [] then Parsed(0, st.version, st.all, st.sections)
    else
      match ParseLine(st, line.buff, line.rest)
      case Next(st1, rest) => ParseFrom(rest, st1)
      case Stop(code, last) => Parsed(code, last.version, last.all, [])
      case Wild => Runaway
  }

  // The parse of a whole file; the version and the flag are those of the caller until a line sets them.
  function Parse(data: seq<byte>, version: Version, all: int): Outcome {
    ParseFrom(data, State(0, all, version, LNone, []))
  }

  // ----- What a line may look like -----

  // A carriage return, tab or space in a line that still has room is ignored.
  lemma {:induction false} BlankIgnored(a: seq<byte>, ch: byte, b: seq<byte>, buff: seq<byte>, comment: bool)
    requires 0x0A !in a && ch in {0x0D, 0x09, 0x20} && |ReadLine(a, buff, comment).buff| < 128
    ensures ReadLine(a + [ch] + b, buff, comment) == ReadLine(a + b, buff, comment)
    decreases |a|
  {
    if a == [] {
      assert a + [ch] + b == [ch] + b && ([ch] + b)[1..] == b && a + b == b;
    } else {
      FirstOff(a, [ch] + b);
      FirstOff(a, b);
      assert a + [ch] + b == a + ([ch] + b) && a[1..] + [ch] + b == a[1..] + ([ch] + b);
      var rest := a[1..];
      if IsBlank(a[0]) {
        BlankIgnored(rest, ch, b, buff, comment);
      } else if a[0] == SEMICOLON {
        BlankIgnored(rest, ch, b, buff, true);
      } else if comment {
        BlankIgnored(rest, ch, b, buff, comment);
      } else {
        BlankIgnored(rest, ch, b, buff + [a[0]], comment);
      }
    }
  }

  lemma FirstOff(a: seq<byte>, b: seq<byte>)
    requires a != []
    ensures (a + b)[0] == a[0] && (a + b)[1..] == a[1..] + b
  {
  }

  // So is everything between a semicolon and the end of its line.
  lemma {:induction false} CommentIgnored(a: seq<byte>, text: seq<byte>, b: seq<byte>, buff: seq<byte>, comment: bool)
    requires 0x0A !in a && 0x0A !in text && |ReadLine(a, buff, comment).buff| < 128
    ensures ReadLine(a + ([0x3B] + text + [0x0A] + b), buff, comment) == ReadLine(a + ([0x0A] + b), buff, comment)
    decreases |a|
  {
    var long, short := [0x3B] + text + [0x0A] + b, [0x0A] + b;
    if a == [] {
      assert a + long == long && a + short == short;
      CommentedLine(text, b, buff, comment);
    } else {
      hide IsBlank;
      FirstOff(a, long);
      FirstOff(a, short);
      var rest := a[1..];
      if IsBlank(a[0]) {
        CommentIgnored(rest, text, b, buff, comment);
      } else if a[0] == SEMICOLON {
        CommentIgnored(rest, text, b, buff, true);
      } else if comment {
        CommentIgnored(rest, text, b, buff, comment);
      } else {
        CommentIgnored(rest, text, b, buff + [a[0]], comment);
      }
    }
  }

  lemma CommentedLine(text: seq<byte>, b: seq<byte>, buff: seq<byte>, comment: bool)
    requires 0x0A !in text && |buff| < 128
    ensures ReadLine([0x3B] + text + [0x0A] + b, buff, comment) == Line(buff, b)
    ensures ReadLine([0x0A] + b, buff, comment) == Line(buff, b)
  {
    var long := [0x3B] + text + [0x0A] + b;
    assert ([0x0A] + b)[1..] == b;
    assert long[0] == SEMICOLON && long[1..] == text + ([0x0A] + b);
    InComment(text, b, buff);
  }

  lemma {:induction false} InComment(text: seq<byte>, b: seq<byte>, buff: seq<byte>)
    requires 0x0A !in text && |buff| < 128
    ensures ReadLine(text + ([0x0A] + b), buff, true) == Line(buff, b)
    decreases |text|
  {
    var tail := [0x0A] + b;
    if text == [] {
      assert text + tail == tail && tail[1..] == b;
    } else {
      FirstOff(text, tail);
      InComment(text[1..], b, buff);
    }
  }

  // Wherever the parse stands at a text line, blanks put into it and a comment put at its end leave the outcome as it
  // is.
  lemma DecorationIgnored(a: seq<byte>, ch: byte, text: seq<byte>, b: seq<byte>, st: State)
    requires st.level != LNone ==> st.sections != []
    requires 0x0A !in a && 0x0A !in text && ch in {0x0D, 0x09, 0x20} && |ReadLine(a, [], false).buff| < 128
    ensures ParseFrom(a + [ch] + b, st) == ParseFrom(a + b, st)
    ensures ParseFrom(a + ([0x3B] + text + [0x0A] + b), st) == ParseFrom(a + ([0x0A] + b), st)
  {
    BlankIgnored(a, ch, b, [], false);
    CommentIgnored(a, text, b, [], false);
  }

  // The errors of a line that is neither empty nor too long: another first character than '$', '#' and '*'; a section
  // or a number without digits, or out of turn; a character that is no digit; and a length that is not positive.
  lemma LineErrors(st: State, buff: seq<byte>, rest: seq<byte>)
    requires st.level != LNone ==> st.sections != []
    requires 0 < |UntilZero(buff)| < 128
    ensures var text, step := UntilZero(buff), ParseLine(st, buff, rest);
            && (text[0] !in {0x24, 0x23, 0x2A} ==> step == Stop(0x8100_0003 - 0x1_0000_0000, st))
            && (text in {[0x23], [0x2A]} ==> step == Stop(0x8100_0008 - 0x1_0000_0000, st))
            && (|text| > 1 && text[0] == 0x23 && st.level != LNone ==> step == Stop(0x8100_0003 - 0x1_0000_0000, st))
            && (|text| > 1 && text[0] == 0x2A && st.level == LNone ==> step == Stop(0x8100_0003 - 0x1_0000_0000, st))
            && (1 < |text| <= 9 && text[0] == 0x2A && st.level != LNone && !IsHex(text[1..]) ==> step == Stop(-2, st))
            && (1 < |text| <= 9 && text[0] == 0x2A && st.level == LAddress && IsHex(text[1..])
                && (HexValue(text[1..]) == 0 || HexValue(text[1..]) >= 0x8000_0000) ==>
                  step == Stop(0x8100_0007 - 0x1_0000_0000, st))
  {
    hide UntilZero, IsHex, HexValue;
    var text := UntilZero(buff);
    if 1 < |text| <= 9 && IsHex(text[1..]) {
      HexBound(text[1..]);
    }
  }

  // The eighth number of a section takes the payload behind its line: accepted if the declared checksum is that of the
  // payload, refused otherwise.
  lemma PayloadChecked(st: State, v: nat, rest: seq<byte>)
    requires st.level == LReserve02 && st.sections != []
    requires var n := st.sections[|st.sections| - 1].byteCnt; 0 < n <= |rest|
    ensures var last := |st.sections| - 1;
            var s, step := st.sections[last], NumberLine(st, v, rest);
            var payload := rest[..s.byteCnt];
            && (PayloadChecksum(s.address, payload) == Some(s.checksum) ==>
                  step == Next(st.(level := LNone, sections := st.sections[last := s.(reserved03 := v,
                                                                                      content := Some(payload))]),
                               rest[s.byteCnt..]))
            && (PayloadChecksum(s.address, payload) !in {None, Some(s.checksum)} ==>
                  step.Stop? && step.code == 0x8100_0004 - 0x1_0000_0000)
  {
    hide PayloadChecksum;
  }

  lemma {:induction false} HexBound(s: seq<byte>)
    requires |s| <= 8
    ensures HexValue(s) < Pow16(|s|) <= 0x1_0000_0000
    decreases |s|
  {
    PowBound(|s|);
    if s != [] {
      HexBound(s[..|s| - 1]);
    }
  }

  lemma PowBound(k: nat)
    requires k <= 8
    ensures Pow16(k) <= 0x1_0000_0000
  {
    assert Pow16(4) == 0x1_0000;
    assert Pow16(8) == 0x1_0000_0000;
    assert k in {0, 1, 2, 3, 4, 5, 6, 7, 8};
  }
}
