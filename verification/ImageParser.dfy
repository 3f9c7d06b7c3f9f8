/** The parser as the loops that the driver runs, proved to compute what ImageFormat describes. */
module ImageParser {
  import opened Bytes
  import opened Wrappers
  import opened Sections
  import opened Versions
  import opened Checksum
  import opened ImageFormat

  // Adds up the digits, each shifted to its place from the left.
  method ConvertHex(hex: seq<byte>) returns (r: Result<nat>)
    ensures r == ConvHexStr2Int(hex)
  {
    if 8 < |hex| && IsHexDigit(hex[0]) {
      return Undefined;
    }
    var total := 0;
    var i := 0;
    while i < |hex|
      invariant 0 <= i <= |hex|
      invariant IsHex(hex[..i])
      invariant total == HexValue(hex[..i]) * Pow16(|hex| - i)
    {
      if !IsHexDigit(hex[i]) {
        return Err(ERROR_BAD_DIGIT);
      }
      var hexIdx := |hex| - i - 1;
      assert hex[..i + 1][..i] == hex[..i];
      AddDigit(HexValue(hex[..i]), DigitValue(hex[i]), Pow16(hexIdx));
      total := total + DigitValue(hex[i]) * Pow16(hexIdx);
      i := i + 1;
    }
    assert hex[..|hex|] == hex;
    return Ok(total);
  }

  lemma AddDigit(high: nat, d: nat, p: nat)
    ensures high * (16 * p) + d * p == (high * 16 + d) * p
  {
  }

  // Fills the line buffer from data at index and returns how much of it is used and where reading stopped.
  method ReadLineInto(data: seq<byte>, index: nat, buff: array<byte>) returns (used: nat, next: nat)
    requires index <= |data| && buff.Length == LINE_SIZE
    modifies buff
    ensures used <= LINE_SIZE && index <= next <= |data|
    ensures ReadLine(data[index..], [], false) == Line(buff[..used], data[next..])
    ensures forall i :: used <= i < LINE_SIZE ==> buff[i] == 0
  {
    forall i | 0 <= i < LINE_SIZE {
      buff[i] := 0;
    }
    used, next := 0, index;
    var comment := false;
    while next < |data| && used < LINE_SIZE
      invariant used <= LINE_SIZE && index <= next <= |data|
      invariant ReadLine(data[index..], [], false) == ReadLine(data[next..], buff[..used], comment)
      invariant forall i :: used <= i < LINE_SIZE ==> buff[i] == 0
      decreases |data| - next
    {
      var ch := data[next];
      assert data[next..][1..] == data[next + 1..];
      next := next + 1;
      if ch == NEWLINE {
        return;
      }
      if IsBlank(ch) {
      } else if ch == SEMICOLON {
        comment := true;
      } else if !comment {
        ghost var before := buff[..used];
        buff[used] := ch;
        used := used + 1;
        assert buff[..used] == before + [ch];
      }
    }
  }

  // The checksum over a section's payload, by the summing loop.
  method FwChecksum(address: nat, payload: seq<byte>) returns (checksum: Option<nat>)
    ensures checksum == PayloadChecksum(address, payload)
  {
    var from := SummedFrom(address);
    var n := WordCount(|payload| - from);
    if n <= 0 {
      return Some(ChecksumOf([]));
    }
    if from + 2 * n > |payload| {
      return None;
    }
    var c := FwCalcChecksum(payload[from..], n);
    return Some(c);
  }

  // Executes one line, and for the last number of a section takes the payload that follows it.
  method ExecuteLine(st: State, buff: seq<byte>, rest: seq<byte>) returns (step: Step)
    requires st.level != LNone ==> st.sections != []
    ensures step == ParseLine(st, buff, rest)
  {
    var text := UntilZero(buff);
    if LINE_SIZE <= |text| {
      return Wild;
    }
    if text == [] {
      return Next(st, rest);
    }
    if text[0] != DOLLAR && text[0] != HASH && text[0] != STAR {
      return Stop(ERROR_PARSING_FORMAT_INVALID, st);
    }
    if text[0] == DOLLAR {
      var n := st.dollars + 1;
      var st1 := st.(dollars := n);
      if 6 < n && n != 9 {
        return Next(st1, rest);
      }
      var number := ConvertHex(if n == 9 then FlagDigits(buff) else text[1..]);
      match number {
        case Ok(v) =>
          return Next(if n == 9 then st1.(all := v) else st1.(version := SetVersionWord(st1.version, n, v)), rest);
        case Err(code) =>
          return Stop(code, st1);
        case Undefined =>
          return Wild;
      }
    }
    if |text| < 2 {
      return Stop(ERROR_PARSING_HEADER_DATA_INVALID_LENGTH, st);
    }
    if (text[0] == HASH) != (st.level == LNone) {
      return Stop(ERROR_PARSING_FORMAT_INVALID, st);
    }
    var number := ConvertHex(text[1..]);
    match number {
      case Ok(v) =>
        if text[0] == HASH {
          return Next(st.(sections := st.sections + [NewSection(v)], level := LAddress), rest);
        }
        step := ExecuteNumber(st, v, rest);
      case Err(code) =>
        return Stop(code, st);
      case Undefined =>
        return Wild;
    }
  }

  // Stores one number in the section under construction; the last one is followed by the payload.
  method ExecuteNumber(st: State, v: nat, rest: seq<byte>) returns (step: Step)
    requires st.level != LNone && st.sections != []
    ensures step == NumberLine(st, v, rest)
  {
    var n := |st.sections| - 1;
    var s, level := st.sections[n], st.level;
    match st.level {
      case LAddress =>
        if ToInt32(v) < 1 {
          return Stop(ERROR_PARSING_DATA_CNT_FAIL, st);
        }
        s, level := s.(byteCnt := ToInt32(v)), LLength;
      case LLength =>
        s, level := s.(erasePageCnt := ToInt32(v)), LEraseSize;
      case LEraseSize =>
        s, level := s.(version := v), LVersion;
      case LVersion =>
        s, level := s.(checksum := v), LChecksum;
      case LChecksum =>
        s, level := s.(reserved01 := v), LReserve01;
      case LReserve01 =>
        s, level := s.(reserved02 := v), LReserve02;
      case LReserve02 =>
        step := TakePayload(st, s.(reserved03 := v), rest);
        return;
    }
    return Next(st.(sections := st.sections[n := s], level := level), rest);
  }

  method TakePayload(st: State, s: Section, rest: seq<byte>) returns (step: Step)
    requires st.sections != []
    ensures step == PayloadAfter(st, s, rest)
  {
    if s.byteCnt < 0 || |rest| < s.byteCnt {
      return Wild;
    }
    var n, payload := |st.sections| - 1, rest[..s.byteCnt];
    var st1 := st.(sections := st.sections[n := s.(content := Some(payload))]);
    var checksum := FwChecksum(s.address, payload);
    if checksum == None {
      return Wild;
    }
    if checksum.value != s.checksum {
      return Stop(ERROR_PARSING_CHECKSUM_FAIL, st1);
    }
    return Next(st1.(level := LNone), rest[s.byteCnt..]);
  }

  // Parses a file; the version and the flag are those of the caller until a line sets them.
  method ParseImage(data: seq<byte>, version: Version, all: int) returns (outcome: Outcome)
    ensures outcome == Parse(data, version, all)
  {
    hide ParseLine, ReadLine, UntilZero;
    var buff := new byte[LINE_SIZE];
    var st := State(0, all, version, LNone, []);
    var index := 0;
    assert data[0..] == data;
    while true
      invariant index <= |data|
      invariant st.level != LNone ==> st.sections != []
      invariant ParseFrom(data[index..], st) == Parse(data, version, all)
      decreases |data| - index
    {
      var used, next := ReadLineInto(data, index, buff);
      StepShape(st, buff[..used], data[next..]);
      if |data| <= next {
        return Parsed(0, st.version, st.all, st.sections);
      }
      ghost var before := data[index..];
      var step := ExecuteLine(st, buff[..used], data[next..]);
      match step {
        case Next(st1, rest) =>
          StepIsSuffix(st, buff[..used], data[next..]);
          DropTwice(data, next, |data| - next - |rest|);
          st, index := st1, |data| - |rest|;
        case Stop(code, last) =>
          return Parsed(code, last.version, last.all, []);
        case Wild =>
          return Runaway;
      }
    }
  }

  // A step leaves a suffix of the data it was given.
  lemma StepIsSuffix(st: State, buff: seq<byte>, rest: seq<byte>)
    requires st.level != LNone ==> st.sections != []
    ensures var step := ParseLine(st, buff, rest);
            step.Next? ==> |step.rest| <= |rest| && step.rest == rest[|rest| - |step.rest|..]
  {
  }

  lemma DropTwice(data: seq<byte>, a: nat, b: nat)
    requires a + b <= |data|
    ensures data[a..][b..] == data[a + b..]
  {
  }
}
