/** The micro-command frame in which the touch controller receives SPI transfers: a 16-byte header, then the
    opcode, a big-endian 24-bit address and data. */
module Framing {
  import opened Bytes
  import opened Nor
  import opened Wrappers

  datatype Transfer = Transfer(payload: seq<byte>, readLength: nat)

  const FRAME_SIZE := 1024
  const HEADER_SIZE := 16

  function Header(writeLength: nat, readLength: nat): (h: seq<byte>)
    ensures |h| == HEADER_SIZE
  {
    [0x0A, 0, 0, 0, ByteAt(writeLength, 1), ByteAt(writeLength, 0x100), 0, 0,
     0, 0, 0, 0, ByteAt(readLength, 1), ByteAt(readLength, 0x100), 0, 0]
  }

  // The frame that sends payload and asks for readLength bytes back (zero for a write).
  function Frame(payload: seq<byte>, readLength: nat): (f: seq<byte>)
    ensures |f| == HEADER_SIZE + |payload|
  {
    Header(|payload|, readLength) + payload
  }

  // The controller's side of the frame.
  function Unframe(f: seq<byte>): Option<Transfer> {
    if |f| < HEADER_SIZE || f[0] != 0x0A then None
    else
      var length := LE16(f[4..6]);
      if length < 0 || |f| < HEADER_SIZE + length || LE16(f[12..14]) < 0 then None
      else Some(Transfer(f[HEADER_SIZE..HEADER_SIZE + length], LE16(f[12..14])))
  }

  // The bytes clocked into the flash for a command; an address keeps its low 24 bits.
  function Encode(c: Command): seq<byte> {
    match c
    case WriteEnable => [0x06]
    case WriteStatus(status) => [0x01, status]
    case ReadStatus => [0x05]
    case ReadId => [0x9F]
    case Read(addr) => [0x03] + ToBE24(addr)
    case PageProgram(addr, data) => [0x02] + ToBE24(addr) + data
    case SectorErase(addr) => [0x20] + ToBE24(addr)
    case ChipErase => [0x60]
    case Unknown => []
  }

  // The flash's side of the bytes.
  function Decode(p: seq<byte>): Command {
    if |p| == 0 then Unknown
    else if |p| == 1 then
      if p[0] == 0x06 then WriteEnable
      else if p[0] == 0x05 then ReadStatus
      else if p[0] == 0x9F then ReadId
      else if p[0] == 0x60 then ChipErase
      else Unknown
    else if |p| == 2 && p[0] == 0x01 then WriteStatus(p[1])
    else if |p| < 4 then Unknown
    else if p[0] == 0x03 && |p| == 4 then Read(BE24(p[1..4]))
    else if p[0] == 0x02 then PageProgram(BE24(p[1..4]), p[4..])
    else if p[0] == 0x20 && |p| == 4 then SectorErase(BE24(p[1..4]))
    else Unknown
  }

  // A command as it arrives: addresses are 24 bits wide.
  function OnTheWire(c: Command): Command {
    match c
    case Read(addr) => Read(addr % TWO_POW_24)
    case PageProgram(addr, data) => PageProgram(addr % TWO_POW_24, data)
    case SectorErase(addr) => SectorErase(addr % TWO_POW_24)
    case _ => c
  }

  // The command fits a frame and its address fits 24 bits.
  predicate Transmissible(c: Command) {
    match c
    case Read(addr) => addr < TWO_POW_24
    case PageProgram(addr, data) => addr < TWO_POW_24 && |data| <= 1004
    case SectorErase(addr) => addr < TWO_POW_24
    case _ => true
  }

  // A transmissible command arrives as it was sent.
  lemma Transmitted(c: Command)
    requires Transmissible(c)
    ensures HEADER_SIZE + |Encode(c)| <= FRAME_SIZE && Decode(Encode(c)) == c
  {
    hide Decode, ToBE24, BE24;
    DecodeEncode(c);
  }

  // The receiver recovers payload and read length exactly.
  lemma UnframeFrame(payload: seq<byte>, readLength: nat)
    requires HEADER_SIZE + |payload| <= FRAME_SIZE
    requires readLength < 0x1_0000
    ensures Unframe(Frame(payload, readLength)) == Some(Transfer(payload, readLength))
  {
    var f := Frame(payload, readLength);
    LE16RoundTrip(|payload|);
    LE16RoundTrip(readLength);
    assert f[4..6] == ToLE16(|payload|);
    assert f[12..14] == ToLE16(readLength);
    assert f[HEADER_SIZE..HEADER_SIZE + |payload|] == payload;
  }

  // The flash recovers opcode, data and the address modulo 2^24: below 2^24 it is the command sent.
  lemma DecodeEncode(c: Command)
    ensures Decode(Encode(c)) == OnTheWire(c)
  {
    var p := Encode(c);
    match c
    case Read(addr) =>
      BE24Truncates(addr);
      assert p[1..4] == ToBE24(addr);
    case PageProgram(addr, data) =>
      BE24Truncates(addr);
      assert p[1..4] == ToBE24(addr);
      assert p[4..] == data;
    case SectorErase(addr) =>
      BE24Truncates(addr);
      assert p[1..4] == ToBE24(addr);
    case _ =>
  }

  // End to end: header, opcode, address and data survive the two encodings.
  lemma FrameCarriesCommand(c: Command, readLength: nat)
    requires HEADER_SIZE + |Encode(c)| <= FRAME_SIZE
    requires readLength < 0x1_0000
    ensures var t := Unframe(Frame(Encode(c), readLength));
            t.Some? && Decode(t.value.payload) == OnTheWire(c) && t.value.readLength == readLength
  {
    UnframeFrame(Encode(c), readLength);
    DecodeEncode(c);
  }

  // A frame byte by byte: the command code 0x0A, the two lengths with the low byte first, zeros, and the payload.
  ghost predicate LiteralFrame(f: seq<byte>, payload: seq<byte>, readLength: nat) {
    && |f| == 16 + |payload|
    && f[0] == 0x0A
    && Val(f[4]) + 0x100 * Val(f[5]) == |payload|
    && Val(f[12]) + 0x100 * Val(f[13]) == readLength
    && (forall k :: k in {1, 2, 3, 6, 7, 8, 9, 10, 11, 14, 15} ==> f[k] == 0)
    && f[16..] == payload
  }

  lemma FrameIsLiteral(payload: seq<byte>, readLength: nat)
    requires 16 + |payload| <= 1024 && readLength < 0x1_0000
    ensures LiteralFrame(Frame(payload, readLength), payload, readLength)
  {
    LE16RoundTrip(|payload|);
    LE16RoundTrip(readLength);
    hide ByteAt, Val;
  }

  // The bytes of each command: its opcode and, where it has one, the address with the high byte first.
  lemma LiteralCommands(addr: nat, data: seq<byte>)
    requires addr < TWO_POW_24
    ensures Encode(WriteEnable) == [0x06] && Encode(ReadStatus) == [0x05] && Encode(ReadId) == [0x9F]
    ensures Encode(ChipErase) == [0x60]
    ensures forall status :: Encode(WriteStatus(status)) == [0x01, status]
    ensures var r, p, e := Encode(Read(addr)), Encode(PageProgram(addr, data)), Encode(SectorErase(addr));
            && |r| == |e| == 4 && |p| == 4 + |data| && p[4..] == data
            && r[0] == 0x03 && p[0] == 0x02 && e[0] == 0x20
            && r[1..4] == p[1..4] == e[1..4]
            && 0x1_0000 * Val(r[1]) + 0x100 * Val(r[2]) + Val(r[3]) == addr
  {
    BE24Truncates(addr);
    hide ByteAt, Val;
    var r, p, e := Encode(Read(addr)), Encode(PageProgram(addr, data)), Encode(SectorErase(addr));
    assert r[1..4] == ToBE24(addr) && p[1..4] == ToBE24(addr) && e[1..4] == ToBE24(addr);
    assert BE24(ToBE24(addr)) == addr;
  }

  method WriteHeader(frame: array<byte>, writeLength: nat, readLength: nat)
    requires frame.Length == FRAME_SIZE
    modifies frame
    ensures frame[..HEADER_SIZE] == Header(writeLength, readLength)
  {
    var header := Header(writeLength, readLength);
    for k := 0 to HEADER_SIZE
      invariant forall j :: 0 <= j < k ==> frame[j] == header[j]
    {
      frame[k] := header[k];
    }
  }

  // The driver's frame buffer, filled as the driver fills it.
  method BuildFrame(payload: seq<byte>, readLength: nat) returns (frame: array<byte>, n: nat)
    requires HEADER_SIZE + |payload| <= FRAME_SIZE
    ensures fresh(frame) && frame.Length == FRAME_SIZE
    ensures n == HEADER_SIZE + |payload| && frame[..n] == Frame(payload, readLength)
    ensures readLength < 0x1_0000 ==> LiteralFrame(frame[..n], payload, readLength)
  {
    frame := new byte[FRAME_SIZE](_ => 0);
    WriteHeader(frame, |payload|, readLength);
    n := HEADER_SIZE;
    ghost var header := frame[..HEADER_SIZE];
    for k := 0 to |payload|
      invariant frame[..HEADER_SIZE] == header
      invariant forall j :: 0 <= j < k ==> frame[HEADER_SIZE + j] == payload[j]
    {
      frame[HEADER_SIZE + k] := payload[k];
    }
    n := n + |payload|;
    assert frame[HEADER_SIZE..n] == payload;
    assert frame[..n] == frame[..HEADER_SIZE] + frame[HEADER_SIZE..n];
    if readLength < 0x1_0000 {
      FrameIsLiteral(payload, readLength);
    }
  }
}
