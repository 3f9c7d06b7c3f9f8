/** The version words that the driver reads from the configuration section in flash. */
module VersionWords {
  import opened Bytes
  import opened Nor
  import opened Trace
  import opened Versions
  import opened SeepromBus
  import opened SeepromAccess
  import opened SeepromUpdate

  const VERSION_START_ADDRESS := 0x01C0

  function WordAt(mem: seq<byte>, a: nat): int
    requires a + 4 <= |mem|
  {
    LE32(mem[a..a + 4])
  }

  // The six version words of a configuration section that starts at base.
  function VersionAt(mem: seq<byte>, base: nat): Version
    requires base + 92 <= |mem|
  {
    Version(WordAt(mem, base + 0x44), WordAt(mem, base + 0x48), WordAt(mem, base + 0x4C),
            WordAt(mem, base + 0x50), WordAt(mem, base + 0x54), WordAt(mem, base + 0x58))
  }

  function Word32(b0: byte, b1: byte, b2: byte, b3: byte): nat {
    Val(b0) + 0x100 * Val(b1) + 0x1_0000 * Val(b2) + 0x100_0000 * Val(b3)
  }

  // The bytes of the words: display version, hidden version, two words of the product and two of the IC name, in this
  // order from byte 68 on, the least significant byte first.
  lemma VersionBytes(mem: seq<byte>, base: nat)
    requires base + 92 <= |mem|
    ensures var v, b := VersionAt(mem, base), mem[base..];
            && v.display == Word32(b[68], b[69], b[70], b[71])
            && v.hidden == Word32(b[72], b[73], b[74], b[75])
            && v.product1 == Word32(b[76], b[77], b[78], b[79])
            && v.product2 == Word32(b[80], b[81], b[82], b[83])
            && v.icName1 == Word32(b[84], b[85], b[86], b[87])
            && v.icName2 == Word32(b[88], b[89], b[90], b[91])
  {
    WordBytes(mem, base + 68);
    WordBytes(mem, base + 72);
    WordBytes(mem, base + 76);
    WordBytes(mem, base + 80);
    WordBytes(mem, base + 84);
    WordBytes(mem, base + 88);
    hide WordAt, Word32;
  }

  lemma WordBytes(mem: seq<byte>, a: nat)
    requires a + 4 <= |mem|
    ensures WordAt(mem, a) == Word32(mem[a], mem[a + 1], mem[a + 2], mem[a + 3])
  {
  }

  // A blank chip has an erased version, which every header with a display version replaces.
  lemma BlankIsUpdated(size: nat, header: Version)
    requires VERSION_START_ADDRESS + 92 <= size && header.display != 0xFFFF_FFFF
    ensures VersionAt(Blank(size), VERSION_START_ADDRESS).display == 0xFFFF_FFFF
    ensures NeedsUpdate(VersionAt(Blank(size), VERSION_START_ADDRESS), header)
  {
    hide WordAt, Word32, NeedsUpdate;
    WordBytes(Blank(size), VERSION_START_ADDRESS + 68);
    AllOnes();
    VersionlessIsUpdated(VersionAt(Blank(size), VERSION_START_ADDRESS), header);
  }

  lemma AllOnes()
    ensures Word32(0xFF, 0xFF, 0xFF, 0xFF) == 0xFFFF_FFFF
  {
    assert Val(0xFF) == 255;
  }

  // Reads one word, in up to four attempts.
  method ReadVersionWord(dev: Device, addr: nat) returns (err: int, version: nat)
    requires dev.Valid() && addr + 4 <= |dev.flash.mem|
    modifies dev`flash, dev`reply, dev`trace, dev`faults
    ensures dev.Valid() && dev.OnlyListened() && err <= 0
    ensures err == 0 && !old(dev.flash.busy) ==> version == WordAt(dev.flash.mem, addr)
    ensures dev.faults <= old(dev.faults) + 4 && (err < 0 <==> dev.faults == old(dev.faults) + 4)
  {
    hide Effects, Unlocked, Guarded, PolledOut;
    var buf := new byte[4](_ => 0);
    var retry: int := FW_MAX_RETRY_COUNT;
    while true
      invariant 0 <= retry <= FW_MAX_RETRY_COUNT
      invariant dev.Valid() && dev.OnlyListened()
      invariant dev.faults == old(dev.faults) + (FW_MAX_RETRY_COUNT - retry)
      decreases retry
    {
      err := ReadNbyte(dev, addr, buf, 4);
      if err == 0 || retry <= 0 {
        break;
      }
      retry := retry - 1;
    }
    version := LE32(buf[..4]);
  }

  // Reads the product words; stops at the first that cannot be read.
  method ReadProductWords(dev: Device) returns (err: int)
    requires dev.Valid() && VERSION_START_ADDRESS + 92 <= |dev.flash.mem|
    modifies dev`flash, dev`reply, dev`trace, dev`faults, dev`fwVersion
    ensures dev.Valid() && dev.OnlyListened() && err <= 0
    ensures err < 0 ==> dev.faults > old(dev.faults) + FW_MAX_RETRY_COUNT
    ensures err == 0 && !old(dev.flash.busy) ==>
              var v := VersionAt(dev.flash.mem, VERSION_START_ADDRESS);
              dev.fwVersion == old(dev.fwVersion).(product1 := v.product1, product2 := v.product2)
  {
    hide Effects, Unlocked, Guarded, PolledOut, WordAt;
    var word;
    err, word := ReadVersionWord(dev, VERSION_START_ADDRESS + 0x4C);
    dev.fwVersion := dev.fwVersion.(product1 := word);
    if err == 0 {
      err, word := ReadVersionWord(dev, VERSION_START_ADDRESS + 0x50);
      dev.fwVersion := dev.fwVersion.(product2 := word);
    }
  }

  method ReadIcNameWords(dev: Device) returns (err: int)
    requires dev.Valid() && VERSION_START_ADDRESS + 92 <= |dev.flash.mem|
    modifies dev`flash, dev`reply, dev`trace, dev`faults, dev`fwVersion
    ensures dev.Valid() && dev.OnlyListened() && err <= 0
    ensures err < 0 ==> dev.faults > old(dev.faults) + FW_MAX_RETRY_COUNT
    ensures err == 0 && !old(dev.flash.busy) ==>
              var v := VersionAt(dev.flash.mem, VERSION_START_ADDRESS);
              dev.fwVersion == old(dev.fwVersion).(icName1 := v.icName1, icName2 := v.icName2)
  {
    hide Effects, Unlocked, Guarded, PolledOut, WordAt;
    var word;
    err, word := ReadVersionWord(dev, VERSION_START_ADDRESS + 0x54);
    dev.fwVersion := dev.fwVersion.(icName1 := word);
    if err == 0 {
      err, word := ReadVersionWord(dev, VERSION_START_ADDRESS + 0x58);
      dev.fwVersion := dev.fwVersion.(icName2 := word);
    }
  }

  method ReadReleaseWords(dev: Device) returns (err: int)
    requires dev.Valid() && VERSION_START_ADDRESS + 92 <= |dev.flash.mem|
    modifies dev`flash, dev`reply, dev`trace, dev`faults, dev`fwVersion
    ensures dev.Valid() && dev.OnlyListened() && err <= 0
    ensures err < 0 ==> dev.faults > old(dev.faults) + FW_MAX_RETRY_COUNT
    ensures err == 0 && !old(dev.flash.busy) ==>
              var v := VersionAt(dev.flash.mem, VERSION_START_ADDRESS);
              dev.fwVersion == old(dev.fwVersion).(display := v.display, hidden := v.hidden)
  {
    hide Effects, Unlocked, Guarded, PolledOut, WordAt;
    var word;
    err, word := ReadVersionWord(dev, VERSION_START_ADDRESS + 0x44);
    dev.fwVersion := dev.fwVersion.(display := word);
    if err == 0 {
      err, word := ReadVersionWord(dev, VERSION_START_ADDRESS + 0x48);
      dev.fwVersion := dev.fwVersion.(hidden := word);
    }
  }

  // Reads all six words into the device record.
  method ReadVersionAll(dev: Device) returns (err: int)
    requires dev.Valid() && VERSION_START_ADDRESS + 92 <= |dev.flash.mem|
    modifies dev`flash, dev`reply, dev`trace, dev`faults, dev`fwVersion
    ensures dev.Valid() && dev.OnlyListened() && err <= 0
    ensures err < 0 ==> dev.faults > old(dev.faults) + FW_MAX_RETRY_COUNT
    ensures err == 0 && !old(dev.flash.busy) ==> dev.fwVersion == VersionAt(dev.flash.mem, VERSION_START_ADDRESS)
  {
    hide Effects, Unlocked, Guarded, PolledOut, WordAt;
    err := ReadProductWords(dev);
    if err == 0 {
      err := ReadIcNameWords(dev);
    }
    if err == 0 {
      err := ReadReleaseWords(dev);
    }
  }
}
