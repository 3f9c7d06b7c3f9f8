/** The header table, the check at boot that decides whether to update, and the boot after an update. */
module Boot {
  import opened Bytes
  import opened Nor
  import opened Trace
  import opened Versions
  import opened SeepromBus
  import opened Sections
  import opened SeepromUpdate
  import opened ProtectionRemoval
  import opened SeepromSession
  import opened VersionWords

  datatype Header = Header(version: Version, sections: seq<Section>)

  // The nine sections compiled into the driver.
  datatype Table = Table(sysCfg: Section, fwCfg: Section, fw: Section, tmcReg: Section, dcsw: Section, fdm: Section,
                         mpfpm: Section, mpfdm: Section, fpm: Section)
  {
    function Sections(): seq<Section> {
      [sysCfg, fwCfg, fw, tmcReg, dcsw, fdm, mpfpm, mpfdm, fpm]
    }
  }

  // The header made from the table: its version words are those of the configuration section's content.
  function MakeHeaderUseHead(t: Table): Header
    requires 92 <= |t.fwCfg.Data()|
  {
    Header(VersionAt(t.fwCfg.Data(), 0), t.Sections())
  }

  // A flash that holds the sections of the header carries the header's versions, and there is nothing to do.
  lemma FlashedHeaderIsCurrent(t: Table, mem: seq<byte>)
    requires t.fwCfg.address == VERSION_START_ADDRESS && 92 <= |t.fwCfg.Data()|
    requires AllInFlash(mem, t.Sections(), 9)
    ensures VERSION_START_ADDRESS + 92 <= |mem|
    ensures VersionAt(mem, VERSION_START_ADDRESS) == MakeHeaderUseHead(t).version
    ensures !NeedsUpdate(VersionAt(mem, VERSION_START_ADDRESS), MakeHeaderUseHead(t).version)
  {
    var d, base := t.fwCfg.Data(), VERSION_START_ADDRESS;
    assert InFlash(mem, t.Sections()[1]);
    assert mem[base..base + |d|] == d;
    forall a: nat | a + 4 <= |d| ensures WordAt(mem, base + a) == WordAt(d, a) {
      SliceOfSlice(mem, base, base + |d|, a, a + 4);
    }
  }

  lemma SliceOfSlice(s: seq<byte>, lo: nat, hi: nat, from: nat, to: nat)
    requires lo <= hi <= |s| && from <= to <= hi - lo
    ensures s[lo..hi][from..to] == s[lo + from..lo + to]
  {
    var a, b := s[lo..hi][from..to], s[lo + from..lo + to];
    assert |a| == |b| && forall i :: 0 <= i < |a| ==> a[i] == b[i];
  }

  // Whether an error flag or a forced image asks for the update before versions are compared.
  predicate Forced(bootFlag: bv16, checksumFlag: bv16, forceBin: bool) {
    bootFlag & 0x0700 != 0 || bootFlag & 0x0800 != 0 || checksumFlag != 0 || forceBin
  }

  lemma FlagBits(flag: bv16)
    ensures flag & 0x0700 != 0 <==> flag & 0x0100 != 0 || flag & 0x0200 != 0 || flag & 0x0400 != 0
    ensures flag & 0x0F00 == 0 <==> flag & 0x0700 == 0 && flag & 0x0800 == 0
  {
  }

  // The initialisation of the touch controller before an update, by its outcome: transfers that this model does not
  // describe.
  method FwSolomonInit(succeeds: bool) returns (err: int)
    ensures err >= 0 <==> succeeds
  {
    err := if succeeds then 0 else -1;
  }

  // Up to three attempts, whose outcomes are given in order.
  method InitWithRetry(outcomes: seq<bool>) returns (err: int)
    requires |outcomes| == FW_MAX_RETRY_COUNT
    ensures err >= 0 <==> outcomes[0] || outcomes[1] || outcomes[2]
  {
    var retry := FW_MAX_RETRY_COUNT;
    while true
      invariant 1 <= retry <= FW_MAX_RETRY_COUNT
      invariant forall k :: 0 <= k < FW_MAX_RETRY_COUNT - retry ==> !outcomes[k]
      decreases retry
    {
      err := FwSolomonInit(outcomes[FW_MAX_RETRY_COUNT - retry]);
      if err >= 0 || retry <= 1 {
        break;
      }
      retry := retry - 1;
    }
  }

  // Decides on the update and carries it out. The result is -1 when there was nothing to do and 1 otherwise,
  // whether or not the update succeeded; the other results tell what the update itself reported, if it was begun.
  method PreBootUpCheck(dev: Device, header: Header, forceBin: bool, inits: seq<bool>)
    returns (r: int, ghost begun: bool, ghost err: int, ghost run: Bracket)
    requires |inits| == FW_MAX_RETRY_COUNT
    requires dev.Valid() && !dev.flash.busy && KnownGeometry(dev.flash)
    requires AllFit(header.sections, dev.flash.page, dev.flash.sector, |dev.flash.mem|, BOOT_UPDATE_ALL)
    modifies dev`flash, dev`reply, dev`trace, dev`faults, dev`overrun, dev`stuck, dev`blind,
             dev`readMax, dev`writeMax, dev`alignSector, dev`checksumFlag
    ensures dev.Valid() && dev.flash.SameChip(old(dev.flash))
    ensures r == -1 || r == 1
    ensures r == -1 <==> !Forced(dev.bootFlag, old(dev.checksumFlag), forceBin)
                         && !NeedsUpdate(dev.fwVersion, header.version)
    ensures r == 1 <==>
              || dev.bootFlag & 0x0100 != 0 || dev.bootFlag & 0x0200 != 0
              || dev.bootFlag & 0x0400 != 0 || dev.bootFlag & 0x0800 != 0
              || old(dev.checksumFlag) != 0 || forceBin || NeedsUpdate(dev.fwVersion, header.version)
    ensures dev.checksumFlag == if dev.bootFlag & 0x0F00 == 0 then 0 else old(dev.checksumFlag)
    ensures !begun ==> dev.flash == old(dev.flash) && dev.trace == old(dev.trace) && !run.entered
    ensures begun <==> r == 1 && (inits[0] || inits[1] || inits[2])
    ensures begun <==> old(dev.trace) < dev.trace
    ensures old(dev.faults) <= dev.faults && err <= 0
    ensures begun && dev.blind ==> dev.overrun
    ensures begun && dev.overrun ==> GaveUp(dev.trace[|old(dev.trace)|..])
    ensures run.entered ==> EndsReprotecting(dev.trace[|old(dev.trace)|..])
    ensures begun && !run.entered ==> err < 0 && dev.faults > old(dev.faults) && !dev.overrun
                                      && dev.flash.mem == old(dev.flash.mem)
                                      && StoppedEarly(dev.trace[|old(dev.trace)|..])
                                      && Reaches(old(dev.flash), dev.trace[|old(dev.trace)|..], dev.flash)
    ensures begun && err == 0 && !dev.blind && Separate(header.sections, dev.flash.sector, BOOT_UPDATE_ALL) ==>
              AllInFlash(dev.flash.mem, header.sections, |header.sections|)
    ensures run.entered && err == 0 && !dev.overrun ==>
              dev.flash.mem == FinalMemory(old(dev.flash), header.sections, BOOT_UPDATE_ALL, run.passes)
    ensures run.entered && !dev.overrun && run.relocked ==>
              dev.flash.prot || (err < 0 && dev.faults >= old(dev.faults) + FW_MAX_RETRY_COUNT)
    ensures run.entered && err < 0 && !dev.overrun
            && Deliverable(old(dev.flash), header.sections, BOOT_UPDATE_ALL, false) ==>
              dev.faults >= old(dev.faults) + FW_MAX_RETRY_COUNT
  {
    hide AllInFlash, Separate, AllFit, EndsReprotecting, StoppedEarly, Reaches, FinalMemory, FeasibleFrom;
    begun, err, run := false, 0, NO_RUN;
    FlagBits(dev.bootFlag);
    var update := true;
    if dev.bootFlag & 0x0700 != 0 {
    } else if dev.bootFlag & 0x0800 != 0 {
    } else if dev.checksumFlag != 0 {
      dev.checksumFlag := 0;
    } else if forceBin {
    } else if VersionCheck(dev.fwVersion, header.version) < 0 {
    } else {
      update := false;
    }
    if !update {
      return -1, begun, err, run;
    }
    var initErr := InitWithRetry(inits);
    if initErr >= 0 {
      begun := true;
      var e;
      e, run := SeepromFirmwareUpdate(dev, header.sections, BOOT_UPDATE_ALL);
      err := e;
    }
    r := 1;
  }

  // Between two boots the chip is idle and the error flags are read afresh.
  method PowerCycle(dev: Device, bootFlag: bv16)
    requires dev.Valid()
    modifies dev`flash, dev`bootFlag, dev`checksumFlag
    ensures dev.Valid() && dev.flash == old(dev.flash).(busy := false, latch := false)
    ensures dev.bootFlag == bootFlag && dev.checksumFlag == 0
  {
    dev.flash := dev.flash.(busy := false, latch := false);
    dev.bootFlag, dev.checksumFlag := bootFlag, 0;
  }

  // ----- The boot after an update -----

  // Some section writes the byte at i.
  ghost predicate Written(ss: seq<Section>, i: int) {
    exists k :: 0 <= k < |ss| && ss[k].Writes(i)
  }

  // The sections write every byte from lo up to hi.
  ghost predicate Covers(ss: seq<Section>, lo: nat, hi: nat) {
    forall i :: lo <= i < hi ==> Written(ss, i)
  }

  // The version words that the sections put into the flash.
  function FlashedVersion(size: nat, sector: nat, ss: seq<Section>): Version
    requires 0 < sector && VERSION_START_ADDRESS + 92 <= size
  {
    VersionAt(Image(size, sector, ss), VERSION_START_ADDRESS)
  }

  lemma HeldByte(mem: seq<byte>, s: Section, i: int)
    requires InFlash(mem, s) && s.Writes(i)
    ensures 0 <= i < |mem| && mem[i] == s.Data()[i - s.address]
  {
    assert mem[s.address..s.address + |s.Data()|][i - s.address] == mem[i];
  }

  lemma HeldBytes(m1: seq<byte>, m2: seq<byte>, ss: seq<Section>, lo: nat, hi: nat, i: nat)
    requires |m1| == |m2| && AllInFlash(m1, ss, |ss|) && AllInFlash(m2, ss, |ss|)
    requires Covers(ss, lo, hi) && lo <= i < hi <= |m1|
    ensures m1[i] == m2[i]
  {
    hide InFlash, Section.Writes;
    assert Written(ss, i);
    var k :| 0 <= k < |ss| && ss[k].Writes(i);
    HeldByte(m1, ss[k], i);
    HeldByte(m2, ss[k], i);
  }

  // The version words depend on the bytes from 0x44 up to 0x5C only.
  lemma VersionOfSlice(m1: seq<byte>, m2: seq<byte>, base: nat)
    requires base + 92 <= |m1| == |m2| && m1[base + 0x44..base + 92] == m2[base + 0x44..base + 92]
    ensures VersionAt(m1, base) == VersionAt(m2, base)
  {
    hide LE32;
    var lo, hi := base + 0x44, base + 92;
    forall a: nat | lo <= a <= base + 88 ensures WordAt(m1, a) == WordAt(m2, a) {
      SliceOfSlice(m1, lo, hi, a - lo, a - lo + 4);
      SliceOfSlice(m2, lo, hi, a - lo, a - lo + 4);
    }
  }

  // A flash that holds sections which cover the version words carries the words that those sections put there.
  lemma HeldVersion(mem: seq<byte>, page: nat, sector: nat, ss: seq<Section>)
    requires 0 < page && 0 < sector && VERSION_START_ADDRESS + 92 <= |mem|
    requires AllFit(ss, page, sector, |mem|, BOOT_UPDATE_ALL) && Separate(ss, sector, BOOT_UPDATE_ALL)
    requires Covers(ss, VERSION_START_ADDRESS + 0x44, VERSION_START_ADDRESS + 92) && AllInFlash(mem, ss, |ss|)
    ensures VersionAt(mem, VERSION_START_ADDRESS) == FlashedVersion(|mem|, sector, ss)
  {
    var image, lo, hi := Image(|mem|, sector, ss), VERSION_START_ADDRESS + 0x44, VERSION_START_ADDRESS + 92;
    hide Image, Covers, InFlash, VersionAt;
    ImageHolds(|mem|, page, sector, ss);
    hide AllInFlash, AllFit, Separate;
    forall i: nat | lo <= i < hi ensures mem[i] == image[i] {
      HeldBytes(mem, image, ss, lo, hi, i);
    }
    assert mem[lo..hi] == image[lo..hi];
    VersionOfSlice(mem, image, VERSION_START_ADDRESS);
  }

  lemma ImageHolds(size: nat, page: nat, sector: nat, ss: seq<Section>)
    requires 0 < page && 0 < sector
    requires AllFit(ss, page, sector, size, BOOT_UPDATE_ALL) && Separate(ss, sector, BOOT_UPDATE_ALL)
    ensures AllInFlash(Image(size, sector, ss), ss, |ss|)
  {
    hide Image, InFlash;
    assert forall k :: 0 <= k < |ss| ==> ss[k].Fits(page, sector, size, BOOT_UPDATE_ALL);
    ImageOfDisjointSections(size, sector, ss);
  }

  // The check asks for an update: an error flag, a forced image or a newer header.
  ghost predicate Wanted(dev: Device, header: Header, forceBin: bool)
    reads dev
  {
    Forced(dev.bootFlag, dev.checksumFlag, forceBin) || NeedsUpdate(dev.fwVersion, header.version)
  }

  // A boot: the chip is idle again, the versions are read, and the check is made. On a flash that holds the sections it
  // reads what they carry, and without an error flag has nothing to do exactly if that does not ask for the header's.
  method NextBoot(dev: Device, header: Header, bootFlag: bv16, inits: seq<bool>) returns (readErr: int, r: int)
    requires |inits| == FW_MAX_RETRY_COUNT
    requires dev.Valid() && KnownGeometry(dev.flash)
    requires AllFit(header.sections, dev.flash.page, dev.flash.sector, |dev.flash.mem|, BOOT_UPDATE_ALL)
    requires Separate(header.sections, dev.flash.sector, BOOT_UPDATE_ALL)
    requires Covers(header.sections, VERSION_START_ADDRESS + 0x44, VERSION_START_ADDRESS + 92)
    requires VERSION_START_ADDRESS + 92 <= |dev.flash.mem|
    modifies dev`flash, dev`reply, dev`trace, dev`faults, dev`overrun, dev`stuck, dev`blind, dev`fwVersion,
             dev`bootFlag, dev`readMax, dev`writeMax, dev`alignSector, dev`checksumFlag
    ensures dev.Valid() && dev.flash.SameChip(old(dev.flash))
    ensures old(dev.trace) <= dev.trace && old(dev.faults) <= dev.faults
    ensures readErr < 0 ==> dev.faults > old(dev.faults)
    ensures readErr >= 0 && AllInFlash(old(dev.flash.mem), header.sections, |header.sections|) ==>
              var flashed := FlashedVersion(|dev.flash.mem|, dev.flash.sector, header.sections);
              && dev.fwVersion == flashed
              && (!Forced(bootFlag, 0, false) ==> (r == -1 <==> !NeedsUpdate(flashed, header.version)))
    ensures r == -1 ==> dev.flash.mem == old(dev.flash.mem)
  {
    hide AllInFlash, Separate, AllFit, VersionAt, Covers, FlashedVersion, EndsReprotecting, StoppedEarly, Reaches,
         FinalMemory, GaveUp, PolledOut, FeasibleFrom, Image, Guarded, Effects, Unlocked, ChipErases;
    ghost var page := dev.flash.page;
    PowerCycle(dev, bootFlag);
    readErr := ReadVersionAll(dev);
    if AllInFlash(dev.flash.mem, header.sections, |header.sections|) {
      HeldVersion(dev.flash.mem, page, dev.flash.sector, header.sections);
    }
    ghost var b, e, q;
    r, b, e, q := PreBootUpCheck(dev, header, false, inits);
  }

  // Boot convergence. If an update is wanted and the initialisation succeeds, no transfer fails and no wait runs out of
  // polls, the flash holds every section of the header afterwards, and the next boot reads the versions that the
  // sections put there; without an error flag it has nothing to do exactly if they do not ask for the header's. The
  // same follows of any update that was begun and reported success.
  method UpdateAndReboot(dev: Device, header: Header, forceBin: bool, inits: seq<bool>, nextBootFlag: bv16,
                         nextInits: seq<bool>)
    returns (first: int, ghost begun: bool, ghost err: int, ghost blind: bool, readErr: int, second: int)
    requires |inits| == |nextInits| == FW_MAX_RETRY_COUNT
    requires dev.Valid() && !dev.flash.busy && KnownGeometry(dev.flash)
    requires AllFit(header.sections, dev.flash.page, dev.flash.sector, |dev.flash.mem|, BOOT_UPDATE_ALL)
    requires Separate(header.sections, dev.flash.sector, BOOT_UPDATE_ALL)
    requires Covers(header.sections, VERSION_START_ADDRESS + 0x44, VERSION_START_ADDRESS + 92)
    requires VERSION_START_ADDRESS + 92 <= |dev.flash.mem|
    modifies dev`flash, dev`reply, dev`trace, dev`faults, dev`overrun, dev`stuck, dev`blind, dev`fwVersion,
             dev`bootFlag, dev`readMax, dev`writeMax, dev`alignSector, dev`checksumFlag
    ensures old(dev.trace) <= dev.trace
    ensures begun <==> old(Wanted(dev, header, forceBin)) && (inits[0] || inits[1] || inits[2])
    ensures begun && err == 0 && !blind && readErr == 0 ==>
              var flashed := FlashedVersion(|old(dev.flash.mem)|, old(dev.flash.sector), header.sections);
              && dev.fwVersion == flashed
              && (!Forced(nextBootFlag, 0, false) ==> (second == -1 <==> !NeedsUpdate(flashed, header.version)))
    ensures old(Wanted(dev, header, forceBin)) && (inits[0] || inits[1] || inits[2])
            && dev.faults == old(dev.faults) && !GaveUp(dev.trace[|old(dev.trace)|..]) ==>
              var flashed := FlashedVersion(|old(dev.flash.mem)|, old(dev.flash.sector), header.sections);
              && dev.fwVersion == flashed
              && (!Forced(nextBootFlag, 0, false) ==> (second == -1 <==> !NeedsUpdate(flashed, header.version)))
              && (second == -1 ==> AllInFlash(dev.flash.mem, header.sections, |header.sections|))
  {
    hide AllInFlash, Separate, AllFit, VersionAt, Covers, FlashedVersion, EndsReprotecting, StoppedEarly, Reaches,
         FinalMemory, GaveUp, PolledOut, FeasibleFrom, Image;
    ghost var f, t0, f0 := dev.flash, dev.trace, dev.faults;
    ImageHolds(|f.mem|, f.page, f.sector, header.sections);
    ghost var run;
    first, begun, err, run := PreBootUpCheck(dev, header, forceBin, inits);
    ghost var t1, overran := dev.trace, dev.overrun;
    blind := dev.blind;
    readErr, second := NextBoot(dev, header, nextBootFlag, nextInits);
    if begun && overran {
      GaveUpWithin(t0, t1, dev.trace);
    }
  }

  // The header of the driver's own table carries the words that its sections put into the flash.
  lemma TableHeaderIsFlashed(t: Table, page: nat, sector: nat, size: nat)
    requires 0 < page && 0 < sector && VERSION_START_ADDRESS + 92 <= size
    requires t.fwCfg.address == VERSION_START_ADDRESS && 92 <= |t.fwCfg.Data()|
    requires AllFit(t.Sections(), page, sector, size, BOOT_UPDATE_ALL)
    requires Separate(t.Sections(), sector, BOOT_UPDATE_ALL)
    ensures Covers(t.Sections(), VERSION_START_ADDRESS + 0x44, VERSION_START_ADDRESS + 92)
    ensures FlashedVersion(size, sector, t.Sections()) == MakeHeaderUseHead(t).version
  {
    var ss := t.Sections();
    hide Image, Separate, InFlash, VersionAt, AllFit, AllInFlash;
    forall i | VERSION_START_ADDRESS <= i < VERSION_START_ADDRESS + 92 ensures Written(ss, i) {
      assert ss[1].Writes(i);
    }
    ImageHolds(size, page, sector, ss);
    FlashedHeaderIsCurrent(t, Image(size, sector, ss));
  }

  // So after an update from the table, the next boot without an error flag has nothing to do.
  method UpdateTableAndReboot(dev: Device, t: Table, forceBin: bool, inits: seq<bool>, nextBootFlag: bv16,
                              nextInits: seq<bool>)
    returns (first: int, ghost begun: bool, ghost err: int, ghost blind: bool, readErr: int, second: int)
    requires |inits| == |nextInits| == FW_MAX_RETRY_COUNT
    requires dev.Valid() && !dev.flash.busy && KnownGeometry(dev.flash)
    requires t.fwCfg.address == VERSION_START_ADDRESS && 92 <= |t.fwCfg.Data()|
    requires AllFit(t.Sections(), dev.flash.page, dev.flash.sector, |dev.flash.mem|, BOOT_UPDATE_ALL)
    requires Separate(t.Sections(), dev.flash.sector, BOOT_UPDATE_ALL)
    requires VERSION_START_ADDRESS + 92 <= |dev.flash.mem|
    modifies dev`flash, dev`reply, dev`trace, dev`faults, dev`overrun, dev`stuck, dev`blind, dev`fwVersion,
             dev`bootFlag, dev`readMax, dev`writeMax, dev`alignSector, dev`checksumFlag
    ensures old(dev.trace) <= dev.trace
    ensures begun && err == 0 && !blind && readErr == 0 && !Forced(nextBootFlag, 0, false) ==>
              second == -1 && dev.fwVersion == MakeHeaderUseHead(t).version
    ensures old(Wanted(dev, MakeHeaderUseHead(t), forceBin)) && (inits[0] || inits[1] || inits[2])
            && dev.faults == old(dev.faults) && !GaveUp(dev.trace[|old(dev.trace)|..])
            && !Forced(nextBootFlag, 0, false) ==>
              && second == -1 && dev.fwVersion == MakeHeaderUseHead(t).version
              && AllInFlash(dev.flash.mem, t.Sections(), 9)
  {
    hide AllInFlash, Separate, AllFit, VersionAt, Covers, FlashedVersion, GaveUp, PolledOut, Wanted;
    var header := MakeHeaderUseHead(t);
    TableHeaderIsFlashed(t, dev.flash.page, dev.flash.sector, |dev.flash.mem|);
    NeverReplacesItself(header.version);
    first, begun, err, blind, readErr, second := UpdateAndReboot(dev, header, forceBin, inits, nextBootFlag, nextInits);
  }
}
