/** An update of the flash from the recognition of the chip to the restored protection. */
module SeepromSession {
  import opened Bytes
  import opened Nor
  import opened Framing
  import opened Trace
  import opened SeepromBus
  import opened SeepromCommands
  import opened Sections
  import opened SeepromUpdate
  import opened ProtectionRemoval

  const SEEPROM_ID_MX25V1006E := 0x00C2_2011
  const SEEPROM_ID_MX25U1001E := 0x00C2_2531

  // The chip has the geometry that the driver's table gives for its identifier.
  predicate KnownGeometry(f: Flash) {
    f.page == (if f.id == SEEPROM_ID_MX25U1001E then 32 else 256) && f.sector == 4096
  }

  // The identifiers of the two chips, and the status bytes that remove and restore the protection.
  lemma ChipLiterals(f: Flash)
    ensures f.id == 0xC2_2531 && KnownGeometry(f) ==> f.page == 32 && f.sector == 4096
    ensures f.id != 0xC2_2531 && KnownGeometry(f) ==> f.page == 256 && f.sector == 4096
    ensures Encode(WriteStatus(UNLOCK_STATUS)) == [0x01, 0x02] && Encode(WriteStatus(LOCK_STATUS)) == [0x01, 0x0C]
  {
  }

  method DownloadInitialize(dev: Device) returns (err: int)
    requires dev.Valid()
    modifies dev`flash, dev`reply, dev`trace, dev`faults, dev`readMax, dev`writeMax, dev`alignSector
    ensures dev.Valid() && dev.OnlyRead() && dev.Accounted(err)
    ensures old(dev.trace) < dev.trace && |dev.trace| == |old(dev.trace)| + 1
    ensures dev.trace[|old(dev.trace)|].cmd == ReadId
    ensures err == 0 ==> dev.readMax == 1024
    ensures err == 0 && !old(dev.flash.busy) && KnownGeometry(dev.flash) ==> dev.Matched()
  {
    hide Effects, Unlocked, Guarded, PolledOut, Flash.Reply, BE24;
    var data;
    err, data := Ask(dev, ReadId, 3);
    if err == 0 {
      var id := BE24(data);
      IdReply(dev.flash);
      if id == SEEPROM_ID_MX25V1006E {
        dev.readMax, dev.writeMax, dev.alignSector := 1024, 256, 4096;
      } else if id == SEEPROM_ID_MX25U1001E {
        dev.readMax, dev.writeMax, dev.alignSector := 1024, 32, 4096;
      } else {
        dev.readMax, dev.writeMax, dev.alignSector := 1024, 256, 4096;
      }
    }
  }

  lemma IdReply(f: Flash)
    requires f.Valid()
    ensures BE24(f.Reply(ReadId, 3)) == f.id
  {
    hide BE24, ToBE24;
    BE24Truncates(f.id);
    assert f.Reply(ReadId, 3) == ToBE24(f.id);
  }

  // What the run of an update tells beside its error code: whether it got past the removal of the protection, the
  // status byte that the driver read there and ignored, whether the final protection was acknowledged, and its passes.
  datatype Bracket = Bracket(entered: bool, status: byte, relocked: bool, passes: Passes)
  {
    // The ignored status byte showed an idle chip.
    predicate Idle() {
      entered && status & BUSY_BIT == 0
    }
  }

  const NO_RUN := Bracket(false, 0, false, Passes([], false, false))

  // Removes the protection, updates, and tries to restore the protection whatever the outcome of the update.
  method SeepromFirmwareUpdate(dev: Device, ss: seq<Section>, all: int) returns (err: int, ghost run: Bracket)
    requires dev.Valid() && !dev.flash.busy && KnownGeometry(dev.flash)
    requires AllFit(ss, dev.flash.page, dev.flash.sector, |dev.flash.mem|, all)
    modifies dev`flash, dev`reply, dev`trace, dev`faults, dev`overrun, dev`stuck, dev`blind,
             dev`readMax, dev`writeMax, dev`alignSector
    ensures dev.Valid() && dev.flash.SameChip(old(dev.flash)) && err <= 0 && (dev.blind ==> dev.overrun)
    ensures old(dev.trace) < dev.trace && old(dev.faults) <= dev.faults
    ensures dev.overrun ==> GaveUp(dev.trace[|old(dev.trace)|..])
    ensures run.entered ==> EndsReprotecting(dev.trace[|old(dev.trace)|..])
    ensures !run.entered ==> err < 0 && dev.faults > old(dev.faults) && !dev.overrun
                             && dev.flash.mem == old(dev.flash.mem)
                             && StoppedEarly(dev.trace[|old(dev.trace)|..])
                             && Reaches(old(dev.flash), dev.trace[|old(dev.trace)|..], dev.flash)
    ensures run.Idle() ==> !run.passes.lost && (err == 0 && !dev.overrun && all == BOOT_UPDATE_ALL ==> run.passes.blank)
    ensures err == 0 && !dev.overrun ==> dev.flash.mem == FinalMemory(old(dev.flash), ss, all, run.passes)
    ensures err == 0 && !dev.overrun && all != BOOT_UPDATE_ALL ==>
              FeasibleFrom(old(dev.flash), ss, all, run.passes.lost)
    ensures err == 0 && !dev.overrun && all == BOOT_UPDATE_ALL ==>
              var image := Image(|dev.flash.mem|, dev.flash.sector, ss);
              (dev.flash.mem == image <==> run.passes.blank || Above(old(dev.flash.mem), image))
    ensures !dev.overrun && run.relocked && (all == BOOT_UPDATE_ALL || AnyContent(ss) || run.Idle()) ==>
              dev.flash.prot || (err < 0 && dev.faults >= old(dev.faults) + FW_MAX_RETRY_COUNT)
    ensures err == 0 && !dev.blind && Separate(ss, dev.flash.sector, all) ==> AllInFlash(dev.flash.mem, ss, |ss|)
    ensures err == 0 && !dev.overrun && all == BOOT_UPDATE_ALL && Separate(ss, dev.flash.sector, all) ==>
              run.passes.blank
              || AllInFlash(Updated(old(dev.flash.mem), dev.flash.sector, ss, all), ss, |ss|)
    ensures all != BOOT_UPDATE_ALL ==> AllUntouched(old(dev.flash.mem), dev.flash.mem, dev.flash.sector, ss, all)
    ensures run.entered && err < 0 && !dev.overrun && Deliverable(old(dev.flash), ss, all, run.passes.lost) ==>
              dev.faults >= old(dev.faults) + FW_MAX_RETRY_COUNT
    ensures all == BOOT_UPDATE_ALL && |run.passes.starts| > 1 && !dev.overrun ==>
              run.passes.blank || dev.faults >= old(dev.faults) + FW_MAX_RETRY_COUNT
  {
    hide Effects, Unlocked, Guarded, PolledOut, AllUntouched, AllInFlash, Separate, Deliverable, FinalMemory,
         EndsReprotecting, AllFit, Reaches, StoppedEarly, StatusTransfers, ChipErases, OwnErases, Flash.Status, Above,
         Image, AnyContent, FeasibleFrom, PolledOut, GaveUp;
    run := NO_RUN;
    dev.overrun, dev.blind := false, false;
    ghost var f, t0 := dev.flash, dev.trace;
    PassStart(dev.flash.mem, dev.flash.sector, ss, all);
    err := DownloadInitialize(dev);
    IdentifierRead(f, t0, dev.trace, dev.flash);
    if err < 0 {
      return;
    }
    ghost var g, t1 := dev.flash, dev.trace;
    var status;
    err, status := DisableProtect(dev);
    if err < 0 {
      RemovalFailed(f, g, dev.flash, t0, t1, dev.trace, err);
      return;
    }
    IdleStatus(dev.flash);
    ghost var h := dev.flash;
    ghost var passes;
    err, passes := FirmwareUpdate(dev, ss, all);
    SameStart(f, h, ss, all, passes);
    FinalIsImageIff(f, ss, passes);
    NotBlank(f, ss, passes);
    ghost var t2 := dev.trace;
    var ignored := EnableProtect(dev);
    BracketClosed(t0, t2, dev.trace, ignored);
    run := Bracket(true, status, ignored == 0, passes);
    if dev.overrun {
      GaveUpSince(t0, dev.trace, dev.stuck);
    }
  }

  // What an update leaves depends on the cells and the geometry of the chip it starts on only.
  lemma SameStart(f: Flash, h: Flash, ss: seq<Section>, all: int, run: Passes)
    requires 0 < f.page && 0 < f.sector && h.SameChip(f) && h.mem == f.mem
    ensures FinalMemory(f, ss, all, run) == FinalMemory(h, ss, all, run)
    ensures FeasibleFrom(f, ss, all, run.lost) <==> FeasibleFrom(h, ss, all, run.lost)
    ensures Deliverable(f, ss, all, run.lost) <==> Deliverable(h, ss, all, run.lost)
  {
    hide InFlash;
    forall k: nat | k <= |ss| ensures UpdatedFrom(f, ss[..k], all, run.lost) == UpdatedFrom(h, ss[..k], all, run.lost) {
      SameUpdated(f, h, ss[..k], all, run.lost);
    }
    assert ss[..|ss|] == ss;
  }

  lemma {:induction false} SameUpdated(f: Flash, h: Flash, ss: seq<Section>, all: int, lost: bool)
    requires 0 < f.page && 0 < f.sector && h.SameChip(f) && h.mem == f.mem
    ensures UpdatedFrom(f, ss, all, lost) == UpdatedFrom(h, ss, all, lost)
    decreases |ss|
  {
    if ss != [] {
      SameUpdated(f, h, ss[..|ss| - 1], all, lost);
    }
  }

  // An accepted whole-chip update left the image exactly if a pass started blank or the old cells had all its bits.
  lemma FinalIsImageIff(f: Flash, ss: seq<Section>, run: Passes)
    requires 0 < f.page && 0 < f.sector
    ensures FinalMemory(f, ss, BOOT_UPDATE_ALL, run) == Image(|f.mem|, f.sector, ss)
            <==> run.blank || Above(f.mem, Image(|f.mem|, f.sector, ss))
  {
    hide Updated, Image, Above;
    CompletesIffAbove(f.mem, f.sector, ss);
  }

  lemma NotBlank(f: Flash, ss: seq<Section>, run: Passes)
    requires 0 < f.page && 0 < f.sector
    ensures !run.blank ==>
              FinalMemory(f, ss, BOOT_UPDATE_ALL, run) == Updated(f.mem, f.sector, ss, BOOT_UPDATE_ALL)
  {
  }

  lemma IdleStatus(f: Flash)
    ensures f.busy <==> f.Status() & BUSY_BIT != 0
  {
  }

  lemma BracketClosed(t0: seq<Event>, t1: seq<Event>, t2: seq<Event>, err: int)
    requires t0 <= t1 < t2 && StatusTransfers(t2[|t1|..], LOCK_STATUS, err)
    ensures EndsReprotecting(t2[|t0|..])
  {
    hide StatusTransfers, EndsReprotecting;
    StatusHistory(t1[|t0|..], t2[|t1|..], LOCK_STATUS, err);
    assert t2[|t0|..] == t1[|t0|..] + t2[|t1|..];
  }
}
