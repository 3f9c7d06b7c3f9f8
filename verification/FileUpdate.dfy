/** Updating from a firmware file: the parse, then the update of what it produced. */
module FileUpdate {
  import opened Bytes
  import opened Nor
  import opened Trace
  import opened Versions
  import opened SeepromBus
  import opened Sections
  import opened SeepromUpdate
  import opened ProtectionRemoval
  import opened SeepromSession
  import opened Boot
  import opened ImageFormat
  import opened ImageParser
  import opened ImageProofs

  // Parses the file and, if that gives a list of sections, writes it in the mode that the file asks for. The parse
  // must not run into undefined behaviour. Also returns whether the update was begun.
  method FirmwareUpdateByFile(dev: Device, data: seq<byte>, version: Version, inits: seq<bool>)
    returns (errnum: int, ghost begun: bool, ghost run: Bracket)
    requires |inits| == FW_MAX_RETRY_COUNT
    requires dev.Valid() && !dev.flash.busy && KnownGeometry(dev.flash)
    requires Parse(data, version, BOOT_UPDATE_EACH).Parsed?
    requires var o := Parse(data, version, BOOT_UPDATE_EACH);
             AllFit(o.sections, dev.flash.page, dev.flash.sector, |dev.flash.mem|, o.all)
    modifies dev`flash, dev`reply, dev`trace, dev`faults, dev`overrun, dev`stuck, dev`blind,
             dev`readMax, dev`writeMax, dev`alignSector
    ensures dev.Valid() && dev.flash.SameChip(old(dev.flash))
    ensures !begun ==> dev.flash == old(dev.flash) && dev.trace == old(dev.trace) && !run.entered
    ensures begun <==> Parse(data, version, BOOT_UPDATE_EACH).sections != [] && (inits[0] || inits[1] || inits[2])
    ensures begun <==> old(dev.trace) < dev.trace
    ensures begun && dev.overrun ==> GaveUp(dev.trace[|old(dev.trace)|..])
    ensures run.entered ==> EndsReprotecting(dev.trace[|old(dev.trace)|..])
    ensures begun && !run.entered ==> errnum < 0 && dev.faults > old(dev.faults)
                                      && dev.flash.mem == old(dev.flash.mem)
                                      && StoppedEarly(dev.trace[|old(dev.trace)|..])
                                      && Reaches(old(dev.flash), dev.trace[|old(dev.trace)|..], dev.flash)
    ensures var o := Parse(data, version, BOOT_UPDATE_EACH);
            && (o.errnum < 0 ==> !begun && errnum == o.errnum)
            && (begun && errnum == 0 && !dev.blind && Separate(o.sections, dev.flash.sector, o.all) ==>
                  forall k :: 0 <= k < |o.sections| && o.sections[k].HasContent() ==>
                    Checked(o.sections[k]) && InFlash(dev.flash.mem, o.sections[k]))
            && (begun && errnum == 0 && !dev.overrun ==>
                  dev.flash.mem == FinalMemory(old(dev.flash), o.sections, o.all, run.passes))
            && (!dev.overrun && run.relocked && (o.all == BOOT_UPDATE_ALL || AnyContent(o.sections) || run.Idle()) ==>
                  dev.flash.prot || (errnum < 0 && dev.faults >= old(dev.faults) + FW_MAX_RETRY_COUNT))
            && (run.entered && errnum < 0 && !dev.overrun
                && Deliverable(old(dev.flash), o.sections, o.all, run.passes.lost) ==>
                  dev.faults >= old(dev.faults) + FW_MAX_RETRY_COUNT)
  {
    hide Parse, ParseFrom, AllFit, Separate, Checked, InFlash, FinalMemory, EndsReprotecting, StoppedEarly, Reaches,
         Deliverable, AnyContent, GaveUp;
    begun, run := false, NO_RUN;
    var o := ParseImage(data, version, BOOT_UPDATE_EACH);
    errnum := o.errnum;
    FailedParseHasNoSections(data, version);
    if o.sections == [] {
      return;
    }
    WrittenSectionsAreChecked(data, version);
    errnum := InitWithRetry(inits);
    if errnum >= 0 {
      begun := true;
      errnum, run := SeepromFirmwareUpdate(dev, o.sections, o.all);
    }
  }

  lemma {:induction false} FailureDropsSections(data: seq<byte>, st: State)
    requires st.level != LNone ==> st.sections != []
    ensures var o := ParseFrom(data, st);
            o.Parsed? ==> o.errnum <= 0 && (o.errnum < 0 ==> o.sections == [])
    decreases |data|
  {
    hide ParseLine;
    var line := ReadLine(data, [], false);
    if line.rest != [] {
      StepShape(st, line.buff, line.rest);
      var step := ParseLine(st, line.buff, line.rest);
      if step.Next? {
        FailureDropsSections(step.rest, step.st);
      }
    }
  }

  lemma FailedParseHasNoSections(data: seq<byte>, version: Version)
    ensures var o := Parse(data, version, BOOT_UPDATE_EACH);
            o.Parsed? ==> o.errnum <= 0 && (o.errnum < 0 ==> o.sections == [])
  {
    FailureDropsSections(data, State(0, BOOT_UPDATE_EACH, version, LNone, []));
  }

  // Every section that a successful parse hands to the updater and that the updater writes is checksum-valid.
  lemma WrittenSectionsAreChecked(data: seq<byte>, version: Version)
    ensures var o := Parse(data, version, BOOT_UPDATE_EACH);
            o.Parsed? && o.errnum == 0 ==>
              forall k :: 0 <= k < |o.sections| && o.sections[k].HasContent() ==> Checked(o.sections[k])
  {
    hide Checked;
    var st := State(0, BOOT_UPDATE_EACH, version, LNone, []);
    ParsedSectionsAreChecked(data, st);
  }
}
