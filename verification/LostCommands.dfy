/** Commands that a chip still busy with the unlocking status write loses, and what an update makes of that. */
module LostCommands {
  import opened Bytes
  import opened Nor
  import opened Wrappers
  import opened SeepromBus
  import opened Sections
  import opened SeepromUpdate

  // ----- One command -----

  // The flash after a write-enable and a command that were both acknowledged; the flags tell whether an operation in
  // progress ended before the one and before the other.
  function Acknowledged(f: Flash, c: Command, done1: bool, done2: bool): Flash
    requires f.Valid()
  {
    f.Settle(done1).Execute(WriteEnable).Settle(done2).Execute(c)
  }

  // An acknowledged command that would change cells is certain to be obeyed exactly when the chip was idle and
  // unprotected: the condition that the ignored status byte would have shown.
  lemma CommandCertainIffReady(f: Flash, c: Command)
    requires f.Valid() && c.Modifies() && f.After(c) != f.mem
    ensures (forall done1, done2 :: Acknowledged(f, c, done1, done2).mem == f.After(c)) <==>
              f.Status() & (BUSY_BIT | PROTECT_BITS) == 0
  {
    assert f.Status() & (BUSY_BIT | PROTECT_BITS) == 0 <==> f.Ready();
    if !f.Ready() {
      assert Acknowledged(f, c, false, false).mem == f.mem;
    }
  }

  // An unprotected chip loses the command exactly if it was busy when the write-enable came; it can then be ready for
  // the next one. Otherwise it obeys.
  lemma LostExactlyIfBusy(f: Flash, c: Command, done1: bool, done2: bool)
    requires f.Valid() && !f.prot && c.Modifies()
    ensures var g := Acknowledged(f, c, done1, done2);
            && (f.busy && !done1 ==> g == f.Settle(done2) && g.mem == f.mem && (done2 ==> g.Ready()))
            && (!f.busy || done1 ==> g.mem == f.After(c) && g.busy)
  {
  }

  lemma LostCommand(f: Flash, c: Command)
    requires f.Valid() && f.busy && !f.prot && c.Modifies()
    ensures Acknowledged(f, c, false, true) == f.Settle(true)
    ensures f.Settle(true).Ready() && f.Settle(true).mem == f.mem
    ensures Carried(f, WriteEnable, f, true) && Carried(f, c, f.Settle(true), true)
  {
    assert f.Settle(false) == f;
  }

  // ----- Whole-chip updates -----

  // A whole-chip update may lose its erase in this way. The pass that follows is accepted exactly if the AND of the old
  // cells with the image holds every section, and leaves the image exactly if the old cells have every bit of the
  // image. If it is not accepted, the chip is idle and the next pass starts blank.
  lemma LostEraseOutcome(f: Flash, ss: seq<Section>)
    requires f.Valid() && f.busy && !f.prot && Separate(ss, f.sector, BOOT_UPDATE_ALL)
    ensures var h := f.Settle(true);
            && Acknowledged(f, ChipErase, false, true) == h && h.Ready() && h.mem == f.mem
            && (Feasible(h.mem, f.sector, ss, BOOT_UPDATE_ALL) <==>
                  AllInFlash(Updated(f.mem, f.sector, ss, BOOT_UPDATE_ALL), ss, |ss|))
            && (Updated(h.mem, f.sector, ss, BOOT_UPDATE_ALL) == Image(|f.mem|, f.sector, ss) <==>
                  Above(f.mem, Image(|f.mem|, f.sector, ss)))
  {
    LostCommand(f, ChipErase);
    hide Feasible, Separate, InFlash, Above, Updated, Image;
    UnerasedPassFeasibleIff(f.mem, f.sector, ss);
    CompletesIffAbove(f.mem, f.sector, ss);
  }

  // The idle chip that such a pass leaves obeys the next erase.
  lemma NextEraseObeyed(h: Flash, done1: bool, done2: bool)
    requires h.Valid() && h.Ready()
    ensures Acknowledged(h, ChipErase, done1, done2).mem == Blank(|h.mem|)
  {
  }

  // A section of one byte, and a chip with a zero in the cell behind it: the pass that lost its erase is accepted, and
  // the zero stays where the image has ones.
  lemma AcceptedWithoutImage(f: Flash)
    requires f.Valid() && f.busy && !f.prot && 2 <= |f.mem| && f.mem[0] == 0xFF && f.mem[1] == 0
    ensures var ss := [OneByte(0)];
            && Acknowledged(f, ChipErase, false, true) == f.Settle(true)
            && Feasible(f.mem, f.sector, ss, BOOT_UPDATE_ALL)
            && Updated(f.mem, f.sector, ss, BOOT_UPDATE_ALL)[1] == 0
            && Image(|f.mem|, f.sector, ss)[1] == 0xFF
  {
    LostCommand(f, ChipErase);
    var s, ss := OneByte(0), [OneByte(0)];
    assert ss[..0] == [] && ss[..|ss| - 1] == [];
    OneByteStep(f.mem, f.sector);
    OneByteStep(Blank(|f.mem|), f.sector);
    hide SectionStep;
    assert Updated(f.mem, f.sector, [], BOOT_UPDATE_ALL) == f.mem;
    assert Updated(Blank(|f.mem|), f.sector, [], BOOT_UPDATE_ALL) == Blank(|f.mem|);
  }

  lemma OneByteStep(mem: seq<byte>, sector: nat)
    requires 0 < sector && 2 <= |mem| && mem[0] == 0xFF
    ensures var u := SectionStep(mem, sector, OneByte(0), BOOT_UPDATE_ALL);
            u[1] == mem[1] && InFlash(u, OneByte(0))
  {
    var u := SectionStep(mem, sector, OneByte(0), BOOT_UPDATE_ALL);
    assert u[0] == 0x01 && u[0..1] == [u[0]];
  }

  // ----- Updates section by section -----

  // One byte with its lowest bit set, at address 0.
  function OneByte(erasePageCnt: int): Section {
    Section(0, 1, erasePageCnt, 0, 0, 0, 0, 0, Some([0x01]))
  }

  // Section by section, an update of chip f in which no transfer fails and no wait gives up loses its first command
  // exactly if the chip was still busy when the write-enable came, and then succeeds or fails by this.
  ghost predicate Succeeds(f: Flash, ss: seq<Section>, all: int, idleInTime: bool)
    requires 0 < f.page && 0 < f.sector
  {
    FeasibleFrom(f, ss, all, f.busy && !idleInTime)
  }

  // It is certain to succeed exactly if every byte of its separate sections is supported either way, or only without a
  // loss if the chip was idle.
  lemma SuccessCertainIff(f: Flash, ss: seq<Section>, all: int)
    requires f.Valid() && Separate(ss, f.sector, all)
    requires forall k :: 0 <= k < |ss| && ss[k].HasContent() ==> ss[k].address + |ss[k].Data()| <= |f.mem|
    ensures (forall idleInTime: bool :: Succeeds(f, ss, all, idleInTime)) <==>
              forall k, i: nat :: 0 <= k < |ss| && i < |f.mem| && ss[k].Writes(i) ==>
                Supported(f, ss, all, false, k, i) && (f.busy ==> Supported(f, ss, all, true, k, i))
  {
    FeasibleFromIff(f, ss, all, false);
    FeasibleFromIff(f, ss, all, true);
    hide FeasibleFrom, Supported, Separate;
    assert Succeeds(f, ss, all, true) == FeasibleFrom(f, ss, all, false);
    assert Succeeds(f, ss, all, false) == FeasibleFrom(f, ss, all, f.busy);
    if FeasibleFrom(f, ss, all, false) && FeasibleFrom(f, ss, all, f.busy) {
      forall idleInTime: bool ensures Succeeds(f, ss, all, idleInTime) {
      }
    }
  }

  // The erase of its only sector is lost on a zero cell: the section is not in flash although no transfer failed.
  lemma FailureWithoutFault(f: Flash)
    requires f.Valid() && f.busy && !f.prot && f.mem[0] == 0
    ensures Acknowledged(f, SectorErase(0), false, true) == f.Settle(true)
    ensures !InFlash(StepAfterLoss(f.mem, f.page, f.sector, OneByte(1), BOOT_UPDATE_EACH), OneByte(1))
    ensures InFlash(SectionStep(f.mem, f.sector, OneByte(1), BOOT_UPDATE_EACH), OneByte(1))
  {
    LostCommand(f, SectorErase(0));
    var m, m' := StepAfterLoss(f.mem, f.page, f.sector, OneByte(1), BOOT_UPDATE_EACH),
                 SectionStep(f.mem, f.sector, OneByte(1), BOOT_UPDATE_EACH);
    assert m[0..1] == [m[0]] && m'[0..1] == [m'[0]];
  }

  // A section that erases nothing loses its only page program on a blank cell: the cell has the bits that it needs, the
  // section could be programmed, and yet it is not in flash.
  lemma FailureOnBlankCell(f: Flash)
    requires f.Valid() && f.busy && !f.prot && f.mem[0] == 0xFF
    ensures Acknowledged(f, PageProgram(0, [0x01]), false, true) == f.Settle(true)
    ensures HasBits(f.mem, 0, [0x01])
    ensures InFlash(SectionStep(f.mem, f.sector, OneByte(0), BOOT_UPDATE_EACH), OneByte(0))
    ensures !InFlash(StepAfterLoss(f.mem, f.page, f.sector, OneByte(0), BOOT_UPDATE_EACH), OneByte(0))
  {
    LostCommand(f, PageProgram(0, [0x01]));
    var m, m' := StepAfterLoss(f.mem, f.page, f.sector, OneByte(0), BOOT_UPDATE_EACH),
                 SectionStep(f.mem, f.sector, OneByte(0), BOOT_UPDATE_EACH);
    assert m[0..1] == [m[0]] && m'[0..1] == [m'[0]];
  }

  // Only the erase of the first sector is lost. A section whose run covers it, as that of every shipped one with an
  // erase of its own does, is verified exactly if the old cells have the bits it needs in that sector, whatever the
  // sectors behind hold.
  lemma CoveredAfterLossIff(mem: seq<byte>, page: nat, sector: nat, s: Section, all: int)
    requires 0 < page && 0 < sector && s.HasContent() && s.ErasesFirst(all)
    requires s.address + |s.Data()| <= s.EraseEnd(sector) && s.address + |s.Data()| <= |mem|
    ensures InFlash(StepAfterLoss(mem, page, sector, s, all), s) <==>
              forall i: nat :: i < |mem| && s.Writes(i) && i < s.EraseStart(sector) + sector ==>
                HasBit(mem[i], DataAt(s, i))
  {
    SectionAfterLossIff(mem, page, sector, s, all);
    hide StepAfterLoss, InFlash, DataAt, HasBit, Section.EraseStart, Section.EraseEnd, Section.FirstProgram;
    forall i: nat | i < |mem| && s.Writes(i)
      ensures SurvivesLoss(mem, page, sector, s, all, i) <==>
                (i < s.EraseStart(sector) + sector ==> HasBit(mem[i], DataAt(s, i)))
    {
    }
  }
}
