/** The layout of the firmware that is compiled into the driver, and why every theorem about updates applies to it. */
module FirmwareTable {
  import opened Bytes
  import opened Nor
  import opened Sections
  import opened SeepromUpdate
  import opened Boot

  const CHIP_SIZE := 0x2_0000
  const SECTOR_SIZE := 4096

  ghost predicate Placed(s: Section, address: nat, byteCnt: nat, erasePageCnt: nat) {
    && s.address == address && s.byteCnt == byteCnt && s.erasePageCnt == erasePageCnt
    && (0 < byteCnt ==> s.content.Some? && |s.content.value| == byteCnt)
  }

  // Addresses, lengths and erase counts of the nine sections; three have no content.
  ghost predicate ShippedLayout(t: Table) {
    && Placed(t.sysCfg, 0x0_0000, 0xC0, 1)
    && Placed(t.fwCfg, 0x0_01C0, 0x80, 0)
    && Placed(t.fw, 0x0_1000, 0x1_0708, 0x11)
    && Placed(t.tmcReg, 0x1_3000, 0x264, 1)
    && Placed(t.dcsw, 0x1_5000, 0, 0)
    && Placed(t.fdm, 0x1_6000, 0x1568, 2)
    && Placed(t.mpfpm, 0xF_FFFF, 0, 0)
    && Placed(t.mpfdm, 0x1_8000, 0xFAC, 1)
    && Placed(t.fpm, 0xF_FFFF, 0, 0)
  }

  // Where section k ends, and a bound below which it neither writes nor erases.
  function UpTo(k: nat): nat {
    var ends := [0xC0, 0x240, 0x1_1708, 0x1_3264, 0x1_3264, 0x1_7568, 0x1_7568, 0x1_8FAC, 0x1_8FAC, 0x1_8FAC];
    ends[if k < 9 then k else 9]
  }

  lemma StaysAbove(t: Table, k: nat, all: int, i: int)
    requires ShippedLayout(t) && k < 9
    ensures t.Sections()[k].Writes(i) ==> i < UpTo(k) && (k > 0 ==> UpTo(k - 1) <= i)
    ensures k > 0 && t.Sections()[k].Erases(SECTOR_SIZE, all, i) ==> UpTo(k - 1) <= i
  {
    assert k == 0 || k == 1 || k == 2 || k == 3 || k == 4 || k == 5 || k == 6 || k == 7 || k == 8;
  }

  lemma UpToGrows(j: nat, k: nat)
    requires j <= k < 9
    ensures UpTo(j) <= UpTo(k)
  {
    if j < k {
      UpToGrows(j, k - 1);
      assert k == 1 || k == 2 || k == 3 || k == 4 || k == 5 || k == 6 || k == 7 || k == 8;
    }
  }

  // In both modes no shipped section touches what an earlier one wrote.
  lemma ShippedIsSeparate(t: Table, all: int)
    requires ShippedLayout(t)
    ensures Separate(t.Sections(), SECTOR_SIZE, all)
  {
    hide ShippedLayout, UpTo;
    forall j, k, i | 0 <= j < k < 9 && t.Sections()[j].Writes(i)
      ensures !t.Sections()[k].Writes(i) && !t.Sections()[k].Erases(SECTOR_SIZE, all, i)
    {
      StaysAbove(t, j, all, i);
      StaysAbove(t, k, all, i);
      UpToGrows(j, k - 1);
    }
  }

  // Every shipped byte is erased in time even section by section: the configuration section at 0x1C0 erases nothing
  // itself and relies on the sector erased for the section at 0.
  lemma ShippedIsPrepared(t: Table, mem: seq<byte>)
    requires ShippedLayout(t)
    ensures Prepared(mem, t.Sections(), SECTOR_SIZE, BOOT_UPDATE_EACH)
  {
    forall k, i | 0 <= k < 9 && 0 <= i < |mem| && t.Sections()[k].Writes(i)
      ensures exists j :: 0 <= j <= k && t.Sections()[j].Erases(SECTOR_SIZE, BOOT_UPDATE_EACH, i)
    {
      var j := if k == 1 then 0 else k;
      assert k == 0 || k == 1 || k == 2 || k == 3 || k == 5 || k == 7;
      assert t.Sections()[j].Erases(SECTOR_SIZE, BOOT_UPDATE_EACH, i);
    }
  }

  // The shipped sections lie inside the chip and can be sent with either page size.
  lemma ShippedFits(t: Table, page: nat, all: int)
    requires ShippedLayout(t) && (page == 32 || page == 256)
    ensures AllFit(t.Sections(), page, SECTOR_SIZE, CHIP_SIZE, all)
  {
    forall k | 0 <= k < 9 ensures t.Sections()[k].Fits(page, SECTOR_SIZE, CHIP_SIZE, all) {
      assert k == 0 || k == 1 || k == 2 || k == 3 || k == 4 || k == 5 || k == 6 || k == 7 || k == 8;
    }
  }

  // So a chip of the shipped size can hold them all in either mode, whatever it held before.
  lemma ShippedIsDeliverable(t: Table, f: Flash, all: int)
    requires ShippedLayout(t) && ShippedChip(f) && (all == BOOT_UPDATE_ALL || all == BOOT_UPDATE_EACH)
    ensures Deliverable(f, t.Sections(), all, false)
  {
    hide ShippedLayout, Separate, Prepared, Section.Fits, InFlash, FeasibleFrom;
    ShippedIsSeparate(t, all);
    ShippedFits(t, 256, all);
    FitsInside(t.Sections(), 256, all);
    if all == BOOT_UPDATE_ALL {
      BlankIsPrepared(t.Sections());
      SectionsInFlash(Blank(CHIP_SIZE), SECTOR_SIZE, t.Sections(), all);
    } else {
      ShippedIsPrepared(t, f.mem);
      PreparedIsFeasible(f.mem, SECTOR_SIZE, t.Sections(), all);
      NothingLostFeasible(f, t.Sections(), all);
    }
  }

  ghost predicate ShippedChip(f: Flash) {
    |f.mem| == CHIP_SIZE && f.sector == SECTOR_SIZE && 0 < f.page
  }

  // If a section-by-section update of them loses its first command, the erase of the first sector, it succeeds exactly
  // if the old cells have the bits of the two sections that live there.
  lemma ShippedAfterLossIff(t: Table, f: Flash)
    requires ShippedLayout(t) && ShippedChip(f)
    ensures FeasibleFrom(f, t.Sections(), BOOT_UPDATE_EACH, true) <==>
              forall k, i: nat :: 0 <= k < 2 && i < CHIP_SIZE && t.Sections()[k].Writes(i) ==>
                HasBit(f.mem[i], DataAt(t.Sections()[k], i))
  {
    var ss := t.Sections();
    ShippedIsSeparate(t, BOOT_UPDATE_EACH);
    ShippedFits(t, 256, BOOT_UPDATE_EACH);
    FitsInside(ss, 256, BOOT_UPDATE_EACH);
    FeasibleFromIff(f, ss, BOOT_UPDATE_EACH, true);
    hide FeasibleFrom, Separate, HasBit, DataAt;
    forall k, i: nat | 0 <= k < 9 && i < CHIP_SIZE && ss[k].Writes(i)
      ensures Supported(f, ss, BOOT_UPDATE_EACH, true, k, i) <==> k < 2 ==> HasBit(f.mem[i], DataAt(ss[k], i))
    {
      if k < 2 {
        NeedsOldBits(t, f, k, i);
      } else {
        ErasedInTime(t, f, k, i);
      }
    }
  }

  lemma FirstHasContent(t: Table, k: nat)
    requires ShippedLayout(t) && k <= 9
    ensures AnyContent(t.Sections()[..k]) <==> 0 < k
  {
    if 0 < k {
      assert t.Sections()[..k][0].HasContent();
    }
  }

  lemma NeedsOldBits(t: Table, f: Flash, k: nat, i: nat)
    requires ShippedLayout(t) && ShippedChip(f) && k < 2 && i < CHIP_SIZE && t.Sections()[k].Writes(i)
    ensures Supported(f, t.Sections(), BOOT_UPDATE_EACH, true, k, i) <==> HasBit(f.mem[i], DataAt(t.Sections()[k], i))
  {
    hide HasBit, DataAt, AnyContent;
    var ss := t.Sections();
    FirstHasContent(t, 0);
    FirstHasContent(t, 1);
    assert i < SECTOR_SIZE;
    assert k == 0 || k == 1;
    forall j | 0 <= j <= k ensures !ErasesAfter(ss[j], SECTOR_SIZE, BOOT_UPDATE_EACH, i, LostAt(ss, j, true)) {
      assert j == 0 || j == 1;
    }
  }

  lemma ErasedInTime(t: Table, f: Flash, k: nat, i: nat)
    requires ShippedLayout(t) && ShippedChip(f) && 2 <= k < 9 && i < CHIP_SIZE && t.Sections()[k].Writes(i)
    ensures Supported(f, t.Sections(), BOOT_UPDATE_EACH, true, k, i)
  {
    hide HasBit, DataAt, AnyContent;
    var ss := t.Sections();
    FirstHasContent(t, k);
    assert k == 2 || k == 3 || k == 5 || k == 7;
    assert ErasesAfter(ss[k], SECTOR_SIZE, BOOT_UPDATE_EACH, i, LostAt(ss, k, true));
  }

  lemma FitsInside(ss: seq<Section>, page: nat, all: int)
    requires 0 < page && AllFit(ss, page, SECTOR_SIZE, CHIP_SIZE, all)
    ensures forall k :: 0 <= k < |ss| && ss[k].HasContent() ==> ss[k].address + |ss[k].Data()| <= CHIP_SIZE
  {
  }

  lemma BlankIsPrepared(ss: seq<Section>)
    ensures Prepared(Blank(CHIP_SIZE), ss, SECTOR_SIZE, BOOT_UPDATE_ALL)
  {
  }
}
