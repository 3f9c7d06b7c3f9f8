/** Updating the flash: one section with its retries, one pass over the sections, and the passes that a whole-chip
    update may take. */
module SeepromUpdate {
  import opened Bytes
  import opened Nor
  import opened Arithmetic
  import opened PageSplit
  import opened Trace
  import opened SeepromBus
  import opened SeepromCommands
  import opened SeepromAccess
  import opened Sections

  const FW_MAX_RETRY_COUNT := 3

  // ----- The three retry loops of a section -----

  // A chip that is busy at first may lose the erase of the first sector, and only that.
  method EraseWithRetry(dev: Device, s: Section, all: int) returns (err: int, ghost lost: bool)
    requires dev.Valid() && dev.Matched() && Unlocked(dev.trace)
    requires s.HasContent() && s.ErasesFirst(all) && s.Fits(dev.flash.page, dev.flash.sector, |dev.flash.mem|, all)
    modifies dev`flash, dev`reply, dev`trace, dev`faults, dev`overrun, dev`stuck
    ensures dev.Valid() && dev.Kept() && err <= 0
    ensures ChipErases(dev.trace) == old(ChipErases(dev.trace))
    ensures lost ==> old(dev.flash.busy)
    ensures var lo, hi := s.EraseStart(dev.flash.sector), s.EraseEnd(dev.flash.sector);
            && PartlyErased(old(dev.flash.mem), dev.flash.mem, lo, hi)
            && (!old(dev.flash.prot) && err == 0 && !dev.overrun ==>
                  dev.flash.mem == RangeErased(old(dev.flash.mem), if lost then lo + dev.flash.sector else lo, hi))
    ensures err == 0 && !dev.overrun ==> !dev.flash.busy
    ensures dev.faults <= old(dev.faults) + 3 && (err < 0 <==> dev.faults == old(dev.faults) + 3)
  {
    hide Effects, Unlocked, Guarded, PolledOut, ErasedButFirst, BlankOn, RangeErased, PartlyErased, Resumable,
         ChipErases;
    ghost var f, lo := dev.flash, SectorBase(dev.flash.sector, s.address);
    err := EraseAttempts(dev, s.address, s.erasePageCnt);
    EraseRun(s, f.sector);
    lost := EraseResult(f.mem, dev.flash.mem, lo, s.erasePageCnt, f.sector);
    lost := lost && f.busy;
  }

  // The attempts to erase a run of sectors, three at most.
  method EraseAttempts(dev: Device, st: nat, count: nat) returns (err: int)
    requires dev.Valid() && dev.Matched() && Unlocked(dev.trace)
    requires 0 < count && SectorBase(dev.flash.sector, st) + dev.flash.sector * count <= |dev.flash.mem|
    modifies dev`flash, dev`reply, dev`trace, dev`faults, dev`overrun, dev`stuck
    ensures dev.Valid() && dev.Kept() && err <= 0
    ensures ChipErases(dev.trace) == old(ChipErases(dev.trace))
    ensures var lo := SectorBase(dev.flash.sector, st);
            var mid, hi := lo + dev.flash.sector, lo + dev.flash.sector * count;
            && ErasedButFirst(old(dev.flash.mem), dev.flash.mem, lo, mid, hi)
            && (old(dev.flash.Ready()) && err == 0 && !dev.overrun ==> BlankOn(dev.flash.mem, lo, hi))
            && (!old(dev.flash.prot) && err == 0 && !dev.overrun ==> BlankOn(dev.flash.mem, mid, hi))
    ensures err == 0 && !dev.overrun ==> !dev.flash.busy
    ensures dev.faults <= old(dev.faults) + 3 && (err < 0 <==> dev.faults == old(dev.faults) + 3)
  {
    hide Effects, Unlocked, Guarded, PolledOut, ErasedButFirst, BlankOn, RangeErased, Resumable, ChipErases, SectorBase;
    ghost var lo, size, m0 := SectorBase(dev.flash.sector, st), dev.flash.sector, dev.flash.mem;
    EraseStart(m0, lo, lo + size, lo + size * count);
    var retry := FW_MAX_RETRY_COUNT;
    while true
      invariant 1 <= retry <= FW_MAX_RETRY_COUNT
      invariant dev.Valid() && dev.Kept() && dev.Matched()
      invariant ChipErases(dev.trace) == old(ChipErases(dev.trace))
      invariant dev.faults == old(dev.faults) + (FW_MAX_RETRY_COUNT - retry)
      invariant ErasedButFirst(m0, dev.flash.mem, lo, lo + size, lo + size * count)
      invariant old(dev.flash.Ready()) && !dev.overrun ==> Reerasable(dev.flash, lo)
      decreases retry
    {
      ghost var m1 := dev.flash.mem;
      err := EraseNsector(dev, st, count);
      ErasedButFirstTrans(m0, m1, dev.flash.mem, lo, lo + size, lo + size * count);
      if err == 0 || retry <= 1 {
        break;
      }
      retry := retry - 1;
    }
  }

  lemma EraseRun(s: Section, sector: nat)
    requires 0 < sector && 0 < s.erasePageCnt
    ensures s.EraseStart(sector) == SectorBase(sector, s.address)
    ensures s.EraseEnd(sector) == SectorBase(sector, s.address) + sector * s.erasePageCnt
  {
  }

  ghost method EraseResult(m0: seq<byte>, m1: seq<byte>, lo: nat, count: nat, sector: nat) returns (lost: bool)
    requires 0 < count && ErasedButFirst(m0, m1, lo, lo + sector, lo + sector * count)
    ensures PartlyErased(m0, m1, lo, lo + sector * count)
    ensures BlankOn(m1, lo, lo + sector * count) ==> !lost
    ensures BlankOn(m1, lo + sector, lo + sector * count) || BlankOn(m1, lo, lo + sector * count) ==>
              m1 == RangeErased(m0, if lost then lo + sector else lo, lo + sector * count)
  {
    var mid, hi := lo + sector, lo + sector * count;
    ProductMonotone(1, count, sector);
    lost := m1 != RangeErased(m0, lo, hi);
    if BlankOn(m1, lo, hi) {
      ErasedCompletes(m0, m1, lo, hi);
    } else if BlankOn(m1, mid, hi) {
      ErasedButFirstCompletes(m0, m1, lo, mid, hi);
    }
  }

  // A chip that is busy at first may lose the first page program, and only that.
  method WriteWithRetry(dev: Device, s: Section) returns (err: int, ghost lost: bool)
    requires dev.Valid() && dev.Matched() && Unlocked(dev.trace)
    requires s.HasContent() && s.Fits(dev.flash.page, dev.flash.sector, |dev.flash.mem|, BOOT_UPDATE_ALL)
    modifies dev`flash, dev`reply, dev`trace, dev`faults, dev`overrun, dev`stuck
    ensures dev.Valid() && dev.Kept() && err <= 0
    ensures ChipErases(dev.trace) == old(ChipErases(dev.trace))
    ensures lost ==> old(dev.flash.busy)
    ensures PartlyWritten(old(dev.flash.mem), dev.flash.mem, s.address, s.Data())
    ensures !old(dev.flash.prot) && err == 0 && !dev.overrun ==>
              var n := if lost then s.FirstProgram(dev.flash.page) else 0;
              dev.flash.mem == AndWrite(old(dev.flash.mem), s.address + n, s.Data()[n..])
    ensures err == 0 && !dev.overrun ==> !dev.flash.busy
    ensures dev.faults <= old(dev.faults) + 3 && (err < 0 <==> dev.faults == old(dev.faults) + 3)
  {
    hide Effects, Unlocked, Guarded, PolledOut, WrittenButFirst, PartlyWritten, Cleared, ClearedBehind, AndWrite,
         SentPrefix, Split, ChipErases, ChunkLength;
    ghost var m0, first, busy := dev.flash.mem, FirstChunk(dev.flash.page, s.address, s.Data()), dev.flash.busy;
    var st, data := s.address, s.Data();
    WriteStart(m0, st, data, [], dev.flash.page);
    var retry := FW_MAX_RETRY_COUNT;
    while true
      invariant 1 <= retry <= FW_MAX_RETRY_COUNT
      invariant dev.Valid() && dev.Kept() && dev.Matched()
      invariant ChipErases(dev.trace) == old(ChipErases(dev.trace))
      invariant dev.faults == old(dev.faults) + (FW_MAX_RETRY_COUNT - retry)
      invariant WrittenButFirst(m0, dev.flash.mem, st, data, first)
      invariant old(dev.flash.Ready()) && !dev.overrun ==> Resumable(dev.flash, st, data)
      decreases retry
    {
      ghost var m1 := dev.flash.mem;
      ghost var sent;
      err, sent := WriteNbyte(dev, st, data);
      WrittenButFirstTrans(m0, m1, dev.flash.mem, st, data, first);
      if err >= 0 || retry <= 1 {
        break;
      }
      retry := retry - 1;
    }
    lost := WriteResult(m0, dev.flash.mem, st, data, first);
    lost := lost && busy;
  }

  ghost method WriteResult(m0: seq<byte>, m1: seq<byte>, st: nat, data: seq<byte>, first: nat) returns (lost: bool)
    requires first <= |data| && WrittenButFirst(m0, m1, st, data, first)
    ensures PartlyWritten(m0, m1, st, data)
    ensures Cleared(m1, st, data, |data|) ==> !lost
    ensures ClearedBehind(m1, st, data, first, |data|) || Cleared(m1, st, data, |data|) ==>
              var n := if lost then first else 0; m1 == AndWrite(m0, st + n, data[n..])
  {
    assert data[0..] == data;
    lost := m1 != AndWrite(m0, st, data);
    if Cleared(m1, st, data, |data|) {
      ClearedCompletes(m0, m1, st, data);
    } else if ClearedBehind(m1, st, data, first, |data|) {
      WrittenButFirstCompletes(m0, m1, st, data, first);
    }
  }

  method VerifyWithRetry(dev: Device, s: Section) returns (err: int)
    requires dev.Valid()
    requires s.HasContent() && s.address + |s.Data()| <= |dev.flash.mem|
    modifies dev`flash, dev`reply, dev`trace, dev`faults, dev`blind
    ensures dev.Valid() && dev.OnlyListened() && err <= 0
    ensures dev.faults <= old(dev.faults) + 3
    ensures (old(dev.blind) ==> dev.blind) && (!old(dev.flash.busy) ==> dev.blind == old(dev.blind))
    ensures err == 0 && !dev.blind ==> InFlash(dev.flash.mem, s)
    ensures !old(dev.flash.busy) && InFlash(dev.flash.mem, s) && err < 0 ==>
              dev.faults >= old(dev.faults) + FW_MAX_RETRY_COUNT
  {
    hide Effects, Unlocked, Guarded, PolledOut;
    var retry := FW_MAX_RETRY_COUNT;
    while true
      invariant 1 <= retry <= FW_MAX_RETRY_COUNT
      invariant dev.Valid() && dev.OnlyListened()
      invariant dev.faults <= old(dev.faults) + (FW_MAX_RETRY_COUNT - retry)
      invariant (old(dev.blind) ==> dev.blind) && (!old(dev.flash.busy) ==> dev.blind == old(dev.blind))
      invariant !old(dev.flash.busy) && InFlash(dev.flash.mem, s) ==>
                  dev.faults >= old(dev.faults) + (FW_MAX_RETRY_COUNT - retry)
      decreases retry
    {
      ghost var readable;
      err, readable := Verify(dev, s.address, s.Data());
      if err >= 0 || retry <= 1 {
        break;
      }
      retry := retry - 1;
    }
  }

  // ----- One section -----

  // Bytes that the section neither writes nor erases are as before.
  ghost predicate Untouched(m0: seq<byte>, m1: seq<byte>, sector: nat, s: Section, all: int)
    requires 0 < sector
  {
    |m0| == |m1| && forall i :: 0 <= i < |m0| && !s.Writes(i) && !s.Erases(sector, all, i) ==> m1[i] == m0[i]
  }

  // The erase, if the section asks for one, and the write. Also returns whether the first command was lost, which takes
  // a chip that is busy at first.
  method EraseAndWrite(dev: Device, s: Section, all: int) returns (err: int, ghost lost: bool)
    requires dev.Valid() && dev.Matched() && Unlocked(dev.trace)
    requires s.HasContent() && s.Fits(dev.flash.page, dev.flash.sector, |dev.flash.mem|, all)
    modifies dev`flash, dev`reply, dev`trace, dev`faults, dev`overrun, dev`stuck
    ensures dev.Valid() && dev.Kept() && err <= 0
    ensures ChipErases(dev.trace) == old(ChipErases(dev.trace))
    ensures lost ==> old(dev.flash.busy)
    ensures Untouched(old(dev.flash.mem), dev.flash.mem, dev.flash.sector, s, all)
    ensures all == BOOT_UPDATE_ALL ==> PartlyWritten(old(dev.flash.mem), dev.flash.mem, s.address, s.Data())
    ensures err == 0 && !dev.overrun ==> !dev.flash.busy
    ensures err == 0 && !dev.overrun && !old(dev.flash.prot) ==>
              dev.flash.mem == StepFrom(old(dev.flash.mem), dev.flash.page, dev.flash.sector, s, all, lost)
    ensures err < 0 ==> dev.faults >= old(dev.faults) + FW_MAX_RETRY_COUNT
  {
    hide Effects, Unlocked, Guarded, PolledOut, PartlyWritten, AndWrite, RangeErased, PartlyErased, Untouched, Sendable,
         ChipErases, StepFrom;
    ghost var m0, page, sector := dev.flash.mem, dev.flash.page, dev.flash.sector;
    SectionFrame(m0, m0, m0, sector, s, all);
    err, lost := 0, false;
    ghost var lostErase, lostWrite := false, false;
    if s.ErasesFirst(all) {
      err, lostErase := EraseWithRetry(dev, s, all);
      SectionFrame(m0, dev.flash.mem, dev.flash.mem, sector, s, all);
      if err < 0 {
        return;
      }
    }
    ghost var m1 := dev.flash.mem;
    err, lostWrite := WriteWithRetry(dev, s);
    SectionFrame(m0, m1, dev.flash.mem, sector, s, all);
    lost := lostErase || (lostWrite && !s.ErasesFirst(all));
    if err == 0 && !dev.overrun && !dev.flash.prot {
      StepWritten(m0, m1, dev.flash.mem, page, sector, s, all, lostErase, lostWrite);
    }
  }

  // Also returns whether the first command was lost.
  method UpdateBySection(dev: Device, s: Section, all: int) returns (err: int, ghost lost: bool)
    requires dev.Valid() && dev.Matched() && Unlocked(dev.trace)
    requires s.Fits(dev.flash.page, dev.flash.sector, |dev.flash.mem|, all)
    modifies dev`flash, dev`reply, dev`trace, dev`faults, dev`overrun, dev`stuck, dev`blind
    ensures dev.Valid() && dev.Kept() && dev.Watched() && err <= 0
    ensures ChipErases(dev.trace) == old(ChipErases(dev.trace))
    ensures lost ==> old(dev.flash.busy) && s.HasContent()
    ensures !s.HasContent() ==> err == 0 && dev.flash == old(dev.flash)
    ensures Untouched(old(dev.flash.mem), dev.flash.mem, dev.flash.sector, s, all)
    ensures all == BOOT_UPDATE_ALL ==> PartlyWritten(old(dev.flash.mem), dev.flash.mem, s.address, s.Data())
    ensures err == 0 && !dev.blind ==> InFlash(dev.flash.mem, s)
    ensures err == 0 && !dev.overrun && (!old(dev.flash.busy) || s.HasContent()) ==> !dev.flash.busy
    ensures err == 0 && !dev.overrun && !old(dev.flash.prot) ==>
              dev.flash.mem == StepFrom(old(dev.flash.mem), dev.flash.page, dev.flash.sector, s, all, lost)
    ensures err < 0 && !dev.overrun ==> !dev.flash.busy || dev.faults >= old(dev.faults) + FW_MAX_RETRY_COUNT
    ensures err < 0 && !dev.overrun && !old(dev.flash.prot)
            && InFlash(StepFrom(old(dev.flash.mem), dev.flash.page, dev.flash.sector, s, all, lost), s) ==>
              dev.faults >= old(dev.faults) + FW_MAX_RETRY_COUNT
  {
    hide Effects, Unlocked, Guarded, PolledOut, PartlyWritten, Untouched, InFlash, Sendable, ChipErases, StepFrom;
    ghost var m0, page, sector := dev.flash.mem, dev.flash.page, dev.flash.sector;
    SectionFrame(m0, m0, m0, sector, s, all);
    NoStep(m0, page, sector, s, all);
    err, lost := 0, false;
    if s.HasContent() {
      err, lost := EraseAndWrite(dev, s, all);
      if err >= 0 {
        err := VerifyWithRetry(dev, s);
      }
    }
  }

  lemma NoStep(m: seq<byte>, page: nat, sector: nat, s: Section, all: int)
    requires 0 < page && 0 < sector
    ensures !s.HasContent() ==> StepFrom(m, page, sector, s, all, false) == m
  {
  }

  // An erase and a write, at most one of which lost its first command, make a step.
  lemma StepWritten(m0: seq<byte>, m1: seq<byte>, m2: seq<byte>, page: nat, sector: nat, s: Section, all: int,
                    lostErase: bool, lostWrite: bool)
    requires 0 < page && 0 < sector && s.HasContent()
    requires s.ErasesFirst(all) ==> !lostWrite
    requires m1 == if s.ErasesFirst(all)
                   then RangeErased(m0, s.EraseStart(sector) + (if lostErase then sector else 0), s.EraseEnd(sector))
                   else m0
    requires !s.ErasesFirst(all) ==> !lostErase
    requires var n := if lostWrite then s.FirstProgram(page) else 0; m2 == AndWrite(m1, s.address + n, s.Data()[n..])
    ensures m2 == StepFrom(m0, page, sector, s, all, lostErase || lostWrite)
  {
    assert s.Data()[0..] == s.Data();
  }

  lemma SectionFrame(m0: seq<byte>, m1: seq<byte>, m2: seq<byte>, sector: nat, s: Section, all: int)
    requires 0 < sector
    ensures PartlyWritten(m2, m2, s.address, s.Data())
    ensures m1 == m0 ==> Untouched(m0, m1, sector, s, all)
    ensures !s.HasContent() ==> InFlash(m0, s)
    ensures (m1 == m0 || (s.HasContent() && s.ErasesFirst(all)
                          && PartlyErased(m0, m1, s.EraseStart(sector), s.EraseEnd(sector))))
            && (m2 == m1 || (s.HasContent() && PartlyWritten(m1, m2, s.address, s.Data()))) ==>
              Untouched(m0, m2, sector, s, all)
  {
  }

  // ----- One pass over the list -----

  ghost predicate AllUntouched(m0: seq<byte>, m1: seq<byte>, sector: nat, ss: seq<Section>, all: int)
    requires 0 < sector
  {
    |m0| == |m1| &&
    forall i :: 0 <= i < |m0| && (forall k :: 0 <= k < |ss| ==> !ss[k].Writes(i) && !ss[k].Erases(sector, all, i)) ==>
      m1[i] == m0[i]
  }

  ghost predicate AllInFlash(mem: seq<byte>, ss: seq<Section>, n: nat) {
    n <= |ss| && forall k :: 0 <= k < n ==> InFlash(mem, ss[k])
  }

  // Also returns whether the first command was lost.
  method UpdatePass(dev: Device, ss: seq<Section>, all: int) returns (err: int, ghost lost: bool)
    requires dev.Valid() && dev.Matched() && Unlocked(dev.trace)
    requires AllFit(ss, dev.flash.page, dev.flash.sector, |dev.flash.mem|, all)
    modifies dev`flash, dev`reply, dev`trace, dev`faults, dev`overrun, dev`stuck, dev`blind
    ensures dev.Valid() && dev.Kept() && dev.Watched() && err <= 0
    ensures ChipErases(dev.trace) == old(ChipErases(dev.trace))
    ensures lost ==> old(dev.flash.busy) && AnyContent(ss)
    ensures AllUntouched(old(dev.flash.mem), dev.flash.mem, dev.flash.sector, ss, all)
    ensures all == BOOT_UPDATE_ALL ==>
              Updated(dev.flash.mem, dev.flash.sector, ss, all) ==
              Updated(old(dev.flash.mem), dev.flash.sector, ss, all)
    ensures err == 0 && !dev.blind && Separate(ss, dev.flash.sector, all) ==> AllInFlash(dev.flash.mem, ss, |ss|)
    ensures err == 0 && !dev.overrun && (!old(dev.flash.busy) || AnyContent(ss)) ==> !dev.flash.busy
    ensures err == 0 && !dev.overrun && !old(dev.flash.prot) ==>
              dev.flash.mem == UpdatedFrom(old(dev.flash), ss, all, lost)
    ensures err < 0 && !dev.overrun ==> !dev.flash.busy || dev.faults >= old(dev.faults) + FW_MAX_RETRY_COUNT
    ensures err < 0 && !dev.overrun && !old(dev.flash.prot) && FeasibleFrom(old(dev.flash), ss, all, lost) ==>
              dev.faults >= old(dev.faults) + FW_MAX_RETRY_COUNT
    ensures err == 0 && !dev.overrun && !dev.blind && !old(dev.flash.prot) ==>
              FeasibleFrom(old(dev.flash), ss, all, lost)
  {
    hide Effects, Unlocked, Guarded, PolledOut, PartlyWritten, Untouched, InFlash, AllUntouched, AllInFlash, Separate,
         StepFrom, UpdatedFrom, Section.Fits, ChipErases, AnyContent;
    ghost var f, sector := dev.flash, dev.flash.sector;
    ghost var goal := Updated(f.mem, sector, ss, all);
    PassStart(f.mem, sector, ss, all);
    WalkStart(f, ss, all);
    assert ss[..0] == [];
    err, lost := 0, false;
    var k := 0;
    while k < |ss|
      invariant 0 <= k <= |ss| && err == 0
      invariant dev.Valid() && dev.Kept() && dev.Watched() && dev.Matched()
      invariant ChipErases(dev.trace) == old(ChipErases(dev.trace))
      invariant AllUntouched(f.mem, dev.flash.mem, sector, ss, all)
      invariant all == BOOT_UPDATE_ALL ==> Updated(dev.flash.mem, sector, ss, all) == goal
      invariant !dev.blind && Separate(ss, sector, all) ==> AllInFlash(dev.flash.mem, ss, k)
      invariant lost ==> f.busy && AnyContent(ss[..k])
      invariant !AnyContent(ss[..k]) ==> dev.flash == f
      invariant !dev.overrun && (!f.busy || AnyContent(ss[..k])) ==> !dev.flash.busy
      invariant !dev.overrun && !f.prot ==> dev.flash.mem == UpdatedFrom(f, ss[..k], all, lost)
      invariant !dev.overrun && !dev.blind && !f.prot ==> FeasibleUpTo(f, ss, all, lost, k)
    {
      ghost var before, wasLost, l := dev.flash, lost, false;
      err, l := UpdateBySection(dev, ss[k], all);
      PassStep(f.mem, before.mem, dev.flash.mem, sector, ss, all, k);
      if all == BOOT_UPDATE_ALL {
        PassKeepsUpdate(before.mem, dev.flash.mem, sector, ss, k);
      }
      ContentStep(ss, k);
      ContentInPrefix(ss, k + 1);
      lost := lost || (l && !AnyContent(ss[..k]));
      if !dev.overrun && !f.prot {
        WalkStep(f, before.mem, ss, all, k, wasLost, l);
      }
      if err < 0 {
        break;
      }
      k := k + 1;
    }
    assert ss[..|ss|] == ss;
  }

  // The sections before the n-th are in flash as soon as they are written.
  ghost predicate FeasibleUpTo(f: Flash, ss: seq<Section>, all: int, lost: bool, n: nat)
    requires 0 < f.page && 0 < f.sector
  {
    n <= |ss| && forall k :: 0 <= k < n ==> InFlash(UpdatedFrom(f, ss[..k + 1], all, lost), ss[k])
  }

  lemma WalkStart(f: Flash, ss: seq<Section>, all: int)
    requires 0 < f.page && 0 < f.sector
    ensures UpdatedFrom(f, ss[..0], all, false) == f.mem && FeasibleUpTo(f, ss, all, false, 0) && !AnyContent(ss[..0])
  {
  }

  // The memory after one more section. Only the first section with content can meet the loss.
  lemma WalkStep(f: Flash, m: seq<byte>, ss: seq<Section>, all: int, k: nat, wasLost: bool, l: bool)
    requires 0 < f.page && 0 < f.sector && k < |ss|
    requires m == UpdatedFrom(f, ss[..k], all, wasLost)
    requires wasLost ==> AnyContent(ss[..k])
    requires l ==> !AnyContent(ss[..k])
    ensures var m2 := StepFrom(m, f.page, f.sector, ss[k], all, l);
            && m2 == UpdatedFrom(f, ss[..k + 1], all, wasLost || l)
            && (FeasibleUpTo(f, ss, all, wasLost, k) && InFlash(m2, ss[k]) ==>
                  FeasibleUpTo(f, ss, all, wasLost || l, k + 1))
            && (!InFlash(m2, ss[k]) ==> !FeasibleFrom(f, ss, all, wasLost || l))
  {
    hide StepFrom, UpdatedFrom, AnyContent, InFlash;
    UpdatedFromStep(f, ss, all, wasLost || l, k);
    if !AnyContent(ss[..k]) {
      NoContentYet(f, ss[..k], all, wasLost);
      NoContentYet(f, ss[..k], all, l);
      NoneToHold(f, ss, all, l, k);
    }
  }

  lemma NoneToHold(f: Flash, ss: seq<Section>, all: int, lost: bool, k: nat)
    requires 0 < f.page && 0 < f.sector && k <= |ss| && !AnyContent(ss[..k])
    ensures FeasibleUpTo(f, ss, all, lost, k)
  {
    forall j | 0 <= j < k ensures !ss[j].HasContent() {
      assert ss[..k][j] == ss[j];
    }
  }

  lemma PassStart(m: seq<byte>, sector: nat, ss: seq<Section>, all: int)
    requires 0 < sector
    ensures AllUntouched(m, m, sector, ss, all) && AllInFlash(m, ss, 0)
  {
  }

  lemma PassStep(m0: seq<byte>, m1: seq<byte>, m2: seq<byte>, sector: nat, ss: seq<Section>, all: int, k: nat)
    requires 0 < sector && k < |ss|
    requires AllUntouched(m0, m1, sector, ss, all) && Untouched(m1, m2, sector, ss[k], all)
    ensures AllUntouched(m0, m2, sector, ss, all)
    ensures Separate(ss, sector, all) && AllInFlash(m1, ss, k) && InFlash(m2, ss[k]) ==> AllInFlash(m2, ss, k + 1)
  {
    if Separate(ss, sector, all) && AllInFlash(m1, ss, k) && InFlash(m2, ss[k]) {
      forall j | 0 <= j < k ensures InFlash(m2, ss[j]) {
        StaysInFlash(m1, m2, sector, ss, all, j, k);
      }
    }
  }

  lemma StaysInFlash(m1: seq<byte>, m2: seq<byte>, sector: nat, ss: seq<Section>, all: int, j: nat, k: nat)
    requires 0 < sector && j < k < |ss|
    requires Untouched(m1, m2, sector, ss[k], all) && Separate(ss, sector, all) && InFlash(m1, ss[j])
    ensures InFlash(m2, ss[j])
  {
    if ss[j].HasContent() {
      var a, d := ss[j].address, ss[j].Data();
      forall i | a <= i < a + |d| ensures m2[i] == m1[i] {
        assert ss[j].Writes(i);
      }
      assert m2[a..a + |d|] == m1[a..a + |d|];
    }
  }

  lemma PassKeepsUpdate(m1: seq<byte>, m2: seq<byte>, sector: nat, ss: seq<Section>, k: nat)
    requires 0 < sector && k < |ss|
    requires PartlyWritten(m1, m2, ss[k].address, ss[k].Data())
    ensures Updated(m2, sector, ss, BOOT_UPDATE_ALL) == Updated(m1, sector, ss, BOOT_UPDATE_ALL)
  {
    if ss[k].HasContent() {
      PartKeepsUpdate(m1, m2, sector, ss, k);
    } else {
      assert m2 == m1;
    }
  }

  // ----- The whole update -----

  // Between two points of a history a chip erase was acknowledged, and up to the second no latched command followed it.
  ghost predicate OwnErase(t: seq<Event>, from: nat, to: nat) {
    && from < to <= |t|
    && Sent(ChipErase, true) in t[from..to]
    && Effects(t[..to]) != [] && Effects(t[..to])[|Effects(t[..to])| - 1] == Sent(ChipErase, true)
  }

  // Where the pass before the k-th started, or the update.
  function Since(from: nat, starts: seq<nat>, k: nat): nat
    requires k <= |starts|
  {
    if k == 0 then from else starts[k - 1]
  }

  // Of the passes of an update, each has an acknowledged erase of its own before it.
  ghost predicate OwnErases(t: seq<Event>, from: nat, starts: seq<nat>) {
    forall k :: 0 <= k < |starts| ==> OwnErase(t, Since(from, starts, k), starts[k])
  }

  lemma ErasedBetween(t0: seq<Event>, t: seq<Event>, u: seq<Event>)
    requires t0 <= t <= u && SentOnce(t, u, ChipErase, 0)
    ensures OwnErase(u, |t0|, |u|)
  {
    hide Effects;
    CountedLater(t, u);
    WidenErase(u, |t0|, |t|, |u|);
  }

  lemma CountedLater(t: seq<Event>, u: seq<Event>)
    requires t <= u && ChipErases(u) > ChipErases(t)
    requires Effects(u) != [] && Effects(u)[|Effects(u)| - 1] == Sent(ChipErase, true)
    ensures OwnErase(u, |t|, |u|)
  {
    hide Effects;
    var added := u[|t|..|u|];
    assert u == t + added && u[..|u|] == u;
    assert multiset(u) == multiset(t) + multiset(added);
    assert Sent(ChipErase, true) in multiset(added);
  }

  lemma WidenErase(t: seq<Event>, lo: nat, from: nat, to: nat)
    requires lo <= from && OwnErase(t, from, to)
    ensures OwnErase(t, lo, to)
  {
    hide Effects;
    assert t[lo..to] == t[lo..from] + t[from..to];
  }

  lemma EraseStays(t: seq<Event>, u: seq<Event>, from: nat, to: nat)
    requires t <= u && OwnErase(t, from, to)
    ensures OwnErase(u, from, to)
  {
    hide Effects;
    assert u[from..to] == t[from..to] && u[..to] == t[..to];
  }

  lemma StartsStay(t: seq<Event>, u: seq<Event>, from: nat, starts: seq<nat>)
    requires t <= u && OwnErases(t, from, starts)
    ensures OwnErases(u, from, starts)
  {
    hide OwnErase;
    forall k | 0 <= k < |starts| ensures OwnErase(u, Since(from, starts, k), starts[k]) {
      EraseStays(t, u, Since(from, starts, k), starts[k]);
    }
  }

  lemma StartsBefore(t: seq<Event>, from: nat, starts: seq<nat>)
    requires from <= |t| && OwnErases(t, from, starts)
    ensures Since(from, starts, |starts|) <= |t|
  {
    hide Effects;
    var n := |starts|;
    if n > 0 {
      assert OwnErase(t, Since(from, starts, n - 1), starts[n - 1]);
    }
  }

  lemma NextStart(t: seq<Event>, u: seq<Event>, from: nat, starts: seq<nat>)
    requires t <= u && from <= |t| && OwnErases(t, from, starts) && OwnErase(u, |t|, |u|)
    ensures OwnErases(u, from, starts + [|u|])
  {
    StartsStay(t, u, from, starts);
    var n, all := |starts|, starts + [|u|];
    StartsBefore(t, from, starts);
    WidenErase(u, Since(from, starts, n), |t|, |u|);
    hide OwnErase;
    forall k | 0 <= k <= n ensures OwnErase(u, Since(from, all, k), all[k]) {
      assert Since(from, all, k) == Since(from, starts, k);
      if k < n {
        assert OwnErase(u, Since(from, starts, k), starts[k]);
      }
    }
  }

  method EraseChipWithRetry(dev: Device) returns (err: int)
    requires dev.Valid() && dev.Matched() && Unlocked(dev.trace)
    modifies dev`flash, dev`reply, dev`trace, dev`faults, dev`overrun, dev`stuck
    ensures dev.Valid() && dev.Kept() && err <= 0
    ensures err == 0 ==> OwnErase(dev.trace, |old(dev.trace)|, |dev.trace|)
    ensures dev.flash.mem == old(dev.flash.mem) || dev.flash.mem == Blank(|dev.flash.mem|)
    ensures old(dev.flash.Ready()) && err == 0 ==> dev.flash.mem == Blank(|dev.flash.mem|)
    ensures err == 0 && !dev.overrun ==> !dev.flash.busy
    ensures dev.faults <= old(dev.faults) + 3 && (err < 0 <==> dev.faults == old(dev.faults) + 3)
    ensures err < 0 ==> EndsTrying(dev.trace, ChipErase)
  {
    hide Effects, Unlocked, Guarded, PolledOut, OwnErase, SentOnce, EndsTrying;
    var retry := FW_MAX_RETRY_COUNT;
    while true
      invariant 1 <= retry <= FW_MAX_RETRY_COUNT
      invariant dev.Valid() && dev.Kept() && dev.Matched()
      invariant dev.faults == old(dev.faults) + (FW_MAX_RETRY_COUNT - retry)
      invariant dev.flash.mem == old(dev.flash.mem) || dev.flash.mem == Blank(|dev.flash.mem|)
      invariant old(dev.flash.Ready()) && dev.flash.busy ==> dev.flash.mem == Blank(|dev.flash.mem|)
      decreases retry
    {
      ghost var t := dev.trace;
      err := EraseChip(dev);
      if err >= 0 {
        ErasedBetween(old(dev.trace), t, dev.trace);
      }
      if err >= 0 || retry <= 1 {
        break;
      }
      retry := retry - 1;
    }
  }

  // The chip can end up holding every section: for a whole-chip update the image does, for an update section by
  // section each can be programmed in turn, the first command lost or not.
  ghost predicate Deliverable(f: Flash, ss: seq<Section>, all: int, lost: bool)
    requires 0 < f.page && 0 < f.sector
  {
    if all == BOOT_UPDATE_ALL then AllInFlash(Image(|f.mem|, f.sector, ss), ss, |ss|)
    else FeasibleFrom(f, ss, all, lost)
  }

  // The run of an update: where in the history its passes started, whether one of them started on a blank chip, and
  // whether the section-by-section pass lost its first command.
  datatype Passes = Passes(starts: seq<nat>, blank: bool, lost: bool)

  // What a successful update of chip f leaves, by what its run tells.
  ghost function FinalMemory(f: Flash, ss: seq<Section>, all: int, run: Passes): (m: seq<byte>)
    requires 0 < f.page && 0 < f.sector
    ensures |m| == |f.mem|
  {
    if all != BOOT_UPDATE_ALL then UpdatedFrom(f, ss, all, run.lost)
    else if run.blank then Image(|f.mem|, f.sector, ss)
    else Updated(f.mem, f.sector, ss, all)
  }

  // What is certain of the passes made so far, of a whole-chip update (init is the chip before the first).
  ghost predicate PassesSoFar(init: Flash, f: Flash, ss: seq<Section>, run: Passes, faults: nat)
    requires 0 < init.page && 0 < init.sector && |f.mem| == |init.mem|
  {
    var n := |run.starts|;
    && Updated(f.mem, init.sector, ss, BOOT_UPDATE_ALL) == FinalMemory(init, ss, BOOT_UPDATE_ALL, run)
    && (n == 0 ==> !run.blank)
    && (n > 0 && !init.busy ==> run.blank)
    && (n > 1 ==> run.blank || faults >= FW_MAX_RETRY_COUNT)
    && (n > 0 && run.blank && AllInFlash(Image(|init.mem|, init.sector, ss), ss, |ss|) ==>
          faults >= FW_MAX_RETRY_COUNT)
  }

  lemma NoPassYet(init: Flash, t: seq<Event>, ss: seq<Section>)
    requires 0 < init.page && 0 < init.sector
    ensures PassesSoFar(init, init, ss, Passes([], false, false), 0) && OwnErases(t, |t|, [])
  {
  }

  // After all passes have failed, so did more transfers than the update tolerates, if the image holds every section.
  lemma GivenUp(init: Flash, f: Flash, ss: seq<Section>, run: Passes, faults: nat)
    requires 0 < init.page && 0 < init.sector && |f.mem| == |init.mem| && |run.starts| > 1
    requires PassesSoFar(init, f, ss, run, faults)
    ensures AllInFlash(Image(|init.mem|, init.sector, ss), ss, |ss|) ==> faults >= FW_MAX_RETRY_COUNT
    ensures run.blank || faults >= FW_MAX_RETRY_COUNT
  {
  }

  // One more pass: it starts on the chip that the erase left, which is blank if the chip before was ready.
  lemma AnotherPass(init: Flash, before: Flash, start: Flash, after: Flash, ss: seq<Section>,
                    last: Passes, run: Passes, was: nat, now: nat, err: int)
    requires 0 < init.page && 0 < init.sector && start.sector == init.sector && 0 < start.page
    requires |before.mem| == |init.mem| == |start.mem| == |after.mem|
    requires PassesSoFar(init, before, ss, last, was) && was <= now
    requires last.starts == [] ==> before == init
    requires last.starts != [] ==> !before.busy || was >= FW_MAX_RETRY_COUNT
    requires start.mem == before.mem || start.mem == Blank(|start.mem|)
    requires !before.busy ==> start.mem == Blank(|start.mem|)
    requires |run.starts| == |last.starts| + 1
    requires run.blank == (last.blank || start.mem == Blank(|start.mem|))
    requires Updated(after.mem, init.sector, ss, BOOT_UPDATE_ALL) ==
             Updated(start.mem, init.sector, ss, BOOT_UPDATE_ALL)
    requires err < 0 && FeasibleFrom(start, ss, BOOT_UPDATE_ALL, false) ==> now >= was + FW_MAX_RETRY_COUNT
    ensures UpdatedFrom(start, ss, BOOT_UPDATE_ALL, false) == FinalMemory(init, ss, BOOT_UPDATE_ALL, run)
    ensures !init.busy ==> run.blank
    ensures |run.starts| > 1 ==> run.blank || was >= FW_MAX_RETRY_COUNT
    ensures err < 0 ==> PassesSoFar(init, after, ss, run, now)
  {
    hide Updated, UpdatedFrom, Feasible, FeasibleFrom, InFlash;
    NothingLost(start, ss, BOOT_UPDATE_ALL);
    if run.blank && AllInFlash(Image(|init.mem|, init.sector, ss), ss, |ss|) {
      HeldIsFeasible(start.mem, init.sector, ss);
      NothingLostFeasible(start, ss, BOOT_UPDATE_ALL);
    }
  }

  // Erases the chip for a whole-chip update, writes the list, and starts again when a section fails: up to three
  // passes. In the other mode the error that sends it back also ends it, so there is one pass.
  method FirmwareUpdate(dev: Device, ss: seq<Section>, all: int) returns (err: int, ghost run: Passes)
    requires dev.Valid() && dev.Matched() && Unlocked(dev.trace)
    requires AllFit(ss, dev.flash.page, dev.flash.sector, |dev.flash.mem|, all)
    modifies dev`flash, dev`reply, dev`trace, dev`faults, dev`overrun, dev`stuck, dev`blind
    ensures dev.Valid() && dev.Kept() && dev.Watched() && err <= 0
    ensures dev.overrun && !old(dev.overrun) ==> |old(dev.trace)| <= dev.stuck && PolledOut(dev.trace, dev.stuck)
    ensures run.lost ==> old(dev.flash.busy) && AnyContent(ss)
    ensures err == 0 && !dev.overrun && !old(dev.flash.prot) ==>
              dev.flash.mem == FinalMemory(old(dev.flash), ss, all, run)
    ensures err == 0 && !dev.overrun && (all == BOOT_UPDATE_ALL || !old(dev.flash.busy) || AnyContent(ss)) ==>
              !dev.flash.busy
    ensures err == 0 && !dev.blind && Separate(ss, dev.flash.sector, all) ==> AllInFlash(dev.flash.mem, ss, |ss|)
    ensures all != BOOT_UPDATE_ALL ==> AllUntouched(old(dev.flash.mem), dev.flash.mem, dev.flash.sector, ss, all)
    ensures err < 0 && !dev.overrun && !old(dev.flash.prot) && Deliverable(old(dev.flash), ss, all, run.lost) ==>
              dev.faults >= old(dev.faults) + FW_MAX_RETRY_COUNT
    ensures err == 0 && !dev.overrun && !dev.blind && !old(dev.flash.prot) && all != BOOT_UPDATE_ALL ==>
              FeasibleFrom(old(dev.flash), ss, all, run.lost)
    ensures err < 0 && !dev.overrun ==> !dev.flash.busy || dev.faults >= old(dev.faults) + FW_MAX_RETRY_COUNT
    ensures |run.starts| <= 3 && (err == 0 ==> 1 <= |run.starts|)
    ensures all == BOOT_UPDATE_ALL && err < 0 ==> |run.starts| == 3 || EndsTrying(dev.trace, ChipErase)
    ensures all != BOOT_UPDATE_ALL ==> |run.starts| == 1 && ChipErases(dev.trace) == old(ChipErases(dev.trace))
    ensures all == BOOT_UPDATE_ALL ==> OwnErases(dev.trace, |old(dev.trace)|, run.starts)
    ensures all == BOOT_UPDATE_ALL && old(dev.flash.Ready()) && err == 0 && !dev.overrun ==> run.blank
    ensures all == BOOT_UPDATE_ALL && |run.starts| > 1 && !dev.overrun && !old(dev.flash.prot) ==>
              run.blank || dev.faults >= old(dev.faults) + FW_MAX_RETRY_COUNT
  {
    hide Effects, Unlocked, Guarded, PolledOut, AllUntouched, AllInFlash, Separate, Feasible, FeasibleFrom, Updated,
         UpdatedFrom, Section.Fits, OwnErase, OwnErases, ChipErases, PassesSoFar, AnyContent, EndsTrying;
    ghost var init, f0, t0 := dev.flash, dev.faults, dev.trace;
    PassStart(init.mem, init.sector, ss, all);
    NoPassYet(init, t0, ss);
    err, run := 0, Passes([], false, false);
    var retry1 := FW_MAX_RETRY_COUNT;
    while true  // retry_all
      invariant 0 <= retry1 && |run.starts| == FW_MAX_RETRY_COUNT - retry1
      invariant dev.Valid() && dev.Kept() && dev.Watched() && dev.Matched()
      invariant |run.starts| == 0 ==> err == 0 && dev.flash == init && dev.trace == t0
      invariant |run.starts| > 0 ==> err < 0
      invariant run.lost ==> init.busy && AnyContent(ss)
      invariant all != BOOT_UPDATE_ALL ==> |run.starts| <= 1 && ChipErases(dev.trace) == ChipErases(t0)
      invariant all != BOOT_UPDATE_ALL ==> AllUntouched(init.mem, dev.flash.mem, init.sector, ss, all)
      invariant all != BOOT_UPDATE_ALL && |run.starts| > 0 && !dev.overrun && !init.prot ==>
                  (FeasibleFrom(init, ss, all, run.lost) ==> dev.faults >= f0 + FW_MAX_RETRY_COUNT)
      invariant |run.starts| > 0 && !dev.overrun ==> !dev.flash.busy || dev.faults >= f0 + FW_MAX_RETRY_COUNT
      invariant all == BOOT_UPDATE_ALL ==> OwnErases(dev.trace, |t0|, run.starts)
      invariant all == BOOT_UPDATE_ALL && !dev.overrun && !init.prot ==>
                  PassesSoFar(init, dev.flash, ss, run, dev.faults - f0)
      decreases retry1
    {
      if retry1 <= 0 {
        if all == BOOT_UPDATE_ALL && !dev.overrun && !init.prot {
          GivenUp(init, dev.flash, ss, run, dev.faults - f0);
        }
        break;
      }
      ghost var before, t, was := dev.flash, dev.trace, dev.faults - f0;
      if all == BOOT_UPDATE_ALL {
        err := EraseChipWithRetry(dev);
        StartsStay(t, dev.trace, |t0|, run.starts);
      }
      if err < 0 {
        break;
      }
      retry1 := retry1 - 1;
      ghost var start, last := dev.flash, run;
      if all == BOOT_UPDATE_ALL {
        NextStart(t, dev.trace, |t0|, run.starts);
      }
      ghost var t1, lost := dev.trace, false;
      err, lost := UpdatePass(dev, ss, all);
      run := Passes(run.starts + [|t1|], run.blank || start.mem == Blank(|start.mem|),
                    lost && all != BOOT_UPDATE_ALL);
      if all == BOOT_UPDATE_ALL {
        StartsStay(t1, dev.trace, |t0|, run.starts);
        if !dev.overrun && !init.prot {
          AnotherPass(init, before, start, dev.flash, ss, last, run, was, dev.faults - f0, err);
        }
      }
      if err >= 0 {
        break;
      }
    }
  }
}
