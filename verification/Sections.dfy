/** Firmware sections, and what writing a list of them means for the memory of the chip. */
module Sections {
  import opened Bytes
  import opened Nor
  import opened PageSplit
  import opened Wrappers

  const BOOT_UPDATE_ALL := 1
  const BOOT_UPDATE_EACH := 0

  datatype Section = Section(address: nat, byteCnt: int, erasePageCnt: int, version: nat, checksum: nat,
                             reserved01: nat, reserved02: nat, reserved03: nat, content: Option<seq<byte>>)
  {
    // Sections without content are skipped by the updater.
    predicate HasContent() {
      0 < byteCnt && content.Some?
    }

    function Data(): seq<byte> {
      if HasContent() then content.value else []
    }

    // The sectors from the one that holds the address on.
    predicate ErasesFirst(all: int) {
      all != BOOT_UPDATE_ALL && 0 < erasePageCnt
    }

    function EraseStart(sector: nat): int
      requires 0 < sector
    {
      address - address % sector
    }

    function EraseEnd(sector: nat): int
      requires 0 < sector
    {
      EraseStart(sector) + sector * erasePageCnt
    }

    // Length of the first page program that sends the section.
    function FirstProgram(page: nat): (n: nat)
      requires 0 < page
      ensures n <= |Data()|
    {
      ChunkLength(page, address, |Data()|)
    }

    predicate Writes(i: int) {
      HasContent() && address <= i < address + |Data()|
    }

    predicate Erases(sector: nat, all: int, i: int)
      requires 0 < sector
    {
      HasContent() && ErasesFirst(all) && EraseStart(sector) <= i < EraseEnd(sector)
    }

    // The section can be sent to a chip with this geometry: its payload is as long as it says, it lies inside the
    // chip, and an unaligned start is followed by at least the rest of its page.
    ghost predicate Fits(page: nat, sector: nat, size: nat, all: int)
      requires 0 < page && 0 < sector
    {
      HasContent() ==>
        && |Data()| == byteCnt
        && address + byteCnt <= size
        && Sendable(page, address, byteCnt)
        && (ErasesFirst(all) ==> EraseEnd(sector) <= size)
    }
  }

  // The memory that a complete update of one section leaves.
  function SectionStep(mem: seq<byte>, sector: nat, s: Section, all: int): (m: seq<byte>)
    requires 0 < sector
    ensures |m| == |mem|
  {
    if !s.HasContent() then mem
    else
      var blank := if s.ErasesFirst(all) then RangeErased(mem, s.EraseStart(sector), s.EraseEnd(sector)) else mem;
      AndWrite(blank, s.address, s.Data())
  }

  // The memory that updating sections one after the other leaves.
  function Updated(mem: seq<byte>, sector: nat, ss: seq<Section>, all: int): (m: seq<byte>)
    requires 0 < sector
    ensures |m| == |mem|
  {
    if ss == [] then mem
    else SectionStep(Updated(mem, sector, ss[..|ss| - 1], all), sector, ss[|ss| - 1], all)
  }

  // The whole-chip image: every section programmed onto a blank chip.
  function Image(size: nat, sector: nat, ss: seq<Section>): (m: seq<byte>)
    requires 0 < sector
    ensures |m| == size
  {
    Updated(Blank(size), sector, ss, BOOT_UPDATE_ALL)
  }

  ghost predicate InFlash(mem: seq<byte>, s: Section) {
    s.HasContent() ==> s.address + |s.Data()| <= |mem| && mem[s.address..s.address + |s.Data()|] == s.Data()
  }

  // No section touches a byte that an earlier section wrote.
  ghost predicate Separate(ss: seq<Section>, sector: nat, all: int)
    requires 0 < sector
  {
    forall j, k, i :: 0 <= j < k < |ss| && ss[j].Writes(i) ==> !ss[k].Writes(i) && !ss[k].Erases(sector, all, i)
  }

  // Every byte is blank before it is written: the chip was, or an erase of this or an earlier section made it so.
  ghost predicate Prepared(mem: seq<byte>, ss: seq<Section>, sector: nat, all: int)
    requires 0 < sector
  {
    forall k, i :: 0 <= k < |ss| && 0 <= i < |mem| && ss[k].Writes(i) ==>
      mem[i] == 0xFF || exists j :: 0 <= j <= k && ss[j].Erases(sector, all, i)
  }

  // Updating the section now leaves its data in flash.
  ghost predicate Programmable(mem: seq<byte>, sector: nat, s: Section, all: int)
    requires 0 < sector
  {
    InFlash(SectionStep(mem, sector, s, all), s)
  }

  // Every section of the list can be programmed when its turn comes.
  ghost predicate Feasible(mem: seq<byte>, sector: nat, ss: seq<Section>, all: int)
    requires 0 < sector
  {
    forall k :: 0 <= k < |ss| ==> Programmable(Updated(mem, sector, ss[..k], all), sector, ss[k], all)
  }

  ghost predicate AllFit(ss: seq<Section>, page: nat, sector: nat, size: nat, all: int)
    requires 0 < page && 0 < sector
  {
    forall k :: 0 <= k < |ss| ==> ss[k].Fits(page, sector, size, all)
  }

  // ----- What the final memory means -----

  lemma StepByte(mem: seq<byte>, sector: nat, s: Section, all: int, i: nat)
    requires 0 < sector && i < |mem|
    ensures var blank := if s.Erases(sector, all, i) then 0xFF else mem[i];
            SectionStep(mem, sector, s, all)[i] == if s.Writes(i) then blank & s.Data()[i - s.address] else blank
  {
  }

  lemma ByByte(mem: seq<byte>, s: Section)
    requires s.HasContent() ==> s.address + |s.Data()| <= |mem|
    requires forall i: nat :: i < |mem| && s.Writes(i) ==> mem[i] == s.Data()[i - s.address]
    ensures InFlash(mem, s)
  {
    if s.HasContent() {
      forall i | 0 <= i < |s.Data()| ensures mem[s.address..s.address + |s.Data()|][i] == s.Data()[i] {
        assert s.Writes(s.address + i);
      }
      assert mem[s.address..s.address + |s.Data()|] == s.Data();
    }
  }

  // One byte after updating separate sections that were blank in time.
  lemma {:induction false} UpdatedByte(mem: seq<byte>, sector: nat, ss: seq<Section>, all: int, i: nat)
    requires 0 < sector && i < |mem|
    requires Separate(ss, sector, all) && Prepared(mem, ss, sector, all)
    ensures forall k :: 0 <= k < |ss| && ss[k].Writes(i) ==>
              Updated(mem, sector, ss, all)[i] == ss[k].Data()[i - ss[k].address]
    ensures (forall k :: 0 <= k < |ss| ==> !ss[k].Writes(i)) ==>
              Updated(mem, sector, ss, all)[i] ==
              if exists k :: 0 <= k < |ss| && ss[k].Erases(sector, all, i) then 0xFF else mem[i]
    decreases |ss|
  {
    hide SectionStep, Section.Writes, Section.Erases;
    if ss != [] {
      var n := |ss| - 1;
      var before := ss[..n];
      assert forall k :: 0 <= k < n ==> before[k] == ss[k];
      UpdatedByte(mem, sector, before, all, i);
      StepByte(Updated(mem, sector, before, all), sector, ss[n], all, i);
    }
  }

  // After updating separate sections whose bytes were blank in time: every section is in flash, a byte that no
  // section writes is as before, or blank if some section erased it.
  lemma SectionsInFlash(mem: seq<byte>, sector: nat, ss: seq<Section>, all: int)
    requires 0 < sector
    requires forall k :: 0 <= k < |ss| && ss[k].HasContent() ==> ss[k].address + |ss[k].Data()| <= |mem|
    requires Separate(ss, sector, all) && Prepared(mem, ss, sector, all)
    ensures forall k :: 0 <= k < |ss| ==> InFlash(Updated(mem, sector, ss, all), ss[k])
    ensures forall i :: 0 <= i < |mem| && (forall k :: 0 <= k < |ss| ==> !ss[k].Writes(i)) ==>
              Updated(mem, sector, ss, all)[i] ==
              if exists k :: 0 <= k < |ss| && ss[k].Erases(sector, all, i) then 0xFF else mem[i]
  {
    forall i: nat | i < |mem|
      ensures forall k :: 0 <= k < |ss| && ss[k].Writes(i) ==>
                Updated(mem, sector, ss, all)[i] == ss[k].Data()[i - ss[k].address]
      ensures (forall k :: 0 <= k < |ss| ==> !ss[k].Writes(i)) ==>
                Updated(mem, sector, ss, all)[i] ==
                if exists k :: 0 <= k < |ss| && ss[k].Erases(sector, all, i) then 0xFF else mem[i]
    {
      UpdatedByte(mem, sector, ss, all, i);
    }
    forall k | 0 <= k < |ss| ensures InFlash(Updated(mem, sector, ss, all), ss[k]) {
      ByByte(Updated(mem, sector, ss, all), ss[k]);
    }
  }

  // A list that is separate and prepared can be programmed section by section.
  lemma PreparedIsFeasible(mem: seq<byte>, sector: nat, ss: seq<Section>, all: int)
    requires 0 < sector
    requires forall k :: 0 <= k < |ss| && ss[k].HasContent() ==> ss[k].address + |ss[k].Data()| <= |mem|
    requires Separate(ss, sector, all) && Prepared(mem, ss, sector, all)
    ensures Feasible(mem, sector, ss, all)
  {
    forall k | 0 <= k < |ss|
      ensures Programmable(Updated(mem, sector, ss[..k], all), sector, ss[k], all)
    {
      PrefixInFlash(mem, sector, ss, all, k);
    }
  }

  lemma PrefixPrepared(mem: seq<byte>, sector: nat, ss: seq<Section>, all: int, n: nat)
    requires 0 < sector && n <= |ss| && Separate(ss, sector, all) && Prepared(mem, ss, sector, all)
    ensures Separate(ss[..n], sector, all) && Prepared(mem, ss[..n], sector, all)
  {
    hide Section.Writes, Section.Erases;
    assert forall j :: 0 <= j < n ==> ss[..n][j] == ss[j];
  }

  lemma PrefixInFlash(mem: seq<byte>, sector: nat, ss: seq<Section>, all: int, k: nat)
    requires 0 < sector && k < |ss|
    requires ss[k].HasContent() ==> ss[k].address + |ss[k].Data()| <= |mem|
    requires Separate(ss, sector, all) && Prepared(mem, ss, sector, all)
    ensures Programmable(Updated(mem, sector, ss[..k], all), sector, ss[k], all)
  {
    var upTo := ss[..k + 1];
    assert upTo[..k] == ss[..k] && upTo[k] == ss[k];
    PrefixPrepared(mem, sector, ss, all, k + 1);
    hide Separate, Prepared;
    forall i: nat | i < |mem| && ss[k].Writes(i)
      ensures Updated(mem, sector, upTo, all)[i] == ss[k].Data()[i - ss[k].address]
    {
      UpdatedByte(mem, sector, upTo, all, i);
    }
    ByByte(Updated(mem, sector, upTo, all), ss[k]);
  }

  // Pairwise disjoint sections inside the chip: the image holds each at its address and ones everywhere else.
  lemma ImageOfDisjointSections(size: nat, sector: nat, ss: seq<Section>)
    requires 0 < sector
    requires forall k :: 0 <= k < |ss| && ss[k].HasContent() ==> ss[k].address + |ss[k].Data()| <= size
    requires forall j, k, i :: 0 <= j < k < |ss| && ss[j].Writes(i) ==> !ss[k].Writes(i)
    ensures forall k :: 0 <= k < |ss| ==> InFlash(Image(size, sector, ss), ss[k])
    ensures forall i :: 0 <= i < size && (forall k :: 0 <= k < |ss| ==> !ss[k].Writes(i)) ==>
              Image(size, sector, ss)[i] == 0xFF
  {
    SectionsInFlash(Blank(size), sector, ss, BOOT_UPDATE_ALL);
  }

  // One section byte by byte. A section with a positive length and content is erased, unless the whole chip was or it
  // asks for no sector, from the start of the sector that holds its address on, and written; another changes nothing.
  lemma StepMeaning(mem: seq<byte>, sector: nat, s: Section, all: int, i: nat)
    requires 0 < sector && i < |mem|
    ensures var m := SectionStep(mem, sector, s, all)[i];
            if s.byteCnt <= 0 || s.content == None then m == mem[i]
            else
              var lo, data := s.address - s.address % sector, s.content.value;
              var erased := all != 1 && 0 < s.erasePageCnt && lo <= i < lo + sector * s.erasePageCnt;
              if s.address <= i < s.address + |data|
              then m == (if erased then 0xFF else mem[i]) & data[i - s.address]
              else m == if erased then 0xFF else mem[i]
  {
    StepByte(mem, sector, s, all, i);
  }

  // ----- Writing over the remains of an earlier pass -----

  predicate IsAnd(r: byte, a: byte, b: byte) {
    r == a & b
  }

  lemma AndGroup(abc: byte, ab: byte, a: byte, b: byte, bc: byte, c: byte)
    requires IsAnd(ab, a, b) && IsAnd(abc, ab, c) && IsAnd(bc, b, c)
    ensures IsAnd(abc, a, bc)
  {
  }

  // Without erasing, one section is ANDed onto the byte or leaves it alone.
  lemma StepAnd(mem: seq<byte>, sector: nat, s: Section, i: nat)
    requires 0 < sector && i < |mem|
    ensures var m := SectionStep(mem, sector, s, BOOT_UPDATE_ALL);
            if s.Writes(i) then IsAnd(m[i], mem[i], s.Data()[i - s.address]) else m[i] == mem[i]
  {
  }

  // Without erasing, an update only ANDs: it is the AND of the start with the image.
  lemma {:induction false} UpdateIsAnd(mem: seq<byte>, sector: nat, ss: seq<Section>, i: nat)
    requires 0 < sector && i < |mem|
    ensures IsAnd(Updated(mem, sector, ss, BOOT_UPDATE_ALL)[i], mem[i], Image(|mem|, sector, ss)[i])
    decreases |ss|
  {
    if ss == [] {
      assert Image(|mem|, sector, ss)[i] == 0xFF;
    } else {
      hide SectionStep, IsAnd;
      var s, before := ss[|ss| - 1], ss[..|ss| - 1];
      UpdateIsAnd(mem, sector, before, i);
      var u, image := Updated(mem, sector, before, BOOT_UPDATE_ALL), Image(|mem|, sector, before);
      StepAnd(u, sector, s, i);
      StepAnd(image, sector, s, i);
      var u', image' := SectionStep(u, sector, s, BOOT_UPDATE_ALL), SectionStep(image, sector, s, BOOT_UPDATE_ALL);
      if s.Writes(i) {
        AndGroup(u'[i], u[i], mem[i], image[i], image'[i], s.Data()[i - s.address]);
      }
    }
  }

  // A pass without erasing ends as the image exactly on a chip whose cells still hold every bit of the image.
  lemma CompletesIffAbove(mem: seq<byte>, sector: nat, ss: seq<Section>)
    requires 0 < sector
    ensures Updated(mem, sector, ss, BOOT_UPDATE_ALL) == Image(|mem|, sector, ss)
            <==> Above(mem, Image(|mem|, sector, ss))
  {
    var u, goal := Updated(mem, sector, ss, BOOT_UPDATE_ALL), Image(|mem|, sector, ss);
    hide Updated, Image;
    forall i: nat | i < |mem| ensures u[i] == mem[i] & goal[i] {
      UpdateIsAnd(mem, sector, ss, i);
    }
    if u == goal {
      forall i | 0 <= i < |mem| ensures mem[i] & goal[i] == goal[i] {
        assert u[i] == goal[i];
      }
    }
  }

  // The image has no bit that one of its sections wants cleared.
  lemma {:induction false} ImageBelowSection(size: nat, sector: nat, ss: seq<Section>, k: nat, i: nat)
    requires 0 < sector && k < |ss| && i < size && ss[k].Writes(i)
    ensures Image(size, sector, ss)[i] & ss[k].Data()[i - ss[k].address] == Image(size, sector, ss)[i]
    decreases |ss|
  {
    var n := |ss| - 1;
    if k < n {
      assert ss[..n][k] == ss[k];
      ImageBelowSection(size, sector, ss[..n], k, i);
      if ss[n].Writes(i) {
        AndSwap(Image(size, sector, ss[..n])[i], ss[n].Data()[i - ss[n].address], ss[k].Data()[i - ss[k].address]);
      }
    }
  }

  predicate IsSame(a: byte, b: byte) {
    a == b
  }

  lemma AndAgain(a: byte, b: byte, d: byte, goal: byte, r: byte, t: byte)
    requires b == a || b == a & d
    requires goal & d == goal && IsAnd(r, a, goal) && IsAnd(t, b, goal)
    ensures IsSame(r, t)
  {
  }

  // Whatever part of a section of the list is written, the memory that a pass over the list leaves stays the same.
  lemma PartKeepsUpdate(m0: seq<byte>, m1: seq<byte>, sector: nat, ss: seq<Section>, k: nat)
    requires 0 < sector && k < |ss| && ss[k].HasContent()
    requires PartlyWritten(m0, m1, ss[k].address, ss[k].Data())
    ensures Updated(m1, sector, ss, BOOT_UPDATE_ALL) == Updated(m0, sector, ss, BOOT_UPDATE_ALL)
  {
    var goal, u0, u1 := Image(|m0|, sector, ss), Updated(m0, sector, ss, BOOT_UPDATE_ALL),
                        Updated(m1, sector, ss, BOOT_UPDATE_ALL);
    hide Updated, Image, IsAnd;
    forall i: nat | i < |m0| ensures IsSame(u0[i], u1[i]) {
      UpdateIsAnd(m0, sector, ss, i);
      UpdateIsAnd(m1, sector, ss, i);
      if m1[i] != m0[i] {
        ImageBelowSection(|m0|, sector, ss, k, i);
        AndAgain(m0[i], m1[i], ss[k].Data()[i - ss[k].address], goal[i], u0[i], u1[i]);
      }
    }
  }

  // ----- Passes whose erase was lost -----

  lemma AndAbsorbs(u: byte, v: byte, d: byte, r: byte)
    requires u & v == u && IsAnd(r, u, d)
    ensures r & v == r
  {
  }

  // Later sections only clear bits of what the earlier ones left.
  lemma {:induction false} LaterClears(mem: seq<byte>, sector: nat, ss: seq<Section>, j: nat, i: nat)
    requires 0 < sector && j <= |ss| && i < |mem|
    ensures Updated(mem, sector, ss, BOOT_UPDATE_ALL)[i] & Updated(mem, sector, ss[..j], BOOT_UPDATE_ALL)[i] ==
            Updated(mem, sector, ss, BOOT_UPDATE_ALL)[i]
    decreases |ss|
  {
    if j == |ss| {
      assert ss[..j] == ss;
    } else {
      var n := |ss| - 1;
      var u := Updated(mem, sector, ss[..n], BOOT_UPDATE_ALL);
      assert ss[..n][..j] == ss[..j];
      LaterClears(mem, sector, ss[..n], j, i);
      StepAnd(u, sector, ss[n], i);
      if ss[n].Writes(i) {
        AndAbsorbs(u[i], Updated(mem, sector, ss[..j], BOOT_UPDATE_ALL)[i], ss[n].Data()[i - ss[n].address],
                   Updated(mem, sector, ss, BOOT_UPDATE_ALL)[i]);
      }
    }
  }

  lemma Sandwiched(x: byte, d: byte, p: byte)
    requires IsAnd(p, x, d) && d & p == d
    ensures p == d
  {
  }

  // If the memory after a pass holds every section, each could be verified as soon as it was written.
  lemma HeldIsFeasible(mem: seq<byte>, sector: nat, ss: seq<Section>)
    requires 0 < sector
    requires forall k :: 0 <= k < |ss| ==> InFlash(Updated(mem, sector, ss, BOOT_UPDATE_ALL), ss[k])
    ensures Feasible(mem, sector, ss, BOOT_UPDATE_ALL)
  {
    hide InFlash, IsAnd, Updated;
    forall k | 0 <= k < |ss|
      ensures Programmable(Updated(mem, sector, ss[..k], BOOT_UPDATE_ALL), sector, ss[k], BOOT_UPDATE_ALL)
    {
      HeldIsProgrammable(mem, sector, ss, k);
    }
  }

  lemma HeldIsProgrammable(mem: seq<byte>, sector: nat, ss: seq<Section>, k: nat)
    requires 0 < sector && k < |ss|
    requires InFlash(Updated(mem, sector, ss, BOOT_UPDATE_ALL), ss[k])
    ensures Programmable(Updated(mem, sector, ss[..k], BOOT_UPDATE_ALL), sector, ss[k], BOOT_UPDATE_ALL)
  {
    var s, u, last := ss[k], Updated(mem, sector, ss[..k], BOOT_UPDATE_ALL), Updated(mem, sector, ss, BOOT_UPDATE_ALL);
    var upTo := SectionStep(u, sector, s, BOOT_UPDATE_ALL);
    assert ss[..k + 1][..k] == ss[..k] && ss[..k + 1][k] == s;
    assert upTo == Updated(mem, sector, ss[..k + 1], BOOT_UPDATE_ALL);
    forall i: nat | i < |mem| && s.Writes(i) ensures upTo[i] == s.Data()[i - s.address] {
      assert last[s.address..s.address + |s.Data()|][i - s.address] == last[i];
      LaterClears(mem, sector, ss, k + 1, i);
      StepAnd(u, sector, s, i);
      Sandwiched(u[i], s.Data()[i - s.address], upTo[i]);
    }
    ByByte(upTo, s);
  }

  // A byte that the sections from j on do not write is as those before left it.
  lemma {:induction false} Undisturbed(mem: seq<byte>, sector: nat, ss: seq<Section>, j: nat, i: nat)
    requires 0 < sector && j <= |ss| && i < |mem|
    requires forall k :: j <= k < |ss| ==> !ss[k].Writes(i)
    ensures Updated(mem, sector, ss, BOOT_UPDATE_ALL)[i] == Updated(mem, sector, ss[..j], BOOT_UPDATE_ALL)[i]
    decreases |ss|
  {
    if j == |ss| {
      assert ss[..j] == ss;
    } else {
      var n := |ss| - 1;
      assert ss[..n][..j] == ss[..j];
      Undisturbed(mem, sector, ss[..n], j, i);
      StepAnd(Updated(mem, sector, ss[..n], BOOT_UPDATE_ALL), sector, ss[n], i);
    }
  }

  lemma NotWrittenLater(ss: seq<Section>, sector: nat, all: int, k: nat, i: int)
    requires 0 < sector && k < |ss| && Separate(ss, sector, all) && ss[k].Writes(i)
    ensures forall j :: k < j < |ss| ==> !ss[j].Writes(i)
  {
    hide Section.Writes, Section.Erases;
  }

  lemma FeasibleIsHeld(mem: seq<byte>, sector: nat, ss: seq<Section>, k: nat)
    requires 0 < sector && k < |ss|
    requires Separate(ss, sector, BOOT_UPDATE_ALL) && Feasible(mem, sector, ss, BOOT_UPDATE_ALL)
    ensures InFlash(Updated(mem, sector, ss, BOOT_UPDATE_ALL), ss[k])
  {
    var s, upTo := ss[k], Updated(mem, sector, ss[..k + 1], BOOT_UPDATE_ALL);
    assert InFlash(upTo, s) by {
      assert Programmable(Updated(mem, sector, ss[..k], BOOT_UPDATE_ALL), sector, s, BOOT_UPDATE_ALL);
      assert ss[..k + 1][..k] == ss[..k] && ss[..k + 1][k] == s;
    }
    hide Updated, Feasible, Programmable, SectionStep, Separate;
    forall i: nat | i < |mem| && s.Writes(i)
      ensures Updated(mem, sector, ss, BOOT_UPDATE_ALL)[i] == s.Data()[i - s.address]
    {
      assert upTo[s.address..s.address + |s.Data()|][i - s.address] == upTo[i];
      NotWrittenLater(ss, sector, BOOT_UPDATE_ALL, k, i);
      Undisturbed(mem, sector, ss, k + 1, i);
    }
    ByByte(Updated(mem, sector, ss, BOOT_UPDATE_ALL), s);
  }

  // A pass over a chip that was not erased gets every section verified exactly if, for separate sections, the AND of
  // the old cells with the image holds them all.
  lemma UnerasedPassFeasibleIff(mem: seq<byte>, sector: nat, ss: seq<Section>)
    requires 0 < sector && Separate(ss, sector, BOOT_UPDATE_ALL)
    ensures Feasible(mem, sector, ss, BOOT_UPDATE_ALL) <==>
              forall k :: 0 <= k < |ss| ==> InFlash(Updated(mem, sector, ss, BOOT_UPDATE_ALL), ss[k])
  {
    hide Updated, InFlash, Separate, Feasible;
    if Feasible(mem, sector, ss, BOOT_UPDATE_ALL) {
      forall k | 0 <= k < |ss| ensures InFlash(Updated(mem, sector, ss, BOOT_UPDATE_ALL), ss[k]) {
        FeasibleIsHeld(mem, sector, ss, k);
      }
    } else if forall k :: 0 <= k < |ss| ==> InFlash(Updated(mem, sector, ss, BOOT_UPDATE_ALL), ss[k]) {
      HeldIsFeasible(mem, sector, ss);
    }
  }

  // ----- Updates that lost their first command -----

  // The memory that a complete update of one section leaves if its first command is lost: the erase of the first sector
  // of its run or, for a section that erases nothing, the first page program.
  function StepAfterLoss(mem: seq<byte>, page: nat, sector: nat, s: Section, all: int): (m: seq<byte>)
    requires 0 < page && 0 < sector
    ensures |m| == |mem|
  {
    if !s.HasContent() then mem
    else if s.ErasesFirst(all) then
      AndWrite(RangeErased(mem, s.EraseStart(sector) + sector, s.EraseEnd(sector)), s.address, s.Data())
    else
      AndWrite(mem, s.address + s.FirstProgram(page), s.Data()[s.FirstProgram(page)..])
  }

  function StepFrom(mem: seq<byte>, page: nat, sector: nat, s: Section, all: int, lost: bool): (m: seq<byte>)
    requires 0 < page && 0 < sector
    ensures |m| == |mem|
  {
    if lost then StepAfterLoss(mem, page, sector, s, all) else SectionStep(mem, sector, s, all)
  }

  ghost predicate AnyContent(ss: seq<Section>) {
    exists k :: 0 <= k < |ss| && ss[k].HasContent()
  }

  // The loss strikes the first section that has content.
  ghost predicate LostAt(ss: seq<Section>, k: nat, lost: bool)
    requires k <= |ss|
  {
    lost && !AnyContent(ss[..k])
  }

  // The memory that updating the sections of a list leaves in chip f, by whether the first command was lost.
  ghost function UpdatedFrom(f: Flash, ss: seq<Section>, all: int, lost: bool): (m: seq<byte>)
    requires 0 < f.page && 0 < f.sector
    ensures |m| == |f.mem|
    decreases |ss|
  {
    if ss == [] then f.mem
    else
      var n := |ss| - 1;
      StepFrom(UpdatedFrom(f, ss[..n], all, lost), f.page, f.sector, ss[n], all, LostAt(ss, n, lost))
  }

  // Every section of the list is in flash as soon as it was written.
  ghost predicate FeasibleFrom(f: Flash, ss: seq<Section>, all: int, lost: bool)
    requires 0 < f.page && 0 < f.sector
  {
    forall k :: 0 <= k < |ss| ==> InFlash(UpdatedFrom(f, ss[..k + 1], all, lost), ss[k])
  }

  lemma {:induction false} NothingLost(f: Flash, ss: seq<Section>, all: int)
    requires 0 < f.page && 0 < f.sector
    ensures UpdatedFrom(f, ss, all, false) == Updated(f.mem, f.sector, ss, all)
    decreases |ss|
  {
    if ss != [] {
      NothingLost(f, ss[..|ss| - 1], all);
    }
  }

  lemma NothingLostFeasible(f: Flash, ss: seq<Section>, all: int)
    requires 0 < f.page && 0 < f.sector
    ensures FeasibleFrom(f, ss, all, false) <==> Feasible(f.mem, f.sector, ss, all)
  {
    hide SectionStep, InFlash;
    forall k | 0 <= k < |ss|
      ensures UpdatedFrom(f, ss[..k + 1], all, false) ==
              SectionStep(Updated(f.mem, f.sector, ss[..k], all), f.sector, ss[k], all)
    {
      NothingLost(f, ss[..k + 1], all);
      assert ss[..k + 1][..k] == ss[..k] && ss[..k + 1][k] == ss[k];
    }
    if Feasible(f.mem, f.sector, ss, all) {
      forall k | 0 <= k < |ss| ensures InFlash(UpdatedFrom(f, ss[..k + 1], all, false), ss[k]) {
        assert Programmable(Updated(f.mem, f.sector, ss[..k], all), f.sector, ss[k], all);
      }
    }
  }

  // One section further.
  lemma UpdatedFromStep(f: Flash, ss: seq<Section>, all: int, lost: bool, k: nat)
    requires 0 < f.page && 0 < f.sector && k < |ss|
    ensures UpdatedFrom(f, ss[..k + 1], all, lost) ==
            StepFrom(UpdatedFrom(f, ss[..k], all, lost), f.page, f.sector, ss[k], all, LostAt(ss, k, lost))
  {
    assert ss[..k + 1][..k] == ss[..k] && ss[..k + 1][k] == ss[k];
  }

  // Before the first section with content nothing happens, lost or not.
  lemma {:induction false} NoContentYet(f: Flash, ss: seq<Section>, all: int, lost: bool)
    requires 0 < f.page && 0 < f.sector && !AnyContent(ss)
    ensures UpdatedFrom(f, ss, all, lost) == f.mem
    decreases |ss|
  {
    if ss != [] {
      var n := |ss| - 1;
      assert forall k :: 0 <= k < n ==> ss[..n][k] == ss[k];
      assert !ss[n].HasContent();
      NoContentYet(f, ss[..n], all, lost);
    }
  }

  lemma ContentStep(ss: seq<Section>, k: nat)
    requires k < |ss|
    ensures AnyContent(ss[..k + 1]) <==> AnyContent(ss[..k]) || ss[k].HasContent()
  {
    if AnyContent(ss[..k + 1]) && !ss[k].HasContent() {
      var j :| 0 <= j <= k && ss[..k + 1][j].HasContent();
      assert ss[..k][j].HasContent();
    }
    if AnyContent(ss[..k]) {
      var j :| 0 <= j < k && ss[..k][j].HasContent();
      assert ss[..k + 1][j].HasContent();
    }
    if ss[k].HasContent() {
      assert ss[..k + 1][k].HasContent();
    }
  }

  lemma ContentInPrefix(ss: seq<Section>, k: nat)
    requires k <= |ss|
    ensures AnyContent(ss[..k]) ==> AnyContent(ss)
  {
    if AnyContent(ss[..k]) {
      var j :| 0 <= j < k && ss[..k][j].HasContent();
      assert ss[j].HasContent();
    }
  }

  // ----- Exactly when such an update can succeed -----

  // The byte of the section's data for address i.
  function DataAt(s: Section, i: int): byte {
    if s.Writes(i) then s.Data()[i - s.address] else 0
  }

  // The cell has every bit that the data needs.
  predicate HasBit(cell: byte, d: byte) {
    cell & d == d
  }

  // What writing d, or not, makes of a cell.
  predicate Stored(v: byte, cell: byte, d: byte, writes: bool) {
    v == if writes then cell & d else cell
  }

  predicate ErasesAfter(s: Section, sector: nat, all: int, i: int, lost: bool)
    requires 0 < sector
  {
    s.Erases(sector, all, i) && (lost ==> s.EraseStart(sector) + sector <= i)
  }

  predicate WritesAfter(s: Section, page: nat, all: int, i: int, lost: bool)
    requires 0 < page
  {
    s.Writes(i) && (lost && !s.ErasesFirst(all) ==> s.address + s.FirstProgram(page) <= i)
  }

  // A section before m erases the byte.
  ghost predicate ErasedBefore(f: Flash, ss: seq<Section>, all: int, lost: bool, m: nat, i: int)
    requires 0 < f.sector && m <= |ss|
  {
    exists j :: 0 <= j < m && ErasesAfter(ss[j], f.sector, all, i, LostAt(ss, j, lost))
  }

  // The k-th section finds what it needs at byte i: the bits of its data, which an erase of its own or of an earlier
  // section gives as well, or the very byte if the page program that should write it is the command lost.
  ghost predicate Supported(f: Flash, ss: seq<Section>, all: int, lost: bool, k: nat, i: int)
    requires 0 < f.page && 0 < f.sector && k < |ss| && 0 <= i < |f.mem| && ss[k].Writes(i)
  {
    var d := DataAt(ss[k], i);
    if WritesAfter(ss[k], f.page, all, i, LostAt(ss, k, lost)) then
      HasBit(f.mem[i], d) || ErasedBefore(f, ss, all, lost, k + 1, i)
    else
      f.mem[i] == d
  }

  lemma StepFromByte(mem: seq<byte>, page: nat, sector: nat, s: Section, all: int, lost: bool, i: nat)
    requires 0 < page && 0 < sector && i < |mem|
    ensures var blank := if ErasesAfter(s, sector, all, i, lost) then 0xFF else mem[i];
            Stored(StepFrom(mem, page, sector, s, all, lost)[i], blank, DataAt(s, i),
                   WritesAfter(s, page, all, i, lost))
  {
    if !lost {
      StepByte(mem, sector, s, all, i);
    } else if s.HasContent() {
      if s.ErasesFirst(all) {
        LostEraseByte(mem, page, sector, s, all, i);
      } else {
        LostProgramByte(mem, page, sector, s, all, i);
      }
    }
  }

  lemma AndWriteByte(mem: seq<byte>, st: nat, data: seq<byte>, i: nat, d: byte, writes: bool)
    requires i < |mem| && writes == (st <= i < st + |data|) && (writes ==> d == data[i - st])
    ensures Stored(AndWrite(mem, st, data)[i], mem[i], d, writes)
  {
  }

  lemma LostEraseByte(mem: seq<byte>, page: nat, sector: nat, s: Section, all: int, i: nat)
    requires 0 < page && 0 < sector && i < |mem| && s.HasContent() && s.ErasesFirst(all)
    ensures var blank := if ErasesAfter(s, sector, all, i, true) then 0xFF else mem[i];
            Stored(StepAfterLoss(mem, page, sector, s, all)[i], blank, DataAt(s, i), WritesAfter(s, page, all, i, true))
  {
    hide ChunkLength, Section.EraseStart, Section.EraseEnd, AndWrite, Stored;
    AndWriteByte(RangeErased(mem, s.EraseStart(sector) + sector, s.EraseEnd(sector)), s.address, s.Data(), i,
                 DataAt(s, i), s.Writes(i));
  }

  lemma LostProgramByte(mem: seq<byte>, page: nat, sector: nat, s: Section, all: int, i: nat)
    requires 0 < page && 0 < sector && i < |mem| && s.HasContent() && !s.ErasesFirst(all)
    ensures !ErasesAfter(s, sector, all, i, true)
    ensures Stored(StepAfterLoss(mem, page, sector, s, all)[i], mem[i], DataAt(s, i),
                   WritesAfter(s, page, all, i, true))
  {
    hide ChunkLength, AndWrite, Stored;
    var n, writes := s.FirstProgram(page), WritesAfter(s, page, all, i, true);
    if writes {
      assert s.Data()[n..][i - (s.address + n)] == s.Data()[i - s.address];
    }
    AndWriteByte(mem, s.address + n, s.Data()[n..], i, DataAt(s, i), writes);
  }

  // Before its turn, a byte of the k-th of separate sections is as before or blank.
  lemma {:induction false} BeforeItsTurn(f: Flash, ss: seq<Section>, all: int, lost: bool, m: nat, k: nat, i: nat)
    requires 0 < f.page && 0 < f.sector && m <= k < |ss| && i < |f.mem|
    requires Separate(ss, f.sector, all) && ss[k].Writes(i)
    ensures UpdatedFrom(f, ss[..m], all, lost)[i] == if ErasedBefore(f, ss, all, lost, m, i) then 0xFF else f.mem[i]
    decreases m
  {
    hide DataAt, StepFrom, Section.Writes, Section.Erases, ErasesAfter, LostAt;
    if m > 0 {
      BeforeItsTurn(f, ss, all, lost, m - 1, k, i);
      UpdatedFromStep(f, ss, all, lost, m - 1);
      NotWrittenEarlier(ss, f, all, m - 1, k, i, LostAt(ss, m - 1, lost));
      StepFromByte(UpdatedFrom(f, ss[..m - 1], all, lost), f.page, f.sector, ss[m - 1], all,
                   LostAt(ss, m - 1, lost), i);
    }
  }

  lemma NotWrittenEarlier(ss: seq<Section>, f: Flash, all: int, j: nat, k: nat, i: int, lost: bool)
    requires 0 < f.page && 0 < f.sector && j < k < |ss| && Separate(ss, f.sector, all) && ss[k].Writes(i)
    ensures !WritesAfter(ss[j], f.page, all, i, lost)
  {
    hide Section.Writes, Section.Erases;
  }

  // The first section with content erases nothing before the byte if its own first program is what is lost.
  lemma NoEraseBefore(f: Flash, ss: seq<Section>, all: int, k: nat, i: int)
    requires 0 < f.page && 0 < f.sector && k < |ss| && LostAt(ss, k, true) && !ss[k].ErasesFirst(all)
    ensures !ErasedBefore(f, ss, all, true, k + 1, i)
  {
    forall j | 0 <= j < k ensures !ss[j].HasContent() {
      assert ss[..k][j] == ss[j];
    }
  }

  // One byte of a section right after it was written: on what was blank or as before, its data.
  lemma AtItsTurn(f: Flash, ss: seq<Section>, all: int, lost: bool, k: nat, i: nat)
    requires 0 < f.page && 0 < f.sector && k < |ss| && i < |f.mem|
    requires Separate(ss, f.sector, all) && ss[k].Writes(i)
    ensures Stored(UpdatedFrom(f, ss[..k + 1], all, lost)[i],
                   if ErasedBefore(f, ss, all, lost, k + 1, i) then 0xFF else f.mem[i],
                   DataAt(ss[k], i), WritesAfter(ss[k], f.page, all, i, LostAt(ss, k, lost)))
  {
    hide DataAt, Stored, StepFrom, UpdatedFrom, Section.Writes, Section.Erases, ErasesAfter, WritesAfter, ErasedBefore,
         LostAt, Separate;
    BeforeItsTurn(f, ss, all, lost, k, k, i);
    UpdatedFromStep(f, ss, all, lost, k);
    StepFromByte(UpdatedFrom(f, ss[..k], all, lost), f.page, f.sector, ss[k], all, LostAt(ss, k, lost), i);
    ErasedStep(f, ss, all, lost, k, i);
  }

  // It is the section's data exactly if it was supported.
  lemma HeldByteIff(f: Flash, ss: seq<Section>, all: int, lost: bool, k: nat, i: nat)
    requires 0 < f.page && 0 < f.sector && k < |ss| && i < |f.mem|
    requires Separate(ss, f.sector, all) && ss[k].Writes(i)
    ensures UpdatedFrom(f, ss[..k + 1], all, lost)[i] == DataAt(ss[k], i) <==> Supported(f, ss, all, lost, k, i)
  {
    hide DataAt, HasBit, Stored, UpdatedFrom, Section.Writes, WritesAfter, ErasedBefore, LostAt, Separate;
    AtItsTurn(f, ss, all, lost, k, i);
    var erased := ErasedBefore(f, ss, all, lost, k + 1, i);
    var writes := WritesAfter(ss[k], f.page, all, i, LostAt(ss, k, lost));
    if !writes {
      NotWrittenIsLost(ss[k], f.page, all, i, LostAt(ss, k, lost));
      LostIsLost(ss, k, lost);
      NoEraseBefore(f, ss, all, k, i);
    }
    FinalByte(UpdatedFrom(f, ss[..k + 1], all, lost)[i], f.mem[i], DataAt(ss[k], i), erased, writes);
  }

  lemma NotWrittenIsLost(s: Section, page: nat, all: int, i: int, lost: bool)
    requires 0 < page && s.Writes(i) && !WritesAfter(s, page, all, i, lost)
    ensures lost && !s.ErasesFirst(all)
  {
  }

  lemma LostIsLost(ss: seq<Section>, k: nat, lost: bool)
    requires k <= |ss| && LostAt(ss, k, lost)
    ensures lost
  {
  }

  lemma FinalByte(v: byte, cell: byte, d: byte, erased: bool, writes: bool)
    requires Stored(v, if erased then 0xFF else cell, d, writes)
    requires !writes ==> !erased
    ensures v == d <==> if writes then HasBit(cell, d) || erased else cell == d
  {
  }

  lemma ErasedStep(f: Flash, ss: seq<Section>, all: int, lost: bool, m: nat, i: int)
    requires 0 < f.sector && m < |ss|
    ensures ErasedBefore(f, ss, all, lost, m + 1, i) <==>
              ErasedBefore(f, ss, all, lost, m, i) || ErasesAfter(ss[m], f.sector, all, i, LostAt(ss, m, lost))
  {
    hide ErasesAfter, LostAt;
  }

  // An update of separate sections verifies each of them exactly if every byte they write is supported: from any chip,
  // whether or not the first command was lost.
  lemma FeasibleFromIff(f: Flash, ss: seq<Section>, all: int, lost: bool)
    requires 0 < f.page && 0 < f.sector && Separate(ss, f.sector, all)
    requires forall k :: 0 <= k < |ss| && ss[k].HasContent() ==> ss[k].address + |ss[k].Data()| <= |f.mem|
    ensures FeasibleFrom(f, ss, all, lost) <==>
              forall k, i: nat :: 0 <= k < |ss| && i < |f.mem| && ss[k].Writes(i) ==> Supported(f, ss, all, lost, k, i)
  {
    hide UpdatedFrom, Supported, Separate;
    forall k, i: nat | 0 <= k < |ss| && i < |f.mem| && ss[k].Writes(i)
      ensures UpdatedFrom(f, ss[..k + 1], all, lost)[i] == DataAt(ss[k], i) <==> Supported(f, ss, all, lost, k, i)
    {
      HeldByteIff(f, ss, all, lost, k, i);
    }
    forall k | 0 <= k < |ss|
      ensures InFlash(UpdatedFrom(f, ss[..k + 1], all, lost), ss[k]) <==>
                forall i: nat :: i < |f.mem| && ss[k].Writes(i) ==> Supported(f, ss, all, lost, k, i)
    {
      ByByteIff(UpdatedFrom(f, ss[..k + 1], all, lost), ss[k]);
    }
  }

  lemma ByByteIff(mem: seq<byte>, s: Section)
    requires s.HasContent() ==> s.address + |s.Data()| <= |mem|
    ensures InFlash(mem, s) <==> forall i: nat :: i < |mem| && s.Writes(i) ==> mem[i] == DataAt(s, i)
  {
    if InFlash(mem, s) {
      forall i: nat | i < |mem| && s.Writes(i) ensures mem[i] == DataAt(s, i) {
        assert mem[s.address..s.address + |s.Data()|][i - s.address] == mem[i];
      }
    } else if forall i: nat :: i < |mem| && s.Writes(i) ==> mem[i] == DataAt(s, i) {
      ByByte(mem, s);
    }
  }

  // The byte is right after a section that met the loss. One that erases needs the old cell to have its bits unless a
  // sector behind the first of its run holds the byte; one that does not erase needs the old cell to be its byte in the
  // first page program, and to have its bits in the rest.
  predicate SurvivesLoss(mem: seq<byte>, page: nat, sector: nat, s: Section, all: int, i: int)
    requires 0 < page && 0 < sector && 0 <= i < |mem|
  {
    if s.ErasesFirst(all) then
      HasBit(mem[i], DataAt(s, i)) || s.EraseStart(sector) + sector <= i < s.EraseEnd(sector)
    else if i < s.address + s.FirstProgram(page) then mem[i] == DataAt(s, i)
    else HasBit(mem[i], DataAt(s, i))
  }

  lemma ByteAfterLossIff(mem: seq<byte>, page: nat, sector: nat, s: Section, all: int, i: nat)
    requires 0 < page && 0 < sector && s.HasContent() && i < |mem| && s.Writes(i)
    ensures StepAfterLoss(mem, page, sector, s, all)[i] == DataAt(s, i)
            <==> SurvivesLoss(mem, page, sector, s, all, i)
  {
    hide DataAt, HasBit, Stored, StepAfterLoss, ChunkLength, Section.FirstProgram, Section.Data;
    if s.ErasesFirst(all) {
      LostEraseByte(mem, page, sector, s, all, i);
    } else {
      LostProgramByte(mem, page, sector, s, all, i);
    }
    FinalByte(StepAfterLoss(mem, page, sector, s, all)[i], mem[i], DataAt(s, i),
              ErasesAfter(s, sector, all, i, true), WritesAfter(s, page, all, i, true));
  }

  // The section that meets the loss is verified exactly if all its bytes survive it.
  lemma SectionAfterLossIff(mem: seq<byte>, page: nat, sector: nat, s: Section, all: int)
    requires 0 < page && 0 < sector && s.HasContent() && s.address + |s.Data()| <= |mem|
    ensures InFlash(StepAfterLoss(mem, page, sector, s, all), s) <==>
              forall i: nat :: i < |mem| && s.Writes(i) ==> SurvivesLoss(mem, page, sector, s, all, i)
  {
    ByByteIff(StepAfterLoss(mem, page, sector, s, all), s);
    hide StepAfterLoss, InFlash, DataAt, SurvivesLoss, Section.Writes;
    forall i: nat | i < |mem| && s.Writes(i)
      ensures StepAfterLoss(mem, page, sector, s, all)[i] == DataAt(s, i)
              <==> SurvivesLoss(mem, page, sector, s, all, i)
    {
      ByteAfterLossIff(mem, page, sector, s, all, i);
    }
  }
}
