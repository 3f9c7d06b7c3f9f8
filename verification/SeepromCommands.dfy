/** Single flash commands and the short sequences built from them. */
module SeepromCommands {
  import opened Bytes
  import opened Nor
  import opened Framing
  import opened Trace
  import opened SeepromBus

  const BUSY_POLLS := 5000

  method Wren(dev: Device) returns (err: int)
    requires dev.Valid()
    modifies dev`flash, dev`reply, dev`trace, dev`faults
    ensures dev.Valid() && dev.OnlyListened() && dev.Accounted(err)
    ensures dev.trace == old(dev.trace) + [Sent(WriteEnable, err >= 0)]
    ensures Carried(old(dev.flash), WriteEnable, dev.flash, err >= 0)
  {
    hide Carried, Guarded, Effects, Unlocked, ChipErases, Flash.Execute, Flash.Status;
    ghost var f := dev.flash;
    Transmitted(WriteEnable);
    Append(dev.trace, Sent(WriteEnable, true));
    Append(dev.trace, Sent(WriteEnable, false));
    err := dev.GeneralUcmdWrite(Encode(WriteEnable));
    EnableLeaves(f, dev.flash, err >= 0);
  }

  // A command that needs the latch, sent right after the latch was acknowledged.
  method SendLatched(dev: Device, c: Command) returns (err: int)
    requires dev.Valid() && c.NeedsLatch() && Allowed(dev.trace, c) && Transmissible(c)
    modifies dev`flash, dev`reply, dev`trace, dev`faults
    ensures dev.Valid() && dev.Accounted(err)
    ensures dev.trace == old(dev.trace) + [Sent(c, err >= 0)]
    ensures SentOnce(old(dev.trace), dev.trace, c, err)
    ensures c.Modifies() ==> Unlocked(dev.trace) == old(Unlocked(dev.trace))
    ensures Carried(old(dev.flash), c, dev.flash, err >= 0)
  {
    Transmitted(c);
    Append(dev.trace, Sent(c, true));
    Append(dev.trace, Sent(c, false));
    err := dev.GeneralUcmdWrite(Encode(c));
  }

  // A command that asks for n bytes.
  method Ask(dev: Device, c: Command, n: nat) returns (err: int, data: seq<byte>)
    requires dev.Valid() && (c.ReadStatus? || c.ReadId? || c.Read?) && Transmissible(c) && n < 0x1_0000
    modifies dev`flash, dev`reply, dev`trace, dev`faults
    ensures dev.Valid() && dev.OnlyRead() && dev.Accounted(err)
    ensures exists acked :: dev.trace == old(dev.trace) + [Sent(c, acked)] && (err == 0 ==> acked)
    ensures |data| == n
    ensures err == 0 && (c.ReadStatus? || !dev.flash.busy) ==> data == dev.flash.Reply(c, n)
  {
    hide Carried, Guarded, Effects, Unlocked, ChipErases, Flash.Execute, Flash.Reply, Flash.Status, Encode, Decode;
    ghost var f := dev.flash;
    Transmitted(c);
    Append(dev.trace, Sent(c, true));
    Append(dev.trace, Sent(c, false));
    err, data := dev.GeneralUcmdRead(Encode(c), n);
    ReadLeaves(f, dev.flash, c, false);
  }

  // Status register: the first of the two bytes read.
  method Rdsr(dev: Device) returns (err: int, status: byte)
    requires dev.Valid()
    modifies dev`flash, dev`reply, dev`trace, dev`faults
    ensures dev.Valid() && dev.OnlyRead() && dev.Accounted(err)
    ensures |dev.trace| == |old(dev.trace)| + 1 && dev.trace[|old(dev.trace)|].cmd == ReadStatus
    ensures err == 0 ==> dev.trace[|old(dev.trace)|].acked
    ensures err == 0 ==> status == dev.flash.Status()
  {
    var data;
    err, data := Ask(dev, ReadStatus, 2);
    status := data[0];
  }

  // Acknowledged status reads, but for the last one if the call failed.
  ghost predicate StatusReads(t: seq<Event>, err: int) {
    && 1 <= |t| <= 5000
    && (forall j :: 0 <= j < |t| ==> t[j].cmd == ReadStatus)
    && (forall j :: 0 <= j < |t| && (err == 0 || j < |t| - 1) ==> t[j].acked)
  }

  // Polls until the chip is neither busy nor latched, 5000 times at most, and reports success even when it never was.
  method WaitBsyclr(dev: Device) returns (err: int)
    requires dev.Valid()
    modifies dev`flash, dev`reply, dev`trace, dev`faults, dev`overrun, dev`stuck
    ensures dev.Valid() && dev.OnlyRead() && dev.Accounted(err)
    ensures StatusReads(dev.trace[|old(dev.trace)|..], err)
    ensures err == 0 ==> |dev.trace| == |old(dev.trace)| + 5000 || dev.flash.Status() & (BUSY_BIT | LATCH_BIT) == 0
    ensures dev.overrun && !old(dev.overrun) ==> err == 0 && |dev.trace| == |old(dev.trace)| + 5000
    ensures err == 0 && !dev.overrun ==> !dev.flash.busy
  {
    hide Guarded, Effects, Unlocked, ChipErases;
    err := 0;
    ghost var t0 := dev.trace;
    var n := 0;
    while n < BUSY_POLLS
      invariant 0 <= n <= BUSY_POLLS
      invariant dev.Valid() && dev.OnlyRead() && dev.Accounted(err) && err == 0
      invariant dev.overrun == old(dev.overrun) && dev.stuck == old(dev.stuck)
      invariant |dev.trace| == |t0| + n && forall j :: |t0| <= j < |t0| + n ==> dev.trace[j] == Sent(ReadStatus, true)
    {
      var status;
      err, status := Rdsr(dev);
      if err != 0 {
        break;
      }
      if status & (BUSY_BIT | LATCH_BIT) == 0 {
        break;
      }
      n := n + 1;
    }
    if err == 0 && dev.flash.busy && !dev.overrun {
      BusyStatus(dev.flash);
      dev.overrun, dev.stuck := true, |t0|;
    }
  }

  lemma BusyStatus(f: Flash)
    requires f.busy
    ensures f.Status() & (BUSY_BIT | LATCH_BIT) != 0
  {
  }

  // ----- Erasing and programming -----

  // Write-enable and, if that was acknowledged, a modifying command.
  method EnableAndSend(dev: Device, c: Command) returns (err: int)
    requires dev.Valid() && Unlocked(dev.trace)
    requires c.Modifies() && Transmissible(c)
    modifies dev`flash, dev`reply, dev`trace, dev`faults
    ensures dev.Valid() && dev.Kept() && dev.Accounted(err)
    ensures SentOnce(old(dev.trace), dev.trace, c, err)
    ensures EndsTrying(dev.trace, c)
    ensures dev.flash.mem == old(dev.flash.mem) || dev.flash.mem == old(dev.flash).After(c)
    ensures old(dev.flash.Ready()) && (err == 0 || dev.flash.busy) ==> dev.flash.mem == old(dev.flash).After(c)
  {
    hide Effects, Unlocked, Guarded, PolledOut;
    ghost var f := dev.flash;
    err := Wren(dev);
    if err == 0 {
      ghost var g := dev.flash;
      err := SendLatched(dev, c);
      EnabledCommand(f, g, dev.flash, c, err >= 0);
    }
  }

  // At most one latched command was added, c itself; on success it was added and acknowledged.
  ghost predicate SentOnce(t: seq<Event>, u: seq<Event>, c: Command, err: int) {
    && (Effects(u) == Effects(t) + [Sent(c, true)]
        || (err < 0 && Effects(u) == Effects(t) + [Sent(c, false)])
        || (err < 0 && Effects(u) == Effects(t)))
    && ChipErases(t) <= ChipErases(u) <= ChipErases(t) + 1
    && (c.ChipErase? && err == 0 ==> ChipErases(u) == ChipErases(t) + 1)
    && (!c.ChipErase? ==> ChipErases(u) == ChipErases(t))
  }

  // Write-enable, a modifying command, and the wait for its end: the sequence shared by erasing a sector,
  // erasing the chip and programming a page.
  method EnableAndRun(dev: Device, c: Command) returns (err: int)
    requires dev.Valid() && Unlocked(dev.trace)
    requires c.Modifies() && Transmissible(c)
    modifies dev`flash, dev`reply, dev`trace, dev`faults, dev`overrun, dev`stuck
    ensures dev.Valid() && dev.Kept() && dev.Accounted(err)
    ensures SentOnce(old(dev.trace), dev.trace, c, err)
    ensures EndsTrying(dev.trace, c)
    ensures dev.flash.mem == old(dev.flash.mem) || dev.flash.mem == old(dev.flash).After(c)
    ensures old(dev.flash.Ready()) && (err == 0 || dev.flash.busy) ==> dev.flash.mem == old(dev.flash).After(c)
    ensures err == 0 && !dev.overrun ==> !dev.flash.busy
  {
    hide Effects, Unlocked, Guarded, PolledOut, ChipErases, EndsTrying, Flash.After;
    err := EnableAndSend(dev, c);
    if err == 0 {
      ghost var t := dev.trace;
      err := WaitBsyclr(dev);
      Extension(t, dev.trace);
      ReadsKeepTrying(t, dev.trace[|t|..], c);
    }
  }

  method EraseSector(dev: Device, addr: nat) returns (err: int)
    requires dev.Valid() && Unlocked(dev.trace)
    requires addr < |dev.flash.mem|
    modifies dev`flash, dev`reply, dev`trace, dev`faults, dev`overrun, dev`stuck
    ensures dev.Valid() && dev.Kept() && dev.Accounted(err)
    ensures SentOnce(old(dev.trace), dev.trace, SectorErase(addr), err)
    ensures dev.flash.mem == old(dev.flash.mem)
            || dev.flash.mem == SectorErased(old(dev.flash.mem), dev.flash.sector, addr)
    ensures old(dev.flash.Ready()) && (err == 0 || dev.flash.busy) ==>
              dev.flash.mem == SectorErased(old(dev.flash.mem), dev.flash.sector, addr)
    ensures err == 0 && !dev.overrun ==> !dev.flash.busy
  {
    err := EnableAndRun(dev, SectorErase(addr));
  }

  method EraseChip(dev: Device) returns (err: int)
    requires dev.Valid() && Unlocked(dev.trace)
    modifies dev`flash, dev`reply, dev`trace, dev`faults, dev`overrun, dev`stuck
    ensures dev.Valid() && dev.Kept() && dev.Accounted(err)
    ensures SentOnce(old(dev.trace), dev.trace, ChipErase, err) && EndsTrying(dev.trace, ChipErase)
    ensures dev.flash.mem == old(dev.flash.mem) || dev.flash.mem == Blank(|dev.flash.mem|)
    ensures old(dev.flash.Ready()) && (err == 0 || dev.flash.busy) ==> dev.flash.mem == Blank(|dev.flash.mem|)
    ensures err == 0 && !dev.overrun ==> !dev.flash.busy
  {
    err := EnableAndRun(dev, ChipErase);
  }

  // Write-enable, page program and wait: the step that the page writer repeats.
  method WriteChunk(dev: Device, addr: nat, data: seq<byte>) returns (err: int)
    requires dev.Valid() && Unlocked(dev.trace)
    requires addr + |data| <= |dev.flash.mem| && addr < |dev.flash.mem|
    requires |data| <= 256 && addr % dev.flash.page + |data| <= dev.flash.page
    modifies dev`flash, dev`reply, dev`trace, dev`faults, dev`overrun, dev`stuck
    ensures dev.Valid() && dev.Kept() && dev.Accounted(err)
    ensures SentOnce(old(dev.trace), dev.trace, PageProgram(addr, data), err)
    ensures dev.flash.mem == old(dev.flash.mem) || dev.flash.mem == AndWrite(old(dev.flash.mem), addr, data)
    ensures old(dev.flash.Ready()) && (err == 0 || dev.flash.busy) ==>
              dev.flash.mem == AndWrite(old(dev.flash.mem), addr, data)
    ensures err == 0 && !dev.overrun ==> !dev.flash.busy
  {
    hide Effects, Unlocked, Guarded, PolledOut, ChipErases, SentOnce, EndsTrying, Flash.After, AndWrite;
    ProgramAfter(dev.flash, addr, data);
    err := EnableAndRun(dev, PageProgram(addr, data));
  }

  lemma ProgramAfter(f: Flash, addr: nat, data: seq<byte>)
    requires f.Valid() && addr < |f.mem| && addr % f.page + |data| <= f.page
    ensures f.After(PageProgram(addr, data)) == AndWrite(f.mem, addr, data)
  {
    ProgramIsAndWrite(f.mem, f.page, addr, data);
  }

  // ----- Write protection -----

  // The transfers of writing the status register and reading it back, as far as they get.
  ghost predicate StatusTransfers(t: seq<Event>, status: byte, err: int) {
    || (err < 0 && t == [Sent(WriteEnable, false)])
    || (err < 0 && t == [Sent(WriteEnable, true), Sent(WriteStatus(status), false)])
    || (|t| == 3 && t[0] == Sent(WriteEnable, true) && t[1] == Sent(WriteStatus(status), true)
        && t[2].cmd == ReadStatus)
  }

  lemma StatusHistory(t: seq<Event>, u: seq<Event>, status: byte, err: int)
    requires StatusTransfers(u, status, err)
    ensures err == 0 ==> Unlocked(t + u) == (status == UNLOCK_STATUS)
    ensures ChipErases(t + u) == ChipErases(t)
    ensures status == LOCK_STATUS ==> EndsReprotecting(t + u)
  {
    if |u| == 3 {
      assert (t + u)[..|t + u| - 1] == t + u[..2];
      assert (t + u[..2])[|t| + 1] == u[1];
      assert u == [u[0], u[1], u[2]];
    }
  }

  method EnableAndWriteStatus(dev: Device, status: byte) returns (err: int)
    requires dev.Valid()
    modifies dev`flash, dev`reply, dev`trace, dev`faults
    ensures dev.Valid() && dev.Accounted(err)
    ensures dev.flash.SameChip(old(dev.flash)) && dev.flash.mem == old(dev.flash.mem)
    ensures old(dev.trace) <= dev.trace
    ensures var t := dev.trace[|old(dev.trace)|..];
            && t == (if err == 0 then [Sent(WriteEnable, true), Sent(WriteStatus(status), true)]
                     else if |t| == 1 then [Sent(WriteEnable, false)]
                     else [Sent(WriteEnable, true), Sent(WriteStatus(status), false)])
            && Reaches(old(dev.flash), t, dev.flash)
    ensures err == 0 && old(!dev.flash.busy) ==> dev.flash.prot == (status & PROTECT_BITS != 0)
  {
    hide Effects, Unlocked, Guarded, PolledOut, Carried, Reaches;
    ghost var f, t := dev.flash, dev.trace;
    err := Wren(dev);
    ghost var e := Sent(WriteEnable, err >= 0);
    ghost var g := dev.flash;
    FirstReached(f, g, e);
    Added(t, [e]);
    if err == 0 {
      err := SendLatched(dev, WriteStatus(status));
      ghost var e2 := Sent(WriteStatus(status), err >= 0);
      StatusWriteKeepsCells(g, dev.flash, status, err >= 0);
      ReachesOne(f, [e], g, e2, dev.flash);
      assert dev.trace == t + ([e] + [e2]);
      Added(t, [e] + [e2]);
      if err == 0 {
        EnabledStatusWrite(f, g, dev.flash, status);
      }
    }
  }

  lemma Added(t: seq<Event>, u: seq<Event>)
    ensures (t + u)[|t|..] == u
  {
  }

  lemma FirstReached(f: Flash, g: Flash, e: Event)
    requires f.Valid() && Carried(f, e.cmd, g, e.acked)
    ensures Reaches(f, [e], g)
  {
    ReachesOne(f, [], f, e, g);
    assert [] + [e] == [e];
  }

  method WriteStatusRegister(dev: Device, status: byte) returns (err: int, read: byte)
    requires dev.Valid()
    modifies dev`flash, dev`reply, dev`trace, dev`faults
    ensures dev.Valid() && dev.Accounted(err)
    ensures dev.flash.SameChip(old(dev.flash)) && dev.flash.mem == old(dev.flash.mem)
    ensures old(dev.trace) < dev.trace
    ensures StatusTransfers(dev.trace[|old(dev.trace)|..], status, err)
    ensures Reaches(old(dev.flash), dev.trace[|old(dev.trace)|..], dev.flash)
    ensures err == 0 ==> read == dev.flash.Status()
    ensures err == 0 && old(!dev.flash.busy) ==> dev.flash.prot == (status & PROTECT_BITS != 0)
  {
    hide Effects, Unlocked, Guarded, PolledOut, Carried, Reaches, EndsReprotecting;
    ghost var f, t0 := dev.flash, dev.trace;
    read := 0;
    err := EnableAndWriteStatus(dev, status);
    if err == 0 {
      ghost var g, t1 := dev.flash, dev.trace;
      err, read := Rdsr(dev);
      ghost var e := dev.trace[|t1|];
      ReadCarries(g, dev.flash, ReadStatus, e.acked);
      ReachesOne(f, t1[|t0|..], g, e, dev.flash);
      assert dev.trace[|t0|..] == t1[|t0|..] + [e];
    }
  }

  // Sends the status that removes the protection. The status that is read back is returned here; the driver throws it
  // away. What a failed call leaves is one of the states that its transfers can lead to.
  method DisableProtect(dev: Device) returns (err: int, status: byte)
    requires dev.Valid()
    modifies dev`flash, dev`reply, dev`trace, dev`faults
    ensures dev.Valid() && dev.Accounted(err)
    ensures dev.flash.SameChip(old(dev.flash)) && dev.flash.mem == old(dev.flash.mem)
    ensures old(dev.trace) < dev.trace && ChipErases(dev.trace) == old(ChipErases(dev.trace))
    ensures StatusTransfers(dev.trace[|old(dev.trace)|..], UNLOCK_STATUS, err)
    ensures Reaches(old(dev.flash), dev.trace[|old(dev.trace)|..], dev.flash)
    ensures err == 0 ==> Unlocked(dev.trace) && status == dev.flash.Status()
    ensures err == 0 && old(!dev.flash.busy) ==> !dev.flash.prot
  {
    hide Effects, Guarded, Reaches, StatusTransfers, ChipErases;
    err, status := WriteStatusRegister(dev, UNLOCK_STATUS);
    Extension(old(dev.trace), dev.trace);
    StatusHistory(old(dev.trace), dev.trace[|old(dev.trace)|..], UNLOCK_STATUS, err);
  }

  method EnableProtect(dev: Device) returns (err: int)
    requires dev.Valid()
    modifies dev`flash, dev`reply, dev`trace, dev`faults
    ensures dev.Valid() && dev.Accounted(err)
    ensures dev.flash.SameChip(old(dev.flash)) && dev.flash.mem == old(dev.flash.mem)
    ensures old(dev.trace) < dev.trace && ChipErases(dev.trace) == old(ChipErases(dev.trace))
    ensures StatusTransfers(dev.trace[|old(dev.trace)|..], LOCK_STATUS, err)
    ensures EndsReprotecting(dev.trace)
    ensures err == 0 && old(!dev.flash.busy) ==> dev.flash.prot
  {
    hide Effects, Guarded, Reaches, StatusTransfers, ChipErases;
    var status;
    err, status := WriteStatusRegister(dev, LOCK_STATUS);
    Extension(old(dev.trace), dev.trace);
    StatusHistory(old(dev.trace), dev.trace[|old(dev.trace)|..], LOCK_STATUS, err);
  }

  lemma Extension(t: seq<Event>, u: seq<Event>)
    requires t <= u
    ensures u == t + u[|t|..]
  {
  }
}
