/** The touch device as the flash driver sees it: the chip behind the bus, the geometry it was recognised by, and
    the I2C transfers, any of which may fail at any time. */
module SeepromBus {
  import opened Bytes
  import opened Nor
  import opened Framing
  import opened Trace
  import opened Versions

  // What a transfer of command c leaves of a chip in state f. An unacknowledged transfer may have had no effect.
  ghost predicate Carried(f: Flash, c: Command, g: Flash, acked: bool)
    requires f.Valid()
  {
    || g == f.Settle(true).Execute(c)
    || g == f.Settle(false).Execute(c)
    || (!acked && (g == f || g == f.Settle(true)))
  }

  // A write-enable followed by a modifying command: the memory is as before or as the command leaves it, and a
  // ready chip that acknowledged both, or is now busy, has obeyed.
  lemma EnabledCommand(f: Flash, g: Flash, h: Flash, c: Command, acked: bool)
    requires f.Valid() && g.Valid() && c.Modifies()
    requires Carried(f, WriteEnable, g, true) && Carried(g, c, h, acked)
    ensures h.mem == f.mem || h.mem == f.After(c)
    ensures h.prot == f.prot
    ensures f.Ready() && (acked || h.busy) ==> h.mem == f.After(c)
  {
  }

  lemma StatusWriteKeepsCells(g: Flash, h: Flash, status: byte, acked: bool)
    requires g.Valid() && Carried(g, WriteStatus(status), h, acked)
    ensures h.mem == g.mem && h.SameChip(g)
  {
  }

  lemma EnabledStatusWrite(f: Flash, g: Flash, h: Flash, status: byte)
    requires f.Valid() && g.Valid()
    requires Carried(f, WriteEnable, g, true) && Carried(g, WriteStatus(status), h, true)
    ensures h.mem == f.mem
    ensures !f.busy ==> h.prot == (status & PROTECT_BITS != 0)
  {
  }

  // The states a chip may be in after a run of transfers.
  ghost predicate Reaches(f: Flash, t: seq<Event>, h: Flash)
    requires f.Valid()
  {
    if t == [] then h == f
    else
      var n := |t| - 1;
      exists g: Flash :: g.Valid() && Reaches(f, t[..n], g) && Carried(g, t[n].cmd, h, t[n].acked)
  }

  lemma ReachesOne(f: Flash, t: seq<Event>, g: Flash, e: Event, h: Flash)
    requires f.Valid() && g.Valid() && Reaches(f, t, g) && Carried(g, e.cmd, h, e.acked)
    ensures Reaches(f, t + [e], h)
  {
    assert (t + [e])[..|t|] == t;
  }

  lemma LastTransfer(f: Flash, t: seq<Event>, h: Flash) returns (g: Flash)
    requires f.Valid() && t != [] && Reaches(f, t, h)
    ensures var n := |t| - 1;
            g.Valid() && Reaches(f, t[..n], g) && Carried(g, t[n].cmd, h, t[n].acked)
  {
    var n := |t| - 1;
    g :| g.Valid() && Reaches(f, t[..n], g) && Carried(g, t[n].cmd, h, t[n].acked);
  }

  lemma {:induction false} ReachesJoin(f: Flash, t: seq<Event>, g: Flash, u: seq<Event>, h: Flash)
    requires f.Valid() && g.Valid() && Reaches(f, t, g) && Reaches(g, u, h)
    ensures Reaches(f, t + u, h)
    decreases |u|, 1
  {
    if u == [] {
      assert t + u == t;
    } else {
      JoinLast(f, t, g, u, h);
    }
  }

  lemma {:induction false} JoinLast(f: Flash, t: seq<Event>, g: Flash, u: seq<Event>, h: Flash)
    requires f.Valid() && g.Valid() && u != [] && Reaches(f, t, g) && Reaches(g, u, h)
    ensures Reaches(f, t + u, h)
    decreases |u|, 0
  {
    hide Carried, Flash.Valid, Reaches;
    var n := |u| - 1;
    var m := LastTransfer(g, u, h);
    ReachesJoin(f, t, g, u[..n], m);
    ReachesOne(f, t + u[..n], m, u[n], h);
    LastSplit(t, u);
  }

  lemma LastSplit(t: seq<Event>, u: seq<Event>)
    requires u != []
    ensures t + u == t + u[..|u| - 1] + [u[|u| - 1]]
  {
  }

  lemma ReadLeaves(f: Flash, h: Flash, c: Command, acked: bool)
    requires f.Valid() && (c.ReadStatus? || c.ReadId? || c.Read?) && Carried(f, c, h, acked)
    ensures h == f || h == f.Settle(true)
  {
  }

  lemma EnableLeaves(f: Flash, h: Flash, acked: bool)
    requires f.Valid() && Carried(f, WriteEnable, h, acked)
    ensures h.SameChip(f) && h.prot == f.prot && h.mem == f.mem && (!f.busy ==> !h.busy)
  {
  }

  // A transfer that latches nothing and changes nothing but that the chip may become idle.
  lemma ReadCarries(f: Flash, h: Flash, c: Command, acked: bool)
    requires f.Valid() && (c.ReadStatus? || c.ReadId? || c.Read?)
    requires h == f || h == f.Settle(true)
    ensures Carried(f, c, h, acked)
  {
    assert f.Settle(false) == f;
  }

  class Device {
    // The chip at the far end of the bus, and what the controller holds for the next receive.
    var flash: Flash
    var reply: seq<byte>

    // Geometry chosen by the chip identifier.
    var readMax: nat
    var writeMax: nat
    var alignSector: nat

    // Version words last read from the flash, and the error flags of the boot status and of the touch controller.
    var fwVersion: Version
    var bootFlag: bv16
    var checksumFlag: bv16

    // Bookkeeping: transfers sent and failed transfers; and since the last update began, whether some wait gave up on a
    // busy chip, where in the history that wait began, and whether some read-back was accepted although it was begun
    // while the chip was busy.
    ghost var trace: seq<Event>
    ghost var faults: nat
    ghost var overrun: bool
    ghost var stuck: nat
    ghost var blind: bool

    ghost predicate Valid()
      reads this
    {
      && flash.Valid()
      && Guarded(trace)
      && (overrun ==> PolledOut(trace, stuck))
      && 0 < readMax <= 1024
      && 0 < writeMax <= 256
      && 0 < alignSector
    }

    // The geometry variables describe the chip.
    ghost predicate Matched()
      reads this
    {
      writeMax == flash.page && alignSector == flash.sector
    }

    // What no operation between the two status writes of an update changes.
    twostate predicate Kept()
      reads this
    {
      && flash.SameChip(old(flash)) && flash.prot == old(flash.prot)
      && (old(overrun) ==> overrun && stuck == old(stuck))
      && (overrun && !old(overrun) ==> |old(trace)| <= stuck)
      && old(faults) <= faults
      && old(trace) <= trace
      && Unlocked(trace) == old(Unlocked(trace))
    }

    // Only a wait that gave up can lead to a read-back of a busy chip.
    twostate predicate Watched()
      reads this
    {
      (old(blind) ==> blind) && (blind && !old(blind) ==> overrun)
    }

    // Kept, and no cell and no latched command either.
    twostate predicate OnlyRead()
      reads this
    {
      && Kept()
      && (flash == old(flash) || flash == old(flash).Settle(true))
      && Effects(trace) == old(Effects(trace))
      && ChipErases(trace) == old(ChipErases(trace))
    }

    // Kept, and no latched command was sent.
    twostate predicate OnlyListened()
      reads this
    {
      && Kept()
      && flash.mem == old(flash.mem)
      && (!old(flash.busy) ==> !flash.busy)
      && Effects(trace) == old(Effects(trace))
      && ChipErases(trace) == old(ChipErases(trace))
    }

    // A failed call stopped at its first failed transfer, a successful one had none.
    twostate predicate Accounted(err: int)
      reads this
    {
      && err <= 0
      && (err == 0 ==> faults == old(faults))
      && (err < 0 ==> faults == old(faults) + 1)
    }

    constructor (chip: Flash)
      requires chip.Valid()
      ensures Valid() && flash == chip && trace == [] && faults == 0 && !overrun && !blind
    {
      flash := chip;
      reply := [];
      readMax, writeMax, alignSector := 1024, 256, 4096;
      fwVersion, bootFlag, checksumFlag := Version(0, 0, 0, 0, 0, 0), 0, 0;
      trace, faults, overrun, stuck, blind := [], 0, false, 0, false;
    }

    // ----- Bus -----

    // The controller passes a command to the chip; one that is not acknowledged may be lost on the way.
    method Deliver(c: Command, n: nat, acked: bool)
      requires flash.Valid()
      modifies this`flash, this`reply
      ensures Carried(old(flash), c, flash, acked)
      ensures acked ==> |reply| == n
      ensures acked && (c.ReadStatus? || !flash.busy) ==> reply == flash.Reply(c, n)
    {
      var delivered: bool := *;
      var done: bool := *;
      var junk: seq<byte> := *;
      flash := flash.Settle(done);
      if acked || delivered {
        flash := flash.Execute(c);
        reply := if c.ReadStatus? || !flash.busy then flash.Reply(c, n)
                 else if |junk| == n then junk
                 else seq(n, _ => 0);
      }
    }

    ghost method Record(c: Command, acked: bool)
      requires Guarded(trace) && Allowed(trace, c)
      requires overrun ==> PolledOut(trace, stuck)
      modifies this`trace, this`faults
      ensures Guarded(trace)
      ensures overrun ==> PolledOut(trace, stuck)
      ensures trace == old(trace) + [Sent(c, acked)]
      ensures faults == old(faults) + (if acked then 0 else 1)
    {
      Append(trace, Sent(c, acked));
      if overrun {
        PolledOutStays(trace, trace + [Sent(c, acked)], stuck);
      }
      trace := trace + [Sent(c, acked)];
      faults := if acked then faults else faults + 1;
    }

    method MasterSend(frame: seq<byte>) returns (err: int)
      requires Valid()
      requires Unframe(frame).Some?
      requires Allowed(trace, Decode(Unframe(frame).value.payload))
      modifies this`flash, this`reply, this`trace, this`faults
      ensures Valid()
      ensures var t := Unframe(frame).value;
              var c := Decode(t.payload);
              && Carried(old(flash), c, flash, err >= 0)
              && trace == old(trace) + [Sent(c, err >= 0)]
              && (err >= 0 ==> |reply| == t.readLength)
              && (err >= 0 && (c.ReadStatus? || !flash.busy) ==> reply == flash.Reply(c, t.readLength))
      ensures faults == old(faults) + (if err < 0 then 1 else 0)
    {
      var t := Unframe(frame).value;
      var acked: bool := *;
      var code: int := *;
      Deliver(Decode(t.payload), t.readLength, acked);
      Record(Decode(t.payload), acked);
      err := if acked then |frame| else if code < 0 then code else -1;
    }

    method MasterRecv(n: nat) returns (err: int, data: seq<byte>)
      requires Valid()
      modifies this`faults
      ensures Valid()
      ensures err >= 0 && |reply| == n ==> data == reply
      ensures |data| == n
      ensures faults == old(faults) + (if err < 0 then 1 else 0)
    {
      var acked: bool := *;
      var code: int := *;
      data := if |reply| == n then reply else seq(n, _ => 0);
      if acked {
        err := n;
      } else {
        err := if code < 0 then code else -1;
        faults := faults + 1;
      }
    }

    // ----- Micro-commands -----

    method GeneralUcmdWrite(payload: seq<byte>) returns (err: int)
      requires Valid()
      requires HEADER_SIZE + |payload| <= FRAME_SIZE
      requires Allowed(trace, Decode(payload))
      modifies this`flash, this`reply, this`trace, this`faults
      ensures Valid()
      ensures Carried(old(flash), Decode(payload), flash, err >= 0)
      ensures trace == old(trace) + [Sent(Decode(payload), err >= 0)]
      ensures err <= 0
      ensures faults == old(faults) + (if err < 0 then 1 else 0)
    {
      var frame, n := BuildFrame(payload, 0);
      UnframeFrame(payload, 0);
      err := MasterSend(frame[..n]);
      if err < 0 {
        return err;
      }
      return 0;
    }

    method GeneralUcmdRead(payload: seq<byte>, n: nat) returns (err: int, data: seq<byte>)
      requires Valid()
      requires HEADER_SIZE + |payload| <= FRAME_SIZE && n < 0x1_0000
      requires !Decode(payload).NeedsLatch()
      modifies this`flash, this`reply, this`trace, this`faults
      ensures Valid()
      ensures Carried(old(flash), Decode(payload), flash, false)
      ensures old(trace) <= trace
      ensures exists acked :: trace == old(trace) + [Sent(Decode(payload), acked)] && (err == 0 ==> acked)
      ensures err <= 0 && faults == old(faults) + (if err < 0 then 1 else 0)
      ensures |data| == n
      ensures err == 0 && (Decode(payload).ReadStatus? || !flash.busy) ==> data == flash.Reply(Decode(payload), n)
    {
      data := seq(n, _ => 0);
      var frame, length := BuildFrame(payload, n);
      UnframeFrame(payload, n);
      err := MasterSend(frame[..length]);
      if err < 0 {
        return err, data;
      }
      err, data := MasterRecv(n);
      if err < 0 {
        return err, data;
      }
      return 0, data;
    }
  }
}
