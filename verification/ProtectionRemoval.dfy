/** Updates that give up before or while they remove the write protection, and what they leave. */
module ProtectionRemoval {
  import opened Bytes
  import opened Nor
  import opened Trace
  import opened SeepromBus
  import opened SeepromCommands

  // The transfers of an update that gave up before or while it removed the protection.
  ghost predicate StoppedEarly(t: seq<Event>) {
    t != [] && t[0].cmd == ReadId && (|t| == 1 || StatusTransfers(t[1..], UNLOCK_STATUS, -1))
  }

  // The unlocking status write was put on the bus.
  ghost predicate UnlockOnBus(t: seq<Event>) {
    exists i :: 0 <= i < |t| && t[i].cmd == WriteStatus(UNLOCK_STATUS)
  }

  lemma IdentifierRead(f: Flash, t0: seq<Event>, t1: seq<Event>, g: Flash)
    requires f.Valid() && g.Valid() && (g == f || g == f.Settle(true))
    requires t0 < t1 && |t1| == |t0| + 1 && t1[|t0|].cmd == ReadId
    ensures StoppedEarly(t1[|t0|..]) && Reaches(f, t1[|t0|..], g)
  {
    var e := t1[|t0|];
    ReadCarries(f, g, ReadId, e.acked);
    FirstReached(f, g, e);
    assert t1[|t0|..] == [e];
  }

  lemma RemovalFailed(f: Flash, g: Flash, h: Flash, t0: seq<Event>, t1: seq<Event>, t2: seq<Event>, err: int)
    requires f.Valid() && g.Valid() && t0 < t1 < t2 && |t1| == |t0| + 1 && t1[|t0|].cmd == ReadId
    requires Reaches(f, t1[|t0|..], g) && Reaches(g, t2[|t1|..], h)
    requires err < 0 && StatusTransfers(t2[|t1|..], UNLOCK_STATUS, err)
    ensures StoppedEarly(t2[|t0|..]) && Reaches(f, t2[|t0|..], h)
  {
    assert t2[|t0|..] == t1[|t0|..] + t2[|t1|..];
    ReachesJoin(f, t1[|t0|..], g, t2[|t1|..], h);
    assert t2[|t0|..][1..] == t2[|t1|..];
  }

  // An idle protected chip can be left unprotected by an update that stopped early exactly if the unlocking status
  // write was put on the bus, which is when that write or the status read behind it failed. Nothing after it tries to
  // set the protection again.
  lemma LeftUnprotectedIff(f: Flash, t: seq<Event>)
    requires f.Valid() && !f.busy && f.prot && StoppedEarly(t)
    ensures (exists h: Flash :: Reaches(f, t, h) && !h.prot) <==> UnlockOnBus(t)
    ensures UnlockOnBus(t) ==> !EndsReprotecting(t)
  {
    if |t| == 1 {
      OneTransfer(f, t);
    } else {
      var u := t[1..];
      assert t == [t[0]] + u;
      if |u| == 1 {
        assert t == [t[0], Sent(WriteEnable, false)];
        TwoTransfers(f, t);
      } else {
        assert t[2] == u[1];
        UnlockedWitness(f, t);
      }
    }
  }

  lemma OneTransfer(f: Flash, t: seq<Event>)
    requires f.Valid() && |t| == 1 && !t[0].cmd.WriteStatus?
    ensures forall h: Flash :: Reaches(f, t, h) ==> h.prot == f.prot && h.Valid()
  {
    assert t[..0] == [];
  }

  lemma TwoTransfers(f: Flash, t: seq<Event>)
    requires f.Valid() && |t| == 2 && !t[0].cmd.WriteStatus? && !t[0].cmd.Modifies()
    requires !t[1].cmd.WriteStatus? && !t[1].cmd.Modifies()
    ensures forall h: Flash :: Reaches(f, t, h) ==> h.prot == f.prot
  {
    OneTransfer(f, t[..1]);
  }

  // The chip obeys the unlocking status write, acknowledged or not.
  lemma UnlockReaches(f: Flash, t: seq<Event>)
    requires f.Valid() && !f.busy && |t| == 3
    requires t[0].cmd == ReadId && t[1] == Sent(WriteEnable, true) && t[2].cmd == WriteStatus(UNLOCK_STATUS)
    ensures var h := f.Execute(WriteEnable).Execute(WriteStatus(UNLOCK_STATUS));
            Reaches(f, t, h) && h.Valid() && !h.prot
  {
    var g := f.Execute(WriteEnable);
    var h := g.Execute(WriteStatus(UNLOCK_STATUS));
    assert f.Settle(true) == f && g.Settle(true) == g;
    hide Reaches;
    FirstReached(f, f, t[0]);
    ReachesOne(f, t[..1], f, t[1], g);
    assert t[..1] == [t[0]] && t[..2] == t[..1] + [t[1]] && t == t[..2] + [t[2]];
    ReachesOne(f, t[..2], g, t[2], h);
  }

  // And it stays so if the status read behind it fails.
  lemma UnlockedWitness(f: Flash, t: seq<Event>)
    requires f.Valid() && !f.busy && 3 <= |t| <= 4
    requires t[0].cmd == ReadId && t[1] == Sent(WriteEnable, true) && t[2].cmd == WriteStatus(UNLOCK_STATUS)
    requires |t| == 4 ==> t[2].acked && t[3].cmd == ReadStatus
    ensures exists h: Flash :: Reaches(f, t, h) && !h.prot
    ensures !EndsReprotecting(t)
  {
    hide Reaches;
    var h := f.Execute(WriteEnable).Execute(WriteStatus(UNLOCK_STATUS));
    UnlockReaches(f, t[..3]);
    if |t| == 3 {
      assert t == t[..3];
    } else {
      ReadCarries(h, h, ReadStatus, t[3].acked);
      ReachesOne(f, t[..3], h, t[3], h);
      assert t == t[..3] + [t[3]];
    }
  }

  // The two inputs: the acknowledgement of the unlocking write is lost, or the status read fails.
  lemma LostAcknowledgement(f: Flash)
    requires f.Valid() && !f.busy && f.prot
    ensures exists h: Flash :: !h.prot &&
              Reaches(f, [Sent(ReadId, true), Sent(WriteEnable, true), Sent(WriteStatus(UNLOCK_STATUS), false)], h)
  {
    UnlockedWitness(f, [Sent(ReadId, true), Sent(WriteEnable, true), Sent(WriteStatus(UNLOCK_STATUS), false)]);
  }

  lemma FailedStatusRead(f: Flash)
    requires f.Valid() && !f.busy && f.prot
    ensures exists h: Flash :: !h.prot &&
              Reaches(f, [Sent(ReadId, true), Sent(WriteEnable, true), Sent(WriteStatus(UNLOCK_STATUS), true),
                          Sent(ReadStatus, false)], h)
  {
    UnlockedWitness(f, [Sent(ReadId, true), Sent(WriteEnable, true), Sent(WriteStatus(UNLOCK_STATUS), true),
                        Sent(ReadStatus, false)]);
  }
}
