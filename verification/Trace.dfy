/** The history of transfers that the driver put on the bus, and the discipline it must respect. */
module Trace {
  import opened Bytes
  import opened Nor

  // A command sent to the flash, and whether the bus acknowledged it. An unacknowledged command may or may
  // not have reached the chip.
  datatype Event = Sent(cmd: Command, acked: bool)

  const LOCK_STATUS: byte := 0x0C
  const UNLOCK_STATUS: byte := 0x02

  // The last transfer was an acknowledged write-enable.
  predicate Armed(t: seq<Event>) {
    t != [] && t[|t| - 1] == Sent(WriteEnable, true)
  }

  // The last status write was an acknowledged removal of the protection.
  predicate Unlocked(t: seq<Event>) {
    t != [] &&
    var e := t[|t| - 1];
    if e.cmd.WriteStatus? then e == Sent(WriteStatus(UNLOCK_STATUS), true) else Unlocked(t[..|t| - 1])
  }

  predicate Allowed(t: seq<Event>, c: Command) {
    && (c.NeedsLatch() ==> Armed(t))
    && (c.Modifies() ==> Unlocked(t))
  }

  // Every latched command directly follows an acknowledged write-enable, and every program or erase comes
  // after protection was removed and not restored.
  ghost predicate Guarded(t: seq<Event>) {
    forall i :: 0 <= i < |t| ==> Allowed(t[..i], t[i].cmd)
  }

  // The latched commands of a history, in order.
  function Effects(t: seq<Event>): seq<Event> {
    if t == [] then []
    else
      var e := t[|t| - 1];
      Effects(t[..|t| - 1]) + (if e.cmd.NeedsLatch() then [e] else [])
  }

  // How many chip erases were acknowledged.
  function ChipErases(t: seq<Event>): nat {
    multiset(t)[Sent(ChipErase, true)]
  }

  // The history ends with an attempt to restore the protection, perhaps followed by status reads.
  predicate EndsReprotecting(t: seq<Event>) {
    t != [] &&
    var e := t[|t| - 1];
    if e.cmd.ReadStatus? then EndsReprotecting(t[..|t| - 1])
    else e == Sent(WriteEnable, false) || e.cmd == WriteStatus(LOCK_STATUS)
  }

  // From i on there are 5000 acknowledged status reads: a wait for the chip that ran out of polls.
  ghost predicate PolledOut(t: seq<Event>, i: nat) {
    i + 5000 <= |t| && forall j :: i <= j < i + 5000 ==> t[j] == Sent(ReadStatus, true)
  }

  // Somewhere in the history a wait ran out of polls.
  ghost predicate GaveUp(t: seq<Event>) {
    exists i: nat :: PolledOut(t, i)
  }

  lemma PolledOutStays(t: seq<Event>, u: seq<Event>, i: nat)
    requires t <= u && PolledOut(t, i)
    ensures PolledOut(u, i)
  {
  }

  lemma GaveUpSince(t0: seq<Event>, t: seq<Event>, i: nat)
    requires t0 <= t && |t0| <= i && PolledOut(t, i)
    ensures GaveUp(t[|t0|..])
  {
    assert PolledOut(t[|t0|..], i - |t0|);
  }

  lemma GaveUpWithin(t0: seq<Event>, t1: seq<Event>, t2: seq<Event>)
    requires t0 <= t1 <= t2 && GaveUp(t1[|t0|..])
    ensures GaveUp(t2[|t0|..])
  {
    var i: nat :| PolledOut(t1[|t0|..], i);
    assert t2[|t0|..][..|t1| - |t0|] == t1[|t0|..];
    PolledOutStays(t1[|t0|..], t2[|t0|..], i);
  }

  // But for status reads, the history ends with the command or with a refused write-enable.
  predicate EndsTrying(t: seq<Event>, c: Command) {
    t != [] &&
    var e := t[|t| - 1];
    if e.cmd.ReadStatus? then EndsTrying(t[..|t| - 1], c)
    else e == Sent(WriteEnable, false) || e.cmd == c
  }

  lemma {:induction false} ReadsKeepTrying(t: seq<Event>, u: seq<Event>, c: Command)
    requires forall j :: 0 <= j < |u| ==> u[j].cmd == ReadStatus
    ensures EndsTrying(t + u, c) == EndsTrying(t, c)
    decreases |u|
  {
    if u == [] {
      assert t + u == t;
    } else {
      var n := |u| - 1;
      assert (t + u)[..|t + u| - 1] == t + u[..n];
      ReadsKeepTrying(t, u[..n], c);
    }
  }

  lemma Append(t: seq<Event>, e: Event)
    requires Guarded(t) && Allowed(t, e.cmd)
    ensures Guarded(t + [e])
    ensures Effects(t + [e]) == Effects(t) + (if e.cmd.NeedsLatch() then [e] else [])
    ensures !e.cmd.WriteStatus? ==> Unlocked(t + [e]) == Unlocked(t)
    ensures ChipErases(t + [e]) == ChipErases(t) + (if e == Sent(ChipErase, true) then 1 else 0)
  {
    var u := t + [e];
    assert u[..|u| - 1] == t;
    forall i | 0 <= i < |u| ensures Allowed(u[..i], u[i].cmd) {
      if i < |t| {
        assert u[..i] == t[..i];
      }
    }
  }

  // An unlocked history contains an acknowledged removal of the protection with no status write after it.
  lemma {:induction false} UnlockedSince(t: seq<Event>)
    requires Unlocked(t)
    ensures exists j :: 0 <= j < |t| && t[j] == Sent(WriteStatus(UNLOCK_STATUS), true)
                        && forall k :: j < k < |t| ==> !t[k].cmd.WriteStatus?
    decreases |t|
  {
    var n := |t| - 1;
    if t[n].cmd.WriteStatus? {
      assert t[n] == Sent(WriteStatus(UNLOCK_STATUS), true);
    } else {
      UnlockedSince(t[..n]);
      var j :| 0 <= j < n && t[..n][j] == Sent(WriteStatus(UNLOCK_STATUS), true)
               && forall k :: j < k < n ==> !t[..n][k].cmd.WriteStatus?;
      forall k | j < k < |t| ensures !t[k].cmd.WriteStatus? {
        if k < n {
          assert t[k] == t[..n][k];
        }
      }
    }
  }

  // Trace safety, spelled out for any command of a guarded history: a latched command stands right behind an
  // acknowledged write-enable; a program or erase has an acknowledged removal of the protection before it, with no
  // other status write in between.
  lemma GuardedCommands(t: seq<Event>, i: nat)
    requires Guarded(t) && i < |t|
    ensures t[i].cmd.NeedsLatch() ==> i > 0 && t[i - 1] == Sent(WriteEnable, true)
    ensures t[i].cmd.Modifies() ==>
              exists j :: 0 <= j < i && t[j] == Sent(WriteStatus(UNLOCK_STATUS), true)
                          && forall k :: j < k < i ==> !t[k].cmd.WriteStatus?
  {
    assert Allowed(t[..i], t[i].cmd);
    if t[i].cmd.Modifies() {
      UnlockedSince(t[..i]);
      var j :| 0 <= j < i && t[..i][j] == Sent(WriteStatus(UNLOCK_STATUS), true)
               && forall k :: j < k < i ==> !t[..i][k].cmd.WriteStatus?;
      assert t[j] == t[..i][j];
      forall k | j < k < i ensures !t[k].cmd.WriteStatus? {
        assert t[k] == t[..i][k];
      }
    }
  }

  // A history that ends reprotecting ends, but for status reads, with an attempt to set the protection again: a
  // refused write-enable, or the status write itself.
  lemma {:induction false} EndsWithAttempt(t: seq<Event>)
    requires EndsReprotecting(t)
    ensures exists j :: 0 <= j < |t| && (t[j] == Sent(WriteEnable, false) || t[j].cmd == WriteStatus(LOCK_STATUS))
                        && forall k :: j < k < |t| ==> t[k].cmd.ReadStatus?
    decreases |t|
  {
    var n := |t| - 1;
    if t[n].cmd.ReadStatus? {
      EndsWithAttempt(t[..n]);
      var j :| 0 <= j < n
               && (t[..n][j] == Sent(WriteEnable, false) || t[..n][j].cmd == WriteStatus(LOCK_STATUS))
               && forall k :: j < k < n ==> t[..n][k].cmd.ReadStatus?;
      assert t[j] == t[..n][j];
      forall k | j < k < |t| ensures t[k].cmd.ReadStatus? {
        if k < n {
          assert t[k] == t[..n][k];
        }
      }
    } else {
      assert t[n] == Sent(WriteEnable, false) || t[n].cmd == WriteStatus(LOCK_STATUS);
    }
  }
}
