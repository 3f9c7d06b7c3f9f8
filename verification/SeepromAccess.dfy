/** The loops over the flash: erasing a run of sectors, writing a buffer page by page, reading it back and
    comparing. */
module SeepromAccess {
  import opened Bytes
  import opened Nor
  import opened Arithmetic
  import opened PageSplit
  import opened Trace
  import opened SeepromBus
  import opened SeepromCommands

  // Resuming a write of data at st from its beginning is sound: the chip obeys, or it is busy but the chunk that
  // it will miss has already been written.
  ghost predicate Resumable(f: Flash, st: nat, data: seq<byte>)
    requires 0 < f.page
  {
    !f.prot && (!f.busy || Cleared(f.mem, st, data, ChunkLength(f.page, st, |data|)))
  }

  // The same for erasing from the sector at lo on.
  ghost predicate Reerasable(f: Flash, lo: nat) {
    !f.prot && (!f.busy || BlankOn(f.mem, lo, lo + f.sector))
  }

  // Start of the sector that holds an address.
  function SectorBase(sector: nat, a: nat): (b: nat)
    requires 0 < sector
    ensures b <= a
  {
    a - a % sector
  }

  method EraseNsector(dev: Device, st: nat, sectorCount: nat) returns (err: int)
    requires dev.Valid() && dev.Matched() && Unlocked(dev.trace)
    requires 0 < sectorCount && SectorBase(dev.flash.sector, st) + dev.flash.sector * sectorCount <= |dev.flash.mem|
    modifies dev`flash, dev`reply, dev`trace, dev`faults, dev`overrun, dev`stuck
    ensures dev.Valid() && dev.Kept() && dev.Accounted(err)
    ensures ChipErases(dev.trace) == old(ChipErases(dev.trace))
    ensures var lo := SectorBase(dev.flash.sector, st);
            var hi := lo + dev.flash.sector * sectorCount;
            && ErasedButFirst(old(dev.flash.mem), dev.flash.mem, lo, lo + dev.flash.sector, hi)
            && (old(Reerasable(dev.flash, lo)) && !dev.overrun ==> Reerasable(dev.flash, lo))
            && (old(Reerasable(dev.flash, lo)) && err == 0 && !dev.overrun ==> BlankOn(dev.flash.mem, lo, hi))
            && (!old(dev.flash.prot) && err == 0 && !dev.overrun ==>
                  BlankOn(dev.flash.mem, lo + dev.flash.sector, hi))
    ensures err == 0 && !dev.overrun ==> !dev.flash.busy
  {
    hide Effects, Unlocked, Guarded, PolledOut, Resumable, SectorErased, RangeErased, PartlyErased, ErasedButFirst,
         BlankOn;
    err := 0;
    ghost var lo := SectorBase(dev.flash.sector, st);
    ghost var hi := lo + dev.flash.sector * sectorCount;
    ghost var m0 := dev.flash.mem;
    ghost var size := dev.flash.sector;
    ghost var clean := Reerasable(dev.flash, lo);
    EraseStart(m0, lo, lo + size, hi);
    ProductMonotone(1, sectorCount, size);
    var i := 0;
    ghost var done: nat := 0;
    while i < sectorCount
      invariant 0 <= i <= sectorCount && done == size * i && (i == 0 ==> done == 0)
      invariant dev.Valid() && dev.Kept() && dev.Accounted(err) && err == 0 && dev.Matched()
      invariant ChipErases(dev.trace) == old(ChipErases(dev.trace))
      invariant ErasedButFirst(m0, dev.flash.mem, lo, lo + size, hi)
      invariant i == 0 ==> dev.flash == old(dev.flash)
      invariant i > 0 && !dev.overrun ==> !dev.flash.busy
      invariant clean && !dev.overrun && i > 0 ==> BlankOn(dev.flash.mem, lo, lo + done)
      invariant clean && !dev.overrun && i > 0 ==> BlankOn(dev.flash.mem, lo, lo + size)
      invariant !old(dev.flash.prot) && !dev.overrun && i > 0 ==> BlankOn(dev.flash.mem, lo + size, lo + done)
    {
      ghost var before := dev.flash;
      SectorWalk(st, size, i, sectorCount, done);
      SectorIsRange(before.mem, size, st + done, lo + done);
      err := EraseSector(dev, st + dev.alignSector * i);
      EraseStep(m0, before.mem, dev.flash.mem, lo, size, lo + done, hi);
      if err < 0 {
        break;
      }
      i, done := i + 1, done + size;
    }
  }

  lemma SectorIsRange(mem: seq<byte>, sector: nat, a: nat, b: nat)
    requires 0 < sector && a - a % sector == b
    ensures SectorErased(mem, sector, a) == RangeErased(mem, b, b + sector)
  {
  }

  lemma EraseStart(m0: seq<byte>, lo: nat, mid: nat, hi: nat)
    ensures ErasedButFirst(m0, m0, lo, mid, hi)
  {
  }

  // One sector further: what was blank stays blank, and an obeyed erase adds the sector at b.
  lemma EraseStep(m0: seq<byte>, m1: seq<byte>, m2: seq<byte>, lo: nat, size: nat, b: nat, hi: nat)
    requires ErasedButFirst(m0, m1, lo, lo + size, hi)
    requires (b == lo || lo + size <= b) && b + size <= hi <= |m0|
    requires m2 == m1 || m2 == RangeErased(m1, b, b + size)
    ensures ErasedButFirst(m0, m2, lo, lo + size, hi)
    ensures forall k :: BlankOn(m1, lo, k) ==> BlankOn(m2, lo, k)
    ensures b == lo ==> BlankOn(m2, lo + size, b + size)
    ensures m2 == RangeErased(m1, b, b + size) && (b == lo || BlankOn(m1, lo, b)) ==> BlankOn(m2, lo, b + size)
    ensures m2 == RangeErased(m1, b, b + size) && lo < b && BlankOn(m1, lo + size, b) ==>
              BlankOn(m2, lo + size, b + size)
  {
  }

  // The i-th step of the walk erases the i-th sector of the run.
  lemma SectorWalk(st: nat, sector: nat, i: nat, count: nat, done: nat)
    requires 0 < sector && i < count && done == sector * i
    ensures var a, lo := st + done, SectorBase(sector, st);
            && a - a % sector == lo + done
            && lo + done + sector <= lo + sector * count
            && a < lo + sector * count
            && (i == 0 ==> done == 0) && (i > 0 ==> sector <= done)
            && done + sector == sector * (i + 1)
  {
    WalkRemainder(st, sector, i);
    assert sector * i + sector == sector * (i + 1);
    ProductMonotone(i + 1, count, sector);
    if i > 0 {
      ProductMonotone(1, i, sector);
    }
  }

  // ----- Writing -----

  // The latched commands added to a history are the first sent of split, all acknowledged but perhaps the last.
  ghost predicate SentPrefix(e0: seq<Event>, e1: seq<Event>, split: seq<Command>, sent: nat, complete: bool) {
    && sent <= |split|
    && e0 <= e1 && |e1| == |e0| + sent
    && forall i :: 0 <= i < sent ==>
         e1[|e0| + i].cmd == split[i] && (complete || i + 1 < sent ==> e1[|e0| + i].acked)
  }

  // Length of the first chunk of a write.
  function FirstChunk(page: nat, st: nat, data: seq<byte>): (n: nat)
    requires 0 < page
    ensures n <= |data|
  {
    ChunkLength(page, st, |data|)
  }

  // How far a write of data at st has come since the chip was in state f0: the first done bytes are written.
  ghost predicate WrittenTo(f0: Flash, f: Flash, st: nat, data: seq<byte>, done: nat, overrun: bool)
    requires 0 < f0.page
  {
    var first := FirstChunk(f0.page, st, data);
    && WrittenButFirst(f0.mem, f.mem, st, data, first)
    && (done == 0 ==> f == f0)
    && (done > 0 ==> first <= done)
    && (done > 0 && !overrun ==> !f.busy)
    && (done > 0 && !overrun && Resumable(f0, st, data) ==>
          Cleared(f.mem, st, data, first) && Cleared(f.mem, st, data, done))
    && (done > 0 && !overrun && !f0.prot ==> ClearedBehind(f.mem, st, data, first, done))
  }

  // The commands sent so far, and those that are still due.
  ghost predicate SentTo(e0: seq<Event>, e: seq<Event>, page: nat, st: nat, data: seq<byte>, done: nat, sent: nat)
    requires 0 < page && done <= |data|
  {
    var split := Split(page, st, data);
    && SentPrefix(e0, e, split, sent, true) && sent <= |split|
    && split[sent..] == Split(page, st + done, data[done..])
  }

  // The next chunk of a write: data[lo..lo + n].
  method WriteNext(dev: Device, st: nat, data: seq<byte>, lo: nat, n: nat,
                   ghost f0: Flash, ghost e0: seq<Event>, ghost sent: nat)
    returns (err: int, ghost count: nat)
    requires dev.Valid() && dev.Matched() && Unlocked(dev.trace)
    requires st + |data| <= |dev.flash.mem| && lo < |data|
    requires n == ChunkLength(dev.flash.page, st + lo, |data| - lo)
    requires dev.flash.SameChip(f0) && dev.flash.prot == f0.prot
    requires WrittenTo(f0, dev.flash, st, data, lo, dev.overrun)
    requires SentTo(e0, Effects(dev.trace), dev.flash.page, st, data, lo, sent)
    modifies dev`flash, dev`reply, dev`trace, dev`faults, dev`overrun, dev`stuck
    ensures dev.Valid() && dev.Kept() && dev.Accounted(err)
    ensures ChipErases(dev.trace) == old(ChipErases(dev.trace))
    ensures err == 0 ==> WrittenTo(f0, dev.flash, st, data, lo + n, dev.overrun)
    ensures err == 0 ==> SentTo(e0, Effects(dev.trace), dev.flash.page, st, data, lo + n, count)
    ensures WrittenButFirst(f0.mem, dev.flash.mem, st, data, FirstChunk(f0.page, st, data))
    ensures Resumable(f0, st, data) && !dev.overrun ==> Resumable(dev.flash, st, data)
    ensures SentPrefix(e0, Effects(dev.trace), Split(dev.flash.page, st, data), count, err == 0)
  {
    hide Effects, Unlocked, Guarded, PolledOut, WrittenButFirst, Cleared, ClearedBehind, AndWrite, SentPrefix, Split,
         ChunkLength;
    ghost var split := Split(dev.flash.page, st, data);
    ghost var m1, e1 := dev.flash.mem, Effects(dev.trace);
    NextChunk(dev.flash.page, st, data, split, sent, lo);
    err := WriteChunk(dev, st + lo, data[lo..lo + n]);
    FirstChunkFirst(dev.flash.page, st, |data|, lo, n);
    WriteStep(f0.mem, m1, dev.flash.mem, st, data, lo, lo + n, FirstChunk(f0.page, st, data));
    count := SendStep(e0, e1, Effects(dev.trace), split, sent, err);
  }

  lemma FirstChunkFirst(page: nat, st: nat, size: nat, lo: nat, n: nat)
    requires 0 < page && lo < size && n == ChunkLength(page, st + lo, size - lo)
    ensures lo == 0 ==> n == ChunkLength(page, st, size)
    ensures 0 < n && lo + n <= size
  {
  }

  // Writes data from st on: a partial page first, then page by page. Returns, beside the error code, how many page
  // programs were sent.
  method WriteNbyte(dev: Device, st: nat, data: seq<byte>) returns (err: int, ghost sent: nat)
    requires dev.Valid() && dev.Matched() && Unlocked(dev.trace)
    requires data != [] && st + |data| <= |dev.flash.mem| && Sendable(dev.flash.page, st, |data|)
    modifies dev`flash, dev`reply, dev`trace, dev`faults, dev`overrun, dev`stuck
    ensures dev.Valid() && dev.Kept() && dev.Accounted(err)
    ensures ChipErases(dev.trace) == old(ChipErases(dev.trace))
    ensures WrittenButFirst(old(dev.flash.mem), dev.flash.mem, st, data, FirstChunk(dev.flash.page, st, data))
    ensures old(Resumable(dev.flash, st, data)) && !dev.overrun ==> Resumable(dev.flash, st, data)
    ensures !old(dev.flash.prot) && err == 0 && !dev.overrun ==>
              ClearedBehind(dev.flash.mem, st, data, FirstChunk(dev.flash.page, st, data), |data|)
    ensures old(Resumable(dev.flash, st, data)) && err == 0 && !dev.overrun ==>
              Cleared(dev.flash.mem, st, data, |data|)
    ensures err == 0 && !dev.overrun ==> !dev.flash.busy
    ensures SentPrefix(old(Effects(dev.trace)), Effects(dev.trace), Split(dev.flash.page, st, data), sent, err == 0)
    ensures err == 0 ==> sent == |Split(dev.flash.page, st, data)|
  {
    hide Effects, Unlocked, Guarded, PolledOut, WrittenButFirst, Cleared, ClearedBehind, AndWrite, SentPrefix, SentOnce,
         Split, ChipErases;
    ghost var f0, e0 := dev.flash, Effects(dev.trace);
    ghost var page := dev.flash.page;
    WriteStart(f0.mem, st, data, e0, page);
    NextPageAligned(page, st);
    err, sent := 0, 0;
    var firstSend := st % dev.writeMax;
    if firstSend != 0 {
      firstSend := dev.writeMax - firstSend;
      err, sent := WriteNext(dev, st, data, 0, firstSend, f0, e0, sent);
      if err != 0 {
        return;
      }
    }
    var targetAdd := st + firstSend;
    var addIndex := 0;
    var dataLength: int := |data| - firstSend;
    ghost var done: nat, offset: nat := firstSend, 0;
    while dataLength > 0
      invariant err == 0 && done <= |data|
      invariant done == if dataLength > 0 then |data| - dataLength else |data|
      invariant offset == addIndex * dev.writeMax
      invariant dataLength > 0 ==> done == firstSend + offset && (st + done) % page == 0
      invariant dev.Valid() && dev.Kept() && dev.Accounted(err)
      invariant ChipErases(dev.trace) == old(ChipErases(dev.trace))
      invariant WrittenTo(f0, dev.flash, st, data, done, dev.overrun)
      invariant SentTo(e0, Effects(dev.trace), page, st, data, done, sent)
    {
      var writeLength := if dataLength >= dev.writeMax then dev.writeMax else dataLength;
      AlignedChunk(page, st + done, |data| - done);
      assert targetAdd + addIndex * dev.writeMax == st + done;
      err, sent := WriteNext(dev, st, data, firstSend + addIndex * dev.writeMax, writeLength, f0, e0, sent);
      if err != 0 {
        return;
      }
      StepRemainder(st + done, page);
      NextIndex(addIndex, dev.writeMax);
      addIndex, offset := addIndex + 1, offset + dev.writeMax;
      dataLength := dataLength - dev.writeMax;
      done := done + writeLength;
    }
    WriteEnd(e0, Effects(dev.trace), page, st, data, sent);
  }

  // The same for data too short for the rest of its page: the first chunk is sent whole, with bytes from behind the
  // data, whatever they are.
  method WriteShort(dev: Device, st: nat, data: seq<byte>) returns (err: int, ghost behind: seq<byte>)
    requires dev.Valid() && dev.Matched() && Unlocked(dev.trace)
    requires data != [] && st + |data| <= |dev.flash.mem| && !Sendable(dev.flash.page, st, |data|)
    modifies dev`flash, dev`reply, dev`trace, dev`faults, dev`overrun, dev`stuck
    ensures dev.Valid() && dev.Kept() && dev.Accounted(err)
    ensures |data + behind| == ToPageEnd(dev.flash.page, st)
    ensures PartlyWritten(old(dev.flash.mem), dev.flash.mem, st, data + behind)
    ensures old(dev.flash.Ready()) && err == 0 && !dev.overrun ==>
              dev.flash.mem == AndWrite(old(dev.flash.mem), st, data + behind)
    ensures old(dev.flash.Ready()) && err == 0 && !dev.overrun ==>
              (dev.flash.mem[st..st + |data|] == data <==> HasBits(old(dev.flash.mem), st, data))
  {
    hide Effects, Unlocked, Guarded, PolledOut, WrittenButFirst, PartlyWritten, Cleared, ClearedBehind, AndWrite,
         SentPrefix, Split;
    var junk: seq<byte> := *;
    var n := ToPageEnd(dev.writeMax, st) - |data|;
    var tail := if |junk| == n then junk else seq(n, _ => 0);
    behind := tail;
    ghost var m0 := dev.flash.mem;
    PageInside(|m0|, dev.flash.page, st);
    ghost var sent;
    err, sent := WriteNbyte(dev, st, data + tail);
    WrittenInPart(m0, dev.flash.mem, st, data + tail, FirstChunk(dev.flash.page, st, data + tail));
    if Cleared(dev.flash.mem, st, data + tail, |data + tail|) {
      ClearedCompletes(m0, dev.flash.mem, st, data + tail);
    }
    HeldInFront(m0, st, data, tail);
  }

  lemma WrittenInPart(m0: seq<byte>, m1: seq<byte>, st: nat, data: seq<byte>, first: nat)
    requires WrittenButFirst(m0, m1, st, data, first)
    ensures PartlyWritten(m0, m1, st, data)
  {
  }

  // Whatever is written behind it, the data is in flash exactly if the cells had its bits.
  lemma HeldInFront(m: seq<byte>, st: nat, data: seq<byte>, behind: seq<byte>)
    requires st + |data + behind| <= |m|
    ensures AndWrite(m, st, data + behind)[st..st + |data|] == data <==> HasBits(m, st, data)
  {
    var w := AndWrite(m, st, data + behind);
    assert forall i :: st <= i < st + |data| ==> w[i] == m[i] & data[i - st] && w[st..st + |data|][i - st] == w[i];
    if HasBits(m, st, data) {
      assert forall i :: 0 <= i < |data| ==> w[st..st + |data|][i] == data[i];
    } else {
      var i :| st <= i < st + |data| && m[i] & data[i - st] != data[i - st];
      assert w[st..st + |data|][i - st] != data[i - st];
    }
  }

  // The page of an address inside the chip lies inside the chip.
  lemma PageInside(size: nat, page: nat, st: nat)
    requires 0 < page && size % page == 0 && st < size
    ensures st + ToPageEnd(page, st) <= size
  {
    var q, k := st / page, size / page;
    assert st + ToPageEnd(page, st) == (q + 1) * page && size == k * page;
    if k <= q {
      ProductMonotone(k, q, page);
      assert false;
    }
    ProductMonotone(q + 1, k, page);
  }

  lemma NextIndex(k: nat, w: nat)
    ensures (k + 1) * w == k * w + w
  {
  }

  lemma WriteEnd(e0: seq<Event>, e: seq<Event>, page: nat, st: nat, data: seq<byte>, sent: nat)
    requires 0 < page && SentTo(e0, e, page, st, data, |data|, sent)
    ensures sent == |Split(page, st, data)| && SentPrefix(e0, e, Split(page, st, data), sent, true)
  {
  }

  lemma WriteStart(m: seq<byte>, st: nat, data: seq<byte>, e: seq<Event>, page: nat)
    requires 0 < page
    ensures WrittenButFirst(m, m, st, data, FirstChunk(page, st, data))
    ensures SentTo(e, e, page, st, data, 0, 0)
  {
    var split := Split(page, st, data);
    assert data[0..] == data && split[0..] == split;
  }

  // A chunk that starts on a page boundary takes a page or what is left.
  lemma AlignedChunk(page: nat, a: nat, n: nat)
    requires 0 < page && a % page == 0
    ensures ChunkLength(page, a, n) == if page <= n then page else n
  {
  }

  // The chunk that is due, and what remains to be sent after it.
  lemma NextChunk(page: nat, st: nat, data: seq<byte>, split: seq<Command>, sent: nat, done: nat)
    requires 0 < page && done < |data| && sent <= |split|
    requires split[sent..] == Split(page, st + done, data[done..])
    ensures var len := ChunkLength(page, st + done, |data| - done);
            && sent < |split|
            && split[sent] == PageProgram(st + done, data[done..done + len])
            && split[sent + 1..] == Split(page, st + (done + len), data[done + len..])
            && (done + len == |data| ==> sent + 1 == |split|)
            && (st + done) % page + len <= page
  {
    var len := ChunkLength(page, st + done, |data| - done);
    var rest := data[done..];
    assert rest[..len] == data[done..done + len] && rest[len..] == data[done + len..];
    assert split[sent..][0] == split[sent] && split[sent..][1..] == split[sent + 1..];
  }

  // One chunk further: what was cleared stays cleared, and an obeyed program adds data[lo..hi].
  lemma WriteStep(m0: seq<byte>, m1: seq<byte>, m2: seq<byte>, st: nat, data: seq<byte>, lo: nat, hi: nat, first: nat)
    requires WrittenButFirst(m0, m1, st, data, first) && lo <= hi <= |data| && st + |data| <= |m0|
    requires if lo == 0 then hi == first && m1 == m0 else first <= lo
    requires m2 == m1 || m2 == AndWrite(m1, st + lo, data[lo..hi])
    ensures WrittenButFirst(m0, m2, st, data, first) && PartlyWritten(m1, m2, st, data)
    ensures forall k: nat :: Cleared(m1, st, data, k) ==> Cleared(m2, st, data, k)
    ensures m2 == AndWrite(m1, st + lo, data[lo..hi]) && (lo == 0 || Cleared(m1, st, data, lo)) ==>
              Cleared(m2, st, data, hi)
    ensures m2 == AndWrite(m1, st + lo, data[lo..hi]) && lo > 0 && ClearedBehind(m1, st, data, first, lo) ==>
              ClearedBehind(m2, st, data, first, hi)
    ensures lo == 0 ==> ClearedBehind(m2, st, data, first, hi)
  {
    assert PartlyWritten(m1, m2, st + lo, data[lo..hi]);
    ChunkIsPart(m1, m2, st, data, lo, hi);
    forall k: nat | Cleared(m1, st, data, k) ensures Cleared(m2, st, data, k) {
      ClearedStays(m1, m2, st, data, k);
    }
    if m2 == AndWrite(m1, st + lo, data[lo..hi]) {
      if lo == 0 || Cleared(m1, st, data, lo) {
        ChunkClears(m1, m2, st, data, lo, hi);
      }
      if lo > 0 && ClearedBehind(m1, st, data, first, lo) {
        ChunkClearsBehind(m1, m2, st, data, lo, hi, first);
      }
    }
  }

  lemma ChunkClearsBehind(m1: seq<byte>, m2: seq<byte>, st: nat, data: seq<byte>, lo: nat, hi: nat, first: nat)
    requires first <= lo <= hi <= |data| && st + |data| <= |m1|
    requires m2 == AndWrite(m1, st + lo, data[lo..hi]) && ClearedBehind(m1, st, data, first, lo)
    ensures ClearedBehind(m2, st, data, first, hi)
  {
    forall i | st + first <= i < st + hi ensures m2[i] & data[i - st] == m2[i] {
      if st + lo <= i {
        assert data[lo..hi][i - (st + lo)] == data[i - st];
      }
    }
  }

  lemma ChunkClears(m1: seq<byte>, m2: seq<byte>, st: nat, data: seq<byte>, lo: nat, hi: nat)
    requires lo <= hi <= |data| && st + |data| <= |m1|
    requires m2 == AndWrite(m1, st + lo, data[lo..hi])
    requires lo == 0 || Cleared(m1, st, data, lo)
    ensures Cleared(m2, st, data, hi)
  {
    forall i | st <= i < st + hi ensures m2[i] & data[i - st] == m2[i] {
      if st + lo <= i {
        assert data[lo..hi][i - (st + lo)] == data[i - st];
      }
    }
  }

  // How many programs have been sent after one more attempt.
  ghost method SendStep(e0: seq<Event>, e1: seq<Event>, e2: seq<Event>, split: seq<Command>, sent: nat, err: int)
    returns (count: nat)
    requires SentPrefix(e0, e1, split, sent, true) && sent < |split|
    requires e2 == e1 + [Sent(split[sent], true)]
             || (err < 0 && e2 == e1 + [Sent(split[sent], false)])
             || (err < 0 && e2 == e1)
    requires err <= 0
    ensures SentPrefix(e0, e2, split, count, err == 0)
    ensures sent <= count <= sent + 1 && (err == 0 ==> count == sent + 1)
  {
    count := |e2| - |e0|;
  }

  // ----- Reading back -----

  // Reads n bytes at addr into buf from offset on. What a failed read leaves in those bytes is unspecified.
  method SeepromRead(dev: Device, addr: nat, buf: array<byte>, offset: nat, n: nat) returns (err: int)
    requires dev.Valid() && n <= 1024
    requires 0 < n && addr + n <= |dev.flash.mem| && offset + n <= buf.Length
    modifies dev`flash, dev`reply, dev`trace, dev`faults, buf
    ensures dev.Valid() && dev.OnlyListened() && dev.Accounted(err)
    ensures err == 0 && !old(dev.flash.busy) ==>
              buf[..offset + n] == old(buf[..offset]) + dev.flash.mem[addr..addr + n]
  {
    hide Effects, Unlocked, Guarded, PolledOut, Flash.Reply;
    var data;
    err, data := Ask(dev, Read(addr), n);
    ReplyIsSlice(dev.flash, addr, n);
    CopyInto(buf, offset, data);
  }

  lemma ReplyIsSlice(f: Flash, addr: nat, n: nat)
    requires f.Valid() && addr + n <= |f.mem|
    ensures f.Reply(Read(addr), n) == f.mem[addr..addr + n]
  {
    forall i | 0 <= i < n ensures f.Reply(Read(addr), n)[i] == f.mem[addr..addr + n][i] {
      assert Wrap(addr + i, |f.mem|) == addr + i;
    }
  }

  method CopyInto(buf: array<byte>, offset: nat, data: seq<byte>)
    requires offset + |data| <= buf.Length
    modifies buf
    ensures buf[..offset + |data|] == old(buf[..offset]) + data
  {
    for k := 0 to |data|
      invariant buf[..offset] == old(buf[..offset])
      invariant buf[offset..offset + k] == data[..k]
    {
      buf[offset + k] := data[k];
    }
    assert buf[..offset + |data|] == buf[..offset] + buf[offset..offset + |data|];
  }

  method ReadNbyte(dev: Device, st: nat, buf: array<byte>, nbyte: nat) returns (err: int)
    requires dev.Valid()
    requires st + nbyte <= |dev.flash.mem| && nbyte <= buf.Length
    modifies dev`flash, dev`reply, dev`trace, dev`faults, buf
    ensures dev.Valid() && dev.OnlyListened() && dev.Accounted(err)
    ensures err == 0 && !old(dev.flash.busy) ==> buf[..nbyte] == dev.flash.mem[st..st + nbyte]
  {
    hide Effects, Unlocked, Guarded, PolledOut, ChipErases, Flash.Settle, Flash.Valid;
    err := 0;
    var addIndex := 0;
    var dataLength: int := nbyte;
    ghost var done: nat, offset: nat := 0, 0;
    while dataLength > 0
      invariant err == 0 && done <= nbyte
      invariant done == if dataLength > 0 then nbyte - dataLength else nbyte
      invariant offset == addIndex * dev.readMax
      invariant dataLength > 0 ==> done == offset
      invariant dev.Valid() && dev.OnlyListened() && dev.Accounted(err)
      invariant !old(dev.flash.busy) ==> buf[..done] == dev.flash.mem[st..st + done]
    {
      var readLength := if dataLength >= dev.readMax then dev.readMax else dataLength;
      err := SeepromRead(dev, st + addIndex * dev.readMax, buf, addIndex * dev.readMax, readLength);
      if err != 0 {
        break;
      }
      JoinSlices(dev.flash.mem, st, done, readLength);
      NextIndex(addIndex, dev.readMax);
      addIndex, offset := addIndex + 1, offset + dev.readMax;
      dataLength := dataLength - dev.readMax;
      done := done + readLength;
    }
  }

  lemma JoinSlices(mem: seq<byte>, st: nat, done: nat, n: nat)
    requires st + done + n <= |mem|
    ensures mem[st..st + done] + mem[st + done..st + done + n] == mem[st..st + (done + n)]
  {
  }

  // Reads back and compares; a difference is error -3. The flag tells whether every read was acknowledged. A read-back
  // that is accepted although it was begun on a busy chip is marked as blind.
  method Verify(dev: Device, addr: nat, content: seq<byte>) returns (err: int, ghost readable: bool)
    requires dev.Valid()
    requires addr + |content| <= |dev.flash.mem|
    modifies dev`flash, dev`reply, dev`trace, dev`faults, dev`blind
    ensures dev.Valid() && dev.OnlyListened()
    ensures err <= 0 && (!readable ==> err < 0)
    ensures dev.faults == old(dev.faults) + (if readable then 0 else 1)
    ensures readable ==> err == 0 || err == -3
    ensures !old(dev.flash.busy) && readable ==>
              (err == 0 <==> dev.flash.mem[addr..addr + |content|] == content)
    ensures dev.blind == (old(dev.blind) || (err == 0 && old(dev.flash.busy)))
  {
    hide Effects, Unlocked, Guarded, PolledOut;
    ghost var busy := dev.flash.busy;
    var verifyData := new byte[|content| + 2];
    err := ReadNbyte(dev, addr, verifyData, |content|);
    readable := err == 0;
    if err != 0 {
      return;
    }
    ghost var copy := verifyData[..|content|];
    var i := 0;
    while i < |content|
      invariant 0 <= i <= |content| && err == 0
      invariant copy[..i] == content[..i]
    {
      if content[i] != verifyData[i] {
        assert copy[i] != content[i];
        err := -3;
        break;
      }
      i := i + 1;
    }
    dev.blind := dev.blind || (err == 0 && busy);
  }
}
