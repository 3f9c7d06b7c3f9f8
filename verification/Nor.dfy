/** The serial NOR flash chip behind the touch controller: what each SPI command does to it, and the
    algebra of programming cells that can only be cleared. */
module Nor {
  import opened Bytes

  datatype Command =
    | WriteEnable
    | WriteStatus(status: byte)
    | ReadStatus
    | ReadId
    | Read(addr: nat)
    | PageProgram(addr: nat, data: seq<byte>)
    | SectorErase(addr: nat)
    | ChipErase
    | Unknown
  {
    // Commands that the chip obeys only while its write-enable latch is set.
    predicate NeedsLatch() {
      WriteStatus? || Modifies()
    }

    // Commands that change cells.
    predicate Modifies() {
      PageProgram? || SectorErase? || ChipErase?
    }
  }

  const BUSY_BIT: byte := 0x01
  const LATCH_BIT: byte := 0x02
  const PROTECT_BITS: byte := 0x0C

  datatype Flash = Flash(id: nat, page: nat, sector: nat, mem: seq<byte>, latch: bool, busy: bool, prot: bool) {

    ghost predicate Valid() {
      && 0 < page && 0 < sector
      && id < TWO_POW_24
      && 0 < |mem| <= TWO_POW_24
      && |mem| % page == 0
      && |mem| % sector == 0
    }

    // Idle and not write protected: the state in which an enabled command is obeyed.
    predicate Ready() {
      !busy && !prot
    }

    ghost predicate SameChip(that: Flash) {
      id == that.id && page == that.page && sector == that.sector && |mem| == |that.mem|
    }

    // The operation in progress, if any, may have finished before the next command arrives.
    function Settle(done: bool): (f: Flash)
      ensures Valid() ==> f.Valid()
      ensures f.mem == mem && f.prot == prot && SameChip(f)
    {
      if busy && done then this.(busy := false, latch := false) else this
    }

    function Status(): byte {
      (if busy then BUSY_BIT else 0) | (if latch then LATCH_BIT else 0) | (if prot then PROTECT_BITS else 0)
    }

    // The memory after obeying a modifying command.
    function After(c: Command): (m: seq<byte>)
      requires Valid()
      ensures |m| == |mem|
    {
      match c
      case PageProgram(addr, data) => ProgramPage(mem, page, Wrap(addr, |mem|), data)
      case SectorErase(addr) => SectorErased(mem, sector, Wrap(addr, |mem|))
      case ChipErase => Blank(|mem|)
      case _ => mem
    }

    // A busy chip obeys nothing but a status read; a locked one ignores every modifying command.
    function Execute(c: Command): (f: Flash)
      requires Valid()
      ensures f.Valid() && SameChip(f)
      ensures !c.NeedsLatch() ==> f.mem == mem && f.prot == prot
    {
      if busy then this
      else if c.WriteEnable? then this.(latch := true)
      else if c.WriteStatus? && latch then this.(prot := c.status & PROTECT_BITS != 0, busy := true)
      else if c.Modifies() && latch && !prot then this.(mem := After(c), busy := true)
      else this
    }

    // What an idle chip shifts out after a command, n bytes of it.
    function Reply(c: Command, n: nat): (r: seq<byte>)
      requires Valid()
      ensures |r| == n
    {
      match c
      case ReadStatus => seq(n, _ => Status())
      case ReadId => seq(n, i => if 0 <= i < 3 then ToBE24(id)[i] else 0)
      case Read(addr) => seq(n, i requires 0 <= i => mem[Wrap(addr + i, |mem|)])
      case _ => seq(n, _ => 0)
    }
  }

  function Wrap(a: nat, size: nat): (r: nat)
    requires 0 < size
    ensures r < size
  {
    if a < size then a else a % size
  }

  function Blank(size: nat): seq<byte> {
    seq(size, _ => 0xFF)
  }

  // The cells of [lo, hi) set to ones.
  function RangeErased(mem: seq<byte>, lo: int, hi: int): (r: seq<byte>)
    ensures |r| == |mem|
  {
    seq(|mem|, i requires 0 <= i < |mem| => if lo <= i < hi then 0xFF else mem[i])
  }

  function SectorErased(mem: seq<byte>, sector: nat, a: nat): (r: seq<byte>)
    requires 0 < sector
    ensures |r| == |mem|
  {
    RangeErased(mem, a - a % sector, a - a % sector + sector)
  }

  // Page program: the address counter wraps inside the page, and of more than a page of data the last
  // byte sent for a cell is the one that counts. Programming can only clear bits.
  function ProgramPage(mem: seq<byte>, page: nat, a: nat, data: seq<byte>): (r: seq<byte>)
    requires 0 < page
    ensures |r| == |mem|
  {
    var base := a - a % page;
    seq(|mem|, i requires 0 <= i < |mem| =>
      var offset := if a <= i then i - a else i - a + page;
      if base <= i < base + page && offset < |data| then mem[i] & data[LastFor(offset, page, |data|)] else mem[i])
  }

  // Index of the last of n bytes that is k modulo the page size.
  function LastFor(k: nat, page: nat, n: nat): (r: nat)
    requires 0 < page && k < n
    ensures k <= r < n
    decreases n - k
  {
    if k + page < n then LastFor(k + page, page, n) else k
  }

  // The abstract effect of programming data from address st on.
  function AndWrite(mem: seq<byte>, st: int, data: seq<byte>): (r: seq<byte>)
    ensures |r| == |mem|
  {
    seq(|mem|, i requires 0 <= i < |mem| => if st <= i < st + |data| then mem[i] & data[i - st] else mem[i])
  }

  // A chunk that stays inside its page is written as the abstract write, nothing else is touched.
  lemma ProgramIsAndWrite(mem: seq<byte>, page: nat, a: nat, data: seq<byte>)
    requires 0 < page
    requires a % page + |data| <= page
    ensures ProgramPage(mem, page, a, data) == AndWrite(mem, a, data)
  {
    var p, w := ProgramPage(mem, page, a, data), AndWrite(mem, a, data);
    forall i | 0 <= i < |mem| ensures p[i] == w[i] {
      if a <= i < a + |data| {
        assert LastFor(i - a, page, |data|) == i - a;
      }
    }
  }

  lemma AndWriteConcat(mem: seq<byte>, st: int, d: seq<byte>, e: seq<byte>)
    ensures AndWrite(AndWrite(mem, st, d), st + |d|, e) == AndWrite(mem, st, d + e)
  {
  }

  // Every cell of m1 is as in m0 or has been ANDed with its data byte: what any number of aborted
  // attempts to write data at st can leave behind.
  ghost predicate PartlyWritten(m0: seq<byte>, m1: seq<byte>, st: int, data: seq<byte>) {
    && |m0| == |m1|
    && forall i :: 0 <= i < |m0| ==>
         m1[i] == m0[i] || (st <= i < st + |data| && m1[i] == m0[i] & data[i - st])
  }

  // Every bit that the first n bytes of data want cleared is cleared.
  ghost predicate Cleared(mem: seq<byte>, st: nat, data: seq<byte>, n: nat) {
    && n <= |data| && st + n <= |mem|
    && forall i :: st <= i < st + n ==> mem[i] & data[i - st] == mem[i]
  }

  // Every bit that goal wants set is still set.
  ghost predicate Above(mem: seq<byte>, goal: seq<byte>) {
    |mem| == |goal| && forall i :: 0 <= i < |mem| ==> mem[i] & goal[i] == goal[i]
  }

  // Every byte of [lo, hi) is blank.
  ghost predicate BlankOn(mem: seq<byte>, lo: int, hi: int) {
    0 <= lo && hi <= |mem| && forall i :: lo <= i < hi ==> mem[i] == 0xFF
  }

  // Every cell is as in m0, or blank and inside [lo, hi).
  ghost predicate PartlyErased(m0: seq<byte>, m1: seq<byte>, lo: int, hi: int) {
    && |m0| == |m1|
    && forall i :: 0 <= i < |m0| ==> m1[i] == m0[i] || (lo <= i < hi && m1[i] == 0xFF)
  }

  lemma PartlyWrittenTrans(m0: seq<byte>, m1: seq<byte>, m2: seq<byte>, st: int, data: seq<byte>)
    requires PartlyWritten(m0, m1, st, data) && PartlyWritten(m1, m2, st, data)
    ensures PartlyWritten(m0, m2, st, data)
  {
  }

  // A write of data[lo..hi] is part of the write of data.
  lemma ChunkIsPart(m0: seq<byte>, m1: seq<byte>, st: int, data: seq<byte>, lo: nat, hi: nat)
    requires lo <= hi <= |data|
    requires PartlyWritten(m0, m1, st + lo, data[lo..hi])
    ensures PartlyWritten(m0, m1, st, data)
  {
  }

  // Clearing bits never undoes cleared bits.
  lemma ClearedStays(m0: seq<byte>, m1: seq<byte>, st: nat, data: seq<byte>, n: nat)
    requires Cleared(m0, st, data, n) && PartlyWritten(m0, m1, st, data)
    ensures Cleared(m1, st, data, n)
  {
  }

  lemma AndSwap(a: byte, b: byte, c: byte)
    ensures (a & b) & c == (a & c) & b
  {
  }

  // Once every bit is cleared, however many attempts it took, the write is complete.
  lemma ClearedCompletes(m0: seq<byte>, m1: seq<byte>, st: nat, data: seq<byte>)
    requires PartlyWritten(m0, m1, st, data) && Cleared(m1, st, data, |data|)
    ensures m1 == AndWrite(m0, st, data)
  {
  }

  // Every bit that data needs is still set in the cells that data is for.
  ghost predicate HasBits(mem: seq<byte>, st: nat, data: seq<byte>) {
    && st + |data| <= |mem|
    && forall i :: st <= i < st + |data| ==> mem[i] & data[i - st] == data[i - st]
  }

  // Retry safety: after any number of aborted attempts to write data, one state per attempt, every cell still has
  // the bits that data needs, so a complete attempt on top of them leaves exactly data, and touches nothing else.
  lemma {:induction false} RetrySafety(states: seq<seq<byte>>, st: nat, data: seq<byte>)
    requires states != [] && HasBits(states[0], st, data) && st + |data| <= |states[0]|
    requires forall k :: 0 < k < |states| ==> PartlyWritten(states[k - 1], states[k], st, data)
    ensures var last := states[|states| - 1];
            && HasBits(last, st, data)
            && AndWrite(last, st, data) == states[0][..st] + data + states[0][st + |data|..]
    decreases |states|
  {
    hide AndWrite, HasBits, PartlyWritten;
    var n := |states| - 1;
    if n == 0 {
      CompleteAttempt(states[0], st, data);
    } else {
      var m := states[n - 1];
      assert forall k :: 0 <= k < n ==> states[..n][k] == states[k];
      RetrySafety(states[..n], st, data);
      assert PartlyWritten(m, states[n], st, data);
      AttemptKeepsBits(m, states[n], st, data);
    }
  }

  lemma CompleteAttempt(m: seq<byte>, st: nat, data: seq<byte>)
    requires HasBits(m, st, data)
    ensures st + |data| <= |m|
    ensures AndWrite(m, st, data) == m[..st] + data + m[st + |data|..]
  {
  }

  lemma AttemptKeepsBits(m0: seq<byte>, m1: seq<byte>, st: nat, data: seq<byte>)
    requires HasBits(m0, st, data) && PartlyWritten(m0, m1, st, data)
    ensures HasBits(m1, st, data) && AndWrite(m1, st, data) == AndWrite(m0, st, data)
  {
  }

  lemma PartlyErasedTrans(m0: seq<byte>, m1: seq<byte>, m2: seq<byte>, lo: int, hi: int)
    requires PartlyErased(m0, m1, lo, hi) && PartlyErased(m1, m2, lo, hi)
    ensures PartlyErased(m0, m2, lo, hi)
  {
  }

  lemma ErasedCompletes(m0: seq<byte>, m1: seq<byte>, lo: int, hi: int)
    requires PartlyErased(m0, m1, lo, hi) && BlankOn(m1, lo, hi)
    ensures m1 == RangeErased(m0, lo, hi)
  {
  }

  // ----- Runs of commands of which the first may be lost -----

  // Erased in part, but the first part, up to mid, as a whole or not at all.
  ghost predicate ErasedButFirst(m0: seq<byte>, m1: seq<byte>, lo: int, mid: int, hi: int) {
    && PartlyErased(m0, m1, lo, hi)
    && (BlankOn(m1, lo, mid) || forall i :: lo <= i < mid && 0 <= i < |m0| ==> m1[i] == m0[i])
  }

  lemma ErasedButFirstTrans(m0: seq<byte>, m1: seq<byte>, m2: seq<byte>, lo: int, mid: int, hi: int)
    requires ErasedButFirst(m0, m1, lo, mid, hi) && ErasedButFirst(m1, m2, lo, mid, hi)
    ensures ErasedButFirst(m0, m2, lo, mid, hi)
  {
  }

  // Once all behind the first part is blank, the run is erased from its start or from its second part on.
  lemma ErasedButFirstCompletes(m0: seq<byte>, m1: seq<byte>, lo: int, mid: int, hi: int)
    requires ErasedButFirst(m0, m1, lo, mid, hi) && lo <= mid <= hi && BlankOn(m1, mid, hi)
    ensures m1 == RangeErased(m0, lo, hi) || m1 == RangeErased(m0, mid, hi)
  {
    if BlankOn(m1, lo, mid) {
      assert m1 == RangeErased(m0, lo, hi);
    } else {
      assert m1 == RangeErased(m0, mid, hi);
    }
  }

  // Written in part, but the first n bytes as a whole or not at all.
  ghost predicate WrittenButFirst(m0: seq<byte>, m1: seq<byte>, st: nat, data: seq<byte>, n: nat) {
    && PartlyWritten(m0, m1, st, data)
    && (Cleared(m1, st, data, n) || forall i :: st <= i < st + n && i < |m0| ==> m1[i] == m0[i])
  }

  lemma WrittenButFirstTrans(m0: seq<byte>, m1: seq<byte>, m2: seq<byte>, st: nat, data: seq<byte>, n: nat)
    requires WrittenButFirst(m0, m1, st, data, n) && WrittenButFirst(m1, m2, st, data, n)
    ensures WrittenButFirst(m0, m2, st, data, n)
  {
  }

  // Every bit that the bytes of data from n on, up to k, want cleared is cleared.
  ghost predicate ClearedBehind(mem: seq<byte>, st: nat, data: seq<byte>, n: nat, k: nat) {
    && k <= |data| && st + k <= |mem|
    && forall i :: st + n <= i < st + k ==> mem[i] & data[i - st] == mem[i]
  }

  // Once all behind the first n bytes is cleared, the write is complete from its start or from there on.
  lemma WrittenButFirstCompletes(m0: seq<byte>, m1: seq<byte>, st: nat, data: seq<byte>, n: nat)
    requires n <= |data| && WrittenButFirst(m0, m1, st, data, n) && ClearedBehind(m1, st, data, n, |data|)
    ensures m1 == AndWrite(m0, st, data) || m1 == AndWrite(m0, st + n, data[n..])
  {
    if Cleared(m1, st, data, n) {
      assert m1 == AndWrite(m0, st, data);
    } else {
      assert m1 == AndWrite(m0, st + n, data[n..]);
    }
  }
}
