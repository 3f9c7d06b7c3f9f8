/** How a write of any length is cut into page programs. */
module PageSplit {
  import opened Bytes
  import opened Nor
  import opened Arithmetic

  // Bytes from st to the end of its page.
  function ToPageEnd(page: nat, st: nat): (n: nat)
    requires 0 < page
    ensures 0 < n <= page
  {
    page - st % page
  }

  // The writer sends a whole partial page first when st is not page aligned, however short the data is.
  predicate Sendable(page: nat, st: nat, n: nat)
    requires 0 < page
  {
    st % page == 0 || ToPageEnd(page, st) <= n
  }

  // Length of the first chunk of a write of n bytes at st.
  function ChunkLength(page: nat, st: nat, n: nat): (len: nat)
    requires 0 < page
    ensures len <= n && (0 < n ==> 0 < len)
  {
    if ToPageEnd(page, st) <= n then ToPageEnd(page, st) else n
  }

  // The page programs that write data at st.
  function Split(page: nat, st: nat, data: seq<byte>): seq<Command>
    requires 0 < page
    decreases |data|
  {
    if data == [] then []
    else
      var len := ChunkLength(page, st, |data|);
      [PageProgram(st, data[..len])] + Split(page, st + len, data[len..])
  }

  // The concatenation of the data of a list of page programs.
  function Payload(cs: seq<Command>): seq<byte>
    requires forall c :: c in cs ==> c.PageProgram?
  {
    if cs == [] then [] else cs[0].data + Payload(cs[1..])
  }

  // Each program starts where the one before it ended.
  ghost predicate Contiguous(cs: seq<Command>, st: nat)
    requires forall c :: c in cs ==> c.PageProgram?
  {
    cs != [] ==> cs[0].addr == st && Contiguous(cs[1..], st + |cs[0].data|)
  }

  // The chip's memory after obeying a list of page programs.
  function Programmed(mem: seq<byte>, page: nat, cs: seq<Command>): seq<byte>
    requires 0 < page
    requires forall c :: c in cs ==> c.PageProgram?
    decreases |cs|
  {
    if cs == [] then mem else Programmed(ProgramPage(mem, page, cs[0].addr, cs[0].data), page, cs[1..])
  }

  // No chunk is empty and none crosses a page boundary.
  lemma {:induction false} ChunksStayInPage(page: nat, st: nat, data: seq<byte>)
    requires 0 < page
    ensures forall c :: c in Split(page, st, data) ==>
              c.PageProgram? && 0 < |c.data| && c.addr % page + |c.data| <= page
    decreases |data|
  {
    if data != [] {
      var len := ChunkLength(page, st, |data|);
      ChunksStayInPage(page, st + len, data[len..]);
    }
  }

  // The chunks cover [st, st + |data|) in order, each address paired with its own byte.
  lemma {:induction false} ChunksPartition(page: nat, st: nat, data: seq<byte>)
    requires 0 < page
    ensures forall c :: c in Split(page, st, data) ==> c.PageProgram?
    ensures Contiguous(Split(page, st, data), st)
    ensures Payload(Split(page, st, data)) == data
    decreases |data|
  {
    if data != [] {
      var len := ChunkLength(page, st, |data|);
      ChunksPartition(page, st + len, data[len..]);
      assert Split(page, st, data)[1..] == Split(page, st + len, data[len..]);
      assert data[..len] + data[len..] == data;
    }
  }

  // Together the chunks are one abstract write: nothing else is touched.
  lemma {:induction false} SplitIsAndWrite(mem: seq<byte>, page: nat, st: nat, data: seq<byte>)
    requires 0 < page
    ensures forall c :: c in Split(page, st, data) ==> c.PageProgram?
    ensures Programmed(mem, page, Split(page, st, data)) == AndWrite(mem, st, data)
    decreases |data|
  {
    hide AndWrite, ProgramPage, Contiguous, Payload, Sendable;
    ChunksPartition(page, st, data);
    if data == [] {
      NothingWritten(mem, st);
    } else {
      var len := ChunkLength(page, st, |data|);
      var first, rest := data[..len], data[len..];
      ChunksPartition(page, st + len, rest);
      assert Split(page, st, data)[1..] == Split(page, st + len, rest);
      ProgramIsAndWrite(mem, page, st, first);
      SplitIsAndWrite(AndWrite(mem, st, first), page, st + len, rest);
      assert first + rest == data;
      AndWriteConcat(mem, st, first, rest);
    }
  }

  lemma NothingWritten(mem: seq<byte>, st: nat)
    ensures AndWrite(mem, st, []) == mem
  {
  }

  // After the first chunk every chunk starts on a page boundary.
  lemma NextPageAligned(page: nat, st: nat)
    requires 0 < page
    ensures (st + ToPageEnd(page, st)) % page == 0
  {
    var q := st / page;
    assert st + ToPageEnd(page, st) == (q + 1) * page + 0;
    QuotientUnique(st + ToPageEnd(page, st), page, q + 1, 0);
  }

  // ----- The chunks that the writer's two blocks ask for, the first one not limited to the data -----

  datatype Chunk = Chunk(addr: nat, len: nat)

  function WriterChunks(page: nat, st: nat, n: nat): seq<Chunk>
    requires 0 < page
  {
    if st % page == 0 then PageChunks(page, st, n)
    else [Chunk(st, ToPageEnd(page, st))] + PageChunks(page, st + ToPageEnd(page, st), n - ToPageEnd(page, st))
  }

  function PageChunks(page: nat, st: nat, n: int): seq<Chunk>
    requires 0 < page
    decreases if 0 < n then n else 0
  {
    if n <= 0 then [] else [Chunk(st, if n >= page then page else n)] + PageChunks(page, st + page, n - page)
  }

  function ChunksOf(cs: seq<Command>): seq<Chunk>
    requires forall c :: c in cs ==> c.PageProgram?
  {
    if cs == [] then [] else [Chunk(cs[0].addr, |cs[0].data|)] + ChunksOf(cs[1..])
  }

  // The chunks of a split are its first one and the chunks of the rest.
  lemma SplitChunks(page: nat, st: nat, data: seq<byte>)
    requires 0 < page && data != []
    ensures forall c :: c in Split(page, st, data) ==> c.PageProgram?
    ensures var len := ChunkLength(page, st, |data|);
            && (forall c :: c in Split(page, st + len, data[len..]) ==> c.PageProgram?)
            && ChunksOf(Split(page, st, data)) == [Chunk(st, len)] + ChunksOf(Split(page, st + len, data[len..]))
  {
    var len := ChunkLength(page, st, |data|);
    ChunksPartition(page, st, data);
    ChunksPartition(page, st + len, data[len..]);
    assert Split(page, st, data)[1..] == Split(page, st + len, data[len..]);
  }

  lemma {:induction false} PageChunksAreSplit(page: nat, st: nat, data: seq<byte>)
    requires 0 < page && st % page == 0
    ensures forall c :: c in Split(page, st, data) ==> c.PageProgram?
    ensures PageChunks(page, st, |data|) == ChunksOf(Split(page, st, data))
    decreases |data|
  {
    hide Payload, Contiguous;
    if data != [] {
      SplitChunks(page, st, data);
      if page <= |data| {
        StepRemainder(st, page);
        PageChunksAreSplit(page, st + page, data[page..]);
      } else {
        assert data[|data|..] == [];
      }
    }
  }

  lemma NothingSplit(page: nat, st: nat, data: seq<byte>)
    requires 0 < page && data == []
    ensures Split(page, st, data) == []
  {
  }

  // The writer sends the split of the data exactly if an unaligned start is followed by at least the rest of its page.
  // Otherwise it sends the rest of the page all the same, with bytes from behind the data.
  lemma WriterSplitsIff(page: nat, st: nat, data: seq<byte>)
    requires 0 < page
    ensures forall c :: c in Split(page, st, data) ==> c.PageProgram?
    ensures WriterChunks(page, st, |data|) == ChunksOf(Split(page, st, data)) <==> Sendable(page, st, |data|)
    ensures !Sendable(page, st, |data|) ==>
              WriterChunks(page, st, |data|) == [Chunk(st, ToPageEnd(page, st))] && |data| < ToPageEnd(page, st)
  {
    hide Payload, Contiguous, Split;
    var len := ToPageEnd(page, st);
    if st % page == 0 {
      PageChunksAreSplit(page, st, data);
    } else if len <= |data| {
      SplitChunks(page, st, data);
      NextPageAligned(page, st);
      PageChunksAreSplit(page, st + len, data[len..]);
    } else if data != [] {
      SplitChunks(page, st, data);
      assert WriterChunks(page, st, |data|)[0].len == len;
      assert ChunksOf(Split(page, st, data))[0].len == |data|;
    } else {
      NothingSplit(page, st, data);
    }
  }

  // Ten bytes for the configuration section's address make the writer send sixty-four.
  lemma ShortWriteOverruns()
    ensures WriterChunks(256, 0x1C0, 10) == [Chunk(0x1C0, 64)]
  {
  }
}
