/** The 16-bit sum and xor that protect a section's payload. */
module Checksum {
  import opened Bytes
  import opened Wrappers

  const CONTENT_HEADER_SIZE := 12

  // A 16-bit word as its two bytes, the low one first.
  datatype Word = Word(lo: byte, hi: byte)

  // The first n words of a byte string.
  function Words(bytes: seq<byte>, n: nat): (ws: seq<Word>)
    requires 2 * n <= |bytes|
    ensures |ws| == n
  {
    seq(n, i requires 0 <= i < n => Word(bytes[2 * i], bytes[2 * i + 1]))
  }

  function Value(w: Word): (n: nat)
    ensures n < 0x1_0000
  {
    Val(w.lo) + 0x100 * Val(w.hi)
  }

  function XorWords(a: Word, b: Word): Word {
    Word(a.lo ^ b.lo, a.hi ^ b.hi)
  }

  // The 16-bit sum, which wraps around.
  function Sum(ws: seq<Word>): (s: nat)
    ensures s < 0x1_0000
  {
    if ws == [] then 0 else (Sum(ws[..|ws| - 1]) + Value(ws[|ws| - 1])) % 0x1_0000
  }

  function Xor(ws: seq<Word>): Word {
    if ws == [] then Word(0, 0) else XorWords(Xor(ws[..|ws| - 1]), ws[|ws| - 1])
  }

  // The 32-bit checksum: xor in the upper half, sum in the lower.
  function ChecksumOf(ws: seq<Word>): (c: nat) {
    Pack(Xor(ws), Sum(ws))
  }

  function Pack(xor: Word, sum: nat): nat {
    Value(xor) * 0x1_0000 + sum
  }

  // ----- Algebra -----

  lemma SumPush(ws: seq<Word>, w: Word)
    ensures Sum(ws + [w]) == (Sum(ws) + Value(w)) % 0x1_0000
  {
    assert (ws + [w])[..|ws|] == ws;
  }

  lemma {:induction false} SumConcat(a: seq<Word>, b: seq<Word>)
    ensures Sum(a + b) == (Sum(a) + Sum(b)) % 0x1_0000
    decreases |b|
  {
    hide Value, Sum;
    if b == [] {
      SumEmpty();
      assert a + b == a;
    } else {
      var init, last := b[..|b| - 1], b[|b| - 1];
      SumConcat(a, init);
      SumPush(a + init, last);
      SumPush(init, last);
      assert a + b == (a + init) + [last] && b == init + [last];
      AddThree(Sum(a), Sum(init), Value(last));
    }
  }

  lemma SumEmpty()
    ensures Sum([]) == 0
  {
  }

  lemma {:induction false} XorConcat(a: seq<Word>, b: seq<Word>)
    ensures Xor(a + b) == XorWords(Xor(a), Xor(b))
    decreases |b|
  {
    hide XorWords;
    if b == [] {
      assert a + b == a;
      XorZero(Xor(a));
    } else {
      var n := |b| - 1;
      assert (a + b)[..|a + b| - 1] == a + b[..n];
      XorConcat(a, b[..n]);
      XorGroup(Xor(a), Xor(b[..n]), b[n]);
    }
  }

  lemma XorZero(a: Word)
    ensures XorWords(a, Word(0, 0)) == a
  {
  }

  lemma XorGroup(a: Word, b: Word, c: Word)
    ensures XorWords(XorWords(a, b), c) == XorWords(a, XorWords(b, c))
  {
  }

  lemma XorSwap(a: Word, b: Word)
    ensures XorWords(a, b) == XorWords(b, a)
  {
  }

  lemma ValInjective(a: byte, b: byte)
    requires Val(a) == Val(b)
    ensures a == b
  {
    assert (Val(a) as bv8) == a;
    assert (Val(b) as bv8) == b;
  }

  lemma ValueInjective(w: Word, v: Word)
    requires Value(w) == Value(v)
    ensures w == v
  {
    hide Val;
    ValInjective(w.lo, v.lo);
    ValInjective(w.hi, v.hi);
  }

  lemma PackInjective(x: Word, s: nat, x': Word, s': nat)
    requires s < 0x1_0000 && s' < 0x1_0000 && Pack(x, s) == Pack(x', s')
    ensures x == x' && s == s'
  {
    ValueInjective(x, x');
  }

  // The checksum of a concatenation is determined by the sums and xors of its parts.
  lemma ChecksumConcat(a: seq<Word>, b: seq<Word>)
    ensures ChecksumOf(a + b) == Pack(XorWords(Xor(a), Xor(b)), (Sum(a) + Sum(b)) % 0x1_0000)
  {
    SumConcat(a, b);
    XorConcat(a, b);
  }

  lemma SumAround(a: seq<Word>, w: Word, b: seq<Word>)
    ensures Sum(a + [w] + b) == (Sum(a) + Value(w) + Sum(b)) % 0x1_0000
  {
    hide Value;
    SumConcat(a + [w], b);
    SumPush(a, w);
    AddModulo(Sum(a) + Value(w), Sum(b));
  }

  lemma AddModulo(x: nat, y: nat)
    ensures (x % 0x1_0000 + y) % 0x1_0000 == (x + y) % 0x1_0000
  {
  }

  lemma AddThree(x: nat, y: nat, z: nat)
    ensures ((x + y) % 0x1_0000 + z) % 0x1_0000 == (x + (y + z) % 0x1_0000) % 0x1_0000
  {
    AddModulo(x + y, z);
    AddModulo(y + z, x);
  }

  // Any change confined to one word is detected, whatever the length.
  lemma OneWordChangeDetected(ws: seq<Word>, i: nat, w: Word)
    requires i < |ws| && w != ws[i]
    ensures ChecksumOf(ws[i := w]) != ChecksumOf(ws)
  {
    hide Value;
    var a, b := ws[..i], ws[i + 1..];
    assert ws == a + [ws[i]] + b && ws[i := w] == a + [w] + b;
    SumAround(a, ws[i], b);
    SumAround(a, w, b);
    if Value(w) == Value(ws[i]) {
      ValueInjective(w, ws[i]);
    }
    DifferentSums(Sum(a) + Sum(b), Value(w), Value(ws[i]));
    if ChecksumOf(ws[i := w]) == ChecksumOf(ws) {
      PackInjective(Xor(ws[i := w]), Sum(ws[i := w]), Xor(ws), Sum(ws));
    }
  }

  lemma DifferentSums(s: nat, a: nat, b: nat)
    requires a < 0x1_0000 && b < 0x1_0000 && a != b
    ensures (s + a) % 0x1_0000 != (s + b) % 0x1_0000
  {
  }

  // No rearrangement of the parts is detected: the checksum does not see the order of words.
  lemma OrderNotDetected(a: seq<Word>, b: seq<Word>)
    ensures ChecksumOf(a + b) == ChecksumOf(b + a)
  {
    SumConcat(a, b);
    SumConcat(b, a);
    XorConcat(a, b);
    XorConcat(b, a);
    XorSwap(Xor(a), Xor(b));
  }

  // ----- A section's checksum -----

  // Sections at these addresses have no header of their own in front of the summed data.
  predicate ExemptAddress(address: nat) {
    address == 0 || address == 0x1C0 || address == 0x1000
  }

  function SummedFrom(address: nat): nat {
    if ExemptAddress(address) then 0 else CONTENT_HEADER_SIZE
  }

  // C division of a possibly negative count by two, rounded towards zero, plus the lowest bit.
  function WordCount(n: int): int {
    (if n >= 0 then n / 2 else -((-n) / 2)) + n % 2
  }

  // The checksum the parser computes over a payload, or none where it would read past the payload's end.
  function PayloadChecksum(address: nat, payload: seq<byte>): Option<nat> {
    var from := SummedFrom(address);
    var n := WordCount(|payload| - from);
    if n <= 0 then Some(ChecksumOf([]))
    else if from + 2 * n > |payload| then None
    else Some(ChecksumOf(Words(payload[from..], n)))
  }

  // Payloads of even length, with the content header unless exempt, are summed completely.
  lemma EvenPayloadsAreSummed(address: nat, payload: seq<byte>)
    requires |payload| % 2 == 0 && SummedFrom(address) <= |payload|
    ensures PayloadChecksum(address, payload) ==
              Some(ChecksumOf(Words(payload[SummedFrom(address)..], (|payload| - SummedFrom(address)) / 2)))
  {
    var rest := payload[SummedFrom(address)..];
    assert Words(rest, 0) == [];
  }

  // A payload of odd length would be read one byte beyond its end.
  lemma OddPayloadsOverrun(address: nat, payload: seq<byte>)
    requires |payload| % 2 == 1 && (address == 0 || address == 0x1C0 || address == 0x1000 || 12 < |payload|)
    ensures PayloadChecksum(address, payload) == None
  {
  }

  // Which bytes are summed: all of them at the addresses 0, 0x1C0 and 0x1000, those behind the first twelve elsewhere.
  lemma SummedBytes(address: nat)
    ensures SummedFrom(address) == if address in {0, 0x1C0, 0x1000} then 0 else 12
  {
  }

  // ----- The checksum in terms of bytes -----

  // The sum of the first n pairs of bytes, the low byte of each first.
  function PairSum(bytes: seq<byte>, n: nat): nat
    requires 2 * n <= |bytes|
  {
    if n == 0 then 0 else PairSum(bytes, n - 1) + Val(bytes[2 * n - 2]) + 0x100 * Val(bytes[2 * n - 1])
  }

  // The xor of the even bytes (k = 0) or the odd ones (k = 1) of the first n pairs.
  function PairXor(bytes: seq<byte>, n: nat, k: nat): byte
    requires 2 * n <= |bytes| && k < 2
  {
    if n == 0 then 0 else PairXor(bytes, n - 1, k) ^ bytes[2 * n - 2 + k]
  }

  lemma {:induction false} SumOfBytes(bytes: seq<byte>, n: nat)
    requires 2 * n <= |bytes|
    ensures Sum(Words(bytes, n)) == PairSum(bytes, n) % 0x1_0000
    ensures Xor(Words(bytes, n)) == Word(PairXor(bytes, n, 0), PairXor(bytes, n, 1))
  {
    if n > 0 {
      SumOfBytes(bytes, n - 1);
      var w := Word(bytes[2 * n - 2], bytes[2 * n - 1]);
      assert Words(bytes, n) == Words(bytes, n - 1) + [w];
      SumPush(Words(bytes, n - 1), w);
      XorPush(Words(bytes, n - 1), w);
      hide Value, PairXor, Sum, Xor;
      AddModulo(PairSum(bytes, n - 1), Value(w));
      PairStep(bytes, n);
    }
  }

  lemma XorPush(ws: seq<Word>, w: Word)
    ensures Xor(ws + [w]) == XorWords(Xor(ws), w)
  {
    assert (ws + [w])[..|ws|] == ws;
  }

  lemma PairStep(bytes: seq<byte>, n: nat)
    requires 0 < n && 2 * n <= |bytes|
    ensures var w := Word(bytes[2 * n - 2], bytes[2 * n - 1]);
            && PairSum(bytes, n) == PairSum(bytes, n - 1) + Value(w)
            && Word(PairXor(bytes, n, 0), PairXor(bytes, n, 1)) ==
               XorWords(Word(PairXor(bytes, n - 1, 0), PairXor(bytes, n - 1, 1)), w)
  {
  }

  // The lower half of the checksum is the sum modulo 2^16, the upper half the xor of the even bytes below that of the
  // odd ones.
  ghost predicate IsChecksum(checksum: nat, bytes: seq<byte>, n: nat)
    requires 2 * n <= |bytes|
  {
    && checksum % 0x1_0000 == PairSum(bytes, n) % 0x1_0000
    && checksum / 0x1_0000 % 0x100 == Val(PairXor(bytes, n, 0))
    && checksum / 0x1_0000 / 0x100 == Val(PairXor(bytes, n, 1))
  }

  lemma Halves(bytes: seq<byte>, n: nat)
    requires 2 * n <= |bytes|
    ensures IsChecksum(ChecksumOf(Words(bytes, n)), bytes, n)
  {
    hide Val, Sum, Xor, PairXor, PairSum;
    SumOfBytes(bytes, n);
    Unpacked(Val(PairXor(bytes, n, 0)), Val(PairXor(bytes, n, 1)), PairSum(bytes, n) % 0x1_0000);
  }

  lemma Unpacked(lo: nat, hi: nat, sum: nat)
    requires lo < 0x100 && hi < 0x100 && sum < 0x1_0000
    ensures var c := (lo + 0x100 * hi) * 0x1_0000 + sum;
            c % 0x1_0000 == sum && c / 0x1_0000 % 0x100 == lo && c / 0x1_0000 / 0x100 == hi
  {
  }

  // Two words, 1 and 3: their sum is 4, their xor 2.
  lemma TwoWords()
    ensures ChecksumOf(Words([0x01, 0x00, 0x03, 0x00], 2)) == 0x0002_0004
  {
    var bytes: seq<byte> := [0x01, 0x00, 0x03, 0x00];
    TwoSum();
    TwoXor();
    hide PairSum, PairXor, Words, Sum, Xor, Val;
    SumOfBytes(bytes, 2);
    SmallValues();
  }

  lemma SmallValues()
    ensures Val(0) == 0 && Val(2) == 2
  {
  }

  lemma TwoSum()
    ensures PairSum([0x01, 0x00, 0x03, 0x00], 2) == 4
  {
    var bytes: seq<byte> := [0x01, 0x00, 0x03, 0x00];
    assert PairSum(bytes, 1) == 1;
  }

  lemma TwoXor()
    ensures PairXor([0x01, 0x00, 0x03, 0x00], 2, 0) == 2 && PairXor([0x01, 0x00, 0x03, 0x00], 2, 1) == 0
  {
    var bytes: seq<byte> := [0x01, 0x00, 0x03, 0x00];
    assert PairXor(bytes, 1, 0) == 1 && PairXor(bytes, 1, 1) == 0;
  }

  // The loop that computes sum and xor over the first n words.
  method FwCalcChecksum(bytes: seq<byte>, n: nat) returns (checksum: nat)
    requires 2 * n <= |bytes|
    ensures checksum == ChecksumOf(Words(bytes, n))
    ensures IsChecksum(checksum, bytes, n)
  {
    hide Value;
    var sum: nat, xor := 0, Word(0, 0);
    ghost var ws := Words(bytes, n);
    var i := 0;
    while i < n
      invariant 0 <= i <= n
      invariant sum == Sum(ws[..i]) && xor == Xor(ws[..i])
    {
      var w := Word(bytes[2 * i], bytes[2 * i + 1]);
      assert ws[..i + 1][..i] == ws[..i] && ws[..i + 1][i] == w;
      sum := (sum + Value(w)) % 0x1_0000;
      xor := XorWords(xor, w);
      i := i + 1;
    }
    assert ws[..n] == ws;
    checksum := Pack(xor, sum);
    Halves(bytes, n);
  }
}
