/** Remainders and quotients by a size that is not a constant. */
module Arithmetic {

  lemma AtLeastOnce(k: nat, size: nat)
    requires 0 < k
    ensures size <= k * size
  {
  }

  lemma ProductMonotone(a: nat, b: nat, k: nat)
    requires a <= b
    ensures k * a <= k * b
  {
  }

  lemma QuotientUnique(a: nat, size: nat, q: nat, r: nat)
    requires 0 < size && a == q * size + r && r < size
    ensures a / size == q && a % size == r
  {
    var q', r' := a / size, a % size;
    assert a == q' * size + r';
    if q' < q {
      AtLeastOnce(q - q', size);
      assert false;
    } else if q < q' {
      AtLeastOnce(q' - q, size);
      assert false;
    }
  }

  // One size further the remainder is the same.
  lemma StepRemainder(a: nat, size: nat)
    requires 0 < size
    ensures (a + size) % size == a % size
  {
    var q, r := a / size, a % size;
    assert a == q * size + r;
    assert a + size == (q + 1) * size + r;
    QuotientUnique(a + size, size, q + 1, r);
  }

  // So it is any number of sizes further.
  lemma {:induction false} WalkRemainder(a: nat, size: nat, i: nat)
    requires 0 < size
    ensures (a + size * i) % size == a % size
  {
    if i > 0 {
      WalkRemainder(a, size, i - 1);
      StepRemainder(a + size * (i - 1), size);
      assert a + size * (i - 1) + size == a + size * i;
    }
  }
}
