/** The hardware key report: which keys are held, and the key events sent for a report. Words are their 32 bits, the
    least significant first. */
module Keys {
  import opened Wrappers

  const KEYMAP_SIZE := 16
  const WORD_SIZE := 32

  type Word = w: seq<bool> | |w| == WORD_SIZE witness seq(WORD_SIZE, _ => false)

  // A 16-bit mask in a 32-bit word.
  predicate IsShort(w: Word) {
    forall j :: KEYMAP_SIZE <= j < WORD_SIZE ==> !w[j]
  }

  function Zero(): Word {
    seq(WORD_SIZE, _ => false)
  }

  function Or(a: Word, b: Word): Word {
    seq(WORD_SIZE, j requires 0 <= j < WORD_SIZE => a[j] || b[j])
  }

  function And(a: Word, b: Word): Word {
    seq(WORD_SIZE, j requires 0 <= j < WORD_SIZE => a[j] && b[j])
  }

  function AndNot(a: Word, b: Word): Word {
    seq(WORD_SIZE, j requires 0 <= j < WORD_SIZE => a[j] && !b[j])
  }

  function ShiftLeft(a: Word, k: nat): Word {
    seq(WORD_SIZE, j requires 0 <= j < WORD_SIZE => k <= j && a[j - k])
  }

  function ShiftRight(a: Word, k: nat): Word {
    seq(WORD_SIZE, j requires 0 <= j < WORD_SIZE => j + k < WORD_SIZE && a[j + k])
  }

  // A key event: the index of the key in the key map, and press or release.
  datatype KeyEvent = Key(index: nat, pressed: bool)

  // The presses for the set bits below n, lowest first.
  function Presses(mask: Word, n: nat): seq<KeyEvent>
    requires n <= KEYMAP_SIZE
  {
    if n == 0 then []
    else Presses(mask, n - 1) + (if mask[n - 1] then [Key(n - 1, true)] else [])
  }

  // The lowest set bit below n.
  function Lowest(mask: Word, n: nat): (i: Option<nat>)
    requires n <= KEYMAP_SIZE
    ensures i.Some? ==> i.value < n && mask[i.value] && forall j :: 0 <= j < i.value ==> !mask[j]
    ensures i == None ==> forall j :: 0 <= j < n ==> !mask[j]
  {
    if n == 0 then None
    else if Lowest(mask, n - 1).Some? then Lowest(mask, n - 1)
    else if mask[n - 1] then Some(n - 1)
    else None
  }

  // The release sent when the keys of up are reported released: none if none of them is held, and otherwise one, for
  // the lowest of them, whether or not that one is held.
  function Releases(held: Word, up: Word, n: nat): seq<KeyEvent>
    requires n <= KEYMAP_SIZE
  {
    if And(held, up) != Zero() && Lowest(up, n).Some? then [Key(Lowest(up, n).value, false)] else []
  }

  // The part of a mask that a shifted copy still covers.
  lemma ShiftedBack(mask: Word, i: nat)
    requires i < WORD_SIZE
    ensures forall j :: 0 <= j < WORD_SIZE ==> ShiftLeft(ShiftRight(mask, i), i)[j] == (i <= j && mask[j])
    ensures ShiftRight(ShiftRight(mask, i), 1) == ShiftRight(mask, i + 1)
    ensures ShiftRight(mask, i)[0] == mask[i]
  {
  }

  // ORing what is left from the first set bit on ORs the whole mask.
  lemma OrRest(k: Word, mask: Word, i: nat)
    requires i < WORD_SIZE
    ensures var rest := ShiftLeft(ShiftRight(mask, i), i);
            && ((forall j :: 0 <= j < i ==> !mask[j]) ==> Or(k, rest) == Or(k, mask))
            && Or(Or(k, mask), rest) == Or(k, mask)
  {
    ShiftedBack(mask, i);
  }

  // Clearing what is left from the first set bit on clears the whole mask, and then nothing of it is set.
  lemma ClearRest(k: Word, mask: Word, i: nat)
    requires i < WORD_SIZE
    ensures var rest := ShiftLeft(ShiftRight(mask, i), i);
            && ((forall j :: 0 <= j < i ==> !mask[j]) ==>
                  AndNot(k, rest) == AndNot(k, mask) && And(k, rest) == And(k, mask))
            && And(AndNot(k, mask), rest) == Zero()
            && (And(k, mask) == Zero() ==> AndNot(k, mask) == k)
  {
    ShiftedBack(mask, i);
    if And(k, mask) == Zero() {
      forall j | 0 <= j < WORD_SIZE ensures AndNot(k, mask)[j] == k[j] {
        assert And(k, mask)[j] == Zero()[j];
      }
    }
  }

  lemma EmptyMask(k: Word, mask: Word)
    requires IsShort(mask) && Lowest(mask, KEYMAP_SIZE) == None
    ensures Or(k, mask) == k && AndNot(k, mask) == k && And(k, mask) == Zero()
  {
  }

  class KeyState {
    var keydata: Word
    ghost var sent: seq<KeyEvent>

    constructor ()
      ensures keydata == Zero() && sent == []
    {
      keydata, sent := Zero(), [];
    }

    method Press(keydown: Word)
      requires IsShort(keydown)
      modifies this
      ensures keydata == Or(old(keydata), keydown)
      ensures sent == old(sent) + Presses(keydown, KEYMAP_SIZE)
    {
      hide Or, ShiftLeft, ShiftRight;
      var key := keydown;
      var i := 0;
      NoShift(keydown);
      while i < KEYMAP_SIZE
        invariant 0 <= i <= KEYMAP_SIZE && key == ShiftRight(keydown, i)
        invariant keydata == if Lowest(keydown, i) == None then old(keydata) else Or(old(keydata), keydown)
        invariant sent == old(sent) + Presses(keydown, i)
      {
        ShiftedBack(keydown, i);
        OrRest(old(keydata), keydown, i);
        if key[0] {
          sent := sent + [Key(i, true)];
          keydata := Or(keydata, ShiftLeft(key, i));
        }
        key := ShiftRight(key, 1);
        i := i + 1;
      }
      if Lowest(keydown, KEYMAP_SIZE) == None {
        EmptyMask(old(keydata), keydown);
      }
    }

    method Release(keyup: Word)
      requires IsShort(keyup)
      modifies this
      ensures keydata == AndNot(old(keydata), keyup)
      ensures sent == old(sent) + Releases(old(keydata), keyup, KEYMAP_SIZE)
    {
      hide And, AndNot, ShiftLeft, ShiftRight, Zero;
      var key := keyup;
      var i := 0;
      NoShift(keyup);
      while i < KEYMAP_SIZE
        invariant 0 <= i <= KEYMAP_SIZE && key == ShiftRight(keyup, i)
        invariant keydata == if Lowest(keyup, i) == None then old(keydata) else AndNot(old(keydata), keyup)
        invariant sent == old(sent) + Releases(old(keydata), keyup, i)
      {
        ShiftedBack(keyup, i);
        ClearRest(old(keydata), keyup, i);
        if key[0] {
          if And(keydata, ShiftLeft(key, i)) != Zero() {
            sent := sent + [Key(i, false)];
            keydata := AndNot(keydata, ShiftLeft(key, i));
          }
        }
        key := ShiftRight(key, 1);
        i := i + 1;
      }
      if Lowest(keyup, KEYMAP_SIZE) == None {
        EmptyMask(old(keydata), keyup);
      }
    }

    // A report: the held-key word becomes (old | down) & ~up although the loops work with shifting partial masks.
    method SendKey(keydown: Word, keyup: Word)
      requires IsShort(keydown) && IsShort(keyup)
      modifies this
      ensures keydata == AndNot(Or(old(keydata), keydown), keyup)
      ensures sent == old(sent) + (Presses(keydown, KEYMAP_SIZE) +
                                   Releases(Or(old(keydata), keydown), keyup, KEYMAP_SIZE))
    {
      Press(keydown);
      Release(keyup);
    }
  }

  lemma NoShift(mask: Word)
    ensures ShiftRight(mask, 0) == mask
  {
  }

  // The presses of a report are those of the set bits, each once and the lowest first.
  lemma {:induction false} PressesAreSetBits(down: Word, n: nat)
    requires n <= KEYMAP_SIZE
    ensures forall i: nat :: Key(i, true) in Presses(down, n) <==> i < n && down[i]
    ensures forall e :: e in Presses(down, n) ==> e.pressed && e.index < n
    ensures forall a, b :: 0 <= a < b < |Presses(down, n)| ==> Presses(down, n)[a].index < Presses(down, n)[b].index
  {
    if n > 0 {
      PressesAreSetBits(down, n - 1);
    }
  }

  // The releases of a report are right: one for every reported key that is held, and none for any other.
  ghost predicate ReleasesExact(held: Word, up: Word) {
    forall i :: 0 <= i < KEYMAP_SIZE ==>
      (Key(i, false) in Releases(held, up, KEYMAP_SIZE) <==> held[i] && up[i])
  }

  // They are right exactly when no reported key is held, or the only one that is held is the lowest one reported.
  lemma ReleasesExactIff(held: Word, up: Word)
    requires IsShort(up)
    ensures ReleasesExact(held, up) <==>
              And(held, up) == Zero()
              || exists low :: 0 <= low < KEYMAP_SIZE && up[low] && held[low]
                               && (forall j :: 0 <= j < low ==> !up[j])
                               && (forall j :: low < j < WORD_SIZE ==> !(up[j] && held[j]))
  {
    var both, r := And(held, up), Releases(held, up, KEYMAP_SIZE);
    if both == Zero() {
      forall i | 0 <= i < KEYMAP_SIZE ensures !(held[i] && up[i]) {
        assert both[i] == Zero()[i];
      }
    } else {
      var k :| 0 <= k < WORD_SIZE && both[k] != Zero()[k];
      assert k < KEYMAP_SIZE && up[k];
      var low := Lowest(up, KEYMAP_SIZE).value;
      assert r == [Key(low, false)];
      assert forall i :: Key(i, false) in r <==> i == low;
    }
  }

  // With a single key reported released, its release is sent exactly if it is held after the presses.
  lemma SingleRelease(held: Word, up: Word, i: nat)
    requires i < KEYMAP_SIZE && up[i] && forall j :: 0 <= j < WORD_SIZE && j != i ==> !up[j]
    ensures Releases(held, up, KEYMAP_SIZE) == if held[i] then [Key(i, false)] else []
  {
    assert And(held, up)[i] == held[i];
    if !held[i] {
      assert And(held, up) == Zero();
    } else {
      assert Zero()[i] == false;
    }
  }

  // A word with the given keys set.
  function KeysIn(keys: set<nat>): Word {
    seq(WORD_SIZE, j => j in keys)
  }

  // Key 1 is held, keys 0 and 1 are reported released: a release is sent for key 0, and none for key 1.
  lemma WrongRelease()
    ensures var held, up := KeysIn({1}), KeysIn({0, 1});
            Releases(held, up, KEYMAP_SIZE) == [Key(0, false)] && !ReleasesExact(held, up)
  {
    var held, up := KeysIn({1}), KeysIn({0, 1});
    assert And(held, up)[1] && !Zero()[1];
    assert up[0];
    assert Key(0, false) in Releases(held, up, KEYMAP_SIZE) && !held[0];
  }
}
