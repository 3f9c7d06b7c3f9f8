/** The raw-frame queue between the interrupt handler that fills frames and the ioctl that copies them out. */
module RawQueue {
  import opened Wrappers

  // Slots of the ring; one always stays empty, so that full and empty differ.
  const QUEUE_SLOTS := 11

  type Sample = int
  type Frame = seq<Sample>

  function Next(i: nat): (n: nat)
    ensures n < QUEUE_SLOTS
  {
    (i + 1) % QUEUE_SLOTS
  }

  // Slot of the k-th waiting frame.
  function SlotOf(front: nat, k: nat): (n: nat)
    requires front < QUEUE_SLOTS && k < QUEUE_SLOTS
    ensures n < QUEUE_SLOTS
  {
    if front + 1 + k < QUEUE_SLOTS then front + 1 + k else front + 1 + k - QUEUE_SLOTS
  }

  // Number of published frames that wait to be consumed.
  function Occupancy(front: nat, rear: nat): (n: nat)
    requires front < QUEUE_SLOTS && rear < QUEUE_SLOTS
    ensures n < QUEUE_SLOTS
  {
    if front <= rear then rear - front else rear + QUEUE_SLOTS - front
  }

  // ----- The queue as the driver's record -----

  // The ring is what the queue stands for: every call is one of the steps below.
  class Queue {
    var front: nat
    var rear: nat
    ghost var ring: Ring

    ghost predicate Valid()
      reads this
    {
      Inv(ring) && ring.front == front && ring.rear == rear
    }

    constructor (slots: seq<Frame>)
      requires |slots| == QUEUE_SLOTS
      ensures Valid() && Initial(ring) && ring.slots == slots
    {
      front, rear := 0, 0;
      ring := Ring(slots, 0, 0, None, None, [], []);
    }

    // The slot to fill next, unless the ring is full.
    method GetRearQueueBuff() returns (slot: Option<nat>)
      requires Valid()
      modifies this`ring
      ensures Valid() && slot == ring.filling
      ensures slot == None <==> Occupancy(front, rear) == QUEUE_SLOTS - 1
      ensures slot.Some? ==> slot.value == SlotOf(front, Occupancy(front, rear))
      ensures Step(old(ring), Reserve, ring)
    {
      if Next(rear) == front {
        ring := ring.(filling := None);
        return None;
      }
      ring := ring.(filling := Some(Next(rear)));
      return Some(Next(rear));
    }

    method PutQueue() returns (err: int)
      requires Valid()
      modifies this`rear, this`ring
      ensures Valid()
      ensures err == 0 <==> old(Occupancy(front, rear)) < QUEUE_SLOTS - 1
      ensures Occupancy(front, rear) == old(Occupancy(front, rear)) + (if err == 0 then 1 else 0)
      ensures rear == if err == 0 then Next(old(rear)) else old(rear)
      ensures Step(old(ring), Publish, ring)
    {
      ghost var was := ring;
      if Next(rear) == front {
        ring := ring.(filling := None);
        return -1;
      }
      ring := ring.(filling := None, rear := Next(rear), published := ring.published + [ring.slots[Next(rear)]]);
      rear := Next(rear);
      StepKeepsInv(was, Publish, ring);
      return 0;
    }

    // The slot of the oldest frame, unless there is none.
    method GetFrontQueueBuff() returns (slot: Option<nat>)
      requires Valid()
      modifies this`ring
      ensures Valid()
      ensures slot == None <==> Occupancy(front, rear) == 0
      ensures slot.Some? ==> slot.value == Next(front)
      ensures Step(old(ring), Peek, ring)
    {
      if front == rear {
        ring := ring.(copying := None);
        return None;
      }
      ring := ring.(copying := Some((Next(front), [])));
      return Some(Next(front));
    }

    method GetQueue() returns (err: int)
      requires Valid()
      modifies this`front, this`ring
      ensures Valid()
      ensures err == 0 <==> 0 < old(Occupancy(front, rear))
      ensures Occupancy(front, rear) == old(Occupancy(front, rear)) - (if err == 0 then 1 else 0)
      ensures front == if err == 0 then Next(old(front)) else old(front)
      ensures Step(old(ring), Release, ring)
    {
      ghost var was := ring;
      if front == rear {
        ring := ring.(copying := None);
        return -1;
      }
      ring := ring.(copying := None, front := Next(front), consumed := ring.consumed + [ring.Copied()]);
      front := Next(front);
      StepKeepsInv(was, Release, ring);
      return 0;
    }
  }

  // ----- Producer and consumer interleaved -----

  // The producer may hold a slot that it is filling, the consumer a slot that it is copying and the part of it copied
  // so far. The last two fields are histories: frames published, and what was copied of the frames released.
  datatype Ring = Ring(slots: seq<Frame>, front: nat, rear: nat,
                       filling: Option<nat>, copying: Option<(nat, Frame)>,
                       published: seq<Frame>, consumed: seq<Frame>)
  {
    function Copied(): Frame {
      if copying.Some? then copying.value.1 else []
    }
  }

  predicate Full(r: Ring) {
    Next(r.rear) == r.front
  }

  predicate Empty(r: Ring) {
    r.front == r.rear
  }

  // One step of either side, in any order: cells are written and read one at a time, and the consumer may release a
  // frame of which it copied only the first cells.
  datatype Action =
    | Reserve
    | Fill(cell: nat, value: Sample)
    | AbandonFill
    | Publish
    | Peek
    | Copy
    | AbandonCopy
    | Release

  ghost predicate Step(r: Ring, a: Action, r': Ring)
    requires |r.slots| == QUEUE_SLOTS && r.front < QUEUE_SLOTS && r.rear < QUEUE_SLOTS
  {
    match a
    case Reserve => r' == r.(filling := if Full(r) then None else Some(Next(r.rear)))
    case Fill(cell, value) =>
      && r.filling.Some? && r.filling.value < QUEUE_SLOTS && cell < |r.slots[r.filling.value]|
      && r' == r.(slots := r.slots[r.filling.value := r.slots[r.filling.value][cell := value]])
    case AbandonFill => r.filling.Some? && r' == r.(filling := None)
    case Publish =>
      if Full(r) then r' == r.(filling := None)
      else r' == r.(filling := None, rear := Next(r.rear), published := r.published + [r.slots[Next(r.rear)]])
    case Peek => r' == r.(copying := if Empty(r) then None else Some((Next(r.front), [])))
    case Copy =>
      && r.copying.Some? && r.copying.value.0 < QUEUE_SLOTS
      && |r.copying.value.1| < |r.slots[r.copying.value.0]|
      && var frame := r.slots[r.copying.value.0];
         r' == r.(copying := Some((r.copying.value.0, r.copying.value.1 + [frame[|r.copying.value.1|]])))
    case AbandonCopy => r.copying.Some? && r' == r.(copying := None)
    case Release =>
      if Empty(r) then r' == r.(copying := None)
      else r' == r.(copying := None, front := Next(r.front), consumed := r.consumed + [r.Copied()])
  }

  ghost predicate Initial(r: Ring) {
    && |r.slots| == QUEUE_SLOTS && r.front == r.rear == 0
    && r.filling == None && r.copying == None && r.published == [] && r.consumed == []
  }

  // A run: every state follows from the one before by some action.
  ghost predicate Run(states: seq<Ring>, actions: seq<Action>) {
    && |states| == |actions| + 1
    && Initial(states[0])
    && forall k :: 0 <= k < |actions| ==>
         && |states[k].slots| == QUEUE_SLOTS && states[k].front < QUEUE_SLOTS && states[k].rear < QUEUE_SLOTS
         && Step(states[k], actions[k], states[k + 1])
  }

  // What every reachable state satisfies.
  ghost predicate Inv(r: Ring) {
    && |r.slots| == QUEUE_SLOTS && r.front < QUEUE_SLOTS && r.rear < QUEUE_SLOTS
    && |r.published| == |r.consumed| + Occupancy(r.front, r.rear)
    && (forall k :: 0 <= k < |r.consumed| ==> r.consumed[k] <= r.published[k])
    && (forall k :: 0 <= k < Occupancy(r.front, r.rear) ==>
          r.slots[SlotOf(r.front, k)] == r.published[|r.consumed| + k])
    && (r.filling.Some? ==> r.filling.value == Next(r.rear) && !Full(r))
    && (r.copying.Some? ==>
          && r.copying.value.0 == Next(r.front) && !Empty(r)
          && r.copying.value.1 <= r.slots[Next(r.front)])
  }

  // The slot after the last waiting frame is none of theirs, and is the next to fill.
  lemma RearIsFree(front: nat, rear: nat)
    requires front < QUEUE_SLOTS && rear < QUEUE_SLOTS
    ensures Next(rear) == SlotOf(front, Occupancy(front, rear))
    ensures Next(rear) != front ==>
              forall k :: 0 <= k < Occupancy(front, rear) ==> SlotOf(front, k) != Next(rear)
    ensures Next(rear) != front ==> Occupancy(front, Next(rear)) == Occupancy(front, rear) + 1
    ensures Next(front) == SlotOf(front, 0)
    ensures Next(rear) == Next(front) ==> front == rear
  {
  }

  lemma FrontAdvances(front: nat, rear: nat)
    requires front < QUEUE_SLOTS && rear < QUEUE_SLOTS && front != rear
    ensures Occupancy(Next(front), rear) == Occupancy(front, rear) - 1
    ensures forall k :: 0 <= k < Occupancy(Next(front), rear) ==> SlotOf(Next(front), k) == SlotOf(front, k + 1)
  {
  }

  lemma StepKeepsInv(r: Ring, a: Action, r': Ring)
    requires Inv(r) && Step(r, a, r')
    ensures Inv(r')
  {
    hide Next, SlotOf, Occupancy;
    RearIsFree(r.front, r.rear);
    if a.Release? && !Empty(r) {
      FrontAdvances(r.front, r.rear);
      assert r.slots[SlotOf(r.front, 0)] == r.published[|r.consumed| + 0];
      assert r.Copied() <= r.published[|r.consumed|];
    }
  }

  lemma PrefixesOfSameLength(a: seq<Frame>, b: seq<Frame>)
    requires |a| <= |b| && forall j :: 0 <= j < |a| ==> a[j] <= b[j] && |a[j]| == |b[j]|
    ensures a <= b
  {
    forall j | 0 <= j < |a| ensures a[j] == b[j] {
      assert a[j] == b[j][..|a[j]|] == b[j];
    }
  }

  // What the invariant means: producer and consumer do not hold the same slot, one slot less than the ring's size is
  // occupied at most, and the k-th release took the first cells of the k-th frame published, all of them if it copied
  // that many.
  ghost predicate Safe(r: Ring)
    requires r.front < QUEUE_SLOTS && r.rear < QUEUE_SLOTS
  {
    && (r.filling.Some? && r.copying.Some? ==> r.filling.value != r.copying.value.0)
    && Occupancy(r.front, r.rear) <= QUEUE_SLOTS - 1
    && |r.published| - |r.consumed| == Occupancy(r.front, r.rear)
    && (forall j :: 0 <= j < |r.consumed| ==> r.consumed[j] <= r.published[j])
    && ((forall j :: 0 <= j < |r.consumed| ==> |r.consumed[j]| == |r.published[j]|) ==> r.consumed <= r.published)
  }

  lemma InvIsSafe(r: Ring)
    requires Inv(r)
    ensures Safe(r)
  {
    RearIsFree(r.front, r.rear);
    hide Next, SlotOf;
    if forall j :: 0 <= j < |r.consumed| ==> |r.consumed[j]| == |r.published[j]| {
      PrefixesOfSameLength(r.consumed, r.published);
    }
  }

  // Every state of every run is safe, whatever the interleaving.
  lemma {:induction false} RunsAreSafe(states: seq<Ring>, actions: seq<Action>, k: nat)
    requires Run(states, actions) && k < |states|
    ensures Inv(states[k]) && Safe(states[k])
  {
    if k == 0 {
      assert Inv(states[0]);
    } else {
      hide Inv, Step;
      RunsAreSafe(states, actions, k - 1);
      StepKeepsInv(states[k - 1], actions[k - 1], states[k]);
    }
    InvIsSafe(states[k]);
  }
}
