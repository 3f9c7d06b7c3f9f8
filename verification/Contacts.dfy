/** The contact bookkeeping of the touch report: which contacts are held down, against the events that were sent. */
module Contacts {
  import opened Bytes

  const MAX_POINT := 10

  const ID_AXIS_LAST: byte := 0x0E
  const ID_GESTURE: byte := 0xF6
  const KNOCK_ON: byte := 0x04
  const KNOCK_CODE: byte := 0x08
  const PALM_REJECT: byte := 0x02

  // A contact event sent to the input system.
  datatype Event = Touch(id: nat, down: bool)

  // One six-byte point of a report, by its first byte: a contact with its weight, a gesture, or something that does
  // not concern contacts (keys, aux, unknown).
  datatype Point =
    | Axis(id: nat, weight: nat)
    | Gesture(knock: bool, palmReject: bool)
    | Other
  {
    // Identifiers up to 14 are contacts, but the table of held contacts has ten entries.
    predicate InTable() {
      Axis? ==> id < MAX_POINT
    }
  }

  // The six bytes of a point. Byte 0 tells what it is; for a gesture bytes 1 and 2 are its code and status, for a
  // contact byte 4 is the weight.
  datatype RawPoint = RawPoint(id: byte, b1: byte, b2: byte, b3: byte, b4: byte, b5: byte)

  function Classify(p: RawPoint): Point {
    if p.id == ID_GESTURE then
      Gesture(p.b2 & KNOCK_ON != 0 || p.b1 != 0 || p.b2 & KNOCK_CODE != 0, p.b2 & PALM_REJECT != 0)
    else if p.id <= ID_AXIS_LAST then Axis(Val(p.id), Val(p.b4))
    else Other
  }

  function Classified(ps: seq<RawPoint>): (r: seq<Point>)
    ensures |r| == |ps| && forall i :: 0 <= i < |ps| ==> r[i] == Classify(ps[i])
  {
    seq(|ps|, i requires 0 <= i < |ps| => Classify(ps[i]))
  }

  // What the driver remembers, and the history of events.
  datatype State = State(held: seq<bool>, lastValid: int, events: seq<Event>)

  // Whether the last event of a contact was a down.
  predicate LastDown(events: seq<Event>, id: nat) {
    events != [] &&
    var e := events[|events| - 1];
    if e.id == id then e.down else LastDown(events[..|events| - 1], id)
  }

  function CountTrue(s: seq<bool>): nat {
    if s == [] then 0 else CountTrue(s[..|s| - 1]) + (if s[|s| - 1] then 1 else 0)
  }

  // The ups of the contacts below n that are held, in order.
  function Ups(held: seq<bool>, n: nat): seq<Event>
    requires n <= |held|
  {
    if n == 0 then [] else Ups(held, n - 1) + (if held[n - 1] then [Touch(n - 1, false)] else [])
  }

  function NoneHeld(): seq<bool> {
    seq(MAX_POINT, _ => false)
  }

  // Sends an up for every held contact, unless the last report counted none.
  function Released(s: State): State
    requires |s.held| == MAX_POINT
  {
    if s.lastValid <= 0 then s
    else State(NoneHeld(), 0, s.events + Ups(s.held, MAX_POINT))
  }

  function AfterAxis(s: State, id: nat, weight: nat): State
    requires |s.held| == MAX_POINT && id < MAX_POINT
  {
    State(s.held[id := weight != 0], if weight != 0 then s.lastValid + 1 else s.lastValid,
          s.events + [Touch(id, weight != 0)])
  }

  function AfterPoint(s: State, p: Point): (r: State)
    requires |s.held| == MAX_POINT && p.InTable()
    ensures |r.held| == MAX_POINT
  {
    match p
    case Axis(id, weight) => AfterAxis(s, id, weight)
    case Gesture(knock, palmReject) => if !knock && palmReject then Released(s) else s
    case Other => s
  }

  function AfterPoints(s: State, ps: seq<Point>): (r: State)
    requires |s.held| == MAX_POINT && forall p :: p in ps ==> p.InTable()
    ensures |r.held| == MAX_POINT
  {
    if ps == [] then s else AfterPoint(AfterPoints(s, ps[..|ps| - 1]), ps[|ps| - 1])
  }

  // A whole report; one without points is a release.
  function AfterReport(s: State, ps: seq<Point>): (r: State)
    requires |s.held| == MAX_POINT && forall p :: p in ps ==> p.InTable()
    ensures |r.held| == MAX_POINT
  {
    if ps == [] then Released(s) else AfterPoints(s.(lastValid := 0), ps)
  }

  function AfterReports(s: State, reports: seq<seq<Point>>): (r: State)
    requires |s.held| == MAX_POINT && forall ps, p :: ps in reports && p in ps ==> p.InTable()
    ensures |r.held| == MAX_POINT
  {
    if reports == [] then s else AfterReport(AfterReports(s, reports[..|reports| - 1]), reports[|reports| - 1])
  }

  function Initial(): State {
    State(NoneHeld(), 0, [])
  }

  // ----- The driver's record -----

  class TouchState {
    var upEvent: array<bool>
    var lastValidCnt: int
    ghost var events: seq<Event>

    ghost predicate Valid()
      reads this
    {
      upEvent.Length == MAX_POINT
    }

    ghost function View(): State
      reads this, upEvent
    {
      State(upEvent[..], lastValidCnt, events)
    }

    constructor ()
      ensures Valid() && fresh(upEvent) && View() == Initial()
    {
      upEvent := new bool[MAX_POINT](_ => false);
      lastValidCnt, events := 0, [];
      new;
      assert upEvent[..] == NoneHeld();
    }

    method TouchDownUp(id: nat, down: bool)
      modifies this`events
      ensures events == old(events) + [Touch(id, down)]
    {
      events := events + [Touch(id, down)];
    }

    method SendAxis(id: nat, weight: nat)
      requires Valid() && id < MAX_POINT
      modifies this`lastValidCnt, this`events, upEvent
      ensures Valid() && View() == AfterAxis(old(View()), id, weight)
    {
      if weight != 0 {
        TouchDownUp(id, true);
        lastValidCnt := lastValidCnt + 1;
        upEvent[id] := true;
      } else {
        TouchDownUp(id, false);
        upEvent[id] := false;
      }
      assert upEvent[..] == old(upEvent[..])[id := weight != 0];
    }

    method ReportRelease()
      requires Valid()
      modifies this`lastValidCnt, this`events, upEvent
      ensures Valid() && View() == Released(old(View()))
    {
      if lastValidCnt <= 0 {
        return;
      }
      ghost var held := upEvent[..];
      assert old(events) + [] == old(events);
      for i := 0 to MAX_POINT
        invariant Valid() && lastValidCnt == old(lastValidCnt)
        invariant events == old(events) + Ups(held, i)
        invariant forall j :: 0 <= j < i ==> !upEvent[j]
        invariant forall j :: i <= j < MAX_POINT ==> upEvent[j] == held[j]
      {
        if upEvent[i] {
          TouchDownUp(i, false);
          upEvent[i] := false;
        }
      }
      assert upEvent[..] == NoneHeld();
      lastValidCnt := 0;
    }

    // A report of the points that the controller delivered.
    method Report(points: seq<RawPoint>)
      requires Valid() && forall p :: p in Classified(points) ==> p.InTable()
      modifies this`lastValidCnt, this`events, upEvent
      ensures Valid() && View() == AfterReport(old(View()), Classified(points))
      ensures |points| == 1 && points[0].id < 10 ==>
                var id, down := Val(points[0].id), points[0].b4 != 0;
                && id < 10
                && View() == State(old(upEvent[..])[id := down], if down then 1 else 0, old(events) + [Touch(id, down)])
    {
      RawAxis(points, View());
      ghost var ps := Classified(points);
      if |points| == 0 {
        ReportRelease();
        return;
      }
      lastValidCnt := 0;
      ghost var start := View();
      for i := 0 to |points|
        invariant Valid() && View() == AfterPoints(start, ps[..i])
      {
        assert ps[..i + 1][..i] == ps[..i] && ps[..i + 1][i] == ps[i];
        assert ps[i] in ps;
        match Classify(points[i]) {
          case Axis(id, weight) => SendAxis(id, weight);
          case Gesture(knock, palmReject) =>
            if !knock && palmReject {
              ReportRelease();
            }
          case Other =>
        }
      }
      assert ps[..|ps|] == ps;
    }
  }

  // ----- What the bytes of a point mean -----

  // The driver's record after one more raw point of the same report. An identifier below 10 is a contact, with its
  // weight in the fifth byte; 0xF6 is a gesture, which releases the contacts if its status has the palm bit and neither
  // knock bit and its code is zero; identifiers above 14 are otherwise nothing to contacts.
  lemma RawPointMeaning(s: State, ps: seq<RawPoint>, q: RawPoint)
    requires |s.held| == MAX_POINT && ps != [] && forall p :: p in Classified(ps + [q]) ==> p.InTable()
    ensures forall p :: p in Classified(ps) ==> p.InTable()
    ensures var r, r' := AfterReport(s, Classified(ps)), AfterReport(s, Classified(ps + [q]));
            && (q.id < 10 ==>
                  && Val(q.id) < 10
                  && r' == State(r.held[Val(q.id) := q.b4 != 0], if q.b4 != 0 then r.lastValid + 1 else r.lastValid,
                                 r.events + [Touch(Val(q.id), q.b4 != 0)]))
            && (q.id == 0xF6 ==>
                  r' == if q.b1 == 0 && q.b2 & 0x02 != 0 && q.b2 & 0x0C == 0 then Released(r) else r)
            && (q.id > 0x0E && q.id != 0xF6 ==> r' == r)
  {
    var cs, c := Classified(ps), Classify(q);
    assert Classified(ps + [q]) == cs + [c];
    assert c in cs + [c];
    hide Classify, Classified, AfterPoints, Released;
    OnePointMore(s.(lastValid := 0), cs, c);
    RawMeaning(q);
  }

  lemma OnePointMore(s: State, cs: seq<Point>, c: Point)
    requires |s.held| == MAX_POINT && forall p :: p in cs + [c] ==> p.InTable()
    ensures forall p :: p in cs ==> p.InTable()
    ensures AfterPoints(s, cs + [c]) == AfterPoint(AfterPoints(s, cs), c)
  {
    assert (cs + [c])[..|cs|] == cs;
    forall p | p in cs ensures p.InTable() {
      assert p in cs + [c];
    }
  }

  lemma RawMeaning(q: RawPoint)
    ensures q.id <= 0x0E ==> Classify(q) == Axis(Val(q.id), Val(q.b4))
    ensures q.id < 10 ==> Val(q.id) < 10
    ensures (Val(q.b4) != 0) == (q.b4 != 0)
    ensures q.id == 0xF6 ==>
              Classify(q).Gesture? && (Rejects(Classify(q)) <==> q.b1 == 0 && q.b2 & 0x02 != 0 && q.b2 & 0x0C == 0)
    ensures q.id > 0x0E && q.id != 0xF6 ==> Classify(q) == Other
  {
    SmallBytes(q.id);
    SmallBytes(q.b4);
  }

  lemma SmallBytes(b: byte)
    ensures b < 10 <==> Val(b) < 10
    ensures b == 0 <==> Val(b) == 0
  {
  }

  // A report of a single contact.
  lemma RawAxis(points: seq<RawPoint>, s: State)
    requires |s.held| == MAX_POINT && forall p :: p in Classified(points) ==> p.InTable()
    ensures |points| == 1 && points[0].id < 10 ==>
              var id, down := Val(points[0].id), points[0].b4 != 0;
              && id < 10
              && AfterReport(s, Classified(points)) ==
                 State(s.held[id := down], if down then 1 else 0, s.events + [Touch(id, down)])
  {
    if |points| == 1 && points[0].id < 10 {
      RawMeaning(points[0]);
      var cs := Classified(points);
      assert cs == [] + [Classify(points[0])];
      OnePointMore(s.(lastValid := 0), [], Classify(points[0]));
    }
  }

  // ----- The record mirrors the events -----

  // A contact is marked held exactly if its last event was a down.
  ghost predicate Mirrors(s: State) {
    |s.held| == MAX_POINT && forall id: nat :: id < MAX_POINT ==> s.held[id] == LastDown(s.events, id)
  }

  lemma LastDownAppend(events: seq<Event>, e: Event, id: nat)
    ensures LastDown(events + [e], id) == if e.id == id then e.down else LastDown(events, id)
  {
    assert (events + [e])[..|events|] == events;
  }

  // After the ups of the contacts below n, those are up and the others as before.
  lemma {:induction false} LastDownAfterUps(events: seq<Event>, held: seq<bool>, n: nat, id: nat)
    requires n <= |held| && id < |held|
    requires forall i: nat :: i < |held| ==> held[i] == LastDown(events, i)
    ensures LastDown(events + Ups(held, n), id) == (held[id] && n <= id)
  {
    hide LastDown;
    if n == 0 {
      assert events + Ups(held, n) == events;
    } else {
      LastDownAfterUps(events, held, n - 1, id);
      if held[n - 1] {
        assert events + Ups(held, n) == events + Ups(held, n - 1) + [Touch(n - 1, false)];
        LastDownAppend(events + Ups(held, n - 1), Touch(n - 1, false), id);
      } else {
        assert Ups(held, n) == Ups(held, n - 1);
      }
    }
  }

  lemma ReleasedMirrors(s: State)
    requires Mirrors(s)
    ensures Mirrors(Released(s))
  {
    forall id: nat | id < MAX_POINT ensures LastDown(s.events + Ups(s.held, MAX_POINT), id) == false {
      LastDownAfterUps(s.events, s.held, MAX_POINT, id);
    }
  }

  lemma PointMirrors(s: State, p: Point)
    requires Mirrors(s) && p.InTable()
    ensures Mirrors(AfterPoint(s, p))
  {
    ReleasedMirrors(s);
    if p.Axis? {
      forall id: nat | id < MAX_POINT
        ensures AfterPoint(s, p).held[id] == LastDown(AfterPoint(s, p).events, id)
      {
        LastDownAppend(s.events, Touch(p.id, p.weight != 0), id);
      }
    }
  }

  lemma {:induction false} PointsMirror(s: State, ps: seq<Point>)
    requires Mirrors(s) && forall p :: p in ps ==> p.InTable()
    ensures Mirrors(AfterPoints(s, ps))
    decreases |ps|
  {
    if ps != [] {
      PointsMirror(s, ps[..|ps| - 1]);
      PointMirrors(AfterPoints(s, ps[..|ps| - 1]), ps[|ps| - 1]);
    }
  }

  // Over every run of reports the held marks are exactly the contacts whose last event was a down.
  lemma {:induction false} HeldIsLastDown(reports: seq<seq<Point>>)
    requires forall ps, p :: ps in reports && p in ps ==> p.InTable()
    ensures Mirrors(AfterReports(Initial(), reports))
    decreases |reports|
  {
    if reports != [] {
      var n := |reports| - 1;
      HeldIsLastDown(reports[..n]);
      var s := AfterReports(Initial(), reports[..n]);
      assert reports[n] in reports;
      ReleasedMirrors(s);
      PointsMirror(s.(lastValid := 0), reports[n]);
    }
  }

  // ----- The count of valid points -----

  lemma {:induction false} CountUpdate(s: seq<bool>, i: nat, b: bool)
    requires i < |s|
    ensures CountTrue(s[i := b]) == CountTrue(s) + (if b then 1 else 0) - (if s[i] then 1 else 0)
    decreases |s|
  {
    var n := |s| - 1;
    if i == n {
      assert s[i := b][..n] == s[..n];
    } else {
      assert s[i := b][..n] == s[..n][i := b];
      CountUpdate(s[..n], i, b);
    }
  }

  lemma {:induction false} CountNone(s: seq<bool>)
    ensures CountTrue(s) == 0 <==> forall i :: 0 <= i < |s| ==> !s[i]
    decreases |s|
  {
    if s != [] {
      CountNone(s[..|s| - 1]);
    }
  }

  // The report has contacts only, each at most once.
  ghost predicate DistinctAxes(ps: seq<Point>) {
    && (forall i :: 0 <= i < |ps| ==> ps[i].Axis? && ps[i].id < MAX_POINT)
    && (forall i, j :: 0 <= i < j < |ps| ==> ps[i].id != ps[j].id)
  }

  ghost predicate Lists(ps: seq<Point>, id: nat) {
    exists i :: 0 <= i < |ps| && ps[i].Axis? && ps[i].id == id
  }

  // The contacts that a list of points has put down.
  function ListedHeld(ps: seq<Point>): (m: seq<bool>)
    requires forall i :: 0 <= i < |ps| ==> ps[i].Axis? && ps[i].id < MAX_POINT
    ensures |m| == MAX_POINT
  {
    if ps == [] then NoneHeld()
    else ListedHeld(ps[..|ps| - 1])[ps[|ps| - 1].id := ps[|ps| - 1].weight != 0]
  }

  lemma ListsStep(ps: seq<Point>, id: nat)
    requires ps != [] && ps[|ps| - 1].Axis?
    ensures Lists(ps, id) <==> Lists(ps[..|ps| - 1], id) || id == ps[|ps| - 1].id
  {
    var before, p := ps[..|ps| - 1], ps[|ps| - 1];
    if Lists(before, id) {
      var i :| 0 <= i < |before| && before[i].Axis? && before[i].id == id;
      assert ps[i].id == id;
    }
    if Lists(ps, id) && id != p.id {
      var i :| 0 <= i < |ps| && ps[i].Axis? && ps[i].id == id;
      assert before[i].id == id;
    }
  }

  lemma {:induction false} CountsListed(s: State, ps: seq<Point>)
    requires |s.held| == MAX_POINT && s.lastValid == 0 && DistinctAxes(ps)
    ensures AfterPoints(s, ps).lastValid == CountTrue(ListedHeld(ps))
    ensures forall id: nat :: id < MAX_POINT ==>
              if Lists(ps, id) then AfterPoints(s, ps).held[id] == ListedHeld(ps)[id]
              else AfterPoints(s, ps).held[id] == s.held[id] && !ListedHeld(ps)[id]
    decreases |ps|
  {
    if ps == [] {
      CountNone(NoneHeld());
    } else {
      var n := |ps| - 1;
      var before, p := ps[..n], ps[n];
      NotListedBefore(ps);
      CountsListed(s, before);
      CountUpdate(ListedHeld(before), p.id, p.weight != 0);
      hide Lists, CountTrue, DistinctAxes;
      forall id: nat | id < MAX_POINT
        ensures if Lists(ps, id) then AfterPoints(s, ps).held[id] == ListedHeld(ps)[id]
                else AfterPoints(s, ps).held[id] == s.held[id] && !ListedHeld(ps)[id]
      {
        ListsStep(ps, id);
      }
    }
  }

  lemma NotListedBefore(ps: seq<Point>)
    requires ps != [] && DistinctAxes(ps)
    ensures DistinctAxes(ps[..|ps| - 1]) && !Lists(ps[..|ps| - 1], ps[|ps| - 1].id)
  {
  }

  // If a report lists each contact once and every held one, the count is the number held afterwards.
  lemma CompleteReportCounts(s: State, ps: seq<Point>)
    requires |s.held| == MAX_POINT && ps != [] && DistinctAxes(ps)
    requires forall id: nat :: id < MAX_POINT && s.held[id] ==> Lists(ps, id)
    ensures AfterReport(s, ps).lastValid == CountTrue(AfterReport(s, ps).held)
  {
    CountsListed(s.(lastValid := 0), ps);
    assert AfterReport(s, ps).held == ListedHeld(ps);
  }

  // ----- When a release frees every contact -----

  // A palm rejection that is not also a knock releases the contacts counted so far.
  predicate Rejects(p: Point) {
    p.Gesture? && !p.knock && p.palmReject
  }

  // The report has a contact that is down, with no palm rejection after it.
  ghost predicate CountsContact(ps: seq<Point>) {
    exists i :: 0 <= i < |ps| && ps[i].Axis? && ps[i].weight != 0 && forall j :: i < j < |ps| ==> !Rejects(ps[j])
  }

  lemma CountsStep(ps: seq<Point>)
    requires ps != []
    ensures var p := ps[|ps| - 1];
            CountsContact(ps) <==> (p.Axis? && p.weight != 0) || (!Rejects(p) && CountsContact(ps[..|ps| - 1]))
  {
    var n := |ps| - 1;
    var before, p := ps[..n], ps[n];
    assert forall j :: 0 <= j < n ==> before[j] == ps[j];
    if CountsContact(ps) && !(p.Axis? && p.weight != 0) {
      var i :| 0 <= i < |ps| && ps[i].Axis? && ps[i].weight != 0 && forall j :: i < j < |ps| ==> !Rejects(ps[j]);
      assert before[i].Axis? && before[i].weight != 0 && !Rejects(ps[n]);
    }
    if CountsContact(before) && !Rejects(p) {
      var i :| 0 <= i < n && before[i].Axis? && before[i].weight != 0 && forall j :: i < j < n ==> !Rejects(before[j]);
      assert ps[i].Axis? && ps[i].weight != 0;
    }
    if p.Axis? && p.weight != 0 {
      assert ps[n].Axis? && ps[n].weight != 0;
    }
  }

  lemma {:induction false} CountIsPositiveIff(s: State, ps: seq<Point>)
    requires |s.held| == MAX_POINT && s.lastValid == 0 && forall p :: p in ps ==> p.InTable()
    ensures 0 <= AfterPoints(s, ps).lastValid
    ensures 0 < AfterPoints(s, ps).lastValid <==> CountsContact(ps)
    decreases |ps|
  {
    if ps != [] {
      CountsStep(ps);
      hide CountsContact;
      CountIsPositiveIff(s, ps[..|ps| - 1]);
    }
  }

  ghost predicate NoneDown(events: seq<Event>) {
    forall id: nat :: id < MAX_POINT ==> !LastDown(events, id)
  }

  lemma MirroredNone(s: State)
    requires Mirrors(s)
    ensures NoneDown(s.events) <==> s.held == NoneHeld()
  {
    if s.held == NoneHeld() {
      forall id: nat | id < MAX_POINT ensures !LastDown(s.events, id) {
        assert s.held[id] == NoneHeld()[id];
      }
    }
  }

  // Over every run of reports: a release after a last report with points lifts every contact exactly if that report
  // has a contact that is down with no palm rejection after it, or no contact was down.
  lemma ReleaseFreesIff(reports: seq<seq<Point>>, last: seq<Point>)
    requires forall ps, p :: ps in reports + [last] && p in ps ==> p.InTable()
    requires last != []
    ensures var s := AfterReports(Initial(), reports + [last]);
            NoneDown(Released(s).events) <==> CountsContact(last) || NoneDown(s.events)
  {
    var before, s := AfterReports(Initial(), reports), AfterReports(Initial(), reports + [last]);
    assert last in reports + [last];
    assert (reports + [last])[..|reports|] == reports;
    HeldIsLastDown(reports + [last]);
    ReleasedMirrors(s);
    MirroredNone(s);
    MirroredNone(Released(s));
    CountIsPositiveIff(before.(lastValid := 0), last);
  }

  // Contact 0 goes down, the next report lists only that contact 1 is up: a release does nothing.
  lemma ReleaseMissesContact()
    ensures var s := AfterReports(Initial(), [[Axis(0, 5)], [Axis(1, 0)]]);
            Released(s) == s && LastDown(s.events, 0)
  {
    var first, second := [Axis(0, 5)], [Axis(1, 0)];
    var s1 := AfterReport(Initial(), first);
    assert first[..0] == [] && second[..0] == [];
    assert s1.events == [Touch(0, true)] && s1.lastValid == 1;
    assert [first][..0] == [] && [first, second][..1] == [first];
    assert AfterReports(Initial(), [first]) == s1;
    var s := AfterReport(s1, second);
    assert s.events == [Touch(0, true), Touch(1, false)] && s.lastValid == 0;
    assert s.events[..1] == [Touch(0, true)];
  }

  function Occurrences(events: seq<Event>, e: Event): nat {
    if events == [] then 0
    else Occurrences(events[..|events| - 1], e) + (if events[|events| - 1] == e then 1 else 0)
  }

  lemma {:induction false} UpsOnce(held: seq<bool>, n: nat, id: nat)
    requires n <= |held|
    ensures Occurrences(Ups(held, n), Touch(id, false)) == if id < n && held[id] then 1 else 0
    ensures Occurrences(Ups(held, n), Touch(id, true)) == 0
  {
    if n > 0 {
      UpsOnce(held, n - 1, id);
      if held[n - 1] {
        assert Ups(held, n)[..|Ups(held, n)| - 1] == Ups(held, n - 1);
      } else {
        assert Ups(held, n) == Ups(held, n - 1);
      }
    }
  }

  // After complete reports a release sends exactly one up for every held contact, nothing else, and frees them all.
  lemma ReleaseAfterCompleteReport(s: State, ps: seq<Point>, id: nat)
    requires |s.held| == MAX_POINT && ps != [] && DistinctAxes(ps) && id < MAX_POINT
    requires forall id: nat :: id < MAX_POINT && s.held[id] ==> Lists(ps, id)
    ensures var r := AfterReport(s, ps);
            && Released(r).held == NoneHeld()
            && r.events <= Released(r).events
            && var sent := Released(r).events[|r.events|..];
               && Occurrences(sent, Touch(id, false)) == (if r.held[id] then 1 else 0)
               && Occurrences(sent, Touch(id, true)) == 0
  {
    var r := AfterReport(s, ps);
    CompleteReportCounts(s, ps);
    CountNone(r.held);
    UpsOnce(r.held, MAX_POINT, id);
    if r.lastValid <= 0 {
      assert r.held == NoneHeld();
      assert Released(r).events[|r.events|..] == [];
    } else {
      assert Released(r).events[|r.events|..] == Ups(r.held, MAX_POINT);
    }
  }
}
