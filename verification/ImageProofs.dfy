/** What a successful parse guarantees, and that a printed image parses back. */
module ImageProofs {
  import opened Bytes
  import opened Wrappers
  import opened Sections
  import opened Versions
  import opened Checksum
  import opened ImageFormat

  // ----- Every payload that is accepted matches its declared length and checksum -----

  ghost predicate Checked(s: Section) {
    && 0 < s.byteCnt
    && s.content.Some? && |s.content.value| == s.byteCnt
    && PayloadChecksum(s.address, s.content.value) == Some(s.checksum)
  }

  ghost predicate AllChecked(ss: seq<Section>) {
    forall k :: 0 <= k < |ss| ==> Checked(ss[k])
  }

  // At level none every section is complete and checked; at any other level all but the last are, and the last has
  // no payload.
  ghost predicate Consistent(st: State) {
    if st.level == LNone then AllChecked(st.sections)
    else
      && st.sections != []
      && AllChecked(st.sections[..|st.sections| - 1])
      && st.sections[|st.sections| - 1].content == None
      && (st.level != LAddress ==> 0 < st.sections[|st.sections| - 1].byteCnt)
  }

  lemma LineKeepsConsistent(st: State, buff: seq<byte>, rest: seq<byte>)
    requires Consistent(st) && ParseLine(st, buff, rest).Next?
    ensures Consistent(ParseLine(st, buff, rest).st)
  {
    hide PayloadChecksum, ConvHexStr2Int;
    var st1 := ParseLine(st, buff, rest).st;
    var n := |st.sections| - 1;
    if |st1.sections| == |st.sections| > 0 {
      assert st1.sections[..n] == st.sections[..n];
    } else if |st1.sections| == |st.sections| + 1 {
      assert st1.sections[..|st.sections|] == st.sections;
    }
  }

  // Every section is checked, but the last may lack its payload.
  ghost predicate Accepted(ss: seq<Section>) {
    forall k :: 0 <= k < |ss| ==> Checked(ss[k]) || (k == |ss| - 1 && !ss[k].HasContent())
  }

  lemma ConsistentIsAccepted(st: State)
    requires Consistent(st)
    ensures Accepted(st.sections)
  {
    hide Checked;
    var n := |st.sections| - 1;
    if st.level != LNone {
      assert forall k :: 0 <= k < n ==> st.sections[..n][k] == st.sections[k];
    }
  }

  // Whatever the file, every section of a successful parse that has a payload has the declared length and checksum;
  // only the last can be without one.
  lemma {:induction false} ParsedSectionsAreChecked(data: seq<byte>, st: State)
    requires Consistent(st)
    ensures var o := ParseFrom(data, st);
            o.Parsed? && o.errnum == 0 ==> Accepted(o.sections)
    decreases |data|
  {
    var line := ReadLine(data, [], false);
    ConsistentIsAccepted(st);
    if line.rest != [] {
      StepShape(st, line.buff, line.rest);
      var step := ParseLine(st, line.buff, line.rest);
      if step.Next? {
        LineKeepsConsistent(st, line.buff, line.rest);
        hide ParseLine, Accepted, Consistent;
        ParsedSectionsAreChecked(step.rest, step.st);
      }
    }
  }

  // ----- Printing -----

  // A number as it may be spelled: one to eight hexadecimal digits of either case.
  ghost predicate Spelling(w: seq<byte>) {
    0 < |w| <= 8 && IsHex(w)
  }

  datatype SpelledSection = SpelledSection(address: seq<byte>, byteCnt: seq<byte>, erasePageCnt: seq<byte>,
                                           version: seq<byte>, checksum: seq<byte>, reserved01: seq<byte>,
                                           reserved02: seq<byte>, reserved03: seq<byte>, payload: seq<byte>)
  {
    ghost predicate Spelled() {
      && Spelling(address) && Spelling(byteCnt) && Spelling(erasePageCnt) && Spelling(version)
      && Spelling(checksum) && Spelling(reserved01) && Spelling(reserved02) && Spelling(reserved03)
    }

    // All numbers are spelled, and the payload has the length and checksum they say.
    ghost predicate Valid() {
      Spelled() && Checked(Meaning())
    }

    function Meaning(): Section {
      Section(HexValue(address), ToInt32(HexValue(byteCnt)), ToInt32(HexValue(erasePageCnt)), HexValue(version),
              HexValue(checksum), HexValue(reserved01), HexValue(reserved02), HexValue(reserved03), Some(payload))
    }
  }

  function TextLine(mark: byte, w: seq<byte>): seq<byte> {
    [mark] + w + [NEWLINE]
  }

  // A section as text followed by its raw payload, in front of the rest of the file.
  function RenderSection(s: SpelledSection, tail: seq<byte>): seq<byte> {
    TextLine(HASH, s.address) + (TextLine(STAR, s.byteCnt) + (TextLine(STAR, s.erasePageCnt) +
    (TextLine(STAR, s.version) + (TextLine(STAR, s.checksum) + (TextLine(STAR, s.reserved01) +
    (TextLine(STAR, s.reserved02) + (TextLine(STAR, s.reserved03) + (s.payload + tail))))))))
  }

  function RenderSections(ss: seq<SpelledSection>): seq<byte> {
    if ss == [] then [] else RenderSection(ss[0], RenderSections(ss[1..]))
  }

  // The dollar lines of a file: six version words, two lines that are skipped, the update flag.
  datatype SpelledHeader = SpelledHeader(display: seq<byte>, hidden: seq<byte>, product1: seq<byte>,
                                         product2: seq<byte>, icName1: seq<byte>, icName2: seq<byte>,
                                         skipped1: seq<byte>, skipped2: seq<byte>, flag: seq<byte>)
  {
    ghost predicate Valid() {
      && Spelling(display) && Spelling(hidden) && Spelling(product1) && Spelling(product2)
      && Spelling(icName1) && Spelling(icName2) && Spelling(skipped1) && Spelling(skipped2)
      && Spelling(flag) && |flag| == 4
    }

    function Meaning(): Version {
      Version(HexValue(display), HexValue(hidden), HexValue(product1), HexValue(product2),
              HexValue(icName1), HexValue(icName2))
    }
  }

  // A whole file.
  function Render(h: SpelledHeader, ss: seq<SpelledSection>): seq<byte> {
    TextLine(DOLLAR, h.display) + (TextLine(DOLLAR, h.hidden) + (TextLine(DOLLAR, h.product1) +
    (TextLine(DOLLAR, h.product2) + (TextLine(DOLLAR, h.icName1) + (TextLine(DOLLAR, h.icName2) +
    (TextLine(DOLLAR, h.skipped1) + (TextLine(DOLLAR, h.skipped2) + (TextLine(DOLLAR, h.flag) +
    RenderSections(ss)))))))))
  }

  ghost predicate AllValid(ss: seq<SpelledSection>) {
    forall k :: 0 <= k < |ss| ==> ss[k].Valid()
  }

  lemma AllValidSplit(ss: seq<SpelledSection>)
    requires AllValid(ss) && ss != []
    ensures ss[0].Valid() && AllValid(ss[1..])
  {
  }

  function Meanings(ss: seq<SpelledSection>): (ms: seq<Section>)
    ensures |ms| == |ss| && forall k :: 0 <= k < |ss| ==> ms[k] == ss[k].Meaning()
  {
    if ss == [] then [] else [ss[0].Meaning()] + Meanings(ss[1..])
  }

  // ----- Reading printed lines -----

  lemma {:induction false} ReadPrintedLine(buff: seq<byte>, w: seq<byte>, tail: seq<byte>)
    requires |buff| + |w| < LINE_SIZE && IsHex(w)
    ensures ReadLine(w + [NEWLINE] + tail, buff, false) == Line(buff + w, tail)
    decreases |w|
  {
    var data := w + [NEWLINE] + tail;
    if w == [] {
      assert data[1..] == tail && buff + w == buff;
    } else {
      assert data[0] == w[0] && data[1..] == w[1..] + [NEWLINE] + tail;
      ReadPrintedLine(buff + [w[0]], w[1..], tail);
      assert buff + [w[0]] + w[1..] == buff + w;
    }
  }

  lemma {:induction false} HexTextIsWhole(s: seq<byte>)
    requires forall i :: 0 <= i < |s| ==> s[i] != 0
    ensures UntilZero(s) == s
    decreases |s|
  {
    if s != [] {
      HexTextIsWhole(s[1..]);
    }
  }

  // A marked line is read whole, and its text is the mark and the digits.
  lemma ReadMarkedLine(mark: byte, w: seq<byte>, tail: seq<byte>)
    requires mark == DOLLAR || mark == HASH || mark == STAR
    requires IsHex(w) && |w| <= 8
    ensures ReadLine(TextLine(mark, w) + tail, [], false) == Line([mark] + w, tail)
    ensures UntilZero([mark] + w) == [mark] + w
  {
    var data := TextLine(mark, w) + tail;
    assert data[0] == mark && data[1..] == w + [NEWLINE] + tail;
    assert [] + [mark] == [mark];
    ReadPrintedLine([mark], w, tail);
    HexTextIsWhole([mark] + w);
  }

  // The parse of a marked line goes on with what the line does to the state.
  lemma ParseMarkedLine(mark: byte, w: seq<byte>, tail: seq<byte>, st: State, st1: State, rest: seq<byte>)
    requires mark == DOLLAR || mark == HASH || mark == STAR
    requires IsHex(w) && |w| <= 8 && tail != []
    requires st.level != LNone ==> st.sections != []
    requires ParseLine(st, [mark] + w, tail) == Next(st1, rest)
    ensures st1.level != LNone ==> st1.sections != []
    ensures ParseFrom(TextLine(mark, w) + tail, st) == ParseFrom(rest, st1)
  {
    ReadMarkedLine(mark, w, tail);
    StepShape(st, [mark] + w, tail);
  }

  lemma ConvertsToValue(mark: byte, w: seq<byte>)
    requires Spelling(w)
    ensures ConvHexStr2Int(([mark] + w)[1..]) == Ok(HexValue(w))
  {
    assert ([mark] + w)[1..] == w;
  }

  // A star line sets the next number of the section under construction.
  lemma ParseStar(w: seq<byte>, tail: seq<byte>, st: State, st1: State, rest: seq<byte>)
    requires Spelling(w) && tail != []
    requires st.level != LNone && st.sections != []
    requires NumberLine(st, HexValue(w), tail) == Next(st1, rest)
    ensures st1.level != LNone ==> st1.sections != []
    ensures ParseFrom(TextLine(STAR, w) + tail, st) == ParseFrom(rest, st1)
  {
    hide NumberLine, ParseFrom, ReadLine;
    ReadMarkedLine(STAR, w, tail);
    ConvertsToValue(STAR, w);
    ParseMarkedLine(STAR, w, tail, st, st1, rest);
  }

  // The state with one more section under construction.
  function With(st: State, s: Section, level: Level): State {
    st.(sections := st.sections + [s], level := level)
  }

  lemma ReplaceLast(ss: seq<Section>, s: Section, s1: Section)
    ensures (ss + [s])[|ss| := s1] == ss + [s1]
  {
  }

  lemma ParseHash(w: seq<byte>, tail: seq<byte>, st: State)
    requires Spelling(w) && tail != [] && st.level == LNone
    ensures ParseFrom(TextLine(HASH, w) + tail, st) == ParseFrom(tail, With(st, NewSection(HexValue(w)), LAddress))
  {
    hide ParseFrom, ReadLine;
    ReadMarkedLine(HASH, w, tail);
    ConvertsToValue(HASH, w);
    ParseMarkedLine(HASH, w, tail, st, With(st, NewSection(HexValue(w)), LAddress), tail);
  }

  // One of the numbers between the byte count and the last.
  lemma ParseField(w: seq<byte>, tail: seq<byte>, st: State, s: Section, level: Level, s1: Section, level1: Level)
    requires Spelling(w) && tail != []
    requires var v := HexValue(w);
             || (level == LAddress && 0 < ToInt32(v) && s1 == s.(byteCnt := ToInt32(v)) && level1 == LLength)
             || (level == LLength && s1 == s.(erasePageCnt := ToInt32(v)) && level1 == LEraseSize)
             || (level == LEraseSize && s1 == s.(version := v) && level1 == LVersion)
             || (level == LVersion && s1 == s.(checksum := v) && level1 == LChecksum)
             || (level == LChecksum && s1 == s.(reserved01 := v) && level1 == LReserve01)
             || (level == LReserve01 && s1 == s.(reserved02 := v) && level1 == LReserve02)
    ensures ParseFrom(TextLine(STAR, w) + tail, With(st, s, level)) == ParseFrom(tail, With(st, s1, level1))
  {
    hide ParseFrom, ReadLine, HexValue, TextLine;
    ReplaceLast(st.sections, s, s1);
    ParseStar(w, tail, With(st, s, level), With(st, s1, level1), tail);
  }

  // The last number, and the payload after it.
  lemma ParsePayload(w: seq<byte>, payload: seq<byte>, tail: seq<byte>, st: State, s: Section)
    requires Spelling(w) && st.level == LNone && s.content == None
    requires var s1 := s.(reserved03 := HexValue(w), content := Some(payload)); Checked(s1)
    ensures ParseFrom(TextLine(STAR, w) + (payload + tail), With(st, s, LReserve02)) ==
            ParseFrom(tail, With(st, s.(reserved03 := HexValue(w), content := Some(payload)), LNone))
  {
    hide ParseFrom, ReadLine, HexValue, TextLine, PayloadChecksum;
    var s1 := s.(reserved03 := HexValue(w), content := Some(payload));
    assert (payload + tail)[..|payload|] == payload && (payload + tail)[|payload|..] == tail;
    ReplaceLast(st.sections, s, s1);
    ParseStar(w, payload + tail, With(st, s, LReserve02), With(st, s1, LNone), tail);
  }

  lemma ParseSection(s: SpelledSection, tail: seq<byte>, st: State)
    requires s.Valid() && st.level == LNone
    ensures ParseFrom(RenderSection(s, tail), st) == ParseFrom(tail, With(st, s.Meaning(), LNone))
  {
    hide ParseFrom, HexValue, PayloadChecksum, IsHex;
    var r8 := s.payload + tail;
    var r7 := TextLine(STAR, s.reserved03) + r8;
    var r6 := TextLine(STAR, s.reserved02) + r7;
    var r5 := TextLine(STAR, s.reserved01) + r6;
    var r4 := TextLine(STAR, s.checksum) + r5;
    var r3 := TextLine(STAR, s.version) + r4;
    var r2 := TextLine(STAR, s.erasePageCnt) + r3;
    var r1 := TextLine(STAR, s.byteCnt) + r2;
    var s0 := NewSection(HexValue(s.address));
    var s1 := s0.(byteCnt := ToInt32(HexValue(s.byteCnt)));
    var s2 := s1.(erasePageCnt := ToInt32(HexValue(s.erasePageCnt)));
    var s3 := s2.(version := HexValue(s.version));
    var s4 := s3.(checksum := HexValue(s.checksum));
    var s5 := s4.(reserved01 := HexValue(s.reserved01));
    var s6 := s5.(reserved02 := HexValue(s.reserved02));
    ParseHash(s.address, r1, st);
    ParseField(s.byteCnt, r2, st, s0, LAddress, s1, LLength);
    ParseField(s.erasePageCnt, r3, st, s1, LLength, s2, LEraseSize);
    ParseField(s.version, r4, st, s2, LEraseSize, s3, LVersion);
    ParseField(s.checksum, r5, st, s3, LVersion, s4, LChecksum);
    ParseField(s.reserved01, r6, st, s4, LChecksum, s5, LReserve01);
    ParseField(s.reserved02, r7, st, s5, LReserve01, s6, LReserve02);
    ParsePayload(s.reserved03, s.payload, tail, st, s6);
  }

  lemma {:induction false} ParseSections(ss: seq<SpelledSection>, st: State)
    requires AllValid(ss)
    requires st.level == LNone
    ensures ParseFrom(RenderSections(ss), st) == Parsed(0, st.version, st.all, st.sections + Meanings(ss))
    decreases |ss|
  {
    hide ParseFrom, RenderSection, AllValid, SpelledSection.Valid, SpelledSection.Meaning;
    if ss == [] {
      NothingLeft(st);
      assert st.sections + Meanings(ss) == st.sections;
    } else {
      AllValidSplit(ss);
      var st1 := With(st, ss[0].Meaning(), LNone);
      ParseSection(ss[0], RenderSections(ss[1..]), st);
      ParseSections(ss[1..], st1);
      assert st1.sections + Meanings(ss[1..]) == st.sections + Meanings(ss);
    }
  }

  lemma NothingLeft(st: State)
    requires st.level == LNone
    ensures ParseFrom([], st) == Parsed(0, st.version, st.all, st.sections)
  {
  }

  // A dollar line before the flag.
  lemma ParseDollar(w: seq<byte>, tail: seq<byte>, st: State, n: nat)
    requires Spelling(w) && tail != [] && st.level == LNone && st.dollars == n && n < 8
    ensures ParseFrom(TextLine(DOLLAR, w) + tail, st) ==
            ParseFrom(tail, st.(dollars := n + 1, version := SetVersionWord(st.version, n + 1, HexValue(w))))
  {
    hide ParseFrom, ReadLine, HexValue, TextLine;
    ReadMarkedLine(DOLLAR, w, tail);
    ConvertsToValue(DOLLAR, w);
    ParseMarkedLine(DOLLAR, w, tail, st,
                    st.(dollars := n + 1, version := SetVersionWord(st.version, n + 1, HexValue(w))), tail);
  }

  lemma ParseFlag(w: seq<byte>, tail: seq<byte>, st: State)
    requires Spelling(w) && |w| == 4 && tail != [] && st.level == LNone && st.dollars == 8
    ensures ParseFrom(TextLine(DOLLAR, w) + tail, st) == ParseFrom(tail, st.(dollars := 9, all := HexValue(w)))
  {
    hide ParseFrom, ReadLine, HexValue, TextLine;
    ReadMarkedLine(DOLLAR, w, tail);
    assert FlagDigits([DOLLAR] + w) == w;
    ParseMarkedLine(DOLLAR, w, tail, st, st.(dollars := 9, all := HexValue(w)), tail);
  }

  lemma LastLineDropped(w: seq<byte>, st: State)
    requires Spelling(w) && st.level == LNone
    ensures ParseFrom(TextLine(DOLLAR, w), st) == Parsed(0, st.version, st.all, st.sections)
  {
    ReadMarkedLine(DOLLAR, w, []);
    assert TextLine(DOLLAR, w) + [] == TextLine(DOLLAR, w);
  }

  // The first eight dollar lines, in front of anything.
  lemma ParseVersionLines(h: SpelledHeader, last: seq<byte>, version: Version, all: int)
    requires h.Valid() && last != []
    ensures ParseFrom(TextLine(DOLLAR, h.display) + (TextLine(DOLLAR, h.hidden) + (TextLine(DOLLAR, h.product1) +
                      (TextLine(DOLLAR, h.product2) + (TextLine(DOLLAR, h.icName1) + (TextLine(DOLLAR, h.icName2) +
                      (TextLine(DOLLAR, h.skipped1) + (TextLine(DOLLAR, h.skipped2) + last))))))),
                      State(0, all, version, LNone, [])) ==
            ParseFrom(last, State(8, all, h.Meaning(), LNone, []))
  {
    hide ParseFrom, HexValue, IsHex;
    var r7 := TextLine(DOLLAR, h.skipped2) + last;
    var r6 := TextLine(DOLLAR, h.skipped1) + r7;
    var r5 := TextLine(DOLLAR, h.icName2) + r6;
    var r4 := TextLine(DOLLAR, h.icName1) + r5;
    var r3 := TextLine(DOLLAR, h.product2) + r4;
    var r2 := TextLine(DOLLAR, h.product1) + r3;
    var r1 := TextLine(DOLLAR, h.hidden) + r2;
    var v1 := version.(display := HexValue(h.display));
    var v2 := v1.(hidden := HexValue(h.hidden));
    var v3 := v2.(product1 := HexValue(h.product1));
    var v4 := v3.(product2 := HexValue(h.product2));
    var v5 := v4.(icName1 := HexValue(h.icName1));
    ParseDollar(h.display, r1, State(0, all, version, LNone, []), 0);
    ParseDollar(h.hidden, r2, State(1, all, v1, LNone, []), 1);
    ParseDollar(h.product1, r3, State(2, all, v2, LNone, []), 2);
    ParseDollar(h.product2, r4, State(3, all, v3, LNone, []), 3);
    ParseDollar(h.icName1, r5, State(4, all, v4, LNone, []), 4);
    ParseDollar(h.icName2, r6, State(5, all, v5, LNone, []), 5);
    ParseDollar(h.skipped1, r7, State(6, all, h.Meaning(), LNone, []), 6);
    ParseDollar(h.skipped2, last, State(7, all, h.Meaning(), LNone, []), 7);
  }

  // Round trip: a printed image parses back to its versions, flag and sections exactly when it has a section or its
  // flag is the caller's default, because the line that reaches the end of the data is dropped.
  lemma ParseRendered(h: SpelledHeader, ss: seq<SpelledSection>, version: Version, all: int)
    requires h.Valid() && AllValid(ss)
    ensures Parse(Render(h, ss), version, all) == Parsed(0, h.Meaning(), HexValue(h.flag), Meanings(ss)) <==>
              ss != [] || HexValue(h.flag) == all
  {
    hide ParseFrom, HexValue, IsHex, PayloadChecksum, RenderSection, AllValid;
    var last := TextLine(DOLLAR, h.flag) + RenderSections(ss);
    ParseVersionLines(h, last, version, all);
    var st := State(8, all, h.Meaning(), LNone, []);
    if ss == [] {
      assert last == TextLine(DOLLAR, h.flag);
      LastLineDropped(h.flag, st);
    } else {
      SectionsNotEmpty(ss);
      ParseFlag(h.flag, RenderSections(ss), st);
      ParseSections(ss, st.(dollars := 9, all := HexValue(h.flag)));
      assert [] + Meanings(ss) == Meanings(ss);
    }
  }

  lemma SectionsNotEmpty(ss: seq<SpelledSection>)
    requires ss != []
    ensures RenderSections(ss) != []
  {
    assert |TextLine(HASH, ss[0].address)| > 0;
  }
}
