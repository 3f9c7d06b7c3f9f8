/** Firmware versions and the decision whether an offered image replaces the installed one. */
module Versions {

  datatype Version = Version(display: nat, hidden: nat, product1: nat, product2: nat, icName1: nat, icName2: nat)

  const ERASED_DISPLAY := 0xFFFF_FFFF
  const FACTORY_HIDDEN := 0x7F00_00F7

  // Negative when the image of the header must be installed over the device's.
  function VersionCheck(dev: Version, header: Version): int {
    if dev.display == ERASED_DISPLAY && header.display != ERASED_DISPLAY then -1
    else if dev.hidden == FACTORY_HIDDEN && header.hidden != FACTORY_HIDDEN then -1
    else if dev.hidden != FACTORY_HIDDEN && header.hidden == FACTORY_HIDDEN then -1
    else if dev.display == 0 && header.display != 0 then -1
    else if dev.product1 != header.product1 || dev.product2 != header.product2 then 0
    else if dev.icName1 != header.icName1 || dev.icName2 != header.icName2 then 0
    else if dev.display < header.display then -1
    else if dev.display == header.display && dev.hidden < header.hidden then -1
    else 0
  }

  predicate NeedsUpdate(dev: Version, header: Version) {
    VersionCheck(dev, header) < 0
  }

  predicate SameTarget(a: Version, b: Version) {
    a.product1 == b.product1 && a.product2 == b.product2 && a.icName1 == b.icName1 && a.icName2 == b.icName2
  }

  // Older: (display, hidden) is lexicographically smaller.
  predicate Older(a: Version, b: Version) {
    a.display < b.display || (a.display == b.display && a.hidden < b.hidden)
  }

  // No sentinel value: neither an erased or zero display version nor the factory hidden version.
  predicate Plain(v: Version) {
    v.display != 0 && v.display != ERASED_DISPLAY && v.hidden != FACTORY_HIDDEN
  }

  // The installed versions, oldest first, when the headers are offered one after the other.
  function Installed(v: Version, offers: seq<Version>): (h: seq<Version>)
    ensures h != [] && h[0] == v
    decreases |offers|
  {
    if offers == [] then [v]
    else if NeedsUpdate(v, offers[0]) then [v] + Installed(offers[0], offers[1..])
    else Installed(v, offers[1..])
  }

  // What is installed is never replaced by itself.
  lemma NeverReplacesItself(v: Version)
    ensures !NeedsUpdate(v, v)
  {
  }

  // The whole decision: an erased display version, a factory hidden version on one side only, a zero display version,
  // or an older version of the same target.
  lemma DecisionIff(dev: Version, header: Version)
    ensures NeedsUpdate(dev, header) <==>
              || (dev.display == 0xFFFF_FFFF && header.display != 0xFFFF_FFFF)
              || ((dev.hidden == 0x7F00_00F7) != (header.hidden == 0x7F00_00F7))
              || (dev.display == 0 && header.display != 0)
              || (dev.product1 == header.product1 && dev.product2 == header.product2
                  && dev.icName1 == header.icName1 && dev.icName2 == header.icName2
                  && (dev.display < header.display || (dev.display == header.display && dev.hidden < header.hidden)))
  {
  }

  // A device without a version is updated by every header that has one, whatever their targets.
  lemma VersionlessIsUpdated(dev: Version, header: Version)
    requires (dev.display == 0xFFFF_FFFF && header.display != 0xFFFF_FFFF) || (dev.display == 0 && header.display != 0)
    ensures NeedsUpdate(dev, header)
  {
  }

  // Without sentinels the decision is exactly: same product and IC, and older.
  lemma PlainDecision(dev: Version, header: Version)
    requires Plain(dev) && Plain(header)
    ensures NeedsUpdate(dev, header) <==> SameTarget(dev, header) && Older(dev, header)
  {
  }

  // Two versions that replace each other for ever, exactly: one has the factory hidden version and the other does
  // not, or one has an erased display version and the other is zero or for the same target.
  lemma ReplaceEachOther(a: Version, b: Version)
    requires a.display <= ERASED_DISPLAY && b.display <= ERASED_DISPLAY
    ensures NeedsUpdate(a, b) && NeedsUpdate(b, a) <==>
              || ((a.hidden == FACTORY_HIDDEN) != (b.hidden == FACTORY_HIDDEN))
              || (a.display == ERASED_DISPLAY && b.display != ERASED_DISPLAY && (b.display == 0 || SameTarget(a, b)))
              || (b.display == ERASED_DISPLAY && a.display != ERASED_DISPLAY && (a.display == 0 || SameTarget(a, b)))
  {
  }

  // Each version is newer than all before it, for the same target.
  ghost predicate Rising(h: seq<Version>) {
    forall i, j :: 0 <= i < j < |h| ==> Older(h[i], h[j]) && SameTarget(h[i], h[j])
  }

  // Over any sequence of offers without sentinels the installed version strictly rises and keeps its target, and
  // in the end no offer for that target is newer.
  lemma {:induction false} InstalledRises(v: Version, offers: seq<Version>)
    requires Plain(v) && forall o :: o in offers ==> Plain(o)
    ensures Rising(Installed(v, offers))
    ensures var h := Installed(v, offers);
            forall o :: o in offers && SameTarget(v, o) ==> !Older(h[|h| - 1], o)
    decreases |offers|
  {
    if offers != [] {
      var next := if NeedsUpdate(v, offers[0]) then offers[0] else v;
      PlainDecision(v, offers[0]);
      InstalledRises(next, offers[1..]);
      var t := Installed(next, offers[1..]);
      assert |t| > 1 ==> Older(t[0], t[|t| - 1]) && SameTarget(t[0], t[|t| - 1]);
      assert forall o :: o in offers ==> o == offers[0] || o in offers[1..];
    }
  }

  // Only offered versions are installed.
  lemma {:induction false} InstalledWasOffered(v: Version, offers: seq<Version>, i: nat)
    requires i < |Installed(v, offers)|
    ensures Installed(v, offers)[i] == v || Installed(v, offers)[i] in offers
    decreases |offers|
  {
    if offers != [] {
      if !NeedsUpdate(v, offers[0]) {
        InstalledWasOffered(v, offers[1..], i);
      } else if i > 0 {
        InstalledWasOffered(offers[0], offers[1..], i - 1);
      }
    }
  }
}
