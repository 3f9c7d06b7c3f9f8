/** Packing an Android boot image (header version 0) around a new kernel, and patching its command line. Byte strings
    follow the slicing rules of the scripts' language: a slice is clipped to the string, and assigning to a slice
    replaces what the clipped slice covers. */
module BootImage {
  import opened Bytes
  import opened Arithmetic
  import opened Wrappers

  const HEADER_SIZE := 608
  const CMDLINE_OFF := 64
  const CMDLINE_LEN := 512
  const KERNEL_ALIGNMENT := 2 * 1024 * 1024

  const MAGIC: seq<byte> := [0x41, 0x4E, 0x44, 0x52, 0x4F, 0x49, 0x44, 0x21]
  const SPACE: byte := 0x20

  datatype Error = NotAnImage | TooShort | NoPageSize | Unaligned | RamdiskMismatch | OutOfRange | CmdlineTooLong

  datatype Result<T> = Ok(value: T) | Err(error: Error)
  {
    predicate IsFailure() {
      Err?
    }

    function PropagateFailure<U>(): Result<U>
      requires Err?
    {
      Err(error)
    }

    function Extract(): T
      requires Ok?
    {
      value
    }
  }

  // ----- Byte strings -----

  function Min(a: nat, b: nat): nat {
    if a < b then a else b
  }

  function Slice(s: seq<byte>, lo: nat, hi: nat): seq<byte>
    requires lo <= hi
  {
    s[Min(lo, |s|)..Min(hi, |s|)]
  }

  function SetSlice(s: seq<byte>, lo: nat, hi: nat, v: seq<byte>): seq<byte>
    requires lo <= hi
  {
    s[..Min(lo, |s|)] + v + s[Min(hi, |s|)..]
  }

  function Zeros(n: nat): (z: seq<byte>)
    ensures |z| == n
  {
    seq(n, _ => 0)
  }

  function Pad(data: seq<byte>, page: nat): seq<byte>
    requires 0 < page
  {
    if |data| % page == 0 then data else data + Zeros(page - |data| % page)
  }

  // ----- The header -----

  datatype Header = Header(kernelSize: nat, kernelAddr: nat, ramdiskSize: nat, ramdiskAddr: nat, secondSize: nat,
                           secondAddr: nat, tagsAddr: nat, pageSize: nat, headerVersion: nat, osVersion: nat,
                           name: seq<byte>, cmdline: seq<byte>, ids: seq<byte>)
  {
    // The ten numbers fit their fields and the three strings fill theirs.
    ghost predicate WellFormed() {
      && kernelSize < TWO_POW_32 && kernelAddr < TWO_POW_32 && ramdiskSize < TWO_POW_32
      && ramdiskAddr < TWO_POW_32 && secondSize < TWO_POW_32 && secondAddr < TWO_POW_32
      && tagsAddr < TWO_POW_32 && pageSize < TWO_POW_32 && headerVersion < TWO_POW_32 && osVersion < TWO_POW_32
      && |name| == 16 && |cmdline| == CMDLINE_LEN && |ids| == 32
    }

    function Numbers(): (ns: seq<nat>)
      ensures |ns| == 10
    {
      [kernelSize, kernelAddr, ramdiskSize, ramdiskAddr, secondSize, secondAddr, tagsAddr, pageSize, headerVersion,
       osVersion]
    }
  }

  // Little-endian 32-bit numbers, one after the other.
  function PackWords(ns: seq<nat>): (s: seq<byte>)
    ensures |s| == 4 * |ns|
  {
    if ns == [] then [] else PackWords(ns[..|ns| - 1]) + ToLE32(ns[|ns| - 1])
  }

  function WordAt(buf: seq<byte>, k: nat): nat
    requires 8 + 4 * k + 4 <= |buf|
  {
    LE32(buf[8 + 4 * k..8 + 4 * k + 4])
  }

  function ParseHeader(buf: seq<byte>): Result<Header> {
    if Slice(buf, 0, 8) != MAGIC then Err(NotAnImage)
    else if |buf| < 48 then Err(TooShort)
    else Ok(Header(WordAt(buf, 0), WordAt(buf, 1), WordAt(buf, 2), WordAt(buf, 3), WordAt(buf, 4), WordAt(buf, 5),
                   WordAt(buf, 6), WordAt(buf, 7), WordAt(buf, 8), WordAt(buf, 9),
                   Slice(buf, 48, 64), Slice(buf, 64, 576), Slice(buf, 576, 608)))
  }

  function RamdiskOffset(h: Header): nat
    requires 0 < h.pageSize
  {
    h.pageSize + (h.kernelSize + h.pageSize - 1) / h.pageSize * h.pageSize
  }

  function ExtractRamdisk(buf: seq<byte>, h: Header): Result<seq<byte>> {
    if h.pageSize == 0 then Err(NoPageSize)
    else Ok(Slice(buf, RamdiskOffset(h), RamdiskOffset(h) + h.ramdiskSize))
  }

  // The header page: a page of zeros into which magic, numbers and strings are stored one after the other.
  function BuildHeader(h: Header, newKernelSize: nat): Result<seq<byte>> {
    var h0 := SetSlice(Zeros(h.pageSize), 0, 8, MAGIC);
    if |h0| < 48 || TWO_POW_32 <= newKernelSize || TWO_POW_32 <= h.kernelAddr then Err(OutOfRange)
    else
      var h1 := SetSlice(h0, 8, 48, PackWords(h.(kernelSize := newKernelSize).Numbers()));
      var h2 := SetSlice(h1, 48, 64, h.name);
      var h3 := SetSlice(h2, 64, 576, h.cmdline);
      Ok(SetSlice(h3, 576, 608, h.ids))
  }

  // ----- Packing -----

  function Readdress(h: Header, kernelAddr: Option<nat>): Result<Header> {
    match kernelAddr
    case None => Ok(h)
    case Some(a) => if a % KERNEL_ALIGNMENT != 0 then Err(Unaligned) else Ok(h.(kernelAddr := a))
  }

  // The new image: header page, kernel with the device tree appended, and the reference's ramdisk.
  function Pack(ref: seq<byte>, kernel: seq<byte>, dtb: seq<byte>, kernelAddr: Option<nat>): Result<seq<byte>> {
    var parsed :- ParseHeader(ref);
    var h :- Readdress(parsed, kernelAddr);
    var ramdisk :- ExtractRamdisk(ref, h);
    if |ramdisk| != h.ramdiskSize then Err(RamdiskMismatch)
    else
      var header :- BuildHeader(h, |kernel + dtb|);
      Ok(header + Pad(kernel + dtb, h.pageSize) + Pad(ramdisk, h.pageSize))
  }

  // The command-line field with a space and the appended text after its old text, or none if that is too long.
  function Extended(field: seq<byte>, append: seq<byte>): Option<seq<byte>> {
    var line := UntilZero(field) + [SPACE] + append;
    if CMDLINE_LEN <= |line| then None else Some(line + Zeros(CMDLINE_LEN - |line|))
  }

  function PatchCmdline(data: seq<byte>, append: seq<byte>): Result<seq<byte>> {
    if Slice(data, 0, 8) != MAGIC then Err(NotAnImage)
    else
      match Extended(Slice(data, CMDLINE_OFF, CMDLINE_OFF + CMDLINE_LEN), append)
      case None => Err(CmdlineTooLong)
      case Some(field) => Ok(SetSlice(data, CMDLINE_OFF, CMDLINE_OFF + CMDLINE_LEN, field))
  }

  // The script's byte array: assigning to a slice of it may change its length.
  class ByteArray {
    var data: seq<byte>

    constructor (image: seq<byte>)
      ensures data == image
    {
      data := image;
    }

    // Rewrites the command-line field, on images of any length.
    method PatchInPlace(append: seq<byte>) returns (error: Option<Error>)
      modifies this
      ensures match PatchCmdline(old(data), append)
              case Ok(patched) => error == None && data == patched
              case Err(e) => error == Some(e) && data == old(data)
    {
      if Slice(data, 0, 8) != MAGIC {
        return Some(NotAnImage);
      }
      var field := Slice(data, CMDLINE_OFF, CMDLINE_OFF + CMDLINE_LEN);
      var line := UntilZero(field) + [SPACE] + append;
      if CMDLINE_LEN <= |line| {
        return Some(CmdlineTooLong);
      }
      data := SetSlice(data, CMDLINE_OFF, CMDLINE_OFF + CMDLINE_LEN, line + Zeros(CMDLINE_LEN - |line|));
      return None;
    }
  }

  // The assembly as the script does it: an output that grows part by part.
  method PackImage(ref: seq<byte>, kernel: seq<byte>, dtb: seq<byte>, kernelAddr: Option<nat>)
    returns (r: Result<seq<byte>>)
    ensures r == Pack(ref, kernel, dtb, kernelAddr)
    ensures r.Ok? && HEADER_SIZE <= |ref| && HEADER_SIZE <= ParseHeader(ref).value.pageSize ==>
              Unpacks(r.value, NewHeader(ref, kernelAddr, |kernel + dtb|), kernel + dtb,
                      ExtractRamdisk(ref, ParseHeader(ref).value))
  {
    var h :- ParseHeader(ref);
    if kernelAddr.Some? {
      if kernelAddr.value % KERNEL_ALIGNMENT != 0 {
        return Err(Unaligned);
      }
      h := h.(kernelAddr := kernelAddr.value);
    }
    var ramdisk :- ExtractRamdisk(ref, h);
    if |ramdisk| != h.ramdiskSize {
      return Err(RamdiskMismatch);
    }
    var blob := kernel + dtb;
    var out := [];
    var header :- BuildHeader(h, |blob|);
    out := out + header;
    out := out + Pad(blob, h.pageSize);
    out := out + Pad(ramdisk, h.pageSize);
    assert [] + header == header;
    r := Ok(out);
    if HEADER_SIZE <= |ref| && HEADER_SIZE <= h.pageSize {
      PackedRoundTrip(ref, kernel, dtb, kernelAddr);
    }
  }

  // ----- The header page in one piece -----

  function Fields(h: Header): seq<byte> {
    MAGIC + PackWords(h.Numbers()) + h.name + h.cmdline + h.ids
  }

  // For every page size of at least 48 the header is the fields, followed by zeros if the page is longer than they are.
  lemma HeaderForm(h: Header, n: nat)
    requires h.WellFormed() && n < TWO_POW_32 && 48 <= h.pageSize
    ensures BuildHeader(h, n) ==
              Ok(Fields(h.(kernelSize := n)) + Zeros(if HEADER_SIZE <= h.pageSize then h.pageSize - HEADER_SIZE else 0))
  {
    hide PackWords;
    var z := Zeros(h.pageSize);
    var words := PackWords(h.(kernelSize := n).Numbers());
    var h0 := SetSlice(z, 0, 8, MAGIC);
    assert h0 == MAGIC + z[8..];
    var h1 := SetSlice(h0, 8, 48, words);
    assert h1 == MAGIC + words + z[48..];
    var h2 := SetSlice(h1, 48, 64, h.name);
    assert h2 == MAGIC + words + h.name + z[Min(64, |z|)..];
    var h3 := SetSlice(h2, 64, 576, h.cmdline);
    assert h3 == MAGIC + words + h.name + h.cmdline + z[Min(576, |z|)..];
    var h4 := SetSlice(h3, 576, 608, h.ids);
    assert h4 == MAGIC + words + h.name + h.cmdline + h.ids + z[Min(608, |z|)..];
    assert z[Min(608, |z|)..] == Zeros(if HEADER_SIZE <= h.pageSize then h.pageSize - HEADER_SIZE else 0);
  }

  // The kernel starts on the second page exactly when a page holds the header.
  lemma HeaderFillsItsPageIff(h: Header, n: nat)
    requires h.WellFormed() && n < TWO_POW_32 && 48 <= h.pageSize
    ensures BuildHeader(h, n).Ok? && (|BuildHeader(h, n).value| == h.pageSize <==> HEADER_SIZE <= h.pageSize)
  {
    HeaderForm(h, n);
  }

  lemma {:induction false} PackedWord(ns: seq<nat>, k: nat)
    requires k < |ns| && forall j :: 0 <= j < |ns| ==> ns[j] < TWO_POW_32
    ensures LE32(PackWords(ns)[4 * k..4 * k + 4]) == ns[k]
    decreases |ns|
  {
    var n := |ns| - 1;
    if k < n {
      PackedWord(ns[..n], k);
      assert PackWords(ns)[4 * k..4 * k + 4] == PackWords(ns[..n])[4 * k..4 * k + 4];
    } else {
      assert PackWords(ns)[4 * n..4 * n + 4] == ToLE32(ns[n]);
      LE32RoundTrip(ns[n]);
    }
  }

  lemma FieldsWord(h: Header, tail: seq<byte>, k: nat)
    requires h.WellFormed() && k < 10
    ensures WordAt(Fields(h) + tail, k) == h.Numbers()[k]
  {
    hide PackWords;
    PackedWord(h.Numbers(), k);
    var buf := Fields(h) + tail;
    assert buf[8 + 4 * k..8 + 4 * k + 4] == PackWords(h.Numbers())[4 * k..4 * k + 4];
  }

  // Parsing whatever begins with the fields of a header gives the header back.
  lemma ParseFields(h: Header, tail: seq<byte>)
    requires h.WellFormed()
    ensures ParseHeader(Fields(h) + tail) == Ok(h)
  {
    hide PackWords, WordAt;
    var buf := Fields(h) + tail;
    forall k: nat | k < 10 ensures WordAt(buf, k) == h.Numbers()[k] {
      FieldsWord(h, tail, k);
    }
    assert Slice(buf, 0, 8) == MAGIC;
    assert Slice(buf, 48, 64) == h.name;
    assert Slice(buf, 64, 576) == h.cmdline;
    assert Slice(buf, 576, 608) == h.ids;
    assert h.Numbers()[0] == h.kernelSize && h.Numbers()[1] == h.kernelAddr && h.Numbers()[2] == h.ramdiskSize
        && h.Numbers()[3] == h.ramdiskAddr && h.Numbers()[4] == h.secondSize && h.Numbers()[5] == h.secondAddr
        && h.Numbers()[6] == h.tagsAddr && h.Numbers()[7] == h.pageSize && h.Numbers()[8] == h.headerVersion
        && h.Numbers()[9] == h.osVersion;
  }

  // A parsed header of an image of at least 608 bytes is well formed.
  lemma ParsedIsWellFormed(buf: seq<byte>)
    requires HEADER_SIZE <= |buf| && ParseHeader(buf).Ok?
    ensures ParseHeader(buf).value.WellFormed()
  {
  }

  // ----- Padding -----

  // Padding ends on a page boundary, at the page count that the unpacker computes.
  lemma PadLength(data: seq<byte>, p: nat)
    requires 0 < p
    ensures |Pad(data, p)| == (|data| + p - 1) / p * p
    ensures |Pad(data, p)| % p == 0
    ensures |data| <= |Pad(data, p)| && Pad(data, p)[..|data|] == data
  {
    var q, r := |data| / p, |data| % p;
    assert |data| == q * p + r;
    if r == 0 {
      QuotientUnique(|data| + p - 1, p, q, p - 1);
      QuotientUnique(|data|, p, q, 0);
    } else {
      assert (q + 1) * p == q * p + p;
      QuotientUnique(|data| + p - 1, p, q + 1, r - 1);
      QuotientUnique(|Pad(data, p)|, p, q + 1, 0);
    }
  }

  lemma SumOfPages(p: nat, a: nat, b: nat)
    requires 0 < p && a % p == 0 && b % p == 0
    ensures (p + a + b) % p == 0
  {
    var x, y := a / p, b / p;
    assert a == x * p && b == y * p;
    assert p + a + b == (1 + x + y) * p + 0;
    QuotientUnique(p + a + b, p, 1 + x + y, 0);
  }

  // ----- What a packed image contains -----

  // The reference's header with the requested address and the new kernel's size.
  function NewHeader(ref: seq<byte>, kernelAddr: Option<nat>, n: nat): Header
    requires ParseHeader(ref).Ok?
  {
    var h := ParseHeader(ref).value;
    h.(kernelSize := n, kernelAddr := if kernelAddr.Some? then kernelAddr.value else h.kernelAddr)
  }

  // The bytes of an image.
  function ImageBytes(h: Header, blob: seq<byte>, ramdisk: seq<byte>): seq<byte>
    requires HEADER_SIZE <= h.pageSize
  {
    Fields(h) + Zeros(h.pageSize - HEADER_SIZE) + Pad(blob, h.pageSize) + Pad(ramdisk, h.pageSize)
  }

  // The image parses to the header, its kernel slot holds the blob, the ramdisk is extracted from it unchanged, and
  // it fills whole pages.
  ghost predicate Unpacks(image: seq<byte>, h: Header, blob: seq<byte>, ramdisk: Result<seq<byte>>) {
    && 0 < h.pageSize
    && ParseHeader(image) == Ok(h)
    && h.pageSize + |blob| <= |image| && image[h.pageSize..h.pageSize + |blob|] == blob
    && ExtractRamdisk(image, h) == ramdisk
    && |image| % h.pageSize == 0
  }

  lemma ImageContents(h: Header, blob: seq<byte>, ramdisk: seq<byte>)
    requires h.WellFormed() && HEADER_SIZE <= h.pageSize
    requires h.kernelSize == |blob| && h.ramdiskSize == |ramdisk|
    ensures Unpacks(ImageBytes(h, blob, ramdisk), h, blob, Ok(ramdisk))
  {
    hide Pad, ParseHeader, Slice, PackWords;
    var p := h.pageSize;
    var head := Fields(h) + Zeros(p - HEADER_SIZE);
    var kernel, rest := Pad(blob, p), Pad(ramdisk, p);
    var image := ImageBytes(h, blob, ramdisk);
    assert |head| == p;
    PadLength(blob, p);
    PadLength(ramdisk, p);
    SumOfPages(p, |kernel|, |rest|);
    assert image == Fields(h) + (Zeros(p - HEADER_SIZE) + kernel + rest);
    ParseFields(h, Zeros(p - HEADER_SIZE) + kernel + rest);
    Middle(head, kernel, rest, |blob|);
    assert RamdiskOffset(h) == p + |kernel|;
    End(head + kernel, rest, |ramdisk|);
  }

  lemma Middle(a: seq<byte>, b: seq<byte>, c: seq<byte>, n: nat)
    requires n <= |b|
    ensures (a + b + c)[|a|..|a| + n] == b[..n]
  {
  }

  lemma End(a: seq<byte>, b: seq<byte>, n: nat)
    requires n <= |b|
    ensures Slice(a + b, |a|, |a| + n) == b[..n]
  {
  }

  // A packed image is the bytes of the reference's header, with size and address replaced, the kernel with the device
  // tree, and the reference's ramdisk.
  lemma PackedForm(ref: seq<byte>, kernel: seq<byte>, dtb: seq<byte>, kernelAddr: Option<nat>)
    requires HEADER_SIZE <= |ref| && Pack(ref, kernel, dtb, kernelAddr).Ok?
    requires HEADER_SIZE <= ParseHeader(ref).value.pageSize
    ensures var h := NewHeader(ref, kernelAddr, |kernel + dtb|);
            var ramdisk := ExtractRamdisk(ref, ParseHeader(ref).value);
            && h.WellFormed() && ramdisk.Ok? && |ramdisk.value| == h.ramdiskSize
            && Pack(ref, kernel, dtb, kernelAddr).value == ImageBytes(h, kernel + dtb, ramdisk.value)
  {
    hide ParseHeader, SetSlice, Fields, BuildHeader, Slice;
    ParsedIsWellFormed(ref);
    var h := Readdress(ParseHeader(ref).value, kernelAddr).value;
    BuiltInRange(h, |kernel + dtb|);
    HeaderForm(h, |kernel + dtb|);
  }

  lemma BuiltInRange(h: Header, n: nat)
    ensures BuildHeader(h, n).Ok? ==> n < TWO_POW_32 && h.kernelAddr < TWO_POW_32
  {
  }

  // Round trip: the packed image parses to the reference header with only the kernel size and any requested address
  // changed; its kernel slot holds kernel and device tree, its ramdisk is the reference's, its length is page-aligned.
  lemma PackedRoundTrip(ref: seq<byte>, kernel: seq<byte>, dtb: seq<byte>, kernelAddr: Option<nat>)
    requires HEADER_SIZE <= |ref| && Pack(ref, kernel, dtb, kernelAddr).Ok?
    requires HEADER_SIZE <= ParseHeader(ref).value.pageSize
    ensures Unpacks(Pack(ref, kernel, dtb, kernelAddr).value, NewHeader(ref, kernelAddr, |kernel + dtb|),
                    kernel + dtb, ExtractRamdisk(ref, ParseHeader(ref).value))
  {
    assert ParseHeader(ref).Ok?;
    hide ParseHeader, Pack, ImageBytes, ExtractRamdisk, Unpacks;
    PackedForm(ref, kernel, dtb, kernelAddr);
    var h := NewHeader(ref, kernelAddr, |kernel + dtb|);
    ImageContents(h, kernel + dtb, ExtractRamdisk(ref, ParseHeader(ref).value).value);
  }

  // The length of an image with all the parts that its header announces, in whole pages.
  function AnnouncedLength(h: Header): nat
    requires 0 < h.pageSize
  {
    h.pageSize + WholePages(h.kernelSize, h.pageSize) + WholePages(h.ramdiskSize, h.pageSize)
      + WholePages(h.secondSize, h.pageSize)
  }

  function WholePages(n: nat, page: nat): (r: nat)
    requires 0 < page
    ensures n <= r && (n == 0 ==> r == 0)
  {
    var pages := (n + page - 1) / page;
    RoundedUp(n, page);
    pages * page
  }

  lemma RoundedUp(n: nat, page: nat)
    requires 0 < page
    ensures n <= (n + page - 1) / page * page
    ensures n == 0 ==> (n + page - 1) / page == 0
  {
    PadLength(Zeros(n), page);
  }

  // The packed image is as long as its header announces exactly if the reference has no second stage; the script
  // keeps the announced size of one but does not copy it.
  lemma CompleteIffNoSecondStage(ref: seq<byte>, kernel: seq<byte>, dtb: seq<byte>, kernelAddr: Option<nat>)
    requires HEADER_SIZE <= |ref| && Pack(ref, kernel, dtb, kernelAddr).Ok?
    requires HEADER_SIZE <= ParseHeader(ref).value.pageSize
    ensures var out := Pack(ref, kernel, dtb, kernelAddr).value;
            && ParseHeader(out) == Ok(NewHeader(ref, kernelAddr, |kernel + dtb|))
            && (|out| == AnnouncedLength(ParseHeader(out).value) <==> ParseHeader(ref).value.secondSize == 0)
            && |out| <= AnnouncedLength(ParseHeader(out).value)
  {
    assert ParseHeader(ref).Ok?;
    hide ParseHeader, ImageBytes, ExtractRamdisk, Fields, Pack, Pad;
    PackedRoundTrip(ref, kernel, dtb, kernelAddr);
    PackedForm(ref, kernel, dtb, kernelAddr);
    var h := NewHeader(ref, kernelAddr, |kernel + dtb|);
    ImageLength(h, kernel + dtb, ExtractRamdisk(ref, ParseHeader(ref).value).value);
  }

  lemma ImageLength(h: Header, blob: seq<byte>, ramdisk: seq<byte>)
    requires h.WellFormed() && HEADER_SIZE <= h.pageSize
    requires h.kernelSize == |blob| && h.ramdiskSize == |ramdisk|
    ensures |ImageBytes(h, blob, ramdisk)| + WholePages(h.secondSize, h.pageSize) == AnnouncedLength(h)
  {
    hide Pad;
    PadLength(blob, h.pageSize);
    PadLength(ramdisk, h.pageSize);
  }

  // Where the fields of a header are: ten little-endian words from byte 8 on, then three strings.
  lemma HeaderPositions(buf: seq<byte>)
    requires HEADER_SIZE <= |buf| && ParseHeader(buf).Ok?
    ensures buf[..8] == [0x41, 0x4E, 0x44, 0x52, 0x4F, 0x49, 0x44, 0x21]
    ensures var h := ParseHeader(buf).value;
            && h.kernelSize == LE32(buf[8..12]) && h.kernelAddr == LE32(buf[12..16])
            && h.ramdiskSize == LE32(buf[16..20]) && h.ramdiskAddr == LE32(buf[20..24])
            && h.secondSize == LE32(buf[24..28]) && h.secondAddr == LE32(buf[28..32])
            && h.tagsAddr == LE32(buf[32..36]) && h.pageSize == LE32(buf[36..40])
            && h.headerVersion == LE32(buf[40..44]) && h.osVersion == LE32(buf[44..48])
            && h.name == buf[48..64] && h.cmdline == buf[64..576] && h.ids == buf[576..608]
  {
    hide LE32;
  }

  // The same number in both.
  ghost predicate SameWord(a: seq<byte>, b: seq<byte>, at: nat)
    requires at + 4 <= |a| && at + 4 <= |b|
  {
    LE32(a[at..at + 4]) == LE32(b[at..at + 4])
  }

  // The header of the packed image byte by byte: magic, kernel size at 8, the requested address or the reference's at
  // 12, and the reference's other fields in their places.
  lemma PackedBytes(ref: seq<byte>, kernel: seq<byte>, dtb: seq<byte>, kernelAddr: Option<nat>, out: seq<byte>)
    requires HEADER_SIZE <= |ref| && Pack(ref, kernel, dtb, kernelAddr) == Ok(out)
    requires HEADER_SIZE <= LE32(ref[36..40])
    ensures 608 <= |out| && out[..8] == [0x41, 0x4E, 0x44, 0x52, 0x4F, 0x49, 0x44, 0x21]
    ensures LE32(out[8..12]) == |kernel| + |dtb|
    ensures LE32(out[12..16]) == if kernelAddr.Some? then kernelAddr.value else LE32(ref[12..16])
    ensures forall at :: at in {16, 20, 24, 28, 32, 36, 40, 44} ==> SameWord(out, ref, at)
    ensures out[48..608] == ref[48..608]
  {
    PackedKernel(ref, kernel, dtb, kernelAddr, out);
    AddressWord(ref);
    hide LE32, ParseHeader, Pack, SameWord, Slice;
    HeaderChange(ref, out, |kernel + dtb|, NewHeader(ref, kernelAddr, |kernel + dtb|).kernelAddr);
  }

  // The kernel with the device tree is on the second page.
  lemma PackedKernel(ref: seq<byte>, kernel: seq<byte>, dtb: seq<byte>, kernelAddr: Option<nat>, out: seq<byte>)
    requires HEADER_SIZE <= |ref| && Pack(ref, kernel, dtb, kernelAddr) == Ok(out)
    requires HEADER_SIZE <= LE32(ref[36..40])
    ensures ParseHeader(ref).Ok? && ParseHeader(out) == Ok(NewHeader(ref, kernelAddr, |kernel + dtb|))
    ensures var page := LE32(ref[36..40]);
            page + |kernel + dtb| <= |out| && out[page..page + |kernel + dtb|] == kernel + dtb
  {
    hide *;
    PackParses(ref, kernel, dtb, kernelAddr);
    PageWord(ref);
    PackedSlot(ref, kernel, dtb, kernelAddr, out);
  }

  lemma PackedSlot(ref: seq<byte>, kernel: seq<byte>, dtb: seq<byte>, kernelAddr: Option<nat>, out: seq<byte>)
    requires HEADER_SIZE <= |ref| && Pack(ref, kernel, dtb, kernelAddr) == Ok(out) && ParseHeader(ref).Ok?
    requires HEADER_SIZE <= ParseHeader(ref).value.pageSize
    ensures ParseHeader(out) == Ok(NewHeader(ref, kernelAddr, |kernel + dtb|))
    ensures var page := ParseHeader(ref).value.pageSize;
            page + |kernel + dtb| <= |out| && out[page..page + |kernel + dtb|] == kernel + dtb
  {
    hide LE32, ParseHeader, Pack, Slice, Unpacks, ExtractRamdisk;
    PackedRoundTrip(ref, kernel, dtb, kernelAddr);
    UnpackedSlot(out, NewHeader(ref, kernelAddr, |kernel + dtb|), kernel + dtb,
                 ExtractRamdisk(ref, ParseHeader(ref).value));
  }

  lemma PackParses(ref: seq<byte>, kernel: seq<byte>, dtb: seq<byte>, kernelAddr: Option<nat>)
    requires Pack(ref, kernel, dtb, kernelAddr).Ok?
    ensures ParseHeader(ref).Ok?
  {
    hide ParseHeader, BuildHeader, ExtractRamdisk, Pad, Readdress;
  }

  lemma UnpackedSlot(image: seq<byte>, h: Header, blob: seq<byte>, ramdisk: Result<seq<byte>>)
    requires Unpacks(image, h, blob, ramdisk)
    ensures ParseHeader(image) == Ok(h)
    ensures h.pageSize + |blob| <= |image| && image[h.pageSize..h.pageSize + |blob|] == blob
  {
    hide ParseHeader, ExtractRamdisk;
  }

  lemma PageWord(buf: seq<byte>)
    requires HEADER_SIZE <= |buf| && ParseHeader(buf).Ok?
    ensures ParseHeader(buf).value.pageSize == LE32(buf[36..40])
  {
    hide LE32, ParseHeader;
    HeaderPositions(buf);
  }

  lemma AddressWord(buf: seq<byte>)
    requires HEADER_SIZE <= |buf| && ParseHeader(buf).Ok?
    ensures ParseHeader(buf).value.kernelAddr == LE32(buf[12..16])
  {
    hide LE32, ParseHeader;
    HeaderPositions(buf);
  }

  // Two headers that differ in the kernel's size and address only.
  lemma HeaderChange(ref: seq<byte>, out: seq<byte>, n: nat, addr: nat)
    requires HEADER_SIZE <= |ref| && HEADER_SIZE <= |out| && ParseHeader(ref).Ok?
    requires ParseHeader(out) == Ok(ParseHeader(ref).value.(kernelSize := n, kernelAddr := addr))
    ensures out[..8] == [0x41, 0x4E, 0x44, 0x52, 0x4F, 0x49, 0x44, 0x21]
    ensures LE32(out[8..12]) == n && LE32(out[12..16]) == addr
    ensures forall at :: at in {16, 20, 24, 28, 32, 36, 40, 44} ==> SameWord(out, ref, at)
    ensures out[48..608] == ref[48..608]
  {
    hide LE32, ParseHeader;
    HeaderPositions(ref);
    HeaderPositions(out);
    Strings(ref);
    Strings(out);
  }

  lemma Strings(s: seq<byte>)
    requires HEADER_SIZE <= |s|
    ensures s[48..608] == s[48..64] + s[64..576] + s[576..608]
  {
  }

  // Packing the same kernel around the packed image reproduces it.
  lemma RepackReproduces(ref: seq<byte>, kernel: seq<byte>, dtb: seq<byte>, kernelAddr: Option<nat>)
    requires HEADER_SIZE <= |ref| && Pack(ref, kernel, dtb, kernelAddr).Ok?
    requires HEADER_SIZE <= ParseHeader(ref).value.pageSize
    ensures var out := Pack(ref, kernel, dtb, kernelAddr).value;
            Pack(out, kernel, dtb, None) == Ok(out) && Pack(out, kernel, dtb, kernelAddr) == Ok(out)
  {
    hide ParseHeader, ImageBytes, ExtractRamdisk, BuildHeader, Fields;
    var out := Pack(ref, kernel, dtb, kernelAddr).value;
    PackedRoundTrip(ref, kernel, dtb, kernelAddr);
    PackedForm(ref, kernel, dtb, kernelAddr);
    var ramdisk := ExtractRamdisk(ref, ParseHeader(ref).value).value;
    PackResult(out, kernel, dtb, None, ramdisk);
    PackResult(out, kernel, dtb, kernelAddr, ramdisk);
  }

  predicate Aligned(kernelAddr: Option<nat>) {
    kernelAddr.Some? ==> kernelAddr.value % KERNEL_ALIGNMENT == 0
  }

  // The result of packing, when nothing goes wrong.
  lemma PackResult(ref: seq<byte>, kernel: seq<byte>, dtb: seq<byte>, kernelAddr: Option<nat>, ramdisk: seq<byte>)
    requires ParseHeader(ref).Ok? && Aligned(kernelAddr)
    requires NewHeader(ref, kernelAddr, |kernel + dtb|).WellFormed()
    requires HEADER_SIZE <= ParseHeader(ref).value.pageSize
    requires ExtractRamdisk(ref, ParseHeader(ref).value) == Ok(ramdisk)
    requires |ramdisk| == ParseHeader(ref).value.ramdiskSize
    ensures Pack(ref, kernel, dtb, kernelAddr) ==
              Ok(ImageBytes(NewHeader(ref, kernelAddr, |kernel + dtb|), kernel + dtb, ramdisk))
  {
    hide ParseHeader, BuildHeader, Fields, Slice;
    var n := |kernel + dtb|;
    HeaderForm(NewHeader(ref, kernelAddr, n), n);
    BuildIgnoresOldSize(NewHeader(ref, kernelAddr, n), ParseHeader(ref).value.kernelSize, n);
    SameFields(NewHeader(ref, kernelAddr, n), n);
  }

  lemma BuildIgnoresOldSize(h: Header, k: nat, n: nat)
    ensures BuildHeader(h.(kernelSize := k), n) == BuildHeader(h, n)
  {
  }

  lemma SameFields(h: Header, n: nat)
    requires h.kernelSize == n
    ensures h.(kernelSize := n) == h
  {
  }

  // ----- Patching and packing -----

  lemma PatchedHeader(ref: seq<byte>, field: seq<byte>)
    requires HEADER_SIZE <= |ref| && |field| == CMDLINE_LEN && ParseHeader(ref).Ok?
    ensures ParseHeader(SetSlice(ref, CMDLINE_OFF, CMDLINE_OFF + CMDLINE_LEN, field)) ==
              Ok(ParseHeader(ref).value.(cmdline := field))
  {
    var patched := SetSlice(ref, CMDLINE_OFF, CMDLINE_OFF + CMDLINE_LEN, field);
    assert patched[..64] == ref[..64];
    forall k: nat | k < 10 ensures WordAt(patched, k) == WordAt(ref, k) {
      assert patched[8 + 4 * k..8 + 4 * k + 4] == patched[..64][8 + 4 * k..8 + 4 * k + 4];
      assert ref[8 + 4 * k..8 + 4 * k + 4] == ref[..64][8 + 4 * k..8 + 4 * k + 4];
    }
    assert Slice(patched, 0, 8) == Slice(ref, 0, 8);
    assert Slice(patched, 48, 64) == Slice(ref, 48, 64);
    assert Slice(patched, 64, 576) == field;
    assert Slice(patched, 576, 608) == Slice(ref, 576, 608);
  }

  lemma PatchedRamdisk(ref: seq<byte>, field: seq<byte>, h: Header)
    requires HEADER_SIZE <= |ref| && |field| == CMDLINE_LEN && HEADER_SIZE <= h.pageSize
    ensures ExtractRamdisk(SetSlice(ref, CMDLINE_OFF, CMDLINE_OFF + CMDLINE_LEN, field), h.(cmdline := field)) ==
              ExtractRamdisk(ref, h)
  {
    var patched := SetSlice(ref, CMDLINE_OFF, CMDLINE_OFF + CMDLINE_LEN, field);
    assert |patched| == |ref| && patched[576..] == ref[576..];
    var lo, hi := RamdiskOffset(h), RamdiskOffset(h) + h.ramdiskSize;
    assert RamdiskOffset(h.(cmdline := field)) == lo;
    Pages(h);
    TailSlice(patched, ref, lo, hi);
  }

  lemma Pages(h: Header)
    requires 0 < h.pageSize
    ensures h.pageSize <= RamdiskOffset(h)
  {
    var q := (h.kernelSize + h.pageSize - 1) / h.pageSize;
    assert 0 <= q * h.pageSize;
  }

  lemma TailSlice(a: seq<byte>, b: seq<byte>, lo: nat, hi: nat)
    requires 576 <= |a| == |b| && a[576..] == b[576..] && 576 <= lo <= hi
    ensures Slice(a, lo, hi) == Slice(b, lo, hi)
  {
    forall i | 576 <= i < |a| ensures a[i] == b[i] {
      assert a[576..][i - 576] == b[576..][i - 576];
    }
  }

  lemma PatchedImage(h: Header, blob: seq<byte>, ramdisk: seq<byte>, field: seq<byte>)
    requires h.WellFormed() && HEADER_SIZE <= h.pageSize && |field| == CMDLINE_LEN
    ensures SetSlice(ImageBytes(h, blob, ramdisk), CMDLINE_OFF, CMDLINE_OFF + CMDLINE_LEN, field) ==
              ImageBytes(h.(cmdline := field), blob, ramdisk)
    ensures Slice(ImageBytes(h, blob, ramdisk), CMDLINE_OFF, CMDLINE_OFF + CMDLINE_LEN) == h.cmdline
    ensures Slice(ImageBytes(h, blob, ramdisk), 0, 8) == MAGIC
  {
    hide PackWords, Pad;
    var a := MAGIC + PackWords(h.Numbers()) + h.name;
    var b := h.ids + Zeros(h.pageSize - HEADER_SIZE) + Pad(blob, h.pageSize) + Pad(ramdisk, h.pageSize);
    assert |a| == CMDLINE_OFF && h.(cmdline := field).Numbers() == h.Numbers();
    assert ImageBytes(h, blob, ramdisk) == a + h.cmdline + b;
    assert ImageBytes(h.(cmdline := field), blob, ramdisk) == a + field + b;
    assert a[..8] == MAGIC;
  }

  // Up to its first zero, text that follows other text without a zero follows it.
  lemma {:induction false} UntilZeroJoins(a: seq<byte>, b: seq<byte>)
    requires 0 !in a
    ensures UntilZero(a + b) == a + UntilZero(b)
  {
    if a == [] {
      assert a + b == b;
    } else {
      assert (a + b)[1..] == a[1..] + b;
      UntilZeroJoins(a[1..], b);
      assert a + UntilZero(b) == [a[0]] + (a[1..] + UntilZero(b));
    }
  }

  lemma {:induction false} UntilZeroClean(s: seq<byte>)
    ensures 0 !in UntilZero(s)
  {
    if s != [] && s[0] != 0 {
      UntilZeroClean(s[1..]);
    }
  }

  // Patching appends a space and the text to the command line, up to a zero in the text, and touches no byte before
  // or behind the field; it refuses exactly the texts that leave no room for a zero.
  lemma PatchAppends(data: seq<byte>, append: seq<byte>)
    requires CMDLINE_OFF <= |data| && Slice(data, 0, 8) == MAGIC
    ensures var text := UntilZero(Slice(data, CMDLINE_OFF, CMDLINE_OFF + CMDLINE_LEN));
            var patched := PatchCmdline(data, append);
            && (patched.Ok? <==> |text| + 1 + |append| < CMDLINE_LEN)
            && (patched.Ok? ==>
                  var out := patched.value;
                  && |out| >= CMDLINE_OFF + CMDLINE_LEN && out[..CMDLINE_OFF] == data[..CMDLINE_OFF]
                  && out[CMDLINE_OFF + CMDLINE_LEN..] == data[Min(CMDLINE_OFF + CMDLINE_LEN, |data|)..]
                  && UntilZero(out[CMDLINE_OFF..CMDLINE_OFF + CMDLINE_LEN]) == text + [SPACE] + UntilZero(append))
  {
    var text := UntilZero(Slice(data, CMDLINE_OFF, CMDLINE_OFF + CMDLINE_LEN));
    UntilZeroClean(Slice(data, CMDLINE_OFF, CMDLINE_OFF + CMDLINE_LEN));
    var line := text + [SPACE] + append;
    if |line| < CMDLINE_LEN {
      var z := Zeros(CMDLINE_LEN - |line|);
      var out := PatchCmdline(data, append).value;
      assert out[CMDLINE_OFF..CMDLINE_OFF + CMDLINE_LEN] == line + z;
      assert line + z == (text + [SPACE]) + (append + z);
      UntilZeroJoins(text + [SPACE], append + z);
      UntilZeroPadded(append, z);
    }
  }

  lemma {:induction false} UntilZeroPadded(a: seq<byte>, z: seq<byte>)
    requires z != [] && z[0] == 0
    ensures UntilZero(a + z) == UntilZero(a)
  {
    if a == [] {
      assert a + z == z;
    } else {
      assert (a + z)[1..] == a[1..] + z;
      UntilZeroPadded(a[1..], z);
    }
  }

  function PatchThenPack(ref: seq<byte>, kernel: seq<byte>, dtb: seq<byte>, kernelAddr: Option<nat>,
                         append: seq<byte>): Result<seq<byte>>
  {
    var patched :- PatchCmdline(ref, append);
    Pack(patched, kernel, dtb, kernelAddr)
  }

  function PackThenPatch(ref: seq<byte>, kernel: seq<byte>, dtb: seq<byte>, kernelAddr: Option<nat>,
                         append: seq<byte>): Result<seq<byte>>
  {
    var packed :- Pack(ref, kernel, dtb, kernelAddr);
    PatchCmdline(packed, append)
  }

  // Patching the command line before packing or after it gives the same result, image or error, but for which error
  // is reported when the text is too long and packing fails as well.
  lemma PatchCommutesWithPack(ref: seq<byte>, kernel: seq<byte>, dtb: seq<byte>, kernelAddr: Option<nat>,
                              append: seq<byte>)
    requires HEADER_SIZE <= |ref|
    requires ParseHeader(ref).Ok? ==> ParseHeader(ref).value.pageSize == 0
                                      || HEADER_SIZE <= ParseHeader(ref).value.pageSize
    ensures var first := PatchThenPack(ref, kernel, dtb, kernelAddr, append);
            var last := PackThenPatch(ref, kernel, dtb, kernelAddr, append);
            && (first == last <==>
                  Pack(ref, kernel, dtb, kernelAddr).Ok? || PatchCmdline(ref, append) != Err(CmdlineTooLong))
            && (first.Ok? <==> last.Ok?)
  {
    if Pack(ref, kernel, dtb, kernelAddr).Ok? {
      CommutesWhenPacked(ref, kernel, dtb, kernelAddr, append);
    } else {
      CommutesWhenNotPacked(ref, kernel, dtb, kernelAddr, append);
    }
  }

  lemma CommutesWhenPacked(ref: seq<byte>, kernel: seq<byte>, dtb: seq<byte>, kernelAddr: Option<nat>,
                           append: seq<byte>)
    requires HEADER_SIZE <= |ref| && Pack(ref, kernel, dtb, kernelAddr).Ok?
    requires ParseHeader(ref).value.pageSize == 0 || HEADER_SIZE <= ParseHeader(ref).value.pageSize
    ensures var out := Pack(ref, kernel, dtb, kernelAddr).value;
            match PatchCmdline(ref, append)
            case Ok(patched) => PatchCmdline(out, append) == Pack(patched, kernel, dtb, kernelAddr)
            case Err(e) => PatchCmdline(out, append) == Err(e)
  {
    var h0 := ParseHeader(ref).value;
    assert HEADER_SIZE <= h0.pageSize;
    var blob, h := kernel + dtb, NewHeader(ref, kernelAddr, |kernel + dtb|);
    assert Slice(ref, 0, 8) == MAGIC && h.cmdline == Slice(ref, CMDLINE_OFF, CMDLINE_OFF + CMDLINE_LEN);
    PackedForm(ref, kernel, dtb, kernelAddr);
    var ramdisk := ExtractRamdisk(ref, h0).value;
    var extended := Extended(h.cmdline, append);
    PatchedImage(h, blob, ramdisk, if extended.Some? then extended.value else h.cmdline);
    if extended.Some? {
      PackPatched(ref, kernel, dtb, kernelAddr, ramdisk, extended.value);
    }
  }

  // A reference that cannot be packed cannot be packed after patching either, for the same reason.
  lemma CommutesWhenNotPacked(ref: seq<byte>, kernel: seq<byte>, dtb: seq<byte>, kernelAddr: Option<nat>,
                              append: seq<byte>)
    requires HEADER_SIZE <= |ref| && Pack(ref, kernel, dtb, kernelAddr).Err?
    requires ParseHeader(ref).Ok? ==> ParseHeader(ref).value.pageSize == 0
                                      || HEADER_SIZE <= ParseHeader(ref).value.pageSize
    ensures PatchCmdline(ref, append).Ok? ==>
              Pack(PatchCmdline(ref, append).value, kernel, dtb, kernelAddr) == Pack(ref, kernel, dtb, kernelAddr)
    ensures Pack(ref, kernel, dtb, kernelAddr).error != CmdlineTooLong
    ensures PatchCmdline(ref, append).Err? ==>
              PatchCmdline(ref, append).error == CmdlineTooLong
              || PatchCmdline(ref, append).error == Pack(ref, kernel, dtb, kernelAddr).error
  {
    hide SetSlice, WordAt, RamdiskOffset;
    if PatchCmdline(ref, append).Ok? {
      var field := Extended(Slice(ref, CMDLINE_OFF, CMDLINE_OFF + CMDLINE_LEN), append).value;
      PatchedHeader(ref, field);
      var h := ParseHeader(ref).value;
      if h.pageSize != 0 {
        var a := Readdress(h, kernelAddr);
        if a.Ok? {
          PatchedRamdisk(ref, field, a.value);
        }
      }
    }
  }

  // Packing around a reference whose command-line field was replaced.
  lemma PackPatched(ref: seq<byte>, kernel: seq<byte>, dtb: seq<byte>, kernelAddr: Option<nat>, ramdisk: seq<byte>,
                    field: seq<byte>)
    requires HEADER_SIZE <= |ref| && |field| == CMDLINE_LEN
    requires ParseHeader(ref).Ok? && Aligned(kernelAddr)
    requires NewHeader(ref, kernelAddr, |kernel + dtb|).WellFormed()
    requires HEADER_SIZE <= ParseHeader(ref).value.pageSize
    requires ExtractRamdisk(ref, ParseHeader(ref).value) == Ok(ramdisk)
    requires |ramdisk| == ParseHeader(ref).value.ramdiskSize
    ensures Pack(SetSlice(ref, CMDLINE_OFF, CMDLINE_OFF + CMDLINE_LEN, field), kernel, dtb, kernelAddr) ==
              Ok(ImageBytes(NewHeader(ref, kernelAddr, |kernel + dtb|).(cmdline := field), kernel + dtb, ramdisk))
  {
    hide ParseHeader, SetSlice, ImageBytes, Pack, ExtractRamdisk;
    var patched := SetSlice(ref, CMDLINE_OFF, CMDLINE_OFF + CMDLINE_LEN, field);
    PatchedHeader(ref, field);
    PatchedRamdisk(ref, field, ParseHeader(ref).value);
    PackResult(patched, kernel, dtb, kernelAddr, ramdisk);
  }
}
