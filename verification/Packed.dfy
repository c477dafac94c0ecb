/**
 * Boot images as they are made: a reference packer that puts every size and every part at its
 * place in the file, and what becomes of a packed image when a partition is started.
 */
module Packed {
  import opened Machine
  import opened Memory
  import opened Placement
  import opened BootImage
  import opened Handover
  import E820

  // ------------------------------------------------------------ the packer

  /** ANDROID! */
  function Magic(): seq<byte>
  {
    ['A' as int, 'N' as int, 'D' as int, 'R' as int, 'O' as int, 'I' as int, 'D' as int, '!' as int]
  }

  /** The data, filled up with zeros to whole pages. */
  function Pad(data: seq<byte>, page: nat): seq<byte>
    requires page > 0
  {
    if data == [] then []
    else if |data| <= page then data + Zeros(page - |data|)
    else data[..page] + Pad(data[page..], page)
  }

  /** The setup code starts with the boot sector and holds its own number of further sectors at 0x1f1. */
  datatype Bundle = Bundle(
    setup: seq<byte>,
    payload: seq<byte>,
    ramdisk: seq<byte>,
    second: seq<byte>,
    signature: seq<byte>,
    page: nat,
    cmdline: seq<byte>)
  {
    ghost predicate Valid()
    {
      && 1632 <= page
      && |setup| >= 1024 && 1 <= setup[0x1f1] <= 254 && |setup| == (setup[0x1f1] as int + 1) * 512
      && |cmdline| <= 1534 && 0 !in cmdline
      && |Pack()| < TWO_32
    }

    /** 511 characters of the command line fit the first field, all others the second. */
    function FirstField(): (r: seq<byte>)
      ensures |r| == 512
    {
      if |cmdline| <= 511 then cmdline + Zeros(512 - |cmdline|) else cmdline[..511] + [0]
    }

    function SecondField(): (r: seq<byte>)
      requires |cmdline| <= 1534
      ensures |r| == 1024
    {
      if |cmdline| <= 511 then Zeros(1024) else cmdline[511..] + Zeros(1024 - (|cmdline| - 511))
    }

    /** Magic, sizes and load addresses. */
    function Sizes(): (r: seq<byte>)
      ensures |r| == 48
    {
      Magic() + Put(|setup| + |payload|, 4) + Zeros(4)
      + Put(|ramdisk|, 4) + Zeros(4)
      + Put(|second|, 4) + Zeros(4)
      + Zeros(4) + Put(page, 4) + Put(|signature|, 4) + Zeros(4)
    }

    /** After the sizes come name, command line, checksum, and the rest of the command line. */
    function HeaderPage(): (r: seq<byte>)
      requires 1632 <= page && |cmdline| <= 1534
      ensures |r| == page
    {
      Sizes() + Zeros(16) + FirstField() + Zeros(32) + SecondField() + Zeros(page - 1632)
    }

    /** Everything that is signed. */
    function Unsigned(): seq<byte>
      requires 1632 <= page && |cmdline| <= 1534
    {
      HeaderPage() + Pad(setup + payload, page) + Pad(ramdisk, page) + Pad(second, page)
    }

    function Pack(): seq<byte>
      requires 1632 <= page && |cmdline| <= 1534
    {
      Unsigned() + Pad(signature, page)
    }
  }

  // ------------------------------------------------------------ unpacking gives the parts back

  lemma {:induction false} PadIs(data: seq<byte>, page: nat)
    requires page > 0
    ensures |Pad(data, page)| == Room(|data|, page) >= |data|
    ensures Pad(data, page)[..|data|] == data
    decreases |data|
  {
    if |data| > page {
      PadIs(data[page..], page);
      assert data == data[..page] + data[page..];
    }
  }

  lemma SizeSlices(b: Bundle)
    ensures var s := b.Sizes();
            && s[8..12] == Put(|b.setup| + |b.payload|, 4) && s[16..20] == Put(|b.ramdisk|, 4)
            && s[24..28] == Put(|b.second|, 4) && s[36..40] == Put(b.page, 4) && s[40..44] == Put(|b.signature|, 4)
            && s[0..8] == Magic()
  {
    hide Put, Zeros;
    var s := b.Sizes();
    var kernel := Magic() + Put(|b.setup| + |b.payload|, 4) + Zeros(4);
    var ramdisk := kernel + Put(|b.ramdisk|, 4) + Zeros(4);
    var second := ramdisk + Put(|b.second|, 4) + Zeros(4) + Zeros(4);
    assert s == second + Put(b.page, 4) + Put(|b.signature|, 4) + Zeros(4);
    assert s[36..40] == Put(b.page, 4) && s[40..44] == Put(|b.signature|, 4);
    assert s[..36] == second && second[24..28] == Put(|b.second|, 4);
    assert s[..24] == ramdisk && ramdisk[16..20] == Put(|b.ramdisk|, 4);
    assert s[..16] == kernel && kernel[8..12] == Put(|b.setup| + |b.payload|, 4) && kernel[..8] == Magic();
  }

  /** The fields of the header. */
  lemma HeaderSlices(b: Bundle)
    requires 1632 <= b.page && |b.cmdline| <= 1534
    ensures var h := b.HeaderPage();
            && h[8..12] == Put(|b.setup| + |b.payload|, 4) && h[16..20] == Put(|b.ramdisk|, 4)
            && h[24..28] == Put(|b.second|, 4) && h[36..40] == Put(b.page, 4) && h[40..44] == Put(|b.signature|, 4)
            && h[64..576] == b.FirstField() && h[608..1632] == b.SecondField()
            && h[0..8] == Magic()
  {
    SizeSlices(b);
    hide Put, Zeros, Bundle.Sizes, Bundle.FirstField, Bundle.SecondField;
    var h := b.HeaderPage();
    var upto := b.Sizes() + Zeros(16);
    assert h == upto + b.FirstField() + Zeros(32) + b.SecondField() + Zeros(b.page - 1632);
    assert h[..48] == b.Sizes();
    assert h[..576] == upto + b.FirstField();
    assert h[..1632] == upto + b.FirstField() + Zeros(32) + b.SecondField();
  }

  lemma PackedSizes(b: Bundle)
    requires b.Valid()
    ensures |b.Pack()| == b.page + Room(|b.setup| + |b.payload|, b.page) + Room(|b.ramdisk|, b.page)
                          + Room(|b.second|, b.page) + Room(|b.signature|, b.page)
  {
    hide Room, Pad, Bundle.HeaderPage;
    PadIs(b.setup + b.payload, b.page);
    PadIs(b.ramdisk, b.page);
    PadIs(b.second, b.page);
    PadIs(b.signature, b.page);
  }

  /** The header reads back. */
  lemma PackedHeader(b: Bundle)
    requires b.Valid()
    ensures |b.Pack()| >= BOOT_IMG_HDR_SIZE
    ensures HeaderOf(b.Pack()) ==
            Header(|b.setup| + |b.payload|, |b.ramdisk|, |b.second|, b.page, |b.signature|)
  {
    hide Put, Le, Room, Pad, Bundle.HeaderPage;
    var p, h := b.Pack(), b.HeaderPage();
    PackedSizes(b);
    HeaderSlices(b);
    assert Range(4) == TWO_32;
    assert p[..b.page] == h;
    forall a: nat, k: nat | a <= k <= b.page
      ensures p[a..k] == h[a..k]
    {
      assert p[a..k] == p[..b.page][a..k];
    }
    PutRoundTrip(|b.setup| + |b.payload|, 4);
    PutRoundTrip(|b.ramdisk|, 4);
    PutRoundTrip(|b.second|, 4);
    PutRoundTrip(b.page, 4);
    PutRoundTrip(|b.signature|, 4);
  }

  /** A padded part between what comes before and after it. */
  lemma PartAt(before: seq<byte>, data: seq<byte>, page: nat, after: seq<byte>)
    requires page > 0
    ensures |before| + |data| <= |before + Pad(data, page) + after|
    ensures (before + Pad(data, page) + after)[|before|..|before| + |data|] == data
  {
    hide Pad;
    PadIs(data, page);
    var all := before + Pad(data, page) + after;
    assert all[|before|..|before| + |data|] == Pad(data, page)[..|data|];
  }

  lemma PackedSetup(b: Bundle)
    requires b.Valid()
    ensures b.page + |b.setup| + |b.payload| <= |b.Pack()|
    ensures b.Pack()[b.page..b.page + |b.setup| + |b.payload|] == b.setup + b.payload
  {
    hide Room, Pad, Bundle.HeaderPage;
    var p, h := b.Pack(), b.HeaderPage();
    var rest := Pad(b.ramdisk, b.page) + Pad(b.second, b.page) + Pad(b.signature, b.page);
    assert p == h + Pad(b.setup + b.payload, b.page) + rest;
    PartAt(h, b.setup + b.payload, b.page, rest);
  }

  lemma PackedRest(b: Bundle)
    requires b.Valid()
    ensures var r := b.page + Room(|b.setup| + |b.payload|, b.page);
            var g := r + Room(|b.ramdisk|, b.page) + Room(|b.second|, b.page);
            && r + |b.ramdisk| <= |b.Pack()| && b.Pack()[r..r + |b.ramdisk|] == b.ramdisk
            && g + |b.signature| <= |b.Pack()| && b.Pack()[g..g + |b.signature|] == b.signature
            && b.Pack()[..g] == b.Unsigned()
  {
    hide Room, Pad, Bundle.HeaderPage;
    var p, h := b.Pack(), b.HeaderPage();
    PadIs(b.setup + b.payload, b.page);
    PadIs(b.ramdisk, b.page);
    PadIs(b.second, b.page);
    var before := h + Pad(b.setup + b.payload, b.page);
    assert p == before + Pad(b.ramdisk, b.page) + (Pad(b.second, b.page) + Pad(b.signature, b.page));
    PartAt(before, b.ramdisk, b.page, Pad(b.second, b.page) + Pad(b.signature, b.page));
    assert p == b.Unsigned() + Pad(b.signature, b.page) + [];
    PartAt(b.Unsigned(), b.signature, b.page, []);
  }

  /** The command line is read back across its two fields. */
  lemma PackedCmdline(b: Bundle)
    requires b.Valid()
    ensures |b.Pack()| >= BOOT_IMG_HDR_SIZE && HeaderCmdline(b.Pack()) == b.cmdline
    ensures b.Pack()[CMDLINE + 510] != 0 ==> 0 in b.Pack()[EXTRA_CMDLINE..BOOT_IMG_HDR_SIZE]
  {
    hide Put, Room, Pad, Bundle.HeaderPage, CText;
    var p, h, c := b.Pack(), b.HeaderPage(), b.cmdline;
    PackedSizes(b);
    HeaderSlices(b);
    assert p[..b.page] == h;
    var first, second := p[64..575], p[608..1632];
    assert first == h[64..576][..511] && second == h[608..1632];
    assert p[CMDLINE + 510] == first[510];
    assert second[1023] == 0 && second[1023] in second;
    var source := if first[510] != 0 then first + second else first;
    assert |c| >= 511 ==> first[510] == c[510] && c[510] in c;
    assert forall i | 0 <= i < |c| :: source[i] == c[i] && c[i] in c;
    CTextEnds(source, |c|);
    assert source[..|c|] == c;
  }

  lemma SliceOfSlice(s: seq<byte>, lo: nat, hi: nat, at: nat, n: nat)
    requires lo + at + n <= hi <= |s|
    ensures s[lo..hi][at..at + n] == s[lo + at..lo + at + n]
  {
    var x, y := s[lo..hi][at..at + n], s[lo + at..lo + at + n];
    forall i | 0 <= i < n
      ensures x[i] == y[i]
    {
      assert x[i] == s[lo..hi][at + i] == s[lo + (at + i)];
    }
  }

  /** The parts of an image with this header, setup code and payload. */
  lemma PartsOf(p: seq<byte>, h: Header, setup: seq<byte>, payload: seq<byte>)
    requires |p| >= BOOT_IMG_HDR_SIZE && HeaderOf(p) == h && h.Valid()
    requires Total(h) < TWO_32 && Total(h) <= |p| && h.kernelSize == |setup| + |payload|
    requires |setup| >= 1024 && 1 <= setup[0x1f1] <= 254 && |setup| == (setup[0x1f1] as int + 1) * 512
    requires h.pageSize + |setup| + |payload| <= |p|
    requires p[h.pageSize..h.pageSize + |setup| + |payload|] == setup + payload
    requires p[CMDLINE + 510] != 0 ==> 0 in p[EXTRA_CMDLINE..BOOT_IMG_HDR_SIZE]
    ensures WellFormed(p) && Payload(p) == payload
    ensures p[h.pageSize..h.pageSize + 1024] == setup[..1024]
  {
    hide Le, Room, HeaderOf;
    var page, kernel := h.pageSize, setup + payload;
    assert p[page + 0x1f1] == p[page..page + |kernel|][0x1f1] == kernel[0x1f1] == setup[0x1f1];
    assert SetupSize(setup[0x1f1]) == |setup|;
    SliceOfSlice(p, page, page + |kernel|, |setup|, |payload|);
    assert kernel[|setup|..|setup| + |payload|] == payload;
    SliceOfSlice(p, page, page + |kernel|, 0, 1024);
    assert kernel[0..1024] == setup[..1024];
  }

  /** The parts after the kernel, by the drawn layout. */
  lemma LaterPartsOf(p: seq<byte>, h: Header)
    requires WellFormed(p) && HeaderOf(p) == h
    ensures var r := h.pageSize + Room(h.kernelSize, h.pageSize);
            var g := r + Room(h.ramdiskSize, h.pageSize) + Room(h.secondSize, h.pageSize);
            && r + h.ramdiskSize <= |p| && Ramdisk(p) == p[r..r + h.ramdiskSize]
            && g + h.sigSize <= |p| && Signed(p) == p[..g] && Signature(p) == p[g..g + h.sigSize]
  {
    hide Le, Room, HeaderOf, SetupSize;
  }

  lemma PackedLayout(b: Bundle)
    requires b.Valid() && |b.Pack()| >= BOOT_IMG_HDR_SIZE
    requires HeaderOf(b.Pack()) == Header(|b.setup| + |b.payload|, |b.ramdisk|, |b.second|, b.page, |b.signature|)
    ensures 1632 <= b.page && |b.cmdline| <= 1534 && |b.setup| >= 1024
    ensures HeaderOf(b.Pack()).Valid() && Total(HeaderOf(b.Pack())) == |b.Pack()| < TWO_32
    ensures 1 <= b.setup[0x1f1] <= 254 && |b.setup| == (b.setup[0x1f1] as int + 1) * 512
  {
    PackedSizes(b);
    hide Room, HeaderOf, Bundle.Pack;
  }

  /** Main result: of a packed image the loader sees exactly the parts that were packed. */
  lemma UnpackRoundTrip(b: Bundle)
    requires b.Valid()
    ensures 1632 <= b.page && |b.cmdline| <= 1534 && |b.setup| >= 1024
    ensures WellFormed(b.Pack())
    ensures HeaderOf(b.Pack()).pageSize == b.page
    ensures Payload(b.Pack()) == b.payload && Ramdisk(b.Pack()) == b.ramdisk
    ensures Signed(b.Pack()) == b.Unsigned() && Signature(b.Pack()) == b.signature
    ensures HeaderCmdline(b.Pack()) == b.cmdline
    ensures b.page + 1024 <= |b.Pack()| && b.Pack()[b.page..b.page + 1024] == b.setup[..1024]
  {
    hide *;
    PackedHeader(b);
    PackedLayout(b);
    PackedSetup(b);
    PackedRest(b);
    PackedCmdline(b);
    PartsOf(b.Pack(), HeaderOf(b.Pack()), b.setup, b.payload);
    LaterPartsOf(b.Pack(), HeaderOf(b.Pack()));
  }

  // ------------------------------------------------------------ starting a packed image

  /** The text the kernel gets. */
  function TextOf(b: Bundle, append: Option<seq<byte>>): seq<byte>
  {
    b.cmdline + match append case Some(text) => [' ' as int] + text case None => []
  }

  /** What the loader and the firmware must agree to, read from the setup code that was packed. */
  ghost predicate Accepted(b: Bundle, append: Option<seq<byte>>, fw: Firmware)
    requires b.Valid()
  {
    && Field(b.setup, 0x1fe, 2) == 0xAA55 && Field(b.setup, 0x202, 4) == 0x53726448
    && fw.verify(b.Unsigned(), b.signature)
    && fw.poolOk && (append.Some? && |TextOf(b, append)| + 1 >= 1536 ==> fw.reallocOk) && fw.cmdlineAddr.Some?
    && fw.ramdiskAddr.Some? && fw.ramdiskAddr.value <= Field(b.setup, 0x22c, 4)
    && (fw.preferredFree || fw.kernelAddr.Some?)
    && (fw.preferredFree || b.setup[0x234] != 0 || fw.kernelAddr.value == Field(b.setup, 0x258, 8))
    && fw.paramsAddr.Some? && fw.gdtAddr.Some? && fw.memoryMap.Some? && fw.exitOk
  }

  /** The addresses the firmware gave out. */
  ghost function PlacedAt(b: Bundle, append: Option<seq<byte>>, fw: Firmware): Place
    requires b.Valid() && Accepted(b, append, fw)
  {
    var kernel := if fw.preferredFree then Field(b.setup, 0x258, 8) else fw.kernelAddr.value;
    Place(fw.cmdlineAddr.value, fw.ramdiskAddr.value, kernel % 0x1_0000_0000, fw.paramsAddr.value, fw.gdtAddr.value)
  }

  /** The parts do not overlap in memory, and the kernel and the memory map have room. */
  predicate Roomy(b: Bundle, append: Option<seq<byte>>, map_: MemoryMap, at: Place)
    requires |b.setup| >= 1024
  {
    var table := 20 * |E820Of(map_)|;
    var s := Sizes(|TextOf(b, append)| + 1, |b.ramdisk|, |b.payload|, Field(b.setup, 0x260, 4), table);
    Disjoint(at, s) && |b.payload| <= Allocated(s.init) && 0x2d0 + table <= 16384
  }

  /**
   * The kernel finds the parts that were packed, and in the boot parameters, at the places
   * of the Linux/x86 boot protocol, what it needs to know; the rest of the first 0x2d0 bytes is
   * its own setup code.
   */
  ghost predicate Runs(m: Mem, b: Bundle, append: Option<seq<byte>>, fw: Firmware, map_: MemoryMap, at: Place)
    requires |b.setup| >= 1024
  {
    var text, p := TextOf(b, append), Load(m, at.params, 16384);
    && Load(m, at.kernel, |b.payload|) == b.payload
    && Load(m, at.ramdisk, |b.ramdisk|) == b.ramdisk
    && (at.cmdline != 0 ==> Load(m, at.cmdline, |text| + 1) == text + [0])
    && p[..0x40] == fw.screenInfo
    && p[0x1c0..0x1d8] == [0x45, 0x4c, 0x33, 0x32] + Put(fw.systab, 4) + Put(map_.descSize, 4) + Put(map_.version, 4)
                          + Put(map_.buffer, 4) + Put(map_.size, 4)
    && p[0x210] == 0xff && p[0x214..0x218] == Put(at.kernel, 4)
    && p[0x218..0x21c] == Put(at.ramdisk, 4) && p[0x21c..0x220] == Put(|b.ramdisk|, 4)
    && (at.cmdline != 0 ==> p[0x228..0x22c] == Put(at.cmdline, 4) && p[0x238..0x23c] == Put(|text| + 1, 4))
    && (forall i: nat | 0x40 <= i < 0x2d0 && !(0x1c0 <= i < 0x1d8) && i != 0x1e8 && i != 0x210
          && !(0x214 <= i < 0x220) && !(0x228 <= i < 0x22c) && !(0x238 <= i < 0x23c) :: p[i] == b.setup[i])
    && (|E820Of(map_)| < 256 ==>
        20 * p[0x1e8] as int <= |p[0x2d0..]| && E820.ReadTable(p[0x2d0..], p[0x1e8]) == E820Of(map_))
  }

  lemma SliceField(p: seq<byte>, page: nat, setup: seq<byte>, at: nat, n: nat)
    requires page + 1024 <= |p| && |setup| >= 1024 && p[page..page + 1024] == setup[..1024]
    requires at + n <= 1024
    ensures Field(p, page + at, n) == Field(setup, at, n)
    ensures forall i: nat | i < 1024 :: p[page + i] == setup[i]
  {
    hide Le;
    SliceOfSlice(p, page, page + 1024, at, n);
    SliceOfSlice(setup, 0, 1024, at, n);
    forall i: nat | i < 1024
      ensures p[page + i] == setup[i]
    {
      assert p[page..page + 1024][i] == setup[..1024][i];
    }
  }

  /** What the loader decides by is what the setup code says. */
  lemma DecidedBySetup(p: seq<byte>, page: nat, setup: seq<byte>, fw: Firmware)
    requires page + 1024 <= |p| && |setup| >= 1024 && p[page..page + 1024] == setup[..1024]
    ensures HasMagics(p, page) <==> Field(setup, 0x1fe, 2) == 0xAA55 && Field(setup, 0x202, 4) == 0x53726448
    ensures RamdiskPlaced(p, page, fw) <==> fw.ramdiskAddr.Some? && fw.ramdiskAddr.value <= Field(setup, 0x22c, 4)
    ensures KernelPlaced(p, page, fw) <==>
            && (fw.preferredFree || fw.kernelAddr.Some?)
            && (fw.preferredFree || setup[0x234] != 0 || fw.kernelAddr.value == Field(setup, 0x258, 8))
            && fw.paramsAddr.Some? && fw.gdtAddr.Some? && fw.memoryMap.Some? && fw.exitOk
    ensures KernelPlaced(p, page, fw) ==>
      KernelAt(p, page, fw) ==
        (if fw.preferredFree then Field(setup, 0x258, 8) else fw.kernelAddr.value) % 0x1_0000_0000
    ensures Field(p, page + 0x260, 4) == Field(setup, 0x260, 4)
  {
    hide Field;
    SliceField(p, page, setup, 0x1fe, 2);
    SliceField(p, page, setup, 0x202, 4);
    SliceField(p, page, setup, 0x22c, 4);
    SliceField(p, page, setup, 0x258, 8);
    SliceField(p, page, setup, 0x260, 4);
  }

  lemma AcceptedIff(b: Bundle, append: Option<seq<byte>>, fw: Firmware)
    requires b.Valid()
    ensures 1632 <= b.page && |b.cmdline| <= 1534 && WellFormed(b.Pack())
    ensures Starts(b.Pack(), append, fw) <==> Accepted(b, append, fw)
    ensures Accepted(b, append, fw) ==> PlaceOf(b.Pack(), append, fw) == PlacedAt(b, append, fw)
    ensures FullCmdline(b.Pack(), append) == TextOf(b, append)
    ensures InitSize(b.Pack()) == Field(b.setup, 0x260, 4)
  {
    UnpackRoundTrip(b);
    hide Field, WellFormed, HeaderOf, Payload, Ramdisk, Signed, Signature, HeaderCmdline, Bundle.Pack, Bundle.Unsigned;
    hide HasMagics, RamdiskPlaced, KernelPlaced, KernelAt;
    DecidedBySetup(b.Pack(), b.page, b.setup, fw);
  }

  /** The boot parameters, at literal places. */
  lemma TellsLiterally(p: seq<byte>, image: seq<byte>, page: nat, setup: seq<byte>, fw: Firmware, map_: MemoryMap,
      at: Place, cmdSize: nat, rdSize: nat)
    requires page + 1024 <= |image| && |setup| >= 1024 && image[page..page + 1024] == setup[..1024]
    requires map_.Valid() && Tells(p, image, page, fw, map_, at, cmdSize, rdSize)
    ensures |p| == 16384
    ensures p[..0x40] == fw.screenInfo
    ensures p[0x1c0..0x1d8] == [0x45, 0x4c, 0x33, 0x32] + Put(fw.systab, 4) + Put(map_.descSize, 4)
                               + Put(map_.version, 4) + Put(map_.buffer, 4) + Put(map_.size, 4)
    ensures p[0x210] == 0xff && p[0x214..0x218] == Put(at.kernel, 4)
    ensures p[0x218..0x21c] == Put(at.ramdisk, 4) && p[0x21c..0x220] == Put(rdSize, 4)
    ensures at.cmdline != 0 ==> p[0x228..0x22c] == Put(at.cmdline, 4) && p[0x238..0x23c] == Put(cmdSize, 4)
    ensures forall i: nat | 0x40 <= i < 0x2d0 && !(0x1c0 <= i < 0x1d8) && i != 0x1e8 && i != 0x210
              && !(0x214 <= i < 0x220) && !(0x228 <= i < 0x22c) && !(0x238 <= i < 0x23c) :: p[i] == setup[i]
    ensures |E820Of(map_)| < 256 ==>
      20 * p[0x1e8] as int <= |p[0x2d0..]| && E820.ReadTable(p[0x2d0..], p[0x1e8]) == E820Of(map_)
  {
    KernelReadsMapIff(p, image, page, fw, map_, at, cmdSize, rdSize);
    hide Put, E820.EncodeTable, E820.ReadTable, E820Of, Field;
    SliceField(image, page, setup, 0, 0);
  }

  lemma FindsParts(m: Mem, orig: seq<byte>, append: Option<seq<byte>>, fw: Firmware, at: Place)
    requires WellFormed(orig) && KernelFinds(m, orig, append, fw, at)
    ensures var text := FullCmdline(orig, append);
            && fw.memoryMap.Some? && HeaderOf(orig).pageSize + 1024 <= |orig|
            && Load(m, at.kernel, |Payload(orig)|) == Payload(orig)
            && Load(m, at.ramdisk, |Ramdisk(orig)|) == Ramdisk(orig)
            && (at.cmdline != 0 ==> Load(m, at.cmdline, |text| + 1) == text + [0])
            && Tells(Load(m, at.params, 16384), orig, HeaderOf(orig).pageSize, fw, fw.memoryMap.value, at,
                     |text| + 1, |Ramdisk(orig)|)
  {
    hide WellFormed, HeaderOf, Payload, Ramdisk, FullCmdline, Tells, Load;
  }

  lemma RunsFrom(m: Mem, b: Bundle, append: Option<seq<byte>>, fw: Firmware, map_: MemoryMap, at: Place,
      image: seq<byte>)
    requires |b.setup| >= 1024 && b.page + 1024 <= |image| && image[b.page..b.page + 1024] == b.setup[..1024]
    requires map_.Valid()
    requires Load(m, at.kernel, |b.payload|) == b.payload && Load(m, at.ramdisk, |b.ramdisk|) == b.ramdisk
    requires at.cmdline != 0 ==> Load(m, at.cmdline, |TextOf(b, append)| + 1) == TextOf(b, append) + [0]
    requires Tells(Load(m, at.params, 16384), image, b.page, fw, map_, at, |TextOf(b, append)| + 1, |b.ramdisk|)
    ensures Runs(m, b, append, fw, map_, at)
  {
    hide Tells, TextOf, Load, Put, E820.ReadTable, E820Of, MemoryMap.Valid;
    var cmdSize := |TextOf(b, append)| + 1;
    TellsLiterally(Load(m, at.params, 16384), image, b.page, b.setup, fw, map_, at, cmdSize, |b.ramdisk|);
  }

  lemma FindsPacked(m: Mem, b: Bundle, append: Option<seq<byte>>, fw: Firmware, map_: MemoryMap, at: Place)
    requires b.Valid() && fw.memoryMap == Some(map_) && map_.Valid()
    ensures 1632 <= b.page && |b.cmdline| <= 1534 && |b.setup| >= 1024 && WellFormed(b.Pack())
    ensures KernelFinds(m, b.Pack(), append, fw, at) ==> Runs(m, b, append, fw, map_, at)
  {
    hide *;
    UnpackRoundTrip(b);
    AcceptedIff(b, append, fw);
    if KernelFinds(m, b.Pack(), append, fw, at) {
      FindsParts(m, b.Pack(), append, fw, at);
      RunsFrom(m, b, append, fw, map_, at, b.Pack());
    }
  }

  /** The size the loader computes is that of the packed image. */
  lemma PackedTotal(b: Bundle)
    requires b.Valid()
    ensures 1632 <= b.page && |b.cmdline| <= 1534 && BOOT_IMG_HDR_SIZE == 1632
    ensures |b.Pack()| >= BOOT_IMG_HDR_SIZE && HeaderOf(b.Pack()).Valid()
    ensures HeaderOf(b.Pack()).pageSize > 0
    ensures BootimageSize(HeaderOf(b.Pack()), true) == |b.Pack()|
  {
    hide Room, BootimageSize, RamdiskOffset, Bundle.Pack;
    PackedHeader(b);
    PackedSizes(b);
    LayoutIff(HeaderOf(b.Pack()));
  }

  lemma PackedMagic(b: Bundle)
    requires b.Valid()
    ensures |b.Pack()| >= 8
    ensures b.Pack()[..8] == Magic()
  {
    hide Pad, Bundle.HeaderPage;
    HeaderSlices(b);
    assert b.Pack()[..b.page] == b.HeaderPage();
    assert b.Pack()[..8] == b.Pack()[..b.page][0..8];
  }

  /** The header of an image is in its first bytes. */
  lemma PrefixHeader(part: seq<byte>, image: seq<byte>)
    requires image <= part && |image| >= BOOT_IMG_HDR_SIZE
    ensures HeaderOf(part[..BOOT_IMG_HDR_SIZE]) == HeaderOf(image)
  {
    hide Le;
    var header := part[..BOOT_IMG_HDR_SIZE];
    forall a: nat, k: nat | a <= k <= BOOT_IMG_HDR_SIZE
      ensures header[a..k] == image[a..k]
    {
      assert header[a..k] == part[a..k] == image[a..k];
    }
  }

  lemma ContentSizes(orig: seq<byte>, append: Option<seq<byte>>, fw: Firmware, map_: MemoryMap, at: Place, init: nat)
    requires WellFormed(orig) && |fw.screenInfo| == SCREEN_INFO_SIZE
    ensures SizesOf(ContentOf(orig, append, fw, map_, at), init) ==
            Sizes(|FullCmdline(orig, append)| + 1, |Ramdisk(orig)|, |Payload(orig)|, init, 20 * |E820Of(map_)|)
  {
    hide WellFormed, HeaderOf, Payload, Ramdisk, FullCmdline, PatchedImage, E820Of, EfiInfo, E820.Announced;
  }

  lemma ScreenInfoFits(fw: Firmware)
    requires fw.Valid()
    ensures |fw.screenInfo| == SCREEN_INFO_SIZE
  {
  }

  lemma RoomyIff(b: Bundle, append: Option<seq<byte>>, map_: MemoryMap, at: Place)
    requires |b.setup| >= 1024
    ensures var init, table := Field(b.setup, 0x260, 4), 20 * |E820Of(map_)|;
            var s := Sizes(|TextOf(b, append)| + 1, |b.ramdisk|, |b.payload|, init, table);
            Roomy(b, append, map_, at) <==> Disjoint(at, s) && Fits(s)
  {
    hide Disjoint, TextOf, E820Of, Field, Allocated;
  }

  lemma RoomyFits(image: seq<byte>, b: Bundle, append: Option<seq<byte>>, fw: Firmware, map_: MemoryMap, at: Place)
    requires WellFormed(image) && |fw.screenInfo| == SCREEN_INFO_SIZE && |b.setup| >= 1024
    requires Payload(image) == b.payload && Ramdisk(image) == b.ramdisk
    requires FullCmdline(image, append) == TextOf(b, append) && InitSize(image) == Field(b.setup, 0x260, 4)
    ensures var s := SizesOf(ContentOf(image, append, fw, map_, at), InitSize(image));
            Roomy(b, append, map_, at) ==> Disjoint(at, s) && Fits(s)
  {
    hide *;
    ContentSizes(image, append, fw, map_, at, InitSize(image));
    RoomyIff(b, append, map_, at);
  }

  lemma PackedOutcome(m: Mem, b: Bundle, append: Option<seq<byte>>, fw: Firmware, map_: MemoryMap, at: Place)
    requires b.Valid() && fw.Valid() && fw.memoryMap == Some(map_) && map_.Valid()
    ensures 1632 <= b.page && |b.cmdline| <= 1534 && |b.setup| >= 1024 && WellFormed(b.Pack())
    ensures var s := SizesOf(ContentOf(b.Pack(), append, fw, map_, at), InitSize(b.Pack()));
            (Disjoint(at, s) && Fits(s) ==> KernelFinds(m, b.Pack(), append, fw, at)) ==>
            (Roomy(b, append, map_, at) ==> Runs(m, b, append, fw, map_, at))
  {
    ScreenInfoFits(fw);
    hide *;
    UnpackRoundTrip(b);
    AcceptedIff(b, append, fw);
    RoomyFits(b.Pack(), b, append, fw, map_, at);
    FindsPacked(m, b, append, fw, map_, at);
  }

  lemma AcceptedHasMap(b: Bundle, append: Option<seq<byte>>, fw: Firmware)
    requires b.Valid()
    ensures Accepted(b, append, fw) ==> fw.memoryMap.Some?
  {
  }

  /** `android_image_start_buffer` on a packed image. */
  method StartPacked(image: array<byte>, ram: Ram, append: Option<seq<byte>>, fw: Firmware, ghost b: Bundle)
    returns (o: Outcome)
    requires b.Valid() && image[..] == b.Pack()
    requires fw.Valid() && (append.Some? ==> 0 !in append.value)
    modifies image, ram
    ensures o.Started? <==> Accepted(b, append, fw)
    ensures o.Started? ==>
      && fw.memoryMap.Some? && o.at == PlacedAt(b, append, fw) && |b.setup| >= 1024
      && (Roomy(b, append, fw.memoryMap.value, o.at) ==> Runs(ram.bytes, b, append, fw, fw.memoryMap.value, o.at))
  {
    assert fw.memoryMap.Some? ==> fw.memoryMap.value.Valid();
    AcceptedHasMap(b, append, fw);
    hide *;
    UnpackRoundTrip(b);
    AcceptedIff(b, append, fw);
    o := StartBuffer(image, ram, append, fw);
    if o.Started? {
      PackedOutcome(ram.bytes, b, append, fw, fw.memoryMap.value, o.at);
    }
  }

  /** The DiskIo protocol's ReadDisk into a buffer of that size. */
  method ReadDisk(part: seq<byte>, size: nat) returns (image: array<byte>)
    requires size <= |part|
    ensures fresh(image) && image[..] == part[..size]
  {
    image := new byte[size](i requires 0 <= i < |part| => part[i]);
  }

  /**
   * `android_image_start_partition` on a partition that holds a packed image, whatever lies
   * behind it: `readOk` and `imageOk` are the firmware's answers to reading the header and
   * the whole image, and `imagePoolOk` to the allocation for it.
   *
   * The kernel is entered exactly if all of that succeeds and the image is accepted; and
   * then, if its parts have room, it finds exactly the parts that were packed.
   */
  method StartPartition(part: seq<byte>, ram: Ram, append: Option<seq<byte>>, fw: Firmware, readOk: bool,
      imagePoolOk: bool, imageOk: bool, ghost b: Bundle)
    returns (o: Option<Outcome>)
    requires b.Valid() && b.Pack() <= part
    requires fw.Valid() && (append.Some? ==> 0 !in append.value)
    modifies ram
    ensures o.Some? <==> readOk && imagePoolOk && imageOk
    ensures o.Some? ==> (o.value.Started? <==> Accepted(b, append, fw))
    ensures o.Some? && o.value.Started? ==>
      && fw.memoryMap.Some? && o.value.at == PlacedAt(b, append, fw) && |b.setup| >= 1024
      && (Roomy(b, append, fw.memoryMap.value, o.value.at) ==>
          Runs(ram.bytes, b, append, fw, fw.memoryMap.value, o.value.at))
  {
    hide *;
    PackedTotal(b);
    PackedMagic(b);
    if !readOk {
      return None;
    }
    var header := part[..BOOT_IMG_HDR_SIZE];
    PrefixHeader(part, b.Pack());
    assert header[..8] == part[..8] == b.Pack()[..8];
    if header[..8] != Magic() {
      return None;
    }
    var size := BootimageSize(HeaderOf(header), true);
    if !imagePoolOk || !imageOk {
      return None;
    }
    var image := ReadDisk(part, size);
    var outcome := StartPacked(image, ram, append, fw, b);
    return Some(outcome);
  }
}
