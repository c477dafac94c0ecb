/**
 * The Android boot image (common/bootimg/bootimg.c): its page-rounded layout, and the path
 * from signature check to kernel hand-over, which patches the image in place on the way.
 * Field offsets in the kernel area are those of "The Real-Mode Kernel Header" in the
 * Linux/x86 boot protocol.
 */
module BootImage {
  import opened Machine

  const BOOT_IMG_HDR_SIZE: nat := 1632

  /** The sizes in struct boot_img_hdr. */
  datatype Header = Header(kernelSize: nat, ramdiskSize: nat, secondSize: nat, pageSize: nat, sigSize: nat)
  {
    predicate Valid()
    {
      pageSize >= BOOT_IMG_HDR_SIZE
    }
  }

  function HeaderOf(image: seq<byte>): Header
    requires |image| >= BOOT_IMG_HDR_SIZE
  {
    Header(Field(image, 8, 4), Field(image, 16, 4), Field(image, 24, 4), Field(image, 36, 4), Field(image, 40, 4))
  }

  const CMDLINE: nat := 64
  const BOOT_ARGS_SIZE: nat := 512
  const EXTRA_CMDLINE: nat := 608
  const BOOT_EXTRA_ARGS_SIZE: nat := 1024

  // ------------------------------------------------------------ layout, as computed

  /** `pages`: the sum is a UINT32. */
  function Pages(h: Header, blob: nat): nat
    requires h.pageSize > 0
  {
    Quot((blob + h.pageSize - 1) % TWO_32, h.pageSize)
  }

  /** `bootimage_size`, with UINTN 32 bits wide. */
  function BootimageSize(h: Header, includeSig: bool): nat
    requires h.pageSize > 0
  {
    var size := Mul32(1 + Pages(h, h.kernelSize) + Pages(h, h.ramdiskSize) + Pages(h, h.secondSize), h.pageSize);
    if includeSig then (size + Mul32(Pages(h, h.sigSize), h.pageSize)) % TWO_32 else size
  }

  /** `roffset` of `setup_ramdisk`. */
  function RamdiskOffset(h: Header): nat
    requires h.pageSize > 0
  {
    Mul32(1 + Pages(h, h.kernelSize), h.pageSize)
  }

  // ------------------------------------------------------------ layout, as drawn

  /** Bytes a part takes when rounded up to whole pages. */
  function Room(blob: nat, page: nat): (r: nat)
    requires page > 0
    ensures blob <= r < blob + page
  {
    if blob == 0 then 0 else if blob <= page then page else page + Room(blob - page, page)
  }

  datatype Part = Part(start: nat, size: nat, room: nat)

  /** Header, kernel, ramdisk, second stage and signature, each from the next page on. */
  function Parts(h: Header): seq<Part>
    requires h.Valid()
  {
    var k := h.pageSize;
    var r := k + Room(h.kernelSize, h.pageSize);
    var s := r + Room(h.ramdiskSize, h.pageSize);
    var g := s + Room(h.secondSize, h.pageSize);
    [Part(0, BOOT_IMG_HDR_SIZE, h.pageSize),
     Part(k, h.kernelSize, Room(h.kernelSize, h.pageSize)),
     Part(r, h.ramdiskSize, Room(h.ramdiskSize, h.pageSize)),
     Part(s, h.secondSize, Room(h.secondSize, h.pageSize)),
     Part(g, h.sigSize, Room(h.sigSize, h.pageSize))]
  }

  function Total(h: Header): nat
    requires h.Valid()
  {
    Parts(h)[4].start + Parts(h)[4].room
  }

  lemma {:induction false} RoomIsPages(blob: nat, page: nat)
    requires page > 0
    ensures Rem(Room(blob, page), page) == 0
  {
    if blob > page {
      RoomIsPages(blob - page, page);
    }
  }

  /** Rounding up by division agrees with the drawn room while the sum fits 32 bits. */
  lemma {:induction false} PagesAreRoom(page: nat, blob: nat)
    requires page > 0
    ensures Times(Quot(blob + page - 1, page), page) == Room(blob, page)
    decreases blob
  {
    if blob > page {
      PagesAreRoom(page, blob - page);
      assert Quot(blob + page - 1, page) == 1 + Quot(blob - page + page - 1, page);
    } else if blob > 0 {
      assert Quot(blob + page - 1, page) == 1 + Quot(blob - 1, page);
      assert Times(1 + Quot(blob - 1, page), page) == page + Times(Quot(blob - 1, page), page);
    }
  }

  lemma {:induction false} TimesAdd(a: nat, b: nat, m: nat)
    ensures Times(a + b, m) == Times(a, m) + Times(b, m)
    decreases a
  {
    if a > 0 {
      TimesAdd(a - 1, b, m);
    }
  }

  /** The drawn parts start on page boundaries, hold their contents, and tile the image without gap or overlap. */
  lemma PartsTile(h: Header)
    requires h.Valid()
    ensures var p := Parts(h);
            && p[0].start == 0
            && (forall i | 0 <= i < 5 :: Rem(p[i].start, h.pageSize) == 0 && p[i].size <= p[i].room)
            && (forall i | 0 <= i < 4 :: p[i].start + p[i].room == p[i + 1].start)
  {
    var p := Parts(h);
    RoomIsPages(h.kernelSize, h.pageSize);
    RoomIsPages(h.ramdiskSize, h.pageSize);
    RoomIsPages(h.secondSize, h.pageSize);
    RoomIsPages(h.sigSize, h.pageSize);
    assert Rem(0, h.pageSize) == 0 && Rem(h.pageSize, h.pageSize) == 0;
    RemSum(p[1].start, p[1].room, h.pageSize);
    RemSum(p[2].start, p[2].room, h.pageSize);
    RemSum(p[3].start, p[3].room, h.pageSize);
  }

  lemma Mul32Fits(x: nat, y: nat)
    ensures Times(x, y) < TWO_32 ==> Mul32(x, y) == Times(x, y)
  {
  }

  lemma PagesTimes(h: Header, blob: nat)
    requires h.pageSize > 0 && blob + h.pageSize - 1 < TWO_32
    ensures Times(Pages(h, blob), h.pageSize) == Room(blob, h.pageSize)
  {
    PagesAreRoom(h.pageSize, blob);
  }

  lemma OnePage(page: nat)
    ensures Times(1, page) == page
  {
    assert Times(0, page) == 0;
  }

  lemma LayoutAgrees(h: Header)
    requires h.Valid() && Total(h) < TWO_32
    ensures RamdiskOffset(h) == Parts(h)[2].start
    ensures BootimageSize(h, false) == Parts(h)[4].start && BootimageSize(h, true) == Total(h)
  {
    hide Room, Quot, Times, Pages, Mul32;
    var page := h.pageSize;
    var k, r, s, g := Pages(h, h.kernelSize), Pages(h, h.ramdiskSize), Pages(h, h.secondSize), Pages(h, h.sigSize);
    PagesTimes(h, h.kernelSize);
    PagesTimes(h, h.ramdiskSize);
    PagesTimes(h, h.secondSize);
    PagesTimes(h, h.sigSize);
    OnePage(page);
    TimesAdd(1, k, page);
    TimesAdd(1 + k, r, page);
    TimesAdd(1 + k + r, s, page);
    Mul32Fits(1 + k, page);
    Mul32Fits(1 + k + r + s, page);
    Mul32Fits(g, page);
    assert Mul32(1 + k, page) == Parts(h)[2].start;
    assert Mul32(1 + k + r + s, page) == Parts(h)[4].start;
    assert Mul32(g, page) == Parts(h)[4].room;
  }

  /**
   * The offsets and sizes the code computes are those of the drawn layout if and only if
   * the whole image is smaller than 4 GiB.
   */
  lemma LayoutIff(h: Header)
    requires h.Valid()
    ensures (&& RamdiskOffset(h) == Parts(h)[2].start
             && BootimageSize(h, false) == Parts(h)[4].start
             && BootimageSize(h, true) == Total(h))
            <==> Total(h) < TWO_32
  {
    if Total(h) < TWO_32 {
      LayoutAgrees(h);
    }
  }

  // ------------------------------------------------------------ starting an image

  // Offsets into the kernel area (struct boot_params).
  const SETUP_SECTS := 0x1f1
  const BOOT_FLAG := 0x1fe
  const HEADER_MAGIC := 0x202
  const TYPE_OF_LOADER := 0x210
  const CODE32_START := 0x214
  const RAMDISK_IMAGE := 0x218
  const RAMDISK_SIZE := 0x21c
  const CMD_LINE_PTR := 0x228
  const INITRD_ADDR_MAX := 0x22c
  const RELOCATABLE_KERNEL := 0x234
  const CMDLINE_SIZE := 0x238
  const PREF_ADDRESS := 0x258
  const INIT_SIZE := 0x260
  const SCREEN_INFO_SIZE := 0x40
  /** The first two sectors, which become the boot parameters. */
  const TWO_SECTORS := 1024

  /** `setup_sectors++` on a UINT8, in bytes. */
  function SetupSize(sects: nat): nat
  {
    (sects + 1) % 256 * 512
  }

  /** The patched sectors lie before the payload exactly for these sector counts. */
  lemma PayloadAfterPatchesIff(sects: byte)
    ensures SetupSize(sects) >= TWO_SECTORS <==> 1 <= sects <= 254
  {
  }

  /** An image whose parts all lie in the buffer, with a kernel at least as long as its setup code. */
  ghost predicate WellFormed(image: seq<byte>)
  {
    && |image| >= BOOT_IMG_HDR_SIZE
    && HeaderOf(image).Valid() && Total(HeaderOf(image)) < TWO_32 && Total(HeaderOf(image)) <= |image|
    && TWO_SECTORS <= HeaderOf(image).kernelSize
    && 1 <= image[HeaderOf(image).pageSize + SETUP_SECTS] <= 254
    && SetupSize(image[HeaderOf(image).pageSize + SETUP_SECTS]) <= HeaderOf(image).kernelSize
    && (image[CMDLINE + 510] != 0 ==> 0 in image[EXTRA_CMDLINE..BOOT_IMG_HDR_SIZE])
  }

  /** Only the first two sectors of the kernel area may differ. */
  ghost predicate PatchedOnly(orig: seq<byte>, now: seq<byte>, page: nat)
  {
    |now| == |orig| && forall i | 0 <= i < |orig| && !(page <= i < page + TWO_SECTORS) :: now[i] == orig[i]
  }

  // The parts of a well-formed image, by the drawn layout.

  ghost function Signed(image: seq<byte>): seq<byte>
    requires WellFormed(image)
  {
    image[..Parts(HeaderOf(image))[4].start]
  }

  ghost function Signature(image: seq<byte>): seq<byte>
    requires WellFormed(image)
  {
    var p := Parts(HeaderOf(image))[4];
    image[p.start..p.start + p.size]
  }

  ghost function Ramdisk(image: seq<byte>): seq<byte>
    requires WellFormed(image)
  {
    var p := Parts(HeaderOf(image))[2];
    image[p.start..p.start + p.size]
  }

  /** The protected-mode kernel: the kernel part after its setup sectors. */
  ghost function Payload(image: seq<byte>): seq<byte>
    requires WellFormed(image)
  {
    var p := Parts(HeaderOf(image))[1];
    image[p.start + SetupSize(image[p.start + SETUP_SECTS])..p.start + p.size]
  }

  /** The patches made to the kernel area stay within its first two sectors, away from the sector count. */
  ghost predicate Patched(orig: seq<byte>, now: seq<byte>)
  {
    && WellFormed(orig) && PatchedOnly(orig, now, HeaderOf(orig).pageSize)
    && now[HeaderOf(orig).pageSize + SETUP_SECTS] == orig[HeaderOf(orig).pageSize + SETUP_SECTS]
  }

  lemma PayloadKept(orig: seq<byte>, now: seq<byte>)
    requires Patched(orig, now) && WellFormed(now) && HeaderOf(now) == HeaderOf(orig)
    ensures Payload(now) == Payload(orig)
  {
    hide Le, Room, HeaderOf;
    PayloadAfterPatchesIff(orig[HeaderOf(orig).pageSize + SETUP_SECTS]);
  }

  lemma RamdiskKept(orig: seq<byte>, now: seq<byte>)
    requires Patched(orig, now) && WellFormed(now) && HeaderOf(now) == HeaderOf(orig)
    ensures Ramdisk(now) == Ramdisk(orig)
  {
    hide Le, Room, HeaderOf;
  }

  lemma HeaderKept(orig: seq<byte>, now: seq<byte>)
    requires WellFormed(orig) && PatchedOnly(orig, now, HeaderOf(orig).pageSize)
    ensures HeaderOf(now) == HeaderOf(orig)
  {
    hide Le, Room;
    assert now[..BOOT_IMG_HDR_SIZE] == orig[..BOOT_IMG_HDR_SIZE];
    assert forall a: nat, b: nat | a <= b <= BOOT_IMG_HDR_SIZE :: now[a..b] == now[..BOOT_IMG_HDR_SIZE][a..b];
    assert forall a: nat, b: nat | a <= b <= BOOT_IMG_HDR_SIZE :: orig[a..b] == orig[..BOOT_IMG_HDR_SIZE][a..b];
  }

  /** Patching inside the two sectors leaves the header, the payload and all later parts as they were. */
  lemma PatchKeeps(orig: seq<byte>, now: seq<byte>)
    requires Patched(orig, now)
    ensures WellFormed(now) && HeaderOf(now) == HeaderOf(orig)
    ensures Payload(now) == Payload(orig) && Ramdisk(now) == Ramdisk(orig)
    ensures RamdiskOffset(HeaderOf(orig)) == Parts(HeaderOf(orig))[2].start
  {
    hide Le, Room, RamdiskOffset, BootimageSize, Payload, Ramdisk;
    HeaderKept(orig, now);
    LayoutIff(HeaderOf(orig));
    PayloadKept(orig, now);
    RamdiskKept(orig, now);
  }

  /** What is passed to the signature check, by the computed offsets, is the drawn split. */
  lemma SignedAsComputed(image: seq<byte>)
    requires WellFormed(image)
    ensures var h := HeaderOf(image);
            var sig := BootimageSize(h, false);
            && sig + h.sigSize <= |image|
            && image[..sig] == Signed(image) && image[sig..sig + h.sigSize] == Signature(image)
  {
    hide Le, BootimageSize;
    LayoutIff(HeaderOf(image));
  }

  function Poke(s: seq<byte>, at: nat, data: seq<byte>): (r: seq<byte>)
    requires at + |data| <= |s|
    ensures |r| == |s|
    ensures forall i | 0 <= i < |s| :: r[i] == if at <= i < at + |data| then data[i - at] else s[i]
  {
    s[..at] + data + s[at + |data|..]
  }

  function WithCmdline(s: seq<byte>, page: nat, addr: nat, size: nat): (r: seq<byte>)
    requires page + TWO_SECTORS <= |s|
    ensures |r| == |s|
  {
    Poke(Poke(s, page + CMD_LINE_PTR, Put(addr, 4)), page + CMDLINE_SIZE, Put(size, 4))
  }

  function WithRamdisk(s: seq<byte>, page: nat, addr: nat, size: nat): (r: seq<byte>)
    requires page + TWO_SECTORS <= |s|
    ensures |r| == |s|
  {
    Poke(Poke(s, page + RAMDISK_SIZE, Put(size, 4)), page + RAMDISK_IMAGE, Put(addr, 4))
  }

  function WithLoader(s: seq<byte>, page: nat, screenInfo: seq<byte>): (r: seq<byte>)
    requires page + TWO_SECTORS <= |s| && |screenInfo| == SCREEN_INFO_SIZE
    ensures |r| == |s|
  {
    Poke(Poke(s, page + TYPE_OF_LOADER, [0xff]), page, screenInfo)
  }

  /** What the code needs to know of a patched image. */
  lemma PatchedFacts(orig: seq<byte>, now: seq<byte>)
    requires Patched(orig, now)
    ensures |now| == |orig| && WellFormed(orig) && |now| >= BOOT_IMG_HDR_SIZE && HeaderOf(now) == HeaderOf(orig)
    ensures var h := HeaderOf(orig);
            && h.Valid() && h.pageSize + TWO_SECTORS <= |now|
            && now[h.pageSize + SETUP_SECTS] == orig[h.pageSize + SETUP_SECTS]
            && SetupSize(orig[h.pageSize + SETUP_SECTS]) <= h.kernelSize
  {
    hide Le, Room, SetupSize;
    HeaderKept(orig, now);
  }

  lemma RamdiskSlice(orig: seq<byte>, now: seq<byte>)
    requires Patched(orig, now) && HeaderOf(orig).pageSize > 0
    ensures var h := HeaderOf(orig);
            && RamdiskOffset(h) + h.ramdiskSize <= |now|
            && now[RamdiskOffset(h)..RamdiskOffset(h) + h.ramdiskSize] == Ramdisk(orig)
  {
    hide Le, Room, RamdiskOffset, SetupSize, Payload;
    PatchKeeps(orig, now);
  }

  lemma PayloadSlice(orig: seq<byte>, now: seq<byte>)
    requires Patched(orig, now)
    ensures var h := HeaderOf(orig);
            var setup := SetupSize(orig[h.pageSize + SETUP_SECTS]);
            && setup <= h.kernelSize && h.pageSize + h.kernelSize <= |now|
            && now[h.pageSize + setup..h.pageSize + h.kernelSize] == Payload(orig)
  {
    hide Le, Room, Ramdisk, SetupSize;
    PatchKeeps(orig, now);
  }

  /** Writing one field of the kernel area. */
  method PatchField(image: array<byte>, buf: nat, field: nat, data: seq<byte>, ghost orig: seq<byte>)
    requires Patched(orig, image[..]) && buf == HeaderOf(orig).pageSize
    requires field + |data| <= SETUP_SECTS || (SETUP_SECTS < field && field + |data| <= TWO_SECTORS)
    modifies image
    ensures Patched(orig, image[..])
    ensures image[..] == Poke(old(image[..]), buf + field, data)
  {
    forall i | 0 <= i < |data| {
      image[buf + field + i] := data[i];
    }
  }
}
