/**
 * From the signature check to the kernel's entry (common/bootimg/bootimg.c): building the
 * command line, placing ramdisk, kernel and boot parameters in memory, patching the image on
 * the way, and describing it all to the kernel.
 */
module Handover {
  import opened Machine
  import opened Memory
  import opened Placement
  import opened BootImage
  import E820

  datatype Status = InvalidParameter | AccessDenied | OutOfResources | LoadError

  /** What the firmware's GetMemoryMap returns: descriptors in a buffer, and its sizes. */
  datatype MemoryMap = MemoryMap(descs: seq<E820.Descriptor>, buffer: nat, size: nat, descSize: nat, version: nat)
  {
    ghost predicate Valid()
    {
      descSize > 0 && |descs| == Quot(size, descSize) && E820.ValidMap(descs)
    }
  }

  /** What the firmware contributes; None and false are failures. */
  datatype Firmware = Firmware(
    verify: (seq<byte>, seq<byte>) -> bool,
    junk: nat -> byte,                // what a pool buffer holds when it is handed out
    poolOk: bool,
    reallocOk: bool,
    cmdlineAddr: Option<nat>,
    ramdiskAddr: Option<nat>,
    preferredFree: bool,
    kernelAddr: Option<nat>,
    screenInfo: seq<byte>,
    paramsAddr: Option<nat>,
    gdtAddr: Option<nat>,
    systab: nat,
    memoryMap: Option<MemoryMap>,
    exitOk: bool)
  {
    ghost predicate Valid()
    {
      |screenInfo| == SCREEN_INFO_SIZE && (memoryMap.Some? ==> memoryMap.value.Valid())
    }
  }

  /** Whether and where everything was placed when the kernel is entered. */
  datatype Outcome = Failed(st: Status) | Started(at: Place)

  // ------------------------------------------------------------ command line text

  /** The text before the first NUL. */
  function CText(s: seq<byte>): seq<byte>
  {
    if s == [] || s[0] == 0 then [] else [s[0]] + CText(s[1..])
  }

  /** The command line of the header: its first field, continued by the second if it is full. */
  function HeaderCmdline(image: seq<byte>): seq<byte>
    requires |image| >= BOOT_IMG_HDR_SIZE
  {
    var first := image[CMDLINE..CMDLINE + BOOT_ARGS_SIZE - 1];
    CText(if image[CMDLINE + BOOT_ARGS_SIZE - 2] != 0 then first + image[EXTRA_CMDLINE..BOOT_IMG_HDR_SIZE] else first)
  }

  function FullCmdline(image: seq<byte>, append: Option<seq<byte>>): seq<byte>
    requires |image| >= BOOT_IMG_HDR_SIZE
  {
    HeaderCmdline(image) + match append case Some(text) => [' ' as int] + text case None => []
  }

  /** The text, a space and the NUL do not fit the first pool buffer. */
  predicate OutgrowsPool(image: seq<byte>, append: Option<seq<byte>>)
    requires |image| >= BOOT_IMG_HDR_SIZE
  {
    append.Some? && |HeaderCmdline(image)| + |append.value| + 2 >= BOOT_ARGS_SIZE + BOOT_EXTRA_ARGS_SIZE
  }

  lemma {:induction false} CTextEnds(s: seq<byte>, k: nat)
    requires k < |s| && s[k] == 0 && forall i | 0 <= i < k :: s[i] != 0
    ensures CText(s) == s[..k]
    decreases k
  {
    if k > 0 {
      CTextEnds(s[1..], k - 1);
      assert s[..k] == [s[0]] + s[1..][..k - 1];
    }
  }

  method StrLen(buf: array<byte>, ghost bound: nat) returns (k: nat)
    requires bound < buf.Length && buf[bound] == 0
    ensures k <= bound && buf[k] == 0 && forall i | 0 <= i < k :: buf[i] != 0
  {
    k := 0;
    while buf[k] != 0
      invariant k <= bound && forall i | 0 <= i < k :: buf[i] != 0
      decreases bound - k
    {
      k := k + 1;
    }
  }

  method CopyInto(buf: array<byte>, at: nat, data: seq<byte>)
    requires at + |data| <= buf.Length
    modifies buf
    ensures buf[..] == Poke(old(buf[..]), at, data)
  {
    forall i | 0 <= i < |data| {
      buf[at + i] := data[i];
    }
  }

  /** The two header fields as they are put together in the pool buffer, and the index of a NUL. */
  lemma HeaderTextEnds(image: seq<byte>) returns (source: seq<byte>, bound: nat)
    requires |image| >= BOOT_IMG_HDR_SIZE
    requires image[CMDLINE + 510] != 0 ==> 0 in image[EXTRA_CMDLINE..BOOT_IMG_HDR_SIZE]
    ensures bound < |source| && source[bound] == 0 && HeaderCmdline(image) == CText(source)
    ensures var first := image[CMDLINE..CMDLINE + BOOT_ARGS_SIZE - 1];
            source == if image[CMDLINE + 510] != 0 then first + image[EXTRA_CMDLINE..BOOT_IMG_HDR_SIZE] else first
  {
    hide CText;
    source, bound := image[CMDLINE..CMDLINE + BOOT_ARGS_SIZE - 1], BOOT_ARGS_SIZE - 2;
    if image[CMDLINE + 510] != 0 {
      var extra := image[EXTRA_CMDLINE..BOOT_IMG_HDR_SIZE];
      var e :| 0 <= e < |extra| && extra[e] == 0;
      source, bound := source + extra, BOOT_ARGS_SIZE - 1 + e;
    }
  }

  /** The length of the text that starts the buffer. */
  method Measure(pool: array<byte>, ghost source: seq<byte>, ghost bound: nat) returns (cmdlen: nat)
    requires |source| <= pool.Length && pool[..|source|] == source && bound < |source| && source[bound] == 0
    ensures cmdlen < |source| && pool[..cmdlen] == CText(source) && 0 !in pool[..cmdlen]
  {
    hide CText;
    assert pool[bound] == pool[..|source|][bound];
    cmdlen := StrLen(pool, bound);
    assert forall i | 0 <= i <= cmdlen :: source[i] == pool[..|source|][i] == pool[i];
    CTextEnds(source, cmdlen);
    assert source[..cmdlen] == pool[..cmdlen];
  }

  /** Copies the header's fields into a pool buffer and measures the text. */
  method CopyHeaderText(image: seq<byte>, junk: nat -> byte) returns (pool: array<byte>, cmdlen: nat)
    requires |image| >= BOOT_IMG_HDR_SIZE
    requires image[CMDLINE + 510] != 0 ==> 0 in image[EXTRA_CMDLINE..BOOT_IMG_HDR_SIZE]
    ensures fresh(pool) && pool.Length == BOOT_ARGS_SIZE + BOOT_EXTRA_ARGS_SIZE
    ensures cmdlen < pool.Length && pool[..cmdlen] == HeaderCmdline(image) && 0 !in pool[..cmdlen]
  {
    hide HeaderCmdline, CText;
    pool := new byte[BOOT_ARGS_SIZE + BOOT_EXTRA_ARGS_SIZE]((i: nat) => junk(i));
    ghost var source, bound := HeaderTextEnds(image);
    CopyInto(pool, 0, image[CMDLINE..CMDLINE + BOOT_ARGS_SIZE - 1]);
    if image[CMDLINE + BOOT_ARGS_SIZE - 2] != 0 {
      CopyInto(pool, BOOT_ARGS_SIZE - 1, image[EXTRA_CMDLINE..BOOT_IMG_HDR_SIZE]);
    }
    assert pool[..|source|] == source;
    cmdlen := Measure(pool, source, bound);
  }

  /** Adds a space, the string and its NUL, and measures the text again. */
  method AppendText(pool: array<byte>, cmdlen: nat, append: seq<byte>) returns (newLength: nat)
    requires cmdlen + |append| + 2 <= pool.Length && 0 !in pool[..cmdlen] && 0 !in append
    modifies pool
    ensures newLength == cmdlen + 1 + |append|
    ensures pool[..newLength] == old(pool[..cmdlen]) + [' ' as int] + append
  {
    ghost var text := pool[..cmdlen] + [' ' as int] + append;
    pool[cmdlen] := ' ' as int;
    CopyInto(pool, cmdlen + 1, append + [0]);
    assert pool[..cmdlen + 1 + |append|] == text;
    assert forall i | 0 <= i < |text| :: text[i] != 0 && pool[i] == text[i];
    newLength := StrLen(pool, cmdlen + 1 + |append|);
  }

  /**
   * The text part of `setup_command_line`: `append` is a string without a NUL. Both pool
   * allocations may fail; the second is made only if the text outgrows the first.
   */
  method BuildCommandLine(image: seq<byte>, append: Option<seq<byte>>, fw: Firmware) returns (text: Option<seq<byte>>)
    requires |image| >= BOOT_IMG_HDR_SIZE
    requires image[CMDLINE + 510] != 0 ==> 0 in image[EXTRA_CMDLINE..BOOT_IMG_HDR_SIZE]
    requires append.Some? ==> 0 !in append.value
    ensures text == if fw.poolOk && (OutgrowsPool(image, append) ==> fw.reallocOk) then Some(FullCmdline(image, append))
                    else None
  {
    hide HeaderCmdline;
    if !fw.poolOk {
      return None;
    }
    var pool, cmdlen := CopyHeaderText(image, fw.junk);
    assert cmdlen == |pool[..cmdlen]| == |HeaderCmdline(image)|;
    if append.Some? {
      var newSize := cmdlen + |append.value| + 2;
      if newSize >= BOOT_ARGS_SIZE + BOOT_EXTRA_ARGS_SIZE {
        if !fw.reallocOk {
          return None;
        }
        var bigger := new byte[newSize]((i: nat) => fw.junk(i));
        CopyInto(bigger, 0, pool[..cmdlen]);
        pool := bigger;
      }
      assert pool[..cmdlen] == HeaderCmdline(image);
      cmdlen := AppendText(pool, cmdlen, append.value);
    }
    assert pool[..cmdlen] == FullCmdline(image, append);
    text := Some(pool[..cmdlen]);
  }

  // ------------------------------------------------------------ what the kernel is told

  /** The fields of struct efi_info that are filled in on IA32. */
  function EfiInfo(fw: Firmware, map_: MemoryMap): (r: seq<byte>)
    ensures |r| == EFI_INFO_SIZE
  {
    ['E' as int, 'L' as int, '3' as int, '2' as int]
    + Put(fw.systab, 4) + Put(map_.descSize, 4) + Put(map_.version, 4) + Put(map_.buffer, 4) + Put(map_.size, 4)
  }

  function E820Of(map_: MemoryMap): (r: seq<E820.Entry>)
  {
    E820.Coalesce(E820.Regions(map_.descs))
  }

  /** The image as it is when the boot parameters are copied from it. */
  function PatchedImage(orig: seq<byte>, page: nat, fw: Firmware, at: Place, cmdSize: nat, rdSize: nat): (r: seq<byte>)
    requires page + TWO_SECTORS <= |orig| && |fw.screenInfo| == SCREEN_INFO_SIZE
    ensures |r| == |orig|
  {
    var s := if at.cmdline != 0 then WithCmdline(orig, page, at.cmdline, cmdSize) else orig;
    WithLoader(WithRamdisk(s, page, at.ramdisk, rdSize), page, fw.screenInfo)
  }

  /** The bytes of the first two sectors that the loader fills in, apart from the memory map. */
  predicate LoaderField(i: nat)
  {
    || i < SCREEN_INFO_SIZE || EFI_INFO <= i < EFI_INFO + EFI_INFO_SIZE || i == E820_ENTRIES
    || i == TYPE_OF_LOADER || CODE32_START <= i < RAMDISK_SIZE + 4
    || CMD_LINE_PTR <= i < CMD_LINE_PTR + 4 || CMDLINE_SIZE <= i < CMDLINE_SIZE + 4
  }

  /** The fields the loader fills in. Without a command line of its own it leaves the image's two fields as they are. */
  ghost predicate TellsFields(p: seq<byte>, orig: seq<byte>, page: nat, fw: Firmware, map_: MemoryMap, at: Place,
      cmdSize: nat, rdSize: nat)
    requires page + TWO_SECTORS <= |orig| && |p| == PARAMS_SIZE
  {
    && p[..SCREEN_INFO_SIZE] == fw.screenInfo
    && p[EFI_INFO..EFI_INFO + EFI_INFO_SIZE] == EfiInfo(fw, map_)
    && p[E820_ENTRIES] == E820.Announced(|E820Of(map_)|)
    && p[TYPE_OF_LOADER] == 0xff
    && p[CODE32_START..CODE32_START + 4] == Put(at.kernel, 4)
    && p[RAMDISK_IMAGE..RAMDISK_IMAGE + 4] == Put(at.ramdisk, 4)
    && p[RAMDISK_SIZE..RAMDISK_SIZE + 4] == Put(rdSize, 4)
    && p[CMD_LINE_PTR..CMD_LINE_PTR + 4] ==
       (if at.cmdline != 0 then Put(at.cmdline, 4) else orig[page + CMD_LINE_PTR..page + CMD_LINE_PTR + 4])
    && p[CMDLINE_SIZE..CMDLINE_SIZE + 4] ==
       (if at.cmdline != 0 then Put(cmdSize, 4) else orig[page + CMDLINE_SIZE..page + CMDLINE_SIZE + 4])
  }

  /**
   * The boot parameters tell the kernel where everything is and what memory there is; what
   * the loader does not fill in is the image's own header, and zeros after it.
   */
  ghost predicate Tells(p: seq<byte>, orig: seq<byte>, page: nat, fw: Firmware, map_: MemoryMap, at: Place,
      cmdSize: nat, rdSize: nat)
    requires page + TWO_SECTORS <= |orig|
  {
    var table := E820.EncodeTable(E820Of(map_));
    && |p| == PARAMS_SIZE && E820_MAP + |table| <= PARAMS_SIZE
    && TellsFields(p, orig, page, fw, map_, at, cmdSize, rdSize)
    && p[E820_MAP..E820_MAP + |table|] == table
    && (forall i: nat | i < E820_MAP && !LoaderField(i) :: p[i] == orig[page + i])
    && (forall i: nat | E820_MAP + |table| <= i < PARAMS_SIZE ::
          p[i] == if i < TWO_SECTORS then orig[page + i] else 0)
  }

  /** The header part of the parameters, byte by byte. */
  lemma HeaderBytes(orig: seq<byte>, page: nat, fw: Firmware, at: Place, cmdSize: nat, rdSize: nat)
    requires page + TWO_SECTORS <= |orig| && |fw.screenInfo| == SCREEN_INFO_SIZE
    ensures var h := PatchedImage(orig, page, fw, at, cmdSize, rdSize)[page..page + TWO_SECTORS];
            forall i: nat | i < TWO_SECTORS :: h[i] ==
              if i < SCREEN_INFO_SIZE then fw.screenInfo[i]
              else if i == TYPE_OF_LOADER then 0xff
              else if RAMDISK_IMAGE <= i < RAMDISK_IMAGE + 4 then Put(at.ramdisk, 4)[i - RAMDISK_IMAGE]
              else if RAMDISK_SIZE <= i < RAMDISK_SIZE + 4 then Put(rdSize, 4)[i - RAMDISK_SIZE]
              else if at.cmdline != 0 && CMD_LINE_PTR <= i < CMD_LINE_PTR + 4 then Put(at.cmdline, 4)[i - CMD_LINE_PTR]
              else if at.cmdline != 0 && CMDLINE_SIZE <= i < CMDLINE_SIZE + 4 then Put(cmdSize, 4)[i - CMDLINE_SIZE]
              else orig[page + i]
  {
    hide Put, Poke;
    var s := PatchedImage(orig, page, fw, at, cmdSize, rdSize);
    var h := s[page..page + TWO_SECTORS];
    assert forall i: nat | i < TWO_SECTORS :: h[i] == s[page + i];
  }

  /** What is placed for an image. */
  ghost function ContentOf(orig: seq<byte>, append: Option<seq<byte>>, fw: Firmware, map_: MemoryMap, at: Place)
    : (c: Content)
    requires WellFormed(orig) && |fw.screenInfo| == SCREEN_INFO_SIZE
    ensures c.Valid()
  {
    var page := HeaderOf(orig).pageSize;
    var text := FullCmdline(orig, append);
    var s := PatchedImage(orig, page, fw, at, |text| + 1, HeaderOf(orig).ramdiskSize);
    Content(text + [0], Ramdisk(orig), Payload(orig), s[page..page + TWO_SECTORS], EfiInfo(fw, map_),
            E820.EncodeTable(E820Of(map_)), E820.Announced(|E820Of(map_)|))
  }

  lemma UntouchedIsPatched(orig: seq<byte>)
    requires WellFormed(orig)
    ensures Patched(orig, orig) && 0 < HeaderOf(orig).pageSize && HeaderOf(orig).pageSize + TWO_SECTORS <= |orig|
    ensures |Ramdisk(orig)| == HeaderOf(orig).ramdiskSize
  {
  }

  lemma SliceIs(p: seq<byte>, at: nat, data: seq<byte>)
    requires at + |data| <= |p| && forall k | 0 <= k < |data| :: p[at + k] == data[k]
    ensures p[at..at + |data|] == data
  {
  }

  lemma CmdlineFields(c: Content, orig: seq<byte>, page: nat, fw: Firmware, at: Place, cmdSize: nat, rdSize: nat)
    requires page + TWO_SECTORS <= |orig| && |fw.screenInfo| == SCREEN_INFO_SIZE && c.Valid()
    requires c.header == PatchedImage(orig, page, fw, at, cmdSize, rdSize)[page..page + TWO_SECTORS]
    ensures var p := Params(c, at.kernel);
            && p[CMD_LINE_PTR..CMD_LINE_PTR + 4] ==
               (if at.cmdline != 0 then Put(at.cmdline, 4) else orig[page + CMD_LINE_PTR..page + CMD_LINE_PTR + 4])
            && p[CMDLINE_SIZE..CMDLINE_SIZE + 4] ==
               (if at.cmdline != 0 then Put(cmdSize, 4) else orig[page + CMDLINE_SIZE..page + CMDLINE_SIZE + 4])
  {
    hide Put, PatchedImage, Params;
    var p := Params(c, at.kernel);
    HeaderBytes(orig, page, fw, at, cmdSize, rdSize);
    if at.cmdline != 0 {
      SliceIs(p, CMD_LINE_PTR, Put(at.cmdline, 4));
      SliceIs(p, CMDLINE_SIZE, Put(cmdSize, 4));
    } else {
      SliceIs(p, CMD_LINE_PTR, orig[page + CMD_LINE_PTR..page + CMD_LINE_PTR + 4]);
      SliceIs(p, CMDLINE_SIZE, orig[page + CMDLINE_SIZE..page + CMDLINE_SIZE + 4]);
    }
  }

  lemma FieldsFromBytes(c: Content, orig: seq<byte>, page: nat, fw: Firmware, map_: MemoryMap, at: Place,
      cmdSize: nat, rdSize: nat)
    requires page + TWO_SECTORS <= |orig| && fw.Valid() && c.Valid()
    requires E820_MAP + E820.ENTRY_SIZE * |E820Of(map_)| <= PARAMS_SIZE
    requires c.header == PatchedImage(orig, page, fw, at, cmdSize, rdSize)[page..page + TWO_SECTORS]
    requires c.efi == EfiInfo(fw, map_)
    requires c.table == E820.EncodeTable(E820Of(map_)) && c.count == E820.Announced(|E820Of(map_)|)
    ensures TellsFields(Params(c, at.kernel), orig, page, fw, map_, at, cmdSize, rdSize)
  {
    hide Put, E820.EncodeTable, E820Of, EfiInfo, PatchedImage, E820.Announced, Params;
    var p := Params(c, at.kernel);
    HeaderBytes(orig, page, fw, at, cmdSize, rdSize);
    SliceIs(p, 0, fw.screenInfo);
    SliceIs(p, EFI_INFO, c.efi);
    SliceIs(p, CODE32_START, Put(at.kernel, 4));
    SliceIs(p, RAMDISK_IMAGE, Put(at.ramdisk, 4));
    SliceIs(p, RAMDISK_SIZE, Put(rdSize, 4));
    CmdlineFields(c, orig, page, fw, at, cmdSize, rdSize);
  }

  lemma TellsFromBytes(c: Content, orig: seq<byte>, page: nat, fw: Firmware, map_: MemoryMap, at: Place,
      cmdSize: nat, rdSize: nat)
    requires page + TWO_SECTORS <= |orig| && fw.Valid() && c.Valid()
    requires E820_MAP + E820.ENTRY_SIZE * |E820Of(map_)| <= PARAMS_SIZE
    requires c.header == PatchedImage(orig, page, fw, at, cmdSize, rdSize)[page..page + TWO_SECTORS]
    requires c.efi == EfiInfo(fw, map_)
    requires c.table == E820.EncodeTable(E820Of(map_)) && c.count == E820.Announced(|E820Of(map_)|)
    ensures Tells(Params(c, at.kernel), orig, page, fw, map_, at, cmdSize, rdSize)
  {
    hide Put, E820.EncodeTable, E820Of, EfiInfo, PatchedImage, E820.Announced, Params, TellsFields;
    var p := Params(c, at.kernel);
    FieldsFromBytes(c, orig, page, fw, map_, at, cmdSize, rdSize);
    HeaderBytes(orig, page, fw, at, cmdSize, rdSize);
    SliceIs(p, E820_MAP, c.table);
  }

  lemma ContentParts(orig: seq<byte>, append: Option<seq<byte>>, fw: Firmware, map_: MemoryMap, at: Place)
    requires WellFormed(orig) && fw.Valid()
    ensures |orig| >= BOOT_IMG_HDR_SIZE && |fw.screenInfo| == SCREEN_INFO_SIZE
    ensures var c := ContentOf(orig, append, fw, map_, at);
            var page, rdSize := HeaderOf(orig).pageSize, HeaderOf(orig).ramdiskSize;
            var cmdSize := |FullCmdline(orig, append)| + 1;
            && page + TWO_SECTORS <= |orig|
            && c.header == PatchedImage(orig, page, fw, at, cmdSize, rdSize)[page..page + TWO_SECTORS]
            && c.efi == EfiInfo(fw, map_) && c.table == E820.EncodeTable(E820Of(map_))
            && c.count == E820.Announced(|E820Of(map_)|)
  {
    UntouchedIsPatched(orig);
    hide WellFormed, HeaderOf, PatchedImage, EfiInfo, E820Of, E820.EncodeTable, FullCmdline, Patched, Ramdisk, Payload;
  }

  /** The parameters of that content say what they should. */
  lemma ParamsTell(orig: seq<byte>, append: Option<seq<byte>>, fw: Firmware, map_: MemoryMap, at: Place)
    requires WellFormed(orig) && fw.Valid()
    requires E820_MAP + E820.ENTRY_SIZE * |E820Of(map_)| <= PARAMS_SIZE
    ensures HeaderOf(orig).pageSize + TWO_SECTORS <= |orig|
    ensures var c := ContentOf(orig, append, fw, map_, at);
            Tells(Params(c, at.kernel), orig, HeaderOf(orig).pageSize, fw, map_, at,
                  |FullCmdline(orig, append)| + 1, HeaderOf(orig).ramdiskSize)
  {
    hide *;
    ContentParts(orig, append, fw, map_, at);
    TellsFromBytes(ContentOf(orig, append, fw, map_, at), orig, HeaderOf(orig).pageSize, fw, map_, at,
                   |FullCmdline(orig, append)| + 1, HeaderOf(orig).ramdiskSize);
  }

  /**
   * A kernel that reads as many entries as the count announces has the converted memory map
   * if and only if the map has fewer than 256 entries.
   */
  lemma KernelReadsMapIff(p: seq<byte>, orig: seq<byte>, page: nat, fw: Firmware, map_: MemoryMap, at: Place,
      cmdSize: nat, rdSize: nat)
    requires page + TWO_SECTORS <= |orig| && map_.Valid()
    requires Tells(p, orig, page, fw, map_, at, cmdSize, rdSize)
    ensures E820.ENTRY_SIZE * p[E820_ENTRIES] <= |p[E820_MAP..]|
    ensures E820.ReadTable(p[E820_MAP..], p[E820_ENTRIES]) == E820Of(map_) <==> |E820Of(map_)| < 256
  {
    hide E820.EncodeTable, E820.ReadTable, E820.Coalesce, E820.Regions, Put, EfiInfo;
    var es := E820Of(map_);
    var table := E820.EncodeTable(es);
    E820.RegionsInRange(map_.descs);
    E820.CoalesceMeaning(E820.Regions(map_.descs), 0, E820.RAM);
    assert p[E820_MAP..] == table + p[E820_MAP + |table|..];
    E820.AnnouncedIff(es, p[E820_MAP + |table|..]);
  }

  // ------------------------------------------------------------ when the kernel is entered

  /** Memory for the command line. */
  predicate CmdlinePlaced(image: seq<byte>, append: Option<seq<byte>>, fw: Firmware)
    requires |image| >= BOOT_IMG_HDR_SIZE
  {
    fw.poolOk && (OutgrowsPool(image, append) ==> fw.reallocOk) && fw.cmdlineAddr.Some?
  }

  /** Memory for the ramdisk, no higher than the kernel allows. */
  predicate RamdiskPlaced(image: seq<byte>, page: nat, fw: Firmware)
    requires page + TWO_SECTORS <= |image|
  {
    fw.ramdiskAddr.Some? && fw.ramdiskAddr.value <= Field(image, page + 0x22c, 4)
  }

  /** Memory for the kernel, where it prefers to be if it cannot be moved, and all later steps. */
  predicate KernelPlaced(image: seq<byte>, page: nat, fw: Firmware)
    requires page + TWO_SECTORS <= |image|
  {
    && (fw.preferredFree || fw.kernelAddr.Some?)
    && (fw.preferredFree || image[page + 0x234] != 0 || fw.kernelAddr.value == Field(image, page + 0x258, 8))
    && fw.paramsAddr.Some? && fw.gdtAddr.Some? && fw.memoryMap.Some? && fw.exitOk
  }

  /** Where the kernel goes. */
  function KernelAt(image: seq<byte>, page: nat, fw: Firmware): nat
    requires page + TWO_SECTORS <= |image| && KernelPlaced(image, page, fw)
  {
    (if fw.preferredFree then Field(image, page + 0x258, 8) else fw.kernelAddr.value) % TWO_32
  }

  /** The kernel's setup code carries both of its magic numbers. */
  predicate HasMagics(image: seq<byte>, page: nat)
    requires page + TWO_SECTORS <= |image|
  {
    Field(image, page + 0x1fe, 2) == 0xAA55 && Field(image, page + 0x202, 4) == 0x53726448
  }

  lemma PokeElsewhere(s: seq<byte>, at: nat, data: seq<byte>, a: nat, n: nat)
    requires at + |data| <= |s| && a + n <= |s| && Apart(at, |data|, a, n)
    ensures Field(Poke(s, at, data), a, n) == Field(s, a, n)
  {
    assert Poke(s, at, data)[a..a + n] == s[a..a + n];
  }

  /** The patches made before a step do not touch what that step decides by. */
  lemma DecisionsKept(s: seq<byte>, page: nat, fw: Firmware, addr: nat, size: nat, rdAddr: nat, rdSize: nat)
    requires page + TWO_SECTORS <= |s|
    ensures RamdiskPlaced(WithCmdline(s, page, addr, size), page, fw) == RamdiskPlaced(s, page, fw)
    ensures KernelPlaced(WithCmdline(s, page, addr, size), page, fw) == KernelPlaced(s, page, fw)
    ensures KernelPlaced(WithRamdisk(s, page, rdAddr, rdSize), page, fw) == KernelPlaced(s, page, fw)
    ensures KernelPlaced(s, page, fw) ==>
      KernelAt(WithCmdline(s, page, addr, size), page, fw) == KernelAt(s, page, fw)
      == KernelAt(WithRamdisk(s, page, rdAddr, rdSize), page, fw)
  {
    hide Field, Put, Poke;
    var c1 := Poke(s, page + CMD_LINE_PTR, Put(addr, 4));
    var r1 := Poke(s, page + RAMDISK_SIZE, Put(rdSize, 4));
    PokeElsewhere(s, page + CMD_LINE_PTR, Put(addr, 4), page + 0x22c, 4);
    PokeElsewhere(c1, page + CMDLINE_SIZE, Put(size, 4), page + 0x22c, 4);
    PokeElsewhere(s, page + CMD_LINE_PTR, Put(addr, 4), page + 0x258, 8);
    PokeElsewhere(c1, page + CMDLINE_SIZE, Put(size, 4), page + 0x258, 8);
    PokeElsewhere(s, page + RAMDISK_SIZE, Put(rdSize, 4), page + 0x258, 8);
    PokeElsewhere(r1, page + RAMDISK_IMAGE, Put(rdAddr, 4), page + 0x258, 8);
  }

  // ------------------------------------------------------------ the whole path

  /** `setup_command_line`. If the pages it gets are at address 0 it succeeds without using them. */
  method SetupCommandLine(image: array<byte>, ram: Ram, append: Option<seq<byte>>, fw: Firmware, ghost orig: seq<byte>)
    returns (ok: bool)
    requires WellFormed(orig) && orig == image[..] && (append.Some? ==> 0 !in append.value)
    modifies image, ram
    ensures Patched(orig, image[..]) && HeaderOf(orig).pageSize + TWO_SECTORS <= |orig|
    ensures ok <==> CmdlinePlaced(orig, append, fw)
    ensures ok ==> fw.cmdlineAddr.Some?
    ensures ok ==>
      var addr, text := fw.cmdlineAddr.value, FullCmdline(orig, append);
      if addr == 0 then image[..] == orig && ram.bytes == old(ram.bytes)
      else
        && image[..] == WithCmdline(orig, HeaderOf(orig).pageSize, addr, |text| + 1)
        && ram.bytes == Store(old(ram.bytes), addr, text + [0])
  {
    hide Patched, HeaderOf, Put, Poke, SetupSize, FullCmdline, HeaderCmdline, OutgrowsPool;
    UntouchedIsPatched(orig);
    PatchedFacts(orig, image[..]);
    var buf := HeaderOf(image[..]).pageSize;
    var cmdline := BuildCommandLine(image[..], append, fw);
    if cmdline.None? || fw.cmdlineAddr.None? {
      return false;
    }
    var addr := fw.cmdlineAddr.value;
    if addr == 0 {
      return true;
    }
    ram.Copy(addr, cmdline.value + [0]);
    PatchField(image, buf, CMD_LINE_PTR, Put(addr, 4), orig);
    PatchField(image, buf, CMDLINE_SIZE, Put(|cmdline.value| + 1, 4), orig);
    return true;
  }

  /** `setup_ramdisk`. */
  method SetupRamdisk(image: array<byte>, ram: Ram, fw: Firmware, ghost orig: seq<byte>) returns (ok: bool)
    requires Patched(orig, image[..]) && HeaderOf(orig).pageSize + TWO_SECTORS <= |orig|
    modifies image, ram
    ensures Patched(orig, image[..])
    ensures ok <==> RamdiskPlaced(old(image[..]), HeaderOf(orig).pageSize, fw)
    ensures ok ==> fw.ramdiskAddr.Some?
    ensures ok ==>
      var h := HeaderOf(orig);
      && image[..] == WithRamdisk(old(image[..]), h.pageSize, fw.ramdiskAddr.value, h.ramdiskSize)
      && ram.bytes == Store(old(ram.bytes), fw.ramdiskAddr.value, Ramdisk(orig))
  {
    hide Patched, HeaderOf, WellFormed, RamdiskOffset, Ramdisk, Put, Poke, SetupSize, Field;
    PatchedFacts(orig, image[..]);
    var h := HeaderOf(image[..]);
    var buf := h.pageSize;
    var roffset := RamdiskOffset(h);
    var rsize := h.ramdiskSize;
    PokeElsewhere(image[..], buf + RAMDISK_SIZE, Put(rsize, 4), buf + INITRD_ADDR_MAX, 4);
    PatchField(image, buf, RAMDISK_SIZE, Put(rsize, 4), orig);
    PatchedFacts(orig, image[..]);
    if fw.ramdiskAddr.None? || fw.ramdiskAddr.value > Field(image[..], buf + INITRD_ADDR_MAX, 4) {
      return false;
    }
    RamdiskSlice(orig, image[..]);
    ram.Copy(fw.ramdiskAddr.value, image[roffset..roffset + rsize]);
    PatchField(image, buf, RAMDISK_IMAGE, Put(fw.ramdiskAddr.value, 4), orig);
    return true;
  }

  /** The protected-mode kernel in the image. */
  method FindPayload(image: array<byte>, setupSize: nat, ksize: nat, ghost orig: seq<byte>) returns (kernel: seq<byte>)
    requires Patched(orig, image[..])
    requires setupSize == SetupSize(orig[HeaderOf(orig).pageSize + SETUP_SECTS])
    requires ksize == HeaderOf(orig).kernelSize - setupSize
    ensures kernel == Payload(orig)
  {
    hide Patched, HeaderOf, WellFormed, Payload, SetupSize;
    PatchedFacts(orig, image[..]);
    PayloadSlice(orig, image[..]);
    var buf := HeaderOf(image[..]).pageSize;
    return image[buf + setupSize..buf + setupSize + ksize];
  }

  /** `setup_efi_memory_map`, on the boot parameters in memory. */
  method SetupEfiMemoryMap(ram: Ram, params: nat, fw: Firmware) returns (ok: bool)
    requires fw.Valid()
    modifies ram
    ensures ok <==> fw.memoryMap.Some?
    ensures ok ==>
      var m := Store(old(ram.bytes), params + EFI_INFO, EfiInfo(fw, fw.memoryMap.value));
      var m := Store(m, params + E820_MAP, E820.EncodeTable(E820Of(fw.memoryMap.value)));
      ram.bytes == Store(m, params + E820_ENTRIES, [E820.Announced(|E820Of(fw.memoryMap.value)|)])
  {
    hide EfiInfo, E820.EncodeTable, E820.Coalesce, E820.Regions;
    if fw.memoryMap.None? {
      return false;
    }
    var descs := fw.memoryMap.value.descs;
    ram.Copy(params + EFI_INFO, EfiInfo(fw, fw.memoryMap.value));
    // the entries of the boot parameters, of which no more are written than there are descriptors
    var e820_map := new E820.Entry[|descs|];
    var n_page := E820.SetupE820Map(descs, e820_map);
    ram.Copy(params + E820_MAP, E820.EncodeTable(e820_map[..n_page]));
    ram.Copy(params + E820_ENTRIES, [E820.Announced(n_page)]);
    return true;
  }

  /** `handover_kernel` up to the jump. */
  method HandoverKernel(image: array<byte>, ram: Ram, fw: Firmware, ghost orig: seq<byte>)
    returns (st: Option<Status>, kernel: nat)
    requires Patched(orig, image[..]) && fw.Valid() && HeaderOf(orig).pageSize + TWO_SECTORS <= |orig|
    modifies image, ram
    ensures Patched(orig, image[..])
    ensures st.None? <==> KernelPlaced(old(image[..]), HeaderOf(orig).pageSize, fw)
    ensures st.None? ==> fw.paramsAddr.Some? && fw.gdtAddr.Some? && fw.memoryMap.Some?
    ensures st.None? ==> kernel == KernelAt(old(image[..]), HeaderOf(orig).pageSize, fw)
    ensures st.None? ==>
      var page, map_ := HeaderOf(orig).pageSize, fw.memoryMap.value;
      && image[..] == WithLoader(old(image[..]), page, fw.screenInfo)
      && ram.bytes == Handed(old(ram.bytes), Place(0, 0, kernel, fw.paramsAddr.value, fw.gdtAddr.value),
           Content([], [], Payload(orig), image[page..page + TWO_SECTORS], EfiInfo(fw, map_),
                   E820.EncodeTable(E820Of(map_)), E820.Announced(|E820Of(map_)|)))
  {
    hide Patched, HeaderOf, WellFormed, Payload, Put, Poke, SetupSize, Field, EfiInfo, Gdt, Store;
    hide E820.EncodeTable, E820Of;
    PatchedFacts(orig, image[..]);
    kernel := 0;
    var h := HeaderOf(image[..]);
    var buf := h.pageSize;
    var setupSize := SetupSize(image[buf + SETUP_SECTS]);
    var ksize := h.kernelSize - setupSize;
    var preferred := Field(image[..], buf + PREF_ADDRESS, 8);
    PokeElsewhere(image[..], buf + TYPE_OF_LOADER, [0xff], buf + PREF_ADDRESS, 8);
    PatchField(image, buf, TYPE_OF_LOADER, [0xff], orig);
    PokeElsewhere(image[..], buf, fw.screenInfo, buf + PREF_ADDRESS, 8);
    PatchField(image, buf, 0, fw.screenInfo, orig);
    PatchedFacts(orig, image[..]);
    if !fw.preferredFree && fw.kernelAddr.None? {
      return Some(OutOfResources), 0;
    }
    var kernelStart := if fw.preferredFree then preferred else fw.kernelAddr.value;
    if image[buf + RELOCATABLE_KERNEL] == 0 && kernelStart != preferred {
      return Some(LoadError), 0;
    }
    kernel := kernelStart % TWO_32;
    var payload := FindPayload(image, setupSize, ksize, orig);
    ram.Copy(kernel, payload);
    if fw.paramsAddr.None? {
      return Some(OutOfResources), 0;
    }
    var params := fw.paramsAddr.value;
    ram.Copy(params, Zeros(PARAMS_SIZE));
    ram.Copy(params, image[buf..buf + TWO_SECTORS]);
    ram.Copy(params + CODE32_START, Put(kernel, 4));
    if fw.gdtAddr.None? {
      return Some(OutOfResources), 0;
    }
    ram.Copy(fw.gdtAddr.value, Gdt());
    var ok := SetupEfiMemoryMap(ram, params, fw);
    if !ok || !fw.exitOk {
      return Some(LoadError), 0;
    }
    st := None;
  }

  /** Everything the loader checks and asks for before it enters the kernel. */
  ghost predicate Starts(orig: seq<byte>, append: Option<seq<byte>>, fw: Firmware)
    requires WellFormed(orig)
  {
    var page := HeaderOf(orig).pageSize;
    && page + TWO_SECTORS <= |orig|
    && HasMagics(orig, page) && fw.verify(Signed(orig), Signature(orig))
    && CmdlinePlaced(orig, append, fw) && RamdiskPlaced(orig, page, fw) && KernelPlaced(orig, page, fw)
  }

  /** Where everything goes then. */
  ghost function PlaceOf(orig: seq<byte>, append: Option<seq<byte>>, fw: Firmware): Place
    requires WellFormed(orig) && Starts(orig, append, fw)
  {
    Place(fw.cmdlineAddr.value, fw.ramdiskAddr.value, KernelAt(orig, HeaderOf(orig).pageSize, fw),
          fw.paramsAddr.value, fw.gdtAddr.value)
  }

  /** The size for which the kernel's pages are allocated. */
  ghost function InitSize(orig: seq<byte>): nat
    requires WellFormed(orig)
  {
    Field(orig, HeaderOf(orig).pageSize + INIT_SIZE, 4)
  }

  /** The parts are in memory as they were when the signature was checked, and the kernel is told about them. */
  ghost predicate KernelFinds(m: Mem, orig: seq<byte>, append: Option<seq<byte>>, fw: Firmware, at: Place)
    requires WellFormed(orig)
  {
    var text := FullCmdline(orig, append);
    && fw.memoryMap.Some?
    && HeaderOf(orig).pageSize + TWO_SECTORS <= |orig|
    && Load(m, at.kernel, |Payload(orig)|) == Payload(orig)
    && Load(m, at.ramdisk, |Ramdisk(orig)|) == Ramdisk(orig)
    && (at.cmdline != 0 ==> Load(m, at.cmdline, |text| + 1) == text + [0])
    && Tells(Load(m, at.params, PARAMS_SIZE), orig, HeaderOf(orig).pageSize, fw, fw.memoryMap.value, at,
             |text| + 1, |Ramdisk(orig)|)
  }

  lemma FindsWhatFits(m: Mem, orig: seq<byte>, append: Option<seq<byte>>, fw: Firmware, at: Place)
    requires WellFormed(orig) && fw.Valid() && fw.memoryMap.Some?
    ensures var c := ContentOf(orig, append, fw, fw.memoryMap.value, at);
            var s := SizesOf(c, InitSize(orig));
            Disjoint(at, s) && Fits(s) ==> KernelFinds(Loaded(m, at, c), orig, append, fw, at)
  {
    hide Loaded, Disjoint, Payload, Tells, FullCmdline, PatchedImage, E820Of, E820.EncodeTable, Params;
    var c := ContentOf(orig, append, fw, fw.memoryMap.value, at);
    if Disjoint(at, SizesOf(c, InitSize(orig))) && Fits(SizesOf(c, InitSize(orig))) {
      FitsIsIntact(m, at, c, InitSize(orig));
      ParamsTell(orig, append, fw, fw.memoryMap.value, at);
      UntouchedIsPatched(orig);
    }
  }

  /** The memory after the three steps, in order. */
  lemma AllLoaded(m: Mem, at: Place, c: Content)
    ensures var m1 := if at.cmdline != 0 then Store(m, at.cmdline, c.cmdline) else m;
            var m2 := Store(m1, at.ramdisk, c.ramdisk);
            Handed(m2, at.(cmdline := 0, ramdisk := 0), c.(cmdline := [], ramdisk := [])) == Loaded(m, at, c)
  {
    hide Store, Gdt, Put;
  }

  /**
   * `android_image_start_buffer`: checks, signature, command line, ramdisk, kernel, in this
   * order. The kernel is entered exactly if the signature check accepts the image as it was
   * passed in and memory can be had for all parts; and if the kernel fits the pages its header
   * asks for and the memory map the boot parameters, the kernel and the ramdisk in memory are
   * the bytes that were accepted, and the boot parameters tell the kernel where everything is and what memory there is.
   * Whatever happens, only the first two sectors of the kernel area of the image change, and
   * nothing at all unless the signature check has accepted it.
   */
  method StartBuffer(image: array<byte>, ram: Ram, append: Option<seq<byte>>, fw: Firmware) returns (o: Outcome)
    requires WellFormed(image[..]) && fw.Valid() && (append.Some? ==> 0 !in append.value)
    modifies image, ram
    ensures Patched(old(image[..]), image[..])
    ensures !fw.verify(Signed(old(image[..])), Signature(old(image[..]))) ==>
      o.Failed? && image[..] == old(image[..]) && ram.bytes == old(ram.bytes)
    ensures HeaderOf(old(image[..])).pageSize + TWO_SECTORS <= image.Length
    ensures !HasMagics(old(image[..]), HeaderOf(old(image[..])).pageSize) ==> o == Failed(InvalidParameter)
    ensures (&& HasMagics(old(image[..]), HeaderOf(old(image[..])).pageSize)
             && !fw.verify(Signed(old(image[..])), Signature(old(image[..])))) ==>
      o == Failed(AccessDenied)
    ensures o.Started? <==> Starts(old(image[..]), append, fw)
    ensures o.Started? ==>
      && o.at == PlaceOf(old(image[..]), append, fw)
      && ram.bytes == Loaded(old(ram.bytes), o.at, ContentOf(old(image[..]), append, fw, fw.memoryMap.value, o.at))
    ensures o.Started? ==>
      var s := SizesOf(ContentOf(old(image[..]), append, fw, fw.memoryMap.value, o.at), InitSize(old(image[..])));
      Disjoint(o.at, s) && Fits(s) ==> KernelFinds(ram.bytes, old(image[..]), append, fw, o.at)
  {
    hide Le, Room, BootimageSize, Payload, Ramdisk, Signed, Signature, SetupSize, FullCmdline, Tells, InitSize;
    hide WithCmdline, WithRamdisk, WithLoader, Patched, Disjoint, Fits, KernelFinds, EfiInfo, E820Of, E820.EncodeTable;
    hide Store, Handed, Loaded, CmdlinePlaced, RamdiskPlaced, KernelPlaced, KernelAt, HeaderOf;
    ghost var orig, m0 := image[..], ram.bytes;
    var h := HeaderOf(image[..]);
    var buf := h.pageSize;
    UntouchedIsPatched(orig);
    SignedAsComputed(image[..]);
    if Field(image[..], buf + BOOT_FLAG, 2) != 0xAA55 {
      return Failed(InvalidParameter);
    }
    if Field(image[..], buf + HEADER_MAGIC, 4) != 0x53726448 {
      return Failed(InvalidParameter);
    }
    var sigOffset := BootimageSize(h, false);
    if !fw.verify(image[..sigOffset], image[sigOffset..sigOffset + h.sigSize]) {
      return Failed(AccessDenied);
    }
    var ok := SetupCommandLine(image, ram, append, fw, orig);
    if !ok {
      return Failed(OutOfResources);
    }
    ghost var now := image[..];
    DecisionsKept(orig, buf, fw, fw.cmdlineAddr.value, |FullCmdline(orig, append)| + 1, 0, 0);
    assert RamdiskPlaced(now, buf, fw) == RamdiskPlaced(orig, buf, fw);
    ok := SetupRamdisk(image, ram, fw, orig);
    if !ok {
      return Failed(OutOfResources);
    }
    DecisionsKept(now, buf, fw, 0, 0, fw.ramdiskAddr.value, h.ramdiskSize);
    assert KernelPlaced(image[..], buf, fw) == KernelPlaced(orig, buf, fw);
    var failure, kernel := HandoverKernel(image, ram, fw, orig);
    if failure.Some? {
      return Failed(failure.value);
    }
    var at := Place(fw.cmdlineAddr.value, fw.ramdiskAddr.value, kernel, fw.paramsAddr.value, fw.gdtAddr.value);
    ghost var c := ContentOf(orig, append, fw, fw.memoryMap.value, at);
    ghost var s := SizesOf(c, InitSize(orig));
    AllLoaded(m0, at, c);
    FindsWhatFits(m0, orig, append, fw, at);
    return Started(at);
  }
}
