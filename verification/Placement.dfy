/**
 * What the loader puts into memory before it enters the kernel (common/bootimg/bootimg.c),
 * and when all of it is still there at the jump.
 */
module Placement {
  import opened Machine
  import opened Memory
  import Emalloc

  const PARAMS_SIZE := 16384
  const CODE32 := 0x214
  const EFI_INFO := 0x1c0
  const EFI_INFO_SIZE := 24
  const E820_ENTRIES := 0x1e8
  const E820_MAP := 0x2d0
  const HEADER_SIZE := 1024
  const GDT_SIZE := 0x800

  /** Where the parts go; 0 is a command line that was not placed. */
  datatype Place = Place(cmdline: nat, ramdisk: nat, kernel: nat, params: nat, gdt: nat)

  /** What goes there: `header` starts the boot parameters, `efi`, `table` and `count` are written into them later. */
  datatype Content = Content(
    cmdline: seq<byte>,
    ramdisk: seq<byte>,
    kernel: seq<byte>,
    header: seq<byte>,
    efi: seq<byte>,
    table: seq<byte>,
    count: byte)
  {
    predicate Valid()
    {
      |header| == HEADER_SIZE && |efi| == EFI_INFO_SIZE
    }
  }

  function Zeros(n: nat): (r: seq<byte>)
    ensures |r| == n && forall i | 0 <= i < n :: r[i] == 0
  {
    seq<byte>(n, (i: nat) => 0)
  }

  /** The descriptor table: code, data and task segments in entries 2 to 4. */
  function Gdt(): (r: seq<byte>)
    ensures |r| == GDT_SIZE && r[0] == 0
  {
    Zeros(16) + Put(0x00cf_9a00_0000_ffff, 8) + Put(0x00cf_9200_0000_ffff, 8) + Put(0x0080_8900_0000_0000, 8)
    + Zeros(GDT_SIZE - 40)
  }

  /** Entries 2 to 4 of the table: flat code and data segments of 4 GB, and a task segment. */
  lemma GdtEntries()
    ensures Field(Gdt(), 16, 8) == 0x00cf_9a00_0000_ffff
    ensures Field(Gdt(), 24, 8) == 0x00cf_9200_0000_ffff
    ensures Field(Gdt(), 32, 8) == 0x0080_8900_0000_0000
  {
    Ranges();
    hide Put, Le, Zeros, Range;
    PutRoundTrip(0x00cf_9a00_0000_ffff, 8);
    PutRoundTrip(0x00cf_9200_0000_ffff, 8);
    PutRoundTrip(0x0080_8900_0000_0000, 8);
    assert Gdt()[16..24] == Put(0x00cf_9a00_0000_ffff, 8);
    assert Gdt()[24..32] == Put(0x00cf_9200_0000_ffff, 8);
    assert Gdt()[32..40] == Put(0x0080_8900_0000_0000, 8);
  }

  /** The copies `handover_kernel` makes, in its order. */
  function Handed(m: Mem, at: Place, c: Content): Mem
  {
    var m := Store(m, at.kernel, c.kernel);
    var m := Store(m, at.params, Zeros(PARAMS_SIZE));
    var m := Store(m, at.params, c.header);
    var m := Store(m, at.params + CODE32, Put(at.kernel, 4));
    var m := Store(m, at.gdt, Gdt());
    var m := Store(m, at.params + EFI_INFO, c.efi);
    var m := Store(m, at.params + E820_MAP, c.table);
    Store(m, at.params + E820_ENTRIES, [c.count])
  }

  /** Command line and ramdisk come first. */
  function Loaded(m: Mem, at: Place, c: Content): Mem
  {
    var m := if at.cmdline != 0 then Store(m, at.cmdline, c.cmdline) else m;
    Handed(Store(m, at.ramdisk, c.ramdisk), at, c)
  }

  /** Byte i of the boot parameters as they are meant to be. */
  function ParamByte(c: Content, kernel: nat, i: nat): byte
    requires c.Valid()
  {
    if i == E820_ENTRIES then c.count
    else if E820_MAP <= i < E820_MAP + |c.table| then c.table[i - E820_MAP]
    else if EFI_INFO <= i < EFI_INFO + EFI_INFO_SIZE then c.efi[i - EFI_INFO]
    else if CODE32 <= i < CODE32 + 4 then Put(kernel, 4)[i - CODE32]
    else if i < HEADER_SIZE then c.header[i]
    else 0
  }

  function Params(c: Content, kernel: nat): (r: seq<byte>)
    requires c.Valid()
    ensures |r| == PARAMS_SIZE && forall i: nat | i < PARAMS_SIZE :: r[i] == ParamByte(c, kernel, i)
  {
    seq<byte>(PARAMS_SIZE, (i: nat) => ParamByte(c, kernel, i))
  }

  /** Every part is in memory as it was meant to be. */
  ghost predicate Intact(m: Mem, at: Place, c: Content)
    requires c.Valid()
  {
    && (at.cmdline != 0 ==> Load(m, at.cmdline, |c.cmdline|) == c.cmdline)
    && Load(m, at.ramdisk, |c.ramdisk|) == c.ramdisk
    && Load(m, at.kernel, |c.kernel|) == c.kernel
    && Load(m, at.params, PARAMS_SIZE) == Params(c, at.kernel)
    && Load(m, at.gdt, GDT_SIZE) == Gdt()
  }

  /** Lengths of the parts, and `init`, the size for which the kernel's pages are allocated. */
  datatype Sizes = Sizes(cmdline: nat, ramdisk: nat, kernel: nat, init: nat, table: nat)

  function SizesOf(c: Content, init: nat): Sizes
  {
    Sizes(|c.cmdline|, |c.ramdisk|, |c.kernel|, init, |c.table|)
  }

  /** Bytes of the pages allocated for a size. */
  function Allocated(size: nat): (r: nat)
    ensures size <= r
  {
    Emalloc.SizeToPages(size) * Emalloc.PAGE_SIZE
  }

  /** The firmware hands out pages that do not overlap. */
  predicate Disjoint(at: Place, s: Sizes)
  {
    var cmdline := if at.cmdline != 0 then Allocated(s.cmdline) else 0;
    var ramdisk, kernel := Allocated(s.ramdisk), Allocated(s.init);
    && (at.cmdline != 0 ==>
        && Apart(at.cmdline, cmdline, at.ramdisk, ramdisk) && Apart(at.cmdline, cmdline, at.kernel, kernel)
        && Apart(at.cmdline, cmdline, at.params, PARAMS_SIZE)
        && Apart(at.cmdline, cmdline, at.gdt, Allocated(GDT_SIZE)))
    && Apart(at.ramdisk, ramdisk, at.kernel, kernel) && Apart(at.ramdisk, ramdisk, at.params, PARAMS_SIZE)
    && Apart(at.ramdisk, ramdisk, at.gdt, Allocated(GDT_SIZE))
    && Apart(at.kernel, kernel, at.params, PARAMS_SIZE) && Apart(at.kernel, kernel, at.gdt, Allocated(GDT_SIZE))
    && Apart(at.params, PARAMS_SIZE, at.gdt, Allocated(GDT_SIZE))
  }

  /** The kernel fits the pages its own header asks for, and the memory map the boot parameters' pages. */
  predicate Fits(s: Sizes)
  {
    s.kernel <= Allocated(s.init) && E820_MAP + s.table <= PARAMS_SIZE
  }

  lemma HandedElsewhere(m: Mem, at: Place, c: Content, a: nat, n: nat)
    requires c.Valid()
    requires Apart(at.kernel, |c.kernel|, a, n) && Apart(at.params, PARAMS_SIZE, a, n) && Apart(at.gdt, GDT_SIZE, a, n)
    requires E820_MAP + |c.table| <= PARAMS_SIZE
    ensures Load(Handed(m, at, c), a, n) == Load(m, a, n)
  {
    hide Gdt, Put, Zeros;
    var before, after := Load(m, a, n), Load(Handed(m, at, c), a, n);
    forall i: nat | i < n
      ensures after[i] == before[i]
    {
      assert after[i] == Handed(m, at, c)(a + i);
    }
  }

  lemma HandedParts(m: Mem, at: Place, c: Content)
    requires c.Valid() && E820_MAP + |c.table| <= PARAMS_SIZE
    requires Apart(at.kernel, |c.kernel|, at.params, PARAMS_SIZE) && Apart(at.kernel, |c.kernel|, at.gdt, GDT_SIZE)
    requires Apart(at.params, PARAMS_SIZE, at.gdt, GDT_SIZE)
    ensures Load(Handed(m, at, c), at.kernel, |c.kernel|) == c.kernel
    ensures Load(Handed(m, at, c), at.params, PARAMS_SIZE) == Params(c, at.kernel)
    ensures Load(Handed(m, at, c), at.gdt, GDT_SIZE) == Gdt()
  {
    hide Gdt, Put, Zeros;
    var h := Handed(m, at, c);
    assert forall i: nat | i < |c.kernel| :: h(at.kernel + i) == c.kernel[i];
    assert forall i: nat | i < GDT_SIZE :: h(at.gdt + i) == Gdt()[i];
    assert forall i: nat | i < PARAMS_SIZE :: h(at.params + i) == ParamByte(c, at.kernel, i);
  }

  /** If kernel and memory map fit, everything loaded is there when the kernel is entered. */
  lemma FitsIsIntact(m: Mem, at: Place, c: Content, init: nat)
    requires c.Valid() && Disjoint(at, SizesOf(c, init)) && Fits(SizesOf(c, init))
    ensures Intact(Loaded(m, at, c), at, c)
  {
    hide Handed, Gdt, Params;
    assert Allocated(GDT_SIZE) == 4096;
    var m1 := if at.cmdline != 0 then Store(m, at.cmdline, c.cmdline) else m;
    var m2 := Store(m1, at.ramdisk, c.ramdisk);
    HandedParts(m2, at, c);
    HandedElsewhere(m2, at, c, at.ramdisk, |c.ramdisk|);
    LoadStored(m1, at.ramdisk, c.ramdisk);
    if at.cmdline != 0 {
      HandedElsewhere(m2, at, c, at.cmdline, |c.cmdline|);
      LoadApart(m1, at.ramdisk, c.ramdisk, at.cmdline, |c.cmdline|);
      LoadStored(m, at.cmdline, c.cmdline);
    }
  }

  function Ones(n: nat): (r: seq<byte>)
    ensures |r| == n && forall i | 0 <= i < n :: r[i] == 1
  {
    seq<byte>(n, (i: nat) => 1)
  }

  /** Contents of given sizes that tell overwritten bytes apart. */
  function Marked(s: Sizes): (c: Content)
    ensures c.Valid() && SizesOf(c, s.init) == s
  {
    Content(Zeros(s.cmdline), Zeros(s.ramdisk), Ones(s.kernel), Zeros(HEADER_SIZE), Zeros(EFI_INFO_SIZE),
            Ones(s.table), 0)
  }

  /** Everything one after the other: kernel, boot parameters, descriptor table, ramdisk, command line. */
  function InARow(s: Sizes): (at: Place)
    ensures Disjoint(at, s) && at.params == at.kernel + Allocated(s.init) && at.gdt == at.params + PARAMS_SIZE
  {
    var kernel := 0x10_0000;
    var params := kernel + Allocated(s.init);
    var gdt := params + PARAMS_SIZE;
    var ramdisk := gdt + Allocated(GDT_SIZE);
    Place(ramdisk + Allocated(s.ramdisk), ramdisk, kernel, params, gdt)
  }

  lemma TooLargeIsNotIntact(m: Mem, s: Sizes)
    requires !Fits(s)
    ensures !Intact(Loaded(m, InARow(s), Marked(s)), InARow(s), Marked(s))
  {
    hide Gdt, Put, Allocated;
    var at, c := InARow(s), Marked(s);
    var l := Loaded(m, at, c);
    if s.kernel > Allocated(s.init) {
      assert l(at.params) == 0;
      assert Load(l, at.kernel, s.kernel)[Allocated(s.init)] == 0;
    } else {
      assert l(at.gdt) == c.table[PARAMS_SIZE - E820_MAP] == 1;
      assert Load(l, at.gdt, GDT_SIZE)[0] == 1;
    }
  }

  /**
   * Main result: for parts of given sizes, everything loaded survives until the kernel is
   * entered, whatever its contents and wherever the firmware places it, if and only if the
   * kernel fits the pages allocated for it and the memory map those of the boot parameters.
   */
  lemma IntactIff(s: Sizes)
    ensures (forall m: Mem, at: Place, c: Content | c.Valid() && SizesOf(c, s.init) == s && Disjoint(at, s) ::
               Intact(Loaded(m, at, c), at, c))
            <==> Fits(s)
  {
    hide Loaded, Intact, Disjoint, Fits;
    if Fits(s) {
      forall m: Mem, at: Place, c: Content | c.Valid() && SizesOf(c, s.init) == s && Disjoint(at, s)
        ensures Intact(Loaded(m, at, c), at, c)
      {
        FitsIsIntact(m, at, c, s.init);
      }
    } else {
      var m: Mem := (a: nat) => 0;
      TooLargeIsNotIntact(m, s);
    }
  }
}
