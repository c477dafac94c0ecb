/**
 * Conversion of the EFI memory map into the E820 map handed to the kernel
 * (common/bootimg/bootimg.c). E820 types are those of section 15.1 of the ACPI
 * Specification; EFI memory types those of section 7.2 of the UEFI Specification.
 */
module E820 {
  import opened Machine

  const PAGE_SIZE: nat := 4096

  // EFI_MEMORY_TYPE, in the order of the enumeration.
  datatype EfiType =
    | ReservedMemoryType | LoaderCode | LoaderData | BootServicesCode | BootServicesData
    | RuntimeServicesCode | RuntimeServicesData | ConventionalMemory | UnusableMemory
    | ACPIReclaimMemory | ACPIMemoryNVS | MemoryMappedIO | MemoryMappedIOPortSpace | PalCode
    | Other(code: nat)

  datatype E820Type = RAM | RESERVED | ACPI | NVS | UNUSABLE

  datatype Descriptor = Descriptor(ty: EfiType, start: nat, pages: nat)
  {
    function End(): nat { start + pages * 4096 }
  }

  datatype Entry = Entry(addr: nat, size: nat, ty: E820Type)

  function TypeOf(ty: EfiType): Option<E820Type>
  {
    match ty
    case ReservedMemoryType => Some(RESERVED)
    case RuntimeServicesCode => Some(RESERVED)
    case RuntimeServicesData => Some(RESERVED)
    case MemoryMappedIO => Some(RESERVED)
    case MemoryMappedIOPortSpace => Some(RESERVED)
    case PalCode => Some(RESERVED)
    case UnusableMemory => Some(UNUSABLE)
    case ACPIReclaimMemory => Some(ACPI)
    case LoaderCode => Some(RAM)
    case LoaderData => Some(RAM)
    case BootServicesCode => Some(RAM)
    case BootServicesData => Some(RAM)
    case ConventionalMemory => Some(RAM)
    case ACPIMemoryNVS => Some(NVS)
    case Other(_) => None
  }

  /** Which memory the kernel may use, must leave alone, or finds tables in. */
  lemma TypeTable(ty: EfiType)
    ensures TypeOf(ty) == Some(RAM) <==>
            ty in {LoaderCode, LoaderData, BootServicesCode, BootServicesData, ConventionalMemory}
    ensures TypeOf(ty) == Some(RESERVED) <==>
            ty in {ReservedMemoryType, RuntimeServicesCode, RuntimeServicesData, MemoryMappedIO,
                   MemoryMappedIOPortSpace, PalCode}
    ensures TypeOf(ty) == Some(ACPI) <==> ty == ACPIReclaimMemory
    ensures TypeOf(ty) == Some(NVS) <==> ty == ACPIMemoryNVS
    ensures TypeOf(ty) == Some(UNUSABLE) <==> ty == UnusableMemory
    ensures TypeOf(ty) == None <==> ty.Other?
  {
  }

  /** Firmware keeps every descriptor inside the 64-bit address space. */
  ghost predicate ValidMap(descs: seq<Descriptor>)
  {
    forall d | d in descs :: d.End() < TWO_64
  }

  // -------------------------------------------------------------- the code

  /** Whether the code merges a new region of type ty at addr into entry e; the sum is a UINT64. */
  predicate Merges(e: Entry, ty: E820Type, addr: nat)
  {
    e.ty == ty && Add64(e.addr, e.size) == addr
  }

  function Push(entries: seq<Entry>, e: Entry): (r: seq<Entry>)
    ensures |entries| <= |r| <= |entries| + 1
  {
    if entries != [] && Merges(entries[|entries| - 1], e.ty, e.addr) then
      var last := entries[|entries| - 1];
      entries[..|entries| - 1] + [last.(size := Add64(last.size, e.size))]
    else entries + [e]
  }

  /** The regions of the descriptors that have an E820 type, in order. */
  function Regions(descs: seq<Descriptor>): (r: seq<Entry>)
    ensures |r| <= |descs|
  {
    if descs == [] then []
    else
      var d := descs[|descs| - 1];
      var before := Regions(descs[..|descs| - 1]);
      match TypeOf(d.ty)
      case None => before
      case Some(ty) => before + [Entry(d.start, d.pages * PAGE_SIZE, ty)]
  }

  function Coalesce(regions: seq<Entry>): (r: seq<Entry>)
    ensures |r| <= |regions|
  {
    if regions == [] then []
    else Push(Coalesce(regions[..|regions| - 1]), regions[|regions| - 1])
  }

  /** The merge-or-append step, in place. */
  method PushEntry(map_: array<Entry>, n: nat, e: Entry) returns (n': nat)
    requires n <= map_.Length && |Push(map_[..n], e)| <= map_.Length
    modifies map_
    ensures n <= n' <= map_.Length && map_[..n'] == Push(old(map_[..n]), e)
    ensures map_[n'..] == old(map_[n'..])
  {
    if n > 0 && Merges(map_[n - 1], e.ty, e.addr) {
      map_[n - 1] := map_[n - 1].(size := Add64(map_[n - 1].size, e.size));
      return n;
    }
    map_[n] := e;
    return n + 1;
  }

  lemma EmptyMap()
    ensures Coalesce(Regions([])) == []
  {
  }

  /** The number of entries never shrinks as descriptors are added. */
  lemma {:induction false} CoalesceGrows(xs: seq<Descriptor>, ys: seq<Descriptor>)
    ensures |Coalesce(Regions(xs))| <= |Coalesce(Regions(xs + ys))|
    decreases |ys|
  {
    hide Push;
    if ys == [] {
      assert xs + ys == xs;
    } else {
      var front := ys[..|ys| - 1];
      var zs := xs + ys;
      assert zs[..|zs| - 1] == xs + front;
      CoalesceGrows(xs, front);
      var rs := Regions(xs + front);
      if TypeOf(zs[|zs| - 1].ty).Some? {
        assert Regions(zs)[..|Regions(zs)| - 1] == rs;
      }
    }
  }

  /** What one more descriptor does to the converted map. */
  lemma NextDescriptor(descs: seq<Descriptor>, i: nat)
    requires i < |descs|
    ensures var before, after := Coalesce(Regions(descs[..i])), Coalesce(Regions(descs[..i + 1]));
            && |after| <= |Coalesce(Regions(descs))|
            && match TypeOf(descs[i].ty)
               case None => after == before
               case Some(ty) => after == Push(before, Entry(descs[i].start, descs[i].pages * PAGE_SIZE, ty))
  {
    assert descs[..i + 1][..i] == descs[..i] && descs[..i + 1] + descs[i + 1..] == descs;
    CoalesceGrows(descs[..i + 1], descs[i + 1..]);
    var seen := Regions(descs[..i]);
    if TypeOf(descs[i].ty).Some? {
      var e := Entry(descs[i].start, descs[i].pages * PAGE_SIZE, TypeOf(descs[i].ty).value);
      assert Regions(descs[..i + 1]) == seen + [e];
      assert (seen + [e])[..|seen|] == seen;
    }
  }

  /**
   * The loop of `setup_e820_map`, filling the entry array of the boot parameters, which
   * must be large enough for the converted map; it never needs more than one entry a descriptor.
   */
  method SetupE820Map(descs: seq<Descriptor>, map_: array<Entry>) returns (n_page: nat)
    requires ValidMap(descs)
    requires |Coalesce(Regions(descs))| <= map_.Length
    modifies map_
    ensures n_page <= map_.Length && map_[..n_page] == Coalesce(Regions(descs))
    ensures map_[n_page..] == old(map_[n_page..])
  {
    hide Coalesce, Regions, Push;
    n_page := 0;
    EmptyMap();
    assert descs[..0] == [];
    var i := 0;
    while i < |descs|
      invariant 0 <= i <= |descs| && n_page <= map_.Length
      invariant map_[..n_page] == Coalesce(Regions(descs[..i]))
      invariant map_[n_page..] == old(map_[n_page..])
    {
      var d := descs[i];
      NextDescriptor(descs, i);
      var t := TypeOf(d.ty);
      if t.Some? {
        n_page := PushEntry(map_, n_page, Entry(d.start, d.pages * PAGE_SIZE, t.value));
      }
      i := i + 1;
    }
    assert descs[..i] == descs;
  }

  // -------------------------------------------------------------- meaning

  predicate Covers(e: Entry, a: nat, ty: E820Type)
  {
    e.ty == ty && e.addr <= a < e.addr + e.size
  }

  /** How many regions of type ty contain address a. */
  function CoverCount(es: seq<Entry>, a: nat, ty: E820Type): nat
  {
    if es == [] then 0
    else CoverCount(es[..|es| - 1], a, ty) + if Covers(es[|es| - 1], a, ty) then 1 else 0
  }

  function Bytes(es: seq<Entry>, ty: E820Type): nat
  {
    if es == [] then 0
    else Bytes(es[..|es| - 1], ty) + if es[|es| - 1].ty == ty then es[|es| - 1].size else 0
  }

  ghost predicate InRange(es: seq<Entry>)
  {
    forall e | e in es :: e.addr + e.size < TWO_64
  }

  lemma CoverLast(es: seq<Entry>, e: Entry, a: nat, ty: E820Type)
    ensures CoverCount(es + [e], a, ty) == CoverCount(es, a, ty) + if Covers(e, a, ty) then 1 else 0
    ensures Bytes(es + [e], ty) == Bytes(es, ty) + if e.ty == ty then e.size else 0
  {
    assert (es + [e])[..|es|] == es;
  }

  /** One step keeps, for every address, the number of regions over it, and the bytes of each type. */
  lemma PushMeaning(es: seq<Entry>, e: Entry, a: nat, ty: E820Type)
    requires InRange(es) && e.addr + e.size < TWO_64
    ensures InRange(Push(es, e))
    ensures CoverCount(Push(es, e), a, ty) == CoverCount(es + [e], a, ty)
    ensures Bytes(Push(es, e), ty) == Bytes(es + [e], ty)
  {
    if es != [] && Merges(es[|es| - 1], e.ty, e.addr) {
      var last := es[|es| - 1];
      var merged := last.(size := Add64(last.size, e.size));
      assert last in es && last.addr + last.size == e.addr && merged.size == last.size + e.size;
      var front := es[..|es| - 1];
      assert Push(es, e) == front + [merged] && es + [e] == front + [last] + [e];
      CoverLast(front, last, a, ty);
      CoverLast(front, merged, a, ty);
      CoverLast(front + [last], e, a, ty);
      assert forall x :: x in front ==> x in es;
    }
  }

  /** Every entry after a step is an old one, the new one, or the last one joined with it. */
  lemma PushMembers(es: seq<Entry>, e: Entry)
    requires InRange(es) && e.addr + e.size < TWO_64
    ensures forall x | x in Push(es, e) ::
      || x in es || x == e
      || (es != [] && var last := es[|es| - 1];
          last.ty == e.ty && last.addr + last.size == e.addr && x == last.(size := last.size + e.size))
  {
    if es != [] {
      assert es[|es| - 1] in es;
    }
  }

  /**
   * Main result: for every address and type, exactly as many output entries of that type
   * contain the address as input regions do; and each type keeps its number of bytes.
   */
  lemma {:induction false} CoalesceMeaning(rs: seq<Entry>, a: nat, ty: E820Type)
    requires InRange(rs)
    ensures InRange(Coalesce(rs))
    ensures CoverCount(Coalesce(rs), a, ty) == CoverCount(rs, a, ty)
    ensures Bytes(Coalesce(rs), ty) == Bytes(rs, ty)
  {
    hide Push, Covers;
    if rs != [] {
      var front, e := rs[..|rs| - 1], rs[|rs| - 1];
      CoalesceMeaning(front, a, ty);
      PushMeaning(Coalesce(front), e, a, ty);
      CoverLast(Coalesce(front), e, a, ty);
      assert front + [e] == rs;
      CoverLast(front, e, a, ty);
    }
  }

  lemma {:induction false} RegionsInRange(descs: seq<Descriptor>)
    requires ValidMap(descs)
    ensures InRange(Regions(descs))
  {
    if descs != [] {
      var d := descs[|descs| - 1];
      RegionsInRange(descs[..|descs| - 1]);
      assert d in descs;
    }
  }

  lemma {:induction false} CoveredBySome(es: seq<Entry>, a: nat, ty: E820Type)
    ensures CoverCount(es, a, ty) > 0 <==> exists e :: e in es && Covers(e, a, ty)
  {
    if es != [] {
      var front := es[..|es| - 1];
      CoveredBySome(front, a, ty);
      assert forall e :: e in es <==> e in front || e == es[|es| - 1];
    }
  }

  lemma {:induction false} RegionsOfDescriptors(descs: seq<Descriptor>, a: nat, ty: E820Type)
    ensures (exists e :: e in Regions(descs) && Covers(e, a, ty))
            <==> exists d :: d in descs && TypeOf(d.ty) == Some(ty) && d.start <= a < d.End()
  {
    if descs != [] {
      var front, d := descs[..|descs| - 1], descs[|descs| - 1];
      RegionsOfDescriptors(front, a, ty);
      assert forall x :: x in descs <==> x in front || x == d;
      if TypeOf(d.ty).Some? {
        var e := Entry(d.start, d.pages * PAGE_SIZE, TypeOf(d.ty).value);
        assert forall x :: x in Regions(descs) <==> x in Regions(front) || x == e;
        assert Covers(e, a, ty) <==> TypeOf(d.ty) == Some(ty) && d.start <= a < d.End();
      }
    }
  }

  /**
   * The converted map covers an address with a type if and only if a descriptor whose
   * EFI type maps to that type covers it.
   */
  lemma ConversionCoversSame(descs: seq<Descriptor>, a: nat, ty: E820Type)
    requires ValidMap(descs)
    ensures (exists e :: e in Coalesce(Regions(descs)) && Covers(e, a, ty))
            <==> exists d :: d in descs && TypeOf(d.ty) == Some(ty) && d.start <= a < d.End()
  {
    var rs := Regions(descs);
    RegionsInRange(descs);
    CoalesceMeaning(rs, a, ty);
    CoveredBySome(Coalesce(rs), a, ty);
    CoveredBySome(rs, a, ty);
    RegionsOfDescriptors(descs, a, ty);
  }

  // -------------------------------------------------------------- order and overlap

  /** Each region ends at or before the start of every later one: sorted and disjoint. */
  ghost predicate Ordered(es: seq<Entry>)
  {
    forall i, j | 0 <= i < j < |es| :: es[i].addr + es[i].size <= es[j].addr
  }

  predicate Apart(r: Entry, e: Entry)
  {
    r.addr + r.size <= e.addr || e.addr + e.size <= r.addr
  }

  ghost predicate Disjoint(es: seq<Entry>)
  {
    forall i, j | 0 <= i < j < |es| :: Apart(es[i], es[j])
  }

  /** Coalescing regions that end at or below a bound stays at or below it. */
  lemma {:induction false} CoalesceBelow(rs: seq<Entry>, bound: nat)
    requires InRange(rs) && forall r | r in rs :: r.addr + r.size <= bound
    ensures InRange(Coalesce(rs)) && forall r | r in Coalesce(rs) :: r.addr + r.size <= bound
  {
    hide Push;
    if rs != [] {
      var front, l := rs[..|rs| - 1], rs[|rs| - 1];
      assert l in rs && forall x :: x in front ==> x in rs;
      CoalesceBelow(front, bound);
      PushMembers(Coalesce(front), l);
    }
  }

  /** Coalescing non-empty regions that lie apart from a non-empty one keeps them apart from it. */
  lemma {:induction false} CoalesceApart(rs: seq<Entry>, e: Entry)
    requires InRange(rs) && e.size > 0 && forall r | r in rs :: r.size > 0 && Apart(r, e)
    ensures InRange(Coalesce(rs)) && forall r | r in Coalesce(rs) :: r.size > 0 && Apart(r, e)
  {
    hide Push;
    if rs != [] {
      var front, l := rs[..|rs| - 1], rs[|rs| - 1];
      assert l in rs && forall x :: x in front ==> x in rs;
      CoalesceApart(front, e);
      PushMembers(Coalesce(front), l);
    }
  }

  lemma OrderedStep(es: seq<Entry>, e: Entry)
    requires InRange(es) && Ordered(es) && e.addr + e.size < TWO_64
    requires forall r | r in es :: r.addr + r.size <= e.addr
    ensures Ordered(Push(es, e))
  {
    forall i | 0 <= i < |es|
      ensures es[i].addr + es[i].size <= e.addr
    {
      assert es[i] in es;
    }
  }

  /** A sorted, disjoint map stays sorted and disjoint. */
  lemma {:induction false} CoalesceOrdered(rs: seq<Entry>)
    requires InRange(rs) && Ordered(rs)
    ensures Ordered(Coalesce(rs))
  {
    hide Push;
    if rs != [] {
      var front, e := rs[..|rs| - 1], rs[|rs| - 1];
      CoalesceOrdered(front);
      assert forall x :: x in front ==> x in rs;
      assert forall r | r in front :: r.addr + r.size <= e.addr;
      CoalesceBelow(front, e.addr);
      OrderedStep(Coalesce(front), e);
    }
  }

  /** Starts do not decrease; regions may overlap. */
  ghost predicate Sorted(es: seq<Entry>)
  {
    forall i, j | 0 <= i < j < |es| :: es[i].addr <= es[j].addr
  }

  lemma {:induction false} CoalesceStartsBelow(rs: seq<Entry>, bound: nat)
    requires forall i | 0 <= i < |rs| :: rs[i].addr <= bound
    ensures forall i | 0 <= i < |Coalesce(rs)| :: Coalesce(rs)[i].addr <= bound
  {
    if rs != [] {
      CoalesceStartsBelow(rs[..|rs| - 1], bound);
    }
  }

  /** A sorted map stays sorted, even if its regions overlap. */
  lemma {:induction false} CoalesceSorted(rs: seq<Entry>)
    requires Sorted(rs)
    ensures Sorted(Coalesce(rs))
  {
    hide Merges;
    if rs != [] {
      var front, e := rs[..|rs| - 1], rs[|rs| - 1];
      CoalesceSorted(front);
      CoalesceStartsBelow(front, e.addr);
    }
  }

  lemma DisjointStep(es: seq<Entry>, e: Entry)
    requires InRange(es) && Disjoint(es) && e.addr + e.size < TWO_64 && e.size > 0
    requires forall r | r in es :: r.size > 0 && Apart(r, e)
    ensures Disjoint(Push(es, e))
  {
    forall i | 0 <= i < |es|
      ensures es[i].size > 0 && Apart(es[i], e) && es[i].addr + es[i].size < TWO_64
    {
      assert es[i] in es;
    }
  }

  /** A disjoint map, in any order, of non-empty regions stays disjoint. */
  lemma {:induction false} CoalesceDisjoint(rs: seq<Entry>)
    requires InRange(rs) && Disjoint(rs) && forall r | r in rs :: r.size > 0
    ensures Disjoint(Coalesce(rs))
  {
    if rs != [] {
      var front, e := rs[..|rs| - 1], rs[|rs| - 1];
      CoalesceDisjoint(front);
      assert e in rs && forall x :: x in front ==> x in rs;
      forall r | r in front
        ensures Apart(r, e)
      {
        var i :| 0 <= i < |front| && front[i] == r;
        assert Apart(rs[i], rs[|rs| - 1]);
      }
      CoalesceApart(front, e);
      DisjointStep(Coalesce(front), e);
    }
  }

  // -------------------------------------------------------------- normal form

  ghost predicate NormalForm(es: seq<Entry>)
  {
    forall i | 0 < i < |es| :: !Merges(es[i - 1], es[i].ty, es[i].addr)
  }

  lemma NormalStep(es: seq<Entry>, e: Entry)
    requires InRange(es) && NormalForm(es) && e.addr + e.size < TWO_64
    ensures NormalForm(Push(es, e))
  {
    if es != [] {
      assert es[|es| - 1] in es;
    }
  }

  /** No two consecutive entries have the same type and touch. */
  lemma {:induction false} CoalesceNormal(rs: seq<Entry>)
    requires InRange(rs)
    ensures NormalForm(Coalesce(rs))
  {
    hide Push, Merges;
    if rs != [] {
      var front, e := rs[..|rs| - 1], rs[|rs| - 1];
      CoalesceNormal(front);
      CoalesceMeaning(front, 0, RAM);
      NormalStep(Coalesce(front), e);
    }
  }

  lemma {:induction false} NormalIsFixed(es: seq<Entry>)
    requires NormalForm(es)
    ensures Coalesce(es) == es
  {
    if es != [] {
      NormalIsFixed(es[..|es| - 1]);
    }
  }

  /** Coalescing an already coalesced map changes nothing. */
  lemma CoalesceIdempotent(rs: seq<Entry>)
    requires InRange(rs)
    ensures Coalesce(Coalesce(rs)) == Coalesce(rs)
  {
    CoalesceNormal(rs);
    NormalIsFixed(Coalesce(rs));
  }

  // -------------------------------------------------------------- as the kernel reads it

  const ENTRY_SIZE: nat := 20

  function Code(ty: E820Type): (r: nat)
    ensures 1 <= r <= 5
  {
    match ty case RAM => 1 case RESERVED => 2 case ACPI => 3 case NVS => 4 case UNUSABLE => 5
  }

  function OfCode(code: nat): E820Type
  {
    if code == 1 then RAM else if code == 3 then ACPI else if code == 4 then NVS else if code == 5 then UNUSABLE
    else RESERVED
  }

  /** An entry in memory: address and size of eight bytes each, and a type of four. */
  function Encode(e: Entry): (r: seq<byte>)
    ensures |r| == ENTRY_SIZE
  {
    Put(e.addr, 8) + Put(e.size, 8) + Put(Code(e.ty), 4)
  }

  function EncodeTable(es: seq<Entry>): (r: seq<byte>)
    ensures |r| == ENTRY_SIZE * |es|
  {
    if es == [] then [] else Encode(es[0]) + EncodeTable(es[1..])
  }

  function Decode(bytes: seq<byte>): Entry
    requires |bytes| == ENTRY_SIZE
  {
    Entry(Field(bytes, 0, 8), Field(bytes, 8, 8), OfCode(Field(bytes, 16, 4)))
  }

  /** The first n entries of a table in memory. */
  function ReadTable(bytes: seq<byte>, n: nat): (r: seq<Entry>)
    requires ENTRY_SIZE * n <= |bytes|
    ensures |r| == n
    decreases n
  {
    if n == 0 then [] else [Decode(bytes[..ENTRY_SIZE])] + ReadTable(bytes[ENTRY_SIZE..], n - 1)
  }

  /** An entry of 20 bytes: address, size, and the number of its type. */
  lemma EntryBytes(e: Entry)
    ensures Encode(e)[0..8] == Put(e.addr, 8) && Encode(e)[8..16] == Put(e.size, 8)
    ensures Encode(e)[16..20] ==
            [match e.ty case RAM => 1 case RESERVED => 2 case ACPI => 3 case NVS => 4 case UNUSABLE => 5, 0, 0, 0]
  {
    assert Put(0, 3) == [0] + Put(0, 2) && Put(0, 2) == [0] + Put(0, 1);
    assert Put(Code(e.ty), 4) == [Code(e.ty) % 0x100] + Put(0, 3);
  }

  lemma DecodeInverse(e: Entry)
    requires e.addr < TWO_64 && e.size < TWO_64
    ensures Decode(Encode(e)) == e
  {
    Ranges();
    hide Put, Le, Range;
    PutRoundTrip(e.addr, 8);
    PutRoundTrip(e.size, 8);
    PutRoundTrip(Code(e.ty), 4);
    var b := Encode(e);
    assert b[0..8] == Put(e.addr, 8) && b[8..16] == Put(e.size, 8) && b[16..20] == Put(Code(e.ty), 4);
  }

  lemma {:induction false} TableRoundTrip(es: seq<Entry>, rest: seq<byte>)
    requires InRange(es)
    ensures ReadTable(EncodeTable(es) + rest, |es|) == es
    decreases |es|
  {
    hide Encode, Decode;
    if es != [] {
      var table := EncodeTable(es) + rest;
      assert es[0] in es && forall x | x in es[1..] :: x in es;
      assert table[..ENTRY_SIZE] == Encode(es[0]);
      assert table[ENTRY_SIZE..] == EncodeTable(es[1..]) + rest;
      DecodeInverse(es[0]);
      TableRoundTrip(es[1..], rest);
    }
  }

  /** The count of entries goes into one byte. */
  function Announced(n: nat): byte
  {
    n % 256
  }

  /**
   * Reading as many entries as the count announces gives the whole map if and only if the
   * map has fewer than 256 entries.
   */
  lemma AnnouncedIff(es: seq<Entry>, rest: seq<byte>)
    requires InRange(es)
    ensures ReadTable(EncodeTable(es) + rest, Announced(|es|)) == es <==> |es| < 256
  {
    if |es| < 256 {
      TableRoundTrip(es, rest);
    }
  }

  /** n one-page descriptors of alternating kind. */
  function Alternating(n: nat): (r: seq<Descriptor>)
    ensures |r| == n
  {
    if n == 0 then []
    else Alternating(n - 1) + [Descriptor(if n % 2 == 0 then ConventionalMemory else MemoryMappedIO, n * PAGE_SIZE, 1)]
  }

  lemma DifferentTypes(es: seq<Entry>, e: Entry)
    requires es != [] ==> es[|es| - 1].ty != e.ty
    ensures Push(es, e) == es + [e]
  {
  }

  lemma {:induction false} AlternatingRegions(n: nat)
    ensures |Coalesce(Regions(Alternating(n)))| == n
    ensures n > 0 ==> Coalesce(Regions(Alternating(n)))[n - 1].ty == (if n % 2 == 0 then RAM else RESERVED)
  {
    hide Push, Coalesce, Regions;
    EmptyMap();
    if n > 0 {
      AlternatingRegions(n - 1);
      var descs := Alternating(n);
      var d := descs[n - 1];
      assert descs[..n - 1] == Alternating(n - 1) && descs[..n] == descs;
      NextDescriptor(descs, n - 1);
      DifferentTypes(Coalesce(Regions(Alternating(n - 1))), Entry(d.start, d.pages * PAGE_SIZE, TypeOf(d.ty).value));
    }
  }

  lemma {:induction false} AlternatingValid(n: nat)
    requires n < TWO_32
    ensures ValidMap(Alternating(n))
  {
    if n > 0 {
      AlternatingValid(n - 1);
    }
  }

  /** A map of 256 entries is announced as empty. */
  lemma AnnouncedEmptyWitness()
    ensures ValidMap(Alternating(256))
    ensures |Coalesce(Regions(Alternating(256)))| == 256 && Announced(256) == 0
  {
    AlternatingRegions(256);
    AlternatingValid(256);
  }
}
