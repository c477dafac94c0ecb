/**
 * `emalloc` (common/uefi_utils.c): aligned first fit over the EFI memory map, on IA32.
 * Addresses are UINT64; sizes and alignments are UINTN, 32 bits wide.
 */
module Emalloc {
  import opened Machine

  const PAGE_SIZE: nat := 4096
  const ONE_MB: nat := 0x10_0000

  datatype Status = Success | OutOfResources | MapError

  datatype Descriptor = Descriptor(conventional: bool, start: nat, pages: nat)
  {
    function End(): nat { start + pages * 4096 }

    /** Page-aligned and, as x86 has it, below 2^52. */
    predicate Valid()
    {
      start % PAGE_SIZE == 0 && End() <= 0x10_0000_0000_0000
    }
  }

  /** EFI_SIZE_TO_PAGES. */
  function SizeToPages(size: nat): (r: nat)
    ensures size > 0 ==> r > 0
  {
    size / PAGE_SIZE + if size % PAGE_SIZE != 0 then 1 else 0
  }

  /** Powers of two, by doubling. */
  predicate PowerOfTwo(x: nat): (r: bool)
    ensures r ==> x > 0
  {
    x == 1 || (x > 1 && x % 2 == 0 && PowerOfTwo(x / 2))
  }

  function AlignDown(x: nat, align: nat): (r: nat)
    requires align > 0
    ensures r <= x < r + align
  {
    x - Rem(x, align)
  }

  /**
   * `(start + align - 1) & ~(align - 1)` for a power of two: the complement is taken in
   * 32 bits, so the mask also clears the upper half of the address.
   */
  function Aligned(start: nat, align: nat): nat
    requires align > 0
  {
    AlignDown(start + align - 1, align) % TWO_32
  }

  /** The first address at or above start that the alignment allows. */
  function AlignUp(start: nat, align: nat): nat
    requires align > 0
  {
    AlignDown(start + align - 1, align)
  }

  /** The address the code would try in this descriptor, if its tests pass, and the size it goes on with. */
  function Candidate(d: Descriptor, size: nat, pages: nat, align: nat): (Option<nat>, nat)
    requires align > 0
  {
    if !d.conventional || d.pages < pages || d.End() <= ONE_MB then (None, size)
    else
      var size' := if d.start < ONE_MB then (size - (ONE_MB - d.start)) % TWO_32 else size;
      var start := if d.start < ONE_MB then ONE_MB else d.start;
      var aligned := Aligned(start, align);
      (if Add64(aligned, size') <= d.End() then Some(aligned) else None, size')
  }

  /** First descriptor from i on whose candidate the firmware grants. */
  function FirstFit(descs: seq<Descriptor>, grants: (nat, nat) -> bool, i: nat, size: nat, pages: nat,
      align: nat): Option<nat>
    requires align > 0 && i <= |descs|
    decreases |descs| - i
  {
    if i == |descs| then None
    else
      var (c, size') := Candidate(descs[i], size, pages, align);
      if c.Some? && grants(i, c.value) then c
      else FirstFit(descs, grants, i + 1, size', pages, align)
  }

  /**
   * `grants(i, a)` is the firmware's answer to allocating the pages at a while looking at
   * descriptor i; the memory map is None if it could not be read.
   */
  method Allocate(map_: Option<seq<Descriptor>>, grants: (nat, nat) -> bool, size0: nat, align: nat)
    returns (st: Status, addr: nat)
    requires align > 0 && size0 < TWO_32
    ensures map_.None? ==> st == MapError
    ensures map_.Some? ==>
      match FirstFit(map_.value, grants, 0, size0, SizeToPages(size0), align)
      case Some(a) => st == Success && addr == a
      case None => st == OutOfResources
  {
    addr := 0;
    if map_.None? {
      return MapError, 0;
    }
    var descs := map_.value;
    var pages := SizeToPages(size0);
    var size: nat := size0;
    var d := 0;
    while d < |descs|
      invariant 0 <= d <= |descs|
      invariant FirstFit(descs, grants, d, size, pages, align) == FirstFit(descs, grants, 0, size0, pages, align)
    {
      var desc := descs[d];
      if desc.conventional && desc.pages >= pages && desc.End() > ONE_MB {
        var start := desc.start;
        if start < ONE_MB {
          size := (size - (ONE_MB - start)) % TWO_32;
          start := ONE_MB;
        }
        var aligned := Aligned(start, align);
        if Add64(aligned, size) <= desc.End() && grants(d, aligned) {
          return Success, aligned;
        }
      }
      d := d + 1;
    }
    return OutOfResources, 0;
  }

  // ------------------------------------------------------------ arithmetic of alignment

  lemma {:induction false} AlignDownIsMultiple(x: nat, align: nat)
    requires align > 0
    ensures Rem(AlignDown(x, align), align) == 0
    decreases x
  {
    if x >= align {
      AlignDownIsMultiple(x - align, align);
      assert AlignDown(x, align) == AlignDown(x - align, align) + align;
    }
  }

  /** A multiple of align that start already is stays put. */
  lemma {:induction false} AlignUpFixed(start: nat, align: nat)
    requires align > 0 && Rem(start, align) == 0
    ensures AlignUp(start, align) == start
    decreases start
  {
    if start >= align {
      AlignUpFixed(start - align, align);
      assert AlignUp(start, align) == AlignUp(start - align, align) + align;
    }
  }

  lemma {:induction false} AlignDownMonotone(x: nat, y: nat, align: nat)
    requires align > 0 && x <= y
    ensures AlignDown(x, align) <= AlignDown(y, align)
    decreases y
  {
    if x >= align {
      AlignDownMonotone(x - align, y - align, align);
      assert AlignDown(x, align) == AlignDown(x - align, align) + align;
      assert AlignDown(y, align) == AlignDown(y - align, align) + align;
    }
  }

  /** AlignUp is the least multiple of align at or above start. */
  lemma AlignUpLeast(start: nat, align: nat, a: nat)
    requires align > 0 && a >= start && Rem(a, align) == 0
    ensures start <= AlignUp(start, align) <= a
    decreases a
  {
    AlignUpFixed(a, align);
    AlignDownMonotone(start + align - 1, a + align - 1, align);
  }

  /** A multiple of a multiple is a multiple. */
  lemma {:induction false} RemTransitive(x: nat, a: nat, b: nat)
    requires a > 0 && b > 0 && Rem(x, a) == 0 && Rem(a, b) == 0
    ensures Rem(x, b) == 0
    decreases x
  {
    if x >= a {
      RemTransitive(x - a, a, b);
      RemSum(x - a, a, b);
    }
  }

  lemma {:induction false} RemDouble(x: nat, y: nat)
    requires y > 0
    ensures Rem(2 * x, 2 * y) == 2 * Rem(x, y)
    decreases x
  {
    if x >= y {
      RemDouble(x - y, y);
    }
  }

  lemma {:induction false} RemOne(x: nat)
    ensures Rem(x, 1) == 0
  {
    if x > 0 {
      RemOne(x - 1);
    }
  }

  /** Of two powers of two the smaller divides the larger. */
  lemma {:induction false} PowersDivide(a: nat, b: nat)
    requires PowerOfTwo(a) && PowerOfTwo(b) && a <= b
    ensures Rem(b, a) == 0
    decreases a
  {
    if a == 1 {
      RemOne(b);
    } else {
      PowersDivide(a / 2, b / 2);
      RemDouble(b / 2, a / 2);
    }
  }

  function Pow(n: nat): nat
  {
    if n == 0 then 1 else 2 * Pow(n - 1)
  }

  lemma {:induction false} PowIsPower(n: nat)
    ensures PowerOfTwo(Pow(n))
  {
    if n > 0 {
      PowIsPower(n - 1);
    }
  }

  lemma PowersOfInterest()
    ensures PowerOfTwo(PAGE_SIZE) && PowerOfTwo(TWO_32)
  {
    PowIsPower(12);
    PowIsPower(32);
    assert Pow(12) == PAGE_SIZE;
    assert Pow(16) == 0x1_0000;
    assert Pow(20) == 0x10_0000;
    assert Pow(24) == 0x100_0000;
    assert Pow(28) == 0x1000_0000;
    assert Pow(32) == TWO_32;
  }

  /** Aligning a page boundary gives a page boundary, whatever the power of two. */
  lemma AlignUpKeepsPages(start: nat, align: nat)
    requires PowerOfTwo(align) && start % PAGE_SIZE == 0
    ensures AlignUp(start, align) % PAGE_SIZE == 0
  {
    hide PowerOfTwo, Rem, AlignDown;
    PowersOfInterest();
    RemIsRemainder(start, PAGE_SIZE);
    AlignDownIsMultiple(start + align - 1, align);
    if align >= PAGE_SIZE {
      PowersDivide(PAGE_SIZE, align);
      RemTransitive(AlignUp(start, align), align, PAGE_SIZE);
      RemIsRemainder(AlignUp(start, align), PAGE_SIZE);
    } else {
      PowersDivide(align, PAGE_SIZE);
      RemTransitive(start, PAGE_SIZE, align);
      AlignUpFixed(start, align);
    }
  }

  /** With both ends on page boundaries, a size fits exactly when its pages do. */
  lemma BytesFitIffPagesFit(a: nat, size: nat, end: nat)
    requires a % PAGE_SIZE == 0 && end % PAGE_SIZE == 0
    ensures a + size <= end <==> a + SizeToPages(size) * PAGE_SIZE <= end
  {
  }

  // ------------------------------------------------------------ sound and complete

  /** Conventional memory starts at or above 1 MB, and its first aligned address lies below 4 GB. */
  predicate Plain(d: Descriptor, align: nat)
  {
    d.conventional && d.End() > ONE_MB ==> d.start >= ONE_MB && d.start + align <= TWO_32
  }

  /** The block [a, a + pages) is aligned, above 1 MB and inside a conventional descriptor. */
  predicate Placed(d: Descriptor, a: nat, pages: nat, align: nat)
    requires align > 0
  {
    && d.conventional && Rem(a, align) == 0 && a >= 0x10_0000 && d.start <= a && a + pages * 4096 <= d.End()
  }

  /**
   * The code treats the descriptor as first fit should: it goes on with the same size, and
   * its candidate is the lowest aligned block with room for all pages, or none if there is none.
   */
  ghost predicate TriedRightly(d: Descriptor, size: nat, align: nat)
    requires align > 0
  {
    var pages := SizeToPages(size);
    var (c, size') := Candidate(d, size, pages, align);
    && size' == size
    && match c
       case Some(a) => Placed(d, a, pages, align) && forall b: nat :: Placed(d, b, pages, align) ==> a <= b
       case None => forall b: nat :: !Placed(d, b, pages, align)
  }

  lemma PlainTriedRightly(d: Descriptor, size: nat, align: nat)
    requires d.Valid() && Plain(d, align) && PowerOfTwo(align) && 0 < size < TWO_32
    ensures TriedRightly(d, size, align)
  {
    hide Rem, PowerOfTwo, AlignDown, SizeToPages;
    var pages := SizeToPages(size);
    forall b: nat | Placed(d, b, pages, align)
      ensures d.pages >= pages && d.End() > ONE_MB && AlignUp(d.start, align) <= b
    {
      AlignUpLeast(d.start, align, b);
    }
    if d.conventional && d.pages >= pages && d.End() > ONE_MB {
      var up := AlignUp(d.start, align);
      AlignUpKeepsPages(d.start, align);
      AlignDownIsMultiple(d.start + align - 1, align);
      BytesFitIffPagesFit(up, size, d.End());
    }
  }

  lemma BoundaryAligned(align: nat)
    requires PowerOfTwo(align) && align <= TWO_32
    ensures Rem(TWO_32, align) == 0 && AlignDown(TWO_32, align) == TWO_32
  {
    PowersOfInterest();
    PowersDivide(align, TWO_32);
  }

  /** From the 4 GB boundary on the truncated mask yields an address below the descriptor. */
  lemma TruncatedIsWrong(d: Descriptor, align: nat)
    requires d.Valid() && d.conventional && d.pages > 0 && d.start >= ONE_MB
    requires PowerOfTwo(align) && align <= TWO_32 && d.start + align > TWO_32
    ensures var a := Aligned(d.start, align);
            Candidate(d, 1, SizeToPages(1), align) == (Some(a), 1) && !Placed(d, a, SizeToPages(1), align)
    ensures !TriedRightly(d, 1, align)
  {
    hide Rem, PowerOfTwo, AlignDown;
    var up := AlignUp(d.start, align);
    if d.start < TWO_32 {
      BoundaryAligned(align);
      AlignUpLeast(d.start, align, TWO_32);
      AlignDownMonotone(TWO_32, d.start + align - 1, align);
      assert up == TWO_32;
    }
    var a := Aligned(d.start, align);
    assert SizeToPages(1) == 1;
    assert a < TWO_32 && (a < d.start || a < ONE_MB);
  }

  /** A descriptor that starts below 1 MB changes the size that is asked for. */
  lemma ShrunkIsWrong(d: Descriptor, align: nat)
    requires d.conventional && d.pages > 0 && d.start < ONE_MB < d.End() && align > 0
    ensures !TriedRightly(d, 1, align)
  {
    hide Rem, AlignDown;
    assert SizeToPages(1) == 1;
    assert Candidate(d, 1, 1, align).1 == (1 - (ONE_MB - d.start)) % TWO_32;
  }

  /**
   * Exactly the plain descriptors are treated rightly for every request: one that starts
   * below 1 MB shrinks the request, one at the 4 GB boundary or above truncates the address.
   */
  lemma TriedRightlyIff(d: Descriptor, align: nat)
    requires d.Valid() && d.pages > 0 && PowerOfTwo(align) && align <= TWO_32
    ensures (forall size: nat | 0 < size < TWO_32 :: TriedRightly(d, size, align)) <==> Plain(d, align)
  {
    hide TriedRightly, Rem, PowerOfTwo, AlignDown;
    if Plain(d, align) {
      forall size: nat | 0 < size < TWO_32
        ensures TriedRightly(d, size, align)
      {
        PlainTriedRightly(d, size, align);
      }
    } else if d.start < ONE_MB {
      ShrunkIsWrong(d, align);
    } else {
      TruncatedIsWrong(d, align);
    }
  }

  ghost predicate PlainMap(descs: seq<Descriptor>, align: nat)
  {
    forall d | d in descs :: d.Valid() && Plain(d, align)
  }

  /**
   * Sound and complete: an address that is returned starts an aligned block above 1 MB
   * inside one conventional descriptor, granted by the firmware; if none is returned, then
   * wherever a block would have fitted the firmware refused the lowest one.
   */
  lemma {:induction false} FirstFitSoundComplete(descs: seq<Descriptor>, grants: (nat, nat) -> bool, i: nat,
      size: nat, align: nat)
    requires i <= |descs| && PlainMap(descs, align) && PowerOfTwo(align) && 0 < size < TWO_32
    ensures match FirstFit(descs, grants, i, size, SizeToPages(size), align)
            case Some(a) =>
              exists k :: i <= k < |descs| && Placed(descs[k], a, SizeToPages(size), align) && grants(k, a)
            case None => forall k, b: nat | i <= k < |descs| && Placed(descs[k], b, SizeToPages(size), align) ::
              exists a: nat :: a <= b && Placed(descs[k], a, SizeToPages(size), align) && !grants(k, a)
    decreases |descs| - i
  {
    if i < |descs| {
      assert descs[i] in descs;
      PlainTriedRightly(descs[i], size, align);
      FirstFitSoundComplete(descs, grants, i + 1, size, align);
    }
  }

  // ------------------------------------------------------------ every request on a map

  /** The request is served: a right answer, or a refusal by the firmware wherever there was room. */
  ghost predicate Served(descs: seq<Descriptor>, grants: (nat, nat) -> bool, size: nat, align: nat)
    requires align > 0
  {
    var pages := SizeToPages(size);
    match FirstFit(descs, grants, 0, size, pages, align)
    case Some(a) => exists k :: 0 <= k < |descs| && Placed(descs[k], a, pages, align) && grants(k, a)
    case None => forall k, b: nat | 0 <= k < |descs| && Placed(descs[k], b, pages, align) ::
      exists a: nat :: a <= b && Placed(descs[k], a, pages, align) && !grants(k, a)
  }

  /** Memory above 1 MB is described from 1 MB to 2 GB. */
  predicate StartsInReach(d: Descriptor)
  {
    d.conventional && d.End() > 0x10_0000 ==> 0x10_0000 <= d.start <= 0x8000_0000
  }

  /** A firmware map: non-empty descriptors, and none that starts below 1 MB spans the hole below 4 GB. */
  predicate FirmwareMap(descs: seq<Descriptor>)
  {
    forall d | d in descs :: d.Valid() && d.pages > 0 && (d.start < ONE_MB ==> d.End() <= TWO_32)
  }

  /** A 32-bit power of two is at most 2^31. */
  lemma PowerBelow(align: nat)
    requires PowerOfTwo(align) && align < TWO_32
    ensures align <= 0x8000_0000
  {
    PowersOfInterest();
    PowersDivide(align, TWO_32);
    assert Rem(TWO_32 - align, align) == 0;
  }

  /** A firmware that grants one address for one descriptor only: the plain ones before it are passed over. */
  lemma {:induction false} PassedOver(descs: seq<Descriptor>, i: nat, j: nat, a: nat, size: nat, align: nat)
    requires i <= j < |descs| && PowerOfTwo(align) && 0 < size < TWO_32
    requires forall k | i <= k < j :: descs[k].Valid() && Plain(descs[k], align)
    ensures var grants := (k: nat, x: nat) => k == j && x == a;
            FirstFit(descs, grants, i, size, SizeToPages(size), align)
            == FirstFit(descs, grants, j, size, SizeToPages(size), align)
    decreases j - i
  {
    hide PowerOfTwo, AlignDown, SizeToPages;
    if i < j {
      PlainTriedRightly(descs[i], size, align);
      PassedOver(descs, i + 1, j, a, size, align);
    }
  }

  /** Past plain descriptors a wrong candidate is returned if the firmware grants just that one. */
  lemma WrongIsReturned(descs: seq<Descriptor>, j: nat, a: nat, size: nat, align: nat)
    requires j < |descs| && PowerOfTwo(align) && 0 < size < TWO_32
    requires forall k | 0 <= k < j :: descs[k].Valid() && Plain(descs[k], align)
    ensures Candidate(descs[j], size, SizeToPages(size), align).0 == Some(a)
            && !Placed(descs[j], a, SizeToPages(size), align) ==>
      !Served(descs, (k: nat, x: nat) => k == j && x == a, size, align)
  {
    hide PowerOfTwo, AlignDown, SizeToPages, Candidate;
    PassedOver(descs, 0, j, a, size, align);
  }

  /** One byte less than a number of pages still takes all of them. */
  lemma WholePages(pages: nat)
    requires pages > 0
    ensures SizeToPages(pages * PAGE_SIZE - 1) == pages
  {
    DivModUnique(pages * PAGE_SIZE - 1, PAGE_SIZE, pages - 1, PAGE_SIZE - 1);
  }

  /** Asked for all of its pages, a descriptor across 1 MB yields 1 MB, where too few of them are left. */
  lemma AcrossOneMb(d: Descriptor)
    requires d.conventional && d.start < ONE_MB < d.End() <= TWO_32
    ensures var size := d.pages * PAGE_SIZE - 1;
            && 0 < size < TWO_32 && SizeToPages(size) == d.pages
            && Candidate(d, size, d.pages, 1).0 == Some(ONE_MB)
            && !Placed(d, ONE_MB, d.pages, 1)
  {
    hide Rem, SizeToPages;
    RemOne(ONE_MB);
    assert Aligned(ONE_MB, 1) == ONE_MB;
    WholePages(d.pages);
  }

  /** A request that is not served: the whole of a descriptor across 1 MB, or one page beyond 2 GB. */
  lemma NotServed(descs: seq<Descriptor>, j: nat) returns (grants: (nat, nat) -> bool, size: nat, align: nat)
    requires FirmwareMap(descs) && j < |descs| && !StartsInReach(descs[j])
    requires forall k | 0 <= k < j :: StartsInReach(descs[k])
    ensures 0 < size < TWO_32 && PowerOfTwo(align) && align < TWO_32
    ensures !Served(descs, grants, size, align)
  {
    hide AlignDown, Rem, PowerOfTwo, Candidate, Served;
    PowIsPower(0);
    PowIsPower(31);
    assert Pow(31) == 0x8000_0000 by {
      assert Pow(0) == 1;
      assert Pow(8) == 0x100;
      assert Pow(16) == 0x1_0000;
      assert Pow(24) == 0x100_0000;
    }
    var d := descs[j];
    var a: nat;
    assert d in descs;
    assert forall k | 0 <= k < j :: descs[k] in descs;
    if d.start < ONE_MB {
      size, align, a := d.pages * PAGE_SIZE - 1, 1, ONE_MB;
      AcrossOneMb(d);
    } else {
      size, align, a := 1, 0x8000_0000, Aligned(d.start, 0x8000_0000);
      TruncatedIsWrong(d, align);
    }
    WrongIsReturned(descs, j, a, size, align);
    grants := (k: nat, x: nat) => k == j && x == a;
  }

  lemma {:induction false} FirstOutOfReach(descs: seq<Descriptor>) returns (j: nat)
    requires exists d | d in descs :: !StartsInReach(d)
    ensures j < |descs| && !StartsInReach(descs[j]) && forall k | 0 <= k < j :: StartsInReach(descs[k])
  {
    if !StartsInReach(descs[0]) {
      j := 0;
    } else {
      var d :| d in descs && !StartsInReach(d);
      assert d in descs[1..];
      j := FirstOutOfReach(descs[1..]);
      j := j + 1;
      assert forall k | 1 <= k < j :: descs[k] == descs[1..][k - 1];
    }
  }

  lemma ServedIfSound(descs: seq<Descriptor>, grants: (nat, nat) -> bool, size: nat, align: nat)
    requires PlainMap(descs, align) && PowerOfTwo(align) && 0 < size < TWO_32
    ensures Served(descs, grants, size, align)
  {
    hide Rem, AlignDown, PowerOfTwo, Placed, FirstFit, SizeToPages;
    FirstFitSoundComplete(descs, grants, 0, size, align);
  }

  /**
   * Main result: on a map, `emalloc` serves every request, whatever its size and alignment and
   * whatever the firmware grants, if and only if all conventional memory above 1 MB is
   * described by descriptors that start between 1 MB and 2 GB.
   */
  lemma EveryRequestServedIff(descs: seq<Descriptor>)
    requires FirmwareMap(descs)
    ensures (forall grants: (nat, nat) -> bool, size: nat, align: nat
               | 0 < size < TWO_32 && PowerOfTwo(align) && align < TWO_32 :: Served(descs, grants, size, align))
            <==> forall d | d in descs :: StartsInReach(d)
  {
    hide Served, PowerOfTwo;
    if forall d | d in descs :: StartsInReach(d) {
      forall grants: (nat, nat) -> bool, size: nat, align: nat
        | 0 < size < TWO_32 && PowerOfTwo(align) && align < TWO_32
        ensures Served(descs, grants, size, align)
      {
        PowerBelow(align);
        assert PlainMap(descs, align);
        ServedIfSound(descs, grants, size, align);
      }
    } else {
      var j := FirstOutOfReach(descs);
      var grants, size, align := NotServed(descs, j);
    }
  }
}
