/**
 * Erasing a partition (fastboot/flash.c): zero-filling in strides of N_BLOCK blocks,
 * and the split of a block range into a zero-filled head, a secure-erased middle made
 * of whole erase groups, and a zero-filled tail.
 *
 * Erase group arithmetic is written with `Rem`, which is `%` (Machine.RemIsRemainder).
 */
module Erase {
  import opened Machine

  const N_BLOCK: nat := 4096

  datatype Status = Success | OutOfResources | DeviceError | NotFound | DivideFault

  datatype Cell = Data(v: int) | Zeroed | SecureErased

  /** The n-th firmware call succeeds or not; a failing one may leave anything in its range. */
  datatype Firmware = Firmware(ok: nat -> bool, torn: (nat, nat) -> Cell)

  /** The eMMC host controller: missing or silent, or reporting its erase group size in blocks. */
  datatype Host = Unavailable | Mmc(group: nat)

  datatype Op =
    | AllocZeroPool
    | ZeroFill(lba: nat, count: nat)
    | Secure(start: nat, end: nat)
    | Fault

  /** Blocks the device acts on: an erase command takes whole groups, from that of start to that of end. */
  predicate Covers(group: nat, op: Op, b: nat)
    requires group > 0
  {
    match op
    case ZeroFill(lba, count) => lba <= b < lba + count
    case Secure(start, end) => start - Rem(start, group) <= b < end - Rem(end, group) + group
    case _ => false
  }

  datatype Media = Media(cells: seq<Cell>, tick: nat)

  function Update(cells: seq<Cell>, group: nat, op: Op, content: nat -> Cell): (r: seq<Cell>)
    requires group > 0
    ensures |r| == |cells|
    ensures forall b | 0 <= b < |cells| :: r[b] == if Covers(group, op, b) then content(b) else cells[b]
  {
    seq<Cell>(|cells|, (b: nat) requires b < |cells| =>
      if Covers(group, op, b) then content(b) else cells[b])
  }

  function Perform(fw: Firmware, group: nat, m: Media, op: Op): (r: (Media, Status))
    requires group > 0
    ensures |r.0.cells| == |m.cells|
  {
    match op
    case AllocZeroPool =>
      (m.(tick := m.tick + 1), if fw.ok(m.tick) then Success else OutOfResources)
    case ZeroFill(_, _) =>
      if fw.ok(m.tick) then (Media(Update(m.cells, group, op, (b: nat) => Zeroed), m.tick + 1), Success)
      else (Media(Update(m.cells, group, op, (b: nat) => fw.torn(m.tick, b)), m.tick + 1), DeviceError)
    case Secure(_, _) =>
      // set the first group, set the last group, erase
      if !fw.ok(m.tick) then (m.(tick := m.tick + 1), DeviceError)
      else if !fw.ok(m.tick + 1) then (m.(tick := m.tick + 2), DeviceError)
      else if fw.ok(m.tick + 2) then (Media(Update(m.cells, group, op, (b: nat) => SecureErased), m.tick + 3), Success)
      else (Media(Update(m.cells, group, op, (b: nat) => fw.torn(m.tick + 2, b)), m.tick + 3), DeviceError)
    case Fault => (m, DivideFault)
  }

  function Exec(fw: Firmware, group: nat, m: Media, ops: seq<Op>): (r: (Media, Status))
    requires group > 0
    ensures |r.0.cells| == |m.cells|
    decreases |ops|
  {
    if ops == [] then (m, Success)
    else
      var (m', st) := Perform(fw, group, m, ops[0]);
      if st != Success then (m', st) else Exec(fw, group, m', ops[1..])
  }

  // ------------------------------------------------------------ what is asked of the device

  /** The writes of `fill_zero` from lba on. */
  function Strides(lba: nat, end: int): seq<Op>
    decreases end - lba
  {
    if lba > end then []
    else [ZeroFill(lba, if lba + N_BLOCK > end + 1 then end - lba + 1 else N_BLOCK)] + Strides(lba + N_BLOCK, end)
  }

  function ZeroOps(start: nat, end: int): seq<Op>
  {
    [AllocZeroPool] + Strides(start, end)
  }

  /** First block of the first whole group at or after start. */
  function MiddleStart(start: nat, group: nat): nat
    requires group > 0
  {
    if Rem(start, group) == 0 then start else start + group - Rem(start, group)
  }

  /** Last block of the last whole group that ends at or before end. */
  function MiddleEnd(end: nat, group: nat): int
    requires group > 0
  {
    end - Rem(end + 1, group)
  }

  function HeadOps(start: nat, group: nat): seq<Op>
    requires group > 0
  {
    if Rem(start, group) == 0 then [] else ZeroOps(start, MiddleStart(start, group) - 1)
  }

  function TailOps(end: nat, group: nat): seq<Op>
    requires group > 0
  {
    if Rem(end + 1, group) == 0 then [] else ZeroOps(end + 1 - Rem(end + 1, group), end)
  }

  predicate Aligned(x: int, group: nat)
    requires group > 0
  {
    x >= 0 && Rem(x, group) == 0
  }

  /** Dropping the remainder leaves a multiple; multiples are at least a group apart. */
  lemma {:induction false} RemDrop(x: nat, y: nat)
    requires y > 0
    ensures Rem(x - Rem(x, y), y) == 0
  {
    if x >= y {
      RemDrop(x - y, y);
    }
  }

  lemma {:induction false} MultiplesApart(a: nat, b: nat, y: nat)
    requires y > 0 && Rem(a, y) == 0 && Rem(b, y) == 0 && a < b
    ensures a + y <= b
  {
    if a >= y {
      MultiplesApart(a - y, b - y, y);
    }
  }

  /**
   * Whenever the size guard passes, both boundaries of the middle are group-aligned,
   * the middle lies inside [start, end], and its end never drops below its start - 1.
   */
  lemma MiddleIsAligned(start: nat, end: nat, group: nat)
    requires group > 0 && end - start + 1 >= group
    ensures Aligned(MiddleStart(start, group), group) && Aligned(MiddleEnd(end, group) + 1, group)
    ensures start <= MiddleStart(start, group) <= MiddleEnd(end, group) + 1 <= end + 1
    ensures MiddleEnd(end, group) >= 0
    ensures MiddleStart(start, group) - start < group && end - MiddleEnd(end, group) < group
  {
    var s, e := MiddleStart(start, group), MiddleEnd(end, group) + 1;
    RemDrop(start, group);
    RemDrop(end + 1, group);
    if Rem(start, group) != 0 {
      assert Rem(s, group) == Rem(s - group, group) == 0;
    }
    if e < s {
      MultiplesApart(e, s, group);
    }
  }

  function EraseOps(host: Host, start: nat, end: nat): seq<Op>
  {
    if host.Unavailable? || end - start + 1 < host.group then ZeroOps(start, end)
    else if host.group == 0 then [Fault]
    else
      MiddleIsAligned(start, end, host.group);
      HeadOps(start, host.group) + TailOps(end, host.group)
      + [Secure(MiddleStart(start, host.group), MiddleEnd(end, host.group))]
  }

  // ------------------------------------------------------------ the split is exact

  /** The middle is empty exactly when no whole aligned group fits into [start, end]. */
  lemma MiddleEmptyIff(start: nat, end: nat, group: nat)
    requires group > 0 && end - start + 1 >= group
    ensures MiddleEnd(end, group) < MiddleStart(start, group)
            <==> forall k: nat :: Aligned(k, group) ==> !(start <= k && k + group - 1 <= end)
  {
    var s, e := MiddleStart(start, group), MiddleEnd(end, group) + 1;
    MiddleIsAligned(start, end, group);
    if s < e {
      MultiplesApart(s, e, group);
      assert Aligned(s, group) && start <= s && s + group - 1 <= end;
    }
    forall k: nat | Aligned(k, group) && start <= k && k + group - 1 <= end
      ensures s < e
    {
      if k < s {
        MultiplesApart(k, s, group);
      }
      if e < k + group {
        assert Rem(k + group, group) == Rem(k, group);
        MultiplesApart(e, k + group, group);
      }
    }
  }

  /** How many of the operations touch block b. */
  function Count(group: nat, ops: seq<Op>, b: nat): nat
    requires group > 0
  {
    if ops == [] then 0 else (if Covers(group, ops[0], b) then 1 else 0) + Count(group, ops[1..], b)
  }

  lemma {:induction false} CountConcat(group: nat, xs: seq<Op>, ys: seq<Op>, b: nat)
    requires group > 0
    ensures Count(group, xs + ys, b) == Count(group, xs, b) + Count(group, ys, b)
    decreases |xs|
  {
    if xs == [] {
      assert xs + ys == ys;
    } else {
      assert (xs + ys)[1..] == xs[1..] + ys;
      CountConcat(group, xs[1..], ys, b);
    }
  }

  lemma {:induction false} StridesCover(group: nat, lba: nat, end: int, b: nat)
    requires group > 0
    ensures Count(group, Strides(lba, end), b) == if lba <= b <= end then 1 else 0
    decreases end - lba
  {
    if lba <= end {
      StridesCover(group, lba + N_BLOCK, end, b);
      var ops := Strides(lba, end);
      assert ops[1..] == Strides(lba + N_BLOCK, end);
    }
  }

  /** `fill_zero` writes every block of [start, end] exactly once and none outside. */
  lemma ZeroOpsCover(group: nat, start: nat, end: int, b: nat)
    requires group > 0
    ensures Count(group, ZeroOps(start, end), b) == if start <= b <= end then 1 else 0
  {
    StridesCover(group, start, end, b);
    CountConcat(group, [AllocZeroPool], Strides(start, end), b);
  }

  /** Every write fits the zeroed buffer of N_BLOCK blocks and stays within [start, end]. */
  lemma {:induction false} StridesFitBuffer(lba: nat, end: int, op: Op)
    requires op in Strides(lba, end)
    ensures op.ZeroFill? && 1 <= op.count <= 4096 && lba <= op.lba && op.lba + op.count <= end + 1
    decreases end - lba
  {
    if op != Strides(lba, end)[0] {
      StridesFitBuffer(lba + N_BLOCK, end, op);
    }
  }

  /** The group size at which the device interprets the operations; immaterial without one. */
  function GroupOf(host: Host): nat
  {
    if host.Mmc? && host.group > 0 then host.group else 1
  }

  /** Aligned at both ends, the device's whole groups are exactly the range asked for, even an empty one. */
  lemma SecureCoversMiddle(group: nat, s: nat, e: nat, b: nat)
    requires group > 0 && Aligned(s, group) && Aligned(e + 1, group) && s <= e + 1
    ensures Covers(group, Secure(s, e), b) <==> s <= b <= e
  {
    RemDrop(e, group);
    var f := e - Rem(e, group);
    MultiplesApart(f, e + 1, group);
  }

  /**
   * Main result: head, middle and tail are pairwise disjoint and make up exactly
   * [start, end], counting what the erase command really does to whole groups.
   */
  lemma EraseTilesExactly(host: Host, start: nat, end: nat, b: nat)
    requires host != Mmc(0) && start <= end + 1
    ensures Count(GroupOf(host), EraseOps(host, start, end), b) == if start <= b <= end then 1 else 0
  {
    var group := GroupOf(host);
    ZeroOpsCover(group, start, end, b);
    if host.Mmc? && end - start + 1 >= group {
      MiddleIsAligned(start, end, group);
      var s: int, e: int := MiddleStart(start, group), MiddleEnd(end, group);
      ZeroOpsCover(group, start, s - 1, b);
      ZeroOpsCover(group, e + 1, end, b);
      SecureCoversMiddle(group, s, e, b);
      var middle := [Secure(s, e)];
      CountConcat(group, HeadOps(start, group) + TailOps(end, group), middle, b);
      CountConcat(group, HeadOps(start, group), TailOps(end, group), b);
    }
  }

  // ------------------------------------------------------------ what becomes of the blocks

  lemma {:induction false} ExecUntouched(fw: Firmware, group: nat, m: Media, ops: seq<Op>, b: nat)
    requires group > 0 && b < |m.cells| && Count(group, ops, b) == 0
    ensures Exec(fw, group, m, ops).0.cells[b] == m.cells[b]
    decreases |ops|
  {
    if ops != [] {
      var (m', st) := Perform(fw, group, m, ops[0]);
      assert m'.cells[b] == m.cells[b];
      if st == Success {
        ExecUntouched(fw, group, m', ops[1..], b);
      }
    }
  }

  /** A block that a successful run touches exactly once ends zeroed or secure-erased. */
  lemma {:induction false} ExecTouched(fw: Firmware, group: nat, m: Media, ops: seq<Op>, b: nat)
    requires group > 0 && b < |m.cells| && Count(group, ops, b) == 1
    requires Exec(fw, group, m, ops).1 == Success
    ensures Exec(fw, group, m, ops).0.cells[b] in {Zeroed, SecureErased}
    decreases |ops|
  {
    var (m', st) := Perform(fw, group, m, ops[0]);
    if Covers(group, ops[0], b) {
      assert m'.cells[b] in {Zeroed, SecureErased};
      ExecUntouched(fw, group, m', ops[1..], b);
    } else {
      ExecTouched(fw, group, m', ops[1..], b);
    }
  }

  /**
   * Whatever the firmware does, blocks outside [start, end] keep their contents; if the
   * erase reports success, every block inside is zeroed or secure-erased.
   */
  lemma EraseMeaning(fw: Firmware, host: Host, m: Media, start: nat, end: nat)
    requires host != Mmc(0) && start <= end + 1
    ensures var (m', st) := Exec(fw, GroupOf(host), m, EraseOps(host, start, end));
            forall b: nat | b < |m.cells| ::
              if start <= b <= end then st == Success ==> m'.cells[b] in {Zeroed, SecureErased}
              else m'.cells[b] == m.cells[b]
  {
    var ops := EraseOps(host, start, end);
    var (m', st) := Exec(fw, GroupOf(host), m, ops);
    forall b: nat | b < |m.cells|
      ensures if start <= b <= end then st == Success ==> m'.cells[b] in {Zeroed, SecureErased}
              else m'.cells[b] == m.cells[b]
    {
      EraseTilesExactly(host, start, end, b);
      if start <= b <= end {
        if st == Success {
          ExecTouched(fw, GroupOf(host), m, ops, b);
        }
      } else {
        ExecUntouched(fw, GroupOf(host), m, ops, b);
      }
    }
  }

  /** Firmware that grants every request. */
  ghost predicate Reliable(fw: Firmware)
  {
    forall n: nat :: fw.ok(n)
  }

  lemma {:induction false} ReliableExec(fw: Firmware, group: nat, m: Media, ops: seq<Op>)
    requires group > 0 && Reliable(fw) && Fault !in ops
    ensures Exec(fw, group, m, ops).1 == Success
    decreases |ops|
  {
    if ops != [] {
      assert ops[0] in ops;
      ReliableExec(fw, group, Perform(fw, group, m, ops[0]).0, ops[1..]);
    }
  }

  /** On reliable firmware an erase succeeds. */
  lemma EraseSucceeds(fw: Firmware, host: Host, m: Media, start: nat, end: nat)
    requires host != Mmc(0) && Reliable(fw)
    ensures Exec(fw, GroupOf(host), m, EraseOps(host, start, end)).1 == Success
  {
    forall lba: nat, last: int
      ensures Fault !in Strides(lba, last)
    {
      if Fault in Strides(lba, last) {
        StridesFitBuffer(lba, last, Fault);
      }
    }
    ReliableExec(fw, GroupOf(host), m, EraseOps(host, start, end));
  }

  lemma {:induction false} CoveredCounts(group: nat, ops: seq<Op>, b: nat, op: Op)
    requires group > 0 && op in ops && Covers(group, op, b)
    ensures Count(group, ops, b) > 0
  {
    if ops[0] != op {
      CoveredCounts(group, ops[1..], b, op);
    }
  }

  /** The one operation that touches a block decides what becomes of it. */
  lemma {:induction false} ExecKind(fw: Firmware, group: nat, m: Media, ops: seq<Op>, b: nat, op: Op)
    requires group > 0 && b < |m.cells| && Count(group, ops, b) == 1
    requires op in ops && Covers(group, op, b) && Exec(fw, group, m, ops).1 == Success
    ensures Exec(fw, group, m, ops).0.cells[b] == if op.Secure? then SecureErased else Zeroed
    decreases |ops|
  {
    var (m', st) := Perform(fw, group, m, ops[0]);
    if Covers(group, ops[0], b) {
      if op != ops[0] {
        CoveredCounts(group, ops[1..], b, op);
      }
      ExecUntouched(fw, group, m', ops[1..], b);
    } else {
      ExecKind(fw, group, m', ops[1..], b, op);
    }
  }

  lemma {:induction false} SomeCovers(group: nat, ops: seq<Op>, b: nat) returns (op: Op)
    requires group > 0 && Count(group, ops, b) > 0
    ensures op in ops && Covers(group, op, b)
  {
    if Covers(group, ops[0], b) {
      op := ops[0];
    } else {
      op := SomeCovers(group, ops[1..], b);
    }
  }

  /** The block's erase group lies in the range as a whole. */
  predicate WholeGroupIn(host: Host, start: nat, end: nat, b: nat)
  {
    host.Mmc? && host.group > 0 && start <= b - b % host.group && b - b % host.group + host.group - 1 <= end
  }

  /** The middle is made of the groups that lie in the range as a whole. */
  lemma MiddleIsWholeGroups(group: nat, start: nat, end: nat, b: nat)
    requires group > 0 && end - start + 1 >= group
    ensures MiddleStart(start, group) <= b <= MiddleEnd(end, group) <==> WholeGroupIn(Mmc(group), start, end, b)
  {
    MiddleIsAligned(start, end, group);
    RemIsRemainder(b, group);
    RemDrop(b, group);
    var s, e, f: nat := MiddleStart(start, group), MiddleEnd(end, group) + 1, b - Rem(b, group);
    assert Rem(f + group, group) == Rem(f, group);
    if f < s {
      MultiplesApart(f, s, group);
    }
    if f < e {
      MultiplesApart(f, e, group);
    } else if e < f + group {
      MultiplesApart(e, f + group, group);
    }
  }

  lemma ZeroOpsOnly(start: nat, end: int, op: Op)
    requires op in ZeroOps(start, end)
    ensures !op.Secure?
  {
    if op != AllocZeroPool {
      StridesFitBuffer(start, end, op);
    }
  }

  lemma NoWholeGroup(host: Host, start: nat, end: nat, b: nat)
    requires host.Unavailable? || end - start + 1 < host.group
    ensures !WholeGroupIn(host, start, end, b)
  {
  }

  lemma HeadAndTailZero(group: nat, start: nat, end: nat, op: Op)
    requires group > 0 && op in HeadOps(start, group) + TailOps(end, group)
    ensures !op.Secure?
  {
    hide ZeroOps, Rem;
    if op in HeadOps(start, group) {
      ZeroOpsOnly(start, MiddleStart(start, group) - 1, op);
    } else {
      ZeroOpsOnly(end + 1 - Rem(end + 1, group), end, op);
    }
  }

  /** Past the size guard only the last operation is a secure erase, and it acts on the middle. */
  lemma LastIsMiddle(group: nat, start: nat, end: nat, op: Op, b: nat) returns (last: Op)
    requires group > 0 && end - start + 1 >= group && op in EraseOps(Mmc(group), start, end)
    ensures last in EraseOps(Mmc(group), start, end) && last.Secure?
    ensures Covers(group, last, b) <==> MiddleStart(start, group) <= b <= MiddleEnd(end, group)
    ensures op.Secure? ==> op == last
  {
    hide HeadOps, TailOps, MiddleStart, MiddleEnd, Rem, Aligned;
    MiddleIsAligned(start, end, group);
    last := Secure(MiddleStart(start, group), MiddleEnd(end, group));
    SecureCoversMiddle(group, last.start, last.end, b);
    assert EraseOps(Mmc(group), start, end) == HeadOps(start, group) + TailOps(end, group) + [last];
    if op in HeadOps(start, group) + TailOps(end, group) {
      HeadAndTailZero(group, start, end, op);
    }
  }

  /**
   * Main result: a successful erase leaves a block of the range secure-erased if its whole
   * erase group lies in the range, and zeroed otherwise.
   */
  lemma EraseKinds(fw: Firmware, host: Host, m: Media, start: nat, end: nat, b: nat)
    requires host != Mmc(0) && start <= b <= end && b < |m.cells|
    requires Exec(fw, GroupOf(host), m, EraseOps(host, start, end)).1 == Success
    ensures Exec(fw, GroupOf(host), m, EraseOps(host, start, end)).0.cells[b] ==
            if WholeGroupIn(host, start, end, b) then SecureErased else Zeroed
  {
    hide Exec, Rem;
    var group, ops := GroupOf(host), EraseOps(host, start, end);
    EraseTilesExactly(host, start, end, b);
    var op := SomeCovers(group, ops, b);
    ExecKind(fw, group, m, ops, b, op);
    if host.Unavailable? || end - start + 1 < host.group {
      ZeroOpsOnly(start, end, op);
      NoWholeGroup(host, start, end, b);
    } else {
      MiddleIsWholeGroups(group, start, end, b);
      var last := LastIsMiddle(group, start, end, op, b);
      if Covers(group, last, b) {
        ExecKind(fw, group, m, ops, b, last);
      }
    }
  }

  /**
   * The guard compares sizes only. Past it an erase command is always sent, and its end
   * lies below its start exactly when the range holds no whole group.
   */
  lemma EmptyMiddleIsStillErased(start: nat, end: nat, group: nat)
    requires group > 0 && end - start + 1 >= group
    ensures var ops := EraseOps(Mmc(group), start, end);
            && |ops| > 0 && ops[|ops| - 1].Secure?
            && (ops[|ops| - 1].end < ops[|ops| - 1].start
                <==> forall k: nat :: Aligned(k, group) ==> !(start <= k && k + group - 1 <= end))
  {
    MiddleEmptyIff(start, end, group);
  }

  /** For instance a group's worth of blocks from block 1 on: its erase command ends below its start. */
  lemma EmptyMiddleWitness(group: nat)
    requires group > 1
    ensures EraseOps(Mmc(group), 1, group) == HeadOps(1, group) + TailOps(group, group) + [Secure(group, group - 1)]
  {
    assert Rem(group + 1, group) == Rem(1, group) == 1;
  }

  /** What the lookup by label answers: the first and last block of a partition, or an error. */
  datatype Lookup = Failed(st: Status) | Partition(start: nat, end: nat)

  // ------------------------------------------------------------ the code

  lemma NextStride(lba: nat, end: nat)
    requires lba <= end
    ensures var size := if lba + N_BLOCK > end + 1 then end - lba + 1 else N_BLOCK;
            && Strides(lba, end) != [] && Strides(lba, end)[0] == ZeroFill(lba, size)
            && Strides(lba, end)[1..] == Strides(lba + N_BLOCK, end)
  {
  }

  lemma NoStrides(lba: nat, end: nat)
    requires lba > end
    ensures Strides(lba, end) == []
  {
  }

  lemma ExecFault(fw: Firmware, group: nat, m: Media)
    requires group > 0
    ensures Exec(fw, group, m, [Fault]) == (m, DivideFault)
  {
  }

  lemma {:induction false} ExecConcat(fw: Firmware, group: nat, m: Media, xs: seq<Op>, ys: seq<Op>)
    requires group > 0
    ensures var (m', st) := Exec(fw, group, m, xs);
            Exec(fw, group, m, xs + ys) == if st != Success then (m', st) else Exec(fw, group, m', ys)
    decreases |xs|
  {
    if xs == [] {
      assert xs + ys == ys;
    } else {
      assert (xs + ys)[1..] == xs[1..] + ys;
      var (m', st) := Perform(fw, group, m, xs[0]);
      if st == Success {
        ExecConcat(fw, group, m', xs[1..], ys);
      }
    }
  }

  class Eraser {
    const fw: Firmware
    const host: Host
    const cells: array<Cell>
    var tick: nat

    function Abs(): Media
      reads this, cells
    {
      Media(cells[..], tick)
    }

    /** One firmware command on the medium. */
    method Command(op: Op) returns (st: Status)
      modifies this, cells
      ensures (Abs(), st) == Perform(fw, GroupOf(host), old(Abs()), op)
    {
      var (m, s) := Perform(fw, GroupOf(host), Abs(), op);
      forall b | 0 <= b < cells.Length {
        cells[b] := m.cells[b];
      }
      tick := m.tick;
      assert cells[..] == m.cells;
      st := s;
    }

    method FillZero(start: nat, end: nat) returns (st: Status)
      requires end + N_BLOCK + 1 < TWO_64 && start <= end + 1
      modifies this, cells
      ensures (Abs(), st) == Exec(fw, GroupOf(host), old(Abs()), ZeroOps(start, end))
    {
      hide Perform, Rem, Add64, Sub64, Strides;
      assert ZeroOps(start, end)[1..] == Strides(start, end);
      NoWrap64(end, 1);
      st := Command(AllocZeroPool);
      if st != Success {
        return;
      }
      var lba := start;
      while lba <= end
        invariant lba <= end + N_BLOCK
        invariant Exec(fw, GroupOf(host), Abs(), Strides(lba, end)) ==
                  Exec(fw, GroupOf(host), old(Abs()), ZeroOps(start, end))
        decreases end + N_BLOCK - lba
      {
        NoWrap64(lba, N_BLOCK);
        NoWrap64(end, lba);
        NoWrap64(end - lba, 1);
        NextStride(lba, end);
        var size := if Add64(lba, N_BLOCK) > Add64(end, 1) then Add64(Sub64(end, lba), 1) else N_BLOCK;
        st := Command(ZeroFill(lba, size));
        if st != Success {
          return;
        }
        lba := Add64(lba, N_BLOCK);
      }
      NoStrides(lba, end);
      return Success;
    }

    /** Zero-fills up to the first group boundary and moves the start there. */
    method FillHead(start: nat, group: nat) returns (st: Status, start': nat)
      requires group > 0 && MiddleStart(start, group) + N_BLOCK < TWO_64
      modifies this, cells
      ensures (Abs(), st) == Exec(fw, GroupOf(host), old(Abs()), HeadOps(start, group))
      ensures start' == MiddleStart(start, group)
    {
      var reminder := Rem(start, group);
      start' := start;
      st := Success;
      if reminder != 0 {
        st := FillZero(start, start + group - reminder - 1);
        start' := start + group - reminder;
      }
    }

    /** Zero-fills from the last group boundary and moves the end before it. */
    method FillTail(end: nat, group: nat) returns (st: Status, end': nat)
      requires group > 0 && end + N_BLOCK + 1 < TWO_64 && MiddleEnd(end, group) >= 0
      modifies this, cells
      ensures (Abs(), st) == Exec(fw, GroupOf(host), old(Abs()), TailOps(end, group))
      ensures end' == MiddleEnd(end, group)
    {
      var reminder := Rem(Add64(end, 1), group);
      end' := end;
      st := Success;
      if reminder != 0 {
        st := FillZero(Sub64(Add64(end, 1), reminder), end);
        end' := Sub64(end, reminder);
      }
    }

    method EraseBlocks(start: nat, end: nat) returns (st: Status)
      requires end + N_BLOCK + 1 < TWO_64 && start <= end + 1
      modifies this, cells
      ensures (Abs(), st) == Exec(fw, GroupOf(host), old(Abs()), EraseOps(host, start, end))
    {
      hide Perform, Strides, Rem;
      if host.Unavailable? || Add64(Sub64(end, start), 1) < host.group {
        st := FillZero(start, end);
        return;
      }
      if host.group == 0 {
        ExecFault(fw, GroupOf(host), Abs());
        return DivideFault;
      }
      var group := host.group;
      MiddleIsAligned(start, end, group);
      ghost var head, tail := HeadOps(start, group), TailOps(end, group);
      ghost var last := [Secure(MiddleStart(start, group), MiddleEnd(end, group))];
      ExecConcat(fw, group, Abs(), head + tail, last);
      ExecConcat(fw, group, Abs(), head, tail);

      var start';
      st, start' := FillHead(start, group);
      if st != Success {
        return;
      }
      var end';
      st, end' := FillTail(end, group);
      if st != Success {
        return;
      }
      st := Command(Secure(start', end'));
    }

    /** `found` is what the lookup by label answers. */
    method EraseByLabel(found: Lookup) returns (st: Status)
      requires found.Partition? ==> found.start <= found.end + 1 && found.end + N_BLOCK + 1 < TWO_64
      modifies this, cells
      ensures found.Failed? ==> st == found.st && Abs() == old(Abs())
      ensures found.Partition? ==>
        (Abs(), st) == Exec(fw, GroupOf(host), old(Abs()), EraseOps(host, found.start, found.end))
    {
      if found.Failed? {
        return found.st;
      }
      st := EraseBlocks(found.start, found.end);
    }
  }
}
