/**
 * The flashing engine of the fastboot application: a cursor that moves through one
 * partition of a disk (fastboot/flash.c) and the interpreter of the Android sparse
 * image format that drives it (fastboot/sparse.c).
 *
 * Each operation is given twice: as a function on the abstract device `Disk`, about
 * which the properties in Sparse.dfy are proved, and as a method of the class
 * `Flasher`, which keeps the source's static variables and updates the disk in place.
 */
module Flash {
  import opened Machine

  datatype Status = Success | InvalidParameter | OutOfResources | DeviceError | NotFound | DivideFault

  /** The word size decides how many stores `flash_fill` makes: sizeof(UINTN) is 4 or 8. */
  datatype Arch = IA32 | X64
  {
    function Words(size: nat): (r: nat)
      ensures 4 * r <= size
    {
      match this case IA32 => size / 4 case X64 => size / 8
    }
  }

  /**
   * What the firmware answers to its n-th call. A pool buffer arrives with arbitrary
   * contents, and a failing disk write may leave any bytes in the range it was given.
   */
  datatype Firmware = Firmware(
    poolOk: nat -> bool,
    junk: (nat, nat) -> byte,
    writeOk: nat -> bool,
    torn: (nat, nat) -> byte)
  {
    ghost predicate Reliable()
    {
      forall n: nat :: poolOk(n) && writeOk(n)
    }
  }

  /** The disk, the cursor `cur_offset`, and the number of firmware calls made so far. */
  datatype Disk = Disk(bytes: seq<byte>, cur: nat, tick: nat)

  /** The selected partition as byte offsets: `part_start` and `part_end`. */
  datatype Window = Window(lo: nat, hi: nat)
  {
    ghost predicate Valid(size: nat)
    {
      lo <= hi <= size && hi + TWO_32 <= TWO_64
    }
  }

  /** What the lookup by label answers: a partition and the block size of its disk, or an error. */
  datatype Lookup = Failed(st: Status) | Partition(startingLba: nat, endingLba: nat, blockSize: nat)
  {
    /** `lba * BlockSize` over the partition's two boundary addresses. */
    function Win(): Window
      requires Partition?
    {
      Window(startingLba * blockSize, (endingLba + 1) * blockSize)
    }
  }

  predicate Inside(w: Window, off: nat, size: nat)
  {
    off >= w.lo && Add64(off, size) <= w.hi
  }

  function Splice(bytes: seq<byte>, off: nat, data: seq<byte>): (r: seq<byte>)
    requires off + |data| <= |bytes|
    ensures |r| == |bytes|
  {
    bytes[..off] + data + bytes[off + |data|..]
  }

  ghost predicate Fits(w: Window, d: Disk)
  {
    w.Valid(|d.bytes|) && w.lo <= d.cur <= w.hi
  }

  function SkipSpec(w: Window, d: Disk, size: nat): (Disk, Status)
  {
    if Inside(w, d.cur, size) then (d.(cur := d.cur + size), Success)
    else (d, InvalidParameter)
  }

  function Torn(fw: Firmware, tick: nat, size: nat): (r: seq<byte>)
    ensures |r| == size
  {
    seq<byte>(size, (i: nat) => fw.torn(tick, i))
  }

  /** The cursor advances past the range even when the device reports an error. */
  function WriteSpec(fw: Firmware, w: Window, d: Disk, data: seq<byte>): (Disk, Status)
    requires Fits(w, d) && |data| < TWO_32
  {
    if !Inside(w, d.cur, |data|) then (d, InvalidParameter)
    else if fw.writeOk(d.tick) then
      (Disk(Splice(d.bytes, d.cur, data), d.cur + |data|, d.tick + 1), Success)
    else
      (Disk(Splice(d.bytes, d.cur, Torn(fw, d.tick, |data|)), d.cur + |data|, d.tick + 1), DeviceError)
  }

  /** Byte i of a repeated 32-bit pattern. */
  function PatternByte(pattern: seq<byte>, i: nat): byte
    requires |pattern| == 4
  {
    pattern[i % 4]
  }

  function FillByte(pattern: seq<byte>, filled: nat, junk: nat -> byte, i: nat): byte
    requires |pattern| == 4
  {
    if i < filled then PatternByte(pattern, i) else junk(i)
  }

  /**
   * The buffer `flash_fill` builds: `size / sizeof(UINTN)` stores of a 32-bit pattern
   * into a pool buffer of `size` bytes.
   */
  function FillBuffer(pattern: seq<byte>, size: nat, arch: Arch, junk: nat -> byte): (r: seq<byte>)
    requires |pattern| == 4
    ensures |r| == size
  {
    var filled := 4 * arch.Words(size);
    seq<byte>(size, (i: nat) => FillByte(pattern, filled, junk, i))
  }

  function FillSpec(fw: Firmware, w: Window, d: Disk, arch: Arch, pattern: seq<byte>, size: nat): (Disk, Status)
    requires Fits(w, d) && size < TWO_32 && |pattern| == 4
  {
    if !fw.poolOk(d.tick) then (d.(tick := d.tick + 1), OutOfResources)
    else
      WriteSpec(fw, w, d.(tick := d.tick + 1),
                FillBuffer(pattern, size, arch, (i: nat) => fw.junk(d.tick, i)))
  }

  // ---------------------------------------------------------------- sparse images

  const SPARSE_HEADER_MAGIC := 0xed26ff3a
  const SPARSE_HEADER_SIZE := 28
  const CHUNK_HEADER_SIZE := 12
  const CHUNK_TYPE_RAW := 0xCAC1
  const CHUNK_TYPE_FILL := 0xCAC2
  const CHUNK_TYPE_DONT_CARE := 0xCAC3
  const CHUNK_TYPE_CRC32 := 0xCAC4

  /**
   * A downloaded image. The source walks it with a pointer whose bound check is
   * looser than the buffer, so a malformed image can make it read past the end;
   * `beyond` gives what lies there.
   */
  datatype Image = Image(data: seq<byte>, beyond: nat -> byte)
  {
    function At(i: nat): byte { if i < |data| then data[i] else beyond(i) }
    function Bytes(i: nat, n: nat): (r: seq<byte>)
      ensures |r| == n
    {
      seq<byte>(n, (k: nat) => At(i + k))
    }
    function U16At(i: nat): nat { Le(Bytes(i, 2)) }
    function U32At(i: nat): (r: nat)
      ensures r < TWO_32
    {
      LeBound(Bytes(i, 4));
      assert Range(4) == TWO_32;
      Le(Bytes(i, 4))
    }

    function Magic(): nat { U32At(0) }
    function MajorVersion(): nat { U16At(4) }
    function FileHdrSz(): nat { U16At(8) }
    function ChunkHdrSz(): nat { U16At(10) }
    function BlkSz(): nat { U32At(12) }
    function TotalChunks(): nat { U32At(20) }

    // Fields of the chunk header at offset s.
    function ChunkType(s: nat): nat { U16At(s) }
    function ChunkSz(s: nat): nat { U32At(s + 4) }
    function TotalSz(s: nat): nat { U32At(s + 8) }
  }

  predicate IsSparseImage(img: Image)
  {
    && |img.data| >= SPARSE_HEADER_SIZE
    && img.Magic() == SPARSE_HEADER_MAGIC
    && img.MajorVersion() <= 1
    && img.FileHdrSz() >= SPARSE_HEADER_SIZE
    && img.ChunkHdrSz() >= CHUNK_HEADER_SIZE
  }

  /** The one thing a chunk, or a raw image, asks of the flashing engine. */
  datatype Op =
    | Write(data: seq<byte>)
    | Skip(size: nat)
    | Fill(pattern: seq<byte>, size: nat)
    | Ignore
    | Reject(st: Status)
  {
    ghost predicate Valid()
    {
      match this
      case Write(data) => |data| < TWO_32
      case Skip(size) => size < TWO_32
      case Fill(pattern, size) => |pattern| == 4 && size < TWO_32
      case Ignore => true
      case Reject(st) => st != Success
    }
  }

  ghost predicate ValidOps(ops: seq<Op>)
  {
    forall op | op in ops :: op.Valid()
  }

  function Perform(fw: Firmware, w: Window, d: Disk, arch: Arch, op: Op): (Disk, Status)
    requires Fits(w, d) && op.Valid()
  {
    match op
    case Write(data) => WriteSpec(fw, w, d, data)
    case Skip(size) => SkipSpec(w, d, size)
    case Fill(pattern, size) => FillSpec(fw, w, d, arch, pattern, size)
    case Ignore => (d, Success)
    case Reject(st) => (d, st)
  }

  lemma PerformFits(fw: Firmware, w: Window, d: Disk, arch: Arch, op: Op)
    requires Fits(w, d) && op.Valid()
    ensures Fits(w, Perform(fw, w, d, arch, op).0)
  {
  }

  /** Operations in order, up to the first that does not succeed. */
  function Exec(fw: Firmware, w: Window, d: Disk, arch: Arch, ops: seq<Op>): (Disk, Status)
    requires Fits(w, d) && ValidOps(ops)
    decreases |ops|
  {
    if ops == [] then (d, Success)
    else
      PerformFits(fw, w, d, arch, ops[0]);
      var (d', st) := Perform(fw, w, d, arch, ops[0]);
      if st != Success then (d', st) else Exec(fw, w, d', arch, ops[1..])
  }

  /** What `flash_chunk` does with the chunk at offset s; its total size covers its header. */
  function ChunkOp(img: Image, s: nat): (op: Op)
    requires img.ChunkHdrSz() <= img.TotalSz(s)
    ensures op.Valid()
  {
    var size := img.TotalSz(s) - img.ChunkHdrSz();
    var body := s + img.ChunkHdrSz();
    var expanded := Mul32(img.ChunkSz(s), img.BlkSz());
    var ty := img.ChunkType(s);
    if ty == CHUNK_TYPE_RAW then
      if img.BlkSz() == 0 then Reject(DivideFault)
      else if Rem(size, img.BlkSz()) != 0 || size != expanded then Reject(InvalidParameter)
      else Write(img.Bytes(body, size))
    else if ty == CHUNK_TYPE_DONT_CARE then Skip(expanded)
    else if ty == CHUNK_TYPE_FILL then Fill(img.Bytes(body, 4), expanded)
    else if ty == CHUNK_TYPE_CRC32 then Ignore
    else Reject(InvalidParameter)
  }

  /**
   * The chunk loop of `flash_sparse`, which never looks at the disk: one operation per
   * chunk for n chunks from s on, `rlen` bytes believed left, up to a malformed one, which
   * is refused.
   */
  function Program(img: Image, s: nat, rlen: nat, n: nat): (ops: seq<Op>)
    ensures ValidOps(ops) && |ops| <= n
    decreases n
  {
    if n == 0 then []
    else if rlen < img.ChunkHdrSz() || rlen < img.TotalSz(s) then [Reject(InvalidParameter)]
    else if img.TotalSz(s) < img.ChunkHdrSz() then [Reject(InvalidParameter)]
    else if ChunkOp(img, s).Reject? then [ChunkOp(img, s)]
    else [ChunkOp(img, s)] + Program(img, s + img.TotalSz(s), rlen - img.TotalSz(s), n - 1)
  }

  /** `flash` on an image: a sparse one is interpreted, any other is written as it is. */
  function FlashOps(img: Image): (ops: seq<Op>)
    requires |img.data| < TWO_32
    ensures ValidOps(ops)
  {
    if IsSparseImage(img) then Program(img, img.FileHdrSz(), |img.data|, img.TotalChunks())
    else [Write(img.data)]
  }

  lemma PatternWord(pattern: seq<byte>, i: nat)
    requires |pattern| == 4
    ensures forall j: nat | j < 4 :: PatternByte(pattern, 4 * i + j) == pattern[j]
  {
  }

  lemma ExecReject(fw: Firmware, w: Window, d: Disk, arch: Arch, st: Status)
    requires Fits(w, d) && st != Success
    ensures Exec(fw, w, d, arch, [Reject(st)]) == (d, st)
  {
  }

  lemma ExecRefused(fw: Firmware, w: Window, d: Disk, arch: Arch, op: Op)
    requires Fits(w, d) && op.Valid()
    ensures op.Reject? ==> Perform(fw, w, d, arch, op) == (d, op.st) == Exec(fw, w, d, arch, [op]) && op.st != Success
  {
  }

  /** The store loop of `flash_fill`, into a pool buffer that held `junk`. */
  method FillPool(pattern: seq<byte>, size: nat, arch: Arch, junk: nat -> byte) returns (r: seq<byte>)
    requires |pattern| == 4
    ensures r == FillBuffer(pattern, size, arch, junk)
  {
    hide PatternByte;
    var buf := new byte[size]((k: nat) => junk(k));
    var words := arch.Words(size);
    var i := 0;
    while i < words
      invariant 0 <= i <= words
      invariant forall k: nat | k < size :: buf[k] == if k < i * 4 then PatternByte(pattern, k) else junk(k)
    {
      PatternWord(pattern, i);
      buf[4 * i], buf[4 * i + 1], buf[4 * i + 2], buf[4 * i + 3] := pattern[0], pattern[1], pattern[2], pattern[3];
      i := i + 1;
    }
    r := buf[..];
  }

  // ---------------------------------------------------------------- raw images

  /** A sparse image by its bytes: the magic number, a version up to 1, and headers that are large enough. */
  predicate StartsSparse(data: seq<byte>)
  {
    && |data| >= 28
    && data[0] == 0x3a && data[1] == 0xff && data[2] == 0x26 && data[3] == 0xed
    && data[4] as int + 0x100 * data[5] as int <= 1
    && data[8] as int + 0x100 * data[9] as int >= 28
    && data[10] as int + 0x100 * data[11] as int >= 12
  }

  lemma TwoBytes(img: Image, at: nat)
    requires at + 2 <= |img.data|
    ensures img.U16At(at) == img.data[at] as int + 0x100 * img.data[at + 1] as int
  {
    var b := img.Bytes(at, 2);
    assert forall k | 0 <= k < 2 :: b[k] == img.At(at + k) == img.data[at + k];
    assert b[1..] == [b[1]] && Le(b[1..]) == b[1] + 0x100 * Le(b[1..][1..]);
  }

  lemma MagicBytes(img: Image)
    requires |img.data| >= 4
    ensures img.Magic() == 0xed26ff3a <==>
            img.data[0] == 0x3a && img.data[1] == 0xff && img.data[2] == 0x26 && img.data[3] == 0xed
  {
    var b := img.Bytes(0, 4);
    assert forall k | 0 <= k < 4 :: b[k] == img.At(k) == img.data[k];
    assert b[1..] == [b[1], b[2], b[3]] && b[1..][1..] == [b[2], b[3]] && b[1..][1..][1..] == [b[3]];
    assert Le(b[1..][1..][1..]) == b[3] + 0x100 * Le(b[1..][1..][1..][1..]);
    assert Le(b[1..][1..]) == b[2] + 0x100 * Le(b[1..][1..][1..]);
    assert Le(b[1..]) == b[1] + 0x100 * Le(b[1..][1..]);
  }

  /** The header test recognises exactly the images that start like that. */
  lemma SparseIff(img: Image)
    ensures IsSparseImage(img) <==> StartsSparse(img.data)
  {
    hide Image.U16At, Image.U32At;
    if |img.data| >= 28 {
      MagicBytes(img);
      TwoBytes(img, 4);
      TwoBytes(img, 8);
      TwoBytes(img, 10);
    }
  }

  /** The image lies in the partition from lo on, and everything else is as it was. */
  ghost predicate HoldsRaw(now: seq<byte>, was: seq<byte>, lo: nat, data: seq<byte>)
  {
    && |now| == |was| && lo + |data| <= |was|
    && forall i | 0 <= i < |was| :: now[i] == if lo <= i < lo + |data| then data[i - lo] else was[i]
  }

  /**
   * Flashing any image that does not start like a sparse one: if it reports success, the
   * image's own bytes are in the partition from its start on, all other bytes are as they
   * were, and the cursor is behind the image. Reliable firmware and room make it succeed.
   */
  lemma RawMeaning(fw: Firmware, w: Window, d: Disk, arch: Arch, img: Image)
    requires w.Valid(|d.bytes|) && |img.data| < TWO_32 && !StartsSparse(img.data)
    ensures var (d', st) := Exec(fw, w, d.(cur := w.lo), arch, FlashOps(img));
            && (st == Success ==>
                && w.lo + |img.data| <= w.hi && d'.cur == w.lo + |img.data|
                && HoldsRaw(d'.bytes, d.bytes, w.lo, img.data))
            && (fw.Reliable() && w.lo + |img.data| <= w.hi ==> st == Success)
  {
    SparseIff(img);
  }

  // ---------------------------------------------------------------- the code

  /** The static variables of fastboot/flash.c and the disk behind them. */
  class Flasher {
    const fw: Firmware
    const arch: Arch
    const disk: array<byte>
    var lo: nat
    var hi: nat
    var cur: nat
    var tick: nat

    ghost predicate Valid()
      reads this, disk
    {
      Fits(Win(), Abs())
    }

    function Win(): Window
      reads this
    {
      Window(lo, hi)
    }

    function Abs(): Disk
      reads this, disk
    {
      Disk(disk[..], cur, tick)
    }

    /** The DiskIo protocol's WriteDisk: all of data, or an error and a torn range. */
    method WriteDisk(off: nat, data: seq<byte>) returns (ok: bool)
      requires off + |data| <= disk.Length
      modifies this`tick, disk
      ensures tick == old(tick) + 1 && ok == fw.writeOk(old(tick))
      ensures disk[..] == Splice(old(disk[..]), off, if ok then data else Torn(fw, old(tick), |data|))
    {
      ok := fw.writeOk(tick);
      var content := if ok then data else Torn(fw, tick, |data|);
      forall i | 0 <= i < |data| {
        disk[off + i] := content[i];
      }
      tick := tick + 1;
    }

    method FlashSkip(size: nat) returns (st: Status)
      requires Valid() && size < TWO_32
      modifies this`cur
      ensures Valid() && (Abs(), st) == SkipSpec(Win(), old(Abs()), size)
    {
      if !Inside(Win(), cur, size) {
        return InvalidParameter;
      }
      cur := cur + size;
      return Success;
    }

    method FlashWrite(data: seq<byte>) returns (st: Status)
      requires Valid() && |data| < TWO_32
      modifies this`cur, this`tick, disk
      ensures Valid() && (Abs(), st) == WriteSpec(fw, Win(), old(Abs()), data)
    {
      if !Inside(Win(), cur, |data|) {
        return InvalidParameter;
      }
      var ok := WriteDisk(cur, data);
      cur := cur + |data|;
      return if ok then Success else DeviceError;
    }

    method FlashFill(pattern: seq<byte>, size: nat) returns (st: Status)
      requires Valid() && size < TWO_32 && |pattern| == 4
      modifies this`cur, this`tick, disk
      ensures Valid() && (Abs(), st) == FillSpec(fw, Win(), old(Abs()), arch, pattern, size)
    {
      var t := tick;
      tick := tick + 1;
      if !fw.poolOk(t) {
        return OutOfResources;
      }
      var buf := FillPool(pattern, size, arch, (i: nat) => fw.junk(t, i));
      st := FlashWrite(buf);
    }

    method FlashChunk(img: Image, s: nat) returns (st: Status)
      requires Valid() && img.ChunkHdrSz() <= img.TotalSz(s)
      modifies this`cur, this`tick, disk
      ensures Valid() && (Abs(), st) == Perform(fw, Win(), old(Abs()), arch, ChunkOp(img, s))
    {
      var size := img.TotalSz(s) - img.ChunkHdrSz();
      var body := s + img.ChunkHdrSz();
      var ty := img.ChunkType(s);
      if ty == CHUNK_TYPE_RAW {
        if img.BlkSz() == 0 {
          return DivideFault;
        }
        if Rem(size, img.BlkSz()) != 0 || size != Mul32(img.ChunkSz(s), img.BlkSz()) {
          return InvalidParameter;
        }
        st := FlashWrite(img.Bytes(body, size));
      } else if ty == CHUNK_TYPE_DONT_CARE {
        st := FlashSkip(Mul32(img.ChunkSz(s), img.BlkSz()));
      } else if ty == CHUNK_TYPE_FILL {
        st := FlashFill(img.Bytes(body, 4), Mul32(img.ChunkSz(s), img.BlkSz()));
      } else if ty == CHUNK_TYPE_CRC32 {
        st := Success;
      } else {
        st := InvalidParameter;
      }
    }

    method FlashSparse(img: Image) returns (st: Status)
      requires Valid() && |img.data| < TWO_32
      modifies this`cur, this`tick, disk
      ensures Valid()
      ensures (Abs(), st) ==
              Exec(fw, Win(), old(Abs()), arch, Program(img, img.FileHdrSz(), |img.data|, img.TotalChunks()))
    {
      hide Image.U16At, Image.U32At, ChunkOp, Perform;
      var rlen: nat := |img.data|;
      var s: nat := img.FileHdrSz();
      var i := 0;
      while i < img.TotalChunks()
        invariant 0 <= i <= img.TotalChunks()
        invariant Valid()
        invariant Exec(fw, Win(), Abs(), arch, Program(img, s, rlen, img.TotalChunks() - i)) ==
                  Exec(fw, Win(), old(Abs()), arch, Program(img, img.FileHdrSz(), |img.data|, img.TotalChunks()))
      {
        ExecReject(fw, Win(), Abs(), arch, InvalidParameter);
        if rlen < img.ChunkHdrSz() || rlen < img.TotalSz(s) {
          return InvalidParameter;
        }
        if img.TotalSz(s) < img.ChunkHdrSz() {
          return InvalidParameter;
        }
        ghost var rest := Program(img, s + img.TotalSz(s), rlen - img.TotalSz(s), img.TotalChunks() - i - 1);
        assert ([ChunkOp(img, s)] + rest)[1..] == rest;
        ExecRefused(fw, Win(), Abs(), arch, ChunkOp(img, s));
        st := FlashChunk(img, s);
        if st != Success {
          return;
        }
        s, rlen := s + img.TotalSz(s), rlen - img.TotalSz(s);
        i := i + 1;
      }
      return Success;
    }

    /**
     * `found` is what the lookup by label answers. A raw image that is reported flashed lies
     * at the first byte of the partition's first block.
     */
    method Flash(img: Image, found: Lookup) returns (st: Status)
      requires |img.data| < TWO_32
      requires found.Partition? ==> found.Win().Valid(disk.Length)
      modifies this, disk
      ensures found.Failed? ==> st == found.st && unchanged(this) && unchanged(disk)
      ensures found.Partition? ==>
        && Win() == found.Win() && Valid()
        && (Abs(), st) == Exec(fw, Win(), old(Abs()).(cur := lo), arch, FlashOps(img))
      ensures found.Partition? && st == Success && !StartsSparse(img.data) ==>
        var first := found.startingLba * found.blockSize;
        && first + |img.data| <= (found.endingLba + 1) * found.blockSize
        && cur == first + |img.data| && HoldsRaw(disk[..], old(disk[..]), first, img.data)
    {
      if found.Failed? {
        return found.st;
      }
      if found.Partition? && !StartsSparse(img.data) {
        RawMeaning(fw, found.Win(), Abs(), arch, img);
      }
      var w := found.Win();
      lo, hi, cur := w.lo, w.hi, w.lo;
      if IsSparseImage(img) {
        st := FlashSparse(img);
      } else {
        st := FlashWrite(img.data);
      }
    }
  }
}
