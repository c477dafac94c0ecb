/**
 * What flashing a sparse image means, and that the chunk loop of fastboot/sparse.c
 * does exactly that: for every image, partition and firmware behaviour.
 */
module Sparse {
  import opened Machine
  import opened Flash

  // ------------------------------------------------------- confinement, every run

  /** From d to d' the cursor moved forward and only bytes it moved over changed. */
  ghost predicate MovedOver(w: Window, d: Disk, d': Disk)
  {
    && Fits(w, d) && Fits(w, d')
    && |d'.bytes| == |d.bytes| && d.cur <= d'.cur
    && forall i | 0 <= i < |d.bytes| && !(d.cur <= i < d'.cur) :: d'.bytes[i] == d.bytes[i]
  }

  lemma WriteMovesOver(fw: Firmware, w: Window, d: Disk, data: seq<byte>)
    requires Fits(w, d) && |data| < TWO_32
    ensures MovedOver(w, d, WriteSpec(fw, w, d, data).0)
  {
  }

  lemma PerformMovesOver(fw: Firmware, w: Window, d: Disk, arch: Arch, op: Op)
    requires Fits(w, d) && op.Valid()
    ensures MovedOver(w, d, Perform(fw, w, d, arch, op).0)
  {
    hide WriteSpec, FillBuffer;
    match op
    case Write(data) =>
      WriteMovesOver(fw, w, d, data);
    case Fill(pattern, size) =>
      WriteMovesOver(fw, w, d.(tick := d.tick + 1), FillBuffer(pattern, size, arch, (i: nat) => fw.junk(d.tick, i)));
    case _ =>
  }

  /** Every run, whatever the operations and however they fail, changes only bytes it moves over. */
  lemma {:induction false} ExecMovesOver(fw: Firmware, w: Window, d: Disk, arch: Arch, ops: seq<Op>)
    requires Fits(w, d) && ValidOps(ops)
    ensures MovedOver(w, d, Exec(fw, w, d, arch, ops).0)
    decreases |ops|
  {
    if ops != [] {
      PerformMovesOver(fw, w, d, arch, ops[0]);
      var (d', st) := Perform(fw, w, d, arch, ops[0]);
      if st == Success {
        ExecMovesOver(fw, w, d', arch, ops[1..]);
      }
    }
  }

  /**
   * A failing run stops at one operation k: those before it all succeeded, and beyond
   * their effect only the range operation k moved over may differ.
   */
  lemma {:induction false} FailureIsLocal(fw: Firmware, w: Window, d: Disk, arch: Arch, ops: seq<Op>)
    returns (k: nat, before: Disk)
    requires Fits(w, d) && ValidOps(ops)
    requires Exec(fw, w, d, arch, ops).1 != Success
    ensures k < |ops|
    ensures Exec(fw, w, d, arch, ops[..k]) == (before, Success)
    ensures Fits(w, before) && Perform(fw, w, before, arch, ops[k]) == Exec(fw, w, d, arch, ops)
    ensures MovedOver(w, before, Exec(fw, w, d, arch, ops).0)
    decreases |ops|
  {
    PerformMovesOver(fw, w, d, arch, ops[0]);
    var (d', st) := Perform(fw, w, d, arch, ops[0]);
    if st != Success {
      k, before := 0, d;
    } else {
      k, before := FailureIsLocal(fw, w, d', arch, ops[1..]);
      k := k + 1;
      assert ops[..k][1..] == ops[1..][..k - 1];
    }
  }

  /** Flashing any image, malformed or not, leaves the rest of the disk and the cursor in bounds. */
  lemma FlashConfined(fw: Firmware, w: Window, d: Disk, arch: Arch, img: Image)
    requires w.Valid(|d.bytes|) && |img.data| < TWO_32
    ensures var (d', st) := Exec(fw, w, d.(cur := w.lo), arch, FlashOps(img));
            && |d'.bytes| == |d.bytes| && w.lo <= d'.cur <= w.hi
            && forall i | 0 <= i < |d.bytes| && !(w.lo <= i < w.hi) :: d'.bytes[i] == d.bytes[i]
  {
    ExecMovesOver(fw, w, d.(cur := w.lo), arch, FlashOps(img));
  }

  // ---------------------------------------------------------- meaning of an image

  /** One byte of the expanded image: left as it was, or given a value. */
  datatype Cell = Keep | Written(b: byte)

  function Overlay(old_bytes: seq<byte>, base: nat, cells: seq<Cell>): (r: seq<byte>)
    requires base + |cells| <= |old_bytes|
    ensures |r| == |old_bytes|
  {
    seq<byte>(|old_bytes|, (i: nat) requires i < |old_bytes| =>
      if base <= i < base + |cells| && cells[i - base].Written? then cells[i - base].b else old_bytes[i])
  }

  /** Bytes the chunk at s expands to, over the unbounded integers. */
  function Product(img: Image, s: nat): nat
  {
    Times(img.ChunkSz(s), img.BlkSz())
  }

  /** The cells the chunk at s stands for according to the format, if it is well formed. */
  function ChunkCells(img: Image, s: nat): Option<seq<Cell>>
    requires img.ChunkHdrSz() <= img.TotalSz(s)
  {
    var size := img.TotalSz(s) - img.ChunkHdrSz();
    var body := s + img.ChunkHdrSz();
    var len := Product(img, s);
    var ty := img.ChunkType(s);
    if ty == CHUNK_TYPE_RAW && size == len then
      Some(seq(len, (i: nat) => Written(img.At(body + i))))
    else if ty == CHUNK_TYPE_FILL && size == 4 then
      Some(seq(len, (i: nat) => Written(PatternByte(img.Bytes(body, 4), i))))
    else if ty == CHUNK_TYPE_DONT_CARE && size == 0 then
      Some(seq(len, (i: nat) => Keep))
    else if ty == CHUNK_TYPE_CRC32 && size == 4 then Some([])
    else None
  }

  /** The expansion of the n chunks from s on, all of which lie inside the image. */
  function Meaning(img: Image, s: nat, n: nat): Option<seq<Cell>>
    decreases n
  {
    if n == 0 then Some([])
    else if !(CHUNK_HEADER_SIZE <= img.ChunkHdrSz() <= img.TotalSz(s) && s + img.TotalSz(s) <= |img.data|) then None
    else
      match (ChunkCells(img, s), Meaning(img, s + img.TotalSz(s), n - 1))
      case (Some(c), Some(rest)) => Some(c + rest)
      case _ => None
  }

  /** No fill or don't-care chunk expands to 4 GiB or more. */
  predicate NoWrap(img: Image, s: nat, n: nat)
    decreases n
  {
    n == 0 ||
    ((img.ChunkType(s) == CHUNK_TYPE_CRC32 || Product(img, s) < TWO_32)
     && NoWrap(img, s + img.TotalSz(s), n - 1))
  }

  /**
   * `flash_fill` hands the disk the repeated pattern, whatever the pool buffer held,
   * exactly when nothing is to be filled or a word is 32 bits wide and divides the size.
   */
  lemma FillMeansPattern(size: nat, arch: Arch)
    ensures (forall pattern: seq<byte>, junk: nat -> byte | |pattern| == 4 ::
              FillBuffer(pattern, size, arch, junk) == seq<byte>(size, (i: nat) => PatternByte(pattern, i)))
            <==> size == 0 || (arch.IA32? && size % 4 == 0)
  {
    if size == 0 || (arch.IA32? && size % 4 == 0) {
      forall pattern: seq<byte>, junk: nat -> byte | |pattern| == 4
        ensures FillBuffer(pattern, size, arch, junk) == seq<byte>(size, (i: nat) => PatternByte(pattern, i))
      {
        assert 4 * arch.Words(size) == size;
      }
    } else {
      assert 4 * arch.Words(size) < size;
      var junk := (i: nat) => 1 as byte;
      var pattern: seq<byte> := [0, 0, 0, 0];
      assert FillBuffer(pattern, size, arch, junk)[size - 1] == 1;
      assert seq<byte>(size, (i: nat) => PatternByte(pattern, i))[size - 1] == 0;
    }
  }

  // ------------------------------------------------- meaning of operations

  function OpCells(op: Op): seq<Cell>
    requires op.Valid()
  {
    match op
    case Write(data) => seq(|data|, (i: nat) requires i < |data| => Written(data[i]))
    case Skip(size) => seq(size, (i: nat) => Keep)
    case Fill(pattern, size) => seq(size, (i: nat) => Written(PatternByte(pattern, i)))
    case Ignore => []
    case Reject(_) => []
  }

  function OpsCells(ops: seq<Op>): seq<Cell>
    requires ValidOps(ops)
  {
    if ops == [] then [] else OpCells(ops[0]) + OpsCells(ops[1..])
  }

  /** Operations that are not refused, and whose fills are whole words. */
  ghost predicate Clean(ops: seq<Op>)
  {
    forall op | op in ops :: !op.Reject? && (op.Fill? ==> op.size % 4 == 0)
  }

  lemma WriteInside(fw: Firmware, w: Window, d: Disk, data: seq<byte>, cells: seq<Cell>)
    requires Fits(w, d) && |data| < TWO_32
    requires |cells| == |data| && forall i | 0 <= i < |data| :: cells[i] == Written(data[i])
    ensures var (d', st) := WriteSpec(fw, w, d, data);
            && (st == Success ==>
                d.cur + |data| <= w.hi && d' == Disk(Overlay(d.bytes, d.cur, cells), d.cur + |data|, d.tick + 1))
            && (fw.Reliable() && d.cur + |data| <= w.hi ==> st == Success)
  {
    if d.cur + |data| <= w.hi {
      assert Splice(d.bytes, d.cur, data) == Overlay(d.bytes, d.cur, cells);
    }
  }

  lemma OverlayNothing(old_bytes: seq<byte>, base: nat)
    requires base <= |old_bytes|
    ensures Overlay(old_bytes, base, []) == old_bytes
  {
  }

  /**
   * If it succeeds, an accepted operation lays its cells over the bytes at the cursor; with
   * reliable firmware and room for the cells it does succeed.
   */
  lemma PerformMeaning(fw: Firmware, w: Window, d: Disk, op: Op)
    requires Fits(w, d) && op.Valid() && Clean([op])
    ensures var (d', st) := Perform(fw, w, d, IA32, op);
            && (st == Success ==>
                && d.cur + |OpCells(op)| <= w.hi && d'.cur == d.cur + |OpCells(op)|
                && d'.bytes == Overlay(d.bytes, d.cur, OpCells(op)))
            && (fw.Reliable() && d.cur + |OpCells(op)| <= w.hi ==> st == Success)
  {
    assert op in [op];
    match op
    case Write(data) =>
      WriteInside(fw, w, d, data, OpCells(op));
    case Fill(pattern, size) =>
      var buf := FillBuffer(pattern, size, IA32, (i: nat) => fw.junk(d.tick, i));
      assert 4 * IA32.Words(size) == size;
      assert forall i | 0 <= i < size :: OpCells(op)[i] == Written(buf[i]);
      WriteInside(fw, w, d.(tick := d.tick + 1), buf, OpCells(op));
    case Skip(size) =>
      if d.cur + size <= w.hi {
        assert d.bytes == Overlay(d.bytes, d.cur, OpCells(op));
      }
    case Ignore =>
      OverlayNothing(d.bytes, d.cur);
    case Reject(st) =>
      assert false;
  }

  lemma OverlayConcat(old_bytes: seq<byte>, base: nat, c: seq<Cell>, rest: seq<Cell>)
    requires base + |c| + |rest| <= |old_bytes|
    ensures Overlay(Overlay(old_bytes, base, c), base + |c|, rest) == Overlay(old_bytes, base, c + rest)
  {
  }

  /** Under any firmware, a run that succeeds lays the concatenation of its cells over the partition. */
  lemma {:induction false} ExecMeaning(fw: Firmware, w: Window, d: Disk, ops: seq<Op>)
    requires Fits(w, d) && ValidOps(ops) && Clean(ops)
    ensures var (d', st) := Exec(fw, w, d, IA32, ops);
            && (st == Success ==>
                && d.cur + |OpsCells(ops)| <= w.hi && d'.cur == d.cur + |OpsCells(ops)|
                && d'.bytes == Overlay(d.bytes, d.cur, OpsCells(ops)))
            && (fw.Reliable() && d.cur + |OpsCells(ops)| <= w.hi ==> st == Success)
    decreases |ops|
  {
    hide Perform, OpCells, Overlay, Firmware.Reliable;
    if ops == [] {
      OverlayNothing(d.bytes, d.cur);
    } else {
      PerformMeaning(fw, w, d, ops[0]);
      PerformMovesOver(fw, w, d, IA32, ops[0]);
      var d' := Perform(fw, w, d, IA32, ops[0]).0;
      ExecMeaning(fw, w, d', ops[1..]);
      if d.cur + |OpsCells(ops)| <= w.hi {
        OverlayConcat(d.bytes, d.cur, OpCells(ops[0]), OpsCells(ops[1..]));
      }
    }
  }

  /** A well-formed chunk: its operation stands for its cells, unless a 32-bit product wrapped. */
  lemma ChunkOpMeaning(img: Image, s: nat)
    requires img.BlkSz() > 0 && img.BlkSz() % 4 == 0
    requires img.ChunkHdrSz() <= img.TotalSz(s) && ChunkCells(img, s).Some?
    ensures var c := ChunkCells(img, s).value;
            var op := ChunkOp(img, s);
            && Clean([op])
            && (img.ChunkType(s) == CHUNK_TYPE_CRC32 || Product(img, s) < TWO_32 ==> OpCells(op) == c)
            && (img.ChunkType(s) != CHUNK_TYPE_CRC32 && Product(img, s) >= TWO_32 ==> |OpCells(op)| < |c|)
  {
    hide Image.U16At, Image.U32At, Rem, Times, PatternByte;
    RemOfMultiple(img.ChunkSz(s), img.BlkSz());
    TimesMultipleOf4(img.ChunkSz(s), img.BlkSz());
    var c := ChunkCells(img, s).value;
    var op := ChunkOp(img, s);
    var ty := img.ChunkType(s);
    if ty == CHUNK_TYPE_RAW {
      var body, size := s + img.ChunkHdrSz(), img.TotalSz(s) - img.ChunkHdrSz();
      assert op == Write(img.Bytes(body, size));
      assert forall i | 0 <= i < size :: c[i] == Written(img.Bytes(body, size)[i]);
      assert OpCells(op) == c;
    } else if ty == CHUNK_TYPE_FILL && Product(img, s) < TWO_32 {
      assert op == Op.Fill(img.Bytes(s + img.ChunkHdrSz(), 4), Product(img, s));
      assert OpCells(op) == c;
    }
  }

  lemma {:induction false} ProgramMeaning(img: Image, s: nat, rlen: nat, n: nat)
    requires img.BlkSz() > 0 && img.BlkSz() % 4 == 0
    requires Meaning(img, s, n).Some? && s + rlen >= |img.data|
    ensures var cells := Meaning(img, s, n).value;
            var ops := Program(img, s, rlen, n);
            && Clean(ops) && |OpsCells(ops)| <= |cells|
            && (NoWrap(img, s, n) <==> |OpsCells(ops)| == |cells|)
            && (NoWrap(img, s, n) ==> OpsCells(ops) == cells)
    decreases n
  {
    hide Image.U16At, Image.U32At, Product, ChunkOp, ChunkCells, OpCells;
    if n > 0 {
      var s' := s + img.TotalSz(s);
      var op := ChunkOp(img, s);
      var rest := Program(img, s', rlen - img.TotalSz(s), n - 1);
      ChunkOpMeaning(img, s);
      ProgramMeaning(img, s', rlen - img.TotalSz(s), n - 1);
      assert op in [op];
      assert ([op] + rest)[1..] == rest;
    }
  }

  /** The meaning of a whole image file, read by the sizes its own header gives. */
  function ImageMeaning(img: Image): Option<seq<Cell>>
  {
    if IsSparseImage(img) && img.BlkSz() > 0 && img.BlkSz() % 4 == 0 then
      Meaning(img, img.FileHdrSz(), img.TotalChunks())
    else None
  }

  /**
   * Main result: whatever the firmware does, if flashing a well-formed sparse image reports
   * success then it has moved the cursor to the end of the expanded image, and each partition
   * byte is the RAW byte, the FILL byte or the old byte, if and only if no chunk reaches
   * 4 GiB.
   */
  lemma FlashSparseMeaning(fw: Firmware, w: Window, d: Disk, img: Image)
    requires w.Valid(|d.bytes|) && |img.data| < TWO_32 && ImageMeaning(img).Some?
    requires Exec(fw, w, d.(cur := w.lo), IA32, FlashOps(img)).1 == Success
    ensures var cells := ImageMeaning(img).value;
            var d' := Exec(fw, w, d.(cur := w.lo), IA32, FlashOps(img)).0;
            var exact := NoWrap(img, img.FileHdrSz(), img.TotalChunks());
            if exact then d'.cur == w.lo + |cells| <= w.hi && d'.bytes == Overlay(d.bytes, w.lo, cells)
            else d'.cur != w.lo + |cells|
  {
    ProgramMeaning(img, img.FileHdrSz(), |img.data|, img.TotalChunks());
    ExecMeaning(fw, w, d.(cur := w.lo), FlashOps(img));
  }

  /** If a well-formed image fits the partition and the firmware is reliable, flashing it succeeds. */
  lemma FlashSparseSucceeds(fw: Firmware, w: Window, d: Disk, img: Image)
    requires w.Valid(|d.bytes|) && |img.data| < TWO_32 && fw.Reliable()
    requires ImageMeaning(img).Some? && w.lo + |ImageMeaning(img).value| <= w.hi
    ensures Exec(fw, w, d.(cur := w.lo), IA32, FlashOps(img)).1 == Success
  {
    ProgramMeaning(img, img.FileHdrSz(), |img.data|, img.TotalChunks());
    ExecMeaning(fw, w, d.(cur := w.lo), FlashOps(img));
  }

  /** Reading fewer chunks asks for the same operations, as far as it goes. */
  lemma {:induction false} ProgramPrefix(img: Image, s: nat, rlen: nat, n: nat, k: nat)
    requires k <= |Program(img, s, rlen, n)|
    ensures Program(img, s, rlen, n)[..k] == Program(img, s, rlen, k)
    decreases n
  {
    hide Image.U16At, Image.U32At, ChunkOp;
    if k > 0 && |Program(img, s, rlen, n)| > 1 {
      ProgramPrefix(img, s + img.TotalSz(s), rlen - img.TotalSz(s), n - 1, k - 1);
    }
  }

  /**
   * A run that fails at chunk k leaves the partition with the meaning of the chunks before
   * it, if those are well formed and below 4 GiB, plus at most chunk k's own range. Nothing
   * is asked of chunk k and those after it.
   */
  lemma FailureMeaning(fw: Firmware, w: Window, d: Disk, img: Image) returns (k: nat, before: Disk)
    requires w.Valid(|d.bytes|) && |img.data| < TWO_32
    requires IsSparseImage(img) && img.BlkSz() > 0 && img.BlkSz() % 4 == 0
    requires Exec(fw, w, d.(cur := w.lo), IA32, FlashOps(img)).1 != Success
    ensures k < |FlashOps(img)| && Fits(w, before)
    ensures MovedOver(w, before, Exec(fw, w, d.(cur := w.lo), IA32, FlashOps(img)).0)
    ensures Perform(fw, w, before, IA32, FlashOps(img)[k]) == Exec(fw, w, d.(cur := w.lo), IA32, FlashOps(img))
    ensures var start := img.FileHdrSz();
            Meaning(img, start, k).Some? && NoWrap(img, start, k) ==>
              var cells := Meaning(img, start, k).value;
              && w.lo + |cells| == before.cur <= w.hi
              && before.bytes == Overlay(d.bytes, w.lo, cells)
  {
    hide Image.U16At, Image.U32At, Exec, Perform, Program, Meaning, NoWrap, Overlay;
    var s, ops := img.FileHdrSz(), FlashOps(img);
    k, before := FailureIsLocal(fw, w, d.(cur := w.lo), IA32, ops);
    ProgramPrefix(img, s, |img.data|, img.TotalChunks(), k);
    if Meaning(img, s, k).Some? && NoWrap(img, s, k) {
      ProgramMeaning(img, s, |img.data|, k);
      ExecMeaning(fw, w, d.(cur := w.lo), ops[..k]);
    }
  }

  /** An expansion below 4 GiB cannot contain a wrapping chunk. */
  lemma {:induction false} SmallNeverWraps(img: Image, s: nat, n: nat)
    requires Meaning(img, s, n).Some? && |Meaning(img, s, n).value| < TWO_32
    ensures NoWrap(img, s, n)
    decreases n
  {
    if n > 0 {
      SmallNeverWraps(img, s + img.TotalSz(s), n - 1);
    }
  }

  // ------------------------------------------------------------ reference encoder

  datatype Chunk =
    | Raw(data: seq<byte>, blocks: nat)
    | Fill(pattern: seq<byte>, blocks: nat)
    | DontCare(blocks: nat)
    | Crc(sum: seq<byte>)
  {
    predicate Valid(blk: nat)
      requires blk > 0
    {
      match this
      case Raw(data, blocks) => |data| == Times(blocks, blk) && blocks < TWO_32 && CHUNK_HEADER_SIZE + |data| < TWO_32
      case Fill(pattern, blocks) => |pattern| == 4 && blocks < TWO_32
      case DontCare(blocks) => blocks < TWO_32
      case Crc(sum) => |sum| == 4
    }

    function Type(): nat
    {
      match this
      case Raw(_, _) => 0xCAC1
      case Fill(_, _) => 0xCAC2
      case DontCare(_) => 0xCAC3
      case Crc(_) => 0xCAC4
    }

    function Body(): seq<byte>
    {
      match this
      case Raw(data, _) => data
      case Fill(pattern, _) => pattern
      case DontCare(_) => []
      case Crc(sum) => sum
    }

    function Blocks(): nat
    {
      match this
      case Raw(_, blocks) => blocks
      case Fill(_, blocks) => blocks
      case DontCare(blocks) => blocks
      case Crc(_) => 0
    }

    function Cells(blk: nat): seq<Cell>
      requires blk > 0 && Valid(blk)
    {
      match this
      case Raw(data, _) => seq(|data|, (i: nat) requires i < |data| => Written(data[i]))
      case Fill(pattern, blocks) => seq(Times(blocks, blk), (i: nat) => Written(pattern[i % 4]))
      case DontCare(blocks) => seq(Times(blocks, blk), (i: nat) => Keep)
      case Crc(_) => []
    }

    function Encode(): seq<byte>
    {
      Put(Type(), 2) + Put(0, 2) + Put(Blocks(), 4) + Put(12 + |Body()|, 4) + Body()
    }
  }

  ghost predicate ValidChunks(chunks: seq<Chunk>, blk: nat)
  {
    && 0 < blk < TWO_32 && blk % 4 == 0 && |chunks| < TWO_32
    && forall c | c in chunks :: c.Valid(blk)
  }

  function Expand(chunks: seq<Chunk>, blk: nat): seq<Cell>
    requires blk > 0 && forall c | c in chunks :: c.Valid(blk)
  {
    if chunks == [] then [] else chunks[0].Cells(blk) + Expand(chunks[1..], blk)
  }

  function EncodeChunks(chunks: seq<Chunk>): seq<byte>
  {
    if chunks == [] then [] else chunks[0].Encode() + EncodeChunks(chunks[1..])
  }

  function EncodeHeader(chunkCount: nat, blk: nat, totalBlks: nat): (r: seq<byte>)
    ensures |r| == SPARSE_HEADER_SIZE
  {
    [0x3a, 0xff, 0x26, 0xed] + Put(1, 2) + Put(0, 2) + Put(28, 2) + Put(12, 2)
    + Put(blk, 4) + Put(totalBlks, 4) + Put(chunkCount, 4) + Put(0, 4)
  }

  /** `totalBlks` is a header field the flasher does not read. */
  function Encode(chunks: seq<Chunk>, blk: nat, totalBlks: nat): seq<byte>
  {
    EncodeHeader(|chunks|, blk, totalBlks) + EncodeChunks(chunks)
  }

  /** A slice of the encoded file, read back as a field. */
  lemma SliceAt(img: Image, at: nat, e: seq<byte>, i: nat, x: nat, n: nat)
    requires at + |e| <= |img.data| && img.data[at..at + |e|] == e
    requires i + n <= |e| && e[i..i + n] == Put(x, n) && x < Range(n)
    ensures Le(img.Bytes(at + i, n)) == x
  {
    forall k | 0 <= k < n
      ensures img.Bytes(at + i, n)[k] == Put(x, n)[k]
    {
      assert img.data[at + i + k] == img.data[at..at + |e|][i + k] == e[i + k] == e[i..i + n][k];
      assert img.Bytes(at + i, n)[k] == img.At(at + i + k);
    }
    assert img.Bytes(at + i, n) == Put(x, n);
    PutRoundTrip(x, n);
  }

  lemma MagicIsPut()
    ensures Put(SPARSE_HEADER_MAGIC, 4) == [0x3a, 0xff, 0x26, 0xed]
  {
    assert Put(0xed, 1) == [0xed] + Put(0, 0);
    assert Put(0xed26, 2) == [0x26] + Put(0xed, 1);
    assert Put(0xed26ff, 3) == [0xff] + Put(0xed26, 2);
  }

  lemma HeaderSlices(chunkCount: nat, blk: nat, totalBlks: nat)
    ensures var h := EncodeHeader(chunkCount, blk, totalBlks);
            && h[0..4] == Put(SPARSE_HEADER_MAGIC, 4) && h[4..6] == Put(1, 2)
            && h[8..10] == Put(SPARSE_HEADER_SIZE, 2) && h[10..12] == Put(CHUNK_HEADER_SIZE, 2)
            && h[12..16] == Put(blk, 4) && h[20..24] == Put(chunkCount, 4)
  {
    MagicIsPut();
    hide Put;
  }

  lemma HeaderFields(img: Image, chunkCount: nat, blk: nat, totalBlks: nat)
    requires chunkCount < TWO_32 && blk < TWO_32
    requires |img.data| >= SPARSE_HEADER_SIZE
    requires img.data[0..SPARSE_HEADER_SIZE] == EncodeHeader(chunkCount, blk, totalBlks)
    ensures IsSparseImage(img) && img.FileHdrSz() == SPARSE_HEADER_SIZE && img.ChunkHdrSz() == CHUNK_HEADER_SIZE
    ensures img.BlkSz() == blk && img.TotalChunks() == chunkCount
  {
    hide Put, Le, Image.Bytes;
    var h := EncodeHeader(chunkCount, blk, totalBlks);
    assert Range(4) == TWO_32 && Range(2) == 0x1_0000;
    HeaderSlices(chunkCount, blk, totalBlks);
    SliceAt(img, 0, h, 0, SPARSE_HEADER_MAGIC, 4);
    SliceAt(img, 0, h, 4, 1, 2);
    SliceAt(img, 0, h, 8, SPARSE_HEADER_SIZE, 2);
    SliceAt(img, 0, h, 10, CHUNK_HEADER_SIZE, 2);
    SliceAt(img, 0, h, 12, blk, 4);
    SliceAt(img, 0, h, 20, chunkCount, 4);
  }

  lemma ChunkFields(img: Image, s: nat, c: Chunk, blk: nat)
    requires blk > 0 && c.Valid(blk)
    requires s + |c.Encode()| <= |img.data| && img.data[s..s + |c.Encode()|] == c.Encode()
    ensures img.ChunkType(s) == c.Type() && img.ChunkSz(s) == c.Blocks()
    ensures img.TotalSz(s) == |c.Encode()| == CHUNK_HEADER_SIZE + |c.Body()|
    ensures forall i: nat | i < |c.Body()| :: img.At(s + CHUNK_HEADER_SIZE + i) == c.Body()[i]
  {
    hide Put, Le, Image.Bytes;
    var e := c.Encode();
    assert Range(4) == TWO_32 && Range(2) == 0x1_0000;
    SliceAt(img, s, e, 0, c.Type(), 2);
    SliceAt(img, s, e, 4, c.Blocks(), 4);
    SliceAt(img, s, e, 8, CHUNK_HEADER_SIZE + |c.Body()|, 4);
    forall i: nat | i < |c.Body()|
      ensures img.At(s + CHUNK_HEADER_SIZE + i) == c.Body()[i]
    {
      var k := CHUNK_HEADER_SIZE + i;
      assert img.data[s + k] == img.data[s..s + |e|][k] == e[k];
    }
  }

  lemma EncodedChunkCells(img: Image, s: nat, c: Chunk, blk: nat)
    requires blk > 0 && c.Valid(blk) && img.BlkSz() == blk && img.ChunkHdrSz() == CHUNK_HEADER_SIZE
    requires s + |c.Encode()| <= |img.data| && img.data[s..s + |c.Encode()|] == c.Encode()
    ensures img.TotalSz(s) == |c.Encode()| >= CHUNK_HEADER_SIZE
    ensures ChunkCells(img, s) == Some(c.Cells(blk))
  {
    ChunkFields(img, s, c, blk);
    var cells := c.Cells(blk);
    assert ChunkCells(img, s).Some?;
    assert ChunkCells(img, s).value == cells;
  }

  lemma {:induction false} EncodedMeaning(img: Image, s: nat, chunks: seq<Chunk>, blk: nat)
    requires blk > 0 && forall c | c in chunks :: c.Valid(blk)
    requires img.BlkSz() == blk && img.ChunkHdrSz() == CHUNK_HEADER_SIZE
    requires s <= |img.data| && img.data[s..] == EncodeChunks(chunks)
    ensures Meaning(img, s, |chunks|) == Some(Expand(chunks, blk))
    decreases |chunks|
  {
    hide Image.U16At, Image.U32At, ChunkCells, Chunk.Encode, Chunk.Cells;
    if chunks != [] {
      var e := chunks[0].Encode();
      assert img.data[s..s + |e|] == img.data[s..][..|e|] == e;
      EncodedChunkCells(img, s, chunks[0], blk);
      assert img.data[s + |e|..] == img.data[s..][|e|..] == EncodeChunks(chunks[1..]);
      EncodedMeaning(img, s + |e|, chunks[1..], blk);
    }
  }

  /** Round trip: decoding an encoded chunk list gives back exactly what the list stands for. */
  lemma EncodeRoundTrip(chunks: seq<Chunk>, blk: nat, totalBlks: nat, beyond: nat -> byte)
    requires ValidChunks(chunks, blk)
    ensures IsSparseImage(Image(Encode(chunks, blk, totalBlks), beyond))
    ensures ImageMeaning(Image(Encode(chunks, blk, totalBlks), beyond)) == Some(Expand(chunks, blk))
  {
    var img := Image(Encode(chunks, blk, totalBlks), beyond);
    HeaderFields(img, |chunks|, blk, totalBlks);
    assert img.data[SPARSE_HEADER_SIZE..] == EncodeChunks(chunks);
    EncodedMeaning(img, SPARSE_HEADER_SIZE, chunks, blk);
  }

  /** A well-formed image of 40 bytes that stands for exactly 4 GiB left alone: the cursor does not move at all. */
  lemma WrapWitness(beyond: nat -> byte)
    ensures var img := Image(Encode([DontCare(0x10_0000)], 4096, 0x10_0000), beyond);
            && |img.data| == 40
            && ImageMeaning(img).Some? && |ImageMeaning(img).value| == TWO_32
            && !NoWrap(img, img.FileHdrSz(), img.TotalChunks())
            && FlashOps(img) == [Skip(0)]
  {
    hide Put, Le, Image.Bytes, Times;
    var c := DontCare(0x10_0000);
    var img := Image(Encode([c], 4096, 0x10_0000), beyond);
    TimesIsProduct(0x10_0000, 4096);
    EncodeRoundTrip([c], 4096, 0x10_0000, beyond);
    assert Expand([c][1..], 4096) == [];
    assert EncodeChunks([c]) == c.Encode() && img.data[28..40] == c.Encode();
    HeaderFields(img, 1, 4096, 0x10_0000);
    ChunkFields(img, 28, c, 4096);
    assert Program(img, 40, 28, 0) == [];
  }

  /** The raw image an expansion denotes over a partition that held `old_bytes`. */
  function Materialise(cells: seq<Cell>, old_bytes: seq<byte>, base: nat): (r: seq<byte>)
    requires base + |cells| <= |old_bytes|
    ensures |r| == |cells|
  {
    seq<byte>(|cells|, (i: nat) requires i < |cells| =>
      match cells[i] case Written(b) => b case Keep => old_bytes[base + i])
  }

  /**
   * Flashing the encoded image leaves the same disk and cursor as writing the raw,
   * expanded image with `flash_write`.
   */
  lemma SparseEqualsRawWrite(fw: Firmware, w: Window, d: Disk, chunks: seq<Chunk>, blk: nat, totalBlks: nat,
      beyond: nat -> byte)
    requires w.Valid(|d.bytes|) && fw.Reliable() && ValidChunks(chunks, blk)
    requires |Encode(chunks, blk, totalBlks)| < TWO_32 && |Expand(chunks, blk)| < TWO_32
    requires w.lo + |Expand(chunks, blk)| <= w.hi
    ensures var raw := Materialise(Expand(chunks, blk), d.bytes, w.lo);
            var ops := FlashOps(Image(Encode(chunks, blk, totalBlks), beyond));
            var (viaSparse, st) := Exec(fw, w, d.(cur := w.lo), IA32, ops);
            var (viaRaw, st') := WriteSpec(fw, w, d.(cur := w.lo), raw);
            && st == Success == st'
            && viaSparse.bytes == viaRaw.bytes && viaSparse.cur == viaRaw.cur
  {
    hide Image.U16At, Image.U32At, Encode, Expand, Meaning, Program, Exec, NoWrap;
    var img := Image(Encode(chunks, blk, totalBlks), beyond);
    var cells := Expand(chunks, blk);
    EncodeRoundTrip(chunks, blk, totalBlks, beyond);
    FlashSparseSucceeds(fw, w, d, img);
    FlashSparseMeaning(fw, w, d, img);
    SmallNeverWraps(img, img.FileHdrSz(), img.TotalChunks());
    assert Splice(d.bytes, w.lo, Materialise(cells, d.bytes, w.lo)) == Overlay(d.bytes, w.lo, cells);
  }
}
