/**
 * How far the chunk loop of fastboot/sparse.c reads past the downloaded file. The loop
 * starts after the file header but takes the size of the whole file for what is left, so
 * its length tests let it go on past the end of a truncated or crafted image.
 */
module Overrun {
  import opened Machine
  import opened Flash
  import opened Sparse

  // ------------------------------------------------------------ chunk headers as bytes

  function HeaderType(h: seq<byte>): nat
    requires |h| == CHUNK_HEADER_SIZE
  {
    Le(h[0..2])
  }

  function HeaderBlocks(h: seq<byte>): nat
    requires |h| == CHUNK_HEADER_SIZE
  {
    Le(h[4..8])
  }

  function HeaderTotal(h: seq<byte>): nat
    requires |h| == CHUNK_HEADER_SIZE
  {
    Le(h[8..12])
  }

  /** The loop does not refuse this chunk header: it acts on the chunk, or faults on it. */
  predicate Honoured(h: seq<byte>, hdr: nat, blk: nat, rlen: nat)
    requires |h| == CHUNK_HEADER_SIZE
  {
    && hdr <= HeaderTotal(h) <= rlen
    && (HeaderType(h) in {CHUNK_TYPE_DONT_CARE, CHUNK_TYPE_FILL, CHUNK_TYPE_CRC32}
        || (HeaderType(h) == CHUNK_TYPE_RAW
            && (blk == 0
                || (Rem(HeaderTotal(h) - hdr, blk) == 0
                    && HeaderTotal(h) - hdr == Mul32(HeaderBlocks(h), blk)))))
  }

  /** A header of which only the first bytes are in the file can be completed to one that is honoured. */
  ghost predicate Completable(known: seq<byte>, hdr: nat, blk: nat, rlen: nat)
    requires |known| < CHUNK_HEADER_SIZE
  {
    exists rest: seq<byte> | |rest| == CHUNK_HEADER_SIZE - |known| :: Honoured(known + rest, hdr, blk, rlen)
  }

  /** The data of a RAW chunk that is written, and the pattern of a FILL chunk, lie inside the file. */
  predicate BodyInside(size: nat, h: seq<byte>, hdr: nat, blk: nat, s: nat)
    requires |h| == CHUNK_HEADER_SIZE && hdr <= HeaderTotal(h)
  {
    && (HeaderType(h) == CHUNK_TYPE_RAW && blk > 0 && HeaderTotal(h) > hdr ==> s + HeaderTotal(h) <= size)
    && (HeaderType(h) == CHUNK_TYPE_FILL ==> s + hdr + 4 <= size)
  }

  /**
   * Walking the chunks from s on, every header reached lies inside the file, or is cut off
   * so that no completion of it is honoured; so does every body that is used.
   */
  ghost predicate WalkInside(data: seq<byte>, hdr: nat, blk: nat, s: nat, rlen: nat, n: nat)
    decreases n
  {
    n == 0 || rlen < hdr ||
    if s + CHUNK_HEADER_SIZE > |data| then !Completable(if s < |data| then data[s..] else [], hdr, blk, rlen)
    else
      var h := data[s..s + CHUNK_HEADER_SIZE];
      Honoured(h, hdr, blk, rlen) ==>
        && BodyInside(|data|, h, hdr, blk, s)
        && ((HeaderType(h) == CHUNK_TYPE_RAW && blk == 0)
            || WalkInside(data, hdr, blk, s + HeaderTotal(h), rlen - HeaderTotal(h), n - 1))
  }

  /** The same of a whole file; its own header is read only if it is there. */
  ghost predicate ImageInside(data: seq<byte>)
  {
    var img := Image(data, (i: nat) => 0);
    IsSparseImage(img) ==>
      WalkInside(data, img.ChunkHdrSz(), img.BlkSz(), img.FileHdrSz(), |data|, img.TotalChunks())
  }

  // ------------------------------------------------------------ bytes and fields

  /** Two images that look the same from s on for n bytes have the same bytes there. */
  lemma SameBytes(img: Image, img': Image, s: nat, n: nat)
    requires forall i: nat | s <= i < s + n :: img.At(i) == img'.At(i)
    ensures forall a: nat, k: nat | s <= a && a + k <= s + n :: img.Bytes(a, k) == img'.Bytes(a, k)
  {
  }

  lemma ByteAt(img: Image, s: nat, n: nat, k: nat)
    requires k < n
    ensures img.Bytes(s, n)[k] == img.At(s + k)
  {
  }

  lemma BytesInside(img: Image, s: nat, n: nat)
    requires s + n <= |img.data|
    ensures img.Bytes(s, n) == img.data[s..s + n]
  {
    forall k: nat | k < n
      ensures img.Bytes(s, n)[k] == img.data[s..s + n][k]
    {
      ByteAt(img, s, n, k);
    }
  }

  /** The fields of a chunk header are those of its twelve bytes. */
  lemma FieldsOf(img: Image, s: nat)
    ensures var h := img.Bytes(s, CHUNK_HEADER_SIZE);
            && img.ChunkType(s) == HeaderType(h)
            && img.ChunkSz(s) == HeaderBlocks(h)
            && img.TotalSz(s) == HeaderTotal(h)
  {
    var h := img.Bytes(s, CHUNK_HEADER_SIZE);
    assert img.Bytes(s, 2) == h[0..2];
    assert img.Bytes(s + 4, 4) == h[4..8];
    assert img.Bytes(s + 8, 4) == h[8..12];
  }

  /** What the first step of the loop does, in terms of the twelve header bytes. */
  lemma FirstOp(img: Image, s: nat, rlen: nat, n: nat)
    requires n > 0 && img.ChunkHdrSz() <= rlen
    ensures var h := img.Bytes(s, CHUNK_HEADER_SIZE);
            var ops := Program(img, s, rlen, n);
            if !Honoured(h, img.ChunkHdrSz(), img.BlkSz(), rlen) then ops == [Reject(InvalidParameter)]
            else
              && img.ChunkHdrSz() <= img.TotalSz(s) <= rlen
              && ops != [] && ops[0] == ChunkOp(img, s) != Reject(InvalidParameter)
              && if HeaderType(h) == CHUNK_TYPE_RAW && img.BlkSz() == 0 then ops == [Reject(DivideFault)]
                 else ops[1..] == Program(img, s + img.TotalSz(s), rlen - img.TotalSz(s), n - 1)
  {
    hide Image.U16At, Image.U32At, Image.Bytes, Mul32, Rem;
    FieldsOf(img, s);
    if Honoured(img.Bytes(s, CHUNK_HEADER_SIZE), img.ChunkHdrSz(), img.BlkSz(), rlen) {
      var rest := Program(img, s + img.TotalSz(s), rlen - img.TotalSz(s), n - 1);
      assert ([ChunkOp(img, s)] + rest)[1..] == rest;
    }
  }

  /** The file header is the same whatever lies behind the file. */
  lemma SameFileHeader(img: Image, img': Image)
    requires img.data == img'.data
    ensures IsSparseImage(img) <==> IsSparseImage(img')
    ensures IsSparseImage(img) ==>
      && img.ChunkHdrSz() == img'.ChunkHdrSz() && img.FileHdrSz() == img'.FileHdrSz()
      && img.BlkSz() == img'.BlkSz() && img.TotalChunks() == img'.TotalChunks()
  {
    if |img.data| >= SPARSE_HEADER_SIZE {
      SameBytes(img, img', 0, SPARSE_HEADER_SIZE);
    }
  }

  // ------------------------------------------------------------ independent if the walk stays inside

  lemma BytesConcat(img: Image, s: nat, n: nat, m: nat)
    ensures img.Bytes(s, n + m) == img.Bytes(s, n) + img.Bytes(s + n, m)
  {
    var all, parts := img.Bytes(s, n + m), img.Bytes(s, n) + img.Bytes(s + n, m);
    forall k: nat | k < |all|
      ensures all[k] == parts[k]
    {
      ByteAt(img, s, n + m, k);
      if k < n {
        ByteAt(img, s, n, k);
      } else {
        ByteAt(img, s + n, m, k - n);
      }
    }
  }

  /** Twelve bytes of which the first ones are in the file. */
  lemma CutHeader(img: Image, s: nat)
    requires s + CHUNK_HEADER_SIZE > |img.data|
    ensures var known := if s < |img.data| then img.data[s..] else [];
            img.Bytes(s, CHUNK_HEADER_SIZE) == known + img.Bytes(s + |known|, CHUNK_HEADER_SIZE - |known|)
  {
    var known := if s < |img.data| then img.data[s..] else [];
    if s < |img.data| {
      BytesInside(img, s, |known|);
    }
    BytesConcat(img, s, |known|, CHUNK_HEADER_SIZE - |known|);
  }

  /** A chunk whose header and body lie inside the file asks for the same operation whatever lies behind. */
  lemma SameChunkOp(img: Image, img': Image, s: nat)
    requires img.data == img'.data && img.ChunkHdrSz() == img'.ChunkHdrSz() && img.BlkSz() == img'.BlkSz()
    requires s + CHUNK_HEADER_SIZE <= |img.data|
    requires var h := img.data[s..s + CHUNK_HEADER_SIZE];
             && img.ChunkHdrSz() <= HeaderTotal(h)
             && BodyInside(|img.data|, h, img.ChunkHdrSz(), img.BlkSz(), s)
    ensures img.TotalSz(s) == img'.TotalSz(s) == HeaderTotal(img.data[s..s + CHUNK_HEADER_SIZE])
    ensures ChunkOp(img, s) == ChunkOp(img', s)
  {
    hide Image.U16At, Image.U32At, Mul32, Rem;
    var h := img.data[s..s + CHUNK_HEADER_SIZE];
    BytesInside(img, s, CHUNK_HEADER_SIZE);
    BytesInside(img', s, CHUNK_HEADER_SIZE);
    FieldsOf(img, s);
    FieldsOf(img', s);
    var body, size := s + img.ChunkHdrSz(), HeaderTotal(h) - img.ChunkHdrSz();
    if HeaderType(h) == CHUNK_TYPE_RAW && img.BlkSz() > 0 && size > 0 {
      BytesInside(img, body, size);
      BytesInside(img', body, size);
    } else if HeaderType(h) == CHUNK_TYPE_FILL {
      BytesInside(img, body, 4);
      BytesInside(img', body, 4);
    }
  }

  lemma HonouredCovers(h: seq<byte>, hdr: nat, blk: nat, rlen: nat)
    requires |h| == CHUNK_HEADER_SIZE && Honoured(h, hdr, blk, rlen)
    ensures hdr <= HeaderTotal(h) <= rlen
  {
  }

  lemma NothingRead(img: Image, img': Image, s: nat, rlen: nat, n: nat)
    requires img.ChunkHdrSz() == img'.ChunkHdrSz()
    ensures n == 0 || rlen < img.ChunkHdrSz() ==> Program(img, s, rlen, n) == Program(img', s, rlen, n)
  {
  }

  lemma SameHeadAndTail(xs: seq<Op>, ys: seq<Op>)
    requires xs != [] && ys != [] && xs[0] == ys[0] && xs[1..] == ys[1..]
    ensures xs == ys
  {
    assert xs == [xs[0]] + xs[1..] && ys == [ys[0]] + ys[1..];
  }

  lemma {:induction false} SameProgram(img: Image, img': Image, s: nat, rlen: nat, n: nat)
    requires img.data == img'.data && img.ChunkHdrSz() == img'.ChunkHdrSz() && img.BlkSz() == img'.BlkSz()
    requires WalkInside(img.data, img.ChunkHdrSz(), img.BlkSz(), s, rlen, n)
    ensures Program(img, s, rlen, n) == Program(img', s, rlen, n)
    decreases n
  {
    hide Image.U16At, Image.U32At, Image.Bytes, ChunkOp, HeaderTotal, HeaderType, HeaderBlocks, Honoured;
    hide Program, BodyInside;
    NothingRead(img, img', s, rlen, n);
    var hdr, blk := img.ChunkHdrSz(), img.BlkSz();
    if n > 0 && rlen >= hdr {
      FirstOp(img, s, rlen, n);
      FirstOp(img', s, rlen, n);
      if s + CHUNK_HEADER_SIZE > |img.data| {
        CutHeader(img, s);
        CutHeader(img', s);
      } else {
        var h := img.data[s..s + CHUNK_HEADER_SIZE];
        BytesInside(img, s, CHUNK_HEADER_SIZE);
    BytesInside(img', s, CHUNK_HEADER_SIZE);
        if Honoured(h, hdr, blk, rlen) {
          HonouredCovers(h, hdr, blk, rlen);
          SameChunkOp(img, img', s);
          if !(HeaderType(h) == CHUNK_TYPE_RAW && blk == 0) {
            SameProgram(img, img', s + HeaderTotal(h), rlen - HeaderTotal(h), n - 1);
            SameHeadAndTail(Program(img, s, rlen, n), Program(img', s, rlen, n));
          }
        }
      }
    }
  }

  // ------------------------------------------------------------ dependent if it does not

  /** With its last byte 255, a total size is larger than what can be left where headers are cut off. */
  lemma HugeTotal(h: seq<byte>)
    requires |h| == CHUNK_HEADER_SIZE && h[11] == 255
    ensures HeaderTotal(h) >= 0xFF00_0000
  {
    var f := h[8..12];
    assert f[1..] == [f[1], f[2], f[3]];
    assert f[1..][1..] == [f[2], f[3]];
    assert f[1..][1..][1..] == [f[3]];
    assert Le(f[1..][1..][1..]) == 255 + 0x100 * Le(f[1..][1..][1..][1..]);
    assert Le(f[1..][1..]) == f[2] + 0x100 * Le(f[1..][1..][1..]);
    assert Le(f[1..]) == f[1] + 0x100 * Le(f[1..][1..]);
  }

  lemma BodyDiffers(img: Image, img': Image, s: nat)
    requires img.data == img'.data && img.ChunkHdrSz() == img'.ChunkHdrSz() && img.BlkSz() == img'.BlkSz()
    requires forall i: nat :: img.beyond(i) == 0 && img'.beyond(i) == 1
    requires s + CHUNK_HEADER_SIZE <= |img.data|
    requires var h := img.data[s..s + CHUNK_HEADER_SIZE];
             && (exists rlen: nat :: Honoured(h, img.ChunkHdrSz(), img.BlkSz(), rlen))
             && img.ChunkHdrSz() <= HeaderTotal(h)
             && !BodyInside(|img.data|, h, img.ChunkHdrSz(), img.BlkSz(), s)
    ensures img.TotalSz(s) == img'.TotalSz(s) == HeaderTotal(img.data[s..s + CHUNK_HEADER_SIZE])
    ensures ChunkOp(img, s) != ChunkOp(img', s)
  {
    hide Image.U16At, Image.U32At, Mul32, Rem;
    var h := img.data[s..s + CHUNK_HEADER_SIZE];
    BytesInside(img, s, CHUNK_HEADER_SIZE);
    BytesInside(img', s, CHUNK_HEADER_SIZE);
    FieldsOf(img, s);
    FieldsOf(img', s);
    var body, size := s + img.ChunkHdrSz(), HeaderTotal(h) - img.ChunkHdrSz();
    if HeaderType(h) == CHUNK_TYPE_RAW {
      ByteAt(img, body, size, size - 1);
      ByteAt(img', body, size, size - 1);
    } else {
      ByteAt(img, body, 4, 3);
      ByteAt(img', body, 4, 3);
    }
  }

  lemma CutDiffers(any: Image, s: nat, rlen: nat, n: nat) returns (b: nat -> byte, b': nat -> byte)
    requires IsSparseImage(any) && s + rlen == |any.data| + any.FileHdrSz() && |any.data| < TWO_32
    requires n > 0 && any.ChunkHdrSz() <= rlen && s + CHUNK_HEADER_SIZE > |any.data|
    requires Completable(if s < |any.data| then any.data[s..] else [], any.ChunkHdrSz(), any.BlkSz(), rlen)
    ensures Program(Image(any.data, b), s, rlen, n) != Program(Image(any.data, b'), s, rlen, n)
  {
    hide Image.U32At, ChunkOp, HeaderTotal, HeaderType, HeaderBlocks, Program, IsSparseImage, Mul32, Rem, Le;
    var data, hdr, blk := any.data, any.ChunkHdrSz(), any.BlkSz();
    var known := if s < |data| then data[s..] else [];
    var rest: seq<byte> :| |rest| == CHUNK_HEADER_SIZE - |known| && Honoured(known + rest, hdr, blk, rlen);
    var from := s + |known|;
    b := (i: nat) => if from <= i < from + |rest| then rest[i - from] else 0;
    b' := (i: nat) => 255;
    var img, img' := Image(data, b), Image(data, b');
    SameFileHeader(any, img);
    SameFileHeader(any, img');
    CutHeader(img, s);
    CutHeader(img', s);
    forall k: nat | k < |rest|
      ensures img.Bytes(from, |rest|)[k] == rest[k]
    {
      ByteAt(img, from, |rest|, k);
    }
    ByteAt(img', s, CHUNK_HEADER_SIZE, 11);
    HugeTotal(img'.Bytes(s, CHUNK_HEADER_SIZE));
    LeBound(any.Bytes(8, 2));
    assert Range(2) == 0x1_0000;
    FirstOp(img, s, rlen, n);
    FirstOp(img', s, rlen, n);
    assert img.Bytes(s, CHUNK_HEADER_SIZE) == known + rest;
    assert rlen < 0x1_0000 + CHUNK_HEADER_SIZE;
  }

  /** Two memories behind the file under which the loop asks for different operations. */
  lemma {:induction false} DifferentPrograms(any: Image, s: nat, rlen: nat, n: nat)
    returns (b: nat -> byte, b': nat -> byte)
    requires IsSparseImage(any) && s + rlen == |any.data| + any.FileHdrSz() && |any.data| < TWO_32
    requires !WalkInside(any.data, any.ChunkHdrSz(), any.BlkSz(), s, rlen, n)
    ensures Program(Image(any.data, b), s, rlen, n) != Program(Image(any.data, b'), s, rlen, n)
    decreases n
  {
    hide Image.U16At, Image.U32At, ChunkOp, HeaderTotal, HeaderType, HeaderBlocks, Honoured, Program, IsSparseImage;
    var data, hdr, blk := any.data, any.ChunkHdrSz(), any.BlkSz();
    if s + CHUNK_HEADER_SIZE > |data| {
      b, b' := CutDiffers(any, s, rlen, n);
    } else {
      var h := data[s..s + CHUNK_HEADER_SIZE];
      HonouredCovers(h, hdr, blk, rlen);
      if BodyInside(|data|, h, hdr, blk, s) {
        b, b' := DifferentPrograms(any, s + HeaderTotal(h), rlen - HeaderTotal(h), n - 1);
      } else {
        b, b' := (i: nat) => 0, (i: nat) => 1;
      }
      var img, img' := Image(data, b), Image(data, b');
      SameFileHeader(any, img);
      SameFileHeader(any, img');
      if !BodyInside(|data|, h, hdr, blk, s) {
        BodyDiffers(img, img', s);
      }
      BytesInside(img, s, CHUNK_HEADER_SIZE);
    BytesInside(img', s, CHUNK_HEADER_SIZE);
      FirstOp(img, s, rlen, n);
      FirstOp(img', s, rlen, n);
      FieldsOf(img, s);
      FieldsOf(img', s);
    }
  }

  // ------------------------------------------------------------ main results

  /**
   * Main result: what is flashed depends on the file alone, whatever lies behind it in
   * memory, if and only if the walk over its chunks stays inside the file.
   */
  lemma ReadsOnlyFileIff(data: seq<byte>)
    requires |data| < TWO_32
    ensures (forall b: nat -> byte, b': nat -> byte :: FlashOps(Image(data, b)) == FlashOps(Image(data, b')))
            <==> ImageInside(data)
  {
    hide Image.U16At, Image.U32At, IsSparseImage, Program, WalkInside;
    var zero := Image(data, (i: nat) => 0);
    if ImageInside(data) {
      forall b: nat -> byte, b': nat -> byte
        ensures FlashOps(Image(data, b)) == FlashOps(Image(data, b'))
      {
        var img, img' := Image(data, b), Image(data, b');
        SameFileHeader(zero, img);
        SameFileHeader(zero, img');
        if IsSparseImage(zero) {
          SameProgram(img, img', img.FileHdrSz(), |data|, img.TotalChunks());
        }
      }
    } else {
      var b, b' := DifferentPrograms(zero, zero.FileHdrSz(), |data|, zero.TotalChunks());
      SameFileHeader(zero, Image(data, b));
      SameFileHeader(zero, Image(data, b'));
      assert FlashOps(Image(data, b)) != FlashOps(Image(data, b'));
    }
  }

  /** Where the loop stands after k chunks from s on. */
  function ChunkEnd(img: Image, s: nat, k: nat): nat
    decreases k
  {
    if k == 0 then s else ChunkEnd(img, s + img.TotalSz(s), k - 1)
  }

  lemma {:induction false} ChunkEndBound(img: Image, s: nat, rlen: nat, n: nat, k: nat)
    requires k <= |Program(img, s, rlen, n)|
    requires forall op | op in Program(img, s, rlen, n)[..k] :: !op.Reject?
    ensures ChunkEnd(img, s, k) <= s + rlen
    decreases k
  {
    hide Image.U16At, Image.U32At, ChunkOp;
    if k > 0 {
      var ops := Program(img, s, rlen, n);
      assert ops[0] in ops[..k];
      var rest := Program(img, s + img.TotalSz(s), rlen - img.TotalSz(s), n - 1);
      assert ops[1..] == rest;
      assert forall op | op in rest[..k - 1] :: op in ops[..k];
      ChunkEndBound(img, s + img.TotalSz(s), rlen - img.TotalSz(s), n - 1, k - 1);
    }
  }

  /** No chunk that is not refused ends further behind the file than the size of the file header. */
  lemma OverrunAtMostHeader(img: Image, k: nat)
    requires |img.data| < TWO_32 && IsSparseImage(img) && k <= |FlashOps(img)|
    requires forall op | op in FlashOps(img)[..k] :: !op.Reject?
    ensures ChunkEnd(img, img.FileHdrSz(), k) <= |img.data| + img.FileHdrSz()
  {
    ChunkEndBound(img, img.FileHdrSz(), |img.data|, img.TotalChunks(), k);
  }

  /** Bytes from the end of the file up to this one can matter: the size of the file header, and one pattern. */
  function Reach(img: Image): nat
  {
    |img.data| + img.FileHdrSz() + 4
  }

  lemma ChunkReach(img: Image, img': Image, s: nat, rlen: nat)
    requires img.ChunkHdrSz() == img'.ChunkHdrSz() && img.BlkSz() == img'.BlkSz() && IsSparseImage(img)
    requires forall i: nat | i < Reach(img) :: img.At(i) == img'.At(i)
    requires s + rlen == |img.data| + img.FileHdrSz() && img.ChunkHdrSz() <= rlen
    ensures img.TotalSz(s) == img'.TotalSz(s)
    ensures img.ChunkHdrSz() <= img.TotalSz(s) <= rlen ==> ChunkOp(img, s) == ChunkOp(img', s)
  {
    hide Image.U16At, Image.U32At, Image.Bytes, Mul32, Rem, Le;
    SameBytes(img, img', 0, Reach(img));
    FieldsOf(img, s);
    FieldsOf(img', s);
  }

  lemma {:induction false} ProgramReach(img: Image, img': Image, s: nat, rlen: nat, n: nat)
    requires img.data == img'.data && IsSparseImage(img)
    requires img.ChunkHdrSz() == img'.ChunkHdrSz() && img.BlkSz() == img'.BlkSz()
    requires forall i: nat | i < Reach(img) :: img.At(i) == img'.At(i)
    requires s + rlen == |img.data| + img.FileHdrSz()
    ensures Program(img, s, rlen, n) == Program(img', s, rlen, n)
    decreases n
  {
    hide Image.U16At, Image.U32At, ChunkOp;
    if n > 0 && rlen >= img.ChunkHdrSz() {
      ChunkReach(img, img', s, rlen);
      var total := img.TotalSz(s);
      if img.ChunkHdrSz() <= total <= rlen {
        ProgramReach(img, img', s + total, rlen - total, n - 1);
      }
    }
  }

  /**
   * However malformed the file, nothing further behind it than the size of its file header
   * and one fill pattern has any influence.
   */
  lemma OverrunBound(data: seq<byte>, b: nat -> byte, b': nat -> byte)
    requires |data| < TWO_32
    requires forall i: nat | i < Reach(Image(data, b)) :: b(i) == b'(i)
    ensures FlashOps(Image(data, b)) == FlashOps(Image(data, b'))
  {
    hide Image.U16At, Image.U32At, IsSparseImage, Program;
    var img, img' := Image(data, b), Image(data, b');
    SameFileHeader(img, img');
    if IsSparseImage(img) {
      assert forall i: nat | i < Reach(img) :: img.At(i) == img'.At(i);
      ProgramReach(img, img', img.FileHdrSz(), |data|, img.TotalChunks());
    }
  }

  lemma WitnessOp(img: Image, body: seq<byte>)
    requires |body| == 16 && |img.data| == 28 && IsSparseImage(img)
    requires img.FileHdrSz() == 28 && img.ChunkHdrSz() == 12 && img.BlkSz() == 16 && img.TotalChunks() == 1
    requires img.ChunkType(28) == CHUNK_TYPE_RAW && img.ChunkSz(28) == 1 && img.TotalSz(28) == 28
    requires forall i: nat | i < 16 :: img.At(40 + i) == body[i]
    ensures FlashOps(img) == [Write(body)] && !ImageInside(img.data)
  {
    hide Image.U16At, Image.U32At;
    TimesIsProduct(1, 16);
    assert Rem(16, 16) == 0;
    forall k: nat | k < 16
      ensures img.Bytes(40, 16)[k] == body[k]
    {
      ByteAt(img, 40, 16, k);
    }
    assert Mul32(1, 16) == 16;
    assert ChunkOp(img, 28) == Write(body);
    assert Program(img, 56, 0, 0) == [];
    assert Program(img, 28, 28, 1) == [ChunkOp(img, 28)];
    FieldsOf(img, 28);
    var h := img.Bytes(28, CHUNK_HEADER_SIZE);
    assert [] + h == h && Honoured(h, 12, 16, 28);
    SameFileHeader(img, Image(img.data, (i: nat) => 0));
  }

  /** A file of nothing but its header, announcing one chunk: any sixteen bytes behind it get flashed. */
  lemma OverrunWitness(body: seq<byte>) returns (img: Image)
    requires |body| == 16
    ensures img.data == EncodeHeader(1, 16, 1) && |img.data| == 28
    ensures FlashOps(img) == [Write(body)] && !ImageInside(img.data)
  {
    hide Put, Le, Image.Bytes, Image.U16At, Image.U32At, FlashOps, ImageInside, Times;
    var c := Raw(body, 1);
    TimesIsProduct(1, 16);
    var all := Encode([c], 16, 1);
    assert EncodeChunks([c]) == c.Encode();
    assert all[..28] == EncodeHeader(1, 16, 1) && all[28..] == c.Encode();
    var whole := Image(all, (i: nat) => 0);
    img := Image(all[..28], (i: nat) => whole.At(i));
    HeaderFields(img, 1, 16, 1);
    ChunkFields(whole, 28, c, 16);
    SameBytes(img, whole, 0, 56);
    FieldsOf(img, 28);
    FieldsOf(whole, 28);
    WitnessOp(img, body);
  }
}
