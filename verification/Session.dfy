/**
 * A whole fastboot session, from the wire to the disk: a host downloads a sparse image and
 * flashes it. The protocol machine, the flashing engine and the image format meet here.
 */
module Session {
  import opened Machine
  import F = Flash
  import R = Erase
  import opened Sparse
  import opened Fastboot
  import opened Protocol
  import opened Commands

  /** The inputs of a host that downloads a payload and has it flashed, waiting for every reply. */
  function Inputs(payload: string, name: string, world: World): seq<Input>
  {
    [RxDone("download:" + HexOf(|payload|, 8), world), TxDone, RxDone(payload, world), TxDone,
     RxDone("flash:" + name, world)]
  }

  lemma RunOfFive(d: Dev, inputs: seq<Input>, d1: Dev, d2: Dev, d3: Dev, d4: Dev)
    requires |inputs| == 5
    requires Feasible(d, inputs[0]) && d1 == Step(d, inputs[0]) && Orderly(d, inputs[0])
    requires Feasible(d1, inputs[1]) && d2 == Step(d1, inputs[1]) && Orderly(d1, inputs[1])
    requires Feasible(d2, inputs[2]) && d3 == Step(d2, inputs[2]) && Orderly(d2, inputs[2])
    requires Feasible(d3, inputs[3]) && d4 == Step(d3, inputs[3]) && Orderly(d3, inputs[3])
    requires Feasible(d4, inputs[4]) && Orderly(d4, inputs[4])
    ensures FeasibleRun(d, inputs) && OrderlyRun(d, inputs) && RunOf(d, inputs) == Step(d4, inputs[4])
  {
    hide Feasible, Orderly, Step;
    var d5 := Step(d4, inputs[4]);
    assert FeasibleRun(d5, inputs[5..]) && OrderlyRun(d5, inputs[5..]) && RunOf(d5, inputs[5..]) == d5;
    assert inputs[4..][1..] == inputs[5..];
    assert FeasibleRun(d4, inputs[4..]) && OrderlyRun(d4, inputs[4..]) && RunOf(d4, inputs[4..]) == d5;
    assert inputs[3..][1..] == inputs[4..];
    assert FeasibleRun(d3, inputs[3..]) && OrderlyRun(d3, inputs[3..]) && RunOf(d3, inputs[3..]) == d5;
    assert inputs[2..][1..] == inputs[3..];
    assert FeasibleRun(d2, inputs[2..]) && OrderlyRun(d2, inputs[2..]) && RunOf(d2, inputs[2..]) == d5;
    assert inputs[1..][1..] == inputs[2..];
    assert FeasibleRun(d1, inputs[1..]) && OrderlyRun(d1, inputs[1..]) && RunOf(d1, inputs[1..]) == d5;
  }

  lemma DownloadIsOrderly(size: nat)
    requires size < TWO_32
    ensures Match(CmdList(), "download:" + HexOf(size, 8)) == Some((DownloadHandler, HexOf(size, 8)))
    ensures ParseSize(HexOf(size, 8)) == size
  {
    assert CmdList()[2] == ("download:", DownloadHandler);
    PrefixReachesHandler(2, HexOf(size, 8));
    SizeRoundTrip(size);
  }

  /**
   * Whatever happened before, a download of any payload followed by `flash:` is an orderly
   * run, and it ends with the answer to flashing exactly that payload.
   */
  lemma DownloadThenFlash(d: Dev, payload: string, name: string, world: World)
    requires AwaitsCommand(d)
    requires |payload| <= 500 * 1024 * 1024 && world.poolOk
    ensures var inputs := Inputs(payload, name, world);
            && FeasibleRun(d, inputs) && OrderlyRun(d, inputs)
            && RunOf(d, inputs).txq ==
               [OperationAnswer(world.labelOk, world.flash(Sight(Live(payload), |payload|), name))]
  {
    DownloadStarts(d, |payload|, world);
    FlashPrefix(name);
    DownloadIsOrderly(|payload|);
    hide Match, CmdList, HexOf, Handle, PhaseOf;
    var inputs := Inputs(payload, name, world);
    var d1 := Step(d, inputs[0]);
    var d2 := Step(d1, TxDone);
    assert d2.txq == [] && d2.rxq == [PayloadRead(|payload|)] && d2.state == Download;
    var d3 := Step(d2, inputs[2]);
    assert d3.txq == [Okay("")] && d3.rxq == [] && d3.Seen() == Sight(Live(payload), |payload|);
    var d4 := Step(d3, TxDone);
    assert d4.txq == [] && d4.rxq == [CommandRead];
    FlashCommand(d4, name, world);
    RunOfFive(d, inputs, d1, d2, d3, d4);
  }

  // ------------------------------------------------------------ down to the disk

  /** The bytes a handler finds behind what it is given; `memory` is what lies past a payload or in a freed buffer. */
  function DataOf(s: Sight, memory: nat -> byte): (r: seq<byte>)
    ensures |r| == s.size
  {
    seq<byte>(s.size, (i: nat) =>
      if s.buffer.Live? && i < |s.buffer.content| then s.buffer.content[i] as int % 256 else memory(i))
  }

  /** Bytes as they travel: one character each. */
  function AsText(bytes: seq<byte>): (r: string)
    ensures |r| == |bytes|
  {
    seq<char>(|bytes|, (i: nat) requires i < |bytes| => bytes[i] as char)
  }

  /** The partition a name stands for, the disk it is on, and what the firmware will do. */
  datatype Setting = Setting(fw: F.Firmware, lookup: string -> F.Lookup, disk: F.Disk, memory: nat -> byte)
  {
    ghost predicate Valid()
    {
      forall name | lookup(name).Partition? :: lookup(name).Win().Valid(|disk.bytes|)
    }

    /** What `flash` does with the bytes it is given. */
    function Outcome(s: Sight, name: string): (F.Disk, F.Status)
      requires Valid() && s.size < TWO_32
    {
      match lookup(name)
      case Failed(st) => (disk, st)
      case Partition(_, _, _) =>
        var w := lookup(name).Win();
        F.Exec(fw, w, disk.(cur := w.lo), F.IA32, F.FlashOps(F.Image(DataOf(s, memory), memory)))
    }

    /** The world's answers to `flash:` are those of the flashing engine. */
    ghost predicate Answers(world: World)
      requires Valid()
    {
      forall s: Sight, name: string | s.size < TWO_32 :: world.flash(s, name) <==> Outcome(s, name).1 == F.Success
    }
  }

  lemma TextRoundTrip(bytes: seq<byte>, memory: nat -> byte)
    ensures DataOf(Sight(Live(AsText(bytes)), |bytes|), memory) == bytes
  {
  }

  /**
   * Main result: in any state in which the device awaits a command, a host that downloads an
   * image that does not start like a sparse one and flashes it is answered OKAY only if the
   * partition then starts with the bytes of the image and every other byte of the disk is as
   * it was; and it is answered OKAY if the image fits and the firmware is reliable.
   */
  lemma RawSession(d: Dev, set_: Setting, world: World, name: string, image: seq<byte>)
    requires AwaitsCommand(d)
    requires set_.Valid() && set_.Answers(world) && world.poolOk && world.labelOk && set_.lookup(name).Partition?
    requires |image| <= 500 * 1024 * 1024 && !F.StartsSparse(image)
    ensures var inputs := Inputs(AsText(image), name, world);
            var part := set_.lookup(name);
            var lo, hi := part.startingLba * part.blockSize, (part.endingLba + 1) * part.blockSize;
            var (disk, st) := set_.Outcome(Sight(Live(AsText(image)), |image|), name);
            && FeasibleRun(d, inputs) && OrderlyRun(d, inputs)
            && RunOf(d, inputs).txq == [if st == F.Success then Okay("") else Fail("Flash failure")]
            && (st == F.Success ==> lo + |image| <= hi && F.HoldsRaw(disk.bytes, set_.disk.bytes, lo, image))
            && (set_.fw.Reliable() && lo + |image| <= hi ==> st == F.Success)
  {
    hide Inputs, RunOf, OrderlyRun, FeasibleRun, F.StartsSparse;
    hide F.Exec, F.FlashOps, F.Firmware.Reliable, F.HoldsRaw;
    DownloadThenFlash(d, AsText(image), name, world);
    TextRoundTrip(image, set_.memory);
    var w := set_.lookup(name).Win();
    F.RawMeaning(set_.fw, w, set_.disk, F.IA32, F.Image(image, set_.memory));
  }

  /**
   * Main result: in any state in which the device awaits a command, a host that downloads an
   * encoded sparse image of less than 4 GiB and flashes it is answered OKAY only if the
   * partition then holds exactly what the chunks stand for; and it is answered OKAY if the image fits and the
   * firmware is reliable.
   */
  lemma SparseSession(d: Dev, set_: Setting, world: World, name: string, chunks: seq<Chunk>, blk: nat, totalBlks: nat)
    requires AwaitsCommand(d)
    requires set_.Valid() && set_.Answers(world) && world.poolOk && world.labelOk && set_.lookup(name).Partition?
    requires ValidChunks(chunks, blk)
    requires |Encode(chunks, blk, totalBlks)| <= 500 * 1024 * 1024
    ensures var image := Encode(chunks, blk, totalBlks);
            var inputs := Inputs(AsText(image), name, world);
            var cells := Expand(chunks, blk);
            var part := set_.lookup(name);
            var lo, hi := part.startingLba * part.blockSize, (part.endingLba + 1) * part.blockSize;
            var (disk, st) := set_.Outcome(Sight(Live(AsText(image)), |image|), name);
            && FeasibleRun(d, inputs) && OrderlyRun(d, inputs)
            && RunOf(d, inputs).txq == [if st == F.Success then Okay("") else Fail("Flash failure")]
            && (st == F.Success && |cells| < TWO_32 ==>
                lo + |cells| <= hi <= |set_.disk.bytes| && disk.bytes == Overlay(set_.disk.bytes, lo, cells))
            && (set_.fw.Reliable() && lo + |cells| <= hi ==> st == F.Success)
  {
    hide Encode, Expand, Inputs, RunOf, OrderlyRun, FeasibleRun;
    hide F.Exec, F.FlashOps, F.Firmware.Reliable, Meaning, NoWrap, Overlay;
    var image := Encode(chunks, blk, totalBlks);
    DownloadThenFlash(d, AsText(image), name, world);
    TextRoundTrip(image, set_.memory);
    EncodeRoundTrip(chunks, blk, totalBlks, set_.memory);
    var img := F.Image(image, set_.memory);
    var w := set_.lookup(name).Win();
    if F.Exec(set_.fw, w, set_.disk.(cur := w.lo), F.IA32, F.FlashOps(img)).1 == F.Success {
      FlashSparseMeaning(set_.fw, w, set_.disk, img);
    }
    if set_.fw.Reliable() && w.lo + |Expand(chunks, blk)| <= w.hi {
      FlashSparseSucceeds(set_.fw, w, set_.disk, img);
    }
    if |Expand(chunks, blk)| < TWO_32 {
      SmallNeverWraps(img, img.FileHdrSz(), img.TotalChunks());
    }
  }

  // ------------------------------------------------------------ erasing

  /**
   * A host that has a partition erased is answered OKAY if the firmware is reliable, and only
   * if every block of the partition is then secure-erased, if its whole erase group belongs to
   * the partition, or zeroed; whatever the answer, all other blocks are as they were.
   */
  lemma EraseSession(d: Dev, world: World, name: string, part: R.Lookup, fw: R.Firmware, host: R.Host, m: R.Media)
    requires AwaitsCommand(d) && world.labelOk
    requires part.Partition? && part.start <= part.end + 1 && host != R.Mmc(0)
    requires world.erase(name) <==>
             R.Exec(fw, R.GroupOf(host), m, R.EraseOps(host, part.start, part.end)).1 == R.Success
    ensures var m' := R.Exec(fw, R.GroupOf(host), m, R.EraseOps(host, part.start, part.end)).0;
            var reply := OnRx(d, "erase:" + name, world).txq;
            && (reply == [Okay("")] || reply == [Fail("Flash failure")])
            && (R.Reliable(fw) ==> reply == [Okay("")])
            && (forall b: nat | b < |m.cells| && !(part.start <= b <= part.end) :: m'.cells[b] == m.cells[b])
            && (reply == [Okay("")] ==> forall b: nat | b < |m.cells| && part.start <= b <= part.end ::
                  m'.cells[b] == if R.WholeGroupIn(host, part.start, part.end, b) then R.SecureErased else R.Zeroed)
  {
    hide OnRx, R.Exec, R.EraseOps, R.WholeGroupIn, R.Reliable;
    EraseCommand(d, name, world);
    R.EraseMeaning(fw, host, m, part.start, part.end);
    if R.Reliable(fw) {
      R.EraseSucceeds(fw, host, m, part.start, part.end);
    }
    if world.erase(name) {
      forall b: nat | b < |m.cells| && part.start <= b <= part.end
        ensures R.Exec(fw, R.GroupOf(host), m, R.EraseOps(host, part.start, part.end)).0.cells[b] ==
                if R.WholeGroupIn(host, part.start, part.end, b) then R.SecureErased else R.Zeroed
      {
        R.EraseKinds(fw, host, m, part.start, part.end, b);
      }
    }
  }
}
