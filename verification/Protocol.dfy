/**
 * The fastboot protocol as the host sees it, and that every run of the device keeps to it.
 */
module Protocol {
  import opened Machine
  import opened Fastboot

  // ------------------------------------------------------------ the protocol, without the device

  /** Where a host that watches the wire stands in the exchange. */
  datatype Phase =
    | Idle                      // no command can be accepted
    | Awaiting                  // one command receive is posted
    | Serving(first: bool)      // a command is in; first until an INFO has been sent
    | Informing(v: Var)         // an INFO is on its way
    | Offering(size: nat)       // DATA is on its way, the payload receive not yet posted
    | Transfer(size: nat, offered: bool)  // payload receive posted; offered once DATA has gone out
    | Closing                   // the payload is in
    | Ending(last: Reply)       // the terminal reply is on its way
    | Violated

  function Next(p: Phase, e: Event): Phase
  {
    match (p, e)
    case (Idle, Posted(CommandRead)) => Awaiting
    case (Awaiting, Received(CommandRead)) => Serving(true)
    case (Serving(first), Sent(r)) =>
      (match r
       case Info(v) => Informing(v)
       case DataReply(n) => if first then Offering(n) else Violated
       case _ => Ending(r))
    case (Informing(v), Completed(r)) => if r == Info(v) then Serving(false) else Violated
    case (Offering(n), Posted(q)) => if q == PayloadRead(n) then Transfer(n, false) else Violated
    case (Transfer(n, false), Completed(r)) => if r == DataReply(n) then Transfer(n, true) else Violated
    case (Transfer(n, true), Received(q)) => if q == PayloadRead(n) then Closing else Violated
    case (Closing, Sent(r)) => if r.Terminal() then Ending(r) else Violated
    case (Ending(last), Completed(r)) => if r == last then Idle else Violated
    case _ => Violated
  }

  function PhaseOf(log: seq<Event>): Phase
  {
    if log == [] then Idle else Next(PhaseOf(log[..|log| - 1]), log[|log| - 1])
  }

  lemma PhaseAppend(log: seq<Event>, e: Event)
    ensures PhaseOf(log + [e]) == Next(PhaseOf(log), e)
  {
    assert (log + [e])[..|log|] == log;
  }

  function Commands(log: seq<Event>): nat
  {
    if log == [] then 0
    else Commands(log[..|log| - 1]) + if log[|log| - 1] == Received(CommandRead) then 1 else 0
  }

  function Terminals(log: seq<Event>): nat
  {
    if log == [] then 0
    else Terminals(log[..|log| - 1]) + if log[|log| - 1].Sent? && log[|log| - 1].reply.Terminal() then 1 else 0
  }

  /** Receives posted and not yet filled. */
  function Outstanding(log: seq<Event>): int
  {
    if log == [] then 0
    else Outstanding(log[..|log| - 1]) +
         (match log[|log| - 1] case Posted(_) => 1 case Received(_) => -1 case _ => 0)
  }

  /** In a conforming exchange every command has had exactly one terminal reply, but for the one in service. */
  lemma {:induction false} ConformingCounts(log: seq<Event>)
    requires PhaseOf(log) != Violated
    ensures Commands(log) == Terminals(log) +
            match PhaseOf(log) case Idle => 0 case Awaiting => 0 case Ending(_) => 0 case _ => 1
    ensures Outstanding(log) == match PhaseOf(log) case Awaiting => 1 case Transfer(_, _) => 1 case _ => 0
  {
    if log != [] {
      ConformingCounts(log[..|log| - 1]);
    }
  }

  // ------------------------------------------------------------ commands on the wire

  lemma {:induction false} MatchSkips(l: seq<(string, Handler)>, k: nat, text: string)
    requires k < |l| && l[k].0 <= text && text != []
    requires forall i | 0 <= i < k :: l[i].0 != [] && l[i].0[0] != text[0]
    ensures Match(l, text) == Some((l[k].1, text[|l[k].0|..]))
    decreases k
  {
    if k > 0 {
      MatchSkips(l[1..], k - 1, text);
    }
  }

  /** No registered prefix hides another: each one, followed by anything, reaches its own handler. */
  lemma PrefixReachesHandler(k: nat, arg: string)
    requires k < |CmdList()|
    ensures Match(CmdList(), CmdList()[k].0 + arg) == Some((CmdList()[k].1, arg))
  {
    var l := CmdList();
    assert forall i, j | 0 <= i < j < 6 :: l[i].0[0] != l[j].0[0];
    MatchSkips(l, k, l[k].0 + arg);
    assert (l[k].0 + arg)[|l[k].0|..] == arg;
  }

  // The download size on the wire: eight hexadecimal digits.

  function DigitChar(x: nat): char
    requires x < 16
  {
    "0123456789abcdef"[x]
  }

  function HexOf(x: nat, n: nat): (r: string)
    ensures |r| == n && forall c | c in r :: HexDigit(c).Some?
  {
    if n == 0 then [] else HexOf(x / 16, n - 1) + [DigitChar(x % 16)]
  }

  function Range16(n: nat): nat
  {
    if n == 0 then 1 else 16 * Range16(n - 1)
  }

  lemma {:induction false} HexAppend(s: string, c: char, value: nat)
    requires (forall x | x in s :: HexDigit(x).Some?) && HexDigit(c).Some?
    ensures HexValue(s + [c], value) == (HexValue(s, value) * 16 + HexDigit(c).value) % TWO_32
    decreases |s|
  {
    if s == [] {
      assert s + [c] == [c] && [c][1..] == [];
    } else {
      assert (s + [c])[1..] == s[1..] + [c];
      HexAppend(s[1..], c, (value * 16 + HexDigit(s[0]).value) % TWO_32);
    }
  }

  lemma DigitRoundTrip(x: nat)
    requires x < 16
    ensures HexDigit(DigitChar(x)) == Some(x) && DigitChar(x) != 'x'
  {
  }

  lemma {:induction false} HexRoundTrip(x: nat, n: nat)
    requires x < Range16(n) && x < TWO_32
    ensures HexValue(HexOf(x, n), 0) == x
  {
    hide HexDigit, DigitChar;
    if n > 0 {
      HexRoundTrip(x / 16, n - 1);
      DigitRoundTrip(x % 16);
      HexAppend(HexOf(x / 16, n - 1), DigitChar(x % 16), 0);
    }
  }

  /** A size written as %08x is read back as that size. */
  lemma SizeRoundTrip(size: nat)
    requires size < TWO_32
    ensures ParseSize(HexOf(size, 8)) == size
  {
    assert Range16(8) == TWO_32;
    HexRoundTrip(size, 8);
    var s := HexOf(size, 8);
    assert s[1] in s && HexDigit(s[1]).Some? && s[..2][1] == s[1];
    assert s[..2] != "0x";
    hide HexOf, HexValue, HexDigit;
  }

  // ------------------------------------------------------------ the device keeps to it

  ghost predicate Agrees(d: Dev)
  {
    var phase := PhaseOf(d.log);
    && (d.state != Getvar ==> d.cursor == [])
    && match d.state
       case Offline => d.log == [] && d.rxq == [] && d.txq == []
       case Complete =>
         || (phase == Awaiting && d.rxq == [CommandRead] && d.txq == [])
         || (phase.Ending? && d.rxq == [] && d.txq == [phase.last])
       case Download =>
         && phase.Transfer? && phase.size == d.downloadSize && d.rxq == [PayloadRead(phase.size)]
         && d.txq == if phase.offered then [] else [DataReply(phase.size)]
       case Getvar => phase.Informing? && d.rxq == [] && d.txq == [Info(phase.v)]
       case Command => false
  }

  /** The exchange conforms; and unless the device has left fastboot, queues, state and wire agree. */
  ghost predicate Inv(d: Dev)
  {
    PhaseOf(d.log) != Violated && (d.halted || Agrees(d))
  }

  /**
   * The world is orderly: the host sends its payload only after DATA has gone out, a
   * download buffer can be allocated, and `boot` does not fail once it has sent its OKAY.
   */
  predicate Orderly(d: Dev, i: Input)
  {
    match i
    case Configured => true
    case TxDone => true
    case RxDone(text, world) =>
      match d.state
      case Download => d.txq == []
      case Complete =>
        (match Match(CmdList(), text)
         case Some((DownloadHandler, arg)) => ParseSize(arg) <= MAX_DOWNLOAD_SIZE ==> world.poolOk
         case Some((Boot, _)) => world.boot(d.Seen()) != FailsAfterExit
         case _ => true)
      case _ => true
  }

  lemma StartInv(d: Dev)
    requires Inv(d) && Feasible(d, Configured)
    ensures Inv(OnStart(d))
  {
    PhaseAppend(d.log, Posted(CommandRead));
  }

  lemma TxInv(d: Dev)
    requires Inv(d) && Feasible(d, TxDone)
    ensures Inv(OnTx(d))
  {
    hide PhaseOf;
    var log := d.log + [Completed(d.txq[0])];
    PhaseAppend(d.log, Completed(d.txq[0]));
    PhaseAppend(log, Posted(CommandRead));
    PhaseAppend(log, Sent(Okay("")));
    if d.cursor != [] {
      PhaseAppend(log, Sent(Info(d.cursor[0])));
    }
  }

  /** Sending a terminal reply from a phase that allows it closes the exchange. */
  lemma FinishInv(d: Dev, r: Reply)
    requires PhaseOf(d.log).Serving? || PhaseOf(d.log) == Closing
    requires r.Terminal() && d.rxq == [] && d.txq == [] && d.cursor == []
    ensures Inv(Finish(d, r))
  {
    PhaseAppend(d.log, Sent(r));
  }

  lemma TerminalAnswer(labelOk: bool, ok: bool)
    ensures OperationAnswer(labelOk, ok).Terminal()
  {
  }

  lemma HandleDownloadInv(d: Dev, arg: string, poolOk: bool)
    requires PhaseOf(d.log) == Serving(true) && d.state == Command && !d.halted
    requires d.rxq == [] && d.txq == [] && d.cursor == []
    ensures var d' := CmdDownload(d, arg, poolOk);
            && d'.state != Command
            && if ParseSize(arg) <= MAX_DOWNLOAD_SIZE ==> poolOk then Inv(d') else PhaseOf(d'.log) == Violated
  {
    hide PhaseOf, ParseSize;
    var size := ParseSize(arg);
    FinishInv(d.(downloadSize := size), Fail("data too large"));
    var log := d.log + [Sent(DataReply(size))];
    PhaseAppend(d.log, Sent(DataReply(size)));
    PhaseAppend(log, Posted(PayloadRead(size)));
    PhaseAppend(log, Sent(Fail("Memory allocation failure")));
  }

  lemma HandleBootInv(d: Dev, end: BootEnd)
    requires PhaseOf(d.log) == Serving(true) && d.state == Command && !d.halted
    requires d.rxq == [] && d.txq == [] && d.cursor == []
    ensures var d' := CmdBoot(d, end);
            && d'.state != Command
            && if end != FailsAfterExit then Inv(d') else PhaseOf(d'.log) == Violated
  {
    hide PhaseOf;
    PhaseAppend(d.log, Sent(Fail("boot failure")));
    PhaseAppend(d.log, Sent(Okay("")));
    PhaseAppend(d.log + [Sent(Okay(""))], Sent(Fail("boot failure")));
  }

  /** A command that is served conforms, or breaks the exchange for good. */
  lemma HandleInv(d: Dev, h: Handler, arg: string, world: World)
    requires PhaseOf(d.log) == Serving(true) && d.state == Command && !d.halted
    requires d.rxq == [] && d.txq == [] && d.cursor == []
    ensures var d' := Handle(d, h, arg, world);
            var d'' := if d'.state == Command && !d'.halted then Finish(d', Fail("unknown reason")) else d';
            if (h == DownloadHandler && ParseSize(arg) <= MAX_DOWNLOAD_SIZE ==> world.poolOk)
               && (h == Boot ==> world.boot(d.Seen()) != FailsAfterExit)
            then Inv(d'') else PhaseOf(d''.log) == Violated
  {
    hide PhaseOf, ParseSize, Lookup, OperationAnswer;
    match h
    case Reboot =>
      FinishInv(d, Fail("unknown reason"));
    case Flash =>
      TerminalAnswer(world.labelOk, world.flash(d.Seen(), arg));
      FinishInv(d, OperationAnswer(world.labelOk, world.flash(d.Seen(), arg)));
    case Erase =>
      TerminalAnswer(world.labelOk, world.erase(arg));
      FinishInv(d, OperationAnswer(world.labelOk, world.erase(arg)));
    case GetvarHandler =>
      if arg == "all" {
        if d.vars != [] {
          PhaseAppend(d.log, Sent(Info(d.vars[0])));
        } else {
          FinishInv(d, Okay(""));
        }
      } else {
        FinishInv(d, Okay(match Lookup(d.vars, arg) case Some(value) => value case None => ""));
      }
    case DownloadHandler =>
      HandleDownloadInv(d, arg, world.poolOk);
    case Boot =>
      HandleBootInv(d, world.boot(d.Seen()));
  }

  lemma RxInvIff(d: Dev, text: string, world: World)
    requires Inv(d) && Feasible(d, RxDone(text, world))
    ensures if Orderly(d, RxDone(text, world)) then Inv(OnRx(d, text, world))
            else PhaseOf(OnRx(d, text, world).log) == Violated
  {
    hide PhaseOf, ParseSize, Match, CmdList, Handle;
    PhaseAppend(d.log, Received(d.rxq[0]));
    var d1 := d.(rxq := d.rxq[1..], log := d.log + [Received(d.rxq[0])], state := Command);
    match d.state
    case Complete =>
      match Match(CmdList(), text) {
        case None => FinishInv(d1, Fail("unknown command"));
        case Some((h, arg)) => HandleInv(d1, h, arg, world);
      }
    case Download =>
      if d.txq == [] {
        FinishInv(d1.(buffer := Live(text), payload := Some(text)), Okay(""));
        FinishInv(d1, Fail("Received"));
      } else {
        PhaseAppend(d1.log, Sent(Okay("")));
        PhaseAppend(d1.log, Sent(Fail("Received")));
      }
  }

  /**
   * One callback: from a conforming state the device stays conforming if the world was
   * orderly, and otherwise breaks the exchange at once.
   */
  lemma StepInvIff(d: Dev, i: Input)
    requires Inv(d) && Feasible(d, i)
    ensures if Orderly(d, i) then Inv(Step(d, i)) else PhaseOf(Step(d, i).log) == Violated
  {
    match i
    case Configured => StartInv(d);
    case TxDone => TxInv(d);
    case RxDone(text, world) => RxInvIff(d, text, world);
  }

  // ------------------------------------------------------------ every run

  /** Inputs the transport can deliver one after the other. */
  ghost predicate FeasibleRun(d: Dev, inputs: seq<Input>)
    decreases |inputs|
  {
    inputs == [] || (Feasible(d, inputs[0]) && FeasibleRun(Step(d, inputs[0]), inputs[1..]))
  }

  ghost predicate OrderlyRun(d: Dev, inputs: seq<Input>)
    requires FeasibleRun(d, inputs)
    decreases |inputs|
  {
    inputs == [] || (Orderly(d, inputs[0]) && OrderlyRun(Step(d, inputs[0]), inputs[1..]))
  }

  ghost function RunOf(d: Dev, inputs: seq<Input>): Dev
    requires FeasibleRun(d, inputs)
    decreases |inputs|
  {
    if inputs == [] then d else RunOf(Step(d, inputs[0]), inputs[1..])
  }

  lemma HandleLogs(d: Dev, h: Handler, arg: string, world: World)
    ensures d.log <= Handle(d, h, arg, world).log
  {
    hide ParseSize, Lookup, OperationAnswer;
    match h
    case Reboot =>
    case Flash =>
    case Erase =>
    case GetvarHandler =>
    case DownloadHandler =>
    case Boot =>
  }

  /** Events are only ever added to the log. */
  lemma StepLogs(d: Dev, i: Input)
    requires Feasible(d, i)
    ensures d.log <= Step(d, i).log
  {
    hide Match, CmdList, Handle;
    if i.RxDone? && d.state == Complete {
      var d1 := d.(rxq := d.rxq[1..], log := d.log + [Received(d.rxq[0])], state := Command);
      var m := Match(CmdList(), i.text);
      if m.Some? {
        HandleLogs(d1, m.value.0, m.value.1, i.world);
      }
    }
  }

  lemma {:induction false} ViolatedStays(log: seq<Event>, log': seq<Event>)
    requires log <= log' && PhaseOf(log) == Violated
    ensures PhaseOf(log') == Violated
    decreases |log'|
  {
    if log != log' {
      ViolatedStays(log, log'[..|log'| - 1]);
    }
  }

  lemma {:induction false} ViolatedRun(d: Dev, inputs: seq<Input>)
    requires FeasibleRun(d, inputs) && PhaseOf(d.log) == Violated
    ensures PhaseOf(RunOf(d, inputs).log) == Violated
    decreases |inputs|
  {
    hide Step, PhaseOf;
    if inputs != [] {
      StepLogs(d, inputs[0]);
      ViolatedStays(d.log, Step(d, inputs[0]).log);
      ViolatedRun(Step(d, inputs[0]), inputs[1..]);
    }
  }

  lemma {:induction false} RunInvIff(d: Dev, inputs: seq<Input>)
    requires Inv(d) && FeasibleRun(d, inputs)
    ensures if OrderlyRun(d, inputs) then Inv(RunOf(d, inputs)) else PhaseOf(RunOf(d, inputs).log) == Violated
    decreases |inputs|
  {
    hide Step, PhaseOf;
    if inputs != [] {
      StepInvIff(d, inputs[0]);
      if Orderly(d, inputs[0]) {
        RunInvIff(Step(d, inputs[0]), inputs[1..]);
      } else {
        ViolatedRun(Step(d, inputs[0]), inputs[1..]);
      }
    }
  }

  /** The device as `fastboot_start` leaves it, with any published variables. */
  function Initial(vars: seq<Var>): Dev
  {
    Dev(Offline, vars, [], Null, 0, None, false, [], [], [])
  }

  /**
   * Main result: a run conforms to the protocol if and only if it is orderly, whether or not
   * the device has left fastboot by booting or resetting. Then each command has had one
   * terminal reply, but for the one in service, and at most one receive is outstanding; a
   * command receive is posted only in phase Idle, after the last terminal reply has gone out.
   */
  lemma EveryRunConformsIff(vars: seq<Var>, inputs: seq<Input>)
    requires FeasibleRun(Initial(vars), inputs)
    ensures var d := RunOf(Initial(vars), inputs);
            && (PhaseOf(d.log) != Violated <==> OrderlyRun(Initial(vars), inputs))
            && (OrderlyRun(Initial(vars), inputs) ==>
                && Terminals(d.log) <= Commands(d.log) <= Terminals(d.log) + 1
                && 0 <= Outstanding(d.log) <= 1
                && (!d.halted ==> |d.rxq| == Outstanding(d.log))
                && (!d.halted && d.state == Complete ==> Commands(d.log) == Terminals(d.log)))
  {
    RunInvIff(Initial(vars), inputs);
    var d := RunOf(Initial(vars), inputs);
    if PhaseOf(d.log) != Violated {
      ConformingCounts(d.log);
    }
  }

  /** A world in which everything that is asked of it succeeds. */
  function Kind(): World
  {
    World(true, (s: Sight, name: string) => true, (name: string) => true, true, (s: Sight) => NeverReturns, false)
  }

  /** A download command that can be served: DATA is sent and the payload receive posted. */
  lemma DownloadStarts(d: Dev, size: nat, world: World)
    requires d.state == Complete && d.rxq == [CommandRead] && d.txq == [] && size <= 500 * 1024 * 1024 && world.poolOk
    ensures OnRx(d, "download:" + HexOf(size, 8), world) ==
            d.(state := Download, buffer := Filling, downloadSize := size,
               rxq := [PayloadRead(size)], txq := [DataReply(size)],
               log := d.log + [Received(CommandRead)] + [Sent(DataReply(size))] + [Posted(PayloadRead(size))])
  {
    SizeRoundTrip(size);
    PrefixReachesHandler(2, HexOf(size, 8));
    hide Match, CmdList, ParseSize, HexOf;
    assert d.rxq[1..] == [];
    assert [] + [DataReply(size)] == [DataReply(size)] && [] + [PayloadRead(size)] == [PayloadRead(size)];
  }

  lemma EarlyPayload(d: Dev, payload: Input)
    requires d.state == Download && d.rxq == [PayloadRead(1)] && d.txq == [DataReply(1)] && !d.halted
    requires payload.RxDone? && payload.text == "x" && d.downloadSize == 1
    ensures FeasibleRun(d, [payload, TxDone, TxDone]) && !OrderlyRun(d, [payload, TxDone, TxDone])
    ensures RunOf(d, [payload, TxDone, TxDone]).rxq == [CommandRead, CommandRead]
  {
    hide Match, CmdList, Handle;
    var d3 := Step(d, payload);
    assert d3.txq == [DataReply(1), Okay("")] && d3.rxq == [] && d3.state == Complete && !d3.halted;
    var d4 := Step(d3, TxDone);
    assert d4.txq == [Okay("")] && d4.rxq == [CommandRead];
    var d5 := Step(d4, TxDone);
    assert d5.rxq == [CommandRead, CommandRead];
    assert [payload, TxDone, TxDone][1..] == [TxDone, TxDone];
    assert [TxDone, TxDone][1..] == [TxDone] && [TxDone][1..] == [];
    assert FeasibleRun(d5, []) && RunOf(d5, []) == d5;
    assert FeasibleRun(d4, [TxDone]) && RunOf(d4, [TxDone]) == d5;
    assert FeasibleRun(d3, [TxDone, TxDone]) && RunOf(d3, [TxDone, TxDone]) == d5;
  }

  /**
   * A host that does not wait for DATA: its payload is taken for the answer to a reply that
   * is still on its way, and two command receives end up posted at once.
   */
  lemma EarlyPayloadWitness(vars: seq<Var>) returns (inputs: seq<Input>)
    ensures FeasibleRun(Initial(vars), inputs) && !OrderlyRun(Initial(vars), inputs)
    ensures RunOf(Initial(vars), inputs).rxq == [CommandRead, CommandRead]
  {
    hide Match, CmdList, HexOf, Handle, PhaseOf;
    var command, payload := RxDone("download:" + HexOf(1, 8), Kind()), RxDone("x", Kind());
    var d1 := Step(Initial(vars), Configured);
    assert d1.rxq == [CommandRead];
    DownloadStarts(d1, 1, Kind());
    var d2 := Step(d1, command);
    EarlyPayload(d2, payload);
    inputs := [Configured, command, payload, TxDone, TxDone];
    assert inputs[1..] == [command, payload, TxDone, TxDone];
    assert inputs[1..][1..] == [payload, TxDone, TxDone];
  }

  // ------------------------------------------------------------ what handlers act on

  /** The handlers are given exactly the last payload that was received in full. */
  predicate Exact(d: Dev)
  {
    d.payload.Some? && d.Seen() == Sight(Live(d.payload.value), |d.payload.value|)
  }

  /** The input completes a download. */
  predicate FillsUp(d: Dev, i: Input)
  {
    i.RxDone? && d.state == Download && |i.text| == d.downloadSize
  }

  /** The input is a `download:` command, a payload of the wrong length, or a `boot` that comes back. */
  predicate Spoils(d: Dev, i: Input)
  {
    i.RxDone? &&
    match d.state
    case Download => |i.text| != d.downloadSize
    case Complete =>
      (match Match(CmdList(), i.text)
       case Some((DownloadHandler, _)) => true
       case Some((Boot, _)) => i.world.boot(d.Seen()) != NeverReturns
       case _ => false)
    case _ => false
  }

  /** What has been received in full was not too large. */
  predicate SizesOk(d: Dev)
  {
    && (d.payload.Some? ==> |d.payload.value| <= MAX_DOWNLOAD_SIZE)
    && (d.state == Download ==> d.downloadSize <= MAX_DOWNLOAD_SIZE)
  }

  lemma HandleExact(d: Dev, h: Handler, arg: string, world: World)
    requires SizesOk(d) && d.state == Command
    ensures var d' := Handle(d, h, arg, world);
            && SizesOk(d')
            && (Exact(d') <==>
                Exact(d) && h != DownloadHandler && (h == Boot ==> world.boot(d.Seen()) == NeverReturns))
  {
    hide ParseSize, Lookup, OperationAnswer;
    match h
    case Reboot =>
    case Flash =>
    case Erase =>
    case GetvarHandler =>
    case DownloadHandler =>
    case Boot =>
  }

  lemma ExactStepIff(d: Dev, i: Input)
    requires Feasible(d, i) && SizesOk(d)
    ensures SizesOk(Step(d, i))
    ensures Exact(Step(d, i)) <==> FillsUp(d, i) || (Exact(d) && !Spoils(d, i))
  {
    hide Match, CmdList, Handle;
    if i.RxDone? && d.state == Complete {
      var d1 := d.(rxq := d.rxq[1..], log := d.log + [Received(d.rxq[0])], state := Command);
      var m := Match(CmdList(), i.text);
      if m.Some? {
        HandleExact(d1, m.value.0, m.value.1, i.world);
      }
    }
  }

  /** Since the last completed download there was no other download command and no boot that came back. */
  ghost predicate Undisturbed(d: Dev, inputs: seq<Input>, held: bool)
    requires FeasibleRun(d, inputs)
    decreases |inputs|
  {
    if inputs == [] then held
    else
      Undisturbed(Step(d, inputs[0]), inputs[1..], FillsUp(d, inputs[0]) || (held && !Spoils(d, inputs[0])))
  }

  lemma {:induction false} ExactRunIff(d: Dev, inputs: seq<Input>)
    requires FeasibleRun(d, inputs) && SizesOk(d)
    ensures Exact(RunOf(d, inputs)) <==> Undisturbed(d, inputs, Exact(d))
    decreases |inputs|
  {
    hide Step, Exact, FillsUp, Spoils, SizesOk;
    if inputs != [] {
      ExactStepIff(d, inputs[0]);
      ExactRunIff(Step(d, inputs[0]), inputs[1..]);
    }
  }

  /**
   * Main result: after any run, orderly or not, `flash:` and `boot` act on exactly the last
   * payload that was received in full if and only if since then no `download:` command came
   * and no `boot` came back.
   */
  lemma ActsOnLastPayloadIff(vars: seq<Var>, inputs: seq<Input>)
    requires FeasibleRun(Initial(vars), inputs)
    ensures Exact(RunOf(Initial(vars), inputs)) <==> Undisturbed(Initial(vars), inputs, false)
  {
    ExactRunIff(Initial(vars), inputs);
  }

  /** A download that is refused as too large leaves the buffer of the one before with the size that was refused. */
  lemma RefusedDownloadWitness(d: Dev, size: nat, world: World)
    requires Inv(d) && !d.halted && d.state == Complete && d.rxq == [CommandRead] && Exact(d)
    requires 500 * 1024 * 1024 < size < TWO_32
    ensures var d' := OnRx(d, "download:" + HexOf(size, 8), world);
            d'.txq == [Fail("data too large")] && d'.Seen() == Sight(Live(d.payload.value), size)
  {
    SizeRoundTrip(size);
    PrefixReachesHandler(2, HexOf(size, 8));
    hide Match, CmdList, ParseSize, HexOf;
  }

  // ------------------------------------------------------------ what the replies say

  /**
   * A payload is acknowledged with OKAY exactly when it has the length the DATA reply announced;
   * one of another length is thrown away.
   */
  lemma PayloadReply(d: Dev, text: string, world: World)
    requires Inv(d) && !d.halted && PhaseOf(d.log).Transfer? && PhaseOf(d.log).offered
    ensures var d' := OnRx(d, text, world);
            && |d'.txq| == 1 && d'.txq[0].Terminal()
            && (d'.txq[0].Okay? <==> |text| == PhaseOf(d.log).size)
            && d'.Seen() == (if |text| == PhaseOf(d.log).size then Sight(Live(text), |text|) else Sight(Dangling, 0))
  {
    hide Match, CmdList;
    assert PhaseOf([]) == Idle;
    assert d.state == Download && d.txq == [];
  }

  // ------------------------------------------------------------ getvar

  function Infos(vars: seq<Var>): seq<Event>
  {
    if vars == [] then [] else [Sent(Info(vars[0])), Completed(Info(vars[0]))] + Infos(vars[1..])
  }

  /** The device after n completed replies. */
  function Drain(d: Dev, n: nat): Option<Dev>
    decreases n
  {
    if n == 0 then Some(d) else if d.txq == [] then None else Drain(OnTx(d), n - 1)
  }

  lemma {:induction false} GetvarDrain(d: Dev)
    requires d.state == Getvar && |d.txq| == 1
    ensures var log := d.log + [Completed(d.txq[0])] + Infos(d.cursor) + [Sent(Okay(""))];
            Drain(d, |d.cursor| + 1) == Some(d.(state := Complete, cursor := [], txq := [Okay("")], log := log))
    decreases |d.cursor|
  {
    var d1 := OnTx(d);
    if d.cursor != [] {
      GetvarDrain(d1);
      var v := d.cursor[0];
      assert d.log + [Completed(d.txq[0])] + Infos(d.cursor) + [Sent(Okay(""))] ==
             d1.log + [Completed(Info(v))] + Infos(d1.cursor) + [Sent(Okay(""))];
    } else {
      assert Drain(d1, 0) == Some(d1);
      var log := d.log + [Completed(d.txq[0])];
      assert log + Infos(d.cursor) + [Sent(Okay(""))] == log + [Sent(Okay(""))];
      assert d1.txq == [Okay("")] && d1.log == log + [Sent(Okay(""))] && d1.cursor == [];
    }
  }

  lemma GetvarMatches()
    ensures Match(CmdList(), "getvar:all") == Some((GetvarHandler, "all"))
  {
    var text := "getvar:all";
    var l := CmdList();
    assert l[0].0[0] == 'e' && l[1].0[0] == 'b' && l[2].0[0] == 'd' && text[0] == 'g';
    assert l[3].0 == "getvar:" == text[..7];
    assert text[7..] == "all";
    assert Match(l, text) == Match(l[1..], text);
    assert Match(l[1..], text) == Match(l[1..][1..], text);
    assert Match(l[1..][1..], text) == Match(l[1..][1..][1..], text);
  }

  /**
   * `getvar:all` sends one INFO for each published variable, in list order, each once it
   * and all before it have gone out, and then a single OKAY.
   */
  lemma GetvarAll(d: Dev, world: World)
    requires Inv(d) && !d.halted && d.state == Complete && d.rxq == [CommandRead]
    ensures var d' := OnRx(d, "getvar:all", world);
            var log := d.log + [Received(CommandRead)] + Infos(d.vars) + [Sent(Okay(""))];
            Drain(d', |d.vars|) == Some(d.(rxq := [], txq := [Okay("")], log := log))
  {
    GetvarMatches();
    var d' := OnRx(d, "getvar:all", world);
    if d.vars != [] {
      GetvarDrain(d');
      assert d.log + [Received(CommandRead)] + Infos(d.vars) + [Sent(Okay(""))] ==
             d'.log + [Completed(Info(d.vars[0]))] + Infos(d.vars[1..]) + [Sent(Okay(""))];
    } else {
      var log := d.log + [Received(CommandRead)];
      assert log + Infos(d.vars) + [Sent(Okay(""))] == log + [Sent(Okay(""))];
      assert d'.log == log + [Sent(Okay(""))] && d'.txq == [Okay("")] && d'.rxq == [];
    }
  }

  /** Variables published in order; each pair is name and value. */
  function PublishAll(pairs: seq<Var>): seq<Var>
  {
    if pairs == [] then []
    else Publish(PublishAll(pairs[..|pairs| - 1]), pairs[|pairs| - 1].0, pairs[|pairs| - 1].1)
  }

  /** The variables as a map in which a later publish replaces an earlier one. */
  function AsMap(pairs: seq<Var>): map<string, string>
  {
    if pairs == [] then map[]
    else
      var (name, value) := pairs[|pairs| - 1];
      var before := AsMap(pairs[..|pairs| - 1]);
      if |name| < 128 && |value| < 128 then before[name := value] else before
  }

  /** The list search answers as the map does: the latest accepted publish of a name wins. */
  lemma {:induction false} LatestPublishWins(pairs: seq<Var>, name: string)
    ensures Lookup(PublishAll(pairs), name) ==
            if name in AsMap(pairs) then Some(AsMap(pairs)[name]) else None
  {
    if pairs != [] {
      LatestPublishWins(pairs[..|pairs| - 1], name);
      var before := PublishAll(pairs[..|pairs| - 1]);
      var last := pairs[|pairs| - 1];
      assert ([last] + before)[1..] == before;
    }
  }
}
