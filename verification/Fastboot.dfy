/**
 * The fastboot device (fastboot/fastboot.c): a state machine driven by the completion
 * callbacks of the USB stack. The transport is the pair of queues it feeds: receives that
 * are posted and not yet filled, and replies that are sent and not yet completed.
 *
 * Every callback is a function on the abstract device `Dev` and a method of the class
 * `Device`; Protocol.dfy proves what any sequence of callbacks does.
 */
module Fastboot {
  import opened Machine

  const MAX_DOWNLOAD_SIZE: nat := 500 * 1024 * 1024
  const MAX_VARIABLE_LENGTH: nat := 128

  datatype State = Offline | Command | Complete | Download | Getvar

  type Var = (string, string)

  datatype Reply = Info(v: Var) | Okay(text: string) | Fail(reason: string) | DataReply(size: nat)
  {
    predicate Terminal() { Okay? || Fail? }
  }

  datatype Request = CommandRead | PayloadRead(size: nat)

  datatype Event = Posted(req: Request) | Received(req: Request) | Sent(reply: Reply) | Completed(reply: Reply)

  /** How an attempt to boot the downloaded image ends; the exit hook sends an OKAY of its own. */
  datatype BootEnd = FailsBeforeExit | FailsAfterExit | NeverReturns

  /** The pool buffer behind the static `addr`: none, awaiting its payload, holding one, or freed. */
  datatype Buffer = Null | Filling | Live(content: string) | Dangling

  /** What every handler is given: `*addr` and `*sz`. */
  datatype Sight = Sight(buffer: Buffer, size: nat)

  /** What the world does during one command; `flash` and `boot` depend on what they are given. */
  datatype World = World(
    labelOk: bool,
    flash: (Sight, string) -> bool,
    erase: string -> bool,
    poolOk: bool,
    boot: Sight -> BootEnd,
    resetReturns: bool)

  datatype Dev = Dev(
    state: State,
    vars: seq<Var>,
    cursor: seq<Var>,
    buffer: Buffer,
    downloadSize: nat,
    payload: Option<string>,  // the last payload that was received in full
    halted: bool,
    rxq: seq<Request>,
    txq: seq<Reply>,
    log: seq<Event>)
  {
    function Seen(): Sight { Sight(buffer, downloadSize) }
  }

  // ------------------------------------------------------------ variables

  /** Publishing puts the variable at the head of the list, unless a string is too long with its NUL. */
  function Publish(vars: seq<Var>, name: string, value: string): seq<Var>
  {
    if |name| + 1 > MAX_VARIABLE_LENGTH || |value| + 1 > MAX_VARIABLE_LENGTH then vars
    else [(name, value)] + vars
  }

  function Lookup(vars: seq<Var>, name: string): Option<string>
  {
    if vars == [] then None
    else if vars[0].0 == name then Some(vars[0].1)
    else Lookup(vars[1..], name)
  }

  // ------------------------------------------------------------ commands

  datatype Handler = Reboot | Flash | GetvarHandler | DownloadHandler | Boot | Erase

  function Register(list: seq<(string, Handler)>, prefix: string, handle: Handler): seq<(string, Handler)>
  {
    [(prefix, handle)] + list
  }

  /** The list `fastboot_start` builds; the last registered prefix is tried first. */
  function CmdList(): seq<(string, Handler)>
  {
    Register(Register(Register(Register(Register(Register([],
      "reboot", Reboot), "flash:", Flash), "getvar:", GetvarHandler),
      "download:", DownloadHandler), "boot", Boot), "erase:", Erase)
  }

  /** The first registered prefix of the command text, with the argument that follows it. */
  function Match(list: seq<(string, Handler)>, text: string): Option<(Handler, string)>
  {
    if list == [] then None
    else if list[0].0 <= text then Some((list[0].1, text[|list[0].0|..]))
    else Match(list[1..], text)
  }

  function HexDigit(c: char): Option<nat>
  {
    if '0' <= c <= '9' then Some(c as int - '0' as int)
    else if 'a' <= c <= 'f' then Some(10 + (c as int - 'a' as int))
    else if 'A' <= c <= 'F' then Some(10 + (c as int - 'A' as int))
    else None
  }

  function HexValue(s: string, value: nat): nat
  {
    if s == [] || HexDigit(s[0]).None? then value
    else HexValue(s[1..], (value * 16 + HexDigit(s[0]).value) % TWO_32)
  }

  /** `strtoul(arg, NULL, 16)` kept in 32 bits: an optional 0x, then digits up to the first other character. */
  function ParseSize(arg: string): nat
  {
    HexValue(if |arg| > 2 && arg[..2] == "0x" then arg[2..] else arg, 0)
  }

  // ------------------------------------------------------------ replies

  function Send(d: Dev, r: Reply): Dev
  {
    d.(txq := d.txq + [r], log := d.log + [Sent(r)])
  }

  function Post(d: Dev, q: Request): Dev
  {
    d.(rxq := d.rxq + [q], log := d.log + [Posted(q)])
  }

  /** `fastboot_okay` and `fastboot_fail`. */
  function Finish(d: Dev, r: Reply): Dev
  {
    Send(d, r).(state := Complete)
  }

  /** `worker_getvar_all` once its cursor is set: one INFO a step, then the final OKAY. */
  function Worker(d: Dev): Dev
  {
    if d.cursor != [] then Send(d, Info(d.cursor[0])).(cursor := d.cursor[1..])
    else Finish(d, Okay(""))
  }

  function CmdGetvar(d: Dev, arg: string): Dev
  {
    if arg == "all" then
      Worker(d.(state := Getvar, cursor := if d.vars != [] then d.vars else d.cursor))
    else match Lookup(d.vars, arg) case Some(value) => Finish(d, Okay(value)) case None => Finish(d, Okay(""))
  }

  function CmdDownload(d: Dev, arg: string, poolOk: bool): Dev
  {
    var size := ParseSize(arg);
    var d := d.(downloadSize := size);
    if size > MAX_DOWNLOAD_SIZE then Finish(d, Fail("data too large"))
    else
      var d := Send(d, DataReply(size));
      if !poolOk then Finish(d, Fail("Memory allocation failure")).(buffer := Null)
      else Post(d, PayloadRead(size)).(state := Download, buffer := Filling)
  }

  /** A boot that comes back has freed the image it was given. */
  function CmdBoot(d: Dev, end: BootEnd): Dev
  {
    match end
    case FailsBeforeExit => Finish(d, Fail("boot failure")).(buffer := Dangling)
    case FailsAfterExit => Finish(Finish(d, Okay("")), Fail("boot failure")).(buffer := Dangling)
    case NeverReturns => Finish(d, Okay("")).(halted := true)
  }

  function OperationAnswer(labelOk: bool, ok: bool): Reply
  {
    if !labelOk then Fail("Allocation error") else if ok then Okay("") else Fail("Flash failure")
  }

  function Handle(d: Dev, h: Handler, arg: string, world: World): Dev
  {
    match h
    case Reboot => d.(halted := !world.resetReturns)
    case Flash => Finish(d, OperationAnswer(world.labelOk, world.flash(d.Seen(), arg)))
    case Erase => Finish(d, OperationAnswer(world.labelOk, world.erase(arg)))
    case GetvarHandler => CmdGetvar(d, arg)
    case DownloadHandler => CmdDownload(d, arg, world.poolOk)
    case Boot => CmdBoot(d, world.boot(d.Seen()))
  }

  // ------------------------------------------------------------ callbacks

  function OnStart(d: Dev): Dev
  {
    Post(d.(state := Complete), CommandRead)
  }

  /** A reply has gone out. */
  function OnTx(d: Dev): Dev
    requires d.txq != []
  {
    var d := d.(txq := d.txq[1..], log := d.log + [Completed(d.txq[0])]);
    match d.state
    case Getvar => Worker(d)
    case Complete => Post(d, CommandRead)
    case _ => d
  }

  /** A receive has been filled with `text`; the state alone decides how it is read. */
  function OnRx(d: Dev, text: string, world: World): Dev
    requires d.rxq != []
  {
    var d := d.(rxq := d.rxq[1..], log := d.log + [Received(d.rxq[0])]);
    match d.state
    case Download =>
      if |text| == d.downloadSize then
        Finish(d.(state := Command, buffer := Live(text), payload := Some(text)), Okay(""))
      else Finish(d.(state := Command), Fail("Received")).(buffer := Dangling, downloadSize := 0)
    case Complete =>
      (match Match(CmdList(), text)
       case None => Finish(d.(state := Command), Fail("unknown command"))
       case Some((h, arg)) =>
         var d := Handle(d.(state := Command), h, arg, world);
         if d.state == Command && !d.halted then Finish(d, Fail("unknown reason")) else d)
    case _ => d
  }

  datatype Input = Configured | TxDone | RxDone(text: string, world: World)

  /** Inputs the transport can deliver: it completes only what has been queued. */
  predicate Feasible(d: Dev, i: Input)
  {
    !d.halted &&
    match i case Configured => d.state == Offline case TxDone => d.txq != [] case RxDone(_, _) => d.rxq != []
  }

  function Step(d: Dev, i: Input): Dev
    requires Feasible(d, i)
  {
    match i case Configured => OnStart(d) case TxDone => OnTx(d) case RxDone(text, world) => OnRx(d, text, world)
  }

  // ------------------------------------------------------------ the code

  class Device {
    var state: State
    var vars: seq<Var>
    var cursor: seq<Var>
    var buffer: Buffer
    var downloadSize: nat
    ghost var payload: Option<string>
    var halted: bool
    var rxq: seq<Request>
    var txq: seq<Reply>
    ghost var log: seq<Event>

    constructor ()
      ensures Abs() == Dev(Offline, [], [], Null, 0, None, false, [], [], [])
    {
      state, vars, cursor, buffer, downloadSize, halted := Offline, [], [], Null, 0, false;
      payload, rxq, txq, log := None, [], [], [];
    }

    ghost function Abs(): Dev
      reads this
    {
      Dev(state, vars, cursor, buffer, downloadSize, payload, halted, rxq, txq, log)
    }

    method PublishVar(name: string, value: string, poolOk: bool)
      modifies this`vars
      ensures Abs() == if poolOk then old(Abs()).(vars := Publish(old(vars), name, value)) else old(Abs())
    {
      if |name| + 1 > MAX_VARIABLE_LENGTH || |value| + 1 > MAX_VARIABLE_LENGTH {
        return;
      }
      if !poolOk {
        return;
      }
      vars := [(name, value)] + vars;
    }

    method GetVar(name: string) returns (value: Option<string>)
      ensures value == Lookup(vars, name)
    {
      var i := 0;
      while i < |vars|
        invariant 0 <= i <= |vars|
        invariant Lookup(vars[i..], name) == Lookup(vars, name)
      {
        if vars[i].0 == name {
          return Some(vars[i].1);
        }
        i := i + 1;
      }
      return None;
    }

    method UsbWrite(r: Reply)
      modifies this`txq, this`log
      ensures Abs() == Send(old(Abs()), r)
    {
      txq := txq + [r];
      log := log + [Sent(r)];
    }

    method UsbRead(q: Request)
      modifies this`rxq, this`log
      ensures Abs() == Post(old(Abs()), q)
    {
      rxq := rxq + [q];
      log := log + [Posted(q)];
    }

    method Ack(r: Reply)
      modifies this`txq, this`log, this`state
      ensures Abs() == Finish(old(Abs()), r)
    {
      UsbWrite(r);
      state := Complete;
    }

    method WorkerGetvarAll(start: seq<Var>)
      modifies this`txq, this`log, this`state, this`cursor
      ensures Abs() == Worker(old(Abs()).(cursor := if start != [] then start else old(cursor)))
    {
      if start != [] {
        cursor := start;
      }
      if cursor != [] {
        UsbWrite(Info(cursor[0]));
        cursor := cursor[1..];
      } else {
        Ack(Okay(""));
      }
    }

    method DoGetvar(arg: string)
      modifies this`txq, this`log, this`state, this`cursor
      ensures Abs() == CmdGetvar(old(Abs()), arg)
    {
      if arg == "all" {
        state := Getvar;
        WorkerGetvarAll(vars);
      } else {
        var value := GetVar(arg);
        Ack(Okay(if value.Some? then value.value else ""));
      }
    }

    method DoDownload(arg: string, poolOk: bool)
      modifies this`txq, this`rxq, this`log, this`state, this`downloadSize, this`buffer
      ensures Abs() == CmdDownload(old(Abs()), arg, poolOk)
    {
      downloadSize := ParseSize(arg);
      if downloadSize > MAX_DOWNLOAD_SIZE {
        Ack(Fail("data too large"));
        return;
      }
      UsbWrite(DataReply(downloadSize));
      if !poolOk {
        buffer := Null;
        Ack(Fail("Memory allocation failure"));
        return;
      }
      buffer := Filling;
      UsbRead(PayloadRead(downloadSize));
      state := Download;
    }

    method DoBoot(end: BootEnd)
      modifies this`txq, this`log, this`state, this`halted, this`buffer
      ensures Abs() == CmdBoot(old(Abs()), end)
    {
      if end != FailsBeforeExit {
        Ack(Okay(""));
        if end == NeverReturns {
          halted := true;
          return;
        }
      }
      buffer := Dangling;
      Ack(Fail("boot failure"));
    }

    method Dispatch(h: Handler, arg: string, world: World)
      modifies this
      ensures Abs() == Handle(old(Abs()), h, arg, world)
    {
      match h
      case Reboot => halted := !world.resetReturns;
      case Flash => Ack(OperationAnswer(world.labelOk, world.flash(Sight(buffer, downloadSize), arg)));
      case Erase => Ack(OperationAnswer(world.labelOk, world.erase(arg)));
      case GetvarHandler => DoGetvar(arg);
      case DownloadHandler => DoDownload(arg, world.poolOk);
      case Boot => DoBoot(world.boot(Sight(buffer, downloadSize)));
    }

    method StartCallback()
      modifies this`state, this`rxq, this`log
      ensures Abs() == OnStart(old(Abs()))
    {
      state := Complete;
      UsbRead(CommandRead);
    }

    method ProcessTx()
      requires txq != []
      modifies this
      ensures Abs() == OnTx(old(Abs()))
    {
      log := log + [Completed(txq[0])];
      txq := txq[1..];
      match state
      case Getvar => WorkerGetvarAll([]);
      case Complete => UsbRead(CommandRead);
      case _ =>
    }

    /** The loop over the registered commands. */
    method ServeCommand(text: string, world: World)
      requires state == Command && !halted
      modifies this
      ensures Abs() ==
              match Match(CmdList(), text)
              case None => Finish(old(Abs()), Fail("unknown command"))
              case Some((h, arg)) =>
                var d := Handle(old(Abs()), h, arg, world);
                if d.state == Command && !d.halted then Finish(d, Fail("unknown reason")) else d
    {
      hide Handle;
      ghost var before := Abs();
      var cmds := CmdList();
      hide CmdList;
      var i := 0;
      while i < |cmds|
        invariant 0 <= i <= |cmds| && Abs() == before
        invariant Match(cmds[i..], text) == Match(cmds, text)
      {
        if cmds[i].0 <= text {
          Dispatch(cmds[i].1, text[|cmds[i].0|..], world);
          if state == Command && !halted {
            Ack(Fail("unknown reason"));
          }
          return;
        }
        i := i + 1;
      }
      Ack(Fail("unknown command"));
    }

    method ProcessRx(text: string, world: World)
      requires rxq != [] && !halted
      modifies this
      ensures Abs() == OnRx(old(Abs()), text, world)
    {
      hide Handle, Match, CmdList;
      log := log + [Received(rxq[0])];
      rxq := rxq[1..];
      match state
      case Download =>
        state := Command;
        if |text| == downloadSize {
          buffer, payload := Live(text), Some(text);
          Ack(Okay(""));
        } else {
          Ack(Fail("Received"));
          downloadSize := 0;
          buffer := Dangling;
        }
      case Complete =>
        state := Command;
        ServeCommand(text, world);
      case _ =>
    }
  }
}
