/**
 * What a device that awaits a command answers to each text a host can send.
 */
module Commands {
  import opened Machine
  import opened Fastboot
  import opened Protocol

  /** Nothing is on its way but the receive for the next command. */
  predicate AwaitsCommand(d: Dev)
  {
    !d.halted && d.state == Complete && d.rxq == [CommandRead] && d.txq == []
  }

  /** In a conforming exchange that is what a posted command receive means. */
  lemma AwaitsIff(d: Dev)
    requires Inv(d) && !d.halted
    ensures AwaitsCommand(d) <==> PhaseOf(d.log) == Awaiting
  {
  }

  // ------------------------------------------------------------ dispatch

  lemma FlashPrefix(name: string)
    ensures Match(CmdList(), "flash:" + name) == Some((Flash, name))
  {
    assert CmdList()[4] == ("flash:", Flash);
    PrefixReachesHandler(4, name);
  }

  lemma FlashCommand(d: Dev, name: string, world: World)
    requires AwaitsCommand(d)
    ensures OnRx(d, "flash:" + name, world).txq == [OperationAnswer(world.labelOk, world.flash(d.Seen(), name))]
  {
    assert CmdList()[4] == ("flash:", Flash);
    PrefixReachesHandler(4, name);
    hide Match, CmdList;
    assert [] + [OperationAnswer(world.labelOk, world.flash(d.Seen(), name))] ==
           [OperationAnswer(world.labelOk, world.flash(d.Seen(), name))];
  }

  lemma EraseCommand(d: Dev, name: string, world: World)
    requires AwaitsCommand(d)
    ensures OnRx(d, "erase:" + name, world).txq == [OperationAnswer(world.labelOk, world.erase(name))]
  {
    assert CmdList()[0] == ("erase:", Erase);
    PrefixReachesHandler(0, name);
    hide Match, CmdList;
    assert [] + [OperationAnswer(world.labelOk, world.erase(name))] ==
           [OperationAnswer(world.labelOk, world.erase(name))];
  }

  lemma {:induction false} NoPrefix(list: seq<(string, Handler)>, text: string)
    requires forall c | c in list :: !(c.0 <= text)
    ensures Match(list, text) == None
  {
    if list != [] {
      assert list[0] in list;
      NoPrefix(list[1..], text);
    }
  }

  /** A text that starts with no command is refused. */
  lemma UnknownCommand(d: Dev, text: string, world: World)
    requires AwaitsCommand(d)
    requires !("reboot" <= text) && !("flash:" <= text) && !("getvar:" <= text)
    requires !("download:" <= text) && !("boot" <= text) && !("erase:" <= text)
    ensures OnRx(d, text, world).txq == [Fail("unknown command")] && !OnRx(d, text, world).halted
  {
    var l := CmdList();
    assert l == [("erase:", Erase), ("boot", Boot), ("download:", DownloadHandler), ("getvar:", GetvarHandler),
                 ("flash:", Flash), ("reboot", Reboot)];
    NoPrefix(l, text);
    hide Match, CmdList;
    assert [] + [Fail("unknown command")] == [Fail("unknown command")];
  }

  /** A reboot leaves no answer behind, unless it fails. */
  lemma RebootCommand(d: Dev, arg: string, world: World)
    requires AwaitsCommand(d)
    ensures var d' := OnRx(d, "reboot" + arg, world);
            if world.resetReturns then d'.txq == [Fail("unknown reason")] && !d'.halted
            else d'.txq == [] && d'.halted
  {
    assert CmdList()[5] == ("reboot", Reboot);
    PrefixReachesHandler(5, arg);
    hide Match, CmdList;
    assert [] + [Fail("unknown reason")] == [Fail("unknown reason")];
  }

  /** A boot is answered OKAY when it leaves fastboot, and FAIL when it comes back. */
  lemma BootCommand(d: Dev, arg: string, world: World)
    requires AwaitsCommand(d)
    ensures var d' := OnRx(d, "boot" + arg, world);
            match world.boot(d.Seen())
            case NeverReturns => d'.txq == [Okay("")] && d'.halted && d'.Seen() == d.Seen()
            case FailsBeforeExit => d'.txq == [Fail("boot failure")] && !d'.halted && d'.buffer == Dangling
            case FailsAfterExit => d'.txq == [Okay(""), Fail("boot failure")] && !d'.halted && d'.buffer == Dangling
  {
    assert CmdList()[1] == ("boot", Boot);
    PrefixReachesHandler(1, arg);
    hide Match, CmdList;
    assert [] + [Okay("")] == [Okay("")] && [] + [Fail("boot failure")] == [Fail("boot failure")];
  }

  /** A variable is answered with the value it was last published with, and an unknown one with nothing. */
  lemma GetvarCommand(d: Dev, pairs: seq<Var>, name: string, world: World)
    requires AwaitsCommand(d) && d.vars == PublishAll(pairs) && name != "all"
    ensures OnRx(d, "getvar:" + name, world).txq == [Okay(if name in AsMap(pairs) then AsMap(pairs)[name] else "")]
  {
    assert CmdList()[3] == ("getvar:", GetvarHandler);
    PrefixReachesHandler(3, name);
    LatestPublishWins(pairs, name);
    hide Match, CmdList, PublishAll, AsMap, Lookup;
    var reply := Okay(if name in AsMap(pairs) then AsMap(pairs)[name] else "");
    assert [] + [reply] == [reply];
  }

  /** A download is refused above 500 MiB, fails without memory, and is answered DATA and a receive otherwise. */
  lemma DownloadCommand(d: Dev, size: nat, world: World)
    requires AwaitsCommand(d) && size < TWO_32
    ensures var d' := OnRx(d, "download:" + HexOf(size, 8), world);
            && d'.downloadSize == size
            && if size > 500 * 1024 * 1024 then
                 d'.txq == [Fail("data too large")] && d'.rxq == [] && d'.buffer == d.buffer
               else if !world.poolOk then
                 d'.txq == [DataReply(size), Fail("Memory allocation failure")] && d'.rxq == [] && d'.buffer == Null
               else
                 && d'.txq == [DataReply(size)] && d'.rxq == [PayloadRead(size)]
                 && d'.state == Download && d'.buffer == Filling
  {
    assert CmdList()[2] == ("download:", DownloadHandler);
    PrefixReachesHandler(2, HexOf(size, 8));
    SizeRoundTrip(size);
    hide Match, CmdList, HexOf, ParseSize;
    assert [] + [DataReply(size)] == [DataReply(size)] && [] + [PayloadRead(size)] == [PayloadRead(size)];
    assert [] + [Fail("data too large")] == [Fail("data too large")];
  }

  // ------------------------------------------------------------ sizes as hosts may write them

  lemma DigitBound(c: char)
    ensures HexDigit(c).Some? ==> HexDigit(c).value < 16
  {
  }

  lemma TwoDigits(s: string)
    requires |s| == 2 && HexDigit(s[0]).Some? && HexDigit(s[1]).Some?
    ensures HexValue(s, 0) == 16 * HexDigit(s[0]).value + HexDigit(s[1]).value
  {
    hide HexDigit;
    assert s[1..] == [s[1]] && s[1..][1..] == [];
    assert HexValue([], (16 * HexDigit(s[0]).value + HexDigit(s[1]).value) % TWO_32) ==
           (16 * HexDigit(s[0]).value + HexDigit(s[1]).value) % TWO_32;
    DigitBound(s[0]);
    DigitBound(s[1]);
  }

  /** Digits of either case, an optional 0x, and an end at the first other character. */
  lemma SizeSpellings()
    ensures ParseSize("1f") == 31 == ParseSize("1F") == ParseSize("0x1f")
    ensures ParseSize("") == 0 == ParseSize("x1") && ParseSize("1 0") == 1
  {
    TwoDigits("1f");
    TwoDigits("1F");
    assert "0x1f"[2..] == "1f" && "1 0"[1..] == " 0";
    assert HexDigit('1') == Some(1) && HexDigit('f') == Some(15) == HexDigit('F');
    assert HexDigit(' ') == None == HexDigit('x');
    assert HexValue(" 0", 1) == 1;
    hide HexDigit;
  }
}
