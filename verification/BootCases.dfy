/**
 * What a boot does in each of the situations it tells apart, from the inputs to the image
 * that is started.
 */
module BootCases {
  import opened Machine
  import opened BootLogic
  import opened BootRuns

  /** The target can be shown and started, and has a name. */
  predicate Works(cfg: Config, env: Env, t: Target)
  {
    env.indicatorsOk && env.starts(t) && TargetToName(cfg, t).Some?
  }

  /** The boot finds this reset source, and no forced cold reset of its own is pending. */
  predicate ResetBy(cfg: Config, v: Vars, env: Env, rs: ResetSource)
  {
    env.batteryOk && env.wake == WakeNotApplicable && env.rsciReset == rs && (cfg.coldResetAfterWd ==> !Pending(v))
  }

  // ------------------------------------------------------------ tables

  /** Everything but an error, a plain reset and a firmware update is a watchdog's doing. */
  lemma WatchdogSources(rs: ResetSource)
    ensures IsWatchdog(rs) <==> rs !in {ResetNotApplicable, OsInitiated, Forced, FwUpdate, ResetError}
  {
  }

  lemma {:induction false} NameFound(entries: seq<(Target, string)>, i: nat)
    requires DistinctNames(entries) && i < |entries|
    ensures FindName(entries, entries[i].1) == Some(entries[i].0)
    decreases i
  {
    if i > 0 {
      assert entries[0].1 != entries[i].1;
      NameFound(entries[1..], i - 1);
    }
  }

  lemma {:induction false} NoName(entries: seq<(Target, string)>, name: string)
    requires forall e | e in entries :: e.1 != name
    ensures FindName(entries, name) == None
  {
    if entries != [] {
      assert entries[0] in entries;
      NoName(entries[1..], name);
    }
  }

  /** The names by which the loader's table knows its targets. */
  lemma AndroidNames(coldResetAfterWd: bool, factoryModes: bool)
    ensures var cfg := Config(coldResetAfterWd, AndroidEntries(factoryModes));
            && TargetFromVar(cfg, None) == Unknown
            && TargetFromVar(cfg, Some("main")) == Boot == TargetFromVar(cfg, Some("android"))
            && TargetFromVar(cfg, Some("recovery")) == Recovery
            && TargetFromVar(cfg, Some("fastboot")) == Fastboot == TargetFromVar(cfg, Some("bootloader"))
            && TargetFromVar(cfg, Some("test")) == Test
            && TargetFromVar(cfg, Some("charging")) == Charging
            && (factoryModes ==> TargetFromVar(cfg, Some("factory")) == Factory)
            && (factoryModes ==> TargetFromVar(cfg, Some("factory2")) == Factory2)
            && TargetFromVar(cfg, Some("dnx")) == Dnx
  {
    var es := AndroidEntries(factoryModes);
    EntriesDistinct(factoryModes);
    hide FindName;
    NameFound(es, 0);
    NameFound(es, 1);
    NameFound(es, 2);
    NameFound(es, 3);
    NameFound(es, 4);
    NameFound(es, 5);
    NameFound(es, 6);
    NameFound(es, 7);
    NameFound(es, |es| - 1);
    if factoryModes {
      NameFound(es, 8);
    }
  }

  /** Of two names the first one is stored. */
  lemma AndroidStoredNames(coldResetAfterWd: bool, factoryModes: bool)
    ensures var cfg := Config(coldResetAfterWd, AndroidEntries(factoryModes));
            TargetToName(cfg, Boot) == Some("main") && TargetToName(cfg, Fastboot) == Some("fastboot")
  {
    var es := AndroidEntries(factoryModes);
    assert FindTarget(es, Fastboot) == FindTarget(es[1..], Fastboot) == FindTarget(es[1..][1..], Fastboot);
    assert FindTarget(es[1..][1..], Fastboot) == FindTarget(es[1..][1..][1..], Fastboot) == Some(es[3].1);
  }

  /** The order in which images are tried. */
  lemma FallbackOrder(t: Target)
    ensures Chain(t) ==
            if t == Boot || t == Charging then [t, Recovery, Fastboot, Dnx]
            else if t == Recovery then [Recovery, Fastboot, Dnx]
            else if t == Fastboot then [Fastboot, Dnx]
            else [t]
  {
    assert Chain(Dnx) == [Dnx];
    assert Chain(Fastboot) == [Fastboot] + Chain(Dnx);
    assert Chain(Recovery) == [Recovery] + Chain(Fastboot);
  }

  // ------------------------------------------------------------ from reset

  /** A recovery request in the boot control block is served at the next reset, whatever else was asked for. */
  lemma RecoveryAtReset(cfg: Config, v: Vars, env: Env, rs: ResetSource)
    requires ResetBy(cfg, v, env, rs) && rs in {OsInitiated, Forced, FwUpdate}
    requires env.bcb == Some("boot-recovery") && Works(cfg, env, Recovery)
    ensures BootStep(cfg, v, env).1 == Launched(Recovery)
  {
    hide TargetToName;
  }

  /** The system is launched after a firmware update, and after any reset that was not explained or asked for. */
  predicate AsksForSystem(cfg: Config, v: Vars, env: Env)
  {
    env.batteryOk &&
    (|| env.wake == WakeError
     || ResetBy(cfg, v, env, ResetError)
     || ResetBy(cfg, v, env, ResetNotApplicable)
     || (env.bcb != Some("boot-recovery")
         && (|| ResetBy(cfg, v, env, FwUpdate)
             || ((ResetBy(cfg, v, env, OsInitiated) || ResetBy(cfg, v, env, Forced))
                 && TargetFromVar(cfg, v.entryOneShot) == Unknown)))
     || (env.bcb != Some("boot-recovery") && !env.fastbootCombo
         && env.wake in {PowerButtonPressed, RtcTimer, BatteryReachedIaThreshold}))
  }

  /** Asked for, a system that works is launched, unless the battery is low. */
  lemma SystemLaunched(cfg: Config, v: Vars, env: Env)
    requires AsksForSystem(cfg, v, env) && !env.batteryLow && Works(cfg, env, Boot)
    ensures BootStep(cfg, v, env).1 == Launched(Boot)
  {
    hide TargetToName, FindName;
  }

  /** On a low battery the device charges instead, or switches off if it cannot. */
  lemma LowBatteryCharges(cfg: Config, v: Vars, env: Env)
    requires AsksForSystem(cfg, v, env) && env.batteryLow
    ensures env.chargerPresent && Works(cfg, env, Charging) ==> BootStep(cfg, v, env).1 == Launched(Charging)
    ensures !env.chargerPresent ==> BootStep(cfg, v, env).1 == PoweredOff
  {
    hide TargetToName, FindName;
  }

  /** The first watchdog reset is counted as one, whether the counter is missing, cleared, or reads as an error. */
  lemma FirstWatchdog(cfg: Config, v: Vars, env: Env, rs: ResetSource)
    requires !cfg.coldResetAfterWd && ResetBy(cfg, v, env, rs) && IsWatchdog(rs)
    requires v.wdtCounter in {None, Some(0), Some(-1)}
    ensures BootStep(cfg, v, env).0.wdtCounter == Some(1)
  {
    hide TargetToName, FindName, LaunchOrFallback, SetEntryLast;
    var (v1, decision) := TargetFromInputs(cfg, v, env);
    LaunchKeeps(cfg, v1.(savedResetSource := None), env, if decision == Some(Unknown) then Boot else decision.value);
  }

  // ------------------------------------------------------------ from power-off

  /** The fastboot key combination comes before everything else. */
  lemma ComboFromOff(cfg: Config, v: Vars, env: Env)
    requires FromOff(env) && env.fastbootCombo && Works(cfg, env, Fastboot)
    ensures BootStep(cfg, v, env).1 == Launched(Fastboot)
  {
    hide TargetToName;
  }

  /** Then comes a recovery request in the boot control block. */
  lemma RecoveryFromOff(cfg: Config, v: Vars, env: Env)
    requires FromOff(env) && !env.fastbootCombo && env.bcb == Some("boot-recovery") && Works(cfg, env, Recovery)
    ensures BootStep(cfg, v, env).1 == Launched(Recovery)
  {
    hide TargetToName;
  }

  /** Then a charger that was plugged in, or a dead battery that is being charged. */
  lemma ChargingFromOff(cfg: Config, v: Vars, env: Env)
    requires FromOff(env) && NothingAsked(env) && env.chargerPresent && Works(cfg, env, Charging)
    requires env.wake in {UsbChargerInserted, AcdcChargerInserted} || (env.wake == BatteryInserted && env.pmicDollarTi)
    ensures BootStep(cfg, v, env).1 == Launched(Charging)
  {
    hide TargetToName;
  }

  // ------------------------------------------------------------ when nothing can be done

  /** Without a battery the device switches off and remembers nothing new. */
  lemma NoBattery(cfg: Config, v: Vars, env: Env)
    requires !env.batteryOk
    ensures BootStep(cfg, v, env) == (v.(savedResetSource := None), PoweredOff)
  {
  }

  /** Nothing is launched when the indicators fail. */
  lemma {:induction false} NoIndicators(cfg: Config, v: Vars, env: Env)
    requires !env.indicatorsOk
    ensures !BootStep(cfg, v, env).1.Launched?
  {
  }

  /** Of an asked system that does not start, the first image of the fallback order that does is launched. */
  lemma SystemFallsBack(cfg: Config, v: Vars, env: Env, t: Target)
    requires AsksForSystem(cfg, v, env) && !env.batteryLow && Works(cfg, env, t)
    requires t in {Recovery, Fastboot, Dnx} && !env.starts(Boot)
    requires t != Recovery ==> !env.starts(Recovery)
    requires t == Dnx ==> !env.starts(Fastboot)
    ensures BootStep(cfg, v, env).1 == Launched(t)
  {
    hide TargetToName, FindName;
  }
}
