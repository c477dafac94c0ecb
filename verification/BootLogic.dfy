/**
 * The boot decision of the OS loader (efilinux/bootlogic.c, uefi_boot.c, uefi_osnib.c and
 * the target table of intel_partitions.c). One boot is a step over the persistent EFI
 * variables; everything the firmware and the user contribute to it is an `Env`.
 */
module BootLogic {
  import opened Machine

  datatype Target =
    | Boot | Charging | Recovery | Fastboot | Test | ColdOff | Factory | Factory2 | Dnx | Unknown

  datatype WakeSource =
    | WakeNotApplicable | BatteryInserted | UsbChargerInserted | AcdcChargerInserted
    | PowerButtonPressed | RtcTimer | BatteryReachedIaThreshold | WakeError

  datatype ResetSource =
    | ResetNotApplicable | OsInitiated | Forced | FwUpdate
    | KernelWatchdog | SecurityWatchdog | SecurityInitiated | PmcWatchdog | EcWatchdog | PlatformWatchdog
    | ResetError

  /** The first entry for a target: its name is what gets stored. */
  function FindTarget(entries: seq<(Target, string)>, t: Target): Option<string>
  {
    if entries == [] then None
    else if entries[0].0 == t then Some(entries[0].1)
    else FindTarget(entries[1..], t)
  }

  ghost predicate DistinctNames(entries: seq<(Target, string)>)
  {
    forall i, j | 0 <= i < j < |entries| :: entries[i].1 != entries[j].1
  }

  /** The build option do_cold_reset_after_wd, and the target table. */
  datatype Config = Config(coldResetAfterWd: bool, entries: seq<(Target, string)>)
  {
    /** Names tell entries apart, and every target of the fallback ladder has one. */
    ghost predicate Valid()
    {
      DistinctNames(entries) && forall t | t in {Boot, Recovery, Fastboot, Dnx} :: TargetToName(this, t).Some?
    }
  }

  function TargetToName(cfg: Config, t: Target): Option<string>
  {
    FindTarget(cfg.entries, t)
  }

  /** The persistent variables; None is a variable that does not exist. */
  datatype Vars = Vars(
    wdtCounter: Option<int>,
    wdColdReset: Option<int>,
    savedResetSource: Option<ResetSource>,
    entryLast: Option<string>,
    entryOneShot: Option<string>)

  /**
   * What one boot finds: `bcb` is the command in the boot control block if that can be read, and
   * `starts(t)` says that an image loaded for t runs and does not return.
   */
  datatype Env = Env(
    batteryOk: bool,
    batteryLow: bool,
    chargerPresent: bool,
    pmicDollarTi: bool,
    wake: WakeSource,
    rsciReset: ResetSource,
    powerButtonOverride: bool,
    fastbootCombo: bool,
    bcb: Option<string>,
    indicatorsOk: bool,
    starts: Target -> bool)
  {
    /** `load_bcb`: the only command that is known. */
    predicate BcbRecovery()
    {
      bcb == Some("boot-recovery")
    }
  }

  /** How a boot ends. */
  datatype Outcome = Launched(target: Target) | ForcedColdReset | PoweredOff | GaveUp

  predicate IsWatchdog(rs: ResetSource)
  {
    rs in {KernelWatchdog, SecurityWatchdog, SecurityInitiated, PmcWatchdog, EcWatchdog, PlatformWatchdog}
  }

  // ------------------------------------------------------------ target table

  /** `android_entries`; the factory modes are a build option. */
  function AndroidEntries(factoryModes: bool): seq<(Target, string)>
  {
    [(Boot, "main"), (Boot, "android"), (Recovery, "recovery"), (Fastboot, "fastboot"),
     (Fastboot, "bootloader"), (Test, "test"), (Charging, "charging")]
    + (if factoryModes then [(Factory, "factory"), (Factory2, "factory2")] else [])
    + [(Dnx, "dnx")]
  }

  function FindName(entries: seq<(Target, string)>, name: string): Option<Target>
  {
    if entries == [] then None
    else if entries[0].1 == name then Some(entries[0].0)
    else FindName(entries[1..], name)
  }

  /** Reading a target variable; a missing variable or an unknown name gives Unknown. */
  function TargetFromVar(cfg: Config, name: Option<string>): Target
  {
    if name.None? then Unknown
    else match FindName(cfg.entries, name.value) case Some(t) => t case None => Unknown
  }

  lemma EntriesDistinct(factoryModes: bool)
    ensures DistinctNames(AndroidEntries(factoryModes))
  {
    var es := AndroidEntries(factoryModes);
    // every two names differ in length, first or third character
    var n := seq(|es|, (i: nat) requires i < |es| => (|es[i].1|, es[i].1[0], es[i].1[2]));
    assert forall i, j | 0 <= i < j < |es| :: n[i] != n[j];
  }

  lemma {:induction false} FindInverse(entries: seq<(Target, string)>, t: Target)
    requires DistinctNames(entries) && FindTarget(entries, t).Some?
    ensures FindName(entries, FindTarget(entries, t).value) == Some(t)
    ensures exists i :: 0 <= i < |entries| && entries[i] == (t, FindTarget(entries, t).value)
    decreases |entries|
  {
    if entries[0].0 == t {
      assert entries[0] == (t, FindTarget(entries, t).value);
    } else {
      FindInverse(entries[1..], t);
      var i :| 0 <= i < |entries[1..]| && entries[1..][i] == (t, FindTarget(entries, t).value);
      assert entries[i + 1] == entries[1..][i];
      assert entries[0].1 != entries[i + 1].1;
    }
  }

  /** A stored target name reads back as the target that was stored. */
  lemma TargetRoundTrip(cfg: Config, t: Target)
    requires cfg.Valid() && TargetToName(cfg, t).Some?
    ensures TargetFromVar(cfg, TargetToName(cfg, t)) == t
  {
    FindInverse(cfg.entries, t);
  }

  lemma {:induction false} FindTargetIff(entries: seq<(Target, string)>, t: Target)
    ensures FindTarget(entries, t).Some? <==> exists i :: 0 <= i < |entries| && entries[i].0 == t
    decreases |entries|
  {
    if entries != [] && entries[0].0 != t {
      FindTargetIff(entries[1..], t);
      if exists i :: 0 <= i < |entries| && entries[i].0 == t {
        var i :| 0 <= i < |entries| && entries[i].0 == t;
        assert entries[1..][i - 1].0 == t;
      }
      if exists i :: 0 <= i < |entries[1..]| && entries[1..][i].0 == t {
        var i :| 0 <= i < |entries[1..]| && entries[1..][i].0 == t;
        assert entries[i + 1].0 == t;
      }
    }
  }

  /** The loader's own table is one the properties apply to, with or without factory modes. */
  lemma AndroidTableValid(coldResetAfterWd: bool, factoryModes: bool)
    ensures Config(coldResetAfterWd, AndroidEntries(factoryModes)).Valid()
  {
    var es := AndroidEntries(factoryModes);
    EntriesDistinct(factoryModes);
    FindTargetIff(es, Boot);
    FindTargetIff(es, Recovery);
    FindTargetIff(es, Fastboot);
    FindTargetIff(es, Dnx);
    assert es[0].0 == Boot && es[2].0 == Recovery && es[3].0 == Fastboot && es[|es| - 1].0 == Dnx;
  }

  // ------------------------------------------------------------ decisions

  function FallbackTarget(t: Target): Target
  {
    match t
    case Boot => Recovery
    case Charging => Recovery
    case Recovery => Fastboot
    case Fastboot => Dnx
    case _ => Unknown
  }

  function EmFallbackTarget(env: Env, t: Target): Target
  {
    if env.batteryLow && t in {Boot, Factory, Factory2} then
      if env.chargerPresent then Charging else ColdOff
    else t
  }

  function SetEntryLast(cfg: Config, v: Vars, t: Target): Vars
  {
    match TargetToName(cfg, t)
    case None => v
    case Some(name) => v.(entryOneShot := None, entryLast := Some(name))
  }

  /** `get_reset_source` the first time in a boot; it always deletes SavedResetSource. */
  function ResetSourceOf(cfg: Config, v: Vars, env: Env): ResetSource
  {
    if cfg.coldResetAfterWd && v.wdColdReset == Some(1) then
      match v.savedResetSource case Some(rs) => rs case None => ResetError
    else env.rsciReset
  }

  function Counter(v: Vars): int
  {
    match v.wdtCounter case None => 0 case Some(c) => if c == -1 then 0 else c
  }

  /** What `boot_watchdog` decides: None when it forces a cold reset. */
  function BootWatchdog(cfg: Config, v: Vars, rs: ResetSource): (Vars, Option<Target>)
  {
    if !IsWatchdog(rs) then (v, Some(Unknown))
    else
      var last := TargetFromVar(cfg, v.entryLast);
      if cfg.coldResetAfterWd && v.wdColdReset != Some(1) then
        (SetEntryLast(cfg, v, last).(savedResetSource := Some(rs), wdColdReset := Some(1)), None)
      else
        var v := if cfg.coldResetAfterWd then v.(wdColdReset := Some(0)) else v;
        var c := Counter(v) + 1;
        if c >= 3 then (v.(wdtCounter := Some(0)), Some(FallbackTarget(last)))
        else (v.(wdtCounter := Some(c)), Some(last))
  }

  function TargetFromReset(cfg: Config, v: Vars, env: Env, rs: ResetSource): (Vars, Option<Target>)
  {
    var (v', decision) := BootWatchdog(cfg, v, rs);
    if decision != Some(Unknown) then (v', decision)
    else if env.BcbRecovery() then (v', Some(Recovery))
    else if rs == FwUpdate then (v', Some(Boot))
    else if rs in {OsInitiated, Forced} then (v', Some(TargetFromVar(cfg, v'.entryOneShot)))
    else (v', Some(Unknown))
  }

  function TargetFromOff(v: Vars, env: Env): (Vars, Target)
  {
    var v := if env.powerButtonOverride then v.(wdtCounter := Some(0)) else v;
    var t :=
      if env.fastbootCombo then Fastboot
      else if env.BcbRecovery() then Recovery
      else match env.wake
        case PowerButtonPressed => Boot
        case BatteryInserted => if env.pmicDollarTi && env.chargerPresent then Charging else ColdOff
        case UsbChargerInserted => if env.chargerPresent then Charging else ColdOff
        case AcdcChargerInserted => if env.chargerPresent then Charging else ColdOff
        case _ => Unknown;
    (v, t)
  }

  /** `target_from_inputs`; reading the reset source also deletes its saved copy. */
  function TargetFromInputs(cfg: Config, v: Vars, env: Env): (Vars, Option<Target>)
  {
    if !env.batteryOk then (v, Some(ColdOff))
    else if env.wake == WakeError then (v, Some(Boot))
    else if env.wake != WakeNotApplicable then
      var (v', t) := TargetFromOff(v, env);
      (v', Some(t))
    else
      var rs := ResetSourceOf(cfg, v, env);
      var v' := v.(savedResetSource := None);
      if rs == ResetError then (v', Some(Boot))
      else if rs == ResetNotApplicable then (v', Some(Unknown))
      else TargetFromReset(cfg, v', env, rs)
  }

  /** Bounds how often `launch_or_fallback` can fall back. */
  function Rank(t: Target): nat
  {
    match t
    case Boot => 3
    case Charging => 3
    case Factory => 3
    case Factory2 => 3
    case Recovery => 2
    case Fastboot => 1
    case _ => 0
  }

  function LaunchOrFallback(cfg: Config, v: Vars, env: Env, t: Target): (Vars, Outcome)
    decreases Rank(t)
  {
    var t := EmFallbackTarget(env, t);
    if t == ColdOff then (v, PoweredOff)
    else if !env.indicatorsOk then (v, GaveUp)
    else
      var v := SetEntryLast(cfg, v, t);
      if TargetToName(cfg, t).Some? && env.starts(t) then (v, Launched(t))
      else if FallbackTarget(t) == Unknown then (v, GaveUp)
      else LaunchOrFallback(cfg, v, env, FallbackTarget(t))
  }

  /**
   * One whole boot. Once the target is known, publishing the OSNIB variables reads the
   * reset source again, which deletes the saved copy if nothing had read it before.
   */
  function BootStep(cfg: Config, v: Vars, env: Env): (Vars, Outcome)
  {
    var (v', decision) := TargetFromInputs(cfg, v, env);
    match decision
    case None => (v', ForcedColdReset)
    case Some(t) =>
      LaunchOrFallback(cfg, v'.(savedResetSource := None), env, if t == Unknown then Boot else t)
  }

  // ------------------------------------------------------------ the code

  /** The loader during one boot: persistent variables plus the cached reset source. */
  class Loader {
    const cfg: Config
    const env: Env
    var wdtCounter: Option<int>
    var wdColdReset: Option<int>
    var savedResetSource: Option<ResetSource>
    var entryLast: Option<string>
    var entryOneShot: Option<string>
    /** The static `reset_source`, ResetError until it has been read. */
    var resetSource: ResetSource

    constructor (cfg: Config, env: Env, v: Vars)
      ensures this.cfg == cfg && this.env == env && PersistentVars() == v && resetSource == ResetError
    {
      this.cfg, this.env := cfg, env;
      wdtCounter, wdColdReset, savedResetSource := v.wdtCounter, v.wdColdReset, v.savedResetSource;
      entryLast, entryOneShot, resetSource := v.entryLast, v.entryOneShot, ResetError;
    }

    function PersistentVars(): Vars
      reads this
    {
      Vars(wdtCounter, wdColdReset, savedResetSource, entryLast, entryOneShot)
    }

    /** `target_to_name` through `get_target_entry`. */
    method GetTargetName(t: Target) returns (name: Option<string>)
      ensures name == TargetToName(cfg, t)
    {
      var entries := cfg.entries;
      var i := 0;
      while i < |entries|
        invariant 0 <= i <= |entries|
        invariant FindTarget(entries[i..], t) == TargetToName(cfg, t)
      {
        if entries[i].0 == t {
          return Some(entries[i].1);
        }
        i := i + 1;
      }
      return None;
    }

    /** `get_target_from_var`, `name_to_target` through `name_to_entry`. */
    method GetTargetFromVar(name: Option<string>) returns (t: Target)
      ensures t == TargetFromVar(cfg, name)
    {
      if name.None? {
        return Unknown;
      }
      var entries := cfg.entries;
      var i := 0;
      while i < |entries|
        invariant 0 <= i <= |entries|
        invariant FindName(entries[i..], name.value) == FindName(entries, name.value)
      {
        if entries[i].1 == name.value {
          return entries[i].0;
        }
        i := i + 1;
      }
      return Unknown;
    }

    method SetLast(t: Target)
      modifies this`entryLast, this`entryOneShot
      ensures PersistentVars() == SetEntryLast(cfg, old(PersistentVars()), t)
    {
      var name := GetTargetName(t);
      if name.None? {
        return;
      }
      entryOneShot := None;
      entryLast := name;
    }

    method GetResetSource() returns (rs: ResetSource)
      modifies this`resetSource, this`savedResetSource
      ensures old(resetSource) != ResetError ==>
        rs == old(resetSource) && PersistentVars() == old(PersistentVars()) && resetSource == old(resetSource)
      ensures old(resetSource) == ResetError ==>
        && rs == ResetSourceOf(cfg, old(PersistentVars()), env) && resetSource == rs
        && PersistentVars() == old(PersistentVars()).(savedResetSource := None)
    {
      if resetSource != ResetError {
        return resetSource;
      }
      if cfg.coldResetAfterWd && wdColdReset == Some(1) {
        if savedResetSource.Some? {
          resetSource := savedResetSource.value;
        }
      } else {
        resetSource := env.rsciReset;
      }
      savedResetSource := None;
      return resetSource;
    }

    method DoBootWatchdog(rs: ResetSource) returns (decision: Option<Target>)
      modifies this`wdtCounter, this`wdColdReset, this`savedResetSource, this`entryLast, this`entryOneShot
      ensures (PersistentVars(), decision) == BootWatchdog(cfg, old(PersistentVars()), rs)
    {
      if !IsWatchdog(rs) {
        return Some(Unknown);
      }
      var last := GetTargetFromVar(entryLast);
      if cfg.coldResetAfterWd {
        if wdColdReset == Some(1) {
          wdColdReset := Some(0);
        } else {
          SetLast(last);
          savedResetSource := Some(rs);
          wdColdReset := Some(1);
          return None;
        }
      }
      var counter := match wdtCounter case None => 0 case Some(c) => if c == -1 then 0 else c;
      counter := counter + 1;
      if counter >= 3 {
        wdtCounter := Some(0);
        return Some(FallbackTarget(last));
      }
      wdtCounter := Some(counter);
      return Some(last);
    }

    method DoTargetFromReset(rs: ResetSource) returns (decision: Option<Target>)
      modifies this`wdtCounter, this`wdColdReset, this`savedResetSource, this`entryLast, this`entryOneShot
      ensures (PersistentVars(), decision) == TargetFromReset(cfg, old(PersistentVars()), env, rs)
    {
      decision := DoBootWatchdog(rs);
      if decision != Some(Unknown) {
        return;
      }
      if env.BcbRecovery() {
        return Some(Recovery);
      }
      if rs == FwUpdate {
        return Some(Boot);
      }
      if rs == OsInitiated || rs == Forced {
        var t := GetTargetFromVar(entryOneShot);
        return Some(t);
      }
    }

    method DoTargetFromOff() returns (t: Target)
      modifies this`wdtCounter
      ensures (PersistentVars(), t) == TargetFromOff(old(PersistentVars()), env)
    {
      if env.powerButtonOverride {
        wdtCounter := Some(0);
      }
      if env.fastbootCombo {
        return Fastboot;
      }
      if env.BcbRecovery() {
        return Recovery;
      }
      match env.wake
      case PowerButtonPressed => return Boot;
      case BatteryInserted => return if env.pmicDollarTi && env.chargerPresent then Charging else ColdOff;
      case UsbChargerInserted => return if env.chargerPresent then Charging else ColdOff;
      case AcdcChargerInserted => return if env.chargerPresent then Charging else ColdOff;
      case _ => return Unknown;
    }

    method DoTargetFromInputs() returns (decision: Option<Target>)
      requires resetSource == ResetError
      modifies this
      ensures (PersistentVars(), decision) == TargetFromInputs(cfg, old(PersistentVars()), env)
      ensures resetSource != ResetError && decision.Some? ==> savedResetSource.None?
    {
      if !env.batteryOk {
        return Some(ColdOff);
      }
      if env.wake == WakeError {
        return Some(Boot);
      }
      if env.wake != WakeNotApplicable {
        var t := DoTargetFromOff();
        return Some(t);
      }
      var rs := GetResetSource();
      if rs == ResetError {
        return Some(Boot);
      }
      if rs == ResetNotApplicable {
        return Some(Unknown);
      }
      decision := DoTargetFromReset(rs);
    }

    /** The loop over ever simpler targets. */
    method DoLaunchOrFallback(t0: Target) returns (outcome: Outcome)
      modifies this`entryLast, this`entryOneShot
      ensures (PersistentVars(), outcome) == LaunchOrFallback(cfg, old(PersistentVars()), env, t0)
    {
      var t := t0;
      while true
        invariant LaunchOrFallback(cfg, PersistentVars(), env, t) ==
                  LaunchOrFallback(cfg, old(PersistentVars()), env, t0)
        decreases Rank(t)
      {
        ghost var asked := t;
        t := EmFallbackTarget(env, t);
        if t == ColdOff {
          return PoweredOff;
        }
        if !env.indicatorsOk {
          return GaveUp;
        }
        SetLast(t);
        var name := GetTargetName(t);
        if name.Some? && env.starts(t) {
          return Launched(t);
        }
        t := FallbackTarget(t);
        if t == Unknown {
          return GaveUp;
        }
      }
    }

    method StartBootLogic() returns (outcome: Outcome)
      requires resetSource == ResetError
      modifies this
      ensures (PersistentVars(), outcome) == BootStep(cfg, old(PersistentVars()), env)
    {
      var decision := DoTargetFromInputs();
      if decision.None? {
        return ForcedColdReset;
      }
      var t := if decision == Some(Unknown) then Boot else decision.value;
      var rs := GetResetSource();
      outcome := DoLaunchOrFallback(t);
    }
  }
}
