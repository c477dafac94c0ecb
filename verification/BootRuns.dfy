/**
 * What sequences of boots do: the watchdog ladder, and the forced cold reset that one
 * configuration inserts after every watchdog reset.
 */
module BootRuns {
  import opened Machine
  import opened BootLogic

  /** The persistent variables after a sequence of boots, and how each of them ended. */
  function Run(cfg: Config, v: Vars, envs: seq<Env>): (r: (Vars, seq<Outcome>))
    ensures |r.1| == |envs|
    decreases |envs|
  {
    if envs == [] then (v, [])
    else
      var (v', o) := BootStep(cfg, v, envs[0]);
      var (v'', os) := Run(cfg, v', envs[1..]);
      (v'', [o] + os)
  }

  // ------------------------------------------------------------ every single boot

  /** The fallback order from t on. */
  function Chain(t: Target): seq<Target>
    decreases Rank(t)
  {
    if FallbackTarget(t) == Unknown then [t] else [t] + Chain(FallbackTarget(t))
  }

  /** The first target of the chain that is known and whose image starts. */
  function FirstStarting(cfg: Config, env: Env, chain: seq<Target>): Option<Target>
  {
    if chain == [] then None
    else if TargetToName(cfg, chain[0]).Some? && env.starts(chain[0]) then Some(chain[0])
    else FirstStarting(cfg, env, chain[1..])
  }

  /** Launching goes down the chain to the first image that starts, and gives up past its end. */
  lemma {:induction false} LaunchesFirstStarting(cfg: Config, v: Vars, env: Env, t: Target)
    requires env.indicatorsOk && EmFallbackTarget(env, t) != ColdOff
    ensures LaunchOrFallback(cfg, v, env, t).1 ==
            match FirstStarting(cfg, env, Chain(EmFallbackTarget(env, t)))
            case Some(s) => Launched(s)
            case None => GaveUp
    decreases Rank(t)
  {
    hide TargetToName;
    var t' := EmFallbackTarget(env, t);
    var next := FallbackTarget(t');
    if next != Unknown {
      assert Chain(t')[1..] == Chain(next);
      assert EmFallbackTarget(env, next) == next;
      if !(TargetToName(cfg, t').Some? && env.starts(t')) {
        LaunchesFirstStarting(cfg, SetEntryLast(cfg, v, t'), env, next);
      }
    } else {
      assert Chain(t')[1..] == [];
    }
  }

  /** Whatever is launched is what the next boot finds as the last target; the one-shot request is gone. */
  lemma {:induction false} LaunchRecorded(cfg: Config, v: Vars, env: Env, t: Target)
    requires cfg.Valid()
    ensures var (v', o) := LaunchOrFallback(cfg, v, env, t);
            o.Launched? ==>
              TargetFromVar(cfg, v'.entryLast) == o.target && v'.entryOneShot == None && env.starts(o.target)
    decreases Rank(t)
  {
    hide FindTarget, FindName;
    var t' := EmFallbackTarget(env, t);
    if TargetToName(cfg, t').Some? {
      TargetRoundTrip(cfg, t');
    }
    if FallbackTarget(t') != Unknown {
      LaunchRecorded(cfg, SetEntryLast(cfg, v, t'), env, FallbackTarget(t'));
    }
  }

  lemma {:induction false} LowBatteryLaunch(cfg: Config, v: Vars, env: Env, t: Target)
    requires env.batteryLow
    ensures var o := LaunchOrFallback(cfg, v, env, t).1;
            o.Launched? ==> o.target !in {Boot, Factory, Factory2}
    decreases Rank(t)
  {
    hide TargetToName;
    var t' := EmFallbackTarget(env, t);
    if FallbackTarget(t') != Unknown {
      LowBatteryLaunch(cfg, SetEntryLast(cfg, v, t'), env, FallbackTarget(t'));
    }
  }

  /**
   * Every boot that launches a target records it and consumes the one-shot request, and on
   * a low battery it never launches the full system.
   */
  lemma BootRecordsLaunch(cfg: Config, v: Vars, env: Env)
    requires cfg.Valid()
    ensures var (v', o) := BootStep(cfg, v, env);
            o.Launched? ==>
              && TargetFromVar(cfg, v'.entryLast) == o.target && v'.entryOneShot == None && env.starts(o.target)
              && (env.batteryLow ==> o.target !in {Boot, Factory, Factory2})
  {
    hide TargetFromInputs, LaunchOrFallback, TargetFromVar;
    var (v1, decision) := TargetFromInputs(cfg, v, env);
    if decision.Some? {
      var t := if decision == Some(Unknown) then Boot else decision.value;
      LaunchRecorded(cfg, v1.(savedResetSource := None), env, t);
      if env.batteryLow {
        LowBatteryLaunch(cfg, v1.(savedResetSource := None), env, t);
      }
    }
  }

  lemma {:induction false} LaunchKeeps(cfg: Config, v: Vars, env: Env, t: Target)
    ensures var (v', o) := LaunchOrFallback(cfg, v, env, t);
            && o != ForcedColdReset
            && v'.wdtCounter == v.wdtCounter && v'.wdColdReset == v.wdColdReset
            && v'.savedResetSource == v.savedResetSource
    decreases Rank(t)
  {
    var t := EmFallbackTarget(env, t);
    if t != ColdOff && env.indicatorsOk && FallbackTarget(t) != Unknown {
      LaunchKeeps(cfg, SetEntryLast(cfg, v, t), env, FallbackTarget(t));
    }
  }

  /** The boot reads the reset source before anything else decides. */
  predicate ReadsReset(env: Env)
  {
    env.batteryOk && env.wake == WakeNotApplicable
  }

  predicate Pending(v: Vars)
  {
    v.wdColdReset == Some(1)
  }

  /** Falling back never ends in a power-off: only the first target can be one. */
  lemma {:induction false} PoweredOffAtOnce(cfg: Config, v: Vars, env: Env, t: Target)
    ensures LaunchOrFallback(cfg, v, env, t).1 == PoweredOff <==> EmFallbackTarget(env, t) == ColdOff
    ensures var o := LaunchOrFallback(cfg, v, env, t).1;
            o.Launched? && o.target == Boot ==> EmFallbackTarget(env, t) == Boot
    decreases Rank(t)
  {
    hide TargetToName;
    var t' := EmFallbackTarget(env, t);
    if t' != ColdOff && env.indicatorsOk && FallbackTarget(t') != Unknown {
      PoweredOffAtOnce(cfg, SetEntryLast(cfg, v, t'), env, FallbackTarget(t'));
    }
  }

  /** Nobody asked for fastboot or recovery. */
  predicate NothingAsked(env: Env)
  {
    !env.fastbootCombo && !env.BcbRecovery()
  }

  /** Waking up to charge only. */
  predicate ChargeWake(env: Env)
  {
    env.wake in {BatteryInserted, UsbChargerInserted, AcdcChargerInserted}
  }

  /** A boot from power-off, with a battery and a known wake source. */
  predicate FromOff(env: Env)
  {
    env.batteryOk && env.wake !in {WakeNotApplicable, WakeError}
  }

  /**
   * A boot from power-off switches the device off again exactly when nobody asked for
   * fastboot or recovery and the charger is missing on a charging wake-up or a low battery, or
   * a battery was put into a board that cannot charge from there.
   */
  lemma OffPowersOffIff(cfg: Config, v: Vars, env: Env)
    requires FromOff(env)
    ensures BootStep(cfg, v, env).1 == PoweredOff <==>
            && NothingAsked(env)
            && ((!env.chargerPresent && (ChargeWake(env) || env.batteryLow))
                || (env.wake == BatteryInserted && !env.pmicDollarTi))
  {
    hide LaunchOrFallback, SetEntryLast;
    var (v1, decision) := TargetFromInputs(cfg, v, env);
    var t := if decision == Some(Unknown) then Boot else decision.value;
    PoweredOffAtOnce(cfg, v1.(savedResetSource := None), env, t);
  }

  /**
   * A system that can start is launched from power-off exactly when nobody asked for anything
   * else, the wake-up is not for charging, and the battery is not low.
   */
  lemma OffLaunchesSystemIff(cfg: Config, v: Vars, env: Env)
    requires FromOff(env) && env.indicatorsOk && env.starts(Boot) && TargetToName(cfg, Boot).Some?
    ensures BootStep(cfg, v, env).1 == Launched(Boot) <==> NothingAsked(env) && !ChargeWake(env) && !env.batteryLow
  {
    hide TargetToName, LaunchOrFallback, SetEntryLast;
    var (v1, decision) := TargetFromInputs(cfg, v, env);
    var t := if decision == Some(Unknown) then Boot else decision.value;
    var v2 := v1.(savedResetSource := None);
    PoweredOffAtOnce(cfg, v2, env, t);
    if NothingAsked(env) && !ChargeWake(env) && !env.batteryLow {
      assert EmFallbackTarget(env, t) == t == Boot;
      LaunchesFirstStarting(cfg, v2, env, t);
    }
  }

  /** From power-off, a forced shutdown with the power button clears the watchdog counter, and nothing else does. */
  lemma OffKeepsCounter(cfg: Config, v: Vars, env: Env)
    requires FromOff(env)
    ensures var v' := BootStep(cfg, v, env).0;
            && v'.wdtCounter == (if env.powerButtonOverride then Some(0) else v.wdtCounter)
            && v'.wdColdReset == v.wdColdReset
  {
    hide LaunchOrFallback, SetEntryLast;
    var (v1, decision) := TargetFromInputs(cfg, v, env);
    var t := if decision == Some(Unknown) then Boot else decision.value;
    LaunchKeeps(cfg, v1.(savedResetSource := None), env, t);
  }

  /** A one-shot request is served, once, by the next reset that the system or the user asked for. */
  lemma OneShotServed(cfg: Config, v: Vars, env: Env, t: Target)
    requires cfg.Valid() && TargetToName(cfg, t).Some? && v.entryOneShot == TargetToName(cfg, t)
    requires t != Unknown && EmFallbackTarget(env, t) == t != ColdOff && env.starts(t) && env.indicatorsOk
    requires ReadsReset(env) && env.rsciReset in {OsInitiated, Forced} && !env.BcbRecovery()
    requires cfg.coldResetAfterWd ==> !Pending(v)
    ensures var (v', o) := BootStep(cfg, v, env);
            && o == Launched(t) && v'.entryOneShot == None
            && TargetFromVar(cfg, v'.entryLast) == t
            && v'.wdtCounter == v.wdtCounter
  {
    hide FindTarget, FindName;
    TargetRoundTrip(cfg, t);
  }

  // ------------------------------------------------------------ watchdog ladder

  /** Twelve counted resets make one round: three for each of the four rungs. */
  function Step(n: nat): nat
  {
    n % 12
  }

  function Rung(n: nat): Target
  {
    if Step(n) < 3 then Boot else if Step(n) < 6 then Recovery else if Step(n) < 9 then Fastboot else Dnx
  }

  /** What the counter holds after the n-th counted reset. */
  function Count(n: nat): nat
  {
    if Step(n) < 3 then Step(n)
    else if Step(n) < 6 then Step(n) - 3
    else if Step(n) < 9 then Step(n) - 6
    else Step(n) - 9
  }

  /** The device last launched the rung of its n-th counted reset. */
  ghost predicate OnLadder(cfg: Config, v: Vars, n: nat)
  {
    && TargetFromVar(cfg, v.entryLast) == Rung(n)
    && Counter(v) == Count(n)
    && (cfg.coldResetAfterWd ==> v.wdColdReset != Some(1))
  }

  /** A boot with enough battery, no wake source, and images that start. */
  predicate Healthy(env: Env, next: Target)
  {
    env.batteryOk && !env.batteryLow && env.wake == WakeNotApplicable && env.indicatorsOk && env.starts(next)
  }

  /** One watchdog reset: the boot that sees it and, after a forced cold reset, the boot that acts on it. */
  datatype Incident = Incident(seen: Env, acted: Env)
  {
    /** `n` counted resets before this one. */
    predicate Valid(cfg: Config, n: nat)
    {
      && seen.batteryOk && seen.wake == WakeNotApplicable && IsWatchdog(seen.rsciReset)
      && Healthy(if cfg.coldResetAfterWd then acted else seen, Rung(n + 1))
      && (Step(n + 1) == 0 ==> !(if cfg.coldResetAfterWd then acted else seen).BcbRecovery())
    }

    function Boots(cfg: Config): seq<Env>
    {
      if cfg.coldResetAfterWd then [seen, acted] else [seen]
    }
  }

  /** Three resets on a rung, then down to the next; the fourth rung has no fallback. */
  lemma RungStep(n: nat)
    ensures Count(n) < 2 ==> Rung(n + 1) == Rung(n) && Count(n + 1) == Count(n) + 1
    ensures Count(n) >= 2 ==> Count(n) == 2 && Count(n + 1) == 0
    ensures Count(n) == 2 && Step(n + 1) != 0 ==> Rung(n + 1) == FallbackTarget(Rung(n)) != Unknown
    ensures Count(n) == 2 && Step(n + 1) == 0 ==> Rung(n + 1) == Boot && FallbackTarget(Rung(n)) == Unknown
  {
    assert Step(n + 1) == if Step(n) == 11 then 0 else Step(n) + 1;
  }

  lemma SetEntryLastReads(cfg: Config, v: Vars, t: Target)
    requires cfg.Valid()
    ensures TargetToName(cfg, t).Some? ==> TargetFromVar(cfg, SetEntryLast(cfg, v, t).entryLast) == t
    ensures t == TargetFromVar(cfg, v.entryLast) ==>
      TargetFromVar(cfg, SetEntryLast(cfg, v, t).entryLast) == t
  {
    if TargetToName(cfg, t).Some? {
      TargetRoundTrip(cfg, t);
    }
  }

  /** A boot that acts on a watchdog reset counts it and launches the next rung. */
  lemma ActStep(cfg: Config, v: Vars, env: Env, n: nat)
    requires cfg.Valid() && TargetFromVar(cfg, v.entryLast) == Rung(n) && Counter(v) == Count(n)
    requires IsWatchdog(ResetSourceOf(cfg, v, env)) && (cfg.coldResetAfterWd ==> v.wdColdReset == Some(1))
    requires Healthy(env, Rung(n + 1)) && (Step(n + 1) == 0 ==> !env.BcbRecovery())
    ensures var (v', o) := BootStep(cfg, v, env);
            o == Launched(Rung(n + 1)) && OnLadder(cfg, v', n + 1)
  {
    hide FindTarget, FindName;
    RungStep(n);
    var next := Rung(n + 1);
    assert next in {Boot, Recovery, Fastboot, Dnx} && TargetToName(cfg, next).Some?;
    var (v1, decision) := TargetFromInputs(cfg, v, env);
    assert decision.Some? && (if decision == Some(Unknown) then Boot else decision.value) == next;
    SetEntryLastReads(cfg, v1.(savedResetSource := None), next);
  }

  /** With the extra cold reset enabled, the boot that first sees a watchdog reset only records it. */
  lemma SeenStep(cfg: Config, v: Vars, env: Env, n: nat)
    requires cfg.Valid() && cfg.coldResetAfterWd && OnLadder(cfg, v, n)
    requires env.batteryOk && env.wake == WakeNotApplicable && IsWatchdog(env.rsciReset)
    ensures var (v', o) := BootStep(cfg, v, env);
            && o == ForcedColdReset
            && v'.wdColdReset == Some(1) && v'.savedResetSource == Some(env.rsciReset)
            && TargetFromVar(cfg, v'.entryLast) == Rung(n) && Counter(v') == Count(n)
  {
    SetEntryLastReads(cfg, v.(savedResetSource := None), Rung(n));
  }

  function Expected(cfg: Config, n: nat): seq<Outcome>
  {
    (if cfg.coldResetAfterWd then [ForcedColdReset] else []) + [Launched(Rung(n))]
  }

  lemma {:induction false} RunConcat(cfg: Config, v: Vars, xs: seq<Env>, ys: seq<Env>)
    ensures var (v', os) := Run(cfg, v, xs);
            var (v'', os') := Run(cfg, v', ys);
            Run(cfg, v, xs + ys) == (v'', os + os')
    decreases |xs|
  {
    hide BootStep;
    if xs == [] {
      assert xs + ys == ys;
      assert [] + Run(cfg, v, ys).1 == Run(cfg, v, ys).1;
    } else {
      assert (xs + ys)[1..] == xs[1..] + ys;
      var (v1, o) := BootStep(cfg, v, xs[0]);
      RunConcat(cfg, v1, xs[1..], ys);
      var (v', os) := Run(cfg, v1, xs[1..]);
      var os' := Run(cfg, v', ys).1;
      assert [o] + (os + os') == [o] + os + os';
    }
  }

  lemma RunOne(cfg: Config, v: Vars, env: Env)
    ensures Run(cfg, v, [env]) == (BootStep(cfg, v, env).0, [BootStep(cfg, v, env).1])
  {
    hide BootStep;
    var (v', o) := BootStep(cfg, v, env);
    assert [env][1..] == [];
    assert Run(cfg, v', []).1 == [] && [o] + [] == [o];
  }

  /** One incident climbs one counted reset, in either configuration. */
  lemma IncidentStep(cfg: Config, v: Vars, i: Incident, n: nat)
    requires cfg.Valid() && OnLadder(cfg, v, n) && i.Valid(cfg, n)
    ensures Run(cfg, v, i.Boots(cfg)).1 == Expected(cfg, n + 1)
    ensures OnLadder(cfg, Run(cfg, v, i.Boots(cfg)).0, n + 1)
  {
    hide BootStep, Rung, TargetFromVar, Count, Run;
    if cfg.coldResetAfterWd {
      SeenStep(cfg, v, i.seen, n);
      var (v1, o) := BootStep(cfg, v, i.seen);
      ActStep(cfg, v1, i.acted, n);
      RunOne(cfg, v, i.seen);
      RunOne(cfg, v1, i.acted);
      RunConcat(cfg, v, [i.seen], [i.acted]);
      assert i.Boots(cfg) == [i.seen] + [i.acted];
    } else {
      ActStep(cfg, v, i.seen, n);
      RunOne(cfg, v, i.seen);
    }
  }

  function Boots(cfg: Config, incidents: seq<Incident>): seq<Env>
  {
    if incidents == [] then [] else incidents[0].Boots(cfg) + Boots(cfg, incidents[1..])
  }

  /** The outcomes of counted resets n + 1 to n + k. */
  function Climb(cfg: Config, n: nat, k: nat): seq<Outcome>
    decreases k
  {
    if k == 0 then [] else Expected(cfg, n + 1) + Climb(cfg, n + 1, k - 1)
  }

  /**
   * Main result: whatever else differs between the boots, a device whose every launch ends
   * in a watchdog reset goes through the rungs in order, three counted resets each.
   */
  lemma {:induction false} LadderRun(cfg: Config, v: Vars, n: nat, incidents: seq<Incident>)
    requires cfg.Valid() && OnLadder(cfg, v, n)
    requires forall i: nat | i < |incidents| :: incidents[i].Valid(cfg, n + i)
    ensures Run(cfg, v, Boots(cfg, incidents)).1 == Climb(cfg, n, |incidents|)
    ensures OnLadder(cfg, Run(cfg, v, Boots(cfg, incidents)).0, n + |incidents|)
    decreases |incidents|
  {
    hide OnLadder, Incident.Valid, Expected, BootStep;
    if incidents != [] {
      var first, rest := incidents[0], incidents[1..];
      assert first.Valid(cfg, n + 0);
      IncidentStep(cfg, v, first, n);
      forall i: nat | i < |rest|
        ensures rest[i].Valid(cfg, n + 1 + i)
      {
        assert incidents[i + 1].Valid(cfg, n + (i + 1));
      }
      LadderRun(cfg, Run(cfg, v, first.Boots(cfg)).0, n + 1, rest);
      RunConcat(cfg, v, first.Boots(cfg), Boots(cfg, rest));
    }
  }

  /** What the boots launched, in order. */
  function Launches(os: seq<Outcome>): seq<Target>
  {
    if os == [] then []
    else (if os[0].Launched? then [os[0].target] else []) + Launches(os[1..])
  }

  /** The rungs of counted resets n + 1 to n + k. */
  function Rungs(n: nat, k: nat): seq<Target>
    decreases k
  {
    if k == 0 then [] else [Rung(n + 1)] + Rungs(n + 1, k - 1)
  }

  lemma {:induction false} LaunchesOfClimb(cfg: Config, n: nat, k: nat)
    ensures Launches(Climb(cfg, n, k)) == Rungs(n, k)
    decreases k
  {
    hide Rung;
    if k > 0 {
      LaunchesOfClimb(cfg, n + 1, k - 1);
      var rest := Climb(cfg, n + 1, k - 1);
      var all := Climb(cfg, n, k);
      if cfg.coldResetAfterWd {
        assert all[1..][1..] == rest;
      } else {
        assert all[1..] == rest;
      }
    }
  }

  /** From a fresh normal boot: two more tries, then recovery, then fastboot, and DNX on the ninth reset. */
  lemma NinthResetReachesDnx(cfg: Config, v: Vars, incidents: seq<Incident>)
    requires cfg.Valid() && OnLadder(cfg, v, 0) && |incidents| == 9
    requires forall i: nat | i < 9 :: incidents[i].Valid(cfg, i)
    ensures Launches(Run(cfg, v, Boots(cfg, incidents)).1) ==
            [Boot, Boot, Recovery, Recovery, Recovery, Fastboot, Fastboot, Fastboot, Dnx]
  {
    hide Run, Boots, Climb, Incident.Valid, OnLadder, Launches;
    assert forall i: nat | i < |incidents| :: incidents[i].Valid(cfg, 0 + i);
    LadderRun(cfg, v, 0, incidents);
    LaunchesOfClimb(cfg, 0, 9);
    assert Rungs(6, 3) == [Fastboot, Fastboot, Dnx];
    assert Rungs(3, 6) == [Recovery, Recovery, Fastboot] + Rungs(6, 3);
    assert Rungs(0, 9) == [Boot, Boot, Recovery] + Rungs(3, 6);
  }

  // ------------------------------------------------------------ one cold reset per incident

  /** Between boots, a pending cold reset remembers the watchdog that caused it. */
  ghost predicate Remembered(v: Vars)
  {
    v.wdColdReset == Some(1) ==> v.savedResetSource.Some? && IsWatchdog(v.savedResetSource.value)
  }

  /** A new watchdog reset, as the hardware reports it to a boot that has none pending. */
  predicate NewIncident(v: Vars, env: Env)
  {
    v.wdColdReset != Some(1) && ReadsReset(env) && IsWatchdog(env.rsciReset)
  }

  /** A new incident, and nothing else, forces a cold reset; its source is saved. */
  lemma NewIncidentStep(cfg: Config, v: Vars, env: Env)
    requires cfg.coldResetAfterWd
    ensures var (v', o) := BootStep(cfg, v, env);
            && (o == ForcedColdReset <==> NewIncident(v, env))
            && (NewIncident(v, env) ==>
                Pending(v') && v'.savedResetSource == Some(env.rsciReset) && v'.wdtCounter == v.wdtCounter)
            && (!NewIncident(v, env) ==> v'.savedResetSource == None)
  {
    hide FindTarget, FindName;
    var (v1, decision) := TargetFromInputs(cfg, v, env);
    if decision.Some? {
      LaunchKeeps(cfg, v1.(savedResetSource := None), env, if decision == Some(Unknown) then Boot else decision.value);
    }
  }

  /** The flag is taken back, and the counter moves, exactly when a remembered incident is acted on. */
  lemma PendingStep(cfg: Config, v: Vars, env: Env)
    requires cfg.coldResetAfterWd && !NewIncident(v, env)
    ensures var (v', o) := BootStep(cfg, v, env);
            if Pending(v) && Remembered(v) && ReadsReset(env) then
              && !Pending(v')
              && v'.wdtCounter == Some(if Counter(v) + 1 >= 3 then 0 else Counter(v) + 1)
            else
              && v'.wdColdReset == v.wdColdReset
              && (v'.wdtCounter == v.wdtCounter || (env.powerButtonOverride && v'.wdtCounter == Some(0)))
  {
    hide FindTarget, FindName;
    var (v1, decision) := TargetFromInputs(cfg, v, env);
    assert decision.Some?;
    LaunchKeeps(cfg, v1.(savedResetSource := None), env, if decision == Some(Unknown) then Boot else decision.value);
  }

  /**
   * The memory survives a boot if and only if the boot after a forced cold reset gets to
   * read it: with the battery present and no wake source.
   */
  lemma RememberedIff(cfg: Config, v: Vars, env: Env)
    requires cfg.coldResetAfterWd && Remembered(v)
    ensures Remembered(BootStep(cfg, v, env).0) <==> (Pending(v) ==> ReadsReset(env))
  {
    hide BootStep;
    NewIncidentStep(cfg, v, env);
    if !NewIncident(v, env) {
      PendingStep(cfg, v, env);
    }
  }

  /** Every boot that follows a forced cold reset reads the reset source, and nobody held the power button. */
  predicate Undisturbed(cfg: Config, v: Vars, envs: seq<Env>)
    decreases |envs|
  {
    envs == [] ||
    ((Pending(v) ==> ReadsReset(envs[0])) && !envs[0].powerButtonOverride
     && Undisturbed(cfg, BootStep(cfg, v, envs[0]).0, envs[1..]))
  }

  /** Watchdog resets the hardware reported during the run, each once. */
  function Incidents(cfg: Config, v: Vars, envs: seq<Env>): nat
    decreases |envs|
  {
    if envs == [] then 0
    else (if NewIncident(v, envs[0]) then 1 else 0) + Incidents(cfg, BootStep(cfg, v, envs[0]).0, envs[1..])
  }

  function ColdResets(os: seq<Outcome>): nat
  {
    if os == [] then 0 else (if os[0] == ForcedColdReset then 1 else 0) + ColdResets(os[1..])
  }

  /** Incidents still waiting to be acted on: at most one. */
  function Waiting(v: Vars): nat
  {
    if Pending(v) then 1 else 0
  }

  /**
   * Main result: over any undisturbed run there is exactly one forced cold reset for each
   * watchdog incident, and the counter has moved once for each incident acted on.
   */
  lemma {:induction false} OneColdResetPerIncident(cfg: Config, v: Vars, envs: seq<Env>)
    requires cfg.coldResetAfterWd && Remembered(v) && Undisturbed(cfg, v, envs)
    requires 0 <= Counter(v) < 3
    ensures var (v', os) := Run(cfg, v, envs);
            && Remembered(v')
            && ColdResets(os) == Incidents(cfg, v, envs)
            && Incidents(cfg, v, envs) + Waiting(v) >= Waiting(v')
            && Counter(v') == (Counter(v) + Incidents(cfg, v, envs) + Waiting(v) - Waiting(v')) % 3
    decreases |envs|
  {
    hide BootStep;
    if envs != [] {
      var (v1, o) := BootStep(cfg, v, envs[0]);
      RememberedIff(cfg, v, envs[0]);
      NewIncidentStep(cfg, v, envs[0]);
      if !NewIncident(v, envs[0]) {
        PendingStep(cfg, v, envs[0]);
      }
      OneColdResetPerIncident(cfg, v1, envs[1..]);
      var os := Run(cfg, v1, envs[1..]).1;
      assert ([o] + os)[1..] == os;
    }
  }

  /**
   * Once the memory is lost the flag is never taken back: no later boot, whatever it finds,
   * forces a cold reset again or counts a watchdog reset.
   */
  lemma {:induction false} LostForever(cfg: Config, v: Vars, envs: seq<Env>)
    requires cfg.coldResetAfterWd && Pending(v) && v.savedResetSource == None
    ensures var (v', os) := Run(cfg, v, envs);
            && Pending(v') && v'.savedResetSource == None
            && ColdResets(os) == 0
            && v'.wdtCounter in {v.wdtCounter, Some(0)}
    decreases |envs|
  {
    hide BootStep;
    if envs != [] {
      var (v1, o) := BootStep(cfg, v, envs[0]);
      NewIncidentStep(cfg, v, envs[0]);
      PendingStep(cfg, v, envs[0]);
      LostForever(cfg, v1, envs[1..]);
      var os := Run(cfg, v1, envs[1..]).1;
      assert ([o] + os)[1..] == os;
    }
  }

  /** A boot after a watchdog reset, with enough battery and nothing else going on. */
  function AfterWatchdog(): Env
  {
    Env(true, false, false, false, WakeNotApplicable, KernelWatchdog, false, false, None, true, (t: Target) => true)
  }

  /** The same boot, but woken by the power button. */
  function AfterButton(): Env
  {
    AfterWatchdog().(wake := PowerButtonPressed)
  }

  lemma WitnessBoots()
    ensures ReadsReset(AfterWatchdog()) && IsWatchdog(AfterWatchdog().rsciReset) && !ReadsReset(AfterButton())
    ensures !AfterWatchdog().powerButtonOverride && !AfterButton().powerButtonOverride
  {
  }

  /**
   * For instance an idle device that is reset by a watchdog, whose user then presses the power
   * button on the boot after the forced cold reset: the next watchdog reset is not counted.
   */
  lemma LostWitness(cfg: Config, v: Vars)
    requires cfg.coldResetAfterWd && !Pending(v)
    ensures var (v', os) := Run(cfg, v, [AfterWatchdog(), AfterButton(), AfterWatchdog()]);
            os[0] == ForcedColdReset && os[2] != ForcedColdReset && v'.wdtCounter == v.wdtCounter && Pending(v')
  {
    hide BootStep, AfterButton, AfterWatchdog;
    WitnessBoots();
    var reset, button := AfterWatchdog(), AfterButton();
    var envs := [reset, button, reset];
    assert envs[1..] == [button, reset] && envs[1..][1..] == [reset];
    NewIncidentStep(cfg, v, reset);
    var v1 := BootStep(cfg, v, reset).0;
    NewIncidentStep(cfg, v1, button);
    PendingStep(cfg, v1, button);
    var v2 := BootStep(cfg, v1, button).0;
    NewIncidentStep(cfg, v2, reset);
    PendingStep(cfg, v2, reset);
    RunOne(cfg, v2, reset);
    assert Run(cfg, v1, envs[1..]).1 == [BootStep(cfg, v1, button).1] + [BootStep(cfg, v2, reset).1];
  }
}
