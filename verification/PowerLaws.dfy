/**
 * firmware/edge510-pic/pic.c: what the power sequencer must do, as against what it must keep: when it turns the power
 * off, how long each step of the way up takes, and what requests, button and watchdog lead to.
 */
module PowerLaws {
  import opened PowerSequencer

  const ALL_OFF := Pins(false, false, false, false, false)

  // ---- turning off ----

  /** The pass in PST_TURN_OFF switches everything off, whatever it reads, and starts the minimal off time. */
  lemma OffPass(s: Pic, inp: Inputs)
    requires s.pstate == PST_TURN_OFF
    ensures var t := LoopPass(s, inp);
      && t.pins == ALL_OFF && t.timer == Timer(LoadValue(PSTATE_MIN_OFF), true, false)
      && t.pstate == (if s.nstate == PST_OK then PST_MINOFF else s.nstate) && t.nstate == PST_OK && t.pcycle == s.pcycle
  {
    hide LoadValue, RstbtnFsm, OffSwitch;
    TurnedOff(s.(button := RstbtnFsm(s.button, inp.button, inp.tick6)));
  }

  /** What goes on between two passes. */
  predicate Between(e: Event) { e.TimerTick? || e.Power? || e.Watchdog? }

  lemma {:induction false} BetweenPasses(s: Pic, idle: seq<Event>)
    requires forall e <- idle :: Between(e)
    ensures States(s, idle).pstate == s.pstate && States(s, idle).pins == s.pins
    decreases |idle|
  {
    if idle != [] {
      hide HostPower, TickTimer;
      BetweenPasses(s, idle[..|idle| - 1]);
      HostPowerKeeps(States(s, idle[..|idle| - 1]), idle[|idle| - 1]);
    }
  }

  lemma HostPowerKeeps(s: Pic, e: Event)
    requires Between(e)
    ensures Step(s, e).pstate == s.pstate && Step(s, e).pins == s.pins
  {
  }

  /** In PST_TURN_OFF the next pass has every pin off, whatever happens before it but a reset. */
  lemma OffSoon(s: Pic, idle: seq<Event>, inp: Inputs)
    requires s.pstate == PST_TURN_OFF && forall e <- idle :: Between(e)
    ensures LoopPass(States(s, idle), inp).pins == ALL_OFF
  {
    BetweenPasses(s, idle);
    OffPass(States(s, idle), inp);
  }

  /**
   * From the end of PWRGD's settling on, in every state up to the sleep delay, a pass that sees THMTRIP, or PWRGD gone
   * when it looks again, ends in PST_TURN_OFF.
   */
  lemma TripTurnsOff(s: Pic, inp: Inputs)
    requires PST_RSMRST_DELAY <= s.pstate <= PST_SLP_CR_DELAY && s.nstate == PST_OK
    requires inp.thmtrip || !inp.pwrgdAfter
    ensures LoopPass(s, inp).pstate == PST_TURN_OFF && LoopPass(s, inp).nstate == PST_OK
  {
    hide LoadValue, RstbtnFsm, RunningPass;
    RunningEffect(s.(button := RstbtnFsm(s.button, inp.button, inp.tick6)), inp.tick4);
  }

  /** Over runs: then the next pass has every pin off. */
  lemma TripSwitchesOff(o: Observed, events: seq<Event>, inp: Inputs, idle: seq<Event>, next: Inputs)
    requires Boot(o.s) && !o.everOn && forall e <- idle :: Between(e)
    requires var s := Run(o, events).s; s.pstate >= PST_RSMRST_DELAY && s.nstate == PST_OK
    requires inp.thmtrip || !inp.pwrgdAfter
    ensures LoopPass(States(LoopPass(Run(o, events).s, inp), idle), next).pins == ALL_OFF
  {
    RunKeeps(o, events);
    hide LoopPass, Run, Good;
    GoodRange(Run(o, events));
    TripTurnsOff(Run(o, events).s, inp);
    OffSoon(LoopPass(Run(o, events).s, inp), idle, next);
  }

  lemma GoodRange(o: Observed)
    requires Invariant(o.s, o.everOn, o.off)
    ensures PST_TURN_OFF <= o.s.pstate <= PST_SLP_CR_DELAY && Requestable(o.s.nstate)
  {
  }

  /** The reasons recorded: a trip while running, PWRGD lost, and nothing else of the state changes before the next pass. */
  lemma RunningTrip(s: Pic, inp: Inputs)
    requires s.pstate == PST_RUNNING && s.nstate == PST_OK && inp.thmtrip
    requires !RstbtnFsm(s.button, inp.button, inp.tick6).push && s.swdt == 0
    ensures LoopPass(s, inp).rstate == ThermTrip && LoopPass(s, inp).pins == s.pins
  {
    hide LoadValue, RstbtnFsm;
  }

  lemma RunningPowerLoss(s: Pic, inp: Inputs)
    requires s.pstate == PST_RUNNING && s.nstate == PST_OK && !inp.thmtrip && !inp.pwrgdAfter
    requires !RstbtnFsm(s.button, inp.button, inp.tick6).push && s.swdt == 0
    ensures LoopPass(s, inp).rstate == PowerGood && LoopPass(s, inp).pins == s.pins
  {
    hide LoadValue, RstbtnFsm;
  }

  /** Before the supplies are on neither is looked at. */
  lemma NotYet(s: Pic, inp: Inputs)
    requires PST_MINOFF <= s.pstate <= PST_TURN_ON && s.nstate == PST_OK
    ensures LoopPass(s, inp).pstate != PST_TURN_OFF
  {
    hide LoadValue, RstbtnFsm;
  }

  // ---- requests of the host ----

  /** Each request is recorded as the reason, and leads to its state; a power cycle also asks to switch on again. */
  lemma RequestRecorded(s: Pic, r: Reason)
    ensures var t := HostPower(s, r);
      && t == s.(rstate := r, nstate := t.nstate, pcycle := t.pcycle)
      && t.nstate == (if r == ResetWarm then PST_RESET_ASSERT else if r == ResetCold then PST_COLD_RESET
                      else if r == PowerOff || r == PowerCycle then PST_TURN_OFF else s.nstate)
      && t.pcycle == (if r == PowerCycle then PcNow else if r == PowerCycleCr then PcCr else s.pcycle)
  {
  }

  /** Whatever the state, a requested one is entered at the end of the next pass. */
  lemma RequestApplied(s: Pic, inp: Inputs)
    requires s.nstate != PST_OK
    ensures LoopPass(s, inp).pstate == s.nstate && LoopPass(s, inp).nstate == PST_OK
  {
    hide LoadValue, RstbtnFsm, RunningPass, OffSwitch, UpSwitch;
    FsmKeepsRequest(s.(button := RstbtnFsm(s.button, inp.button, inp.tick6)), inp);
    hide PowerFsm;
  }

  lemma FsmKeepsRequest(s: Pic, inp: Inputs)
    ensures PowerFsm(s, inp).nstate == s.nstate
  {
    hide LoadValue, RunningPass;
    RunningEffect(s, inp.tick4);
  }

  /** A request to power off: two passes later every pin is off, whatever state it found. */
  lemma PowerOffRequest(s: Pic, r: Reason, first: Inputs, second: Inputs)
    requires r == PowerOff || r == PowerCycle
    ensures LoopPass(LoopPass(HostPower(s, r), first), second).pins == ALL_OFF
  {
    hide LoopPass;
    RequestApplied(HostPower(s, r), first);
    OffPass(LoopPass(HostPower(s, r), first), second);
  }

  /** A cold reset takes RSMRST and the power good signals away and leaves the supplies on. */
  lemma ColdResetRequest(s: Pic, first: Inputs, second: Inputs)
    requires !second.thmtrip && second.pwrgdAfter
    ensures var t := LoopPass(HostPower(s, ResetCold), first);
      var u := LoopPass(t, second);
      && u.pins == Pins(t.pins.reset, false, false, false, t.pins.pson) && u.pstate == PST_RSMRST_DELAY
      && u.timer == Timer(LoadValue(PSTATE_RSMRST_ASSERT), true, false)
  {
    RequestApplied(HostPower(s, ResetCold), first);
    var t := LoopPass(HostPower(s, ResetCold), first);
    hide LoadValue, RstbtnFsm, RunSwitch;
    WasReset(t.(button := RstbtnFsm(t.button, second.button, second.tick6)), second);
  }

  /** A warm reset asserts PICRST and touches nothing else. */
  lemma WarmResetRequest(s: Pic, first: Inputs, second: Inputs)
    requires Fine(second)
    ensures var t := LoopPass(HostPower(s, ResetWarm), first);
      var u := LoopPass(t, second);
      && u.pins == t.pins.(reset := true) && u.pstate == PST_RESET_DELAY
      && u.timer == Timer(LoadValue(PSTATE_RESET_DELAY), true, false)
  {
    RequestApplied(HostPower(s, ResetWarm), first);
    hide LoadValue, RstbtnFsm;
  }

  // ---- the way up, step by step ----

  /** All signals as they should be. */
  predicate Fine(inp: Inputs) { inp.pwrgd && inp.pwrgdAfter && inp.pmuSlp && inp.pmuSlpAfter && !inp.thmtrip }

  /** The states that last for a given time. */
  predicate Timed(p: u8) {
    p == PST_MINOFF || p == PST_PWRGD_STABLE || p == PST_RSMRST_DELAY || p == PST_CLKPWRGD_DELAY
    || p == PST_COREPWR_DELAY || p == PST_RESET_DELAY
  }

  /** Before its time is up, such a state, its timer and the pins stay. */
  lemma StepHolds(s: Pic, inp: Inputs)
    requires Timed(s.pstate) && !s.timer.expired && s.nstate == PST_OK && Fine(inp)
    ensures LoopPass(s, inp) == s.(button := RstbtnFsm(s.button, inp.button, inp.tick6))
  {
    hide LoadValue, RstbtnFsm;
  }

  /** What follows when it is, with which pin, and for how long. */
  function Following(p: u8): u8 {
    if p == PST_MINOFF then PST_OFF
    else if p == PST_PWRGD_STABLE then PST_RSMRST_DELAY
    else if p == PST_RSMRST_DELAY then PST_WAIT_PMUSLP
    else if p == PST_CLKPWRGD_DELAY then PST_COREPWR_DELAY
    else PST_RUNNING
  }

  lemma StepEnds(s: Pic, inp: Inputs)
    requires Timed(s.pstate) && s.timer.expired && s.nstate == PST_OK && Fine(inp)
    ensures var t := LoopPass(s, inp);
      && t.pstate == Following(s.pstate) && t.nstate == PST_OK
      && (s.pstate == PST_MINOFF || s.pstate == PST_PWRGD_STABLE ==> t.pins == s.pins)
      && (s.pstate == PST_RSMRST_DELAY ==> t.pins == s.pins.(rsmrst := true))
      && (s.pstate == PST_CLKPWRGD_DELAY ==> t.pins == s.pins.(clkpwrgd := true))
      && (s.pstate == PST_COREPWR_DELAY ==> t.pins == s.pins.(corepwr := true) && t.swdt == SwdtInit(inp.eeSwdt))
      && (s.pstate == PST_RESET_DELAY ==> t.pins == s.pins.(reset := false) && t.swdt == SwdtInit(inp.eeSwdt))
      && (s.pstate == PST_PWRGD_STABLE ==> t.timer == Timer(LoadValue(PSTATE_RSMRST_DELAY), true, false))
      && (s.pstate == PST_RSMRST_DELAY ==> t.timer == Timer(LoadValue(PSTATE_PMUSLP_TO), true, false))
      && (s.pstate == PST_CLKPWRGD_DELAY ==> t.timer == Timer(LoadValue(PSTATE_COREPWR_DELAY), true, false))
      && (t.pstate == PST_OFF || t.pstate == PST_RUNNING ==> !t.timer.on && !t.timer.expired)
  {
    hide LoadValue, RstbtnFsm, SwdtInit;
  }

  /** PWRGD and PMU_SLP are waited for, and the waits that follow start when they come. */
  lemma SignalCame(s: Pic, inp: Inputs)
    requires s.nstate == PST_OK && Fine(inp)
    ensures s.pstate == PST_WAIT_PWRGD ==>
      var t := LoopPass(s, inp);
      t.pstate == PST_PWRGD_STABLE && t.pins == s.pins && t.nstate == PST_OK
      && t.timer == Timer(LoadValue(PSTATE_PWRGD_STABLE), true, false)
    ensures s.pstate == PST_WAIT_PMUSLP && !s.timer.expired ==>
      var t := LoopPass(s, inp);
      t.pstate == PST_CLKPWRGD_DELAY && t.pins == s.pins && t.nstate == PST_OK
      && t.timer == Timer(LoadValue(PSTATE_CLKPWRGD_DELAY), true, false)
  {
    hide LoadValue, RstbtnFsm;
  }

  /** If they do not come in time, the power goes off again. */
  lemma SignalMissed(s: Pic, inp: Inputs)
    requires s.nstate == PST_OK && s.timer.expired
    ensures s.pstate == PST_WAIT_PWRGD && !inp.pwrgd ==>
      LoopPass(s, inp).pstate == PST_TURN_OFF && LoopPass(s, inp).rstate == PowerGood
    ensures s.pstate == PST_WAIT_PMUSLP ==>
      LoopPass(s, inp).pstate == PST_TURN_OFF && LoopPass(s, inp).rstate == PmuSlp
  {
    hide LoadValue, RstbtnFsm;
  }

  /** Until then they are waited for, and PWRGD that goes away again is waited for anew. */
  lemma SignalAwaited(s: Pic, inp: Inputs)
    requires s.nstate == PST_OK && !s.timer.expired && !inp.thmtrip && inp.pwrgdAfter
    ensures s.pstate == PST_WAIT_PWRGD && !inp.pwrgd ==>
      LoopPass(s, inp) == s.(button := RstbtnFsm(s.button, inp.button, inp.tick6))
    ensures s.pstate == PST_WAIT_PMUSLP && !inp.pmuSlp ==>
      LoopPass(s, inp) == s.(button := RstbtnFsm(s.button, inp.button, inp.tick6))
    ensures s.pstate == PST_PWRGD_STABLE && !inp.pwrgd ==>
      LoopPass(s, inp) == s.(button := RstbtnFsm(s.button, inp.button, inp.tick6), pstate := PST_WAIT_PWRGD)
  {
    hide LoadValue, RstbtnFsm;
  }

  /** The wait of msec milliseconds: its ticks, and the pass after them. */
  function Wait(msec: u16, inp: Inputs): seq<Event> { seq(2 * msec + 1, _ => TimerTick) + [Pass(inp)] }

  lemma {:induction false} TicksOnly(s: Pic, n: nat)
    ensures States(s, seq(n, _ => TimerTick)) == s.(timer := Ticks(s.timer, n))
  {
    if n > 0 {
      hide TickTimer;
      TicksOnly(s, n - 1);
      assert seq(n, _ => TimerTick)[..n - 1] == seq(n - 1, _ => TimerTick);
    }
  }

  lemma {:induction false} StatesAppend(s: Pic, a: seq<Event>, b: seq<Event>)
    ensures States(s, a + b) == States(States(s, a), b)
    decreases |b|
  {
    hide Step;
    if b == [] {
      assert a + b == a;
    } else {
      StatesAppend(s, a, b[..|b| - 1]);
      assert (a + b)[..|a + b| - 1] == a + b[..|b| - 1];
    }
  }

  lemma OnePass(s: Pic, inp: Inputs)
    ensures States(s, [Pass(inp)]) == LoopPass(s, inp)
  {
    hide LoopPass;
    assert [Pass(inp)][..0] == [];
  }

  lemma Waited(s: Pic, msec: u16, inp: Inputs)
    requires s.timer == Timer(LoadValue(msec), true, false) && msec <= 32767
    ensures States(s, Wait(msec, inp)) == LoopPass(s.(timer := Timer(0, true, true)), inp)
  {
    LoadIsComplement(msec);
    hide LoadValue, LoopPass, Step;
    var n := 2 * msec + 1;
    StatesAppend(s, seq(n, _ => TimerTick), [Pass(inp)]);
    TicksOnly(s, n);
    TimerExpires(s.timer, n);
    OnePass(s.(timer := Timer(0, true, true)), inp);
  }

  /** From PST_TURN_ON to PST_RUNNING: 100, 10, 5 and 150 ms, with a pass for each signal. */
  function WayUp(inp: Inputs): seq<Event> {
    [Pass(inp)] + [Pass(inp)] + Wait(PSTATE_PWRGD_STABLE, inp) + Wait(PSTATE_RSMRST_DELAY, inp) + [Pass(inp)]
      + Wait(PSTATE_CLKPWRGD_DELAY, inp) + Wait(PSTATE_COREPWR_DELAY, inp)
  }

  /** With all signals as they should be, the sequencer comes up, with every supply and signal on. */
  lemma ComesUp(s: Pic, inp: Inputs)
    requires s.pstate == PST_TURN_ON && s.nstate == PST_OK && Fine(inp)
    ensures var t := States(s, WayUp(inp));
      t.pstate == PST_RUNNING && t.pins == Pins(s.pins.reset, true, true, true, true) && t.swdt == SwdtInit(inp.eeSwdt)
  {
    hide LoadValue, LoopPass, Step, States, SwdtInit, Wait;
    var a := TurnedOnPass(s, inp);
    OnePass(s, inp);
    StatesAppend(s, [Pass(inp)], [Pass(inp)]);
    OnePass(a, inp);
    SignalCame(a, inp);
    var b := LoopPass(a, inp);
    var e1 := [Pass(inp)] + [Pass(inp)];
    StatesAppend(s, e1, Wait(PSTATE_PWRGD_STABLE, inp));
    var c := Stage(b, PSTATE_PWRGD_STABLE, inp);
    var e2 := e1 + Wait(PSTATE_PWRGD_STABLE, inp);
    StatesAppend(s, e2, Wait(PSTATE_RSMRST_DELAY, inp));
    var d := Stage(c, PSTATE_RSMRST_DELAY, inp);
    var e3 := e2 + Wait(PSTATE_RSMRST_DELAY, inp);
    StatesAppend(s, e3, [Pass(inp)]);
    OnePass(d, inp);
    SignalCame(d, inp);
    var e := LoopPass(d, inp);
    var e4 := e3 + [Pass(inp)];
    StatesAppend(s, e4, Wait(PSTATE_CLKPWRGD_DELAY, inp));
    var f := Stage(e, PSTATE_CLKPWRGD_DELAY, inp);
    var e5 := e4 + Wait(PSTATE_CLKPWRGD_DELAY, inp);
    StatesAppend(s, e5, Wait(PSTATE_COREPWR_DELAY, inp));
    var g := Stage(f, PSTATE_COREPWR_DELAY, inp);
  }

  lemma TurnedOnPass(s: Pic, inp: Inputs) returns (t: Pic)
    requires s.pstate == PST_TURN_ON && s.nstate == PST_OK
    ensures t == LoopPass(s, inp) && t.pstate == PST_WAIT_PWRGD && t.nstate == PST_OK
    ensures t.pins == Pins(s.pins.reset, false, false, false, true) && !t.button.push
    ensures t.timer == Timer(LoadValue(PSTATE_PWRGD_TO), true, false)
  {
    hide LoadValue, RstbtnFsm, OffSwitch;
    TurnedOn(s.(button := RstbtnFsm(s.button, inp.button, inp.tick6)));
    t := LoopPass(s, inp);
  }

  /** One timed state, from its start to the pass that leaves it. */
  lemma Stage(s: Pic, msec: u16, inp: Inputs) returns (t: Pic)
    requires Timed(s.pstate) && s.nstate == PST_OK && Fine(inp) && msec <= 32767
    requires s.timer == Timer(LoadValue(msec), true, false)
    ensures t == States(s, Wait(msec, inp)) && t == LoopPass(s.(timer := Timer(0, true, true)), inp)
    ensures t.pstate == Following(s.pstate) && t.nstate == PST_OK
    ensures s.pstate == PST_PWRGD_STABLE ==>
      t.pins == s.pins && t.timer == Timer(LoadValue(PSTATE_RSMRST_DELAY), true, false)
    ensures s.pstate == PST_RSMRST_DELAY ==>
      t.pins == s.pins.(rsmrst := true) && t.timer == Timer(LoadValue(PSTATE_PMUSLP_TO), true, false)
    ensures s.pstate == PST_CLKPWRGD_DELAY ==>
      t.pins == s.pins.(clkpwrgd := true) && t.timer == Timer(LoadValue(PSTATE_COREPWR_DELAY), true, false)
    ensures s.pstate == PST_COREPWR_DELAY ==> t.pins == s.pins.(corepwr := true) && t.swdt == SwdtInit(inp.eeSwdt)
    ensures s.pstate == PST_RESET_DELAY ==> t.pins == s.pins.(reset := false)
    ensures s.pstate == PST_MINOFF ==> t.pins == s.pins && t.pcycle == s.pcycle
  {
    hide LoadValue, LoopPass, SwdtInit, Wait, States;
    Waited(s, msec, inp);
    var u := s.(timer := Timer(0, true, true));
    StepEnds(u, inp);
    if s.pstate == PST_MINOFF {
      MinOffKeeps(u, inp);
    }
    t := LoopPass(u, inp);
  }

  lemma MinOffKeeps(s: Pic, inp: Inputs)
    requires s.pstate == PST_MINOFF
    ensures LoopPass(s, inp).pcycle == s.pcycle
  {
    hide LoadValue, RstbtnFsm;
  }

  // ---- off, and on again ----

  /** Once off, a button push or a pending power cycle switches on; nothing else does. */
  lemma OffWakes(s: Pic, inp: Inputs)
    requires s.pstate == PST_OFF && s.nstate == PST_OK
    ensures var t, b := LoopPass(s, inp), RstbtnFsm(s.button, inp.button, inp.tick6);
      && t == s.(button := b, pcycle := PcNot, pstate := t.pstate)
      && t.pstate == if b.push || s.pcycle == PcNow then PST_TURN_ON else PST_OFF
  {
    hide LoadValue, RstbtnFsm;
  }

  /** A power cycle comes back by itself: off, 3000 ms, and on. */
  lemma CycleReturns(s: Pic, inp: Inputs)
    requires s.pstate == PST_TURN_OFF && s.nstate == PST_OK && s.pcycle == PcNow && Fine(inp)
    ensures var t := States(s, [Pass(inp)] + Wait(PSTATE_MIN_OFF, inp) + [Pass(inp)] + [Pass(inp)]);
      t.pstate == PST_WAIT_PWRGD && t.pins == ALL_OFF.(pson := true) && t.pcycle == PcNot
  {
    hide LoadValue, LoopPass, Step, States, Wait;
    OffPass(s, inp);
    OnePass(s, inp);
    var a := LoopPass(s, inp);
    var e1 := [Pass(inp)] + Wait(PSTATE_MIN_OFF, inp);
    StatesAppend(s, [Pass(inp)], Wait(PSTATE_MIN_OFF, inp));
    var b := Stage(a, PSTATE_MIN_OFF, inp);
    StatesAppend(s, e1, [Pass(inp)]);
    OnePass(b, inp);
    OffWakes(b, inp);
    var c := LoopPass(b, inp);
    StatesAppend(s, e1 + [Pass(inp)], [Pass(inp)]);
    OnePass(c, inp);
    var d := TurnedOnPass(c, inp);
    TurnOnKeeps(c, inp);
  }

  lemma TurnOnKeeps(s: Pic, inp: Inputs)
    requires s.pstate == PST_TURN_ON
    ensures LoopPass(s, inp).pcycle == s.pcycle
  {
    hide LoadValue, RstbtnFsm;
  }

  /** Without either it stays off, for any number of passes and ticks in which the button is not pushed. */
  lemma {:induction false} StaysOff(s: Pic, events: seq<Event>)
    requires s.pstate == PST_OFF && s.nstate == PST_OK && s.pcycle != PcNow && !s.button.push
    requires forall e <- events :: e.TimerTick? || e.Watchdog? || (e.Pass? && !e.inp.button)
    ensures var t := States(s, events);
      t.pstate == PST_OFF && t.pins == s.pins && t.nstate == PST_OK && t.pcycle != PcNow && !t.button.push
    decreases |events|
  {
    if events != [] {
      hide LoopPass, RstbtnFsm;
      var n := |events| - 1;
      StaysOff(s, events[..n]);
      var t := States(s, events[..n]);
      if events[n].Pass? {
        OffWakes(t, events[n].inp);
        NoPush(t.button, events[n].inp.tick6);
      }
    }
  }

  lemma NoPush(b: Button, tick6: bool)
    ensures RstbtnFsm(b, false, tick6).push == b.push
  {
  }

  // ---- running: button, watchdog, sleep ----

  /** A running system with nothing to do stays as it is. */
  lemma RunsOn(s: Pic, inp: Inputs)
    requires s.pstate == PST_RUNNING && s.nstate == PST_OK && Fine(inp)
    requires !RstbtnFsm(s.button, inp.button, inp.tick6).push && (s.swdt == 0 || !inp.tick4)
    ensures LoopPass(s, inp) == s.(button := RstbtnFsm(s.button, inp.button, inp.tick6))
  {
    hide LoadValue, RstbtnFsm;
  }

  /** A button push makes a cold reset. */
  lemma ButtonResets(s: Pic, inp: Inputs)
    requires s.pstate == PST_RUNNING && s.nstate == PST_OK && Fine(inp) && s.swdt == 0
    requires RstbtnFsm(s.button, inp.button, inp.tick6).push
    ensures var t := LoopPass(s, inp);
      t.pstate == PST_COLD_RESET && t.rstate == ResetButton && !t.button.push && t.pins == s.pins
  {
    hide LoadValue, RstbtnFsm;
  }

  /** A push is noticed at a tick, once; for the next RSTBTN_DEB ticks nothing the button does counts. */
  lemma ButtonDebounced(b: Button, pushed: bool)
    ensures RstbtnFsm(b, pushed, false) == b
    ensures 0 < b.deb < RSTBTN_DEB - 1 ==> RstbtnFsm(b, pushed, true) == b.(deb := b.deb + 1)
    ensures b.deb == 0 || b.deb == RSTBTN_DEB - 1 ==>
      RstbtnFsm(b, pushed, true) ==
        Button(if pushed && !b.cur then true else b.push, pushed, b.cur, if pushed == b.cur then 0 else 1)
  {
  }

  /** The watchdog counts its ticks down; at zero it asks for a cold reset the first time, for a power cycle after that. */
  lemma WatchdogCounts(s: Pic, tick4: bool)
    ensures s.swdt == 0 || (!tick4 && s.swdt > 0) ==> SwdtFsm(s, tick4) == s
    ensures s.swdt > 1 && tick4 ==> SwdtFsm(s, tick4) == s.(swdt := s.swdt - 1)
    ensures s.swdt == 1 && tick4 ==>
      var t := SwdtFsm(s, tick4);
      && t.swdt == 0 && t.swdtCnt == (if s.swdtCnt == 0xff then 0xff else s.swdtCnt + 1) && t.pins == s.pins
      && (s.swdtCnt == 0 ==> t.pstate == PST_COLD_RESET && t.rstate == ResetSwdt && t.pcycle == s.pcycle)
      && (s.swdtCnt > 0 ==> t.pstate == PST_TURN_OFF && t.rstate == PowerCycleSwdt && t.pcycle == PcNow)
  {
  }

  function WatchdogRun(s: Pic, n: nat): Pic { if n == 0 then s else SwdtFsm(WatchdogRun(s, n - 1), true) }

  /** It fires with exactly the tick that uses up its time. */
  lemma {:induction false} WatchdogFires(s: Pic, n: nat)
    requires 0 < n <= s.swdt
    ensures WatchdogRun(s, n).swdt == s.swdt - n
    ensures n < s.swdt ==> WatchdogRun(s, n) == s.(swdt := s.swdt - n)
    ensures n == s.swdt ==>
      WatchdogRun(s, n).pstate == if s.swdtCnt == 0 then PST_COLD_RESET else PST_TURN_OFF
  {
    hide SwdtFsm;
    if n == 1 {
      assert WatchdogRun(s, 0) == s;
      WatchdogCounts(s, true);
    } else {
      WatchdogFires(s, n - 1);
      WatchdogCounts(WatchdogRun(s, n - 1), true);
    }
  }

  /** Whatever happened before, a watchdog set by the host first asks for a cold reset, when its time is used up. */
  lemma WatchdogSet(s: Pic, v: u16)
    requires v > 0
    ensures Step(s, Watchdog(v)) == s.(swdt := v, swdtCnt := 0)
    ensures WatchdogRun(Step(s, Watchdog(v)), v as nat).pstate == PST_COLD_RESET
  {
    WatchdogFires(s.(swdt := v, swdtCnt := 0), v as nat);
  }

  /** A state that is none of the sixteen turns the power off. */
  lemma UnknownState(s: Pic, inp: Inputs)
    requires s.pstate > PST_SLP_CR_DELAY && s.nstate == PST_OK
    ensures LoopPass(s, inp).pstate == PST_TURN_OFF && LoopPass(s, inp).rstate == PstUnknown
  {
    hide LoadValue, RstbtnFsm;
  }

  /** The running state leaves it to the watchdog, and a trigger overrides the button. */
  lemma WatchdogInRunning(s: Pic, inp: Inputs)
    requires s.pstate == PST_RUNNING && s.nstate == PST_OK && Fine(inp) && s.swdt == 1 && inp.tick4
    ensures LoopPass(s, inp).pstate == if s.swdtCnt == 0 then PST_COLD_RESET else PST_TURN_OFF
    ensures s.swdtCnt != 0 ==> LoopPass(s, inp).pcycle == PcNow
  {
    hide LoadValue, RstbtnFsm;
  }

  /** The time from the eeprom: none below the minimum, the default if it was never written. */
  lemma WatchdogTime(ee: u16)
    ensures SwdtInit(ee) == if ee == 0xffff then SWDT_DEFAULT else if ee < SWDT_MIN then 0 else ee
  {
  }

  /** PMU_SLP gone starts the sleep delay of ten seconds, from CLKPWRGD on. */
  lemma SleepStarts(s: Pic, inp: Inputs)
    requires s.pstate == PST_RUNNING && s.nstate == PST_OK && !inp.thmtrip && inp.pwrgdAfter && !inp.pmuSlpAfter
    requires !RstbtnFsm(s.button, inp.button, inp.tick6).push && s.swdt == 0
    ensures var t := LoopPass(s, inp);
      t.pstate == PST_SLP_CR_DELAY && t.timer == Timer(LoadValue(PSTATE_SLP_CR_DELAY), true, false) && t.pins == s.pins
  {
    hide LoadValue, RstbtnFsm;
  }

  /** The same while the power good signals are on their way. */
  lemma SleepDuringDelays(s: Pic, inp: Inputs)
    requires s.pstate == PST_CLKPWRGD_DELAY || s.pstate == PST_COREPWR_DELAY || s.pstate == PST_RESET_DELAY
    requires s.nstate == PST_OK && !inp.thmtrip && inp.pwrgdAfter && !inp.pmuSlpAfter
    ensures LoopPass(s, inp).pstate == PST_SLP_CR_DELAY
  {
    hide LoadValue, RstbtnFsm, SwdtInit;
  }

  /** If PMU_SLP is back in time, the system is reset, or power-cycled if the host asked for that; otherwise it is off. */
  lemma SleepEnds(s: Pic, inp: Inputs)
    requires s.pstate == PST_SLP_CR_DELAY && s.nstate == PST_OK && !inp.thmtrip && inp.pwrgdAfter
    ensures var t := LoopPass(s, inp);
      && (inp.pmuSlp && inp.pmuSlpAfter && s.pcycle != PcCr ==> t.pstate == PST_COLD_RESET && t.rstate == ResetCold)
      && (inp.pmuSlp && s.pcycle == PcCr ==> t.pstate == PST_TURN_OFF && t.rstate == PowerCycleCr && t.pcycle == PcNow)
      && (!inp.pmuSlp && s.timer.expired ==> t.pstate == PST_TURN_OFF && t.rstate == PowerOff && t.pcycle == s.pcycle)
      && (!inp.pmuSlp && !s.timer.expired ==> t == s.(button := RstbtnFsm(s.button, inp.button, inp.tick6)))
  {
    hide LoadValue, RstbtnFsm;
  }
}
