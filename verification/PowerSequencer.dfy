/**
 * firmware/edge510-pic/pic.c: the power sequencer of the edge510 PIC. Time is counted in TMR1 ticks,
 * two per millisecond.
 */
module PowerSequencer {

  const PST_OK := 0
  const PST_TURN_OFF := 1
  const PST_MINOFF := 2
  const PST_OFF := 3
  const PST_TURN_ON := 4
  const PST_WAIT_PWRGD := 5
  const PST_PWRGD_STABLE := 6
  const PST_RSMRST_DELAY := 7
  const PST_WAIT_PMUSLP := 8
  const PST_CLKPWRGD_DELAY := 9
  const PST_COREPWR_DELAY := 10
  const PST_RESET_ASSERT := 11
  const PST_RESET_DELAY := 12
  const PST_RUNNING := 13
  const PST_COLD_RESET := 14
  const PST_SLP_CR_DELAY := 15

  const PSTATE_MIN_OFF := 3000
  const PSTATE_PWRGD_TO := 200
  const PSTATE_PWRGD_STABLE := 100
  const PSTATE_RSMRST_DELAY := 10
  const PSTATE_PMUSLP_TO := 250
  const PSTATE_CLKPWRGD_DELAY := 5
  const PSTATE_COREPWR_DELAY := 150
  const PSTATE_RESET_DELAY := 100
  const PSTATE_RSMRST_ASSERT := 100
  const PSTATE_SLP_CR_DELAY := 10000

  const SWDT_MIN := 1500
  const SWDT_DEFAULT := 7500
  const RSTBTN_DEB := 20

  /** The reasons reported in rstate; the first four below PowerCycle are what the host may ask for. */
  datatype Reason = PstNone | ResetWarm | ResetCold | PowerOff | PowerCycle | ResetSwdt | ResetButton | ThermTrip
                  | PowerGood | PmuSlp | PowerCycleCr | PowerCycleSwdt | PstUnknown

  datatype Cycle = PcNot | PcNow | PcCr

  type u8 = x: int | 0 <= x < 0x100
  type u16 = x: int | 0 <= x < 0x10000
  /** rstdeb is reset when it reaches RSTBTN_DEB. */
  type Debounce = x: int | 0 <= x < 20

  /** The pins driven; reset says that PICRST is asserted (its TRIS bit is 0). */
  datatype Pins = Pins(reset: bool, rsmrst: bool, corepwr: bool, clkpwrgd: bool, pson: bool)

  /** TMR1: its count, TMR1ON and TMR1IF. */
  datatype Timer = Timer(count: u16, on: bool, expired: bool)

  /** The debounced reset button. */
  datatype Button = Button(push: bool, cur: bool, prev: bool, deb: Debounce)

  datatype Pic = Pic(pstate: u8, nstate: u8, rstate: Reason, pcycle: Cycle,
                     button: Button, swdt: u16, swdtCnt: u8, pins: Pins, timer: Timer)

  /**
   * What one pass of the main loop reads. PWRGD and PMU_SLP are read twice and may change in between;
   * tick4 and tick6 are the timer flags as found, eeSwdt the watchdog value in the eeprom.
   */
  datatype Inputs = Inputs(pwrgd: bool, pwrgdAfter: bool, pmuSlp: bool, pmuSlpAfter: bool, thmtrip: bool,
                           button: bool, tick4: bool, tick6: bool, eeSwdt: u16)

  // ---- the timer ----

  /** The bytes pst_start writes to TMR1H and TMR1L, put together. */
  function LoadValue(msec: u16): u16 {
    var shifted: u16 := (msec * 2) % 0x10000;
    var low: u8 := 0xff - shifted % 0x100;
    var high: u8 := 0xff - shifted / 0x100;
    high * 0x100 + low
  }

  /** For every time up to 32 seconds the timer overflows after exactly 2 * msec + 1 ticks. */
  lemma LoadIsComplement(msec: u16)
    requires msec <= 32767
    ensures LoadValue(msec) == 0xffff - 2 * msec
  {
  }

  /** pst_start, and going to the given state. */
  function StartTimer(s: Pic, msec: u16, next: u8): Pic {
    s.(timer := Timer(LoadValue(msec), true, false), pstate := next)
  }

  /** pst_expired with the flag set, and going to the given state. */
  function StopTimer(s: Pic, next: u8): Pic {
    s.(timer := Timer(s.timer.count, false, false), pstate := next)
  }

  /** One tick of TMR1. */
  function TickTimer(t: Timer): Timer {
    if !t.on then t
    else if t.count == 0xffff then Timer(0, true, true)
    else Timer(t.count + 1, true, t.expired)
  }

  // ---- watchdog, button ----

  function SwdtInit(ee: u16): u16 {
    var v: u16 := if ee == 0xffff then SWDT_DEFAULT else ee;
    if v < SWDT_MIN then 0 else v
  }

  /** swdt_fsm: the first trigger asks for a cold reset, further ones for a power cycle. */
  function SwdtFsm(s: Pic, tick4: bool): Pic {
    if s.swdt == 0 then s
    else
      var v: u16 := if tick4 then s.swdt - 1 else s.swdt;
      if v != 0 then s.(swdt := v)
      else
        var cnt: u8 := if s.swdtCnt != 0xff then s.swdtCnt + 1 else 0xff;
        if s.swdtCnt != 0 then
          s.(swdt := v, swdtCnt := cnt, pstate := PST_TURN_OFF, pcycle := PcNow, rstate := PowerCycleSwdt)
        else s.(swdt := v, swdtCnt := cnt, pstate := PST_COLD_RESET, rstate := ResetSwdt)
  }

  function RstbtnFsm(b: Button, pushed: bool, tick6: bool): Button {
    if !tick6 then b
    else if b.deb != 0 && b.deb + 1 < RSTBTN_DEB then b.(deb := b.deb + 1)
    else
      Button(b.push || (!b.cur && pushed), pushed, b.cur, if b.cur != pushed then 1 else 0)
  }

  // ---- power_fsm ----

  /** The states with the supplies off, or about to be switched on. */
  function OffSwitch(s: Pic): Pic {
    if s.pstate == PST_TURN_OFF then
      StartTimer(s.(pins := Pins(false, false, false, false, false)), PSTATE_MIN_OFF, PST_MINOFF)
    else if s.pstate == PST_MINOFF then
      if s.timer.expired then StopTimer(s, PST_OFF) else s
    else if s.pstate == PST_OFF then
      s.(pstate := if s.button.push || s.pcycle == PcNow then PST_TURN_ON else PST_OFF, pcycle := PcNot)
    else
      StartTimer(s.(pins := s.pins.(rsmrst := false, corepwr := false, clkpwrgd := false, pson := true),
                    button := s.button.(push := false)), PSTATE_PWRGD_TO, PST_WAIT_PWRGD)
  }

  /** The power-on sequence; the flag says that it went to fail_pst. */
  function UpSwitch(s: Pic, inp: Inputs): (Pic, bool) {
    var expired := s.timer.expired;
    if s.pstate == PST_WAIT_PWRGD then
      if inp.pwrgd then (StartTimer(s, PSTATE_PWRGD_STABLE, PST_PWRGD_STABLE), false)
      else if expired then (StopTimer(s, s.pstate).(rstate := PowerGood), true)
      else (s, false)
    else if s.pstate == PST_PWRGD_STABLE then
      if expired then (StartTimer(s, PSTATE_RSMRST_DELAY, PST_RSMRST_DELAY), false)
      else if !inp.pwrgd then (s.(pstate := PST_WAIT_PWRGD), false)
      else (s, false)
    else if s.pstate == PST_RSMRST_DELAY then
      if expired then (StartTimer(s.(pins := s.pins.(rsmrst := true)), PSTATE_PMUSLP_TO, PST_WAIT_PMUSLP), false)
      else (s, false)
    else if s.pstate == PST_WAIT_PMUSLP then
      if expired then (StopTimer(s, s.pstate).(rstate := PmuSlp), true)
      else if inp.pmuSlp then (StartTimer(s, PSTATE_CLKPWRGD_DELAY, PST_CLKPWRGD_DELAY), false)
      else (s, false)
    else if s.pstate == PST_CLKPWRGD_DELAY then
      if expired then (StartTimer(s.(pins := s.pins.(clkpwrgd := true)), PSTATE_COREPWR_DELAY, PST_COREPWR_DELAY), false)
      else (s, false)
    else
      if expired then
        (StopTimer(s.(pins := s.pins.(corepwr := true), swdt := SwdtInit(inp.eeSwdt)), PST_RUNNING), false)
      else (s, false)
  }

  /** The running state: a button push asks for a cold reset, then the watchdog has its say. */
  function RunningPass(s: Pic, tick4: bool): Pic {
    SwdtFsm(if s.button.push
            then s.(button := s.button.(push := false), pstate := PST_COLD_RESET, rstate := ResetButton)
            else s, tick4)
  }

  /** Reset, running, and going to sleep. */
  function RunSwitch(s: Pic, inp: Inputs): Pic {
    if s.pstate == PST_RESET_ASSERT then
      StartTimer(s.(pins := s.pins.(reset := true)), PSTATE_RESET_DELAY, PST_RESET_DELAY)
    else if s.pstate == PST_RESET_DELAY then
      if s.timer.expired then
        StopTimer(s.(pins := s.pins.(reset := false), swdt := SwdtInit(inp.eeSwdt)), PST_RUNNING)
      else s
    else if s.pstate == PST_RUNNING then
      RunningPass(s, inp.tick4)
    else if s.pstate == PST_COLD_RESET then
      StartTimer(s.(pins := s.pins.(rsmrst := false, corepwr := false, clkpwrgd := false)),
                 PSTATE_RSMRST_ASSERT, PST_RSMRST_DELAY)
    else
      if inp.pmuSlp then
        if s.pcycle == PcCr then s.(pstate := PST_TURN_OFF, rstate := PowerCycleCr, pcycle := PcNow)
        else s.(pstate := PST_COLD_RESET, rstate := ResetCold)
      else if s.timer.expired then StopTimer(s, PST_TURN_OFF).(rstate := PowerOff)
      else s
  }

  /** The switch over pstate; the flag says that it went to fail_pst. */
  function PowerSwitch(s: Pic, inp: Inputs): (Pic, bool) {
    if PST_TURN_OFF <= s.pstate <= PST_TURN_ON then (OffSwitch(s), false)
    else if PST_WAIT_PWRGD <= s.pstate <= PST_COREPWR_DELAY then UpSwitch(s, inp)
    else if PST_RESET_ASSERT <= s.pstate <= PST_SLP_CR_DELAY then (RunSwitch(s, inp), false)
    else (s.(rstate := PstUnknown), true)
  }

  /** The checks after the switch, which may turn the power off or start the sleep delay. */
  function PowerChecks(t: Pic, failed: bool, inp: Inputs): Pic {
    if failed then t.(pstate := PST_TURN_OFF)
    else if t.pstate > PST_PWRGD_STABLE && inp.thmtrip then t.(rstate := ThermTrip, pstate := PST_TURN_OFF)
    else if t.pstate >= PST_RSMRST_DELAY && !inp.pwrgdAfter then t.(rstate := PowerGood, pstate := PST_TURN_OFF)
    else if t.pstate >= PST_CLKPWRGD_DELAY && t.pstate != PST_SLP_CR_DELAY && !inp.pmuSlpAfter then
      StartTimer(t, PSTATE_SLP_CR_DELAY, PST_SLP_CR_DELAY)
    else t
  }

  function PowerFsm(s: Pic, inp: Inputs): Pic {
    var (t, failed) := PowerSwitch(s, inp);
    PowerChecks(t, failed, inp)
  }

  function ApplyRequest(s: Pic): Pic {
    if s.nstate != PST_OK then s.(pstate := s.nstate, nstate := PST_OK) else s
  }

  /** One pass of the main loop. */
  function LoopPass(s: Pic, inp: Inputs): Pic {
    ApplyRequest(PowerFsm(s.(button := RstbtnFsm(s.button, inp.button, inp.tick6)), inp))
  }

  /** The I2C_PST_SET command with the given byte. */
  function HostPower(s: Pic, request: Reason): Pic {
    var t := s.(rstate := request);
    match request
    case ResetWarm => t.(nstate := PST_RESET_ASSERT)
    case ResetCold => t.(nstate := PST_COLD_RESET)
    case PowerOff => t.(nstate := PST_TURN_OFF)
    case PowerCycle => t.(nstate := PST_TURN_OFF, pcycle := PcNow)
    case PowerCycleCr => t.(pcycle := PcCr)
    case _ => t
  }

  // ---- runs ----

  /** A reset of the PIC leaves swdt, TMR1 and its flag with any value; main runs again. */
  datatype Event =
    | TimerTick
    | Pass(inp: Inputs)
    | Power(request: Reason)
    | Watchdog(v: u16)
    | Reset(swdt: u16, count: u16, expired: bool)

  /** What main sets up before the loop; TMR1 has not been started. */
  predicate Boot(s: Pic) {
    && s.pstate == PST_TURN_ON && s.nstate == PST_OK && s.rstate == PowerOff && s.pcycle == PcNot
    && s.button == Button(false, false, false, 0) && s.swdtCnt == 0
    && s.pins == Pins(false, false, false, false, false)
  }

  function SetUp(swdt: u16, count: u16, expired: bool): (s: Pic)
    ensures Boot(s)
  {
    Pic(PST_TURN_ON, PST_OK, PowerOff, PcNot, Button(false, false, false, 0), swdt, 0,
        Pins(false, false, false, false, false), Timer(count, false, expired))
  }

  function Step(s: Pic, e: Event): Pic {
    match e
    case TimerTick => s.(timer := TickTimer(s.timer))
    case Pass(inp) => LoopPass(s, inp)
    case Power(request) => HostPower(s, request)
    case Watchdog(v) => s.(swdt := v, swdtCnt := 0)
    case Reset(swdt, count, expired) => SetUp(swdt, count, expired)
  }

  /** A run with two observations: whether the power has been on since the last reset, and the ticks since it went off. */
  datatype Observed = Observed(s: Pic, everOn: bool, off: nat)

  function Observe(o: Observed, e: Event): Observed {
    var s' := Step(o.s, e);
    Observed(s', !e.Reset? && (o.everOn || s'.pins.pson), if s'.pins.pson then 0 else if e.TimerTick? then o.off + 1 else o.off)
  }

  function Run(o: Observed, events: seq<Event>): Observed
    decreases |events|
  {
    if events == [] then o else Observe(Run(o, events[..|events| - 1]), events[|events| - 1])
  }

  // ---- what holds at every step ----

  /** The states that wait for the timer. */
  predicate Waiting(p: u8) {
    p == PST_MINOFF || PST_WAIT_PWRGD <= p <= PST_COREPWR_DELAY || p == PST_RESET_DELAY || p == PST_SLP_CR_DELAY
  }

  /** Power good of the core needs the clock's, which needs the resume reset released. */
  predicate Sequenced(pins: Pins) { (pins.corepwr ==> pins.clkpwrgd) && (pins.clkpwrgd ==> pins.rsmrst) }

  predicate Requestable(p: u8) {
    p == PST_OK || p == PST_TURN_OFF || p == PST_RESET_ASSERT || p == PST_COLD_RESET
  }

  predicate Good(p: u8, pins: Pins, t: Timer, everOn: bool, off: nat) {
    && Sequenced(pins)
    && PST_TURN_OFF <= p <= PST_SLP_CR_DELAY
    && (PST_WAIT_PMUSLP <= p <= PST_COREPWR_DELAY ==> pins.rsmrst)
    && (p == PST_COREPWR_DELAY ==> pins.clkpwrgd)
    && (Waiting(p) ==> t.on)
    && (pins.pson ==> everOn)
    && (PST_MINOFF <= p <= PST_TURN_ON ==> !pins.pson)
    && (p == PST_MINOFF ==> if t.expired then off > 2 * PSTATE_MIN_OFF
                            else off >= t.count - (0xffff - 2 * PSTATE_MIN_OFF))
    && (PST_OFF <= p <= PST_TURN_ON && everOn ==> off > 2 * PSTATE_MIN_OFF)
  }

  predicate Invariant(s: Pic, everOn: bool, off: nat) {
    Requestable(s.nstate) && Good(s.pstate, s.pins, s.timer, everOn, off)
  }

  /** A switch result, not yet checked, that keeps the invariant; PSON rises only after the minimal off time. */
  predicate Kept(s: Pic, t: Pic, everOn: bool, off: nat) {
    && t.nstate == s.nstate
    && Good(t.pstate, t.pins, t.timer, everOn || t.pins.pson, if t.pins.pson then 0 else off)
    && (!s.pins.pson && t.pins.pson && everOn ==> off > 2 * PSTATE_MIN_OFF)
  }

  lemma OffKeeps(s: Pic, everOn: bool, off: nat)
    requires Invariant(s, everOn, off) && PST_TURN_OFF <= s.pstate <= PST_TURN_ON
    ensures Kept(s, OffSwitch(s), everOn, off)
  {
    LoadIsComplement(PSTATE_MIN_OFF);
  }

  lemma UpKeeps(s: Pic, inp: Inputs, everOn: bool, off: nat)
    requires Invariant(s, everOn, off) && PST_WAIT_PWRGD <= s.pstate <= PST_COREPWR_DELAY
    ensures var (t, failed) := UpSwitch(s, inp);
      Kept(s, if failed then t.(pstate := PST_TURN_OFF) else t, everOn, off)
  {
    hide LoadValue;
  }

  lemma RunningEffect(s: Pic, tick4: bool)
    ensures var t := RunningPass(s, tick4);
      && t.nstate == s.nstate && t.pins == s.pins && t.timer == s.timer
      && (t.pstate == s.pstate || t.pstate == PST_TURN_OFF || t.pstate == PST_COLD_RESET)
  {
  }

  lemma RunSwitchKeeps(s: Pic, inp: Inputs, everOn: bool, off: nat)
    requires Invariant(s, everOn, off) && PST_RESET_ASSERT <= s.pstate <= PST_SLP_CR_DELAY
    ensures Kept(s, RunSwitch(s, inp), everOn, off)
  {
    hide LoadValue, RunningPass;
    RunningEffect(s, inp.tick4);
    if s.pstate == PST_COLD_RESET {
      WasReset(s, inp);
      hide RunSwitch;
    } else if s.pstate == PST_RUNNING {
      assert RunSwitch(s, inp) == RunningPass(s, inp.tick4);
      hide RunSwitch;
    }
  }

  lemma FsmKeeps(s: Pic, inp: Inputs, everOn: bool, off: nat)
    requires Invariant(s, everOn, off)
    ensures Kept(s, PowerFsm(s, inp), everOn, off)
  {
    hide LoadValue, OffSwitch, UpSwitch, RunSwitch;
    if s.pstate <= PST_TURN_ON {
      OffKeeps(s, everOn, off);
    } else if s.pstate <= PST_COREPWR_DELAY {
      UpKeeps(s, inp, everOn, off);
    } else {
      RunSwitchKeeps(s, inp, everOn, off);
    }
  }

  lemma StepKeeps(o: Observed, e: Event)
    requires Invariant(o.s, o.everOn, o.off)
    ensures var o' := Observe(o, e);
      && Invariant(o'.s, o'.everOn, o'.off)
      && (!o.s.pins.pson && o'.s.pins.pson && o.everOn ==> o.off > 2 * PSTATE_MIN_OFF)
  {
    hide PowerFsm, RstbtnFsm;
    if e.Pass? {
      var s := o.s.(button := RstbtnFsm(o.s.button, e.inp.button, e.inp.tick6));
      FsmKeeps(s, e.inp, o.everOn, o.off);
    }
  }

  // ---- all runs ----

  lemma {:induction false} RunKeeps(o: Observed, events: seq<Event>)
    requires Boot(o.s) && !o.everOn
    ensures var r := Run(o, events); Invariant(r.s, r.everOn, r.off)
    decreases |events|
  {
    hide Observe;
    if events != [] {
      RunKeeps(o, events[..|events| - 1]);
      StepKeeps(Run(o, events[..|events| - 1]), events[|events| - 1]);
    }
  }

  /**
   * At every step of every run, whatever the host asks for and the inputs read: COREPWR implies CLKPWRGD implies
   * RSMRST released; pstate is one of the states of the switch; a state that waits for the timer finds it running.
   */
  lemma RunIsSequenced(o: Observed, events: seq<Event>)
    requires Boot(o.s) && !o.everOn
    ensures var s := Run(o, events).s;
      && Sequenced(s.pins)
      && PST_TURN_OFF <= s.pstate <= PST_SLP_CR_DELAY
      && (Waiting(s.pstate) ==> s.timer.on)
  {
    RunKeeps(o, events);
  }

  /**
   * No run turns PSON back on before 3000 ms, that is 6000 ticks, of continuous off time, if it was on since the last
   * reset of the PIC.
   */
  lemma RunOffTime(o: Observed, events: seq<Event>, e: Event)
    requires Boot(o.s) && !o.everOn
    ensures var r := Run(o, events);
      r.everOn && !r.s.pins.pson && Step(r.s, e).pins.pson ==> r.off > 2 * PSTATE_MIN_OFF
  {
    hide Step, Run;
    RunKeeps(o, events);
    StepKeeps(Run(o, events), e);
  }

  /** The first pass after a reset turns PSON on, however short it has been off. */
  lemma ResetTurnsOn(o: Observed, swdt: u16, count: u16, expired: bool, inp: Inputs)
    ensures var r := Run(o, [Reset(swdt, count, expired), Pass(inp)]);
      r.s.pins == Pins(false, false, false, false, true) && r.s.pstate == PST_WAIT_PWRGD && r.s.timer.on
  {
    var e, p := Reset(swdt, count, expired), Pass(inp);
    assert [e, p][..1] == [e] && [e][..0] == [];
    assert Run(o, [e]).s == SetUp(swdt, count, expired) by {
      hide SetUp;
    }
    hide LoadValue, RstbtnFsm, Run;
    TurnedOn(Run(o, [e]).s.(button := RstbtnFsm(Button(false, false, false, 0), inp.button, inp.tick6)));
  }

  // ---- with a PWRGD signal that needs the supplies ----

  /** The states in which the supplies must be on. */
  predicate NeedsPower(p: u8) {
    PST_RSMRST_DELAY <= p <= PST_COREPWR_DELAY || p == PST_RESET_DELAY || p == PST_RUNNING || p == PST_SLP_CR_DELAY
  }

  predicate Powered(s: Pic) { (s.pins.rsmrst ==> s.pins.pson) && (NeedsPower(s.pstate) ==> s.pins.pson) }

  /** The state in which a pass looks at PWRGD the second time. */
  function BeforeChecks(s: Pic, inp: Inputs): Pic {
    PowerSwitch(s.(button := RstbtnFsm(s.button, inp.button, inp.tick6)), inp).0
  }

  /** PWRGD, looked at after the switch, is 1 only while the supplies are on. */
  predicate GoodNeedsPower(s: Pic, e: Event) {
    e.Pass? && e.inp.pwrgdAfter ==> BeforeChecks(s, e.inp).pins.pson
  }

  ghost predicate GoodRun(o: Observed, events: seq<Event>)
    decreases |events|
  {
    events == [] ||
    (GoodRun(o, events[..|events| - 1]) && GoodNeedsPower(Run(o, events[..|events| - 1]).s, events[|events| - 1]))
  }

  lemma OffSwitchPowered(s: Pic)
    requires Powered(s)
    ensures var t := OffSwitch(s); (t.pins.rsmrst ==> t.pins.pson) && t.nstate == s.nstate
  {
    hide LoadValue;
  }

  lemma UpSwitchPowered(s: Pic, inp: Inputs)
    requires Powered(s)
    ensures var t := UpSwitch(s, inp).0; (t.pins.rsmrst ==> t.pins.pson) && t.nstate == s.nstate
  {
    hide LoadValue;
  }

  lemma RunSwitchPowered(s: Pic, inp: Inputs)
    requires Powered(s)
    ensures var t := RunSwitch(s, inp); (t.pins.rsmrst ==> t.pins.pson) && t.nstate == s.nstate
  {
    hide LoadValue, RunningPass;
    RunningEffect(s, inp.tick4);
  }

  lemma SwitchPowered(s: Pic, inp: Inputs)
    requires Powered(s)
    ensures var t := PowerSwitch(s, inp).0; (t.pins.rsmrst ==> t.pins.pson) && t.nstate == s.nstate
  {
    hide OffSwitch, UpSwitch, RunSwitch;
    OffSwitchPowered(s);
    UpSwitchPowered(s, inp);
    RunSwitchPowered(s, inp);
  }

  lemma ChecksPowered(t: Pic, failed: bool, inp: Inputs)
    requires (t.pins.rsmrst ==> t.pins.pson) && (inp.pwrgdAfter ==> t.pins.pson) && Requestable(t.nstate)
    ensures Powered(ApplyRequest(PowerChecks(t, failed, inp)))
  {
    hide LoadValue;
  }

  lemma PassPowered(s: Pic, inp: Inputs)
    requires Powered(s) && Requestable(s.nstate)
    requires inp.pwrgdAfter ==> BeforeChecks(s, inp).pins.pson
    ensures Powered(LoopPass(s, inp))
  {
    hide PowerSwitch, PowerChecks, ApplyRequest, RstbtnFsm;
    var b := s.(button := RstbtnFsm(s.button, inp.button, inp.tick6));
    SwitchPowered(b, inp);
    var (t, failed) := PowerSwitch(b, inp);
    ChecksPowered(t, failed, inp);
  }

  lemma StepPowered(s: Pic, e: Event)
    requires Powered(s) && Requestable(s.nstate) && GoodNeedsPower(s, e)
    ensures Powered(Step(s, e))
  {
    hide LoopPass, BeforeChecks;
    if e.Pass? {
      PassPowered(s, e.inp);
    }
  }

  /** If PWRGD reads 1 only while the supplies are on, RSMRST is released only while they are. */
  lemma {:induction false} RunIsPowered(o: Observed, events: seq<Event>)
    requires Boot(o.s) && !o.everOn && GoodRun(o, events)
    ensures Powered(Run(o, events).s)
    decreases |events|
  {
    hide Step, GoodNeedsPower;
    if events != [] {
      var before, e := events[..|events| - 1], events[|events| - 1];
      RunIsPowered(o, before);
      RunKeeps(o, before);
      StepPowered(Run(o, before).s, e);
    }
  }

  // ---- waits end ----

  function Ticks(t: Timer, n: nat): Timer { if n == 0 then t else TickTimer(Ticks(t, n - 1)) }

  /** Left alone, a running timer raises its flag after 0x10000 - TMR1 ticks. */
  lemma {:induction false} TimerExpires(t: Timer, n: nat)
    requires t.on && n <= 0x10000 - t.count
    ensures Ticks(t, n) == if n == 0x10000 - t.count then Timer(0, true, true) else Timer(t.count + n, true, t.expired)
  {
    if n > 0 {
      TimerExpires(t, n - 1);
    }
  }

  /**
   * No wait hangs: once the flag is up, the next pass leaves a waiting state unless the host asks for one. The one
   * exception is PMU_SLP dropping again within the very pass that saw it return, which starts the delay anew.
   */
  lemma ExpiryEndsWait(s: Pic, inp: Inputs)
    requires Waiting(s.pstate) && s.timer.expired && s.nstate == PST_OK
    ensures var s' := LoopPass(s, inp);
      && (s'.pstate == s.pstate <==>
            s.pstate == PST_SLP_CR_DELAY && s.pcycle != PcCr && inp.pmuSlp && !inp.pmuSlpAfter
            && inp.pwrgdAfter && !inp.thmtrip)
      && (s'.pstate == s.pstate ==> s'.timer == Timer(LoadValue(PSTATE_SLP_CR_DELAY), true, false))
  {
    hide LoadValue, RunningPass, RstbtnFsm;
  }

  // ---- ... over runs ----

  function States(s: Pic, events: seq<Event>): Pic
    decreases |events|
  {
    if events == [] then s else Step(States(s, events[..|events| - 1]), events[|events| - 1])
  }

  function TickCount(events: seq<Event>): (n: nat)
    decreases |events|
  {
    if events == [] then 0
    else TickCount(events[..|events| - 1]) + if events[|events| - 1].TimerTick? then 1 else 0
  }

  /** No reset, no request of the host, and no PMU_SLP that drops again within the pass that saw it. */
  predicate Quiet(e: Event) {
    e.TimerTick? || e.Watchdog? || (e.Pass? && !(e.inp.pmuSlp && !e.inp.pmuSlpAfter))
  }

  /** The wait that s begins goes on through all the events. */
  ghost predicate Waits(s: Pic, events: seq<Event>) {
    && Waiting(s.pstate) && s.nstate == PST_OK && s.timer.on
    && (forall e <- events :: Quiet(e))
    && (forall k :: 0 <= k <= |events| ==> States(s, events[..k]).pstate == s.pstate)
  }

  /** A pass that goes on waiting leaves the timer alone, and has not seen its flag. */
  lemma WaitStep(s: Pic, e: Event)
    requires Waiting(s.pstate) && s.nstate == PST_OK && Quiet(e) && Step(s, e).pstate == s.pstate
    ensures var s' := Step(s, e);
      s'.nstate == PST_OK && s'.timer == (if e.TimerTick? then TickTimer(s.timer) else s.timer) && (e.Pass? ==> !s.timer.expired)
  {
    hide LoadValue, RunningPass, RstbtnFsm;
  }

  lemma {:induction false} WaitTicks(s: Pic, events: seq<Event>)
    requires Waits(s, events)
    ensures var t := States(s, events);
      t.pstate == s.pstate && t.nstate == PST_OK && t.timer == Ticks(s.timer, TickCount(events))
    decreases |events|
  {
    assert events[..|events|] == events;
    if events != [] {
      hide Step, Quiet, Waiting;
      var n := |events| - 1;
      WaitsFront(s, events, n);
      WaitTicks(s, events[..n]);
      WaitStep(States(s, events[..n]), events[n]);
    }
  }

  lemma WaitsFront(s: Pic, events: seq<Event>, k: nat)
    requires Waits(s, events) && k <= |events|
    ensures Waits(s, events[..k])
  {
    hide States, Quiet, Waiting;
    assert forall j :: 0 <= j <= k ==> events[..k][..j] == events[..j];
  }

  lemma {:induction false} FlagStays(t: Timer, m: nat, n: nat)
    requires m <= n && Ticks(t, m).expired
    ensures Ticks(t, n).expired
  {
    if m < n {
      FlagStays(t, m, n - 1);
    }
  }

  /**
   * A wait ends with the first pass after the timer's overflow: no pass goes on waiting when the ticks up to it have
   * been counted, whatever the inputs read. For a wait of msec milliseconds just begun these are 2 * msec + 1.
   */
  lemma WaitIsBounded(s: Pic, events: seq<Event>, k: nat)
    requires Waits(s, events) && k < |events| && events[k].Pass?
    ensures TickCount(events[..k]) < 0x10000 - s.timer.count
    ensures forall msec: u16 :: msec <= 32767 && s.timer.count == LoadValue(msec) ==> TickCount(events[..k]) <= 2 * msec
  {
    forall msec: u16 | msec <= 32767
      ensures LoadValue(msec) == 0xffff - 2 * msec
    {
      LoadIsComplement(msec);
    }
    hide LoadValue, Step, Waiting;
    WaitsFront(s, events, k);
    WaitTicks(s, events[..k]);
    assert events[..k + 1][..k] == events[..k];
    WaitStep(States(s, events[..k]), events[k]);
    var n := 0x10000 - s.timer.count;
    TimerExpires(s.timer, n);
    if TickCount(events[..k]) >= n {
      FlagStays(s.timer, n, TickCount(events[..k]));
    }
  }

  function Flicker(up: Inputs, down: Inputs, n: nat): seq<Event> {
    if n == 0 then [] else Flicker(up, down, n - 1) + [Pass(up), TimerTick, Pass(down)]
  }

  /** Two waits can follow each other for ever: with a PWRGD that flickers, the power stays on in PST_WAIT_PWRGD. */
  lemma {:induction false} FlickerWaits(s: Pic, up: Inputs, down: Inputs, n: nat)
    requires s.pstate == PST_WAIT_PWRGD && s.nstate == PST_OK && up.pwrgd && !down.pwrgd
    ensures var t, events := States(s, Flicker(up, down, n)), Flicker(up, down, n);
      t.pstate == PST_WAIT_PWRGD && t.nstate == PST_OK && t.pins == s.pins && TickCount(events) == n
  {
    if n > 0 {
      hide Step, States, TickCount;
      var a := Flicker(up, down, n - 1);
      FlickerWaits(s, up, down, n - 1);
      var t := States(s, a);
      FlickerOnce(t, up, down);
      OneMore(s, a, Pass(up));
      OneMore(s, a + [Pass(up)], TimerTick);
      OneMore(s, a + [Pass(up)] + [TimerTick], Pass(down));
      assert a + [Pass(up), TimerTick, Pass(down)] == a + [Pass(up)] + [TimerTick] + [Pass(down)];
    } else {
      assert States(s, []) == s && TickCount([]) == 0;
    }
  }

  lemma OneMore(s: Pic, events: seq<Event>, e: Event)
    ensures States(s, events + [e]) == Step(States(s, events), e)
    ensures TickCount(events + [e]) == TickCount(events) + if e.TimerTick? then 1 else 0
  {
    hide Step;
    assert (events + [e])[..|events|] == events;
  }

  lemma FlickerOnce(s: Pic, up: Inputs, down: Inputs)
    requires s.pstate == PST_WAIT_PWRGD && s.nstate == PST_OK && up.pwrgd && !down.pwrgd
    ensures var t := Step(Step(Step(s, Pass(up)), TimerTick), Pass(down));
      t.pstate == PST_WAIT_PWRGD && t.nstate == PST_OK && t.pins == s.pins
  {
    hide RstbtnFsm;
    LoadIsComplement(PSTATE_PWRGD_STABLE);
    var s1 := Step(s, Pass(up));
    assert s1.pstate == PST_PWRGD_STABLE && s1.nstate == PST_OK && s1.pins == s.pins && s1.timer == Timer(LoadValue(PSTATE_PWRGD_STABLE), true, false);
    hide LoadValue;
    var s2 := Step(s1, TimerTick);
    assert s2.pstate == PST_PWRGD_STABLE && s2.nstate == PST_OK && s2.pins == s.pins && !s2.timer.expired;
  }

  lemma TurnedOff(s: Pic)
    requires s.pstate == PST_TURN_OFF
    ensures OffSwitch(s) == s.(pins := Pins(false, false, false, false, false),
                               timer := Timer(LoadValue(PSTATE_MIN_OFF), true, false), pstate := PST_MINOFF)
  {
    hide LoadValue;
  }

  lemma TurnedOn(s: Pic)
    requires s.pstate == PST_TURN_ON
    ensures OffSwitch(s) == s.(pins := Pins(s.pins.reset, false, false, false, true),
                               button := s.button.(push := false),
                               timer := Timer(LoadValue(PSTATE_PWRGD_TO), true, false), pstate := PST_WAIT_PWRGD)
  {
    hide LoadValue;
  }

  lemma WasReset(s: Pic, inp: Inputs)
    requires s.pstate == PST_COLD_RESET
    ensures RunSwitch(s, inp) == s.(pins := Pins(s.pins.reset, false, false, false, s.pins.pson),
                                    timer := Timer(LoadValue(PSTATE_RSMRST_ASSERT), true, false),
                                    pstate := PST_RSMRST_DELAY)
  {
    hide LoadValue;
  }

  // ---- the firmware's own form: globals and pins changed step by step ----

  class Firmware {
    var pstate: u8
    var nstate: u8
    var rstate: Reason
    var pcycle: Cycle
    var push: bool
    var cur: bool
    var prev: bool
    var deb: Debounce
    var swdt: u16
    var swdtCnt: u8
    var picrst: bool
    var rsmrst: bool
    var corepwr: bool
    var clkpwrgd: bool
    var pson: bool
    var tmr1: u16
    var t1on: bool
    var t1if: bool

    ghost function St(): Pic
      reads this
    {
      Pic(pstate, nstate, rstate, pcycle, Button(push, cur, prev, deb), swdt, swdtCnt,
          Pins(picrst, rsmrst, corepwr, clkpwrgd, pson), Timer(tmr1, t1on, t1if))
    }

    /** Power comes up; main has not run yet. */
    constructor ()
    {
    }

    /** main, up to its loop; it may have run before, and with the power on. */
    method Start()
      modifies this
      ensures St() == SetUp(old(swdt), old(tmr1), old(t1if))
    {
      ghost var s := St();
      AllOff();
      push, cur, prev := false, false, false;
      deb := 0;
      t1on := false;
      assert St() == s.(pins := Pins(false, false, false, false, false), button := Button(false, false, false, 0),
                        timer := Timer(s.timer.count, false, s.timer.expired));
      FirstState();
    }

    method AllOff()
      modifies this`picrst, this`rsmrst, this`corepwr, this`clkpwrgd, this`pson
      ensures St() == old(St()).(pins := Pins(false, false, false, false, false))
    {
      picrst := false;
      SignalsOff();
      pson := false;
    }

    method SignalsOff()
      modifies this`rsmrst, this`corepwr, this`clkpwrgd
      ensures St() == old(St()).(pins := Pins(picrst, false, false, false, pson))
    {
      rsmrst := false;
      corepwr := false;
      clkpwrgd := false;
    }

    method FirstState()
      modifies this`pstate, this`nstate, this`rstate, this`pcycle, this`swdtCnt
      ensures St() == old(St()).(pstate := PST_TURN_ON, nstate := PST_OK, rstate := PowerOff, pcycle := PcNot, swdtCnt := 0)
    {
      pstate := PST_TURN_ON;
      nstate := PST_OK;
      rstate := PowerOff;
      pcycle := PcNot;
      swdtCnt := 0;
    }

    /** A reset: RAM and timer are left as they come, then main starts over. */
    method ResetPic(swdt: u16, count: u16, expired: bool)
      modifies this
      ensures St() == SetUp(swdt, count, expired)
    {
      this.swdt, tmr1, t1if := swdt, count, expired;
      Start();
    }

    method PstStart(msec: u16)
      modifies this`tmr1, this`t1on, this`t1if
      ensures St() == old(St()).(timer := Timer(LoadValue(msec), true, false))
    {
      t1on := false;
      t1if := false;
      var shifted: u16 := (msec * 2) % 0x10000;
      var low: u8 := 0xff - shifted % 0x100;
      tmr1 := tmr1 / 0x100 * 0x100 + low;
      var high: u8 := 0xff - shifted / 0x100;
      tmr1 := high * 0x100 + tmr1 % 0x100;
      t1on := true;
    }

    method PstExpired() returns (r: bool)
      modifies this`t1on, this`t1if
      ensures r == old(St()).timer.expired
      ensures St() == if r then old(St()).(timer := Timer(old(tmr1), false, false)) else old(St())
    {
      if !t1if {
        return false;
      }
      t1if := false;
      t1on := false;
      return true;
    }

    method LoadSwdt(eeSwdt: u16)
      modifies this`swdt
      ensures swdt == SwdtInit(eeSwdt)
    {
      swdt := eeSwdt;
      if swdt == 0xffff {
        swdt := SWDT_DEFAULT;
      }
      if swdt < SWDT_MIN {
        swdt := 0;
      }
    }

    method RunSwdt(tick4: bool)
      modifies this`swdt, this`swdtCnt, this`pstate, this`pcycle, this`rstate
      ensures St() == SwdtFsm(old(St()), tick4)
    {
      if swdt != 0 {
        if tick4 {
          swdt := swdt - 1;
        }
        if swdt == 0 {
          if swdtCnt != 0 {
            pstate := PST_TURN_OFF;
            pcycle := PcNow;
            rstate := PowerCycleSwdt;
          } else {
            pstate := PST_COLD_RESET;
            rstate := ResetSwdt;
          }
          if swdtCnt != 0xff {
            swdtCnt := swdtCnt + 1;
          }
        }
      }
    }

    method RunButton(pushed: bool, tick6: bool)
      modifies this`push, this`cur, this`prev, this`deb
      ensures St() == old(St()).(button := RstbtnFsm(old(St()).button, pushed, tick6))
    {
      if !tick6 {
        return;
      }
      if deb != 0 {
        var ticks := deb + 1;
        if ticks < RSTBTN_DEB {
          deb := ticks;
          return;
        }
        deb := 0;
      }
      prev := cur;
      cur := pushed;
      if !prev && cur {
        push := true;
        deb := 1;
      } else if prev && !cur {
        deb := 1;
      }
    }

    method TurnOff()
      requires pstate == PST_TURN_OFF
      modifies this
      ensures St() == OffSwitch(old(St()))
    {
      ghost var s := St();
      hide LoadValue, OffSwitch;
      AllOff();
      PstStart(PSTATE_MIN_OFF);
      pstate := pstate + 1;
      TurnedOff(s);
    }

    method TurnOn()
      requires pstate == PST_TURN_ON
      modifies this
      ensures St() == OffSwitch(old(St()))
    {
      ghost var s := St();
      hide LoadValue, OffSwitch;
      SignalsOff();
      pson := true;
      push := false;
      assert St() == s.(pins := Pins(s.pins.reset, false, false, false, true), button := s.button.(push := false));
      PstStart(PSTATE_PWRGD_TO);
      pstate := pstate + 1;
      TurnedOn(s);
    }

    method RunOffStates()
      requires PST_TURN_OFF <= pstate <= PST_TURN_ON
      modifies this
      ensures St() == OffSwitch(old(St()))
    {
      hide LoadValue;
      if pstate == PST_TURN_OFF {
        TurnOff();
      } else if pstate == PST_MINOFF {
        var expired := PstExpired();
        if expired {
          pstate := pstate + 1;
        }
      } else if pstate == PST_OFF {
        if push || pcycle == PcNow {
          pstate := pstate + 1;
        }
        pcycle := PcNot;
      } else {
        TurnOn();
      }
    }

    method RunUpStates(inp: Inputs) returns (failed: bool)
      requires PST_WAIT_PWRGD <= pstate <= PST_COREPWR_DELAY
      modifies this
      ensures (St(), failed) == UpSwitch(old(St()), inp)
    {
      hide LoadValue, SwdtInit;
      failed := false;
      if pstate == PST_WAIT_PWRGD {
        if inp.pwrgd {
          PstStart(PSTATE_PWRGD_STABLE);
          pstate := pstate + 1;
        } else {
          failed := PstExpired();
          if failed {
            rstate := PowerGood;
          }
        }
        return;
      }
      if pstate == PST_WAIT_PMUSLP {
        failed := PstExpired();
        if failed {
          rstate := PmuSlp;
        } else if inp.pmuSlp {
          PstStart(PSTATE_CLKPWRGD_DELAY);
          pstate := pstate + 1;
        }
        return;
      }
      RunUpExpired(inp);
    }

    method RunUpExpired(inp: Inputs)
      requires PST_WAIT_PWRGD < pstate <= PST_COREPWR_DELAY && pstate != PST_WAIT_PMUSLP
      modifies this
      ensures (St(), false) == UpSwitch(old(St()), inp)
    {
      hide LoadValue, SwdtInit;
      ghost var s := St();
      var expired := PstExpired();
      if expired {
        WaitOver(inp, s);
      } else if pstate == PST_PWRGD_STABLE && !inp.pwrgd {
        pstate := PST_WAIT_PWRGD;
      }
    }

    method WaitOver(inp: Inputs, ghost s: Pic)
      requires PST_WAIT_PWRGD < pstate <= PST_COREPWR_DELAY && pstate != PST_WAIT_PMUSLP
      requires s.timer.expired && St() == s.(timer := Timer(s.timer.count, false, false))
      modifies this
      ensures (St(), false) == UpSwitch(s, inp)
    {
      hide LoadValue, SwdtInit;
      if pstate == PST_PWRGD_STABLE {
        PstStart(PSTATE_RSMRST_DELAY);
        pstate := pstate + 1;
      } else if pstate == PST_RSMRST_DELAY {
        rsmrst := true;
        PstStart(PSTATE_PMUSLP_TO);
        pstate := pstate + 1;
      } else if pstate == PST_CLKPWRGD_DELAY {
        clkpwrgd := true;
        PstStart(PSTATE_COREPWR_DELAY);
        pstate := pstate + 1;
      } else {
        corepwr := true;
        LoadSwdt(inp.eeSwdt);
        pstate := PST_RUNNING;
      }
    }

    method RunRunStates(inp: Inputs)
      requires PST_RESET_ASSERT <= pstate <= PST_SLP_CR_DELAY
      modifies this
      ensures St() == RunSwitch(old(St()), inp)
    {
      hide LoadValue, SwdtInit, RunningPass;
      if pstate == PST_RESET_ASSERT {
        picrst := true;
        PstStart(PSTATE_RESET_DELAY);
        pstate := pstate + 1;
      } else if pstate == PST_RESET_DELAY {
        var expired := PstExpired();
        if expired {
          picrst := false;
          LoadSwdt(inp.eeSwdt);
          pstate := pstate + 1;
        }
      } else if pstate == PST_RUNNING {
        Running(inp.tick4);
      } else if pstate == PST_COLD_RESET {
        ColdReset(inp);
      } else {
        SleepDelay(inp);
      }
    }

    method SleepDelay(inp: Inputs)
      requires pstate == PST_SLP_CR_DELAY
      modifies this
      ensures St() == RunSwitch(old(St()), inp)
    {
      hide LoadValue, RunningPass;
      if inp.pmuSlp {
        if pcycle == PcCr {
          pstate := PST_TURN_OFF;
          rstate := PowerCycleCr;
          pcycle := PcNow;
        } else {
          pstate := PST_COLD_RESET;
          rstate := ResetCold;
        }
      } else {
        var expired := PstExpired();
        if expired {
          pstate := PST_TURN_OFF;
          rstate := PowerOff;
        }
      }
    }

    method Running(tick4: bool)
      modifies this
      ensures St() == RunningPass(old(St()), tick4)
    {
      hide SwdtFsm;
      if push {
        push := false;
        pstate := PST_COLD_RESET;
        rstate := ResetButton;
      }
      RunSwdt(tick4);
    }

    method ColdReset(inp: Inputs)
      requires pstate == PST_COLD_RESET
      modifies this
      ensures St() == RunSwitch(old(St()), inp)
    {
      ghost var s := St();
      hide LoadValue, RunningPass, RunSwitch;
      SignalsOff();
      PstStart(PSTATE_RSMRST_ASSERT);
      pstate := PST_RSMRST_DELAY;
      WasReset(s, inp);
    }

    /** power_fsm. */
    method RunPower(inp: Inputs)
      modifies this
      ensures St() == PowerFsm(old(St()), inp)
    {
      hide OffSwitch, UpSwitch, RunSwitch;
      var failed := false;
      if PST_TURN_OFF <= pstate <= PST_TURN_ON {
        RunOffStates();
      } else if PST_WAIT_PWRGD <= pstate <= PST_COREPWR_DELAY {
        failed := RunUpStates(inp);
      } else if PST_RESET_ASSERT <= pstate <= PST_SLP_CR_DELAY {
        RunRunStates(inp);
      } else {
        rstate := PstUnknown;
        failed := true;
      }
      if !failed && pstate > PST_PWRGD_STABLE && inp.thmtrip {
        rstate := ThermTrip;
        failed := true;
      }
      if !failed && pstate >= PST_RSMRST_DELAY && !inp.pwrgdAfter {
        rstate := PowerGood;
        failed := true;
      }
      if failed {
        pstate := PST_TURN_OFF;
        return;
      }
      if pstate >= PST_CLKPWRGD_DELAY && pstate != PST_SLP_CR_DELAY && !inp.pmuSlpAfter {
        PstStart(PSTATE_SLP_CR_DELAY);
        pstate := PST_SLP_CR_DELAY;
      }
    }

    /** One pass of the main loop. */
    method MainPass(inp: Inputs)
      modifies this
      ensures St() == LoopPass(old(St()), inp)
    {
      hide PowerFsm, RstbtnFsm;
      RunButton(inp.button, inp.tick6);
      RunPower(inp);
      if nstate != PST_OK {
        pstate := nstate;
        nstate := PST_OK;
      }
    }

    /** i2c_exec for I2C_PST_SET. */
    method HostRequest(request: Reason)
      modifies this`rstate, this`nstate, this`pcycle
      ensures St() == HostPower(old(St()), request)
    {
      rstate := request;
      match request
      case ResetWarm => nstate := PST_RESET_ASSERT;
      case ResetCold => nstate := PST_COLD_RESET;
      case PowerOff => nstate := PST_TURN_OFF;
      case PowerCycle =>
        nstate := PST_TURN_OFF;
        pcycle := PcNow;
      case PowerCycleCr => pcycle := PcCr;
      case _ =>
    }

    method Count()
      modifies this`tmr1, this`t1if
      ensures St() == old(St()).(timer := TickTimer(old(St()).timer))
    {
      if t1on {
        if tmr1 == 0xffff {
          tmr1 := 0;
          t1if := true;
        } else {
          tmr1 := tmr1 + 1;
        }
      }
    }
  }

  /** The firmware under a list of events: at each of them the pins are sequenced and no supply returns too early. */
  method RunFirmware(events: seq<Event>) returns (f: Firmware, ghost o: Observed)
    ensures Boot(o.s) && !o.everOn && f.St() == Run(o, events).s
    ensures Sequenced(f.St().pins)
    ensures GoodRun(o, events) ==> Powered(f.St())
  {
    hide Observe, Step, GoodNeedsPower, Sequenced;
    f := new Firmware();
    f.Start();
    o := Observed(f.St(), false, 0);
    var i := 0;
    while i < |events|
      invariant 0 <= i <= |events| && fresh(f)
      invariant f.St() == Run(o, events[..i]).s
    {
      assert events[..i + 1][..|events[..i + 1]| - 1] == events[..i];
      DoEvent(f, events[i]);
      assert Run(o, events[..i + 1]) == Observe(Run(o, events[..i]), events[i]);
      ObserveStep(Run(o, events[..i]), events[i]);
      i := i + 1;
    }
    assert events[..i] == events;
    RunIsSequenced(o, events);
    if GoodRun(o, events) {
      RunIsPowered(o, events);
    }
  }

  lemma ObserveStep(o: Observed, e: Event)
    ensures Observe(o, e).s == Step(o.s, e)
  {
  }

  method DoEvent(f: Firmware, e: Event)
    modifies f
    ensures f.St() == Step(old(f.St()), e)
  {
    hide LoopPass, HostPower;
    match e
    case TimerTick => f.Count();
    case Pass(inp) => f.MainPass(inp);
    case Power(request) => f.HostRequest(request);
    case Watchdog(v) =>
      f.swdt := v;
      f.swdtCnt := 0;
    case Reset(swdt, count, expired) => f.ResetPic(swdt, count, expired);
  }
}
