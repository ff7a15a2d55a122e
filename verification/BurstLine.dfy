/** A burst as the host sees it: through the devices between the target and the cable's input. */
module BurstLine {
  import opened Bits
  import opened Scan
  import opened ChainLaws
  import opened DebugUnit
  import opened UnitLaws
  import opened DataLaws
  import opened ReadEngine
  import opened AdvDbg
  import Crc
  import Tap

  /** The host sees module state `d`; the module itself is as many clocks further on as there
      are devices behind the target */
  ghost predicate Behind(h: Chain, d: Module) {
    && Selecting(h) && OthersAtRest(h.unit) && Reading(d)
    && Stages(h.post) == ReadOut(d, |h.post|) && Current(h.unit) == ReadAfter(d, |h.post|)
  }

  /** What the host reads is what `d` sends */
  lemma ReadBehind(h: Chain, d: Module, s: Stream, last: bool)
    requires h.tap == Tap.ShiftDr && Behind(h, d)
    ensures var n := After(h, StreamPins(s, last));
      && Out(h, StreamPins(s, last)) == ReadOut(d, |s|) && Behind(n, ReadAfter(d, |s|))
      && SameFrame(h.unit, n.unit) && |n.post| == |h.post| && |n.pre| == |h.pre|
      && n.tap == if last && s != [] then Tap.Exit1Dr else Tap.ShiftDr
  {
    hide *;
    BehindParts(h, d);
    var n := After(h, StreamPins(s, last));
    var t := Delayed(Stages(h.pre), s);
    ShiftDebugStream(h, s, last);
    SelectingStream(h, s, last);
    ReadUnit(h.unit, t);
    var k := |h.post|;
    ReadMore(d, k, |s|);
    ReadMore(d, |s|, k);
    assert k + |s| == |s| + k;
    SplitEqual(Out(h, StreamPins(s, last)), Stages(n.post), ReadOut(d, |s|), ReadOut(ReadAfter(d, |s|), k));
    OthersRange(n.unit);
    BehindFrom(n, ReadAfter(d, |s|));
  }

  lemma OthersRange(u: Unit)
    requires OthersAtRest(u)
    ensures u.id < MODULES
  {
  }

  lemma BehindParts(h: Chain, d: Module)
    requires Behind(h, d)
    ensures h.Debugging() && Selecting(h) && OthersAtRest(h.unit) && Reading(d) && h.unit.id < MODULES
    ensures Reading(Current(h.unit))
    ensures Stages(h.post) == ReadOut(d, |h.post|) && Current(h.unit) == ReadAfter(d, |h.post|)
  {
    hide ReadOut, ReadAfter, Reading, Stages, RowBypassed;
  }

  lemma BehindFrom(h: Chain, d: Module)
    requires Selecting(h) && OthersAtRest(h.unit) && Reading(d) && h.unit.id < MODULES
    requires Stages(h.post) == ReadOut(d, |h.post|) && Current(h.unit) == ReadAfter(d, |h.post|)
    ensures Behind(h, d)
  {
    hide ReadOut, ReadAfter, Reading, Stages, RowBypassed;
  }

  lemma SplitEqual(a: Stream, b: Stream, c: Stream, d: Stream)
    requires a + b == c + d && |a| == |c|
    ensures a == c && b == d
  {
    assert a == (a + b)[..|a|] && c == (c + d)[..|a|];
    assert b == (a + b)[|a|..] && d == (c + d)[|a|..];
  }

  // --- the start of a burst ---

  /** `m` with `k` more clocks to wait */
  function Lagging(m: Module, k: nat): Module {
    m.(bus := m.bus.(left := m.bus.left + k))
  }

  /** Bypass bits in front of a module's output look like a slower bus */
  lemma {:induction false} LagRuns(m: Module, k: nat)
    requires Reading(m) && m.fsm == Rstatus
    ensures Reading(Lagging(m, k)) && ReadOut(Lagging(m, k), k) == Fill(k, false) && ReadAfter(Lagging(m, k), k) == m
    decreases k
  {
    hide ReadNext, Tdo;
    if k == 0 {
      assert ReadOut(Lagging(m, 0), 0) == Fill(0, false);
    } else {
      WaitStep(Lagging(m, k));
      LagRuns(m, k - 1);
      ReadStep(Lagging(m, k), k);
      FillStep(k);
    }
  }

  lemma LagInBurst(m: Module, p: Plan, j: nat, k: nat)
    requires InBurst(m, p, j) && m.fsm == Rstatus
    ensures var n := Lagging(m, k);
      && InBurst(n, p, j) && n.fsm == Rstatus && n.crc == m.crc && n.regSel == m.regSel && n.intReg == m.intReg
      && n.bus.answers == m.bus.answers && n.bus.result == m.bus.result && n.bus.left == m.bus.left + k
  {
    hide ReadMem, FromNat, Plan.At;
  }

  /** A module that has just taken a burst read command */
  ghost predicate Begins(m: Module, p: Plan) {
    && p.Fits() && m.fsm == Rbegin && |m.out| == |m.intReg| == 33 && Settled(m.bus)
    && m.kind == p.kind && m.Size() == p.size && m.bus.result.mem == p.mem && m.wordCount == p.count && m.addr == p.base
  }

  /** What the first clock makes of it: the first word is asked for, but a transfer still in progress
      goes on instead */
  function Asked(m: Module): Module {
    m.(fsm := Rready, addr := m.Advance(), intReg := Watch(m, false, true),
       bus := m.bus.Strobe(false, m.Place(), m.Size(), Fill(8 * m.Size(), false)))
  }

  lemma BeginClock(m: Module, now: nat, tap: Tap.State, r: Input, tdi: bool)
    requires m.fsm == Rbegin && m.wordCount > 0
    ensures ClockModule(m, now, true, tap, r, tdi) == Asked(m)
  {
    hide ReadMem, FromNat, Bus.Strobe, Watch;
  }

  lemma ReadyClock(m: Module, now: nat, tap: Tap.State, r: Input, tdi: bool)
    requires m.fsm == Rready
    ensures ClockModule(m, now, true, tap, r, tdi)
         == m.(fsm := if tap.CaptureDr? then Rstatus else Rready, bus := m.bus.Tick())
  {
    hide ReadMem, FromNat;
  }

  /** The module when the scan starts */
  function Started(m: Module): Module {
    var a := Asked(m);
    a.(fsm := Rstatus, bus := a.bus.Tick().Tick())
  }

  lemma StartedInBurst(m: Module, p: Plan)
    requires Begins(m, p)
    ensures 1 <= p.size <= 4
    ensures var n := Started(m); var a := m.bus.NextAnswer();
      && InBurst(n, p, 0) && n.fsm == Rstatus && n.crc == m.crc && n.regSel == m.regSel
      && |n.intReg| == 33 && (m.intReg[0] ==> n.intReg == m.intReg) && (n.intReg[0] ==> m.intReg[0])
      && if m.bus.left > 0 then
           n.bus.left == (if m.bus.left > 3 then m.bus.left - 3 else 0) && n.bus.result == m.bus.result && n.bus.answers == m.bus.answers
         else
           && n.bus.left == (if a.wait > 0 then a.wait - 1 else 0)
           && n.bus.result == Result(if a.err then m.bus.result.data else Pack(ReadMem(p.mem, p.Place(0), p.size)), a.err, p.mem)
           && n.bus.answers == if m.bus.answers == [] then [] else m.bus.answers[1..]
  {
    hide ReadMem, Bus.Tick, Plan.Place, Lane;
    assert p.At(0) == p.base;
    hide Plan.At;
    AdvanceIs(m, p, 0);
    if m.bus.left == 0 {
      StrobeFetches(m.bus, m.Place(), m.Size(), Fill(8 * m.Size(), false));
    } else {
      StrobeWaits(m.bus, m.Place(), m.Size(), Fill(8 * m.Size(), false));
      TickBus(m.bus);
    }
    hide Bus.Strobe;
    var b := m.bus.Strobe(false, m.Place(), m.Size(), Fill(8 * m.Size(), false));
    TickBus(b);
    TickBus(b.Tick());
    hide Watch, FromNat;
  }

  lemma StrobeWaits(b: Bus, place: nat, size: nat, value: Stream)
    requires b.left > 0 && 1 <= size <= 4 && |value| == 8 * size
    ensures b.Strobe(false, place, size, value) == b.Tick()
  {
  }

  /** Entering the scan after a burst read command */
  lemma EnterBurstScan(h: Chain, p: Plan)
    requires h.tap == Tap.RunTestIdle && Selecting(h) && OthersAtRest(h.unit) && Begins(Current(h.unit), p)
    ensures var n := After(h, TO_SHIFT_DR); var d := Lagging(Started(Current(h.unit)), |h.post|);
      && n.tap == Tap.ShiftDr && Behind(n, d) && SameFrame(h.unit, n.unit)
      && |n.post| == |h.post| && |n.pre| == |h.pre|
  {
    hide Clock, CaptureAll, ClockUnit, TargetTdi, Stages, RowBypassed, OthersAtRest, After, Asked, Begins,
      ReadAfter, ReadOut, SameFrame, Behind, Current, Tap.Next, InBurst, Plan.Fits, Reading, ClockModule;
    OthersRange(h.unit);
    var m := Current(h.unit);
    BeginsParts(m, p);
    StartedInBurst(m, p);
    BurstRange(Started(m), p, 0);
    After3(h, TMS_HIGH, TMS_LOW, TMS_LOW);
    EnterShiftDr(h);
    BypassStages(h.pre);
    BypassStages(h.post);
    TapEntry();
    var a := Clock(h, TMS_HIGH);
    var b := Clock(a, TMS_LOW);
    UnitClocks(h, TMS_HIGH);
    UnitClocks(a, TMS_LOW);
    UnitClocks(b, TMS_LOW);
    SelectingClock(h, TMS_HIGH);
    SelectingClock(a, TMS_LOW);
    SelectingClock(b, TMS_LOW);
    BusyStep(h.unit, Tap.RunTestIdle, TargetTdi(h, false));
    BeginClock(m, h.unit.time, Tap.RunTestIdle, h.unit.input, TargetTdi(h, false));
    BusyStep(a.unit, Tap.SelectDr, TargetTdi(a, false));
    ReadyClock(Asked(m), a.unit.time, Tap.SelectDr, a.unit.input, TargetTdi(a, false)) by { AskedReady(m); }
    AskedReady(m);
    BusyStep(b.unit, Tap.CaptureDr, TargetTdi(b, false));
    ReadyClock(Current(b.unit), b.unit.time, Tap.CaptureDr, b.unit.input, TargetTdi(b, false));
    var n := Clock(b, TMS_LOW);
    SameFrameTrans(h.unit, a.unit, b.unit);
    SameFrameTrans(h.unit, b.unit, n.unit);
    LagRuns(Started(m), |h.post|);
    BehindFrom(n, Lagging(Started(m), |h.post|));
  }

  lemma AskedReady(m: Module)
    ensures Asked(m).fsm == Rready
    ensures Started(m) == Asked(m).(fsm := Rstatus, bus := Asked(m).bus.Tick().Tick())
  {
  }

  lemma TapEntry()
    ensures Tap.Next(Tap.RunTestIdle, true) == Tap.SelectDr
    ensures Tap.Next(Tap.SelectDr, false) == Tap.CaptureDr
    ensures Tap.Next(Tap.CaptureDr, false) == Tap.ShiftDr
  {
  }

  lemma BeginsParts(m: Module, p: Plan)
    requires Begins(m, p)
    ensures m.fsm == Rbegin && m.wordCount > 0
  {
    hide Plan.At;
  }

  lemma BusyStep(u: Unit, tap: Tap.State, tdi: bool)
    requires OthersAtRest(u) && tap != Tap.UpdateDr
    ensures u.id < MODULES
    ensures var n := ClockUnit(u, true, tap, tdi);
      OthersAtRest(n) && SameFrame(u, n) && Current(n) == ClockModule(Current(u), u.time, true, tap, u.input, tdi) && n.time == u.time + 1
  {
    BusyClock(u, tap, tdi);
    hide ClockModule, ModuleAtRest, ClockUnit;
  }

  // --- the end of a burst ---

  /** `n` is `m` brought back to rest by clock `at`, as it was but for its shift registers and
      counters; a bus transfer in progress goes on */
  ghost predicate Stopped(n: Module, m: Module, at: nat) {
    && ModuleAtRest(n) && n.kind == m.kind && n.regSel == m.regSel && n.intReg == m.intReg
    && n.bus == m.bus.Tick() && n.since == at
  }

  lemma StopRead(m: Module, now: nat, r: Input, tdi: bool)
    requires Reading(m)
    ensures Inhibits(m) && Stopped(ClockModule(m, now, true, Tap.UpdateDr, r, tdi), m, now + 1)
  {
    TickBus(m.bus);
    hide FromNat, ReadMem, Crc.HardwareStep, Shr, Watch;
  }

  /** Update-DR ends a burst without being taken for a command */
  lemma StopUnit(u: Unit, tdi: bool)
    requires OthersAtRest(u) && Reading(Current(u))
    ensures u.id < MODULES
    ensures var n := ClockUnit(u, true, Tap.UpdateDr, tdi);
      AtRest(n) && SameFrame(u, n) && Stopped(Current(n), Current(u), u.time + 1) && n.time == u.time + 1
  {
    StopRead(Current(u), u.time, u.input, tdi);
    BusyClock(u, Tap.UpdateDr, tdi);
    hide ClockModule, ModuleAtRest, ClockUnit, Reading;
    RestUnit(ClockUnit(u, true, Tap.UpdateDr, tdi));
  }

  lemma RestUnit(u: Unit)
    requires OthersAtRest(u) && ModuleAtRest(Current(u))
    ensures AtRest(u)
  {
    hide ModuleAtRest;
  }

  /** A clock between Shift-DR and Update-DR */
  lemma CoastUnit(u: Unit, tap: Tap.State, tdi: bool)
    requires OthersAtRest(u) && Reading(Current(u)) && tap in {Tap.ShiftDr, Tap.Exit1Dr}
    ensures u.id < MODULES
    ensures var n := ClockUnit(u, true, tap, tdi);
      OthersAtRest(n) && SameFrame(u, n) && Current(n) == ReadNext(Current(u)) && n.time == u.time + 1
  {
    BusyStep(u, tap, tdi);
    ReadClock(Current(u), u.time, tap, u.input, tdi);
  }

  /** Leaving Exit1-DR for Run-Test/Idle ends the burst */
  lemma EndBurstScan(h: Chain, d: Module)
    requires h.tap == Tap.Exit1Dr && Behind(h, d)
    ensures h.unit.id < MODULES && Reading(d)
    ensures var n := After(h, [TMS_HIGH, TMS_LOW]);
      && Ready(n) && SameFrame(h.unit, n.unit) && |n.post| == |h.post| && |n.pre| == |h.pre|
      && n.unit.id == h.unit.id && Stopped(Current(n.unit), ReadAfter(d, |h.post| + 1), n.unit.time)
  {
    hide *;
    BehindParts(h, d);
    After2(h, TMS_HIGH, TMS_LOW);
    TapSteps();
    var a := Clock(h, TMS_HIGH);
    var n := Clock(a, TMS_LOW);
    UnitClocks(h, TMS_HIGH);
    UnitClocks(a, TMS_LOW);
    TapIsHigh();
    SelectingClock(h, TMS_HIGH);
    SelectingClock(a, TMS_LOW);
    SelectingDebugs(a);
    CoastUnit(h.unit, Tap.Exit1Dr, TargetTdi(h, false));
    NextReads(h.unit, a.unit);
    StopUnit(a.unit, TargetTdi(a, false));
    SameFrameTrans(h.unit, a.unit, n.unit);
    SameFrameId(h.unit, n.unit);
    ReadMore(d, |h.post|, 1);
    ReadOne(ReadAfter(d, |h.post|));
    ReadyFrom(n);
  }

  lemma SameFrameLater(u: Unit, v: Unit, time: nat)
    requires SameFrame(u, v)
    ensures SameFrame(u, v.(time := time))
  {
    forall m: Module ensures WithCurrent(u, m).(input := v.input, time := time) == WithCurrent(v.(time := time), m) {
      assert WithCurrent(u, m).(input := v.input, time := v.time) == WithCurrent(v, m);
    }
  }

  lemma SameFrameId(u: Unit, v: Unit)
    requires SameFrame(u, v)
    ensures u.id == v.id < MODULES
  {
  }

  lemma NextReads(u: Unit, v: Unit)
    requires u.id < MODULES && v.id < MODULES && Reading(Current(u)) && Current(v) == ReadNext(Current(u))
    ensures Reading(Current(v))
  {
    hide Reading, ReadNext;
  }

  lemma ReadOne(m: Module)
    requires Reading(m)
    ensures ReadAfter(m, 1) == ReadNext(m)
  {
    hide Reading, ReadNext;
  }

  lemma TapIsHigh()
    ensures TMS_HIGH.tms && !TMS_HIGH.trst && !TMS_LOW.tms && !TMS_LOW.trst && !TMS_HIGH.tdi && !TMS_LOW.tdi
  {
  }

  lemma SelectingDebugs(h: Chain)
    requires Selecting(h)
    ensures h.Debugging()
  {
    hide RowBypassed;
  }

  // --- a burst cut short ---

  lemma ResetSplit(trstWired: bool)
    ensures ResetPins(trstWired)
         == [TMS_LOW, TMS_HIGH, TMS_HIGH, TMS_HIGH] + (seq(5, _ => TMS_HIGH) + [Pin(false, false, trstWired), TMS_LOW])
  {
  }

  lemma TailAvoidsData(trstWired: bool)
    ensures AvoidsData(Tap.SelectDr, seq(5, _ => TMS_HIGH) + [Pin(false, false, trstWired), TMS_LOW])
  {
    var pull := Pin(false, false, trstWired);
    var rest := [pull, TMS_LOW];
    assert rest[1..] == [TMS_LOW] && [TMS_LOW][1..] == [];
    AvoidsOne(Tap.TestLogicReset, TMS_LOW);
    AvoidsOne(Tap.RunTestIdle, TMS_LOW);
    assert AvoidsData(Tap.TestLogicReset, rest);
    HighsAvoidData(Tap.SelectDr, 5, rest);
  }

  lemma TapAbort()
    ensures Tap.Next(Tap.ShiftDr, false) == Tap.ShiftDr && Tap.Next(Tap.ShiftDr, true) == Tap.Exit1Dr
    ensures Tap.Next(Tap.Exit1Dr, true) == Tap.UpdateDr && Tap.Next(Tap.UpdateDr, true) == Tap.SelectDr
  {
  }

  /** A reset in the middle of a burst passes Update-DR at its fourth clock and so brings the unit to
      rest.  It does not reach the bus: a transfer in progress goes on. */
  lemma ResetAborts(h: Chain, d: Module, trstWired: bool)
    requires h.tap == Tap.ShiftDr && Behind(h, d)
    ensures h.unit.id < MODULES && Reading(d)
    ensures var n := After(h, ResetPins(trstWired));
      AtRest(n.unit) && SameFrame(h.unit, n.unit) && n.unit.id == h.unit.id
      && n.unit.time == h.unit.time + 11 && Stopped(Current(n.unit), ReadAfter(d, |h.post| + 3), h.unit.time + 4)
  {
    hide *;
    BehindParts(h, d);
    TapIsHigh();
    TapAbort();
    ResetSplit(trstWired);
    TailAvoidsData(trstWired);
    var tail := seq(5, _ => TMS_HIGH) + [Pin(false, false, trstWired), TMS_LOW];
    AfterAppend(h, [TMS_LOW, TMS_HIGH, TMS_HIGH, TMS_HIGH], tail);
    After4(h, TMS_LOW, TMS_HIGH, TMS_HIGH, TMS_HIGH);
    var a := Clock(h, TMS_LOW);
    var b := Clock(a, TMS_HIGH);
    var c := Clock(b, TMS_HIGH);
    var e := Clock(c, TMS_HIGH);
    CoastClock(h, TMS_LOW);
    CoastClock(a, TMS_HIGH);
    CoastClock(b, TMS_HIGH);
    SelectingDebugs(c);
    UnitClocks(c, TMS_HIGH);
    SelectingClock(c, TMS_HIGH);
    StopUnit(c.unit, TargetTdi(c, false));
    QuietRun(e, tail);
    LaterAtRest(e.unit, e.unit.time + 7);
    SameFrameTrans(h.unit, a.unit, b.unit);
    SameFrameTrans(h.unit, b.unit, c.unit);
    SameFrameTrans(h.unit, c.unit, e.unit);
    SameFrameId(h.unit, e.unit);
    SameFrameLater(h.unit, e.unit, e.unit.time + 7);
    ReadThree(d, |h.post|);
  }

  lemma ReadThree(d: Module, k: nat)
    requires Reading(d)
    ensures ReadAfter(d, k + 3) == ReadNext(ReadNext(ReadNext(ReadAfter(d, k))))
  {
    hide Reading, ReadNext;
    ReadMore(d, k, 3);
    var m := ReadAfter(d, k);
    ReadMore(m, 1, 2);
    ReadMore(ReadNext(m), 1, 1);
  }

  /** A clock in Shift-DR or Exit1-DR moves a busy module on */
  lemma CoastClock(h: Chain, p: Pin)
    requires Selecting(h) && OthersAtRest(h.unit) && h.unit.id < MODULES && Reading(Current(h.unit)) && !p.trst
    requires h.tap in {Tap.ShiftDr, Tap.Exit1Dr} && Tap.Next(h.tap, p.tms) in {Tap.ShiftDr, Tap.Exit1Dr, Tap.UpdateDr}
    ensures var n := Clock(h, p);
      && Selecting(n) && OthersAtRest(n.unit) && n.tap == Tap.Next(h.tap, p.tms) && SameFrame(h.unit, n.unit)
      && n.unit.id < MODULES && Reading(Current(n.unit)) && Current(n.unit) == ReadNext(Current(h.unit))
      && n.unit.time == h.unit.time + 1
  {
    hide *;
    SelectingDebugs(h);
    SelectingClock(h, p);
    UnitClocks(h, p);
    CoastUnit(h.unit, h.tap, TargetTdi(h, p.tdi));
    SameFrameId(h.unit, Clock(h, p).unit);
    NextReads(h.unit, Clock(h, p).unit);
  }

  /** The register selection is not the burst engine's business */
  lemma {:induction false} ReadKeeps(m: Module, k: nat)
    requires Reading(m)
    ensures ReadAfter(m, k).regSel == m.regSel && ReadAfter(m, k).kind == m.kind
    ensures ReadAfter(m, k).bus.result.mem == m.bus.result.mem
    decreases k
  {
    if k > 0 {
      NextKeeps(m);
      ReadKeeps(ReadNext(m), k - 1);
    }
    hide ReadNext, Reading;
  }

  lemma NextKeeps(m: Module)
    requires Reading(m)
    ensures ReadNext(m).regSel == m.regSel && ReadNext(m).kind == m.kind
    ensures ReadNext(m).bus.result.mem == m.bus.result.mem
  {
    hide FromNat, ReadMem, Crc.HardwareStep, Shr, Watch;
  }
}
