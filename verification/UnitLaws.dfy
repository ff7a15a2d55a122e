/** What scans do to a debug unit whose burst engines are at rest. */
module UnitLaws {
  import opened Bits
  import opened DebugUnit
  import Tap

  predicate ModuleAtRest(m: Module) {
    m.fsm == Idle && Settled(m.bus) && |m.out| == |m.intReg| == 33
  }

  predicate AtRest(u: Unit) {
    ModuleAtRest(u.wb) && ModuleAtRest(u.cpu0) && ModuleAtRest(u.cpu1) && u.id < MODULES
  }

  /** Only the selected module is busy */
  ghost predicate OthersAtRest(u: Unit) {
    && u.id < MODULES
    && (u.id != 0 ==> ModuleAtRest(u.wb)) && (u.id != 1 ==> ModuleAtRest(u.cpu0)) && (u.id != 2 ==> ModuleAtRest(u.cpu1))
  }

  // --- one module ---

  lemma QuietModule(m: Module, now: nat, selected: bool, tap: Tap.State, r: Input, tdi: bool)
    requires ModuleAtRest(m)
    requires !selected || tap !in {Tap.CaptureDr, Tap.ShiftDr, Tap.UpdateDr}
    ensures ClockModule(m, now, selected, tap, r, tdi) == m
  {
  }

  lemma CaptureModule(m: Module, now: nat, r: Input, tdi: bool)
    requires ModuleAtRest(m)
    ensures ClockModule(m, now, true, Tap.CaptureDr, r, tdi) == m.(out := m.intReg)
  {
  }

  lemma ShiftModule(m: Module, now: nat, r: Input, tdi: bool)
    requires ModuleAtRest(m)
    ensures ClockModule(m, now, true, Tap.ShiftDr, r, tdi) == m.(out := m.out[1..] + [false])
    ensures Tdo(m, r) == m.out[0]
  {
  }

  /** The effect of the 53 bits present at Update-DR, which ends at clock `now`, on the selected module */
  function Obey(m: Module, r: Input, now: nat): Module {
    var op := Operation(r);
    if ModuleSelect(r) then m
    else if BurstOp(m.kind, op) then
      m.(fsm := if ReadOp(op) then Rbegin else Wready, addr := Address(r), wordCount := Count(r), op := op,
         bitCount := 0, crc := ONES, bus := BusNow(m, now))
    else if op == IREG_WR then m.(regSel := r[47], intReg := WriteReg(m, r))
    else if op == IREG_SEL then m.(regSel := r[47])
    else m
  }

  lemma UpdateModule(m: Module, now: nat, r: Input, tdi: bool)
    requires ModuleAtRest(m)
    ensures ClockModule(m, now, true, Tap.UpdateDr, r, tdi) == Obey(m, r, now + 1)
  {
    hide Operation, WriteReg, Address, Count, BusNow;
  }

  // --- its bus ---

  lemma TickBus(b: Bus)
    requires Settled(b)
    ensures var n := b.Tick();
      && Settled(n) && n.result == b.result && n.answers == b.answers
      && n.left == (if b.left > 0 then b.left - 1 else 0) && (b.left == 0 ==> n == b)
      && (n.left > 0 ==> n.data == b.data && n.err == b.err && n.mem == b.mem)
  {
  }

  /** Left alone, a bus comes to the end of its transfer and stays there */
  lemma {:induction false} AgedBus(b: Bus, k: nat)
    requires Settled(b)
    ensures var n := b.Aged(k);
      && Settled(n) && n.result == b.result && n.answers == b.answers
      && n.left == (if b.left > k then b.left - k else 0) && (b.left == 0 ==> n == b)
      && (n.left > 0 ==> n.data == b.data && n.err == b.err && n.mem == b.mem)
    decreases k
  {
    if k > 0 {
      TickBus(b);
      AgedBus(b.Tick(), k - 1);
    }
  }

  lemma {:induction false} AgedMore(b: Bus, a: nat, c: nat)
    ensures b.Aged(a + c) == b.Aged(a).Aged(c)
    decreases a
  {
    hide Bus.Tick;
    if a > 0 { AgedMore(b.Tick(), a - 1, c); }
  }

  /** The bus of a module at clock `now`, whether it is looking at it or not */
  function BusOf(m: Module, now: nat): Bus {
    if m.fsm == Idle then BusNow(m, now) else m.bus
  }

  /** Nothing but the first bit behind a start bit stops a transfer in progress: at every other clock,
      whatever state module and TAP are in, whether or not the module asks for another one or the
      burst ends, its bus just moves on */
  lemma TransferRunsOn(m: Module, now: nat, selected: bool, tap: Tap.State, r: Input, tdi: bool)
    requires m.fsm == Idle ==> m.since <= now
    ensures var n := ClockModule(m, now, selected, tap, r, tdi); var b := BusOf(m, now);
      && (n.fsm == Idle ==> n.since <= now + 1)
      && (b.left > 0 ==> BusOf(n, now + 1) == if m.fsm == Wwait && n.fsm == Wburst then b.Clear() else b.Tick())
  {
    hide FromNat, ReadMem, WriteMem, ModuleSelect, Operation, WriteReg, Watch, Address, Count, Bus.Tick, Bus.Clear, BurstOp;
    if m.fsm == Idle {
      AgedMore(m.bus, now - m.since, 1);
      AgedOnce(m.bus.Aged(now - m.since));
      hide *;
      IdleRunsOn(m, now, selected, tap, r, tdi);
    } else {
      AgedNone(m.bus);
    }
  }

  lemma IdleRunsOn(m: Module, now: nat, selected: bool, tap: Tap.State, r: Input, tdi: bool)
    requires m.fsm == Idle && m.since <= now && m.bus.Aged(now + 1 - m.since) == m.bus.Aged(now - m.since).Tick()
    ensures var n := ClockModule(m, now, selected, tap, r, tdi);
      (n.fsm == Idle ==> n.since <= now + 1) && BusOf(n, now + 1) == BusOf(m, now).Tick()
  {
    hide FromNat, ModuleSelect, Operation, WriteReg, Address, Count, Bus.Tick, BurstOp, Bus.Aged;
    AgedNone(m.bus);
  }

  lemma AgedNone(b: Bus)
    ensures b.Aged(0) == b
  {
  }

  lemma AgedOnce(b: Bus)
    ensures b.Aged(1) == b.Tick()
  {
    assert b.Aged(1) == b.Tick().Aged(0);
  }

  // --- the unit ---

  /** The selected module */
  function Current(u: Unit): Module
    requires u.id < MODULES
  {
    u.Mod(u.id)
  }

  /** `u` with `m` for the selected module */
  function WithCurrent(u: Unit, m: Module): Unit
    requires u.id < MODULES
  {
    if u.id == 0 then u.(wb := m) else if u.id == 1 then u.(cpu0 := m) else u.(cpu1 := m)
  }

  lemma QuietUnit(u: Unit, debug: bool, tap: Tap.State, tdi: bool)
    requires AtRest(u) && tap !in {Tap.CaptureDr, Tap.ShiftDr, Tap.UpdateDr}
    ensures ClockUnit(u, debug, tap, tdi) == u.(time := u.time + 1)
  {
    hide ClockModule, ModuleAtRest;
    QuietModule(u.wb, u.time, u.id == 0, tap, u.input, tdi);
    QuietModule(u.cpu0, u.time, u.id == 1, tap, u.input, tdi);
    QuietModule(u.cpu1, u.time, u.id == 2, tap, u.input, tdi);
  }

  /** A clock reaches the top level and the selected module only */
  lemma BusyUnit(u: Unit, debug: bool, tap: Tap.State, tdi: bool)
    requires AtRest(u)
    ensures var c := ClockModule(Current(u), u.time, true, tap, u.input, tdi);
      ClockUnit(u, debug, tap, tdi) == WithCurrent(u, c).(time := u.time + 1,
        input := if debug && tap.ShiftDr? then u.input[1..] + [tdi] else u.input,
        id := if debug && tap.UpdateDr? && ModuleSelect(u.input) then ModuleId(u.input) else u.id)
  {
    NotInhibited(u);
    hide ClockModule, ModuleAtRest, ModuleId, Inhibits;
    if u.id != 0 { QuietModule(u.wb, u.time, false, tap, u.input, tdi); }
    if u.id != 1 { QuietModule(u.cpu0, u.time, false, tap, u.input, tdi); }
    if u.id != 2 { QuietModule(u.cpu1, u.time, false, tap, u.input, tdi); }
  }

  lemma NotInhibited(u: Unit)
    requires AtRest(u)
    ensures !u.Inhibited()
  {
  }

  lemma CaptureUnit(u: Unit, debug: bool, tdi: bool)
    requires AtRest(u)
    ensures ClockUnit(u, debug, Tap.CaptureDr, tdi) == WithCurrent(u, Current(u).(out := Current(u).intReg)).(time := u.time + 1)
  {
    hide ClockUnit, ClockModule;
    BusyUnit(u, debug, Tap.CaptureDr, tdi);
    CaptureModule(Current(u), u.time, u.input, tdi);
  }

  lemma ShiftUnit(u: Unit, tdi: bool)
    requires AtRest(u)
    ensures ClockUnit(u, true, Tap.ShiftDr, tdi)
         == WithCurrent(u, Current(u).(out := Current(u).out[1..] + [false])).(input := u.input[1..] + [tdi], time := u.time + 1)
    ensures UnitTdo(u) == Current(u).out[0]
  {
    hide ClockUnit, ClockModule, Tdo;
    BusyUnit(u, true, Tap.ShiftDr, tdi);
    ShiftModule(Current(u), u.time, u.input, tdi);
  }

  lemma UpdateUnit(u: Unit, tdi: bool)
    requires AtRest(u)
    ensures ClockUnit(u, true, Tap.UpdateDr, tdi)
         == WithCurrent(u, Obey(Current(u), u.input, u.time + 1)).(
              id := if ModuleSelect(u.input) then ModuleId(u.input) else u.id, time := u.time + 1)
  {
    hide ClockUnit, ClockModule, Obey, ModuleId;
    BusyUnit(u, true, Tap.UpdateDr, tdi);
    UpdateModule(Current(u), u.time, u.input, tdi);
  }

  // --- streams through the unit ---

  function UnitShifted(u: Unit, t: Stream): Unit
    decreases t
  {
    if t == [] then u else UnitShifted(ClockUnit(u, true, Tap.ShiftDr, t[0]), t[1..])
  }

  function UnitOut(u: Unit, t: Stream): (s: Stream)
    ensures |s| == |t|
    decreases t
  {
    if t == [] then [] else [UnitTdo(u)] + UnitOut(ClockUnit(u, true, Tap.ShiftDr, t[0]), t[1..])
  }

  /** Shifting a stream keeps its last 53 bits in the input register and moves the selected
      module's output register out, followed by zeros */
  lemma {:induction false} ShiftStream(u: Unit, t: Stream)
    requires AtRest(u)
    ensures AtRest(UnitShifted(u, t))
    ensures UnitShifted(u, t) ==
      WithCurrent(u, Current(u).(out := (Current(u).out + Fill(|t|, false))[|t|..])).(
        input := (u.input + t)[|t|..], time := u.time + |t|)
    ensures UnitOut(u, t) == (Current(u).out + Fill(|t|, false))[..|t|]
    decreases t
  {
    hide ClockUnit, UnitTdo;
    if t == [] {
      assert Current(u).out + Fill(0, false) == Current(u).out && u.input + t == u.input;
      assert (Current(u).out)[0..] == Current(u).out;
    } else {
      var v := ClockUnit(u, true, Tap.ShiftDr, t[0]);
      ShiftUnit(u, t[0]);
      RestAfterShift(u, v, t[0]);
      ShiftStream(v, t[1..]);
      var o := Current(u).out;
      ShiftPad(o, |t|);
      ShiftIn(u.input, t);
      hide UnitShifted, UnitOut, AtRest;
    }
  }

  lemma RestAfterShift(u: Unit, v: Unit, b: bool)
    requires AtRest(u)
    requires v == WithCurrent(u, Current(u).(out := Current(u).out[1..] + [false])).(input := u.input[1..] + [b], time := u.time + 1)
    ensures AtRest(v) && v.id == u.id && Current(v) == Current(u).(out := Current(u).out[1..] + [false])
    ensures v.time == u.time + 1
    ensures forall m, r: Input, n: nat :: WithCurrent(v, m).(input := r, time := n) == WithCurrent(u, m).(input := r, time := n)
  {
  }

  lemma ShiftPad(o: Stream, n: nat)
    requires n > 0 && o != []
    ensures ((o[1..] + [false]) + Fill(n - 1, false))[n - 1..] == (o + Fill(n, false))[n..]
    ensures [o[0]] + ((o[1..] + [false]) + Fill(n - 1, false))[..n - 1] == (o + Fill(n, false))[..n]
  {
    assert o + Fill(n, false) == [o[0]] + ((o[1..] + [false]) + Fill(n - 1, false));
  }

  lemma ShiftIn(r: Input, t: Stream)
    requires t != []
    ensures ((r[1..] + [t[0]]) + t[1..])[|t| - 1..] == (r + t)[|t|..]
  {
    assert r + t == [r[0]] + ((r[1..] + [t[0]]) + t[1..]);
  }
}
