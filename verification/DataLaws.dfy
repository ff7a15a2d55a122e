/** Data scans through bypassed devices to and from the debug unit. */
module DataLaws {
  import opened Bits
  import opened Scan
  import opened ChainLaws
  import opened DebugUnit
  import opened UnitLaws
  import Tap

  /** One shift clock: the row before the target delays its input, the row after delays its output */
  lemma ShiftDebug(h: Chain, p: Pin)
    requires h.tap == Tap.ShiftDr && h.Debugging() && !p.trst
    ensures var n := Clock(h, p); var a := (Stages(h.pre) + [p.tdi])[0];
      && n.unit == ClockUnit(h.unit, true, Tap.ShiftDr, a)
      && [a] + Stages(n.pre) == Stages(h.pre) + [p.tdi]
      && [ReadBack(h, p.tdi)] + Stages(n.post) == Stages(h.post) + [UnitTdo(h.unit)]
      && n.Debugging() && n.tap == if p.tms then Tap.Exit1Dr else Tap.ShiftDr
  {
    hide ClockUnit, UnitTdo, ShiftRow, Stages;
    ShiftRowStages(h.pre, p.tdi);
    ShiftRowStages(h.post, UnitTdo(h.unit));
  }

  /** What reaches the target while `s` is shifted in behind the stages `row` */
  function Delayed(row: Stream, s: Stream): (t: Stream)
    ensures |t| == |s|
  {
    (row + s)[..|s|]
  }

  lemma DelayedStep(row: Stream, next: Stream, a: bool, s: Stream)
    requires s != [] && [a] + next == row + [s[0]]
    ensures Delayed(row, s) == [a] + Delayed(next, s[1..])
    ensures (next + s[1..])[|s| - 1..] == (row + s)[|s|..]
  {
    assert row + s == (row + [s[0]]) + s[1..];
    assert row + s == [a] + (next + s[1..]);
  }

  lemma {:induction false} ShiftDebugStream(h: Chain, s: Stream, last: bool)
    requires h.tap == Tap.ShiftDr && h.Debugging()
    ensures var n := After(h, StreamPins(s, last)); var t := Delayed(Stages(h.pre), s);
      && n.unit == UnitShifted(h.unit, t)
      && Stages(n.pre) == (Stages(h.pre) + s)[|s|..]
      && Out(h, StreamPins(s, last)) + Stages(n.post) == Stages(h.post) + UnitOut(h.unit, t)
      && n.Debugging() && n.tap == if last && s != [] then Tap.Exit1Dr else Tap.ShiftDr
    decreases s
  {
    hide Clock, ReadBack, ClockUnit, UnitTdo, Stages, Delayed, Device.Selected;
    var pins := StreamPins(s, last);
    var t := Delayed(Stages(h.pre), s);
    if s == [] {
      AfterNone(h);
      assert pins == [] && t == [];
      assert (Stages(h.pre) + s)[0..] == Stages(h.pre);
    } else {
      StreamPinsStep(s, last);
      AfterCons(h, pins);
      var n := Clock(h, pins[0]);
      var a := (Stages(h.pre) + [s[0]])[0];
      ShiftDebug(h, pins[0]);
      DelayedStep(Stages(h.pre), Stages(n.pre), a, s);
      UnitStep(h.unit, a, Delayed(Stages(n.pre), s[1..]));
      if |s| == 1 {
        AfterNone(n);
        assert pins[1..] == [];
        UnitNone(n.unit);
        assert Delayed(Stages(n.pre), s[1..]) == [];
        assert (Stages(n.pre) + s[1..])[0..] == Stages(n.pre);
      } else {
        ShiftDebugStream(n, s[1..], last);
      }
      hide After, Out, UnitShifted, UnitOut;
      var m := After(n, pins[1..]);
      JoinOut(ReadBack(h, s[0]), Out(n, pins[1..]), Stages(h.post), Stages(n.post), Stages(m.post), UnitTdo(h.unit),
              UnitOut(n.unit, Delayed(Stages(n.pre), s[1..])));
    }
  }

  lemma UnitStep(u: Unit, a: bool, t: Stream)
    ensures UnitShifted(u, [a] + t) == UnitShifted(ClockUnit(u, true, Tap.ShiftDr, a), t)
    ensures UnitOut(u, [a] + t) == [UnitTdo(u)] + UnitOut(ClockUnit(u, true, Tap.ShiftDr, a), t)
  {
    hide ClockUnit, UnitTdo;
    assert ([a] + t)[1..] == t;
  }

  lemma UnitNone(u: Unit)
    ensures UnitShifted(u, []) == u && UnitOut(u, []) == []
  {
  }

  lemma JoinOut(o: bool, out: Stream, row: Stream, next: Stream, last: Stream, b: bool, rest: Stream)
    requires [o] + next == row + [b]
    requires out + last == next + rest
    ensures [o] + out + last == row + ([b] + rest)
  {
    JoinShifts(o, out, row, next, last, b, rest);
  }

  // --- whole scans ---

  /** Every device of a row is bypassed */
  ghost predicate RowBypassed(devs: seq<Device>) {
    forall i :: 0 <= i < |devs| ==> devs[i].Selected() == Bypass
  }

  /** Idle, with the debug unit selected in the target, every other device bypassed and no
      burst under way */
  ghost predicate Ready(h: Chain) {
    h.tap == Tap.RunTestIdle && h.Debugging() && RowBypassed(h.pre) && RowBypassed(h.post) && AtRest(h.unit)
  }

  lemma {:induction false} BypassStages(devs: seq<Device>)
    requires RowBypassed(devs)
    ensures Stages(CaptureAll(devs)) == Fill(|devs|, false)
    decreases devs
  {
    if devs != [] {
      BypassStages(devs[1..]);
      assert CaptureAll(devs) == [devs[0].Capture()] + CaptureAll(devs[1..]);
      StagesCons(devs[0].Capture(), CaptureAll(devs[1..]));
      assert Fill(|devs|, false) == [false] + Fill(|devs| - 1, false);
    }
  }

  lemma RowStaysBypassed(devs: seq<Device>, tdi: bool)
    requires RowBypassed(devs)
    ensures RowBypassed(ShiftRow(devs, tdi).0) && RowBypassed(CaptureAll(devs))
  {
    hide ShiftRow, CaptureAll;
    ShiftRowSilicon(devs, tdi);
  }

  /** What no data-scan clock disturbs */
  ghost predicate Selecting(h: Chain) {
    h.Debugging() && RowBypassed(h.pre) && RowBypassed(h.post)
  }

  lemma SelectingClock(h: Chain, p: Pin)
    requires Selecting(h) && !p.trst && Tap.Next(h.tap, p.tms) != Tap.TestLogicReset && h.tap != Tap.UpdateIr
    ensures Selecting(Clock(h, p)) && Clock(h, p).tap == Tap.Next(h.tap, p.tms)
    ensures |Clock(h, p).pre| == |h.pre| && |Clock(h, p).post| == |h.post|
  {
    hide ClockUnit, UnitTdo, ShiftRow, RowBypassed;
    RowStaysBypassed(h.pre, p.tdi);
    RowStaysBypassed(h.post, TargetTdo(h, TargetTdi(h, p.tdi)));
  }

  lemma {:induction false} SelectingStream(h: Chain, s: Stream, last: bool)
    requires Selecting(h) && h.tap == Tap.ShiftDr
    ensures var n := After(h, StreamPins(s, last)); Selecting(n) && |n.pre| == |h.pre| && |n.post| == |h.post|
    decreases s
  {
    hide Clock, Selecting;
    var pins := StreamPins(s, last);
    if s == [] {
      assert pins == [];
    } else {
      StreamPinsStep(s, last);
      SelectingClock(h, pins[0]);
      if |s| == 1 {
        assert pins[1..] == [];
      } else {
        SelectingStream(Clock(h, pins[0]), s[1..], last);
      }
    }
  }

  /** The unit clocks with the chain */
  lemma UnitClocks(h: Chain, p: Pin)
    ensures Clock(h, p).unit == ClockUnit(h.unit, h.Debugging(), h.tap, TargetTdi(h, p.tdi))
  {
    hide ClockUnit, TargetTdi, Act;
  }

  /** Entering a data scan: every bypass stage holds 0 and the selected module's internal
      register is ready to be read */
  lemma EnterDebugScan(h: Chain)
    requires Ready(h)
    ensures var n := After(h, TO_SHIFT_DR);
      && n.tap == Tap.ShiftDr && Selecting(n) && AtRest(n.unit)
      && |n.pre| == |h.pre| && |n.post| == |h.post|
      && Stages(n.pre) == Fill(|h.pre|, false) && Stages(n.post) == Fill(|h.post|, false)
      && n.unit == WithCurrent(h.unit, Current(h.unit).(out := Current(h.unit).intReg)).(time := h.unit.time + 3)
  {
    hide Clock, CaptureAll, ClockUnit, TargetTdi, Stages, RowBypassed, AtRest, After;
    RestRange(h.unit);
    After3(h, TMS_HIGH, TMS_LOW, TMS_LOW);
    EnterShiftDr(h);
    BypassStages(h.pre);
    BypassStages(h.post);
    var a := Clock(h, TMS_HIGH);
    var b := Clock(a, TMS_LOW);
    UnitClocks(h, TMS_HIGH);
    UnitClocks(a, TMS_LOW);
    UnitClocks(b, TMS_LOW);
    SelectingClock(h, TMS_HIGH);
    SelectingClock(a, TMS_LOW);
    SelectingClock(b, TMS_LOW);
    QuietUnit(h.unit, true, h.tap, TargetTdi(h, false));
    LaterAtRest(h.unit, h.unit.time + 1);
    QuietUnit(a.unit, true, a.tap, TargetTdi(a, false));
    LaterAtRest(a.unit, a.unit.time + 1);
    CaptureUnit(b.unit, true, TargetTdi(b, false));
    RestAfterCapture(h.unit, h.unit.time + 3);
    CaptureLater(h.unit, h.unit.time + 2, h.unit.time + 3);
  }

  lemma RestRange(u: Unit)
    requires AtRest(u)
    ensures u.id < MODULES && |Current(u).out| == |Current(u).intReg| == 33
  {
  }

  lemma RestAfterCapture(u: Unit, time: nat)
    requires AtRest(u)
    ensures AtRest(WithCurrent(u, Current(u).(out := Current(u).intReg)).(time := time))
  {
  }

  lemma CaptureLater(u: Unit, a: nat, b: nat)
    requires u.id < MODULES
    ensures WithCurrent(u.(time := a), Current(u.(time := a)).(out := Current(u.(time := a)).intReg)).(time := b)
         == WithCurrent(u, Current(u).(out := Current(u).intReg)).(time := b)
  {
  }

  lemma LaterAtRest(u: Unit, time: nat)
    requires AtRest(u)
    ensures AtRest(u.(time := time)) && u.(time := time).id == u.id && Current(u.(time := time)) == Current(u)
  {
  }

  /** The clocks of a data scan from and back to Run-Test/Idle */
  function ScanPins(x: Stream): seq<Pin> {
    TO_SHIFT_DR + StreamPins(x, true) + [TMS_HIGH, TMS_LOW]
  }

  /** The unit at the end of Shift-DR when `t` reached it */
  function UnitShiftedIn(u: Unit, t: Stream): Unit
    requires u.id < MODULES
  {
    var m := Current(u);
    WithCurrent(u, m.(out := (m.intReg + Fill(|t|, false))[|t|..])).(input := (u.input + t)[|t|..], time := u.time + 3 + |t|)
  }

  /** The unit after a scan in which `t` reached it */
  function UnitScanned(u: Unit, t: Stream): Unit
    requires u.id < MODULES
  {
    var v := UnitShiftedIn(u, t);
    WithCurrent(v, Obey(Current(v), v.input, v.time + 2)).(
      id := if ModuleSelect(v.input) then ModuleId(v.input) else u.id, time := v.time + 2)
  }

  lemma ShiftedInAtRest(u: Unit, t: Stream)
    requires AtRest(u)
    ensures AtRest(UnitShiftedIn(u, t)) && UnitShiftedIn(u, t).id == u.id
  {
  }

  /** The bits read back during the shift clocks of a scan of `x` */
  function ScanRead(h: Chain, x: Stream): Stream {
    Out(After(h, TO_SHIFT_DR), StreamPins(x, true))
  }

  lemma ScanShift(h: Chain, x: Stream)
    requires Ready(h) && x != []
    ensures var n := After(After(h, TO_SHIFT_DR), StreamPins(x, true));
      && n.tap == Tap.Exit1Dr && Selecting(n) && |n.pre| == |h.pre| && |n.post| == |h.post|
      && n.unit == UnitShiftedIn(h.unit, Delayed(Fill(|h.pre|, false), x))
    ensures ScanRead(h, x) == Delayed(Fill(|h.post|, false), (Current(h.unit).intReg + Fill(|x|, false))[..|x|])
  {
    hide After, Out, AtRest, Stages, RowBypassed, Device.Selected, ClockUnit;
    RestRange(h.unit);
    EnterDebugScan(h);
    var a := After(h, TO_SHIFT_DR);
    var t := Delayed(Fill(|h.pre|, false), x);
    ShiftDebugStream(a, x, true);
    SelectingStream(a, x, true);
    ShiftStream(a.unit, t);
    ReadPrefix(Out(a, StreamPins(x, true)), Stages(After(a, StreamPins(x, true)).post), Fill(|h.post|, false), UnitOut(a.unit, t));
  }

  lemma ReadPrefix(out: Stream, rest: Stream, row: Stream, bits: Stream)
    requires out + rest == row + bits && |out| == |bits|
    ensures out == Delayed(row, bits)
  {
    assert out == (out + rest)[..|out|];
  }

  /** A data scan delivers its stream, delayed by the devices before the target, and the unit
      obeys what is then in its input register */
  lemma DataScan(h: Chain, x: Stream)
    requires Ready(h) && x != []
    ensures var n := After(h, ScanPins(x));
      && n.tap == Tap.RunTestIdle && Selecting(n) && |n.pre| == |h.pre| && |n.post| == |h.post|
      && n.unit == UnitScanned(h.unit, Delayed(Fill(|h.pre|, false), x))
  {
    hide After, AtRest, Clock, ClockUnit, Obey, UnitShiftedIn, RowBypassed, Chain.Debugging, TargetTdi, Delayed,
      StreamPins, WithCurrent, Current, ModuleSelect, ModuleId, Ready, Tap.Next;
    var t := Delayed(Fill(|h.pre|, false), x);
    ReadyRest(h);
    TapSteps();
    RestRange(h.unit);
    AfterAppend(h, TO_SHIFT_DR + StreamPins(x, true), [TMS_HIGH, TMS_LOW]);
    AfterAppend(h, TO_SHIFT_DR, StreamPins(x, true));
    ScanShift(h, x);
    ShiftedInAtRest(h.unit, t);
    RestRange(UnitShiftedIn(h.unit, t));
    var a := After(After(h, TO_SHIFT_DR), StreamPins(x, true));
    var b := Clock(a, TMS_HIGH);
    After2(a, TMS_HIGH, TMS_LOW);
    SelectingClock(a, TMS_HIGH);
    SelectingClock(b, TMS_LOW);
    UnitClocks(a, TMS_HIGH);
    UnitClocks(b, TMS_LOW);
    QuietUnit(a.unit, true, a.tap, TargetTdi(a, false));
    LaterAtRest(a.unit, a.unit.time + 1);
    UpdateUnit(b.unit, TargetTdi(b, false));
    UpdateLater(a.unit, Obey(Current(a.unit), a.unit.input, a.unit.time + 2), b.unit.time);
  }

  // --- the two stream operations ---

  /** Writing `s` and then one idle bit for every device before the target leaves exactly `s`
      in the last positions of the unit's input register */
  lemma WriteLands(h: Chain, s: Stream)
    requires Ready(h) && s != []
    ensures var v := UnitShiftedIn(h.unit, Delayed(Fill(|h.pre|, false), s + Fill(|h.pre|, false)));
      |s| <= 53 ==> v.input[53 - |s|..] == s
    ensures Delayed(Fill(|h.pre|, false), s + Fill(|h.pre|, false)) == Fill(|h.pre|, false) + s
  {
    var z := Fill(|h.pre|, false);
    var t := Delayed(z, s + z);
    assert t == z + s by {
      assert z + (s + z) == (z + s) + z;
    }
    var r := (h.unit.input + (z + s))[|z + s|..];
    assert h.unit.input + (z + s) == (h.unit.input + z) + s;
  }

  /** Reading past one bit for every device behind the target gives exactly the first bits the
      target captured */
  lemma ReadCaptures(h: Chain, n: nat, x: Stream)
    requires Ready(h) && |x| >= |h.post| + n && n <= 33 && x != []
    ensures ScanRead(h, x)[|h.post|..|h.post| + n] == Current(h.unit).intReg[..n]
  {
    hide *;
    ReadyRange(h);
    ScanShift(h, x);
    ReadWindow(Fill(|h.post|, false), Current(h.unit).intReg, |x|, n);
  }

  lemma UpdateLater(u: Unit, m: Module, time: nat)
    requires u.id < MODULES
    ensures forall id: nat, now: nat :: WithCurrent(u.(time := time), m).(id := id, time := now) == WithCurrent(u, m).(id := id, time := now)
  {
  }

  lemma ReadyRest(h: Chain)
    requires Ready(h)
    ensures AtRest(h.unit) && h.tap == Tap.RunTestIdle
  {
  }

  lemma TapSteps()
    ensures Tap.Next(Tap.Exit1Dr, true) == Tap.UpdateDr
    ensures Tap.Next(Tap.UpdateDr, false) == Tap.RunTestIdle
  {
  }

  lemma ReadyRange(h: Chain)
    requires Ready(h)
    ensures h.unit.id < MODULES && |Current(h.unit).intReg| == 33
  {
  }

  lemma ReadWindow(row: Stream, reg: Stream, k: nat, n: nat)
    requires k >= |row| + n && n <= |reg|
    ensures Delayed(row, (reg + Fill(k, false))[..k])[|row|..|row| + n] == reg[..n]
  {
    var o := (reg + Fill(k, false))[..k];
    assert Delayed(row, o)[|row|..|row| + n] == o[..n];
  }
}
