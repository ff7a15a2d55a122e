/** What runs of clocks do to a scan chain. */
module ChainLaws {
  import opened Bits
  import opened Scan
  import opened DebugUnit
  import Tap

  const TMS_HIGH: Pin := Pin(true, false, false)
  const TMS_LOW: Pin := Pin(false, false, false)

  /** The clocks that shift a stream; `last` raises TMS with the final bit */
  function StreamPins(s: Stream, last: bool): (p: seq<Pin>)
    ensures |p| == |s|
    ensures forall i :: 0 <= i < |s| ==> p[i] == Pin(last && i == |s| - 1, s[i], false)
  {
    seq(|s|, i requires 0 <= i < |s| => Pin(last && i == |s| - 1, s[i], false))
  }

  lemma StreamPinsStep(s: Stream, last: bool)
    requires s != []
    ensures StreamPins(s, last)[0] == Pin(last && |s| == 1, s[0], false)
    ensures StreamPins(s, last)[1..] == StreamPins(s[1..], last)
  {
  }

  // --- single clocks ---

  /** Same devices and instructions */
  ghost predicate SameDevices(a: Chain, b: Chain) {
    a.post == b.post && a.target == b.target && a.pre == b.pre
  }

  lemma ShiftIrClock(h: Chain, p: Pin)
    requires h.tap == Tap.ShiftIr && !p.trst
    ensures var n := Clock(h, p);
      && SameDevices(n, h) && n.ir == (h.ir + [p.tdi])[1..]
      && n.tap == if p.tms then Tap.Exit1Ir else Tap.ShiftIr
  {
    hide ClockUnit, TargetTdi;
  }

  /** A clock in a state that moves no data */
  lemma QuietClock(h: Chain, p: Pin)
    requires h.tap !in {Tap.CaptureDr, Tap.ShiftDr, Tap.CaptureIr, Tap.ShiftIr, Tap.UpdateIr}
    requires !p.trst && Tap.Next(h.tap, p.tms) != Tap.TestLogicReset
    ensures var n := Clock(h, p);
      SameDevices(n, h) && n.ir == h.ir && n.tap == Tap.Next(h.tap, p.tms)
  {
    hide ClockUnit, TargetTdi;
  }

  lemma CaptureIrClock(h: Chain, p: Pin)
    requires h.tap == Tap.CaptureIr && !p.trst
    ensures var n := Clock(h, p);
      SameDevices(n, h) && |n.ir| == IrLength(h.Devices()) && n.tap == Tap.Next(h.tap, p.tms)
  {
    hide ClockUnit, TargetTdi;
  }

  lemma UpdateIrClock(h: Chain, p: Pin)
    requires h.tap == Tap.UpdateIr && !p.trst && |h.ir| == IrLength(h.Devices())
    ensures var n := Clock(h, p);
      n.Devices() == LoadAll(h.Devices(), h.ir) && |n.post| == |h.post| && n.tap == Tap.Next(h.tap, p.tms)
  {
    hide ClockUnit, TargetTdi;
    var devs := LoadAll(h.Devices(), h.ir);
    assert devs == devs[..|h.post|] + [devs[|h.post|]] + devs[|h.post| + 1..];
  }

  // --- instruction scans ---

  /** Shifting a stream through the instruction registers leaves its last bits in them */
  lemma {:induction false} ShiftIrStream(h: Chain, s: Stream, last: bool)
    requires h.tap == Tap.ShiftIr
    ensures var n := After(h, StreamPins(s, last));
      && SameDevices(n, h) && n.ir == (h.ir + s)[|s|..]
      && n.tap == if last && s != [] then Tap.Exit1Ir else Tap.ShiftIr
    decreases s
  {
    hide Clock, StreamPins;
    var pins := StreamPins(s, last);
    if s == [] {
      assert pins == [];
    } else {
      StreamPinsStep(s, last);
      var n := Clock(h, pins[0]);
      ShiftIrClock(h, pins[0]);
      if |s| == 1 {
        assert s[1..] == [] && pins[1..] == [];
        assert (h.ir + s)[1..] == n.ir;
      } else {
        ShiftIrStream(n, s[1..], last);
      }
    }
  }

  /** The clocks of an instruction scan from and back to Run-Test/Idle */
  function IrScan(s: Stream): seq<Pin> {
    [TMS_HIGH, TMS_HIGH, TMS_LOW, TMS_LOW] + StreamPins(s, true) + [TMS_HIGH, TMS_LOW]
  }

  lemma After2(h: Chain, a: Pin, b: Pin)
    ensures After(h, [a, b]) == Clock(Clock(h, a), b)
  {
    hide *;
    AfterCons(h, [a, b]);
    assert [a, b][1..] == [b];
    AfterOne(Clock(h, a), b);
  }

  lemma After3(h: Chain, a: Pin, b: Pin, c: Pin)
    ensures After(h, [a, b, c]) == Clock(Clock(Clock(h, a), b), c)
  {
    hide *;
    AfterCons(h, [a, b, c]);
    assert [a, b, c][1..] == [b, c];
    After2(Clock(h, a), b, c);
  }

  lemma After4(h: Chain, a: Pin, b: Pin, c: Pin, d: Pin)
    ensures After(h, [a, b, c, d]) == Clock(Clock(Clock(Clock(h, a), b), c), d)
  {
    hide *;
    AfterCons(h, [a, b, c, d]);
    assert [a, b, c, d][1..] == [b, c, d];
    After3(Clock(h, a), b, c, d);
  }

  lemma EnterShiftIr(h: Chain)
    requires h.tap == Tap.RunTestIdle
    ensures var n := After(h, [TMS_HIGH, TMS_HIGH, TMS_LOW, TMS_LOW]);
      SameDevices(n, h) && |n.ir| == IrLength(h.Devices()) && n.tap == Tap.ShiftIr
  {
    hide Clock, IrLength;
    After4(h, TMS_HIGH, TMS_HIGH, TMS_LOW, TMS_LOW);
    var a := Clock(h, TMS_HIGH);
    var b := Clock(a, TMS_HIGH);
    var c := Clock(b, TMS_LOW);
    QuietClock(h, TMS_HIGH);
    QuietClock(a, TMS_HIGH);
    QuietClock(b, TMS_LOW);
    CaptureIrClock(c, TMS_LOW);
  }

  /** An instruction scan as long as all instruction registers together loads them all */
  lemma IrScanLoads(h: Chain, s: Stream)
    requires h.tap == Tap.RunTestIdle && |s| == IrLength(h.Devices()) > 0
    ensures var n := After(h, IrScan(s));
      n.Devices() == LoadAll(h.Devices(), s) && |n.post| == |h.post| && n.tap == Tap.RunTestIdle
  {
    hide Clock, IrLength, LoadAll, StreamPins, After;
    var head, body, tail := [TMS_HIGH, TMS_HIGH, TMS_LOW, TMS_LOW], StreamPins(s, true), [TMS_HIGH, TMS_LOW];
    AfterAppend(h, head + body, tail);
    AfterAppend(h, head, body);
    EnterShiftIr(h);
    var a := After(h, head);
    ShiftIrStream(a, s, true);
    var b := After(a, body);
    assert b.ir == s;
    assert b.Devices() == h.Devices();
    After2(b, TMS_HIGH, TMS_LOW);
    QuietClock(b, TMS_HIGH);
    UpdateIrClock(Clock(b, TMS_HIGH), TMS_LOW);
  }

  /** `d` with another instruction */
  function Instructed(d: Device, code: Stream): Device {
    d.(inst := Loaded(code))
  }

  lemma IrLengthAppend(a: seq<Device>, b: seq<Device>)
    ensures IrLength(a + b) == IrLength(a) + IrLength(b)
  {
    if a == [] {
      assert a + b == b;
    } else {
      assert (a + b)[1..] == a[1..] + b;
      IrLengthAppend(a[1..], b);
    }
  }

  lemma {:induction false} LoadAllAppend(a: seq<Device>, b: seq<Device>, s: Stream, t: Stream)
    requires |s| == IrLength(a) && |t| == IrLength(b)
    ensures IrLength(a + b) == |s + t|
    ensures LoadAll(a + b, s + t) == LoadAll(a, s) + LoadAll(b, t)
    decreases a
  {
    hide LoadAll, IrLength;
    IrLengthAppend(a, b);
    if a == [] {
      LoadNothing(s);
      assert a + b == b && s + t == t;
    } else {
      var n := a[0].irLength;
      LoadAllCons(a, s);
      assert (a + b)[1..] == a[1..] + b;
      SplitAt(s, t, n);
      LoadAllAppend(a[1..], b, s[n..], t);
      LoadAllCons(a + b, s + t);
    }
  }

  lemma LoadNothing(s: Stream)
    requires |s| == IrLength([])
    ensures s == [] && LoadAll([], s) == []
  {
  }

  lemma SplitAt(s: Stream, t: Stream, n: nat)
    requires n <= |s|
    ensures (s + t)[n..] == s[n..] + t && (s + t)[..n] == s[..n]
  {
  }

  lemma LoadAllCons(a: seq<Device>, s: Stream)
    requires a != [] && |s| == IrLength(a)
    ensures a[0].irLength <= |s| && |s[a[0].irLength..]| == IrLength(a[1..])
    ensures LoadAll(a, s) == [Instructed(a[0], s[..a[0].irLength])] + LoadAll(a[1..], s[a[0].irLength..])
  {
  }

  /** All ones put every device of a row in BYPASS */
  lemma {:induction false} LoadAllOnes(devs: seq<Device>)
    ensures LoadAll(devs, Fill(IrLength(devs), true)) == Bypassed(devs)
    decreases devs
  {
    if devs != [] {
      var n := devs[0].irLength;
      var all := Fill(IrLength(devs), true);
      assert all[..n] == Fill(n, true) && all[n..] == Fill(IrLength(devs[1..]), true);
      LoadAllOnes(devs[1..]);
      assert Bypassed(devs) == [Instructed(devs[0], Fill(n, true))] + Bypassed(devs[1..]);
    }
  }

  function Bypassed(devs: seq<Device>): (r: seq<Device>)
    ensures |r| == |devs|
    ensures forall i :: 0 <= i < |devs| ==> r[i] == Instructed(devs[i], Fill(devs[i].irLength, true))
  {
    seq(|devs|, i requires 0 <= i < |devs| => Instructed(devs[i], Fill(devs[i].irLength, true)))
  }

  /** The stream that gives the target `code` and every other device all ones */
  function IrStream(h: Chain, code: Stream): Stream {
    Fill(IrLength(h.post), true) + code + Fill(IrLength(h.pre), true)
  }

  /** Scanning that stream does exactly that, for any chain and any position of the target */
  lemma IrScanTargets(h: Chain, code: Stream)
    requires h.tap == Tap.RunTestIdle && 0 < |code| == h.target.irLength
    ensures var n := After(h, IrScan(IrStream(h, code)));
      && n.tap == Tap.RunTestIdle && n.target == Instructed(h.target, code)
      && n.post == Bypassed(h.post) && n.pre == Bypassed(h.pre)
  {
    hide After, Bypassed;
    var p, q := Fill(IrLength(h.post), true), Fill(IrLength(h.pre), true);
    var one := [h.target];
    assert one[1..] == [];
    assert IrLength(one) == |code|;
    IrLengthAppend(h.post + one, h.pre);
    IrLengthAppend(h.post, one);
    IrScanLoads(h, p + code + q);
    LoadAllAppend(h.post + one, h.pre, p + code, q);
    LoadAllAppend(h.post, one, p, code);
    LoadAllOnes(h.post);
    LoadAllOnes(h.pre);
    assert code[..|code|] == code;
    assert LoadAll(one, code) == [Instructed(h.target, code)];
    var n := After(h, IrScan(p + code + q));
    SameParts(n.post, n.target, n.pre, Bypassed(h.post), Instructed(h.target, code), Bypassed(h.pre));
  }

  lemma SameParts(a: seq<Device>, b: Device, c: seq<Device>, x: seq<Device>, y: Device, z: seq<Device>)
    requires a + [b] + c == x + [y] + z && |a| == |x|
    ensures a == x && b == y && c == z
  {
    assert a == (a + [b] + c)[..|a|] && x == (x + [y] + z)[..|a|];
    assert b == (a + [b] + c)[|a|] && y == (x + [y] + z)[|a|];
    assert c == (a + [b] + c)[|a| + 1..] && z == (x + [y] + z)[|a| + 1..];
  }

  // --- what no clock changes ---

  /** The parts of a device fixed by its silicon */
  ghost predicate SameSilicon(a: seq<Device>, b: seq<Device>) {
    && |a| == |b|
    && forall i :: 0 <= i < |a| ==>
         && a[i].irLength == b[i].irLength && a[i].idcode == b[i].idcode && a[i].idCommand == b[i].idCommand
         && a[i].debugCode == b[i].debugCode
  }

  ghost predicate SameBoard(a: Chain, b: Chain) {
    SameSilicon(a.post, b.post) && SameSilicon([a.target], [b.target]) && SameSilicon(a.pre, b.pre)
  }

  lemma SameBoardSelf(a: Chain)
    ensures SameBoard(a, a)
  {
  }

  lemma SameBoardTrans(a: Chain, b: Chain, c: Chain)
    requires SameBoard(a, b) && SameBoard(b, c)
    ensures SameBoard(a, c)
  {
  }

  lemma {:induction false} ShiftRowSilicon(devs: seq<Device>, tdi: bool)
    ensures SameSilicon(ShiftRow(devs, tdi).0, devs)
    ensures forall i :: 0 <= i < |devs| ==> ShiftRow(devs, tdi).0[i].inst == devs[i].inst
    decreases devs
  {
    if devs != [] { ShiftRowSilicon(devs[1..], tdi); }
  }

  lemma {:induction false} LoadAllSilicon(devs: seq<Device>, ir: Stream)
    requires |ir| == IrLength(devs)
    ensures SameSilicon(LoadAll(devs, ir), devs)
    decreases devs
  {
    if devs != [] { LoadAllSilicon(devs[1..], ir[devs[0].irLength..]); }
  }

  lemma {:induction false} IrLengthSilicon(a: seq<Device>, b: seq<Device>)
    requires SameSilicon(a, b)
    ensures IrLength(a) == IrLength(b)
    decreases a
  {
    if a != [] { IrLengthSilicon(a[1..], b[1..]); }
  }

  lemma ActBoard(h: Chain, tdi: bool)
    ensures SameBoard(Act(h, tdi), h)
  {
    hide UnitTdo, TargetTdo, TargetTdi, IrLength, LoadAll, ShiftRow, CapturedIr;
    if h.tap == Tap.ShiftDr {
      ShiftRowSilicon(h.pre, tdi);
      ShiftRowSilicon(h.post, TargetTdo(h, TargetTdi(h, tdi)));
    } else if h.tap == Tap.UpdateIr && |h.ir| == IrLength(h.Devices()) {
      LoadAllSilicon(h.Devices(), h.ir);
    }
  }

  lemma ClockBoard(h: Chain, p: Pin)
    ensures SameBoard(Clock(h, p), h)
  {
    hide Act, ClockUnit, TargetTdi;
    ActBoard(h, p.tdi);
  }

  /** No run of clocks changes how many devices there are or what they are */
  lemma {:induction false} AfterBoard(h: Chain, pins: seq<Pin>)
    ensures SameBoard(After(h, pins), h)
    decreases pins
  {
    hide Clock;
    if pins != [] {
      ClockBoard(h, pins[0]);
      AfterBoard(Clock(h, pins[0]), pins[1..]);
    }
  }

  // --- reset ---

  ghost predicate AllReset(h: Chain) {
    && (forall i :: 0 <= i < |h.post| ==> h.post[i].inst == AfterReset)
    && h.target.inst == AfterReset
    && (forall i :: 0 <= i < |h.pre| ==> h.pre[i].inst == AfterReset)
  }

  lemma HighClock(h: Chain)
    ensures Clock(h, TMS_HIGH).tap == Tap.Next(h.tap, true)
    ensures Clock(h, TMS_HIGH).tap == Tap.TestLogicReset ==> AllReset(Clock(h, TMS_HIGH))
  {
    hide Act, ClockUnit, TargetTdi;
  }

  lemma {:induction false} HighClocks(h: Chain, n: nat)
    requires Tap.DistanceToReset(h.tap) < n || (h.tap == Tap.TestLogicReset && AllReset(h))
    ensures var m := After(h, seq(n, _ => TMS_HIGH)); m.tap == Tap.TestLogicReset && AllReset(m)
    decreases n
  {
    hide Clock, AllReset;
    var pins := seq(n, _ => TMS_HIGH);
    if n == 0 {
      assert pins == [];
    } else {
      Tap.ResetNears(h.tap);
      HighClock(h);
      assert pins[1..] == seq(n - 1, _ => TMS_HIGH);
      HighClocks(Clock(h, TMS_HIGH), n - 1);
    }
  }

  lemma LeaveReset(h: Chain, trst: bool)
    requires h.tap in {Tap.TestLogicReset, Tap.RunTestIdle} && AllReset(h)
    ensures var n := Clock(h, Pin(false, false, trst));
      AllReset(n) && n.tap == if trst then Tap.TestLogicReset else Tap.RunTestIdle
  {
    hide ClockUnit, TargetTdi;
  }

  /** The clocks of a reset: one idle clock, eight with TMS high, one that pulls the reset line
      where it is wired, one idle clock */
  function ResetPins(trstWired: bool): seq<Pin> {
    [TMS_LOW] + seq(8, _ => TMS_HIGH) + [Pin(false, false, trstWired), TMS_LOW]
  }

  /** From any state, with or without a reset line, a reset ends in Run-Test/Idle with the
      reset instruction in every device */
  lemma ResetReachesIdle(h: Chain, trstWired: bool)
    ensures var n := After(h, ResetPins(trstWired));
      n.tap == Tap.RunTestIdle && AllReset(n) && SameBoard(n, h)
  {
    hide Clock, After, AllReset, SameBoard;
    var high, pull := seq(8, _ => TMS_HIGH), Pin(false, false, trstWired);
    AfterBoard(h, ResetPins(trstWired));
    AfterAppend(h, [TMS_LOW] + high, [pull, TMS_LOW]);
    AfterAppend(h, [TMS_LOW], high);
    var a := After(h, [TMS_LOW]);
    Tap.ResetNears(a.tap);
    HighClocks(a, 8);
    var b := After(a, high);
    After2(b, pull, TMS_LOW);
    LeaveReset(b, trstWired);
    LeaveReset(Clock(b, pull), false);
  }

  // --- data scans ---

  /** The clocks from Run-Test/Idle to Shift-DR */
  const TO_SHIFT_DR: seq<Pin> := [TMS_HIGH, TMS_LOW, TMS_LOW]

  lemma CaptureDrClock(h: Chain, p: Pin)
    requires h.tap == Tap.CaptureDr && !p.trst
    ensures var n := Clock(h, p);
      && n.post == CaptureAll(h.post) && n.target == h.target.Capture() && n.pre == CaptureAll(h.pre)
      && n.tap == Tap.Next(h.tap, p.tms)
      && n.unit == ClockUnit(h.unit, h.Debugging(), Tap.CaptureDr, TargetTdi(h, p.tdi))
  {
    hide ClockUnit, TargetTdi, CaptureAll;
  }

  /** Entering a data scan captures every device's selected register */
  lemma EnterShiftDr(h: Chain)
    requires h.tap == Tap.RunTestIdle
    ensures var n := After(h, TO_SHIFT_DR);
      && n.post == CaptureAll(h.post) && n.target == h.target.Capture() && n.pre == CaptureAll(h.pre)
      && n.tap == Tap.ShiftDr
  {
    hide Clock, CaptureAll, ClockUnit, TargetTdi;
    After3(h, TMS_HIGH, TMS_LOW, TMS_LOW);
    var a := Clock(h, TMS_HIGH);
    QuietClock(h, TMS_HIGH);
    QuietClock(a, TMS_LOW);
    CaptureDrClock(Clock(a, TMS_LOW), TMS_LOW);
  }

  /** All data registers in series while the debug unit is not selected */
  function Line(h: Chain): Stream {
    Stages(h.post) + (h.target.dr + Stages(h.pre))
  }

  /** With every device showing an identification or bypass register, the chain shifts like
      one register */
  lemma ShiftLine(h: Chain, p: Pin)
    requires h.tap == Tap.ShiftDr && !h.Debugging() && !p.trst
    ensures var n := Clock(h, p);
      && [ReadBack(h, p.tdi)] + Line(n) == Line(h) + [p.tdi]
      && !n.Debugging() && n.tap == if p.tms then Tap.Exit1Dr else Tap.ShiftDr
  {
    hide ClockUnit, UnitTdo, ShiftRow, Stages;
    var (pre, a) := ShiftRow(h.pre, p.tdi);
    var all := h.target.dr + [a];
    var (post, c) := ShiftRow(h.post, all[0]);
    ShiftRowStages(h.pre, p.tdi);
    ShiftRowStages(h.post, all[0]);
    Regroup(h.target.dr, a, Stages(pre), Stages(h.pre), p.tdi);
    JoinRows(c, Stages(post), Stages(h.post), all[0], all[1..] + Stages(pre), h.target.dr + Stages(h.pre), p.tdi);
  }

  lemma JoinRows(c: bool, after: Stream, before: Stream, mid: bool, restAfter: Stream, restBefore: Stream, tdi: bool)
    requires [c] + after == before + [mid]
    requires [mid] + restAfter == restBefore + [tdi]
    ensures [c] + (after + restAfter) == before + restBefore + [tdi]
  {
    assert [c] + (after + restAfter) == ([c] + after) + restAfter;
    assert (before + [mid]) + restAfter == before + ([mid] + restAfter);
    assert before + restBefore + [tdi] == before + (restBefore + [tdi]);
  }

  lemma JoinShifts(o: bool, out: Stream, line: Stream, next: Stream, last: Stream, b: bool, rest: Stream)
    requires [o] + next == line + [b]
    requires out + last == next + rest
    ensures [o] + out + last == line + ([b] + rest)
  {
    assert [o] + out + last == [o] + (out + last);
    assert [o] + (next + rest) == ([o] + next) + rest;
    assert line + [b] + rest == line + ([b] + rest);
  }

  lemma {:induction false} ShiftLineStream(h: Chain, s: Stream, last: bool)
    requires h.tap == Tap.ShiftDr && !h.Debugging()
    ensures var n := After(h, StreamPins(s, last));
      && Out(h, StreamPins(s, last)) + Line(n) == Line(h) + s
      && !n.Debugging() && n.tap == if last && s != [] then Tap.Exit1Dr else Tap.ShiftDr
    decreases s
  {
    hide Clock, ReadBack, Line, Device.Selected;
    var pins := StreamPins(s, last);
    if s == [] {
      AfterNone(h);
      assert pins == [];
    } else {
      StreamPinsStep(s, last);
      AfterCons(h, pins);
      var n := Clock(h, pins[0]);
      ShiftLine(h, pins[0]);
      assert s == [s[0]] + s[1..];
      if |s| == 1 {
        AfterNone(n);
        assert pins[1..] == [];
      } else {
        ShiftLineStream(n, s[1..], last);
      }
      hide After, Out;
      var m := After(n, pins[1..]);
      JoinShifts(ReadBack(h, pins[0].tdi), Out(n, pins[1..]), Line(h), Line(n), Line(m), s[0], s[1..]);
    }
  }
}
