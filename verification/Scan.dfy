/** A scan chain: devices in series between the cable's data output and its data input. */
module Scan {
  import opened Bits
  import opened Options
  import Tap
  import opened DebugUnit

  /** The instruction a device obeys: the one reset selects, or one it was given */
  datatype Instruction = AfterReset | Loaded(code: Stream)

  /** The data register an instruction puts between TDI and TDO */
  datatype Register = IdCode | Bypass | Debug

  /** A device, its current instruction and its shift stages.  `dr` is the identification
      or bypass register, the stage nearest TDO first; `idCommand` and `debugCode` are the
      instructions that select the identification register and the debug unit. */
  datatype Device = Device(irLength: nat, idcode: Option<Word>, idCommand: Option<Stream>, debugCode: Option<Stream>,
                           inst: Instruction, dr: Stream)
  {
    function Selected(): Register {
      match inst
      case AfterReset => if idcode.Some? then IdCode else Bypass
      case Loaded(code) =>
        if debugCode == Some(code) then Debug else if idcode.Some? && idCommand == Some(code) then IdCode else Bypass
    }

    /** Capture-DR */
    function Capture(): Device {
      match Selected()
      case IdCode => this.(dr := if idcode.Some? then idcode.value else [])
      case Bypass => this.(dr := [false])
      case Debug => this
    }
  }

  // --- registers in series ---

  /** The data registers of a row of devices as one register, the stage nearest TDO first */
  function Stages(devs: seq<Device>): Stream {
    if devs == [] then [] else devs[0].dr + Stages(devs[1..])
  }

  /** One Shift-DR clock through a row of devices fed with `tdi` */
  function ShiftRow(devs: seq<Device>, tdi: bool): (r: (seq<Device>, bool))
    ensures |r.0| == |devs|
  {
    if devs == [] then ([], tdi) else
      var (rest, mid) := ShiftRow(devs[1..], tdi);
      var all := devs[0].dr + [mid];
      ([devs[0].(dr := all[1..])] + rest, all[0])
  }

  /** A row of devices shifts like the one register made of their stages */
  lemma {:induction false} ShiftRowStages(devs: seq<Device>, tdi: bool)
    ensures var (after, tdo) := ShiftRow(devs, tdi);
      [tdo] + Stages(after) == Stages(devs) + [tdi]
  {
    if devs != [] {
      ShiftRowStages(devs[1..], tdi);
      var (rest, mid) := ShiftRow(devs[1..], tdi);
      var all := devs[0].dr + [mid];
      var d := devs[0].(dr := all[1..]);
      StagesCons(d, rest);
      Regroup(devs[0].dr, mid, Stages(rest), Stages(devs[1..]), tdi);
    }
  }

  lemma StagesCons(d: Device, rest: seq<Device>)
    ensures Stages([d] + rest) == d.dr + Stages(rest)
  {
    assert ([d] + rest)[1..] == rest;
  }

  lemma Regroup(a: Stream, mid: bool, after: Stream, before: Stream, tdi: bool)
    requires [mid] + after == before + [tdi]
    ensures [(a + [mid])[0]] + ((a + [mid])[1..] + after) == a + before + [tdi]
  {
    var all := a + [mid];
    assert [all[0]] + all[1..] == all;
    assert [all[0]] + (all[1..] + after) == all + after;
    assert all + after == a + ([mid] + after);
  }

  // --- the whole chain ---

  /** What the cable drives for one clock */
  datatype Pin = Pin(tms: bool, tdi: bool, trst: bool)

  /** A chain seen from the cable's data input: `post` lies between the target and the input,
      `pre` between the cable's data output and the target.  All controllers share TMS and TCK
      and so one state.  `ir` is the instruction registers of all devices in series. */
  datatype Chain = Chain(tap: Tap.State, ir: Stream, post: seq<Device>, target: Device, pre: seq<Device>, unit: Unit) {
    function Devices(): seq<Device> {
      post + [target] + pre
    }

    predicate Debugging() {
      target.Selected() == Debug
    }
  }

  function CaptureAll(devs: seq<Device>): (r: seq<Device>)
    ensures |r| == |devs|
    ensures forall i :: 0 <= i < |devs| ==> r[i] == devs[i].Capture()
  {
    seq(|devs|, i requires 0 <= i < |devs| => devs[i].Capture())
  }

  function ResetAll(devs: seq<Device>): (r: seq<Device>)
    ensures |r| == |devs|
    ensures forall i :: 0 <= i < |devs| ==> r[i] == devs[i].(inst := AfterReset)
  {
    seq(|devs|, i requires 0 <= i < |devs| => devs[i].(inst := AfterReset))
  }

  function IrLength(devs: seq<Device>): nat {
    if devs == [] then 0 else devs[0].irLength + IrLength(devs[1..])
  }

  /** Update-IR: every device takes its part of the instruction registers */
  function LoadAll(devs: seq<Device>, ir: Stream): (r: seq<Device>)
    requires |ir| == IrLength(devs)
    ensures |r| == |devs|
  {
    if devs == [] then [] else
      [devs[0].(inst := Loaded(ir[..devs[0].irLength]))] + LoadAll(devs[1..], ir[devs[0].irLength..])
  }

  /** What every device captures into its instruction register: a 1 in the stage nearest TDO */
  function CapturedIr(devs: seq<Device>): (s: Stream)
    ensures |s| == IrLength(devs)
  {
    if devs == [] then [] else
      seq(devs[0].irLength, i => i == 0) + CapturedIr(devs[1..])
  }

  /** The bit on TDI of the target while the row before it is fed with `tdi` */
  function TargetTdi(h: Chain, tdi: bool): bool {
    ShiftRow(h.pre, tdi).1
  }

  /** The bit the target passes on while it is fed with `a` */
  predicate TargetTdo(h: Chain, a: bool) {
    if h.Debugging() then UnitTdo(h.unit) else (h.target.dr + [a])[0]
  }

  function ShiftTarget(h: Chain, a: bool): Device {
    if h.Debugging() then h.target else h.target.(dr := (h.target.dr + [a])[1..])
  }

  /** One Shift-DR clock through the three parts of the chain */
  function ShiftChain(h: Chain, tdi: bool): Chain {
    var a := TargetTdi(h, tdi);
    h.(pre := ShiftRow(h.pre, tdi).0, target := ShiftTarget(h, a), post := ShiftRow(h.post, TargetTdo(h, a)).0)
  }

  /** The bit the cable reads back at a clock */
  predicate ReadBack(h: Chain, tdi: bool) {
    match h.tap
    case ShiftDr => ShiftRow(h.post, TargetTdo(h, TargetTdi(h, tdi))).1
    case ShiftIr => (h.ir + [tdi])[0]
    case _ => false
  }

  /** What happens at a clock edge apart from the change of state */
  function Act(h: Chain, tdi: bool): Chain {
    match h.tap
    case CaptureDr => h.(post := CaptureAll(h.post), target := h.target.Capture(), pre := CaptureAll(h.pre))
    case ShiftDr => ShiftChain(h, tdi)
    case CaptureIr => h.(ir := CapturedIr(h.Devices()))
    case ShiftIr => h.(ir := (h.ir + [tdi])[1..])
    case UpdateIr =>
      if |h.ir| != IrLength(h.Devices()) then h else
        var devs := LoadAll(h.Devices(), h.ir);
        h.(post := devs[..|h.post|], target := devs[|h.post|], pre := devs[|h.post| + 1..])
    case _ => h
  }

  /** Entering Test-Logic-Reset selects the reset instruction everywhere */
  function Enter(h: Chain, s: Tap.State): Chain {
    if s.TestLogicReset? then
      h.(tap := s, post := ResetAll(h.post), target := h.target.(inst := AfterReset), pre := ResetAll(h.pre))
    else h.(tap := s)
  }

  /** One clock of the chain */
  function Clock(h: Chain, p: Pin): Chain {
    var clocked := Act(h, p.tdi).(unit := ClockUnit(h.unit, h.Debugging(), h.tap, TargetTdi(h, p.tdi)));
    Enter(clocked, if p.trst then Tap.TestLogicReset else Tap.Next(h.tap, p.tms))
  }

  /** The chain after a run of clocks */
  function After(h: Chain, pins: seq<Pin>): Chain
    decreases pins
  {
    if pins == [] then h else After(Clock(h, pins[0]), pins[1..])
  }

  /** The bits read back during a run of clocks */
  function Out(h: Chain, pins: seq<Pin>): (s: Stream)
    ensures |s| == |pins|
    decreases pins
  {
    if pins == [] then [] else [ReadBack(h, pins[0].tdi)] + Out(Clock(h, pins[0]), pins[1..])
  }

  lemma {:induction false} AfterAppend(h: Chain, a: seq<Pin>, b: seq<Pin>)
    ensures After(h, a + b) == After(After(h, a), b)
    ensures Out(h, a + b) == Out(h, a) + Out(After(h, a), b)
    decreases a
  {
    hide Clock, ReadBack;
    if a == [] {
      assert a + b == b;
    } else {
      assert (a + b)[1..] == a[1..] + b;
      AfterAppend(Clock(h, a[0]), a[1..], b);
    }
  }

  lemma AfterCons(h: Chain, pins: seq<Pin>)
    requires pins != []
    ensures After(h, pins) == After(Clock(h, pins[0]), pins[1..])
    ensures Out(h, pins) == [ReadBack(h, pins[0].tdi)] + Out(Clock(h, pins[0]), pins[1..])
  {
    hide Clock, ReadBack;
  }

  lemma AfterNone(h: Chain)
    ensures After(h, []) == h && Out(h, []) == []
  {
  }

  lemma AfterOne(h: Chain, p: Pin)
    ensures After(h, [p]) == Clock(h, p)
    ensures Out(h, [p]) == [ReadBack(h, p.tdi)]
  {
    hide Clock, ReadBack;
    assert [p][1..] == [];
  }
}
