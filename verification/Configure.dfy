/** Setting up a chain: reset, enumeration, the lengths around the target, the debug instruction. */
module Configure {
  import opened Bits
  import opened Options
  import opened Scan
  import opened ChainLaws
  import opened UnitLaws
  import opened DataLaws
  import opened ChainCommands
  import opened AdvDbg
  import opened Enumerate
  import Tap

  /** An instruction register length given on the command line */
  datatype Override = Override(devIndex: nat, irLength: int)

  /** The last length given for a device, if any */
  function Given(overrides: seq<Override>, devidx: nat): Option<int> {
    if overrides == [] then None
    else
      var last := overrides[|overrides| - 1];
      if last.devIndex == devidx then Some(last.irLength) else Given(overrides[..|overrides| - 1], devidx)
  }

  /** The length on file for an identification code, -1 without one */
  function OnFile(bsdl: map<Word, int>, code: Word): int {
    if code != ONES && code in bsdl then bsdl[code] else -1
  }

  function IrSizeOf(bsdl: map<Word, int>, overrides: seq<Override>, code: Word, devidx: nat): int {
    match Given(overrides, devidx)
    case Some(n) => n
    case None => OnFile(bsdl, code)
  }

  /** Entry `k` is the last one for device `devidx` */
  predicate LastFor(overrides: seq<Override>, devidx: nat, k: int) {
    && 0 <= k < |overrides| && overrides[k].devIndex == devidx
    && forall j :: k < j < |overrides| ==> overrides[j].devIndex != devidx
  }

  /** The last entry for a device wins over the file, which is used without one */
  lemma {:induction false} IrSizeIs(bsdl: map<Word, int>, overrides: seq<Override>, code: Word, devidx: nat)
    ensures forall k :: LastFor(overrides, devidx, k) ==> IrSizeOf(bsdl, overrides, code, devidx) == overrides[k].irLength
    ensures (forall k :: 0 <= k < |overrides| ==> overrides[k].devIndex != devidx) ==>
      IrSizeOf(bsdl, overrides, code, devidx) == if code != ONES && code in bsdl then bsdl[code] else -1
    decreases overrides
  {
    if overrides != [] {
      var front := overrides[..|overrides| - 1];
      IrSizeIs(bsdl, front, code, devidx);
      if overrides[|overrides| - 1].devIndex != devidx {
        forall k | LastFor(overrides, devidx, k) ensures LastFor(front, devidx, k) {
        }
      }
    }
  }

  /** The length of a device's instruction register: what the command line says last, else what
      is on file */
  method GetIrSize(bsdl: map<Word, int>, overrides: seq<Override>, code: Word, devidx: nat) returns (size: int)
    ensures size == IrSizeOf(bsdl, overrides, code, devidx)
  {
    size := OnFile(bsdl, code);
    for i := 0 to |overrides|
      invariant size == IrSizeOf(bsdl, overrides[..i], code, devidx)
    {
      assert overrides[..i + 1][..i] == overrides[..i];
      if overrides[i].devIndex == devidx { size := overrides[i].irLength; }
    }
    assert overrides[..|overrides|] == overrides;
  }

  /** The debug instruction of devices by identification code, on file and for internal scan
      cells, and the one given on the command line, if any */
  datatype Commands = Commands(debug: map<Word, Word>, user1: map<Word, Word>, given: Option<Word>)

  const XILINX: Stream := FromNat(0x49, 11)

  /** The instruction that selects the debug unit: the one given, else the one on file, which for
      one manufacturer is that of the first user register */
  function DebugCmd(cmds: Commands, code: Word): Option<Word> {
    var file := if code[1..12] == XILINX then cmds.user1 else cmds.debug;
    if cmds.given.Some? then cmds.given else if code != ONES && code in file then Some(file[code]) else None
  }

  /** An instruction given wins; else a device of manufacturer 0x49 has the one in `user1` and any
      other the one in `debug`, if there is one */
  lemma DebugCmdIs(cmds: Commands, code: Word)
    ensures cmds.given.Some? ==> DebugCmd(cmds, code) == cmds.given
    ensures cmds.given.None? && ToNat(code[1..12]) == 0x49 ==>
      DebugCmd(cmds, code) == if code != ONES && code in cmds.user1 then Some(cmds.user1[code]) else None
    ensures cmds.given.None? && ToNat(code[1..12]) != 0x49 ==>
      DebugCmd(cmds, code) == if code != ONES && code in cmds.debug then Some(cmds.debug[code]) else None
  {
    XilinxIs(code[1..12]);
    hide ToNat, FromNat;
  }

  lemma XilinxIs(field: Stream)
    requires |field| == 11
    ensures field == XILINX <==> ToNat(field) == 0x49
  {
    ElevenBits();
    ToFromNat(0x49, 11);
    FromToNat(field, 11);
  }

  lemma ElevenBits()
    ensures Pow2(11) == 2048
  {
    assert Pow2(8) == 256;
  }

  /** The sum of the lengths of devices `lo` up to `hi` */
  function Total(size: nat -> int, lo: nat, hi: nat): int
    decreases hi - lo
  {
    if hi <= lo then 0 else Total(size, lo, hi - 1) + size(hi - 1)
  }

  /** Lengths that agree with the silicon add up to the rows of registers around the target */
  lemma {:induction false} TotalIsIrLength(size: nat -> int, devs: seq<Device>, lo: nat, hi: nat)
    requires lo <= hi <= |devs|
    requires forall i :: lo <= i < hi ==> size(i) == devs[i].irLength
    ensures Total(size, lo, hi) == IrLength(devs[lo..hi])
    decreases hi - lo
  {
    if lo == hi {
      assert devs[lo..hi] == [];
    } else {
      TotalIsIrLength(size, devs, lo, hi - 1);
      assert devs[lo..hi] == devs[lo..hi - 1] + [devs[hi - 1]];
      IrLengthAppend(devs[lo..hi - 1], [devs[hi - 1]]);
      assert [devs[hi - 1]][1..] == [];
    }
  }

  /** The instruction that reaches the target: `ir`, or what packing makes of it.  Whatever the
      shift rule, every other device gets all ones. */
  lemma DeliveredIff(rule: ShiftRule, ir: Word, h: Chain, irSize: nat, irPrefix: nat, irPostfix: nat, drPrefix: nat,
                     drPostfix: nat)
    requires h.tap == Tap.RunTestIdle && 0 < irSize <= 32
    requires Configured(h, irSize, irPrefix, irPostfix, drPrefix, drPostfix)
    ensures var n := After(h, IrScan(PackedIr(rule, ir, irSize, irPrefix, irPostfix)));
      && n.tap == Tap.RunTestIdle && n.post == Bypassed(h.post) && n.pre == Bypassed(h.pre)
      && n.target == Instructed(h.target, PackedIr(rule, ir, irSize, irPrefix, irPostfix)[irPostfix..irPostfix + irSize])
      && (n.target == Instructed(h.target, ir[..irSize]) <==> IrExact(rule, ir, irSize, irPostfix))
  {
    hide After, IrScan, Bypassed, IrLength, PackedIr, MaskWraps;
    var s := PackedIr(rule, ir, irSize, irPrefix, irPostfix);
    var code := s[irPostfix..irPostfix + irSize];
    OnesAround(rule, ir, irSize, irPrefix, irPostfix);
    IrScanTargets(h, code);
    PackedIrCorrectIff(rule, ir, irSize, irPrefix, irPostfix);
    SameMiddle(Fill(irPostfix, true), code, ir[..irSize], Fill(irPrefix, true));
  }

  lemma OnesAround(rule: ShiftRule, ir: Word, irSize: nat, irPrefix: nat, irPostfix: nat)
    requires irSize <= 32
    ensures var s := PackedIr(rule, ir, irSize, irPrefix, irPostfix);
      s == Fill(irPostfix, true) + s[irPostfix..irPostfix + irSize] + Fill(irPrefix, true)
  {
    hide PackedIr, MaskWraps;
  }

  lemma SameMiddle(a: Stream, b: Stream, c: Stream, d: Stream)
    requires |b| == |c|
    ensures a + b + d == a + c + d <==> b == c
  {
    assert b == (a + b + d)[|a|..|a| + |b|] && c == (a + c + d)[|a|..|a| + |c|];
  }

  datatype Outcome = Done | NoTarget | NoLength | NoCommand

  /** What the host is told about the chain fits it: every device shows itself in enumeration,
      the target is where it is said to be, and every length is known */
  ghost predicate Described(h: Chain, targetPos: nat, bsdl: map<Word, int>, overrides: seq<Override>) {
    && targetPos == |h.post| && |h.Devices()| <= MAX_DEVICES
    && (forall i :: 0 <= i < |h.Devices()| ==> !LooksLikeEnd(h.Devices()[i]))
    && forall i :: 0 <= i < |h.Devices()| ==>
         IrSizeOf(bsdl, overrides, Code(h.Devices()[i]), i) == h.Devices()[i].irLength
  }

  lemma DescribedStays(h: Chain, n: Chain, targetPos: nat, bsdl: map<Word, int>, overrides: seq<Override>)
    requires SameBoard(n, h)
    ensures Described(h, targetPos, bsdl, overrides) ==> Described(n, targetPos, bsdl, overrides)
    ensures Standard(h.Devices()) ==> Standard(n.Devices())
  {
    SameDeviceData(h, n);
    hide IrSizeOf, Chain.Devices;
  }

  lemma SameDeviceData(h: Chain, n: Chain)
    requires SameBoard(n, h)
    ensures |h.post| == |n.post| && |h.Devices()| == |n.Devices()|
    ensures forall i :: 0 <= i < |h.Devices()| ==>
      h.Devices()[i].idcode == n.Devices()[i].idcode && h.Devices()[i].irLength == n.Devices()[i].irLength
  {
    assert [n.target][0] == n.target && [h.target][0] == h.target;
  }

  /** All devices of a described chain are detected */
  lemma DescribedCodes(h: Chain, targetPos: nat, bsdl: map<Word, int>, overrides: seq<Override>)
    requires Described(h, targetPos, bsdl, overrides)
    ensures var codes := Detected(h.Devices(), MAX_DEVICES);
      && |codes| == |h.Devices()| && targetPos < |codes|
      && forall i :: 0 <= i < |codes| ==> IrSizeOf(bsdl, overrides, codes[i], i) == h.Devices()[i].irLength
  {
    hide LooksLikeEnd, Code, IrSizeOf, Detected;
    CompleteIff(h.Devices());
  }

  /** The lengths of enumerated devices by position */
  function Lengths(bsdl: map<Word, int>, overrides: seq<Override>, codes: seq<Word>): nat -> int {
    (i: nat) => if i < |codes| then IrSizeOf(bsdl, overrides, codes[i], i) else 0
  }

  /** A target in the chain and a length for every device */
  ghost predicate Usable(codes: seq<Word>, targetPos: nat, size: nat -> int) {
    targetPos < |codes| && forall i :: 0 <= i < |codes| ==> size(i) >= 0
  }

  /** Works out how many bits and devices lie on either side of the target */
  method MeasureChain(host: Host, targetPos: nat, bsdl: map<Word, int>, overrides: seq<Override>, codes: seq<Word>)
    returns (r: Outcome)
    modifies host`irSize, host`irPrefix, host`irPostfix, host`drPrefix, host`drPostfix
    ensures (r.NoTarget? <==> targetPos >= |codes|) && !r.NoCommand?
    ensures r.Done? <==> Usable(codes, targetPos, Lengths(bsdl, overrides, codes))
    ensures r.Done? ==> var size := Lengths(bsdl, overrides, codes);
      && host.irSize == size(targetPos)
      && host.irPostfix == Total(size, 0, targetPos) && host.irPrefix == Total(size, targetPos + 1, |codes|)
      && host.drPostfix == targetPos && host.drPrefix == |codes| - targetPos - 1
  {
    hide IrSizeOf;
    if targetPos >= |codes| { return NoTarget; }
    ghost var size := Lengths(bsdl, overrides, codes);
    var n := GetIrSize(bsdl, overrides, codes[targetPos], targetPos);
    assert n == size(targetPos);
    if n < 0 { return NoLength; }
    host.irSize := n;
    var total := 0;
    for i := 0 to |codes|
      invariant host.irSize == n == size(targetPos) && total >= 0
      invariant forall k :: 0 <= k < i ==> size(k) >= 0
      invariant i <= targetPos ==> total == Total(size, 0, i)
      invariant i > targetPos ==> total == Total(size, targetPos + 1, i) && host.irPostfix == Total(size, 0, targetPos)
    {
      if i == targetPos {
        host.irPostfix := total;
        total := 0;
        continue;
      }
      var k := GetIrSize(bsdl, overrides, codes[i], i);
      assert k == size(i);
      if k < 0 { return NoLength; }
      total := total + k;
    }
    host.irPrefix := total;
    host.drPrefix := |codes| - targetPos - 1;
    host.drPostfix := targetPos;
    return Done;
  }

  /** Measured against a described chain the lengths are right */
  lemma MeasuredIsConfigured(h: Chain, targetPos: nat, bsdl: map<Word, int>, overrides: seq<Override>)
    requires Described(h, targetPos, bsdl, overrides)
    ensures var codes := Detected(h.Devices(), MAX_DEVICES); var size := Lengths(bsdl, overrides, codes);
      && Usable(codes, targetPos, size) && size(targetPos) == h.target.irLength
      && Total(size, 0, targetPos) == IrLength(h.post) && Total(size, targetPos + 1, |codes|) == IrLength(h.pre)
      && targetPos == |h.post| && |codes| - targetPos - 1 == |h.pre|
  {
    hide IrSizeOf, Detected, Described, IrLength, Total;
    var devs := h.Devices();
    var codes := Detected(devs, MAX_DEVICES);
    var size := Lengths(bsdl, overrides, codes);
    DescribedCodes(h, targetPos, bsdl, overrides);
    assert targetPos == |h.post| by { DescribedTarget(h, targetPos, bsdl, overrides); }
    assert forall i :: 0 <= i < |devs| ==> size(i) == devs[i].irLength;
    TotalIsIrLength(size, devs, 0, targetPos);
    TotalIsIrLength(size, devs, targetPos + 1, |codes|);
    assert devs[0..targetPos] == h.post && devs[targetPos + 1..|codes|] == h.pre && devs[targetPos] == h.target;
  }

  lemma DescribedTarget(h: Chain, targetPos: nat, bsdl: map<Word, int>, overrides: seq<Override>)
    requires Described(h, targetPos, bsdl, overrides)
    ensures targetPos == |h.post|
  {
  }

  lemma ConfiguredIs(h: Chain)
    ensures Configured(h, h.target.irLength, IrLength(h.pre), IrLength(h.post), |h.pre|, |h.post|)
  {
  }

  /** The debug unit is selected exactly when its instruction was delivered */
  lemma SelectingIff(h: Chain, n: Chain, debugCmd: Word)
    requires Debuggable(h, debugCmd) && n.post == Bypassed(h.post) && n.pre == Bypassed(h.pre)
    requires exists code: Stream :: n.target == Instructed(h.target, code)
    ensures Selecting(n) <==> n.target == Instructed(h.target, debugCmd[..h.target.irLength])
    ensures |n.pre| == |h.pre| && |n.post| == |h.post|
  {
  }

  lemma {:induction false} DetectedSame(a: seq<Device>, b: seq<Device>, max: nat)
    requires |a| == |b| && forall i :: 0 <= i < |a| ==> a[i].idcode == b[i].idcode
    ensures Detected(a, max) == Detected(b, max)
    decreases max
  {
    if a != [] && max > 0 { DetectedSame(a[1..], b[1..], max - 1); }
  }

  lemma SameEntry(a: seq<Device>, b: seq<Device>, i: nat, above: Stream)
    requires |a| == |b| && forall i :: 0 <= i < |a| ==> a[i].idcode == b[i].idcode
    requires |above| == 21
    ensures Entry(a, i, above) == Entry(b, i, above)
  {
  }

  lemma DetectedStays(h: Chain, n: Chain)
    requires SameBoard(n, h)
    ensures Detected(n.Devices(), MAX_DEVICES) == Detected(h.Devices(), MAX_DEVICES)
  {
    SameDeviceData(h, n);
    DetectedSame(h.Devices(), n.Devices(), MAX_DEVICES);
  }

  lemma EnumeratedStays(h: Chain, n: Chain, above: Stream)
    requires SameBoard(n, h) && |above| == 21
    ensures Enumerated(n.Devices(), above) == Enumerated(h.Devices(), above)
  {
    hide Chain.Devices, Detected, Entry;
    SameDeviceData(h, n);
    DetectedStays(h, n);
    forall i: nat ensures Entry(n.Devices(), i, above) == Entry(h.Devices(), i, above) {
      SameEntry(h.Devices(), n.Devices(), i, above);
    }
  }

  lemma LengthsAt(bsdl: map<Word, int>, overrides: seq<Override>, codes: seq<Word>, i: nat)
    ensures i < |codes| ==> Lengths(bsdl, overrides, codes)(i) == IrSizeOf(bsdl, overrides, codes[i], i)
    ensures Usable(codes, i, Lengths(bsdl, overrides, codes)) ==> i < |codes|
  {
    hide IrSizeOf;
  }

  /** The last step of configuration: the debug instruction on a measured chain */
  lemma DebugReached(rule: ShiftRule, b: Chain, debugCmd: Word, irSize: nat, irPrefix: nat, irPostfix: nat,
                     drPrefix: nat, drPostfix: nat)
    requires b.tap == Tap.RunTestIdle && Debuggable(b, debugCmd)
    requires Configured(b, irSize, irPrefix, irPostfix, drPrefix, drPostfix)
    ensures irSize > 0
    ensures var n := After(b, IrScan(PackedIr(rule, debugCmd, irSize, irPrefix, irPostfix)));
      && Configured(n, irSize, irPrefix, irPostfix, drPrefix, drPostfix) && SameBoard(n, b)
      && (Selecting(n) <==> IrExact(rule, debugCmd, irSize, irPostfix))
  {
    hide *;
    DebuggableRange(b, debugCmd);
    ConfiguredParts(b, irSize, irPrefix, irPostfix, drPrefix, drPostfix);
    DeliveredIff(rule, debugCmd, b, irSize, irPrefix, irPostfix, drPrefix, drPostfix);
    var pins := IrScan(PackedIr(rule, debugCmd, irSize, irPrefix, irPostfix));
    var n := After(b, pins);
    SelectingIff(b, n, debugCmd);
    AfterBoard(b, pins);
    ConfiguredStays(b, n, irSize, irPrefix, irPostfix, drPrefix, drPostfix);
  }

  lemma DebuggableRange(h: Chain, cmd: Word)
    requires Debuggable(h, cmd)
    ensures 0 < h.target.irLength <= 32
  {
  }

  // --- reading the identification code again ---

  /** The target answers `cmd` with its identification code */
  ghost predicate Identifies(h: Chain, cmd: Word) {
    && 0 < h.target.irLength <= 32 && h.target.idcode.Some? && h.target.idCommand == Some(cmd[..h.target.irLength])
    && h.target.debugCode != Some(cmd[..h.target.irLength]) && RowBypassable(h.pre) && RowBypassable(h.post)
  }

  /** The target's code can be read through `idCmd`, if that is given */
  ghost predicate IdReadable(host: Host, h: Chain, idCmd: Option<Word>)
    reads host`irSize, host`irPostfix
  {
    idCmd.Some? ==> Identifies(h, idCmd.value) && IrExact(host.rule, idCmd.value, host.irSize, host.irPostfix)
  }

  /** The stages of a row of bypassed devices once captured */
  lemma {:induction false} BypassedRow(devs: seq<Device>)
    requires RowBypassable(devs)
    ensures Stages(CaptureAll(Bypassed(devs))) == Fill(|devs|, false)
    decreases devs
  {
    if devs != [] {
      var row := Bypassed(devs);
      BypassedRow(devs[1..]);
      assert row[1..] == Bypassed(devs[1..]);
      assert CaptureAll(row)[1..] == CaptureAll(row[1..]);
      assert row[0].Selected() == Bypass;
      assert CaptureAll(row)[0].dr == [false];
      assert Fill(|devs|, false) == [false] + Fill(|devs| - 1, false);
    }
  }

  /** A data scan comes back to Run-Test/Idle whatever is scanned */
  lemma DrScanEnds(h: Chain, s: Stream)
    requires h.tap == Tap.RunTestIdle && s != []
    ensures var n := After(h, TO_SHIFT_DR); var m := After(n, StreamPins(s, true));
      After(m, [TMS_HIGH, TMS_LOW]).tap == Tap.RunTestIdle && n.tap == Tap.ShiftDr
  {
    hide Clock, StreamPins, After, Out, Line, Stages, UnitShifted, UnitOut, Delayed;
    EnterShiftDr(h);
    var n := After(h, TO_SHIFT_DR);
    if n.Debugging() { ShiftDebugStream(n, s, true); } else { ShiftLineStream(n, s, true); }
    var m := After(n, StreamPins(s, true));
    After2(m, TMS_HIGH, TMS_LOW);
    TapClock(m, TMS_HIGH);
    TapClock(Clock(m, TMS_HIGH), TMS_LOW);
  }

  /** A target that obeys its identification instruction shows its code behind one bit for every
      device after it */
  lemma IdCodeComes(h: Chain, b: Chain, cmd: Word, s: Stream)
    requires Identifies(b, cmd) && h.tap == Tap.RunTestIdle && SameBoard(h, b)
    requires h.post == Bypassed(b.post) && h.pre == Bypassed(b.pre)
    requires h.target == Instructed(b.target, cmd[..b.target.irLength])
    requires |s| >= |b.post| + 32
    ensures var n := After(h, TO_SHIFT_DR); Out(n, StreamPins(s, true))[|b.post|..|b.post| + 32] == b.target.idcode.value
  {
    hide After, Out, StreamPins, Bypassed, RowBypassable, CaptureAll;
    EnterShiftDr(h);
    var n := After(h, TO_SHIFT_DR);
    BypassedRow(b.post);
    var v := b.target.idcode.value;
    assert h.target.Selected() == IdCode;
    assert n.target.dr == v;
    assert !n.Debugging();
    var rest := Stages(n.pre);
    assert Line(n) == Fill(|b.post|, false) + (v + rest);
    ShiftLineStream(n, s, true);
    var out, later := Out(n, StreamPins(s, true)), Line(After(n, StreamPins(s, true)));
    hide Line, Stages;
    Middle32(out, later, Fill(|b.post|, false), v, rest, s);
  }

  lemma Middle32(out: Stream, later: Stream, a: Stream, v: Stream, rest: Stream, s: Stream)
    requires out + later == a + (v + rest) + s && |v| == 32 && |out| >= |a| + 32
    ensures out[|a|..|a| + 32] == v
  {
    assert out[|a|..|a| + 32] == (out + later)[|a|..|a| + 32];
  }

  /** Reads the target's identification code through its instruction */
  method JtagGetIdcode(host: Host, cmd: Word) returns (code: Stream)
    requires host.hw.tap == Tap.RunTestIdle && 0 < host.irSize <= 32
    requires host.irChain != null ==> host.irChain.Length == (host.irSize + host.irPrefix + host.irPostfix) / 32 + 1
    modifies host`hw, host`currentChain, host`irChain, host.irChain
    ensures host.hw.tap == Tap.RunTestIdle && SameBoard(host.hw, old(host.hw)) && |code| == 32
    ensures host.irChain != null && host.irChain.Length == (host.irSize + host.irPrefix + host.irPostfix) / 32 + 1
    ensures old(host.irChain) == null ==> fresh(host.irChain)
    ensures old(host.irChain) != null ==> host.irChain == old(host.irChain)
    ensures Configured(old(host.hw), host.irSize, host.irPrefix, host.irPostfix, host.drPrefix, host.drPostfix) ==>
      IdReadable(host, old(host.hw), Some(cmd)) ==> code == old(host.hw).target.idcode.value
  {
    hide *;
    ghost var b, packed := host.hw, PackedIr(host.rule, cmd, host.irSize, host.irPrefix, host.irPostfix);
    IrScanEnds(b, packed);
    AfterBoard(b, IrScan(packed));
    host.TapSetIr(cmd);
    ghost var h := host.hw;
    ghost var s := AdjustedStream(Fill(32, false), true, true, host.drPrefix, host.drPostfix);
    AdjustedIs(Fill(32, false), true, true, host.drPrefix, host.drPostfix);
    ShiftDrIs();
    AfterBoard(h, TO_SHIFT_DR);
    AfterBoard(After(h, TO_SHIFT_DR), StreamPins(s, true));
    AfterBoard(After(After(h, TO_SHIFT_DR), StreamPins(s, true)), [TMS_HIGH, TMS_LOW]);
    DrScanEnds(h, s);
    host.TapSetShiftDr();
    ghost var n := host.hw;
    code := host.JtagReadWriteStream(Fill(32, false), true, true);
    ghost var m := host.hw;
    host.TapExitToIdle();
    SameBoardTrans(m, n, h);
    SameBoardTrans(host.hw, m, h);
    SameBoardTrans(host.hw, h, b);
    if Configured(b, host.irSize, host.irPrefix, host.irPostfix, host.drPrefix, host.drPostfix)
       && IdReadable(host, b, Some(cmd)) {
      IdIs(host, b, Some(cmd));
      DeliveredIff(host.rule, cmd, b, host.irSize, host.irPrefix, host.irPostfix, host.drPrefix, host.drPostfix);
      ConfiguredParts(b, host.irSize, host.irPrefix, host.irPostfix, host.drPrefix, host.drPostfix);
      IdCodeComes(h, b, cmd, s);
    }
  }

  lemma ShiftDrIs()
    ensures TO_SHIFT_DR == [TMS_HIGH, TMS_LOW, TMS_LOW]
  {
  }

  lemma ConfiguredParts(h: Chain, irSize: nat, irPrefix: nat, irPostfix: nat, drPrefix: nat, drPostfix: nat)
    requires Configured(h, irSize, irPrefix, irPostfix, drPrefix, drPostfix)
    ensures irSize == h.target.irLength && drPostfix == |h.post|
  {
  }

  /** Measured right, with the debug unit selected exactly when packing keeps its instruction */
  ghost predicate Reached(host: Host, cmd: Word)
    reads host
  {
    && Configured(host.hw, host.irSize, host.irPrefix, host.irPostfix, host.drPrefix, host.drPostfix)
    && (Selecting(host.hw) <==> IrExact(host.rule, cmd, host.irSize, host.irPostfix))
  }

  lemma ReachedFrom(host: Host, cmd: Word)
    requires Configured(host.hw, host.irSize, host.irPrefix, host.irPostfix, host.drPrefix, host.drPostfix)
    requires Selecting(host.hw) <==> IrExact(host.rule, cmd, host.irSize, host.irPostfix)
    ensures Reached(host, cmd)
  {
  }

  lemma WhenClear(devs: seq<Device>)
    ensures Enumerated(devs, CLEAR) == Detected(devs, MAX_DEVICES)
  {
  }

  /** On a measured chain: reads the target's code again, if its instruction is known, and selects
      the debug unit */
  method SelectDebug(host: Host, id: Word, cmd: Word, idCmd: Option<Word>) returns (sane: bool)
    requires host.hw.tap == Tap.RunTestIdle && 0 < host.irSize <= 32 && host.irChain == null
    modifies host`hw, host`currentChain, host`irChain
    ensures host.hw.tap == Tap.RunTestIdle
    ensures Configured(old(host.hw), host.irSize, host.irPrefix, host.irPostfix, host.drPrefix, host.drPostfix) ==>
      && (Debuggable(old(host.hw), cmd) ==> Reached(host, cmd))
      && (idCmd.Some? && IdReadable(host, old(host.hw), idCmd) ==>
            old(host.hw).target.idcode.Some? && (sane <==> id == old(host.hw).target.idcode.value))
    ensures idCmd.None? ==> sane
  {
    hide *;
    ghost var b := host.hw;
    ghost var right := Configured(b, host.irSize, host.irPrefix, host.irPostfix, host.drPrefix, host.drPostfix);
    SameBoardSelf(b);
    sane := true;
    if idCmd.Some? {
      if IdReadable(host, b, idCmd) { IdIs(host, b, idCmd); }
      var code := JtagGetIdcode(host, idCmd.value);
      sane := code == id;
    }
    ghost var c := host.hw;
    if right {
      ConfiguredStays(b, c, host.irSize, host.irPrefix, host.irPostfix, host.drPrefix, host.drPostfix);
      if Debuggable(b, cmd) {
        DebuggableStays(b, c, cmd);
        DebugReached(host.rule, c, cmd, host.irSize, host.irPrefix, host.irPostfix, host.drPrefix, host.drPostfix);
      }
    }
    host.TapSetIr(cmd);
    IrScanEnds(c, PackedIr(host.rule, cmd, host.irSize, host.irPrefix, host.irPostfix));
    if right && Debuggable(b, cmd) { ReachedFrom(host, cmd); }
  }

  /** Resets and enumerates the chain, measures it around the target, reads the target's code again
      if its instruction is known, and selects the debug unit.  On a chain that is as described,
      enumerated through a variable that is clear above the manufacturer field, the code comes back,
      and the debug unit ends up selected and every other device bypassed exactly when packing keeps
      the debug instruction intact. */
  method ConfigureChain(host: Host, targetPos: nat, bsdl: map<Word, int>, overrides: seq<Override>, cmds: Commands,
                        idCmd: Option<Word>, manufCode: Word, restCode: Word) returns (r: Outcome, sane: bool)
    requires Standard(host.hw.Devices()) && host.irChain == null
    requires var codes := Enumerated(host.hw.Devices(), Above(host.clears, manufCode));
      targetPos < |codes| ==> 0 < IrSizeOf(bsdl, overrides, codes[targetPos], targetPos) <= 32
    modifies host
    ensures host.hw.tap == Tap.RunTestIdle
    ensures var codes := Enumerated(old(host.hw.Devices()), Above(host.clears, manufCode));
      r.Done? <==>
        && Usable(codes, targetPos, Lengths(bsdl, overrides, codes))
        && (cmds.given.Some?
            || (codes[targetPos] != ONES
                && codes[targetPos] in (if ToNat(codes[targetPos][1..12]) == 0x49 then cmds.user1 else cmds.debug)))
    ensures var h, code := old(host.hw), Code(old(host.hw).target);
      Above(host.clears, manufCode) == CLEAR && Described(h, targetPos, bsdl, overrides) ==>
      && (cmds.given.Some? && Debuggable(h, cmds.given.value) ==> r.Done? && Reached(host, cmds.given.value))
      && (cmds.given.None? && code != ONES && ToNat(code[1..12]) == 0x49 && code in cmds.user1 ==>
            Debuggable(h, cmds.user1[code]) ==> r.Done? && Reached(host, cmds.user1[code]))
      && (cmds.given.None? && code != ONES && ToNat(code[1..12]) != 0x49 && code in cmds.debug ==>
            Debuggable(h, cmds.debug[code]) ==> r.Done? && Reached(host, cmds.debug[code]))
    ensures Above(host.clears, manufCode) == CLEAR && Described(old(host.hw), targetPos, bsdl, overrides) ==>
      IdReadable(host, old(host.hw), idCmd) ==> sane
  {
    hide *;
    ghost var h := host.hw;
    ResetReachesIdle(h, host.trstWired);
    host.TapReset();
    ghost var a := host.hw;
    EnumeratedStays(h, a, Above(host.clears, manufCode));
    DescribedStays(h, a, targetPos, bsdl, overrides);
    var codes := JtagEnumerateChain(host, manufCode, restCode);
    ghost var b := host.hw;
    SameBoardTrans(b, a, h);
    r := MeasureChain(host, targetPos, bsdl, overrides, codes);
    sane := true;
    ghost var described := Above(host.clears, manufCode) == CLEAR && Described(h, targetPos, bsdl, overrides);
    if described {
      WhenClear(h.Devices());
      Measured(h, b, targetPos, bsdl, overrides);
      TargetCode(h, targetPos, bsdl, overrides);
    }
    LengthsAt(bsdl, overrides, codes, targetPos);
    if r.Done? {
      DebugCmdIs(cmds, codes[targetPos]);
      var cmd := DebugCmd(cmds, codes[targetPos]);
      if cmd.None? { return NoCommand, sane; }
      if described && Debuggable(h, cmd.value) { DebuggableStays(h, b, cmd.value); }
      if described && idCmd.Some? && IdReadable(host, h, idCmd) {
        IdIs(host, h, idCmd);
        IdentifiesStays(h, b, idCmd.value);
        IdFrom(host, b, idCmd.value);
      }
      sane := SelectDebug(host, codes[targetPos], cmd.value, idCmd);
    }
  }

  /** A described chain measured after enumeration */
  lemma Measured(h: Chain, b: Chain, targetPos: nat, bsdl: map<Word, int>, overrides: seq<Override>)
    requires Described(h, targetPos, bsdl, overrides) && SameBoard(b, h)
    ensures var codes := Detected(h.Devices(), MAX_DEVICES); var size := Lengths(bsdl, overrides, codes);
      && Usable(codes, targetPos, size) && size(targetPos) == h.target.irLength
      && Total(size, 0, targetPos) >= 0 && Total(size, targetPos + 1, |codes|) >= 0
      && Configured(b, h.target.irLength, Total(size, targetPos + 1, |codes|), Total(size, 0, targetPos),
                    |codes| - targetPos - 1, targetPos)
  {
    hide *;
    DescribedStays(h, b, targetPos, bsdl, overrides);
    DetectedStays(h, b);
    MeasuredIsConfigured(b, targetPos, bsdl, overrides);
    ConfiguredIs(b);
    SameTarget(h, b);
  }

  lemma SameTarget(h: Chain, b: Chain)
    requires SameBoard(b, h)
    ensures b.target.irLength == h.target.irLength && b.target.idcode == h.target.idcode
    ensures b.target.idCommand == h.target.idCommand && b.target.debugCode == h.target.debugCode
  {
    assert [b.target][0] == b.target && [h.target][0] == h.target;
  }

  lemma IdIs(host: Host, h: Chain, idCmd: Option<Word>)
    requires IdReadable(host, h, idCmd) && idCmd.Some?
    ensures Identifies(h, idCmd.value) && IrExact(host.rule, idCmd.value, host.irSize, host.irPostfix)
    ensures h.target.idcode.Some?
  {
    hide IrExact;
  }

  lemma IdFrom(host: Host, h: Chain, cmd: Word)
    requires Identifies(h, cmd) && IrExact(host.rule, cmd, host.irSize, host.irPostfix)
    ensures IdReadable(host, h, Some(cmd))
  {
    hide IrExact;
  }

  lemma IdentifiesStays(h: Chain, b: Chain, cmd: Word)
    requires Identifies(h, cmd) && SameBoard(b, h)
    ensures Identifies(b, cmd) && b.target.idcode == h.target.idcode
  {
    SameTarget(h, b);
  }

  lemma TargetCode(h: Chain, targetPos: nat, bsdl: map<Word, int>, overrides: seq<Override>)
    requires Described(h, targetPos, bsdl, overrides)
    ensures var codes := Detected(h.Devices(), MAX_DEVICES); targetPos < |codes| && codes[targetPos] == Code(h.target)
    ensures h.target.idcode.Some? ==> Code(h.target) == h.target.idcode.value
  {
    hide LooksLikeEnd, IrSizeOf, Detected;
    CompleteIff(h.Devices());
  }

  /** An instruction scan comes back to Run-Test/Idle whatever is scanned */
  lemma IrScanEnds(h: Chain, s: Stream)
    requires h.tap == Tap.RunTestIdle && s != []
    ensures After(h, IrScan(s)).tap == Tap.RunTestIdle
  {
    hide Clock, StreamPins, After, IrLength;
    var head, body := [TMS_HIGH, TMS_HIGH, TMS_LOW, TMS_LOW], StreamPins(s, true);
    AfterAppend(h, head + body, [TMS_HIGH, TMS_LOW]);
    AfterAppend(h, head, body);
    EnterShiftIr(h);
    ShiftIrStream(After(h, head), s, true);
    var b := After(After(h, head), body);
    After2(b, TMS_HIGH, TMS_LOW);
    TapClock(b, TMS_HIGH);
    TapClock(Clock(b, TMS_HIGH), TMS_LOW);
  }
}
