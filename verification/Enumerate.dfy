/** Discovery of the devices on a chain from their identification and bypass registers. */
module Enumerate {
  import opened Bits
  import opened Scan
  import opened ChainLaws
  import opened ChainCommands
  import opened DebugUnit
  import Tap

  const MAX_DEVICES: nat := 1024

  /** What a device is recorded as: its identification code, or all ones without one */
  function Code(d: Device): Word {
    if d.idcode.Some? then d.idcode.value else ONES
  }

  /** The manufacturer field the probe pattern leaves when it comes back */
  const DONE: Stream := Fill(6, true) + Fill(5, false)

  /** A device whose manufacturer field looks like the end of the chain */
  predicate LooksLikeEnd(d: Device) {
    d.idcode.Some? && d.idcode.value[1..12] == DONE
  }

  /** The codes enumeration reports for a chain */
  function Detected(devs: seq<Device>, max: nat): seq<Word> {
    if devs == [] || max == 0 || LooksLikeEnd(devs[0]) then []
    else [Code(devs[0])] + Detected(devs[1..], max - 1)
  }

  /** Every identification code starts with the 1 that tells it from a bypass bit */
  ghost predicate Standard(devs: seq<Device>) {
    forall i :: 0 <= i < |devs| && devs[i].idcode.Some? ==> devs[i].idcode.value[0]
  }

  /** A complete and correct report, up to the limit on devices */
  ghost predicate Complete(devs: seq<Device>, codes: seq<Word>) {
    && |codes| == (if |devs| < MAX_DEVICES then |devs| else MAX_DEVICES)
    && forall i :: 0 <= i < |codes| ==> codes[i] == Code(devs[i])
  }

  lemma {:induction false} DetectedPrefix(devs: seq<Device>, max: nat)
    ensures var c := Detected(devs, max);
      && |c| <= |devs| && |c| <= max
      && (forall i :: 0 <= i < |c| ==> c[i] == Code(devs[i]) && !LooksLikeEnd(devs[i]))
      && (|c| < |devs| && |c| < max ==> LooksLikeEnd(devs[|c|]))
    decreases max
  {
    hide LooksLikeEnd, Code;
    if devs != [] && max > 0 && !LooksLikeEnd(devs[0]) { DetectedPrefix(devs[1..], max - 1); }
  }

  /** The report is complete exactly when none of the first MAX_DEVICES devices carries the
      manufacturer field reserved for the probe */
  lemma CompleteIff(devs: seq<Device>)
    ensures Complete(devs, Detected(devs, MAX_DEVICES))
      <==> forall i :: 0 <= i < |devs| && i < MAX_DEVICES ==> !LooksLikeEnd(devs[i])
  {
    hide LooksLikeEnd, Code, Detected;
    DetectedPrefix(devs, MAX_DEVICES);
  }

  // --- a variable nobody cleared ---

  /** The bits above the manufacturer field, which no read sets */
  function Above(clears: bool, was: Word): (s: Stream)
    ensures |s| == 21
  {
    if clears then Fill(21, false) else was[11..]
  }

  const CLEAR: Stream := Fill(21, false)

  /** A code with the bits above the manufacturer field mixed in, one place up */
  function Tainted(code: Word, above: Stream): Word
    requires |above| == 21
  {
    Or(code, Shl(Fill(11, false) + above, 1))
  }

  /** What is recorded at position `i` if the end of the chain is never noticed: behind the
      devices comes the probe, then nothing but zeros */
  function Entry(devs: seq<Device>, i: nat, above: Stream): Word
    requires |above| == 21
  {
    if i < |devs| && devs[i].idcode.Some? then Tainted(devs[i].idcode.value, above)
    else if i == |devs| then Tainted(Pack(Fill(7, true)), above)
    else ONES
  }

  /** The codes enumeration reports when `above` stands above the manufacturer field it compares */
  function Enumerated(devs: seq<Device>, above: Stream): seq<Word>
    requires |above| == 21
  {
    if above == CLEAR then Detected(devs, MAX_DEVICES)
    else seq(MAX_DEVICES, i requires 0 <= i < MAX_DEVICES => Entry(devs, i, above))
  }

  lemma TaintedClear(code: Word)
    ensures Tainted(code, CLEAR) == code
  {
  }

  /** On a clear variable the report is complete exactly when no device looks like the end; on any
      other it has MAX_DEVICES entries whatever the chain, so the chain must have as many devices,
      each with the stray bits set in its code already */
  lemma EnumeratedIff(devs: seq<Device>, above: Stream)
    requires |above| == 21
    ensures Complete(devs, Enumerated(devs, above)) <==>
      if above == CLEAR then forall i :: 0 <= i < |devs| && i < MAX_DEVICES ==> !LooksLikeEnd(devs[i])
      else |devs| >= MAX_DEVICES && forall i :: 0 <= i < MAX_DEVICES && devs[i].idcode.Some? ==>
             Tainted(devs[i].idcode.value, above) == devs[i].idcode.value
  {
    hide LooksLikeEnd, Tainted, Detected;
    CompleteIff(devs);
    if above != CLEAR {
      var codes := Enumerated(devs, above);
      assert |codes| == MAX_DEVICES;
      if |devs| >= MAX_DEVICES {
        forall i | 0 <= i < MAX_DEVICES
          ensures codes[i] == if devs[i].idcode.Some? then Tainted(devs[i].idcode.value, above) else ONES
          ensures codes[i] == Code(devs[i]) <==> (devs[i].idcode.Some? ==>
            Tainted(devs[i].idcode.value, above) == devs[i].idcode.value)
        {
        }
      }
    }
  }

  /** The codes recorded up to where a cleared variable shows the end of the chain */
  lemma EndedAt(devs: seq<Device>, n: nat)
    requires n <= |devs| && n <= MAX_DEVICES && forall i :: 0 <= i < n ==> !LooksLikeEnd(devs[i])
    requires n == MAX_DEVICES || n == |devs| || LooksLikeEnd(devs[n])
    ensures |Enumerated(devs, CLEAR)| == n && forall i :: 0 <= i < n ==> Enumerated(devs, CLEAR)[i] == Entry(devs, i, CLEAR)
  {
    hide LooksLikeEnd, Tainted, Detected;
    DetectedPrefix(devs, MAX_DEVICES);
    forall i | 0 <= i < n && devs[i].idcode.Some? ensures Entry(devs, i, CLEAR) == Code(devs[i]) {
      TaintedClear(devs[i].idcode.value);
    }
  }

  // --- the probe ---

  /** The first `n` bits sent: seven ones, then zeros */
  function Probe(n: nat): (s: Stream)
    ensures |s| == n
    ensures forall i :: 0 <= i < n ==> s[i] == (i < 7)
  {
    seq(n, i => i < 7)
  }

  /** What is left of the probe pattern in the host's word after `k` bits */
  predicate Remaining(code: Word, k: nat) {
    forall i :: 0 <= i < 32 ==> code[i] == (k + i < 7)
  }

  lemma ProbeNext(code: Word, k: nat, m: nat)
    requires Remaining(code, k) && m <= 32
    ensures Probe(k) + code[..m] == Probe(k + m)
    ensures Remaining(Shr(code, m), k + m)
  {
  }

  // --- registers as captured ---

  function Join(stages: seq<Stream>): Stream {
    if stages == [] then [] else stages[0] + Join(stages[1..])
  }

  lemma {:induction false} JoinAppend(a: seq<Stream>, b: seq<Stream>)
    ensures Join(a + b) == Join(a) + Join(b)
  {
    if a == [] {
      assert a + b == b;
    } else {
      assert (a + b)[1..] == a[1..] + b;
      JoinAppend(a[1..], b);
    }
  }

  /** The stages the devices of a freshly reset row capture */
  function ResetStages(devs: seq<Device>): (s: seq<Stream>)
    ensures |s| == |devs|
    ensures forall i :: 0 <= i < |devs| ==> s[i] == if devs[i].idcode.Some? then devs[i].idcode.value else [false]
  {
    seq(|devs|, i requires 0 <= i < |devs| => if devs[i].idcode.Some? then devs[i].idcode.value else [false])
  }

  lemma {:induction false} ResetRow(devs: seq<Device>)
    requires forall i :: 0 <= i < |devs| ==> devs[i].inst == AfterReset
    ensures Stages(CaptureAll(devs)) == Join(ResetStages(devs))
    decreases devs
  {
    if devs != [] {
      ResetRow(devs[1..]);
      assert CaptureAll(devs) == [devs[0].Capture()] + CaptureAll(devs[1..]);
      StagesCons(devs[0].Capture(), CaptureAll(devs[1..]));
      assert ResetStages(devs)[1..] == ResetStages(devs[1..]);
    }
  }

  /** After a reset a data scan reads every device's identification code or bypass bit in order */
  lemma ResetLine(h: Chain)
    requires h.tap == Tap.RunTestIdle && AllReset(h)
    ensures var n := After(h, TO_SHIFT_DR);
      n.tap == Tap.ShiftDr && !n.Debugging() && Line(n) == Join(ResetStages(h.Devices()))
  {
    hide After, CaptureAll, Join;
    EnterShiftDr(h);
    ResetRow(h.post);
    ResetRow(h.pre);
    var t := [h.target];
    var a, b, c := ResetStages(h.post), ResetStages(t), ResetStages(h.pre);
    assert ResetStages(h.Devices()) == a + (b + c);
    JoinOne(b);
    JoinAppend(a, b + c);
    JoinAppend(b, c);
    assert h.target.Capture().dr == b[0];
  }

  lemma JoinOne(b: seq<Stream>)
    requires |b| == 1
    ensures Join(b) == b[0]
  {
    assert b[1..] == [];
  }

  /** The word assembled from a start bit of 1, 11 and 20 further bits */
  function IdWord(manuf: Word, rest: Word): Word {
    Or(Or(Shl(rest, 12), Shl(manuf, 1)), ToWord(1))
  }

  lemma IdWordBits(manuf: Word, rest: Word, a: Stream, b: Stream, above: Stream)
    requires |a| == 11 && |b| == 20 && |above| == 21 && manuf == a + above && rest[..20] == b
    ensures IdWord(manuf, rest) == Tainted([true] + a + b, above)
  {
    OneWord();
    hide ToWord;
    assert forall i :: 0 <= i < 20 ==> rest[i] == rest[..20][i];
  }

  lemma OneWord()
    ensures forall i :: 0 <= i < 32 ==> ToWord(1)[i] == (i == 0)
  {
    assert Pow2(1) == 2;
    FromNatHigh(1, 1, 32);
    assert FromNat(1, 1) == [true] by { assert FromNat(0, 0) == []; }
    hide FromNat;
  }

  lemma SixOnes()
    ensures FromNat(0x3f, 6) == Fill(6, true)
  {
    assert FromNat(0, 0) == [] && FromNat(1, 1) == [true];
    assert FromNat(3, 2) == [true, true];
    assert FromNat(7, 3) == [true, true, true];
    assert FromNat(15, 4) == [true, true, true, true];
    assert FromNat(31, 5) == [true, true, true, true, true];
  }

  lemma DoneIsPacked()
    ensures |DONE| == 11 && Pack(DONE) == ToWord(0x3f)
  {
    assert Pow2(6) == 64;
    FromNatHigh(0x3f, 6, 32);
    SixOnes();
    hide FromNat;
  }

  /** The variable read into is the end mark exactly when the field is and the rest is clear */
  lemma DoneWord(a: Stream, above: Stream)
    requires |a| == 11 && |above| == 21
    ensures a + above == ToWord(0x3f) <==> a == DONE && above == CLEAR
  {
    hide ToWord, DONE;
    DoneIsPacked();
    assert Pack(DONE) == DONE + CLEAR;
    assert (a + above)[..11] == a && (a + above)[11..] == above;
    assert (DONE + CLEAR)[..11] == DONE && (DONE + CLEAR)[11..] == CLEAR;
  }

  lemma ReadManufacturer(clears: bool, was: Word, a: Stream)
    requires |a| == 11
    ensures var now := ReadInto(clears, was, a); now == a + Above(clears, was) && Above(clears, now) == Above(clears, was)
  {
    var now := ReadInto(clears, was, a);
    assert now == a + Above(clears, was);
    if !clears { assert now[11..] == was[11..]; }
  }

  lemma ReadRest(clears: bool, was: Word, b: Stream)
    requires |b| == 20
    ensures ReadInto(clears, was, b)[..20] == b
  {
  }

  /** Reads `n` bits while sending as many from the probe word */
  method ReadBits(host: Host, code: Word, n: nat, ghost k: nat) returns (b: Stream)
    requires 0 < n <= 32 && host.hw.tap == Tap.ShiftDr && !host.hw.Debugging() && Remaining(code, k)
    modifies host`hw
    ensures host.hw.tap == Tap.ShiftDr && !host.hw.Debugging() && |b| == n
    ensures b + Line(host.hw) == Line(old(host.hw)) + code[..n]
    ensures Probe(k) + code[..n] == Probe(k + n) && Remaining(Shr(code, n), k + n)
    ensures SameBoard(host.hw, old(host.hw))
  {
    hide *;
    ProbeNext(code, k, n);
    AfterBoard(host.hw, StreamPins(code[..n], false));
    ShiftLineStream(host.hw, code[..n], false);
    b := host.CableReadWriteStream(code[..n], false);
  }

  /** Bits read one after the other */
  lemma Read(seen: Stream, b: Stream, before: Stream, after: Stream, line: Stream, sent: Stream, more: Stream)
    requires b + after == before + more && seen + before == line + sent
    ensures seen + b + after == line + (sent + more)
  {
    assert seen + b + after == seen + (b + after);
    assert seen + (before + more) == seen + before + more;
    assert line + sent + more == line + (sent + more);
  }

  // --- what the bits read mean ---

  /** What is to come when `i` codes have been recorded and `k` bits sent: the devices from `i` on
      and then the probe, or nothing but zeros */
  ghost predicate Coming(line: Stream, devs: seq<Device>, stages: seq<Stream>, i: nat, code: Word, k: nat) {
    && stages == ResetStages(devs) && Standard(devs) && Remaining(code, k)
    && if i <= |devs| then line == Join(stages[i..]) + Probe(k)
       else k >= 7 && forall j :: 0 <= j < |line| ==> !line[j]
  }

  lemma ComingIs(line: Stream, devs: seq<Device>, stages: seq<Stream>, i: nat, code: Word, k: nat)
    requires Coming(line, devs, stages, i, code, k)
    ensures stages == ResetStages(devs) && |stages| == |devs| && Standard(devs) && Remaining(code, k)
  {
  }

  lemma FirstStage(devs: seq<Device>, stages: seq<Stream>, i: nat)
    requires stages == ResetStages(devs) && Standard(devs) && i < |devs|
    ensures Join(stages[i..]) == stages[i] + Join(stages[i + 1..])
    ensures stages[i] == if devs[i].idcode.Some? then devs[i].idcode.value else [false]
    ensures devs[i].idcode.Some? ==> stages[i][0]
  {
    assert stages[i..][1..] == stages[i + 1..];
  }

  lemma LastStage(stages: seq<Stream>)
    ensures Join(stages[|stages|..]) == []
  {
  }

  /** The first bit is 0 for a bypass register and behind the probe, 1 for an identification code
      and the probe */
  lemma StartBit(devs: seq<Device>, stages: seq<Stream>, i: nat, k: nat, code: Word, b: Stream, before: Stream,
                 line: Stream)
    requires Coming(before, devs, stages, i, code, k) && |b| == 1 && b + line == before + code[..1]
    requires Probe(k) + code[..1] == Probe(k + 1) && Remaining(Shr(code, 1), k + 1)
    ensures b[0] <==> i == |devs| || (i < |devs| && devs[i].idcode.Some?)
    ensures !b[0] ==> Coming(line, devs, stages, i + 1, Shr(code, 1), k + 1)
    ensures i <= |devs| ==> b + line == Join(stages[i..]) + Probe(k + 1)
  {
    hide Standard, Remaining, Probe, Join;
    var all := before + code[..1];
    assert b[0] == all[0] && line == all[1..];
    if i < |devs| {
      FirstStage(devs, stages, i);
      var rest := Join(stages[i + 1..]);
      assert before + code[..1] == Join(stages[i..]) + Probe(k + 1);
      if !b[0] {
        assert (([false] + rest) + Probe(k + 1))[1..] == rest + Probe(k + 1);
      }
    } else if i == |devs| {
      LastStage(stages);
      ProbeFirst(k + 1);
      assert before + code[..1] == Join(stages[i..]) + Probe(k + 1);
      assert [] + Probe(k + 1) == Probe(k + 1);
    } else {
      NothingLeft(code, k);
    }
  }

  lemma ProbeFirst(k: nat)
    requires k > 0
    ensures Probe(k)[0]
  {
  }

  lemma NothingLeft(code: Word, k: nat)
    requires Remaining(code, k) && k >= 7
    ensures !code[0] && code[..1] == [false]
  {
  }

  /** The next eleven bits are the manufacturer field, or the end mark */
  lemma ManufacturerBits(devs: seq<Device>, stages: seq<Stream>, i: nat, k: nat, b: Stream, c: Stream, line: Stream)
    requires stages == ResetStages(devs) && Standard(devs) && i <= |devs| && |b| == 1 && |c| == 11
    requires i < |devs| ==> devs[i].idcode.Some?
    requires b + c + line == Join(stages[i..]) + Probe(k + 12)
    ensures c == if i < |devs| then devs[i].idcode.value[1..12] else DONE
  {
    hide Standard, Join;
    assert c == (b + c + line)[1..12];
    if i < |devs| {
      FirstStage(devs, stages, i);
      assert (stages[i] + Join(stages[i + 1..]) + Probe(k + 12))[1..12] == stages[i][1..12];
    } else {
      LastStage(stages);
      assert ([] + Probe(k + 12))[1..12] == DONE;
    }
  }

  /** The last twenty bits complete the code */
  lemma RestBits(devs: seq<Device>, stages: seq<Stream>, i: nat, k: nat, code: Word,
                 b: Stream, c: Stream, e: Stream, line: Stream)
    requires stages == ResetStages(devs) && Standard(devs) && i <= |devs| && Remaining(code, k + 32)
    requires i < |devs| ==> devs[i].idcode.Some?
    requires |b| == 1 && |c| == 11 && |e| == 20 && b[0]
    requires b + c + e + line == Join(stages[i..]) + Probe(k + 32)
    ensures [true] + c + e == if i < |devs| then devs[i].idcode.value else Pack(Fill(7, true))
    ensures Coming(line, devs, stages, i + 1, code, k + 32)
  {
    hide Standard, Remaining, Join;
    var all := b + c + e + line;
    assert b + c + e == all[..32] && line == all[32..];
    assert b == [true];
    if i < |devs| {
      FirstStage(devs, stages, i);
      var rest := Join(stages[i + 1..]);
      assert all == stages[i] + rest + Probe(k + 32);
      assert (stages[i] + rest + Probe(k + 32))[..32] == stages[i];
      assert (stages[i] + rest + Probe(k + 32))[32..] == rest + Probe(k + 32);
    } else {
      LastStage(stages);
      assert all == Probe(k + 32);
      assert all[..32] == Pack(Fill(7, true));
    }
  }

  lemma TapClock(h: Chain, p: Pin)
    requires !p.trst
    ensures Clock(h, p).tap == Tap.Next(h.tap, p.tms)
  {
    hide Act, ClockUnit, TargetTdi;
  }

  lemma LeaveScan(h: Chain)
    requires h.tap == Tap.ShiftDr
    ensures Clock(Clock(Clock(h, TMS_HIGH), TMS_HIGH), TMS_LOW).tap == Tap.RunTestIdle
  {
    hide Clock;
    TapClock(h, TMS_HIGH);
    TapClock(Clock(h, TMS_HIGH), TMS_HIGH);
    TapClock(Clock(Clock(h, TMS_HIGH), TMS_HIGH), TMS_LOW);
  }

  lemma StartFacts(devs: seq<Device>, line: Stream)
    requires Standard(devs) && line == Join(ResetStages(devs))
    ensures Coming(line, devs, ResetStages(devs), 0, Pack(Fill(7, true)), 0)
    ensures TO_SHIFT_DR == [TMS_HIGH, TMS_LOW, TMS_LOW]
    ensures MAX_DEVICES == 1024 && |CLEAR| == 21
  {
    var stages := ResetStages(devs);
    assert stages[0..] == stages && Probe(0) == [];
    assert Join(stages) + [] == Join(stages);
  }

  /** Where reading stopped the report is whole */
  lemma Stopped(devs: seq<Device>, above: Stream, codes: seq<Word>)
    requires |above| == 21 && |codes| <= MAX_DEVICES
    requires forall i :: 0 <= i < |codes| ==> codes[i] == Entry(devs, i, above)
    requires above == CLEAR ==> |codes| <= |devs| && forall i :: 0 <= i < |codes| ==> !LooksLikeEnd(devs[i])
    requires |codes| == MAX_DEVICES || (above == CLEAR && (|codes| == |devs| || LooksLikeEnd(devs[|codes|])))
    ensures codes == Enumerated(devs, above)
  {
    hide LooksLikeEnd, Entry, Detected;
    if above == CLEAR { EndedAt(devs, |codes|); }
  }

  lemma EntryIs(devs: seq<Device>, i: nat, above: Stream)
    requires |above| == 21
    ensures i < |devs| && devs[i].idcode.Some? ==> Entry(devs, i, above) == Tainted(devs[i].idcode.value, above)
    ensures i == |devs| ==> Entry(devs, i, above) == Tainted(Pack(Fill(7, true)), above)
    ensures i < |devs| && devs[i].idcode.None? ==> Entry(devs, i, above) == ONES
    ensures i > |devs| ==> Entry(devs, i, above) == ONES
    ensures i < |devs| ==> (LooksLikeEnd(devs[i]) <==> devs[i].idcode.Some? && devs[i].idcode.value[1..12] == DONE)
  {
    hide Tainted;
  }

  // --- the host ---

  /** Lists the devices of a freshly reset chain, the one nearest the cable's input first.
      `manufCode` and `restCode` are what the variables read into hold to begin with. */
  method JtagEnumerateChain(host: Host, manufCode: Word, restCode: Word) returns (idcodes: seq<Word>)
    requires host.hw.tap == Tap.RunTestIdle && AllReset(host.hw) && Standard(host.hw.Devices())
    modifies host`hw
    ensures idcodes == Enumerated(old(host.hw.Devices()), Above(host.clears, manufCode))
    ensures host.hw.tap == Tap.RunTestIdle && SameBoard(host.hw, old(host.hw))
  {
    hide *;
    ghost var devs, above := host.hw.Devices(), Above(host.clears, manufCode);
    ghost var stages := ResetStages(devs);
    ResetLine(host.hw);
    StartFacts(devs, Line(After(host.hw, TO_SHIFT_DR)));
    AfterBoard(host.hw, TO_SHIFT_DR);
    host.TapSetShiftDr();
    var invalidCode := Pack(Fill(7, true));
    ghost var k := 0;
    var manuf := manufCode;
    idcodes := [];
    while |idcodes| < MAX_DEVICES
      invariant |idcodes| <= MAX_DEVICES && (above == CLEAR ==> |idcodes| <= |devs|)
      invariant Above(host.clears, manuf) == above
      invariant host.hw.tap == Tap.ShiftDr && !host.hw.Debugging() && SameBoard(host.hw, old(host.hw))
      invariant Coming(Line(host.hw), devs, stages, |idcodes|, invalidCode, k)
      invariant forall i :: 0 <= i < |idcodes| ==> idcodes[i] == Entry(devs, i, above)
      invariant above == CLEAR ==> forall i :: 0 <= i < |idcodes| ==> !LooksLikeEnd(devs[i])
      decreases MAX_DEVICES - |idcodes|
    {
      ghost var h := host.hw;
      var more: bool, id: Word;
      more, id, invalidCode, manuf, k := ReadDevice(host, invalidCode, manuf, restCode, devs, stages, |idcodes|, k);
      SameBoardTrans(host.hw, h, old(host.hw));
      if !more { break; }
      idcodes := idcodes + [id];
    }
    Stopped(devs, above, idcodes);
    ghost var h := host.hw;
    Leave(host);
    SameBoardTrans(host.hw, h, old(host.hw));
  }

  /** Reads the next device, if there is one */
  method ReadDevice(host: Host, probe: Word, was: Word, restCode: Word,
                    ghost devs: seq<Device>, ghost stages: seq<Stream>, ghost i: nat, ghost k0: nat)
    returns (more: bool, id: Word, invalidCode: Word, manuf: Word, ghost k: nat)
    requires host.hw.tap == Tap.ShiftDr && !host.hw.Debugging() && Coming(Line(host.hw), devs, stages, i, probe, k0)
    requires Above(host.clears, was) == CLEAR ==> i <= |devs|
    modifies host`hw
    ensures host.hw.tap == Tap.ShiftDr && !host.hw.Debugging() && SameBoard(host.hw, old(host.hw))
    ensures Above(host.clears, manuf) == Above(host.clears, was)
    ensures var above := Above(host.clears, was);
      if more then
        && id == Entry(devs, i, above) && Coming(Line(host.hw), devs, stages, i + 1, invalidCode, k)
        && (above == CLEAR ==> i < |devs| && !LooksLikeEnd(devs[i]))
      else above == CLEAR && (i == |devs| || (i < |devs| && LooksLikeEnd(devs[i])))
  {
    hide *;
    id, invalidCode, manuf, k := ONES, probe, was, k0;
    ghost var above, h0 := Above(host.clears, was), host.hw;
    ComingIs(Line(h0), devs, stages, i, probe, k);
    EntryIs(devs, i, above);
    var start := ReadBits(host, invalidCode, 1, k);
    ghost var h1 := host.hw;
    StartBit(devs, stages, i, k, probe, start, Line(h0), Line(h1));
    invalidCode := Shr(invalidCode, 1);
    if !start[0] { return true, ONES, invalidCode, manuf, k + 1; }
    var field := ReadBits(host, invalidCode, 11, k + 1);
    ghost var h2 := host.hw;
    SameBoardTrans(h2, h1, h0);
    ghost var line := Join(stages[i..]);
    Read(start, field, Line(h1), Line(h2), line, Probe(k + 1), invalidCode[..11]);
    ManufacturerBits(devs, stages, i, k, start, field, Line(h2));
    ReadManufacturer(host.clears, was, field);
    manuf := ReadInto(host.clears, was, field);
    invalidCode := Shr(invalidCode, 11);
    DoneWord(field, above);
    if manuf == ToWord(0x3f) { return false, ONES, invalidCode, manuf, k; }
    var last := ReadBits(host, invalidCode, 20, k + 12);
    SameBoardTrans(host.hw, h2, h0);
    Read(start + field, last, Line(h2), Line(host.hw), line, Probe(k + 12), invalidCode[..20]);
    invalidCode := Shr(invalidCode, 20);
    RestBits(devs, stages, i, k, invalidCode, start, field, last, Line(host.hw));
    ReadRest(host.clears, restCode, last);
    var rest := ReadInto(host.clears, restCode, last);
    IdWordBits(manuf, rest, field, last, above);
    return true, IdWord(manuf, rest), invalidCode, manuf, k + 32;
  }

  /** From Shift-DR to Run-Test/Idle */
  method Leave(host: Host)
    requires host.hw.tap == Tap.ShiftDr
    modifies host`hw
    ensures host.hw.tap == Tap.RunTestIdle && SameBoard(host.hw, old(host.hw))
  {
    hide *;
    ghost var h := host.hw;
    LeaveScan(h);
    AfterBoard(h, [TMS_HIGH, TMS_HIGH, TMS_LOW]);
    After3(h, TMS_HIGH, TMS_HIGH, TMS_LOW);
    AfterOne(h, TMS_HIGH);
    host.WriteBit(TMS_HIGH);
    AfterOne(host.hw, TMS_HIGH);
    host.WriteBit(TMS_HIGH);
    AfterOne(host.hw, TMS_LOW);
    host.WriteBit(TMS_LOW);
  }
}
