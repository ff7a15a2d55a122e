/** The host's commands to the debug unit, with its caches of what is selected there. */
module AdvDbg {
  import opened Bits
  import opened Options
  import opened Scan
  import opened ChainLaws
  import opened DataLaws
  import opened DebugUnit
  import opened UnitLaws
  import opened DebugCommands
  import opened ChainCommands
  import Tap

  // --- effects of single commands on a unit at rest ---

  ghost predicate SameRegister(a: Module, b: Module) {
    a.kind == b.kind && a.regSel == b.regSel && a.intReg == b.intReg && a.bus == b.bus && a.since == b.since
  }

  /** Same internal registers, register selections and memory in every module */
  ghost predicate SameRegisters(u: Unit, v: Unit) {
    SameRegister(u.wb, v.wb) && SameRegister(u.cpu0, v.cpu0) && SameRegister(u.cpu1, v.cpu1)
  }

  /** Same in every module but the one selected in both */
  ghost predicate SameOthers(u: Unit, v: Unit) {
    && u.id == v.id
    && (u.id != 0 ==> SameRegister(u.wb, v.wb))
    && (u.id != 1 ==> SameRegister(u.cpu0, v.cpu0))
    && (u.id != 2 ==> SameRegister(u.cpu1, v.cpu1))
  }

  lemma ObeyIs(m: Module, r: Input, opcode: nat, now: nat)
    requires !ModuleSelect(r) && Operation(r) == opcode
    ensures opcode == IREG_SEL ==> Obey(m, r, now) == m.(regSel := r[47])
    ensures opcode == IREG_WR ==> Obey(m, r, now) == m.(regSel := r[47], intReg := WriteReg(m, r))
    ensures opcode == NOP ==> Obey(m, r, now) == m
  {
    hide ModuleSelect, Operation, WriteReg;
  }

  /** A command for the selected module reaches no other */
  lemma ScannedIs(u: Unit, t: Stream, r: Input)
    requires AtRest(u) && r == (u.input + t)[|t|..] && !ModuleSelect(r)
    ensures var m := Current(u).(out := (Current(u).intReg + Fill(|t|, false))[|t|..]); var n := UnitScanned(u, t);
      && n.id == u.id && Current(n) == Obey(m, r, u.time + |t| + 5) && SameOthers(u, n)
      && (ModuleAtRest(Obey(m, r, u.time + |t| + 5)) ==> AtRest(n))
      && |m.out| == 33 && ModuleAtRest(Current(u))
  {
    hide ModuleSelect, Obey, Fill;
  }

  lemma SelectScanned(u: Unit, t: Stream, chain: nat)
    requires AtRest(u) && chain < MODULES
    requires EndsWith((u.input + t)[|t|..], SelectCommand(chain))
    ensures var n := UnitScanned(u, t); AtRest(n) && n.id == chain && SameRegisters(u, n)
  {
    SelectDecodes((u.input + t)[|t|..], chain);
    hide SelectCommand, EndsWith, ModuleSelect, ModuleId, Fill;
  }

  lemma RegisterScanned(u: Unit, t: Stream, opcode: nat, index: bool, before: Stream)
    requires AtRest(u) && opcode in {IREG_SEL, IREG_WR}
    requires EndsWith((u.input + t)[|t|..], before + RegisterCommand(opcode, index))
    requires |before| >= 2 || (|before| == 1 && Current(u).kind == Wishbone) || opcode == IREG_SEL
    ensures var n := UnitScanned(u, t);
      && AtRest(n) && SameOthers(u, n) && Current(n).regSel == index
      && Current(n).kind == Current(u).kind && Current(n).bus == Current(u).bus && Current(n).since == Current(u).since
      && Current(n).intReg ==
           if opcode == IREG_SEL then Current(u).intReg else RegisterAfterWrite(Current(u), index, before)
  {
    hide UnitScanned, AtRest, SameOthers, Obey, EndsWith, RegisterCommand, ModuleSelect, Operation, WriteReg,
      RegisterAfterWrite, Current;
    var r := (u.input + t)[|t|..];
    RestRange(u);
    RegisterDecodes(r, opcode, index, before);
    ScannedIs(u, t, r);
    var m := Current(u).(out := (Current(u).intReg + Fill(|t|, false))[|t|..]);
    var now := u.time + |t| + 5;
    ObeyIs(m, r, opcode, now);
    if opcode == IREG_WR { WriteRegIs(Current(u), m, r, index, before); }
    RestIs(m, Obey(m, r, now));
  }

  lemma RestIs(m: Module, n: Module)
    requires |m.out| == 33
    ensures ModuleAtRest(n) <==>
      n.fsm == Idle && Settled(n.bus) && |n.out| == |n.intReg| == 33
  {
  }

  lemma WriteRegIs(c: Module, m: Module, r: Input, index: bool, before: Stream)
    requires |before| >= 2 || (|before| == 1 && c.kind == Wishbone)
    requires r[47] == index && r[46] == before[|before| - 1]
    requires |before| >= 2 ==> r[45] == before[|before| - 2]
    requires m.intReg == c.intReg && m.kind == c.kind && |c.intReg| == 33
    ensures WriteReg(m, r) == RegisterAfterWrite(c, index, before) && |WriteReg(m, r)| == 33
  {
    if |before| >= 2 { assert before[|before| - 2..] == [before[|before| - 2], before[|before| - 1]]; }
  }

  lemma NopScanned(u: Unit, t: Stream)
    requires AtRest(u)
    requires EndsWith((u.input + t)[|t|..], FromNat(NOP, 4) + [false])
    ensures var n := UnitScanned(u, t);
      AtRest(n) && SameOthers(u, n) && SameRegister(Current(u), Current(n))
  {
    hide UnitScanned, AtRest, SameOthers, Obey, EndsWith, ModuleSelect, Operation, Current;
    var r := (u.input + t)[|t|..];
    RestRange(u);
    NopDecodes(r);
    ScannedIs(u, t, r);
    var m := Current(u).(out := (Current(u).intReg + Fill(|t|, false))[|t|..]);
    ObeyIs(m, r, NOP, u.time + |t| + 5);
    RestIs(m, Obey(m, r, u.time + |t| + 5));
  }

  /** What a register write does: an index other than 0 is ignored, a Wishbone error flag is
      cleared by a 1, a CPU status takes the last two bits */
  function RegisterAfterWrite(m: Module, index: bool, data: Stream): Stream
    requires |data| >= 2 || (|data| == 1 && m.kind == Wishbone)
  {
    if index then m.intReg
    else if m.kind == Cpu then data[|data| - 2..] + Fill(31, false)
    else if data[|data| - 1] && m.intReg != [] then m.intReg[0 := false]
    else m.intReg
  }

  /** Whatever came before it in the scan, command `s` padded for the devices before the
      target is what the unit obeys */
  lemma CommandScan(h: Chain, w: Stream, s: Stream)
    requires Ready(h) && 0 < |s| <= 53
    ensures var z := Fill(|h.pre|, false); var n := After(h, ScanPins(w + s + z));
      && EndsWith((h.unit.input + (z + w + s))[|z + w + s|..], s)
      && n.tap == Tap.RunTestIdle && Selecting(n) && |n.pre| == |h.pre| && |n.post| == |h.post|
      && n.unit == UnitScanned(h.unit, z + w + s) && n.unit.time == h.unit.time + |h.pre| + |w| + |s| + 5
  {
    hide *;
    ReadyRange(h);
    ReadyRest(h);
    ScannedTime(h.unit, Fill(|h.pre|, false) + w + s);
    var z := Fill(|h.pre|, false);
    DelayedThrough(z, w + s);
    assert z + (w + s) == z + w + s;
    DataScan(h, w + s + z);
    InputEnds(h.unit.input, z + w, s);
  }

  lemma ScannedTime(u: Unit, t: Stream)
    requires AtRest(u)
    ensures UnitScanned(u, t).time == u.time + |t| + 5
  {
    hide Obey, ModuleSelect, Fill, WithCurrent;
  }

  lemma DelayedThrough(z: Stream, s: Stream)
    ensures Delayed(z, s + z) == z + s
  {
    assert z + (s + z) == (z + s) + z;
  }

  lemma InputEnds(r: Input, z: Stream, s: Stream)
    requires |s| <= 53
    ensures EndsWith((r + (z + s))[|z + s|..], s)
  {
    assert r + (z + s) == (r + z) + s;
  }

  // --- the caches ---

  function RegIndex(m: Module): int {
    if m.regSel then 1 else 0
  }

  /** Each cached selection is unknown or what the hardware has selected */
  ghost predicate CachesHold(u: Unit, currentChain: int, desiredChain: int, currentRegIdx: seq<int>) {
    && |currentRegIdx| == DBG_MAX_MODULES
    && (currentChain == -1 || currentChain == desiredChain == u.id)
    && (currentRegIdx[0] == -1 || currentRegIdx[0] == RegIndex(u.wb))
    && (currentRegIdx[1] == -1 || currentRegIdx[1] == RegIndex(u.cpu0))
    && (currentRegIdx[2] == -1 || currentRegIdx[2] == RegIndex(u.cpu1))
  }

  /** Between operations: idle, debug unit selected and at rest, lengths known, caches right */
  ghost predicate Synced(host: Host)
    reads host
  {
    && Ready(host.hw)
    && host.drPrefix == |host.hw.pre| && host.drPostfix == |host.hw.post|
    && CachesHold(host.hw.unit, host.currentChain, host.desiredChain, host.currentRegIdx)
  }

  lemma ReadyFrom(n: Chain)
    requires n.tap == Tap.RunTestIdle && Selecting(n) && AtRest(n.unit)
    ensures Ready(n)
  {
  }

  lemma CachesAfterSelect(u: Unit, v: Unit, chain: nat, idx: seq<int>, cur: int, des: int)
    requires SameRegisters(u, v) && v.id == chain && CachesHold(u, cur, des, idx)
    ensures CachesHold(v, chain, chain, idx)
  {
  }

  lemma CachesAfterRegister(u: Unit, v: Unit, chain: nat, idx: seq<int>, regidx: nat)
    requires SameOthers(u, v) && u.id == chain < MODULES && regidx < 2
    requires Current(v).regSel == (regidx == 1)
    requires CachesHold(u, chain, chain, idx)
    ensures CachesHold(v, chain, chain, idx[chain := regidx])
  {
  }

  lemma CachesAfterNop(u: Unit, v: Unit, chain: nat, idx: seq<int>)
    requires SameOthers(u, v) && u.id == chain < MODULES && SameRegister(Current(u), Current(v))
    requires CachesHold(u, chain, chain, idx)
    ensures CachesHold(v, chain, chain, idx) && SameRegisters(u, v)
  {
  }

  lemma CachedRegister(u: Unit, chain: nat, idx: seq<int>, regidx: nat)
    requires CachesHold(u, chain, chain, idx) && chain < MODULES && regidx < 2 && idx[chain] == regidx
    ensures u.id == chain && Current(u).regSel == (regidx == 1)
  {
  }

  lemma SameRegistersSelf(u: Unit)
    ensures SameRegisters(u, u) && SameOthers(u, u) && (u.id < MODULES ==> SameRegister(Current(u), Current(u)))
  {
  }

  // --- how long it takes ---

  /** The clocks of each operation, with `pre` devices before the target and `post` behind it; one that
      is cached takes none */
  function SelectClocks(cached: bool, pre: nat): nat { if cached then 0 else 8 + pre }
  function RegisterClocks(cached: bool, pre: nat): nat { if cached then 0 else 11 + pre }
  function ReadClocks(bits: nat, pre: nat, post: nat): nat { 10 + bits + pre + post }
  function WriteClocks(bits: nat, pre: nat): nat { 11 + bits + pre }
  function BurstClocks(pre: nat): nat { 58 + pre }

  /** A soft retry's, over `ir` bits of instruction registers */
  function RetryClocks(ir: nat): nat { 17 + ir }

  /** From the end of a burst that a reset cuts short, at the reset's fourth clock, to the end of the
      command of the next */
  function RestartClocks(ir: nat, pre: nat): nat { RetryClocks(ir) - 4 + SelectClocks(false, pre) + BurstClocks(pre) }

  // --- the host ---

  /** The scan of a register: the bits behind those of the devices after the target, and a no-operation */
  lemma ReadScanned(h: Chain, databits: nat)
    requires Ready(h) && 1 <= databits <= 33
    ensures |Current(h.unit).intReg| == 33
    ensures var x := Fill(|h.post|, false) + Fill(databits, false);
      var y := FromNat(NOP, 4) + [false] + Fill(|h.pre|, false);
      var n := After(h, ScanPins(x + y));
      && Ready(n) && SameBoard(n, h) && |n.pre| == |h.pre| && |n.post| == |h.post|
      && SameOthers(h.unit, n.unit) && SameRegister(Current(h.unit), Current(n.unit))
      && n.unit.time == h.unit.time + ReadClocks(databits, |h.pre|, |h.post|)
      && var out := Out(After(h, [TMS_HIGH, TMS_LOW, TMS_LOW]), StreamPins(x, false));
         |out| == |h.post| + databits && out[|h.post|..|h.post| + databits] == Current(h.unit).intReg[..databits]
  {
    hide *;
    var q, z, outdata := Fill(|h.post|, false), Fill(|h.pre|, false), Fill(databits, false);
    var x, nop := q + outdata, FromNat(NOP, 4) + [false];
    ReadyRange(h);
    ReadyAtRest(h);
    ClocksAre(|h.pre|, |h.post|);
    AfterBoard(h, ScanPins(x + (nop + z)));
    assert x + (nop + z) == x + nop + z;
    CommandScan(h, x, nop);
    ReadFirst(h, x, nop + z);
    ReadCaptures(h, databits, x + nop + z);
    NopScanned(h.unit, z + x + nop);
    ReadyFrom(After(h, ScanPins(x + (nop + z))));
  }

  lemma ReadyAtRest(h: Chain)
    requires Ready(h)
    ensures AtRest(h.unit)
  {
  }

  class Debugger {
    const host: Host

    /** The cache knows register `regidx` of the module meant to be selected */
    ghost predicate Cached(regidx: nat)
      reads host
    {
      0 <= host.desiredChain < |host.currentRegIdx| && host.currentRegIdx[host.desiredChain] == regidx
    }

    constructor (host: Host)
      ensures this.host == host
    {
      this.host := host;
    }

    /** One data scan of a single stream */
    method Transact(s: Stream)
      requires s != []
      modifies host`hw
      ensures host.hw == After(old(host.hw), ScanPins(s + Fill(host.drPrefix, false)))
      ensures SameBoard(host.hw, old(host.hw))
    {
      hide *;
      ghost var x := s + Fill(host.drPrefix, false);
      AfterBoard(host.hw, ScanPins(x));
      host.TapSetShiftDr();
      host.JtagWriteStream(s, true);
      host.TapExitToIdle();
      ScanParts(old(host.hw), x);
    }

    /** Selects a module, unless the cache says it is selected already */
    method SelectModule(chain: nat)
      requires chain < MODULES && Synced(host)
      modifies host`hw, host`currentChain, host`desiredChain
      ensures Synced(host)
      ensures host.currentChain == host.desiredChain == host.hw.unit.id == chain
      ensures SameRegisters(old(host.hw.unit), host.hw.unit)
      ensures old(host.currentChain) == chain ==> host.hw == old(host.hw)
      ensures SameBoard(host.hw, old(host.hw))
      ensures host.hw.unit.time == old(host.hw.unit.time) + SelectClocks(old(host.currentChain) == chain, host.drPrefix)
    {
      hide *;
      SyncedParts();
      SameBoardSelf(host.hw);
      SameRegistersSelf(host.hw.unit);
      ModuleCount();
      ClocksAre(host.drPrefix, host.drPostfix);
      if host.currentChain == chain { return; }
      host.currentChain := -1;
      host.desiredChain := chain;
      var data := SelectWord(chain);
      SelectBits(chain);
      Transact(data[..3]);
      NoFiller(data[..3], Fill(host.drPrefix, false));
      CommandScan(old(host.hw), [], data[..3]);
      SelectScanned(old(host.hw.unit), Fill(host.drPrefix, false) + [] + data[..3], chain);
      ReadyFrom(host.hw);
      CachesAfterSelect(old(host.hw.unit), host.hw.unit, chain, host.currentRegIdx, old(host.currentChain), old(host.desiredChain));
      host.currentChain := chain;
      SyncedFrom();
    }

    /** Selects an internal register of the selected module, unless the cache says it is */
    method SelectCtrlReg(regidx: nat)
      requires Synced(host) && 0 <= host.desiredChain < MODULES && regidx < 2
      modifies host`hw, host`currentChain, host`currentRegIdx, host`softRetryNo, host`desiredChain
      ensures Synced(host) && host.desiredChain == old(host.desiredChain)
      ensures host.currentChain == host.hw.unit.id == host.desiredChain
      ensures Current(host.hw.unit).regSel == (regidx == 1)
      ensures SameInternal(old(host.hw.unit), host.hw.unit) && SameBoard(host.hw, old(host.hw)) && Cached(regidx)
      ensures host.softRetryNo == if old(Cached(regidx)) then old(host.softRetryNo) else 0
      ensures host.hw.unit.time == old(host.hw.unit.time) + SelectClocks(old(host.currentChain == host.desiredChain), host.drPrefix)
                                 + RegisterClocks(old(Cached(regidx)), host.drPrefix)
    {
      hide *;
      SyncedParts();
      ModuleCount();
      ClocksAre(host.drPrefix, host.drPostfix);
      var chain := host.desiredChain;
      CachedIs(regidx);
      SelectModule(chain);
      SyncedParts();
      SameInternalFrom(old(host.hw.unit), host.hw.unit);
      if host.currentRegIdx[chain] == regidx {
        CachedRegister(host.hw.unit, chain, host.currentRegIdx, regidx);
        CachedIs(regidx);
        return;
      }
      ghost var h := host.hw;
      var data := RegisterWord(IREG_SEL, regidx);
      Opcodes();
      RegisterBits(IREG_SEL, regidx);
      RegisterLength(IREG_SEL, regidx == 1);
      Transact(data[..6]);
      SameBoardTrans(host.hw, h, old(host.hw));
      var z := Fill(host.drPrefix, false);
      NoFiller(data[..6], z);
      CommandScan(h, [], data[..6]);
      NoFiller(RegisterCommand(IREG_SEL, regidx == 1), []);
      RegisterScanned(h.unit, z + [] + data[..6], IREG_SEL, regidx == 1, []);
      ReadyFrom(host.hw);
      SameIds(h.unit, host.hw.unit);
      CachesAfterRegister(h.unit, host.hw.unit, chain, host.currentRegIdx, regidx);
      SameInternalStep(old(host.hw.unit), h.unit, host.hw.unit);
      host.softRetryNo := 0;
      host.currentRegIdx := host.currentRegIdx[chain := regidx];
      CachedIs(regidx);
      SyncedFrom();
    }

    /** Writes an internal register of the selected module, selecting it too */
    method CtrlWrite(regidx: nat, cmdData: Stream)
      requires Synced(host) && 0 <= host.desiredChain < MODULES && regidx < 2
      requires 1 <= |cmdData| <= 47
      requires |cmdData| >= 2 || host.hw.unit.Mod(host.desiredChain).kind == Wishbone
      modifies host`hw, host`currentChain, host`currentRegIdx, host`softRetryNo, host`desiredChain
      ensures Synced(host) && host.desiredChain == old(host.desiredChain)
      ensures host.currentChain == host.hw.unit.id == host.desiredChain
      ensures Current(host.hw.unit).regSel == (regidx == 1)
      ensures Current(host.hw.unit).intReg
           == RegisterAfterWrite(old(host.hw.unit.Mod(host.desiredChain)), regidx == 1, cmdData)
      ensures SameInternalBut(old(host.hw.unit), host.hw.unit, host.hw.unit.id)
      ensures Current(host.hw.unit).bus == old(host.hw.unit.Mod(host.desiredChain)).bus
      ensures Current(host.hw.unit).since == old(host.hw.unit.Mod(host.desiredChain)).since
      ensures Current(host.hw.unit).kind == old(host.hw.unit.Mod(host.desiredChain)).kind
      ensures SameBoard(host.hw, old(host.hw)) && Cached(regidx) && host.softRetryNo == 0
      ensures host.hw.unit.time == old(host.hw.unit.time) + SelectClocks(old(host.currentChain == host.desiredChain), host.drPrefix)
                                 + WriteClocks(|cmdData|, host.drPrefix)
    {
      hide *;
      SyncedParts();
      ModuleCount();
      ClocksAre(host.drPrefix, host.drPostfix);
      ghost var u := host.hw.unit;
      var chain := host.desiredChain;
      SelectModule(chain);
      SyncedParts();
      SameMod(u, host.hw.unit, chain);
      ghost var h := host.hw;
      var data := RegisterWord(IREG_WR, regidx);
      Opcodes();
      RegisterBits(IREG_WR, regidx);
      RegisterLength(IREG_WR, regidx == 1);
      var z := Fill(host.drPrefix, false);
      host.TapSetShiftDr();
      host.JtagWriteStream(cmdData, false);
      host.JtagWriteStream(data[..6], true);
      host.TapExitToIdle();
      TwoWrites(h, cmdData, data[..6] + z);
      AfterBoard(h, ScanPins(cmdData + (data[..6] + z)));
      SameBoardTrans(host.hw, h, old(host.hw));
      SameModFull(u, h.unit, chain);
      WriteScan(h, cmdData, regidx == 1);
      CachesAfterRegister(h.unit, host.hw.unit, chain, host.currentRegIdx, regidx);
      SameInternalButStep(u, h.unit, host.hw.unit, chain);
      AfterWriteSame(u.Mod(chain), Current(h.unit), regidx == 1, cmdData);
      host.softRetryNo := 0;
      host.currentRegIdx := host.currentRegIdx[chain := regidx];
      CachedIs(regidx);
      SyncedFrom();
    }

    /** Reads the first `databits` bits of an internal register of the selected module */
    method CtrlRead(regidx: nat, databits: nat) returns (data: Stream)
      requires Synced(host) && 0 <= host.desiredChain < MODULES && regidx < 2
      requires 1 <= databits <= 33
      modifies host`hw, host`currentChain, host`currentRegIdx, host`softRetryNo, host`desiredChain
      ensures Synced(host) && host.desiredChain == old(host.desiredChain)
      ensures host.currentChain == host.hw.unit.id == host.desiredChain
      ensures |old(host.hw.unit.Mod(host.desiredChain)).intReg| == 33
      ensures data == old(host.hw.unit.Mod(host.desiredChain)).intReg[..databits] && host.softRetryNo == 0
      ensures SameInternal(old(host.hw.unit), host.hw.unit) && SameBoard(host.hw, old(host.hw)) && Cached(regidx)
      ensures host.hw.unit.time == old(host.hw.unit.time) + SelectClocks(old(host.currentChain == host.desiredChain), host.drPrefix)
                                 + RegisterClocks(old(Cached(regidx)), host.drPrefix)
                                 + ReadClocks(databits, host.drPrefix, host.drPostfix)
    {
      hide *;
      SyncedParts();
      ModuleCount();
      ClocksAre(host.drPrefix, host.drPostfix);
      CachedIs(regidx);
      ghost var u := host.hw.unit;
      var chain := host.desiredChain;
      SelectModule(chain);
      SameInternalFrom(u, host.hw.unit);
      ghost var v := host.hw.unit;
      ghost var board := host.hw;
      CachedIs(regidx);
      SelectCtrlReg(regidx);
      SameBoardTrans(host.hw, board, old(host.hw));
      SyncedParts();
      CachedIs(regidx);
      ghost var h := host.hw;
      SameInternalTrans(u, v, h.unit);
      SameInternalMod(u, h.unit, chain);
      Opcodes();
      var outdata := Fill(databits, false);
      var nop := FromNat(NOP, 4) + [false];
      var q, z := Fill(host.drPostfix, false), Fill(host.drPrefix, false);
      host.TapSetShiftDr();
      data := host.JtagReadWriteStream(outdata, true, false);
      host.JtagWriteStream(nop, true);
      host.TapExitToIdle();
      AdjustedIs(outdata, true, false, host.drPrefix, host.drPostfix);
      assert q + outdata + Fill(0, false) == q + outdata;
      TwoWrites(h, q + outdata, nop + z);
      ReadScanned(h, databits);
      SameBoardTrans(host.hw, h, old(host.hw));
      SameIds(h.unit, host.hw.unit);
      CachesAfterNop(h.unit, host.hw.unit, chain, host.currentRegIdx);
      SameInternalFrom(h.unit, host.hw.unit);
      SameInternalTrans(u, h.unit, host.hw.unit);
      host.softRetryNo := 0;
      CachedIs(regidx);
      SyncedFrom();
    }

    /** Sends a burst command.  The module named by it starts the burst, with the address and
        length intact exactly when the length fits 16 bits. */
    method BurstCommand(opcode: nat, address: nat, length: nat)
      requires Synced(host) && 0 <= host.desiredChain < MODULES
      requires opcode < 16 && BurstOp(host.hw.unit.Mod(host.desiredChain).kind, opcode)
      requires address < 0x1_0000_0000 && length < 0x1_0000_0000
      modifies host`hw, host`currentChain, host`softRetryNo, host`desiredChain
      ensures host.desiredChain == host.currentChain == host.hw.unit.id == old(host.desiredChain)
      ensures host.hw.tap == Tap.RunTestIdle && Selecting(host.hw) && SameBoard(host.hw, old(host.hw))
      ensures OthersAtRest(host.hw.unit) && !ModuleSelect(host.hw.unit.input)
      ensures Commanded(old(host.hw.unit.Mod(host.desiredChain)), Current(host.hw.unit), opcode, address, length, host.hw.unit.time)
      ensures host.hw.unit.time == old(host.hw.unit.time) + SelectClocks(old(host.currentChain == host.desiredChain), host.drPrefix)
                                 + BurstClocks(host.drPrefix)
      ensures CachesHold(host.hw.unit, host.currentChain, host.desiredChain, host.currentRegIdx)
      ensures host.softRetryNo == 0
    {
      hide *;
      SyncedParts();
      ModuleCount();
      ClocksAre(host.drPrefix, host.drPostfix);
      ghost var u := host.hw.unit;
      var chain := host.desiredChain;
      SelectModule(chain);
      SyncedParts();
      SameModFull(u, host.hw.unit, chain);
      ghost var h := host.hw;
      var data := BurstStream(opcode, address, length);
      Transact(data);
      SameBoardTrans(host.hw, h, old(host.hw));
      NoFiller(data, Fill(host.drPrefix, false));
      CommandScan(h, [], data);
      BurstScanned(h.unit, Fill(host.drPrefix, false) + [] + data, opcode, address, length);
      CommandedSame(u.Mod(chain), Current(h.unit), Current(host.hw.unit), opcode, address, length, host.hw.unit.time);
      CachesAfterBurst(h.unit, host.hw.unit, host.currentChain, host.desiredChain, host.currentRegIdx);
      host.softRetryNo := 0;
    }

    /** A soft retry: resets the TAP from whatever state it is in and selects the debug unit
        again; refuses once the allowance is used up.  On a cable that reports no error nothing
        else makes it refuse. */
    method RetryDo(debugCmd: Word) returns (again: bool)
      requires CanRetry(debugCmd)
      modifies host`hw, host`currentChain, host`currentRegIdx, host`softRetryNo, host`irChain, host.irChain
      ensures again <==> old(host.softRetryNo) < NUM_SOFT_RETRIES
      ensures host.softRetryNo == old(host.softRetryNo) + (if again then 1 else 0)
      ensures CanRetry(debugCmd) && SameBoard(host.hw, old(host.hw))
      ensures host.irChain == old(host.irChain) || (host.irChain != null && fresh(host.irChain))
      ensures again ==>
        && host.hw.tap == Tap.RunTestIdle && Selecting(host.hw) && host.currentChain == -1
        && CachesHold(host.hw.unit, host.currentChain, host.desiredChain, host.currentRegIdx)
      ensures again ==> host.currentRegIdx == seq(DBG_MAX_MODULES, _ => -1)
      ensures again && AtRest(After(old(host.hw), ResetPins(host.trstWired)).unit) ==>
        && Synced(host)
        && host.hw.unit == After(old(host.hw), ResetPins(host.trstWired)).unit.(
             time := old(host.hw.unit.time) + RetryClocks(host.irSize + host.irPrefix + host.irPostfix))
      ensures again && old(host.hw.tap == Tap.RunTestIdle && AtRest(host.hw.unit)) ==>
        && Synced(host)
        && host.hw.unit == old(host.hw.unit).(time := old(host.hw.unit.time) + RetryClocks(host.irSize + host.irPrefix + host.irPostfix))
    {
      hide *;
      CanRetryParts(debugCmd);
      SameBoardSelf(host.hw);
      if host.softRetryNo >= NUM_SOFT_RETRIES { return false; }
      ghost var h := host.hw;
      host.TapReset();
      ghost var a := host.hw;
      ResetReachesIdle(h, host.trstWired);
      CanRetryStays(h, debugCmd);
      CanRetryParts(debugCmd);
      host.TapSetIr(debugCmd);
      SetIrExact(host.rule, debugCmd, a, host.irSize, host.irPrefix, host.irPostfix, host.drPrefix, host.drPostfix);
      AfterBoard(a, IrScan(PackedIr(host.rule, debugCmd, host.irSize, host.irPrefix, host.irPostfix)));
      SameBoardTrans(host.hw, a, h);
      DebugSelected(a, host.hw, debugCmd);
      CachesUnknown(host.hw.unit, host.desiredChain, host.currentRegIdx);
      host.softRetryNo := host.softRetryNo + 1;
      CanRetryStays(h, debugCmd);
      RetryKeeps(h, host.trstWired, IrStream(a, debugCmd[..host.irSize]));
      if AtRest(a.unit) {
        ReadyFrom(host.hw);
        SyncedFrom();
      }
      return true;
    }

    /** The chain is wired as the host believes, and the debug instruction can be delivered */
    ghost predicate CanRetry(debugCmd: Word)
      reads host
    {
      && Operable(host.hw, host.rule, host.irSize, host.irPrefix, host.irPostfix, host.drPrefix, host.drPostfix, debugCmd)
      && (host.irChain != null ==>
            host.irChain.Length == (host.irSize + host.irPrefix + host.irPostfix) / 32 + 1)
    }

    lemma CachedIs(regidx: nat)
      requires 0 <= host.desiredChain < MODULES && |host.currentRegIdx| == DBG_MAX_MODULES
      ensures Cached(regidx) <==> host.currentRegIdx[host.desiredChain] == regidx
    {
    }

    lemma CanRetryParts(debugCmd: Word)
      requires CanRetry(debugCmd)
      ensures Operable(host.hw, host.rule, host.irSize, host.irPrefix, host.irPostfix, host.drPrefix, host.drPostfix, debugCmd)
      ensures Configured(host.hw, host.irSize, host.irPrefix, host.irPostfix, host.drPrefix, host.drPostfix)
      ensures Debuggable(host.hw, debugCmd) && IrExact(host.rule, debugCmd, host.irSize, host.irPostfix)
      ensures host.irSize == host.hw.target.irLength && 0 < host.irSize <= 32
      ensures host.drPrefix == |host.hw.pre| && host.drPostfix == |host.hw.post|
      ensures host.irChain != null ==>
        host.irChain.Length == (host.irSize + host.irPrefix + host.irPostfix) / 32 + 1
    {
    }

    /** It stays so whatever is clocked */
    lemma CanRetryStays(h: Chain, debugCmd: Word)
      requires Operable(h, host.rule, host.irSize, host.irPrefix, host.irPostfix, host.drPrefix, host.drPostfix, debugCmd)
      requires SameBoard(host.hw, h)
      requires host.irChain != null ==>
        host.irChain.Length == (host.irSize + host.irPrefix + host.irPostfix) / 32 + 1
      ensures CanRetry(debugCmd)
    {
      DebuggableStays(h, host.hw, debugCmd);
      ConfiguredStays(h, host.hw, host.irSize, host.irPrefix, host.irPostfix, host.drPrefix, host.drPostfix);
      hide Debuggable, Configured, IrExact, SameBoard;
    }

    lemma SyncedParts()
      requires Synced(host)
      ensures Ready(host.hw) && AtRest(host.hw.unit) && host.hw.unit.id < MODULES
      ensures host.drPrefix == |host.hw.pre| && host.drPostfix == |host.hw.post|
      ensures CachesHold(host.hw.unit, host.currentChain, host.desiredChain, host.currentRegIdx)
      ensures |host.currentRegIdx| == DBG_MAX_MODULES
      ensures host.currentChain != -1 ==> host.currentChain == host.desiredChain == host.hw.unit.id
    {
    }

    lemma SyncedFrom()
      requires Ready(host.hw) && host.drPrefix == |host.hw.pre| && host.drPostfix == |host.hw.post|
      requires CachesHold(host.hw.unit, host.currentChain, host.desiredChain, host.currentRegIdx)
      ensures Synced(host)
    {
    }
  }

  lemma ClocksAre(pre: nat, post: nat)
    ensures SelectClocks(true, pre) == RegisterClocks(true, pre) == 0 && SelectClocks(false, pre) == 8 + pre
    ensures RegisterClocks(false, pre) == 11 + pre && BurstClocks(pre) == 58 + pre
    ensures forall n: nat :: ReadClocks(n, pre, post) == 10 + n + pre + post && WriteClocks(n, pre) == 11 + n + pre
  {
  }

  lemma RetryClocksAre(ir: nat)
    ensures RetryClocks(ir) == 17 + ir
    ensures forall pre: nat :: RestartClocks(ir, pre) == 79 + ir + 2 * pre
  {
  }

  lemma ScanParts(h: Chain, x: Stream)
    ensures After(After(After(h, [TMS_HIGH, TMS_LOW, TMS_LOW]), StreamPins(x, true)), [TMS_HIGH, TMS_LOW])
         == After(h, ScanPins(x))
  {
    hide After, StreamPins;
    AfterAppend(h, TO_SHIFT_DR + StreamPins(x, true), [TMS_HIGH, TMS_LOW]);
    AfterAppend(h, TO_SHIFT_DR, StreamPins(x, true));
  }

  /** Same contents of internal registers and memory; register selections may differ */
  ghost predicate SameInternal(u: Unit, v: Unit) {
    && u.wb.intReg == v.wb.intReg && u.wb.bus == v.wb.bus && u.wb.since == v.wb.since && u.wb.kind == v.wb.kind
    && u.cpu0.intReg == v.cpu0.intReg && u.cpu0.bus == v.cpu0.bus && u.cpu0.since == v.cpu0.since && u.cpu0.kind == v.cpu0.kind
    && u.cpu1.intReg == v.cpu1.intReg && u.cpu1.bus == v.cpu1.bus && u.cpu1.since == v.cpu1.since && u.cpu1.kind == v.cpu1.kind
  }

  ghost predicate SameInternalBut(u: Unit, v: Unit, k: nat) {
    && (k != 0 ==> u.wb.intReg == v.wb.intReg && u.wb.bus == v.wb.bus && u.wb.since == v.wb.since && u.wb.kind == v.wb.kind)
    && (k != 1 ==> u.cpu0.intReg == v.cpu0.intReg && u.cpu0.bus == v.cpu0.bus && u.cpu0.since == v.cpu0.since && u.cpu0.kind == v.cpu0.kind)
    && (k != 2 ==> u.cpu1.intReg == v.cpu1.intReg && u.cpu1.bus == v.cpu1.bus && u.cpu1.since == v.cpu1.since && u.cpu1.kind == v.cpu1.kind)
  }

  /** A register write as the unit sees it */
  lemma WriteScan(h: Chain, data: Stream, index: bool)
    requires Ready(h) && 1 <= |data| <= 47
    requires h.unit.id < MODULES && (|data| >= 2 || Current(h.unit).kind == Wishbone)
    ensures var n := After(h, ScanPins(data + (RegisterCommand(IREG_WR, index) + Fill(|h.pre|, false))));
      && Ready(n) && |n.pre| == |h.pre| && |n.post| == |h.post|
      && SameOthers(h.unit, n.unit) && n.unit.id == h.unit.id && Current(n.unit).regSel == index
      && Current(n.unit).kind == Current(h.unit).kind && Current(n.unit).bus == Current(h.unit).bus
      && Current(n.unit).since == Current(h.unit).since && n.unit.time == h.unit.time + |data| + |h.pre| + 11
      && Current(n.unit).intReg == RegisterAfterWrite(Current(h.unit), index, data)
  {
    hide *;
    Opcodes();
    RegisterLength(IREG_WR, index);
    ReadyRest(h);
    var z, c := Fill(|h.pre|, false), RegisterCommand(IREG_WR, index);
    assert data + (c + z) == [] + (data + c) + z;
    CommandScan(h, [], data + c);
    RegisterScanned(h.unit, z + [] + (data + c), IREG_WR, index, data);
    ReadyFrom(After(h, ScanPins(data + (c + z))));
    SameIds(h.unit, After(h, ScanPins(data + (c + z))).unit);
  }

  lemma SameInternalButStep(u: Unit, v: Unit, w: Unit, k: nat)
    requires SameRegisters(u, v) && SameOthers(v, w) && v.id == k
    ensures SameInternalBut(u, w, k)
  {
  }

  lemma SameInternalTrans(u: Unit, v: Unit, w: Unit)
    requires SameInternal(u, v) && SameInternal(v, w)
    ensures SameInternal(u, w)
  {
  }

  lemma SameInternalMod(u: Unit, v: Unit, k: nat)
    requires SameInternal(u, v) && k < MODULES && v.id == k
    ensures u.Mod(k).intReg == Current(v).intReg && u.Mod(k).kind == Current(v).kind
  {
  }

  lemma SameMod(u: Unit, v: Unit, k: nat)
    requires SameRegisters(u, v) && k < MODULES && v.id == k
    ensures u.Mod(k).intReg == Current(v).intReg && u.Mod(k).kind == Current(v).kind
  {
  }

  lemma AfterWriteSame(m: Module, n: Module, index: bool, data: Stream)
    requires m.intReg == n.intReg && m.kind == n.kind
    requires |data| >= 2 || (|data| == 1 && m.kind == Wishbone)
    ensures RegisterAfterWrite(m, index, data) == RegisterAfterWrite(n, index, data)
  {
  }

  /** Two streams sent in one scan are one stream */
  lemma TwoWrites(h: Chain, a: Stream, b: Stream)
    requires b != []
    ensures After(After(After(After(h, [TMS_HIGH, TMS_LOW, TMS_LOW]), StreamPins(a, false)), StreamPins(b, true)),
                  [TMS_HIGH, TMS_LOW])
         == After(h, ScanPins(a + b))
  {
    hide After, StreamPins;
    PinsJoin(a, b, true);
    ScanParts(h, a + b);
    AfterAppend(After(h, TO_SHIFT_DR), StreamPins(a, false), StreamPins(b, true));
  }

  /** Bits read by the first of two streams are the first bits of the scan */
  lemma ReadFirst(h: Chain, a: Stream, b: Stream)
    requires b != []
    ensures |ScanRead(h, a + b)| == |a| + |b|
    ensures ScanRead(h, a + b)[..|a|] == Out(After(h, [TMS_HIGH, TMS_LOW, TMS_LOW]), StreamPins(a, false))
  {
    hide After, StreamPins, Out;
    PinsJoin(a, b, true);
    AfterAppend(After(h, TO_SHIFT_DR), StreamPins(a, false), StreamPins(b, true));
  }

  lemma SameModFull(u: Unit, v: Unit, k: nat)
    requires SameRegisters(u, v) && k < MODULES && v.id == k
    ensures u.Mod(k).bus == Current(v).bus && u.Mod(k).kind == Current(v).kind && u.Mod(k).since == Current(v).since
    ensures u.Mod(k).intReg == Current(v).intReg && u.Mod(k).regSel == Current(v).regSel
  {
  }

  /** The 53 bits of a burst command, out of its two packed words */
  function BurstStream(opcode: nat, address: nat, length: nat): (s: Stream)
    ensures s == BurstCommand(opcode, address, length) && |s| == 53
  {
    BurstLow(address, length) + BurstHigh(opcode, address)[..21]
  }

  /** What a burst command makes of a module at rest at clock `now`: the burst starts, with the address
      and length intact exactly when the length fits 16 bits; a bus transfer still in progress goes on */
  ghost predicate Commanded(m: Module, n: Module, opcode: nat, address: nat, length: nat, now: nat) {
    && n.op == opcode && n.fsm == (if ReadOp(opcode) then Rbegin else Wready)
    && n.bitCount == 0 && n.crc == ONES && n.bus == BusNow(m, now) && n.intReg == m.intReg && n.kind == m.kind
    && n.regSel == m.regSel && |n.out| == |n.intReg| == 33 && Settled(m.bus) && Settled(n.bus)
    && (n.addr == address && n.wordCount == length <==> length < 0x1_0000)
  }

  lemma CommandedSame(m: Module, l: Module, n: Module, opcode: nat, address: nat, length: nat, now: nat)
    requires Commanded(l, n, opcode, address, length, now)
    requires m.bus == l.bus && m.since == l.since && m.intReg == l.intReg && m.kind == l.kind && m.regSel == l.regSel
    ensures Commanded(m, n, opcode, address, length, now)
  {
  }

  lemma CachesAfterBurst(u: Unit, v: Unit, cur: int, des: int, idx: seq<int>)
    requires SameOthers(u, v) && u.id < MODULES && Current(v).regSel == Current(u).regSel
    requires CachesHold(u, cur, des, idx)
    ensures CachesHold(v, cur, des, idx)
  {
  }

  lemma BurstScanned(u: Unit, t: Stream, opcode: nat, address: nat, length: nat)
    requires AtRest(u) && BurstOp(Current(u).kind, opcode)
    requires opcode < 16 && address < 0x1_0000_0000 && length < 0x1_0000_0000
    requires EndsWith((u.input + t)[|t|..], BurstCommand(opcode, address, length))
    ensures var n := UnitScanned(u, t);
      && n.id == u.id && OthersAtRest(n) && SameOthers(u, n) && !ModuleSelect(n.input)
      && Commanded(Current(u), Current(n), opcode, address, length, u.time + |t| + 5) && Current(n).regSel == Current(u).regSel
  {
    hide *;
    RestRange(u);
    var r := (u.input + t)[|t|..];
    WholeInput(r, BurstCommand(opcode, address, length));
    BurstDecodesIff(opcode, address, length);
    ScannedIs(u, t, r);
    var m := Current(u).(out := (Current(u).intReg + Fill(|t|, false))[|t|..]);
    var now := u.time + |t| + 5;
    ObeyBurst(m, r, opcode, now);
    RestBus(Current(u), now);
    CommandedIs(Current(u), m, Obey(m, r, now), opcode, address, length, now);
    OthersStay(u, UnitScanned(u, t), t, r);
    InputStays(u, t);
  }

  lemma RestBus(m: Module, now: nat)
    requires ModuleAtRest(m)
    ensures Settled(m.bus) && Settled(BusNow(m, now)) && BusNow(m.(out := m.out), now) == BusNow(m, now)
  {
    if now > m.since { AgedBus(m.bus, now - m.since); }
  }

  lemma CommandedIs(c: Module, m: Module, n: Module, opcode: nat, address: nat, length: nat, now: nat)
    requires m.bus == c.bus && m.since == c.since && m.intReg == c.intReg && m.kind == c.kind && m.regSel == c.regSel
    requires |m.out| == |m.intReg| == 33 && Settled(c.bus) && Settled(BusNow(c, now))
    requires n.op == opcode && n.fsm == (if ReadOp(opcode) then Rbegin else Wready)
    requires n.bitCount == 0 && n.crc == ONES && n.bus == BusNow(m, now) && n.intReg == m.intReg && n.kind == m.kind
    requires n.regSel == m.regSel && n.out == m.out
    requires n.addr == address && n.wordCount == length <==> length < 0x1_0000
    ensures Commanded(c, n, opcode, address, length, now)
  {
  }

  lemma InputStays(u: Unit, t: Stream)
    requires u.id < MODULES
    ensures UnitScanned(u, t).input == (u.input + t)[|t|..]
  {
    hide Obey, ModuleSelect, Fill;
  }

  lemma OthersStay(u: Unit, n: Unit, t: Stream, r: Input)
    requires AtRest(u) && r == (u.input + t)[|t|..] && !ModuleSelect(r) && n == UnitScanned(u, t)
    ensures OthersAtRest(n) && n.id == u.id
  {
    hide ModuleSelect, Obey, Fill;
  }

  lemma WholeInput(r: Input, c: Input)
    requires EndsWith(r, c)
    ensures r == c
  {
  }

  lemma ObeyBurst(m: Module, r: Input, opcode: nat, now: nat)
    requires !ModuleSelect(r) && Operation(r) == opcode && BurstOp(m.kind, opcode)
    ensures var n := Obey(m, r, now);
      && n.op == opcode && n.fsm == (if ReadOp(opcode) then Rbegin else Wready)
      && n.bitCount == 0 && n.crc == ONES && n.bus == BusNow(m, now) && n.addr == Address(r) && n.wordCount == Count(r)
      && n.intReg == m.intReg && n.kind == m.kind && n.regSel == m.regSel && n.out == m.out
  {
    hide ModuleSelect, Operation, Address, Count, BusNow;
  }

  lemma SameInternalFrom(u: Unit, v: Unit)
    requires SameRegisters(u, v)
    ensures SameInternal(u, v)
  {
  }

  lemma SameInternalStep(u: Unit, v: Unit, w: Unit)
    requires SameInternal(u, v) && SameOthers(v, w) && v.id < MODULES
    requires Current(w).intReg == Current(v).intReg && Current(w).bus == Current(v).bus
    requires Current(w).since == Current(v).since
    requires Current(w).kind == Current(v).kind
    ensures SameInternal(u, w)
  {
  }

  lemma SameIds(u: Unit, v: Unit)
    requires SameOthers(u, v)
    ensures u.id == v.id
  {
  }

  lemma Opcodes()
    ensures IREG_SEL == 13 && IREG_WR == 9 && NOP == 0
  {
  }

  lemma RegisterLength(opcode: nat, index: bool)
    ensures |RegisterCommand(opcode, index)| == 6
  {
  }

  lemma ModuleCount()
    ensures MODULES == 3 && DBG_MAX_MODULES == 4
  {
  }

  lemma NoFiller(s: Stream, z: Stream)
    ensures [] + s + z == s + z && z + [] + s == z + s && [] + s == s
  {
  }

  // --- retries ---

  /** The target obeys `debugCmd` as its debug instruction; all ones means BYPASS everywhere */
  ghost predicate Debuggable(h: Chain, debugCmd: Word) {
    && 0 < h.target.irLength <= 32
    && h.target.debugCode == Some(debugCmd[..h.target.irLength])
    && RowBypassable(h.pre) && RowBypassable(h.post)
  }

  ghost predicate RowBypassable(devs: seq<Device>) {
    forall i :: 0 <= i < |devs| ==>
      devs[i].debugCode != Some(Fill(devs[i].irLength, true)) && devs[i].idCommand != Some(Fill(devs[i].irLength, true))
  }

  /** The instruction survives packing; see PackedIrCorrectIff */
  ghost predicate IrExact(rule: ShiftRule, ir: Word, irSize: nat, postfix: nat) {
    rule == ZeroFill || postfix % 32 + irSize < 32 || forall i :: 0 <= i < 32 - postfix % 32 ==> ir[i]
  }

  ghost predicate Operable(h: Chain, rule: ShiftRule, irSize: nat, irPrefix: nat, irPostfix: nat, drPrefix: nat,
                           drPostfix: nat, debugCmd: Word) {
    && Configured(h, irSize, irPrefix, irPostfix, drPrefix, drPostfix)
    && Debuggable(h, debugCmd) && IrExact(rule, debugCmd, irSize, irPostfix)
  }

  lemma DebuggableStays(h: Chain, n: Chain, debugCmd: Word)
    requires Debuggable(h, debugCmd) && SameBoard(n, h)
    ensures Debuggable(n, debugCmd) && n.target.irLength == h.target.irLength
  {
    assert SameSilicon([n.target], [h.target]);
    assert [n.target][0] == n.target && [h.target][0] == h.target;
  }

  lemma ConfiguredStays(h: Chain, n: Chain, irSize: nat, irPrefix: nat, irPostfix: nat, drPrefix: nat, drPostfix: nat)
    requires Configured(h, irSize, irPrefix, irPostfix, drPrefix, drPostfix) && SameBoard(n, h)
    ensures Configured(n, irSize, irPrefix, irPostfix, drPrefix, drPostfix)
  {
    hide IrLength;
    IrLengthSilicon(n.pre, h.pre);
    IrLengthSilicon(n.post, h.post);
    assert [n.target][0] == n.target && [h.target][0] == h.target;
  }

  lemma SetIrExact(rule: ShiftRule, ir: Word, h: Chain, irSize: nat, irPrefix: nat, irPostfix: nat, drPrefix: nat,
                   drPostfix: nat)
    requires h.tap == Tap.RunTestIdle && 0 < irSize <= 32
    requires Configured(h, irSize, irPrefix, irPostfix, drPrefix, drPostfix)
    requires IrExact(rule, ir, irSize, irPostfix)
    ensures PackedIr(rule, ir, irSize, irPrefix, irPostfix) == IrStream(h, ir[..irSize])
    ensures var n := After(h, IrScan(PackedIr(rule, ir, irSize, irPrefix, irPostfix)));
      && n.tap == Tap.RunTestIdle && n.target == Instructed(h.target, ir[..irSize])
      && n.post == Bypassed(h.post) && n.pre == Bypassed(h.pre)
  {
    hide After, IrScan, PackedIr, Bypassed, IrLength;
    PackedIrCorrectIff(rule, ir, irSize, irPrefix, irPostfix);
    IrScanTargets(h, ir[..irSize]);
  }

  lemma DebugSelected(h: Chain, n: Chain, debugCmd: Word)
    requires Debuggable(h, debugCmd)
    requires n.target == Instructed(h.target, debugCmd[..h.target.irLength])
    requires n.post == Bypassed(h.post) && n.pre == Bypassed(h.pre)
    ensures Selecting(n) && |n.pre| == |h.pre| && |n.post| == |h.post|
  {
  }

  lemma CachesUnknown(u: Unit, desiredChain: int, idx: seq<int>)
    requires idx == seq(DBG_MAX_MODULES, _ => -1)
    ensures CachesHold(u, -1, desiredChain, idx)
  {
  }

  // --- scans that leave the unit alone ---

  /** No clock of the run is spent in Capture-DR, Shift-DR or Update-DR */
  predicate AvoidsData(s: Tap.State, pins: seq<Pin>)
    decreases pins
  {
    pins == [] ||
    (s !in {Tap.CaptureDr, Tap.ShiftDr, Tap.UpdateDr}
     && AvoidsData(if pins[0].trst then Tap.TestLogicReset else Tap.Next(s, pins[0].tms), pins[1..]))
  }

  lemma AvoidsOne(s: Tap.State, p: Pin)
    requires s !in {Tap.CaptureDr, Tap.ShiftDr, Tap.UpdateDr}
    ensures AvoidsData(s, [p])
  {
    assert [p][1..] == [];
  }

  lemma QuietRunClock(h: Chain, p: Pin)
    requires AtRest(h.unit) && h.tap !in {Tap.CaptureDr, Tap.ShiftDr, Tap.UpdateDr}
    ensures Clock(h, p).unit == h.unit.(time := h.unit.time + 1)
    ensures Clock(h, p).tap == if p.trst then Tap.TestLogicReset else Tap.Next(h.tap, p.tms)
  {
    UnitClocks(h, p);
    QuietUnit(h.unit, h.Debugging(), h.tap, TargetTdi(h, p.tdi));
    hide ClockUnit, TargetTdi, Act, AtRest;
  }

  lemma {:induction false} QuietRun(h: Chain, pins: seq<Pin>)
    requires AtRest(h.unit) && AvoidsData(h.tap, pins)
    ensures After(h, pins).unit == h.unit.(time := h.unit.time + |pins|)
    decreases pins
  {
    hide Clock, AtRest;
    if pins != [] {
      QuietRunClock(h, pins[0]);
      LaterAtRest(h.unit, h.unit.time + 1);
      QuietRun(Clock(h, pins[0]), pins[1..]);
    }
  }

  lemma {:induction false} HighsAvoidData(s: Tap.State, n: nat, rest: seq<Pin>)
    requires s in {Tap.RunTestIdle, Tap.SelectDr, Tap.SelectIr, Tap.TestLogicReset}
    requires n >= match s case RunTestIdle => 3 case SelectDr => 2 case SelectIr => 1 case _ => 0
    requires AvoidsData(Tap.TestLogicReset, rest)
    ensures AvoidsData(s, seq(n, _ => TMS_HIGH) + rest)
    decreases n
  {
    var pins := seq(n, _ => TMS_HIGH) + rest;
    if n == 0 {
      assert pins == rest;
    } else {
      assert pins[1..] == seq(n - 1, _ => TMS_HIGH) + rest;
      HighsAvoidData(Tap.Next(s, true), n - 1, rest);
    }
  }

  lemma ResetKeepsUnit(h: Chain, trstWired: bool)
    requires h.tap == Tap.RunTestIdle && AtRest(h.unit)
    ensures After(h, ResetPins(trstWired)).unit == h.unit.(time := h.unit.time + 11)
  {
    hide After, AtRest;
    var pull := Pin(false, false, trstWired);
    var rest := [pull, TMS_LOW];
    assert rest[1..] == [TMS_LOW] && [TMS_LOW][1..] == [];
    AvoidsOne(Tap.TestLogicReset, TMS_LOW);
    AvoidsOne(Tap.RunTestIdle, TMS_LOW);
    assert AvoidsData(Tap.TestLogicReset, rest);
    HighsAvoidData(Tap.RunTestIdle, 8, rest);
    var all := ResetPins(trstWired);
    assert all[1..] == seq(8, _ => TMS_HIGH) + rest;
    assert AvoidsData(Tap.RunTestIdle, all);
    QuietRun(h, all);
  }

  lemma {:induction false} StreamAvoidsData(s: Stream, rest: seq<Pin>)
    requires s != [] && AvoidsData(Tap.Exit1Ir, rest)
    ensures AvoidsData(Tap.ShiftIr, StreamPins(s, true) + rest)
    decreases s
  {
    hide StreamPins;
    var pins := StreamPins(s, true) + rest;
    StreamPinsStep(s, true);
    assert pins[1..] == StreamPins(s[1..], true) + rest;
    if |s| == 1 {
      assert pins[1..] == rest;
    } else {
      StreamAvoidsData(s[1..], rest);
    }
  }

  lemma IrScanKeepsUnit(h: Chain, s: Stream)
    requires h.tap == Tap.RunTestIdle && AtRest(h.unit) && s != []
    ensures After(h, IrScan(s)).unit == h.unit.(time := h.unit.time + |s| + 6)
  {
    hide After, AtRest, StreamPins;
    var tail := [TMS_HIGH, TMS_LOW];
    assert tail[1..] == [TMS_LOW];
    AvoidsOne(Tap.UpdateIr, TMS_LOW);
    assert AvoidsData(Tap.Exit1Ir, tail);
    StreamAvoidsData(s, tail);
    var p4 := StreamPins(s, true) + tail;
    AvoidsMore(Tap.CaptureIr, TMS_LOW, p4);
    AvoidsMore(Tap.SelectIr, TMS_LOW, [TMS_LOW] + p4);
    AvoidsMore(Tap.SelectDr, TMS_HIGH, [TMS_LOW] + ([TMS_LOW] + p4));
    AvoidsMore(Tap.RunTestIdle, TMS_HIGH, [TMS_HIGH] + ([TMS_LOW] + ([TMS_LOW] + p4)));
    assert [TMS_HIGH] + ([TMS_HIGH] + ([TMS_LOW] + ([TMS_LOW] + p4))) == IrScan(s);
    QuietRun(h, IrScan(s));
  }

  /** Every clock is one */
  lemma {:induction false} AfterTime(h: Chain, pins: seq<Pin>)
    ensures After(h, pins).unit.time == h.unit.time + |pins|
    decreases pins
  {
    if pins != [] {
      UnitClocks(h, pins[0]);
      hide Clock;
      AfterTime(Clock(h, pins[0]), pins[1..]);
    }
  }

  lemma ResetTakes(h: Chain, trstWired: bool)
    ensures After(h, ResetPins(trstWired)).unit.time == h.unit.time + 11
  {
    hide After;
    AfterTime(h, ResetPins(trstWired));
  }

  /** A unit at rest after the reset stays so, and so does one that is before it in Run-Test/Idle */
  lemma RetryKeeps(h: Chain, trstWired: bool, s: Stream)
    requires s != []
    ensures var a := After(h, ResetPins(trstWired)); var n := After(a, IrScan(s));
      && (AtRest(a.unit) ==> AtRest(n.unit) && n.unit == a.unit.(time := h.unit.time + RetryClocks(|s|)))
      && (h.tap == Tap.RunTestIdle && AtRest(h.unit) ==>
            AtRest(a.unit) && AtRest(n.unit) && n.unit == h.unit.(time := h.unit.time + RetryClocks(|s|)))
  {
    hide *;
    var a := After(h, ResetPins(trstWired));
    ResetTakes(h, trstWired);
    ResetReachesIdle(h, trstWired);
    RetryClocksAre(|s|);
    if h.tap == Tap.RunTestIdle && AtRest(h.unit) {
      ResetKeepsUnit(h, trstWired);
      LaterAtRest(h.unit, h.unit.time + 11);
    }
    if AtRest(a.unit) {
      IrScanKeepsUnit(a, s);
      LaterAtRest(a.unit, a.unit.time + |s| + 6);
    }
  }

  lemma AvoidsMore(s: Tap.State, p: Pin, rest: seq<Pin>)
    requires s !in {Tap.CaptureDr, Tap.ShiftDr, Tap.UpdateDr} && !p.trst
    requires AvoidsData(Tap.Next(s, p.tms), rest)
    ensures AvoidsData(s, [p] + rest)
  {
    assert ([p] + rest)[1..] == rest;
  }
}
