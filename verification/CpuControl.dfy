/** The status registers of the processors: stalling and resetting them through the debug unit. */
module CpuControl {
  import opened Bits
  import opened DebugUnit
  import opened UnitLaws
  import opened ChainCommands
  import opened ChainLaws
  import opened AdvDbg

  /** A register write seen bit by bit */
  lemma StatusWritten(m: Module, data: Stream)
    requires m.kind == Cpu && |data| == 2
    ensures RegisterAfterWrite(m, false, data) == [data[0], data[1]] + Fill(31, false)
  {
    assert data[|data| - 2..] == [data[0], data[1]];
  }

  lemma SameStatus(u: Unit, v: Unit, cpu: nat)
    requires SameRegisters(u, v) && cpu < MODULES
    ensures SameInternal(u, v) && u.Mod(cpu).kind == v.Mod(cpu).kind && u.Mod(cpu).intReg == v.Mod(cpu).intReg
  {
  }

  lemma CurrentIs(u: Unit, cpu: nat)
    requires u.id == cpu < MODULES
    ensures Current(u) == u.Mod(cpu)
  {
  }

  lemma ButFrom(u: Unit, v: Unit, w: Unit, k: nat)
    requires SameInternal(u, v) && SameInternalBut(v, w, k)
    ensures SameInternalBut(u, w, k)
  {
  }

  /** Stalls or releases a processor (lowest bit) and resets it (next bit) */
  method CpuWriteCtrl(adv: Debugger, cpu: nat, data: Byte)
    requires Synced(adv.host) && cpu in {1, 2} && adv.host.hw.unit.Mod(cpu).kind == Cpu
    modifies adv.host`hw, adv.host`currentChain, adv.host`currentRegIdx, adv.host`softRetryNo, adv.host`desiredChain
    ensures Synced(adv.host) && SameBoard(adv.host.hw, old(adv.host.hw))
    ensures adv.host.hw.unit.Mod(cpu).kind == Cpu
    ensures adv.host.hw.unit.Mod(cpu).intReg == [data[0], data[1]] + Fill(31, false)
    ensures SameInternalBut(old(adv.host.hw.unit), adv.host.hw.unit, cpu)
  {
    hide *;
    ghost var h := adv.host.hw;
    ModuleCount();
    adv.SelectModule(cpu);
    ghost var v := adv.host.hw;
    SameStatus(h.unit, v.unit, cpu);
    assert |data[..2]| == 2;
    adv.CtrlWrite(0, data[..2]);
    StatusWritten(v.unit.Mod(cpu), data[..2]);
    assert data[..2][0] == data[0] && data[..2][1] == data[1];
    SameBoardTrans(adv.host.hw, v, h);
    ButFrom(h.unit, v.unit, adv.host.hw.unit, cpu);
    CurrentIs(adv.host.hw.unit, cpu);
  }

  /** Reads them; what stands above the two bits of `dataword` goes into the answer unless the cable
      clears it */
  method CpuReadCtrl(adv: Debugger, cpu: nat, dataword: Word) returns (data: Byte)
    requires Synced(adv.host) && cpu in {1, 2}
    modifies adv.host`hw, adv.host`currentChain, adv.host`currentRegIdx, adv.host`softRetryNo, adv.host`desiredChain
    ensures Synced(adv.host) && SameBoard(adv.host.hw, old(adv.host.hw))
    ensures |old(adv.host.hw.unit.Mod(cpu)).intReg| == 33
    ensures data[..2] == old(adv.host.hw.unit.Mod(cpu)).intReg[..2]
    ensures data[2..] == if adv.host.clears then Fill(6, false) else dataword[2..8]
    ensures SameInternal(old(adv.host.hw.unit), adv.host.hw.unit)
  {
    hide *;
    ghost var h := adv.host.hw;
    ModuleCount();
    adv.SelectModule(cpu);
    ghost var v := adv.host.hw;
    SameStatus(h.unit, v.unit, cpu);
    var bits := adv.CtrlRead(0, 2);
    data := ReadInto(adv.host.clears, dataword, bits)[..8];
    ReadTwo(adv.host.clears, dataword, bits);
    SameBoardTrans(adv.host.hw, v, h);
    SameInternalTrans(h.unit, v.unit, adv.host.hw.unit);
  }

  lemma ReadTwo(clears: bool, was: Word, bits: Stream)
    requires |bits| == 2
    ensures var w := ReadInto(clears, was, bits)[..8]; w[..2] == bits && w[2..] == if clears then Fill(6, false) else was[2..8]
  {
  }

  /** What was written comes back */
  method WriteAndReadCtrl(adv: Debugger, cpu: nat, data: Byte, dataword: Word) returns (seen: Byte)
    requires Synced(adv.host) && cpu in {1, 2} && adv.host.hw.unit.Mod(cpu).kind == Cpu
    modifies adv.host`hw, adv.host`currentChain, adv.host`currentRegIdx, adv.host`softRetryNo, adv.host`desiredChain
    ensures seen[..2] == data[..2] && Synced(adv.host)
  {
    CpuWriteCtrl(adv, cpu, data);
    seen := CpuReadCtrl(adv, cpu, dataword);
    assert ([data[0], data[1]] + Fill(31, false))[..2] == data[..2];
  }
}
