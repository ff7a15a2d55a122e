/** The writing half of the debug unit's burst engine, bit by bit. */
module WriteEngine {
  import opened Bits
  import opened ShiftRegister
  import Crc
  import opened DebugUnit
  import opened UnitLaws
  import opened ReadEngine
  import Tap

  /** A burst: `count` words of `size` bytes each from `base` on */
  datatype Writes = Writes(base: nat, size: nat, count: nat) {
    function At(j: nat): nat {
      base + j * size
    }

    predicate Fits() {
      1 <= size <= 4 && 0 < count < 0x1_0000 && At(count - 1) < 0x1_0000_0000
    }
  }

  lemma NextWrite(p: Writes, j: nat)
    requires p.Fits() && j < p.count
    ensures p.At(j) < 0x1_0000_0000 && p.At(j + 1) == p.At(j) + p.size
  {
    Below(j, p.count, p.size);
    if j + 1 < p.count { Below(j, p.count - 1, p.size); }
  }

  // --- a word arrives ---

  /** Taking in words, or the check word */
  predicate Writing(m: Module) {
    m.fsm in {Wwait, Wburst, Wstatus, Wcrc, Wmatch} && |m.out| == |m.intReg| == 33 && Settled(m.bus) && m.kind == Wishbone
  }

  lemma BusyWrite(u: Unit, b: bool)
    requires OthersAtRest(u) && Writing(Current(u))
    ensures u.id < MODULES
    ensures var n := ClockUnit(u, true, Tap.ShiftDr, b);
      && OthersAtRest(n) && SameFrame(u, n) && n.input == u.input[1..] + [b]
      && Current(n) == ClockModule(Current(u), u.time, true, Tap.ShiftDr, u.input, b)
    ensures UnitTdo(u) == Tdo(Current(u), u.input)
  {
    BusyClock(u, Tap.ShiftDr, b);
    hide ClockModule, Tdo, ModuleAtRest, Writing, ClockUnit;
  }

  /** The bus as the first bit of a word finds it: the first word of a burst clears it */
  function BusFirst(m: Module): Bus {
    if m.fsm == Wwait then m.bus.Clear() else m.bus.Tick()
  }

  /** A module where word `j` is expected: behind the start bit, or after another word */
  predicate AtModule(m: Module, r: Input, p: Writes, j: nat) {
    && Writing(m) && p.Fits() && j < p.count && m.Size() == p.size && m.addr == p.At(j) && m.bitCount == 0
    && if j == 0 then m.fsm == Wwait && r[52] && m.wordCount == p.count
       else m.fsm == Wburst && m.wordCount == p.count - 1 - j
  }

  /** A module with `k` bits of word `j` in */
  predicate MidModule(m: Module, p: Writes, j: nat, k: nat) {
    && Writing(m) && p.Fits() && j < p.count && m.Size() == p.size && m.addr == p.At(j)
    && m.bitCount == k && m.wordCount == p.count - 1 - j
    && m.fsm == if k < 8 * p.size then Wburst else Wstatus
  }

  ghost predicate AtWrite(u: Unit, p: Writes, j: nat) {
    OthersAtRest(u) && AtModule(Current(u), u.input, p, j)
  }

  ghost predicate MidWrite(u: Unit, p: Writes, j: nat, k: nat) {
    OthersAtRest(u) && MidModule(Current(u), p, j, k)
  }

  lemma FirstBitStep(m: Module, now: nat, r: Input, b: bool)
    requires Writing(m) && m.fsm == Wwait && r[52] && 0 < m.wordCount < 0x1_0000 && m.bitCount == 0
    ensures ClockModule(m, now, true, Tap.ShiftDr, r, b)
      == m.(fsm := Wburst, bitCount := 1, wordCount := m.wordCount - 1, crc := Step(Crc.POLY, m.crc, b), bus := BusFirst(m))
  {
    Crc.HardwareAgrees(m.crc, b);
    hide FromNat, WriteMem, Step, Crc.HardwareStep, ModuleSelect, Operation;
  }

  lemma NextBitStep(m: Module, now: nat, r: Input, b: bool)
    requires Writing(m) && m.fsm == Wburst
    ensures ClockModule(m, now, true, Tap.ShiftDr, r, b)
      == m.(fsm := if m.LastBit() then Wstatus else Wburst, bitCount := m.bitCount + 1,
            crc := Step(Crc.POLY, m.crc, b), bus := m.bus.Tick())
  {
    Crc.HardwareAgrees(m.crc, b);
    hide FromNat, WriteMem, Step, Crc.HardwareStep, ModuleSelect, Operation;
  }

  lemma ModuleBit(m: Module, now: nat, r: Input, p: Writes, j: nat, k: nat, b: bool)
    requires if k == 0 then AtModule(m, r, p, j) else k < 8 * p.size && MidModule(m, p, j, k)
    ensures Writing(m)
    ensures var n := ClockModule(m, now, true, Tap.ShiftDr, r, b);
      && MidModule(n, p, j, k + 1) && n.crc == Step(Crc.POLY, m.crc, b) && n.intReg == m.intReg
      && n.regSel == m.regSel && n.bus == BusFirst(m)
  {
    hide ClockModule, Writes.At, Step, Bus.Tick, WordSize, Fill;
    TickBus(m.bus);
    if m.fsm == Wwait { FirstBitStep(m, now, r, b); } else { NextBitStep(m, now, r, b); }
  }

  /** One bit of a word comes in */
  lemma WriteBit(u: Unit, p: Writes, j: nat, k: nat, b: bool)
    requires if k == 0 then AtWrite(u, p, j) else k < 8 * p.size && MidWrite(u, p, j, k)
    ensures u.id < MODULES
    ensures var n := ClockUnit(u, true, Tap.ShiftDr, b);
      && MidWrite(n, p, j, k + 1) && SameFrame(u, n) && n.input == u.input[1..] + [b]
      && Current(n).crc == Step(Crc.POLY, Current(u).crc, b) && Current(n).intReg == Current(u).intReg
      && Current(n).regSel == Current(u).regSel && Current(n).bus == BusFirst(Current(u))
  {
    hide ClockUnit, ClockModule, SameFrame, AtModule, MidModule, Step, BusFirst, Writing, ModuleAtRest, UnitTdo, Tdo;
    ModuleBit(Current(u), u.time, u.input, p, j, k, b);
    BusyWrite(u, b);
  }

  /** The rest of a word comes in */
  lemma {:induction false} WriteBits(u: Unit, p: Writes, j: nat, k: nat, w: Stream)
    requires 0 < k && k + |w| == 8 * p.size && MidWrite(u, p, j, k)
    ensures u.id < MODULES
    ensures var n := UnitShifted(u, w);
      && MidWrite(n, p, j, 8 * p.size) && SameFrame(u, n) && n.input == (u.input + w)[|w|..]
      && Current(n).crc == Fold(Crc.POLY, Current(u).crc, w) && Current(n).intReg == Current(u).intReg
      && Current(n).regSel == Current(u).regSel && Current(n).bus == Current(u).bus.Aged(|w|)
    decreases w
  {
    hide ClockUnit, MidWrite, SameFrame, Step, Bus.Tick;
    MidRange(u, p, j, k);
    if w == [] {
      SameFrameSelf(u);
      assert (u.input + w)[0..] == u.input;
    } else {
      WriteBit(u, p, j, k, w[0]);
      var v := ClockUnit(u, true, Tap.ShiftDr, w[0]);
      MidRange(v, p, j, k + 1);
      WriteBits(v, p, j, k + 1, w[1..]);
      SameFrameTrans(u, v, UnitShifted(v, w[1..]));
      SameFrameRange(u, UnitShifted(v, w[1..]));
      ShiftIn(u.input, w);
      MidBus(u, p, j, k);
    }
  }

  lemma SameFrameRange(u: Unit, v: Unit)
    requires SameFrame(u, v)
    ensures u.id == v.id < MODULES
  {
  }

  lemma MidRange(u: Unit, p: Writes, j: nat, k: nat)
    requires MidWrite(u, p, j, k)
    ensures u.id < MODULES && OthersAtRest(u) && 1 <= p.size <= 4 && j < p.count
  {
    hide Writes.At;
  }

  lemma MidBus(u: Unit, p: Writes, j: nat, k: nat)
    requires MidWrite(u, p, j, k)
    ensures BusFirst(Current(u)) == Current(u).bus.Tick()
  {
    hide Writes.At;
  }

  /** A whole word comes in */
  lemma WriteWord(u: Unit, p: Writes, j: nat, w: Stream)
    requires AtWrite(u, p, j) && |w| == 8 * p.size
    ensures u.id < MODULES
    ensures var n := UnitShifted(u, w);
      && MidWrite(n, p, j, 8 * p.size) && SameFrame(u, n) && n.input[53 - |w|..] == w
      && Current(n).crc == Fold(Crc.POLY, Current(u).crc, w) && Current(n).intReg == Current(u).intReg
      && Current(n).regSel == Current(u).regSel && Current(n).bus == BusFirst(Current(u)).Aged(|w| - 1)
  {
    hide ClockUnit, MidWrite, SameFrame, Step, BusFirst;
    assert 1 <= p.size <= 4;
    WriteBit(u, p, j, 0, w[0]);
    var v := ClockUnit(u, true, Tap.ShiftDr, w[0]);
    MidRange(v, p, j, 1);
    WriteBits(v, p, j, 1, w[1..]);
    SameFrameTrans(u, v, UnitShifted(v, w[1..]));
    SameFrameRange(u, UnitShifted(v, w[1..]));
    ShiftIn(u.input, w);
    var r := u.input;
    assert (r + w)[|w|..][53 - |w|..] == w;
    hide AtWrite;
  }

  // --- its status bit ---

  lemma StatusClock(m: Module, now: nat, r: Input, b: bool)
    requires Writing(m) && m.fsm == Wstatus && m.wordCount < 0x1_0000
    ensures Tdo(m, r) == (m.bus.left == 0)
    ensures ClockModule(m, now, true, Tap.ShiftDr, r, b)
      == m.(fsm := if m.wordCount == 0 then Wcrc else Wburst, bitCount := 0,
            wordCount := if m.wordCount == 0 then 0xffff else m.wordCount - 1, addr := m.Advance(),
            intReg := Watch(m, true, true), bus := m.bus.Strobe(true, m.Place(), m.Size(), r[53 - 8 * m.Size()..]))
  {
    hide FromNat, WriteMem, Watch, Bus.Strobe, WordSize, ModuleSelect, Operation;
  }

  lemma StrobeWrites(b: Bus, place: nat, size: nat, value: Stream)
    requires Settled(b) && 1 <= size <= 4 && |value| == 8 * size
    ensures var n := b.Strobe(true, place, size, value);
      && Settled(n)
      && (b.left == 0 ==>
            && n.left == b.NextAnswer().wait + 1 && n.err == b.err && n.data == b.data && n.mem == b.mem
            && n.result == Result(b.data, b.NextAnswer().err,
                 if b.NextAnswer().err then b.mem else WriteMem(b.mem, Lane(place, size), value))
            && n.answers == (if b.answers == [] then [] else b.answers[1..]))
      && (b.left > 0 ==> n == b.Tick())
  {
    hide WriteMem;
  }

  /** What follows word `j`: the next word or the check word */
  predicate AfterWord(n: Module, p: Writes, j: nat) {
    if j + 1 < p.count then AtModule(n, NO_INPUT, p, j + 1) else Writing(n) && n.fsm == Wcrc && n.bitCount == 0
  }

  lemma WatchKeeps(m: Module, check: bool, strobe: bool)
    requires |m.intReg| == 33 && m.kind == Wishbone
    ensures var w := Watch(m, check, strobe);
      && |w| == 33 && (m.intReg[0] ==> w == m.intReg)
      && (!m.intReg[0] && check && m.bus.err ==> w == m.intReg[0 := true])
      && (!m.intReg[0] && !(check && m.bus.err) ==> w == if strobe then [false] + FromNat(m.addr, 32) else m.intReg)
  {
    hide FromNat;
  }

  lemma StatusStep(m: Module, now: nat, r: Input, p: Writes, j: nat, b: bool)
    requires MidModule(m, p, j, 8 * p.size)
    ensures Writing(m) && 1 <= p.size <= 4 && |m.intReg| == 33
    ensures Tdo(m, r) == (m.bus.left == 0)
    ensures var n := ClockModule(m, now, true, Tap.ShiftDr, r, b);
      && AfterWord(n, p, j) && n.crc == m.crc && n.regSel == m.regSel && n.intReg == Watch(m, true, true)
      && n.bus == m.bus.Strobe(true, p.At(j), p.size, r[53 - 8 * p.size..]) && |n.intReg| == 33
  {
    hide ClockModule, Writes.At, Bus.Strobe, Tdo, Watch, Fill;
    StatusClock(m, now, r, b);
    StrobeWrites(m.bus, m.Place(), m.Size(), r[53 - 8 * m.Size()..]);
    WatchKeeps(m, true, true);
    NextWrite(p, j);
    if j + 1 < p.count { NextWrite(p, j + 1); }
    hide WordSize;
  }

  // --- the check word ---

  predicate CrcModule(m: Module, k: nat) {
    Writing(m) && m.fsm == Wcrc && m.bitCount == k
  }

  ghost predicate CrcWrite(u: Unit, k: nat) {
    OthersAtRest(u) && CrcModule(Current(u), k)
  }

  lemma CrcClock(m: Module, now: nat, r: Input, tap: Tap.State, b: bool)
    requires Writing(m) && m.fsm == Wcrc && tap in {Tap.ShiftDr, Tap.Exit1Dr}
    ensures ClockModule(m, now, true, tap, r, b)
      == m.(fsm := if m.bitCount == 32 then Wmatch else Wcrc, bitCount := m.bitCount + 1, bus := m.bus.Tick())
    ensures m.bitCount == 32 ==> Tdo(m, r) == (r[21..53] == m.crc)
  {
    hide FromNat, WriteMem, ModuleSelect, Operation, Watch;
  }

  lemma {:induction false} CrcBits(u: Unit, k: nat, w: Stream)
    requires k + |w| == 32 && CrcWrite(u, k)
    ensures u.id < MODULES
    ensures var n := UnitShifted(u, w);
      && CrcWrite(n, 32) && SameFrame(u, n) && n.input == (u.input + w)[|w|..]
      && Current(n).crc == Current(u).crc && Current(n).intReg == Current(u).intReg
      && Current(n).regSel == Current(u).regSel && Current(n).bus == Current(u).bus.Aged(|w|)
    decreases w
  {
    hide ClockUnit, SameFrame, Bus.Tick, ClockModule, CrcModule, OthersAtRest, UnitTdo, Tdo;
    if w == [] {
      SameFrameSelf(u);
      SameFrameRange(u, u);
      assert (u.input + w)[0..] == u.input;
    } else {
      CrcParts(u, k);
      BusyWrite(u, w[0]);
      CrcClock(Current(u), u.time, u.input, Tap.ShiftDr, w[0]);
      var v := ClockUnit(u, true, Tap.ShiftDr, w[0]);
      SameFrameRange(u, v);
      CrcNext(Current(u), k);
      CrcBits(v, k + 1, w[1..]);
      SameFrameTrans(u, v, UnitShifted(v, w[1..]));
      ShiftIn(u.input, w);
    }
  }

  lemma CrcParts(u: Unit, k: nat)
    requires CrcWrite(u, k)
    ensures u.id < MODULES && OthersAtRest(u) && Writing(Current(u)) && Current(u).fsm == Wcrc
    ensures Current(u).bitCount == k
  {
  }

  lemma CrcNext(m: Module, k: nat)
    requires CrcModule(m, k) && k < 32
    ensures CrcModule(m.(fsm := Wcrc, bitCount := m.bitCount + 1, bus := m.bus.Tick()), k + 1)
  {
    TickBus(m.bus);
  }

  // --- the end ---

  /** Waiting for the end of the scan after the check, or for it to be cut short between words */
  predicate Ending(m: Module, k: nat) {
    && Writing(m)
    && (m.fsm == Wmatch || (m.fsm == Wcrc && m.bitCount + k <= 32) || (m.fsm == Wburst && m.bitCount + k < 8))
  }

  lemma EndingClock(m: Module, now: nat, r: Input, tap: Tap.State, b: bool, k: nat)
    requires Ending(m, k + 1) && tap in {Tap.ShiftDr, Tap.Exit1Dr}
    ensures var n := ClockModule(m, now, true, tap, r, b);
      && Ending(n, k) && (n.fsm == m.fsm) && n.intReg == m.intReg && n.regSel == m.regSel && n.kind == m.kind
      && n.bus == m.bus.Tick()
  {
    hide FromNat, WriteMem, ModuleSelect, Operation, Watch, Crc.HardwareStep, Bus.Tick;
    TickBus(m.bus);
    if m.fsm == Wcrc {
      CrcClock(m, now, r, tap, b);
    } else if m.fsm == Wburst {
      assert 8 * m.Size() >= 8 && !m.LastBit();
    } else {
      WatchKeeps(m, false, false);
    }
  }

  lemma UpdateClock(m: Module, now: nat, r: Input, b: bool)
    requires Writing(m) && m.fsm in {Wburst, Wcrc, Wmatch}
    ensures var n := ClockModule(m, now, true, Tap.UpdateDr, r, b);
      && n.fsm == Idle && n.kind == m.kind && n.regSel == m.regSel && n.out == m.out
      && n.intReg == (if m.fsm == Wmatch then Watch(m, true, false) else m.intReg)
      && n.bus == m.bus.Tick() && n.since == now + 1
  {
    hide FromNat, WriteMem, ModuleSelect, Operation, Watch, Crc.HardwareStep, WordSize, Bus.Tick;
  }

  /** Update-DR brings the module to rest; after the check it looks at the last transfer, which goes on
      if it is still in progress */
  lemma EndingUpdate(m: Module, now: nat, r: Input, b: bool)
    requires Ending(m, 0)
    ensures Inhibits(m) && Writing(m)
    ensures var n := ClockModule(m, now, true, Tap.UpdateDr, r, b);
      && ModuleAtRest(n) && n.kind == m.kind && n.regSel == m.regSel
      && n.intReg == (if m.fsm == Wmatch then Watch(m, true, false) else m.intReg)
      && n.bus == m.bus.Tick() && n.since == now + 1
  {
    hide ClockModule, Watch, WordSize, Bus.Tick;
    WatchKeeps(m, true, false);
    UpdateClock(m, now, r, b);
    TickBus(m.bus);
  }
}
