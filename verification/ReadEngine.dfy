/** The reading half of the debug unit's burst engine, bit by bit. */
module ReadEngine {
  import opened Bits
  import opened ShiftRegister
  import Crc
  import opened DebugUnit
  import opened UnitLaws
  import Tap

  /** Sending words or the check word */
  predicate Reading(m: Module) {
    m.fsm in {Rstatus, Rburst, Rcrc} && |m.out| == |m.intReg| == 33 && Settled(m.bus)
  }

  const NO_INPUT: Input := Fill(53, false)

  /** One clock of a reading module */
  function ReadNext(m: Module): (n: Module)
    requires Reading(m)
    ensures Reading(n)
  {
    hide FromNat, ReadMem, ModuleSelect, Operation, WriteReg, Crc.HardwareStep;
    ClockModule(m, 0, true, Tap.ShiftDr, NO_INPUT, false)
  }

  /** Neither the time, nor the data that comes in, nor the state of the TAP, until it leaves the scan,
      matters */
  lemma ReadClock(m: Module, now: nat, tap: Tap.State, r: Input, tdi: bool)
    requires Reading(m) && tap in {Tap.ShiftDr, Tap.Exit1Dr}
    ensures ClockModule(m, now, true, tap, r, tdi) == ReadNext(m)
    ensures Tdo(m, r) == Tdo(m, NO_INPUT)
  {
    hide FromNat, ReadMem, ModuleSelect, Operation, WriteReg, Crc.HardwareStep;
  }

  function ReadAfter(m: Module, k: nat): (n: Module)
    requires Reading(m)
    ensures Reading(n)
    decreases k
  {
    if k == 0 then m else ReadAfter(ReadNext(m), k - 1)
  }

  /** The next `k` bits a reading module shows */
  function ReadOut(m: Module, k: nat): (s: Stream)
    requires Reading(m)
    ensures |s| == k
    decreases k
  {
    if k == 0 then [] else [Tdo(m, NO_INPUT)] + ReadOut(ReadNext(m), k - 1)
  }

  lemma {:induction false} ReadMore(m: Module, a: nat, b: nat)
    requires Reading(m)
    ensures ReadAfter(m, a + b) == ReadAfter(ReadAfter(m, a), b)
    ensures ReadOut(m, a + b) == ReadOut(m, a) + ReadOut(ReadAfter(m, a), b)
    decreases a
  {
    hide ReadNext, Tdo, Reading;
    if a > 0 {
      ReadMore(ReadNext(m), a - 1, b);
    }
  }

  // --- the course of a burst ---

  /** A burst: `count` words from `base` on, of `size` bytes each */
  datatype Plan = Plan(kind: Kind, size: nat, mem: Memory, base: nat, count: nat) {
    function At(j: nat): nat {
      base + j * (if kind == Cpu then 1 else size)
    }

    /** Where the bus looks for word `j` */
    function Place(j: nat): nat
      requires size > 0
    {
      Lane(if kind == Cpu then 4 * At(j) else At(j), size)
    }

    predicate Fits() {
      1 <= size <= 4 && (kind == Cpu ==> size == 4) && 0 < count < 0x1_0000 && At(count - 1) < 0x1_0000_0000
    }
  }

  /** The error register of the bus names address `a` should this transfer fail */
  predicate Names(m: Module, a: nat) {
    m.kind == Wishbone && m.intReg != [] && !m.intReg[0] ==> m.intReg == [false] + FromNat(a, 32)
  }

  /** Word `j` of the plan is being waited for or sent; the next one is being fetched */
  ghost predicate InBurst(m: Module, p: Plan, j: nat) {
    && Reading(m) && p.Fits() && m.kind == p.kind && m.Size() == p.size && m.bus.result.mem == p.mem
    && match m.fsm
       case Rstatus =>
         && j < p.count && m.wordCount == p.count - j
         && (j + 1 < p.count ==> m.addr == p.At(j + 1)) && Names(m, p.At(j))
       case Rburst =>
         && j < p.count && m.wordCount == p.count - j - 1 && m.bitCount < 8 * p.size
         && (j + 2 < p.count ==> m.addr == p.At(j + 2)) && (j + 1 < p.count ==> Names(m, p.At(j + 1)))
       case _ => j == p.count
  }

  /** What taking a word does to the error register: the first failure stays, with its address */
  predicate Registers(m: Module, n: Module, a: nat) {
    && |n.intReg| == 33 && |m.intReg| == 33
    && (m.intReg[0] || m.kind == Cpu ==> n.intReg == m.intReg)
    && (!m.intReg[0] && m.kind == Wishbone ==> if m.bus.err then n.intReg == [true] + FromNat(a, 32) else !n.intReg[0])
  }

  /** What asking for a word does to the bus */
  ghost predicate Fetches(b: Bus, n: Bus, place: nat, size: nat)
    requires 0 < size <= 4
  {
    && Settled(n) && n.left == b.NextAnswer().wait + 1
    && n.result == Result(if b.NextAnswer().err then b.data else Pack(ReadMem(b.mem, place, size)), b.NextAnswer().err, b.mem)
    && n.answers == if b.answers == [] then [] else b.answers[1..]
  }

  lemma NextAt(p: Plan, j: nat)
    requires p.Fits() && j < p.count
    ensures p.At(j) < 0x1_0000_0000
    ensures p.At(j + 1) == p.At(j) + (if p.kind == Cpu then 1 else p.size)
  {
    if p.kind == Wishbone { Below(j, p.count, p.size); }
    if p.kind == Wishbone && j + 1 < p.count { Below(j, p.count - 1, p.size); }
  }

  lemma Below(j: nat, count: nat, size: nat)
    requires j < count && size > 0
    ensures j * size < count * size && (j + 1) * size == j * size + size
  {
  }

  lemma AdvanceIs(m: Module, p: Plan, j: nat)
    requires p.Fits() && j < p.count && m.kind == p.kind && m.Size() == p.size && m.addr == p.At(j)
    ensures j + 1 < p.count ==> m.Advance() == p.At(j + 1)
    ensures Lane(m.Place(), m.Size()) == p.Place(j)
    ensures m.addr < 0x1_0000_0000
  {
    NextAt(p, j);
    if j + 1 < p.count { NextAt(p, j + 1); }
  }

  lemma StrobeFetches(b: Bus, place: nat, size: nat, value: Stream)
    requires b.left == 0 && 1 <= size <= 4 && |value| == 8 * size
    ensures Fetches(b, b.Strobe(false, place, size, value), Lane(place, size), size)
  {
    hide ReadMem;
  }

  /** Waiting for a word */
  lemma WaitStep(m: Module)
    requires Reading(m) && m.fsm == Rstatus && m.bus.left > 0
    ensures ReadNext(m) == m.(bus := m.bus.Tick())
    ensures !Tdo(m, NO_INPUT)
  {
    hide FromNat, ReadMem;
  }

  /** The word is there: its status bit goes out, the next word is asked for */
  lemma LoadStep(m: Module, p: Plan, j: nat)
    requires InBurst(m, p, j) && m.fsm == Rstatus && m.bus.left == 0
    ensures 1 <= p.size <= 4 && Tdo(m, NO_INPUT)
    ensures var n := ReadNext(m);
      && InBurst(n, p, j) && n.fsm == Rburst && n.bitCount == 0 && n.crc == m.crc && n.regSel == m.regSel
      && n.out == m.bus.data + [false] && Registers(m, n, p.At(j))
      && if j + 1 < p.count then Fetches(m.bus, n.bus, p.Place(j + 1), p.size) else n.bus == m.bus
  {
    hide FromNat, ReadMem, Plan.At, Plan.Place, Bus.Strobe, Bus.Tick, Settled, ReadNext, Tdo, Watch, Lane;
    TickBus(m.bus);
    if j + 1 < p.count {
      AdvanceIs(m, p, j + 1);
      StrobeFetches(m.bus, m.Place(), m.Size(), Fill(8 * m.Size(), false));
      LoadNext(m, p);
      WatchLoads(m, true, p.At(j), m.addr);
    } else {
      LoadLast(m);
      WatchLoads(m, false, p.At(j), m.addr);
    }
  }

  /** The error register when a word is taken and, with `strobe`, the next one asked for */
  lemma WatchLoads(m: Module, strobe: bool, a: nat, next: nat)
    requires |m.intReg| == 33 && Names(m, a) && next == m.addr
    ensures var w := Watch(m, true, strobe);
      && Registers(m, m.(intReg := w), a)
      && (strobe && m.kind == Wishbone && !w[0] ==> w == [false] + FromNat(next, 32))
  {
    hide FromNat;
    var f := FromNat(a, 32);
    assert ([false] + f)[0 := true] == [true] + f;
  }

  lemma LoadNext(m: Module, p: Plan)
    requires Reading(m) && m.fsm == Rstatus && m.bus.left == 0 && 1 < m.wordCount < 0x1_0000
    ensures Tdo(m, NO_INPUT)
    ensures ReadNext(m) == m.(fsm := Rburst, out := m.bus.data + [false], bitCount := 0, wordCount := m.wordCount - 1,
      addr := m.Advance(), intReg := Watch(m, true, true),
      bus := m.bus.Strobe(false, m.Place(), m.Size(), Fill(8 * m.Size(), false)))
  {
    hide FromNat, ReadMem, Watch, Bus.Strobe;
  }

  lemma LoadLast(m: Module)
    requires Reading(m) && m.fsm == Rstatus && m.bus.left == 0 && m.wordCount == 1
    ensures Tdo(m, NO_INPUT)
    ensures ReadNext(m) == m.(fsm := Rburst, out := m.bus.data + [false], bitCount := 0, wordCount := 0,
      intReg := Watch(m, true, false), bus := m.bus.Tick())
  {
    hide FromNat, ReadMem, Watch;
  }

  lemma BitMove(m: Module)
    requires Reading(m) && m.fsm == Rburst
    ensures Tdo(m, NO_INPUT) == m.out[0]
    ensures ReadNext(m) ==
      m.(fsm := if !m.LastBit() then Rburst else if m.wordCount == 0 then Rcrc else Rstatus,
         out := m.out[1..] + [false], bitCount := m.bitCount + 1,
         crc := Step(Crc.POLY, m.crc, m.out[0]), bus := m.bus.Tick())
  {
    hide FromNat, ReadMem, Step;
    Crc.HardwareAgrees(m.crc, m.out[0]);
    hide Crc.HardwareStep;
  }

  /** One bit of a word */
  lemma BitStep(m: Module, p: Plan, j: nat)
    requires InBurst(m, p, j) && m.fsm == Rburst
    ensures Tdo(m, NO_INPUT) == m.out[0]
    ensures var n := ReadNext(m);
      && n.fsm == (if m.bitCount < 8 * p.size - 1 then Rburst else if j + 1 == p.count then Rcrc else Rstatus)
      && InBurst(n, p, if n.fsm == Rburst then j else j + 1)
      && n == m.(fsm := n.fsm, out := m.out[1..] + [false], bitCount := m.bitCount + 1,
                 crc := Step(Crc.POLY, m.crc, m.out[0]), bus := m.bus.Tick())
  {
    hide FromNat, ReadMem, Plan.At, ReadNext, Tdo, Step, Bus.Tick, Settled;
    TickBus(m.bus);
    BitMove(m);
  }

  /** The check word goes out, then zeros */
  lemma CrcStep(m: Module)
    requires Reading(m) && m.fsm == Rcrc
    ensures Tdo(m, NO_INPUT) == m.crc[0]
    ensures ReadNext(m) == m.(crc := Shr(m.crc, 1), bus := m.bus.Tick())
  {
    hide FromNat, ReadMem;
  }

  /** Bits of a word going out leave the registers alone */
  lemma {:induction false} SendBits(m: Module, p: Plan, j: nat, k: nat)
    requires InBurst(m, p, j) && m.fsm == Rburst && m.bitCount + k < 8 * p.size
    ensures Reading(m)
    ensures var n := ReadAfter(m, k);
      && n.intReg == m.intReg && n.bus.result == m.bus.result && n.bus.answers == m.bus.answers
      && n.bus.left == (if m.bus.left > k then m.bus.left - k else 0)
    decreases k
  {
    hide *;
    BurstRange(m, p, j);
    if k > 0 {
      BitStep(m, p, j);
      TickBus(m.bus);
      ReadStep(m, k);
      SendBits(ReadNext(m), p, j, k - 1);
    } else {
      ReadNone(m);
    }
  }

  /** The rest of a word goes out and into the check */
  lemma {:induction false} SendWord(m: Module, p: Plan, j: nat)
    requires InBurst(m, p, j) && m.fsm == Rburst
    ensures var k := 8 * p.size - m.bitCount; var n := ReadAfter(m, k);
      && k <= 32 && ReadOut(m, k) == m.out[..k] && n.crc == Fold(Crc.POLY, m.crc, m.out[..k])
      && n.fsm == (if j + 1 == p.count then Rcrc else Rstatus) && InBurst(n, p, j + 1)
      && n.intReg == m.intReg && n.regSel == m.regSel && n.bus.answers == m.bus.answers && n.bus.result == m.bus.result
      && n.bus.left == (if m.bus.left > k then m.bus.left - k else 0)
    decreases 8 * p.size - m.bitCount
  {
    hide *;
    BurstRange(m, p, j);
    var k := 8 * p.size - m.bitCount;
    var n := ReadNext(m);
    BitStep(m, p, j);
    TickBus(m.bus);
    ReadStep(m, k);
    FoldStep(Crc.POLY, m.crc, m.out[..k]);
    if k > 1 {
      SendWord(n, p, j);
    } else {
      ReadNone(n);
      FoldNone(Crc.POLY, n.crc);
    }
  }

  /** Clocks spent waiting */
  lemma {:induction false} WaitSteps(m: Module, k: nat)
    requires Reading(m) && m.fsm == Rstatus && k <= m.bus.left
    ensures var n := ReadAfter(m, k);
      && n == m.(bus := n.bus) && n.bus.result == m.bus.result && n.bus.answers == m.bus.answers
      && n.bus.left == m.bus.left - k && ReadOut(m, k) == Fill(k, false)
    decreases k
  {
    hide ReadNext, Tdo, Bus.Tick, Settled;
    if k > 0 {
      WaitStep(m);
      TickBus(m.bus);
      WaitSteps(ReadNext(m), k - 1);
    }
  }

  lemma BurstRange(m: Module, p: Plan, j: nat)
    requires InBurst(m, p, j)
    ensures Reading(m) && |m.out| == |m.intReg| == 33 && Settled(m.bus) && p.Fits() && 1 <= p.size <= 4 && j <= p.count
    ensures m.fsm == Rburst ==> m.bitCount < 8 * p.size && j < p.count
    ensures m.fsm == Rstatus ==> j < p.count
    ensures m.kind == p.kind && m.bus.result.mem == p.mem
  {
  }

  lemma ReadStep(m: Module, k: nat)
    requires Reading(m) && k > 0
    ensures ReadAfter(m, k) == ReadAfter(ReadNext(m), k - 1)
    ensures ReadOut(m, k) == [Tdo(m, NO_INPUT)] + ReadOut(ReadNext(m), k - 1)
  {
    hide ReadNext, Tdo, Reading;
  }

  lemma ReadNone(m: Module)
    requires Reading(m)
    ensures ReadAfter(m, 0) == m && ReadOut(m, 0) == []
  {
    hide Reading;
  }

  lemma FoldStep(p: Word, c: Word, s: Stream)
    requires s != []
    ensures Fold(p, c, s) == Fold(p, Step(p, c, s[0]), s[1..])
  {
  }

  /** The check word goes out, lowest bit first; nothing else changes */
  lemma {:induction false} SendCrc(m: Module, k: nat)
    requires Reading(m) && m.fsm == Rcrc
    ensures k <= 32 ==> ReadOut(m, k) == m.crc[..k]
    ensures var n := ReadAfter(m, k);
      && n.fsm == Rcrc && n.intReg == m.intReg && n.bus.answers == m.bus.answers && n.bus.result == m.bus.result
      && n.bus.left == (if m.bus.left > k then m.bus.left - k else 0)
    decreases k
  {
    hide ReadNext, Tdo, Shr, Bus.Tick, Settled;
    if k > 0 {
      CrcStep(m);
      TickBus(m.bus);
      SendCrc(ReadNext(m), k - 1);
      if k <= 32 { assert m.crc[..k] == [m.crc[0]] + Shr(m.crc, 1)[..k - 1]; }
    }
  }

  // --- the unit ---

  /** A clock that selects no module */
  lemma BusyClock(u: Unit, tap: Tap.State, tdi: bool)
    requires OthersAtRest(u) && (tap != Tap.UpdateDr || Inhibits(Current(u)) || !ModuleSelect(u.input))
    ensures var n := ClockUnit(u, true, tap, tdi);
      && OthersAtRest(n) && n.id == u.id
      && n == WithCurrent(u, ClockModule(Current(u), u.time, true, tap, u.input, tdi)).(
                input := if tap.ShiftDr? then u.input[1..] + [tdi] else u.input, time := u.time + 1)
      && Current(n) == ClockModule(Current(u), u.time, true, tap, u.input, tdi)
  {
    hide ClockModule, ModuleAtRest, ModuleId, Inhibits;
    if u.id != 0 { QuietModule(u.wb, u.time, false, tap, u.input, tdi); }
    if u.id != 1 { QuietModule(u.cpu0, u.time, false, tap, u.input, tdi); }
    if u.id != 2 { QuietModule(u.cpu1, u.time, false, tap, u.input, tdi); }
  }

  /** Apart from the selected module, the input register and the time */
  ghost predicate SameFrame(u: Unit, v: Unit) {
    u.id == v.id < MODULES && forall m: Module :: WithCurrent(u, m).(input := v.input, time := v.time) == WithCurrent(v, m)
  }

  lemma {:induction false} ReadUnit(u: Unit, t: Stream)
    requires OthersAtRest(u) && Reading(Current(u))
    ensures var n := UnitShifted(u, t);
      && OthersAtRest(n) && SameFrame(u, n) && Current(n) == ReadAfter(Current(u), |t|)
      && UnitOut(u, t) == ReadOut(Current(u), |t|)
    decreases t
  {
    hide ClockUnit, UnitTdo, ReadNext, Tdo, OthersAtRest, SameFrame;
    if t == [] {
      SameFrameSelf(u);
    } else {
      BusyRead(u, t[0]);
      var v := ClockUnit(u, true, Tap.ShiftDr, t[0]);
      ReadUnit(v, t[1..]);
      SameFrameTrans(u, v, UnitShifted(v, t[1..]));
    }
  }

  lemma SameFrameSelf(u: Unit)
    requires OthersAtRest(u)
    ensures SameFrame(u, u)
  {
  }

  lemma SameFrameTrans(u: Unit, v: Unit, w: Unit)
    requires SameFrame(u, v) && SameFrame(v, w)
    ensures SameFrame(u, w)
  {
  }

  lemma BusyRead(u: Unit, b: bool)
    requires OthersAtRest(u) && Reading(Current(u))
    ensures u.id < MODULES
    ensures var n := ClockUnit(u, true, Tap.ShiftDr, b);
      OthersAtRest(n) && SameFrame(u, n) && Current(n) == ReadNext(Current(u))
    ensures UnitTdo(u) == Tdo(Current(u), NO_INPUT)
  {
    BusyClock(u, Tap.ShiftDr, b);
    ReadClock(Current(u), u.time, Tap.ShiftDr, u.input, b);
    hide ClockModule, ReadNext, Tdo, ModuleAtRest, Reading, ClockUnit;
  }
}
