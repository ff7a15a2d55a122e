/** The debug unit behind the target's TAP: module selection, internal registers and the
    burst engine, clock by clock, in the build that sends a status bit with every word. */
module DebugUnit {
  import opened Bits
  import Crc
  import Tap

  // --- the bus behind the Wishbone module ---

  /** How the bus answers one transfer: how long it takes and whether it fails */
  datatype Answer = Answer(wait: nat, err: bool)

  type Memory = map<nat, Byte>

  /** What a transfer leaves behind: what the bus shows then, and the memory */
  datatype Result = Result(data: Word, err: bool, mem: Memory)

  /** `left` clocks remain until the transfer in progress, if any, completes with `result`; `data` and
      `err` are what the bus shows meanwhile */
  datatype Bus = Bus(mem: Memory, left: nat, data: Word, err: bool, result: Result, answers: seq<Answer>) {
    predicate Ready() {
      left == 0
    }

    function Tick(): Bus {
      if left == 0 then this
      else if left == 1 then this.(left := 0, data := result.data, err := result.err, mem := result.mem)
      else this.(left := left - 1)
    }

    /** `k` clocks later */
    function Aged(k: nat): Bus
      decreases k
    {
      if k == 0 then this else Tick().Aged(k - 1)
    }

    /** A transfer in progress is dropped, and what the last one left is cleared */
    function Clear(): Bus {
      this.(left := 0, data := ZERO, err := false, result := Result(ZERO, false, mem))
    }

    function NextAnswer(): Answer {
      if answers == [] then Answer(0, false) else answers[0]
    }

    /** Starts a transfer; while one is in progress the bus takes no other */
    function Strobe(write: bool, addr: nat, size: nat, value: Stream): Bus
      requires |value| == 8 * size && 0 < size <= 4
    {
      if left > 0 then Tick() else
        var a := NextAnswer();
        var rest := if answers == [] then [] else answers[1..];
        var done :=
          if a.err then Result(data, true, mem)
          else if write then Result(data, false, WriteMem(mem, Lane(addr, size), value))
          else Result(Pack(ReadMem(mem, Lane(addr, size), size)), false, mem);
        Bus(mem, a.wait + 1, data, err, done, rest)
    }
  }

  /** With no transfer in progress the last one's result is what there is */
  predicate Settled(b: Bus) {
    b.left == 0 ==> b.result == Result(b.data, b.err, b.mem)
  }

  /** Where an access of `size` bytes at `addr` goes: the bus unit selects the byte lanes of an
      aligned word and drops the address bits below it */
  function Lane(addr: nat, size: nat): nat
    requires size > 0
  {
    addr - addr % size
  }

  function ByteAt(mem: Memory, addr: nat): Byte {
    if addr in mem then mem[addr] else Fill(8, false)
  }

  /** `size` bytes, the one at the lowest address most significant */
  function ReadMem(mem: Memory, addr: nat, size: nat): (s: Stream)
    ensures |s| == 8 * size
    decreases size
  {
    if size == 0 then [] else ReadMem(mem, addr + 1, size - 1) + ByteAt(mem, addr)
  }

  function WriteMem(mem: Memory, addr: nat, value: Stream): Memory
    requires |value| % 8 == 0
    decreases value
  {
    if value == [] then mem else
      WriteMem(mem, addr + 1, value[..|value| - 8])[addr := value[|value| - 8..]]
  }

  // --- a module ---

  datatype Fsm = Idle | Rbegin | Rready | Rstatus | Rburst | Rcrc
    | Wready | Wwait | Wburst | Wstatus | Wcrc | Wmatch

  const NOP: nat := 0x0
  const BWRITE8: nat := 0x1
  const BWRITE16: nat := 0x2
  const BWRITE32: nat := 0x3
  const BREAD8: nat := 0x5
  const BREAD16: nat := 0x6
  const BREAD32: nat := 0x7
  const IREG_WR: nat := 0x9
  const IREG_SEL: nat := 0xd

  /** The 53-bit shift register at the top of the unit; the newest bit is bit 52 */
  type Input = s: Stream | |s| == 53 witness seq(53, _ => false)

  predicate ModuleSelect(r: Input) { r[52] }
  function ModuleId(r: Input): nat { ToNat(r[50..52]) }
  function Operation(r: Input): nat { ToNat(r[48..52]) }
  function Address(r: Input): nat { ToNat(r[16..48]) }
  function Count(r: Input): nat { ToNat(r[0..16]) }

  predicate ReadOp(op: nat) { op / 4 % 2 == 1 }

  /** Bytes moved per word by a burst operation */
  function WordSize(op: nat): (n: nat)
    ensures 1 <= n <= 4
  {
    if op % 4 == 1 then 1 else if op % 4 == 2 then 2 else 4
  }

  datatype Kind = Wishbone | Cpu

  predicate BurstOp(kind: Kind, op: nat) {
    if kind == Cpu then op in {BWRITE32, BREAD32} else op % 16 < 8 && op % 4 != 0
  }

  /** `intReg` is the module's one internal register: the bus error register of the Wishbone
      module (error flag, then the failing address) or the status register of a CPU module.  While the
      module is idle nothing looks at its bus: `bus` is as it was at clock `since`. */
  datatype Module = Module(kind: Kind, fsm: Fsm, addr: nat, bitCount: nat, wordCount: nat, op: nat,
                           out: Stream, regSel: bool, intReg: Stream, crc: Word, bus: Bus, since: nat)
  {
    function Size(): (n: nat)
      ensures 1 <= n <= 4
    {
      if kind == Cpu then 4 else WordSize(op)
    }

    /** CPU registers are addressed by word, bus memory by byte */
    function Stride(): nat {
      if kind == Cpu then 1 else Size()
    }

    /** The byte address of the word at `addr` */
    function Place(): nat {
      if kind == Cpu then 4 * addr else addr
    }

    predicate LastBit() {
      bitCount == 8 * Size() - 1
    }

    function Advance(): nat {
      (addr + Stride()) % 0x1_0000_0000
    }
  }

  function ShiftOut(out: Stream): Stream {
    if out == [] then [] else out[1..] + [false]
  }

  /** The state the machine takes at the next clock */
  function NextFsm(m: Module, selected: bool, tap: Tap.State, r: Input): Fsm {
    match m.fsm
    case Idle =>
      if selected && tap.UpdateDr? && !ModuleSelect(r) && BurstOp(m.kind, Operation(r))
      then (if ReadOp(Operation(r)) then Rbegin else Wready) else Idle
    case Rbegin => if m.wordCount == 0 then Idle else Rready
    case Rready => if selected && tap.CaptureDr? then Rstatus else Rready
    case Rstatus => if tap.UpdateDr? then Idle else if m.bus.Ready() then Rburst else Rstatus
    case Rburst =>
      if tap.UpdateDr? then Idle
      else if m.LastBit() then (if m.wordCount == 0 then Rcrc else Rstatus) else Rburst
    case Rcrc => if tap.UpdateDr? then Idle else Rcrc
    case Wready => if m.wordCount == 0 then Idle else if selected && tap.CaptureDr? then Wwait else Wready
    case Wwait => if tap.UpdateDr? then Idle else if selected && r[52] then Wburst else Wwait
    case Wburst => if tap.UpdateDr? then Idle else if m.LastBit() then Wstatus else Wburst
    case Wstatus => if tap.UpdateDr? then Idle else if m.wordCount == 0 then Wcrc else Wburst
    case Wcrc => if tap.UpdateDr? then Idle else if m.bitCount == 32 then Wmatch else Wcrc
    case Wmatch => if tap.UpdateDr? then Idle else Wmatch
  }

  /** What the module shows on its output */
  predicate Tdo(m: Module, r: Input) {
    match m.fsm
    case Rstatus | Wstatus => m.bus.Ready()
    case Rcrc => m.crc[0]
    case Wmatch => r[21..53] == m.crc
    case Wcrc => if m.bitCount == 32 then r[21..53] == m.crc else m.out != [] && m.out[0]
    case _ => m.out != [] && m.out[0]
  }

  /** While a burst is under way the top level must not take the input for a command */
  predicate Inhibits(m: Module) {
    m.fsm !in {Idle, Rbegin, Rready, Wready}
  }

  /** The bus error register: latches the address of each transfer until one fails */
  function Watch(m: Module, check: bool, strobe: bool): Stream {
    if m.kind == Cpu || m.intReg == [] || m.intReg[0] then m.intReg
    else if check && m.bus.err then m.intReg[0 := true]
    else if strobe then [false] + FromNat(m.addr, 32)
    else m.intReg
  }

  /** A write to the internal register: clears the error flag, or sets the CPU status */
  function WriteReg(m: Module, r: Input): Stream {
    if r[47] then m.intReg
    else if m.kind == Cpu then [r[45], r[46]] + Fill(31, false)
    else if r[46] && m.intReg != [] then m.intReg[0 := false]
    else m.intReg
  }

  /** The bus of an idle module at clock `now` */
  function BusNow(m: Module, now: nat): Bus {
    if now > m.since then m.bus.Aged(now - m.since) else m.bus
  }

  function ClockIdle(m: Module, now: nat, selected: bool, tap: Tap.State, r: Input): Module {
    var command := selected && tap.UpdateDr? && !ModuleSelect(r);
    var op := Operation(r);
    if command && BurstOp(m.kind, op) then
      m.(fsm := if ReadOp(op) then Rbegin else Wready, addr := Address(r), wordCount := Count(r), op := op,
         bitCount := 0, crc := ONES, bus := BusNow(m, now + 1))
    else if command && op == IREG_WR then m.(regSel := r[47], intReg := WriteReg(m, r))
    else if command && op == IREG_SEL then m.(regSel := r[47])
    else if selected && tap.CaptureDr? then m.(out := m.intReg)
    else if selected && tap.ShiftDr? then m.(out := ShiftOut(m.out))
    else m
  }

  function ClockRead(m: Module, selected: bool, tap: Tap.State, r: Input): Module
    requires m.fsm in {Rbegin, Rready, Rstatus, Rburst, Rcrc}
  {
    var next := NextFsm(m, selected, tap, r);
    match m.fsm
    case Rbegin =>
      if m.wordCount == 0 then m.(fsm := next, bus := m.bus.Tick())
      else m.(fsm := next, addr := m.Advance(), intReg := Watch(m, false, true),
              bus := m.bus.Strobe(false, m.Place(), m.Size(), Fill(8 * m.Size(), false)))
    case Rstatus =>
      if next != Rburst then m.(fsm := next, bus := m.bus.Tick())
      else
        var loaded := m.(fsm := next, out := m.bus.data + [false], bitCount := 0, wordCount := (m.wordCount + 0xffff) % 0x1_0000);
        if m.wordCount > 1 then
          loaded.(addr := m.Advance(), intReg := Watch(m, true, true),
                  bus := m.bus.Strobe(false, m.Place(), m.Size(), Fill(8 * m.Size(), false)))
        else loaded.(intReg := Watch(m, true, false), bus := m.bus.Tick())
    case Rburst =>
      m.(fsm := next, out := ShiftOut(m.out), bitCount := m.bitCount + 1,
         crc := Crc.HardwareStep(m.crc, m.out != [] && m.out[0]), bus := m.bus.Tick())
    case Rcrc => m.(fsm := next, crc := Shr(m.crc, 1), bus := m.bus.Tick())
    case _ => m.(fsm := next, bus := m.bus.Tick())
  }

  function ClockWrite(m: Module, selected: bool, tap: Tap.State, r: Input, tdi: bool): Module
    requires m.fsm in {Wready, Wwait, Wburst, Wstatus, Wcrc, Wmatch}
  {
    var next := NextFsm(m, selected, tap, r);
    match m.fsm
    case Wwait =>
      if next != Wburst then m.(fsm := next, bus := m.bus.Tick())
      else m.(fsm := next, bitCount := m.bitCount + 1, wordCount := (m.wordCount + 0xffff) % 0x1_0000,
              crc := Crc.HardwareStep(m.crc, tdi), bus := m.bus.Clear())
    case Wburst =>
      m.(fsm := next, bitCount := m.bitCount + 1, crc := Crc.HardwareStep(m.crc, tdi), bus := m.bus.Tick())
    case Wstatus =>
      m.(fsm := next, bitCount := 0, wordCount := (m.wordCount + 0xffff) % 0x1_0000, addr := m.Advance(),
         intReg := Watch(m, true, true),
         bus := m.bus.Strobe(true, m.Place(), m.Size(), r[53 - 8 * m.Size()..]))
    case Wcrc => m.(fsm := next, bitCount := m.bitCount + 1, bus := m.bus.Tick())
    case Wmatch =>
      m.(fsm := next, intReg := Watch(m, next == Idle, false), bus := m.bus.Tick())
    case _ => m.(fsm := next, bus := m.bus.Tick())
  }

  function ClockBusy(m: Module, now: nat, selected: bool, tap: Tap.State, r: Input, tdi: bool): Module {
    match m.fsm
    case Idle => ClockIdle(m, now, selected, tap, r)
    case Rbegin | Rready | Rstatus | Rburst | Rcrc => ClockRead(m, selected, tap, r)
    case _ => ClockWrite(m, selected, tap, r, tdi)
  }

  /** One clock, the one after `now` others */
  function ClockModule(m: Module, now: nat, selected: bool, tap: Tap.State, r: Input, tdi: bool): Module {
    var n := ClockBusy(m, now, selected, tap, r, tdi);
    if n.fsm == Idle && m.fsm != Idle then n.(since := now + 1) else n
  }

  // --- the unit ---

  const MODULES: nat := 3

  /** `time` counts clocks */
  datatype Unit = Unit(input: Input, id: nat, wb: Module, cpu0: Module, cpu1: Module, time: nat) {
    function Mod(k: nat): Module
      requires k < MODULES
    {
      if k == 0 then wb else if k == 1 then cpu0 else cpu1
    }

    predicate Inhibited() {
      Inhibits(wb) || Inhibits(cpu0) || Inhibits(cpu1)
    }
  }

  predicate UnitTdo(u: Unit) {
    if u.id < MODULES then Tdo(u.Mod(u.id), u.input) else false
  }

  /** One clock.  `debug` says whether the TAP has the debug instruction selected. */
  function ClockUnit(u: Unit, debug: bool, tap: Tap.State, tdi: bool): Unit {
    Unit(if debug && tap.ShiftDr? then u.input[1..] + [tdi] else u.input,
         if debug && tap.UpdateDr? && ModuleSelect(u.input) && !u.Inhibited() then ModuleId(u.input) else u.id,
         ClockModule(u.wb, u.time, u.id == 0, tap, u.input, tdi),
         ClockModule(u.cpu0, u.time, u.id == 1, tap, u.input, tdi),
         ClockModule(u.cpu1, u.time, u.id == 2, tap, u.input, tdi),
         u.time + 1)
  }
}
