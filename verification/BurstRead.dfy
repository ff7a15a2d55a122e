/** Burst reads: the host's loops, with partial and full retry, over a slow and failing bus and a
    noisy cable, clock by clock.  They come to exactly what `ReadRun` says. */
module BurstRead {
  import opened Bits
  import opened ShiftRegister
  import Crc
  import opened Scan
  import opened ChainLaws
  import opened DebugUnit
  import opened UnitLaws
  import opened DataLaws
  import opened ChainCommands
  import opened AdvDbg
  import opened DebugCommands
  import opened ReadEngine
  import opened BurstLine
  import opened Transfers
  import opened ReadRun
  import opened ReadLaws
  import opened SlowReads
  import Tap

  /** A scan of a burst under way; the host sees module state `d`, and `u` is the unit when the scan
      began */
  ghost predicate Scanning(h: Chain, d: Module, u: Unit) {
    && h.tap == Tap.ShiftDr && Behind(h, d) && SameFrame(u, h.unit)
    && u.id < MODULES && d.regSel == Current(u).regSel
  }

  /** Reading on keeps the scan going */
  lemma ScanOn(h: Chain, d: Module, u: Unit, s: Stream)
    requires Scanning(h, d, u)
    ensures Reading(d)
    ensures var n := After(h, StreamPins(s, false));
      && Out(h, StreamPins(s, false)) == ReadOut(d, |s|) && Scanning(n, ReadAfter(d, |s|), u)
      && |n.post| == |h.post| && |n.pre| == |h.pre| && SameBoard(n, h)
  {
    hide *;
    ScanningParts(h, d, u);
    ReadBehind(h, d, s, false);
    ReadKeeps(d, |s|);
    AfterBoard(h, StreamPins(s, false));
    var n := After(h, StreamPins(s, false));
    SameFrameTrans(u, h.unit, n.unit);
    ScanningFrom(n, ReadAfter(d, |s|), u);
  }

  lemma ScanningParts(h: Chain, d: Module, u: Unit)
    requires Scanning(h, d, u)
    ensures h.tap == Tap.ShiftDr && Behind(h, d) && SameFrame(u, h.unit) && Reading(d)
    ensures u.id < MODULES && d.regSel == Current(u).regSel
  {
    hide SameFrame, Selecting, Reading;
  }

  lemma ScanningFrom(h: Chain, d: Module, u: Unit)
    requires h.tap == Tap.ShiftDr && Behind(h, d) && SameFrame(u, h.unit)
    requires u.id < MODULES && d.regSel == Current(u).regSel
    ensures Scanning(h, d, u)
  {
    hide Behind, SameFrame;
  }

  lemma BurstOpcodes(opcode: nat)
    requires opcode in {BREAD8, BREAD16, BREAD32}
    ensures opcode < 16 && ReadOp(opcode) && BurstOp(Wishbone, opcode)
  {
  }

  lemma ToShift()
    ensures TO_SHIFT_DR == [TMS_HIGH, TMS_LOW, TMS_LOW]
  {
  }

  lemma WbIsCurrent(u: Unit)
    ensures u.Mod(0) == u.wb && (u.id == 0 ==> Current(u) == u.wb)
  {
  }

  // --- the module's states and their meaning ---

  /** The burst that fetches the words from `i` on, the first of them from address `a` */
  function From(t: Transfer, i: nat, a: nat): Plan
    requires i < t.count
  {
    Plan(Wishbone, t.size, t.mem, a, t.count - i)
  }

  /** Its addresses are words of the transfer */
  lemma {:induction false} FromAt(t: Transfer, i: nat, a: nat, j: nat)
    requires t.Fits() && AtWord(t, i, a) && i + j < t.count
    ensures AtWord(t, i + j, From(t, i, a).At(j))
    decreases j
  {
    hide AtWord;
    if j == 0 {
      assert From(t, i, a).At(0) == a;
    } else {
      FromAt(t, i, a, j - 1);
      AtNextWord(t, i + j - 1, From(t, i, a).At(j - 1));
      Multiply(j - 1, 1, t.size);
      assert From(t, i, a).At(j) == From(t, i, a).At(j - 1) + t.size;
    }
  }

  lemma FromPlace(t: Transfer, i: nat, a: nat, j: nat)
    requires t.Fits() && AtWord(t, i, a) && i + j < t.count
    ensures From(t, i, a).Place(j) == t.Place(i + j) && From(t, i, a).At(j) < 0x1_0000_0000
  {
    FromAt(t, i, a, j);
    AtWordRange(t, i + j, From(t, i, a).At(j));
    hide Lane, Transfer.Place;
  }

  lemma AtWordRange(t: Transfer, k: nat, a: nat)
    requires t.Fits() && AtWord(t, k, a)
    ensures k < t.count && a < 0x1_0000_0000 && a < t.At(t.count)
  {
    hide Lane, Transfer.Place;
    Multiply(k + 1, t.count - k - 1, t.size);
    Multiply(k, 1, t.size);
  }

  lemma FromFits(t: Transfer, i: nat, a: nat)
    requires t.Fits() && AtWord(t, i, a)
    ensures i < t.count
    ensures var p := From(t, i, a);
      && p.Fits() && p.kind == Wishbone && p.size == t.size && p.mem == t.mem && p.base == a && p.count == t.count - i
      && 1 <= t.size <= 4 && p.base < 0x1_0000_0000 && 0 < p.count < 0x1_0000
  {
    FromPlace(t, i, a, 0);
    FromPlace(t, i, a, t.count - i - 1);
    assert From(t, i, a).At(0) == a;
    hide AtWord, Plan.Place, Transfer.Place;
  }

  /** Waiting for word `j` in a burst that began with word `i` at address `a` */
  ghost predicate Waits(d: Module, t: Transfer, i: nat, a: nat, j: nat, p: Fetch) {
    && t.Fits() && AtWord(t, i, a) && i <= j < t.count && InBurst(d, From(t, i, a), j - i) && d.fsm == Rstatus
    && d.bus.left == p.left && d.bus.result == Result(p.word, p.fail, t.mem) && d.bus.answers == p.answers
    && FlagIs(d.intReg, t, p.e)
  }

  /** Word `j` taken, its first bit next to go out, and the one behind it asked for */
  ghost predicate Loads(d: Module, t: Transfer, i: nat, a: nat, j: nat, p: Fetch) {
    && t.Fits() && AtWord(t, i, a) && i <= j < t.count && InBurst(d, From(t, i, a), j - i) && d.fsm == Rburst && d.bitCount == 0
    && d.out == p.word + [false] && FlagIs(d.intReg, t, Taking(j, p).e)
    && var q := if j + 1 < t.count then Ask(t, j + 1, Taking(j, p)) else Taking(j, p);
       d.bus.left == q.left && d.bus.result == Result(q.word, q.fail, t.mem) && d.bus.answers == q.answers
  }

  /** Left to itself for good, the module comes to the state `b` */
  ghost predicate Stops(d: Module, t: Transfer, b: Fetch) {
    && d.kind == Wishbone && Settled(d.bus)
    && d.bus.left == b.left && d.bus.result == Result(b.word, b.fail, t.mem) && d.bus.answers == b.answers && FlagIs(d.intReg, t, b.e)
  }

  /** All words of a burst have gone out */
  ghost predicate Over(d: Module, t: Transfer, b: Fetch) {
    Reading(d) && d.fsm == Rcrc && Stops(d, t, b) && b.left == 0
  }

  /** The module at rest, if the next burst command ends at clock `due`, `gap` clocks after the last
      burst */
  ghost predicate Holds(m: Module, t: Transfer, b: Fetch, gap: nat, due: nat) {
    && m.kind == Wishbone && Settled(m.bus) && m.bus.result == Result(b.word, b.fail, t.mem) && m.bus.answers == b.answers
    && FlagIs(m.intReg, t, b.e) && BusNow(m, due).left == if b.left > gap then b.left - gap else 0
  }

  lemma WaitsParts(d: Module, t: Transfer, i: nat, a: nat, j: nat, p: Fetch)
    requires Waits(d, t, i, a, j, p)
    ensures t.Fits() && 1 <= t.size <= 4 && AtWord(t, i, a) && i <= j < t.count
    ensures InBurst(d, From(t, i, a), j - i) && d.fsm == Rstatus && Reading(d)
    ensures d.bus.left == p.left && d.bus.result == Result(p.word, p.fail, t.mem) && d.bus.answers == p.answers
    ensures FlagIs(d.intReg, t, p.e)
    ensures p.e <= t.count && Stops(d, t, p)
  {
    hide InBurst, Reading, FromNat, Transfer.At, AtWord;
    BurstRange(d, From(t, i, a), j - i);
  }

  /** Waiting on */
  lemma WaitOn(d: Module, t: Transfer, i: nat, a: nat, j: nat, p: Fetch, k: nat)
    requires Waits(d, t, i, a, j, p) && k <= p.left
    ensures Reading(d) && Waits(ReadAfter(d, k), t, i, a, j, Waited(p, k)) && ReadAfter(d, k).crc == d.crc
    ensures ReadOut(d, k) == Fill(k, false)
  {
    hide Reading, FromNat, Transfer.At, ReadAfter, ReadOut, AtWord;
    WaitsParts(d, t, i, a, j, p);
    hide Waits;
    WaitSteps(d, k);
    WaitsFrom(ReadAfter(d, k), d, t, i, a, j, p, k);
  }

  lemma WaitsFrom(n: Module, d: Module, t: Transfer, i: nat, a: nat, j: nat, p: Fetch, k: nat)
    requires Waits(d, t, i, a, j, p) && k <= p.left && Reading(n)
    requires n == d.(bus := n.bus) && n.bus.result == d.bus.result && n.bus.answers == d.bus.answers && n.bus.left == d.bus.left - k
    ensures Waits(n, t, i, a, j, Waited(p, k))
  {
    hide FromNat, Transfer.At, AtWord, Plan.At, ReadMem, FlagIs;
  }

  /** A word is taken */
  lemma LoadIs(d: Module, t: Transfer, i: nat, a: nat, j: nat, p: Fetch)
    requires Waits(d, t, i, a, j, p) && p.left == 0
    ensures Reading(d) && Tdo(d, NO_INPUT) && Loads(ReadNext(d), t, i, a, j, p) && ReadNext(d).crc == d.crc
  {
    hide Reading, FromNat, ReadMem, ReadNext, Transfer.At, Transfer.Place, Plan.Place, Plan.At, InBurst, Tdo, Lane, AtWord, FlagIs, Registers;
    BurstRange(d, From(t, i, a), j - i);
    LoadStep(d, From(t, i, a), j - i);
    FromAt(t, i, a, j - i);
    FromPlace(t, i, a, j - i);
    if j + 1 < t.count { FromPlace(t, i, a, j - i + 1); }
    FromFits(t, i, a);
    TakenFlag(d, ReadNext(d), t, j, From(t, i, a).At(j - i), p);
  }

  /** The error register when a word is taken */
  lemma TakenFlag(m: Module, n: Module, t: Transfer, j: nat, a: nat, p: Fetch)
    requires m.kind == Wishbone && Registers(m, n, a) && FlagIs(m.intReg, t, p.e) && AtWord(t, j, a)
    requires a < 0x1_0000_0000
    requires m.bus.err == p.fail
    ensures FlagIs(n.intReg, t, Taking(j, p).e)
  {
    hide AtWord, FromNat, ToNat, WordOf;
    if !m.intReg[0] && p.fail { NamedFlag(t, j, a); }
  }

  lemma NamedFlag(t: Transfer, j: nat, a: nat)
    requires t.size > 0 && AtWord(t, j, a) && a < 0x1_0000_0000
    ensures FlagIs([true] + FromNat(a, 32), t, j)
  {
    hide AtWord, FromNat, ToNat;
    AtOneWord(t, j, a);
    Powers();
    ToFromNat(a, 32);
    assert ([true] + FromNat(a, 32))[1..] == FromNat(a, 32);
    hide WordOf;
  }

  /** A word has gone out */
  lemma SentIs(d: Module, t: Transfer, i: nat, a: nat, j: nat, p: Fetch)
    requires Loads(d, t, i, a, j, p)
    ensures Reading(d) && 1 <= t.size <= 4 && ReadOut(d, 8 * t.size) == p.word[..8 * t.size]
    ensures var n := ReadAfter(d, 8 * t.size);
      && n.crc == Fold(Crc.POLY, d.crc, p.word[..8 * t.size])
      && if j + 1 < t.count then Waits(n, t, i, a, j + 1, Waited(Ask(t, j + 1, Taking(j, p)), 8 * t.size))
         else Over(n, t, Taking(j, p))
  {
    hide Reading, FromNat, ReadMem, ReadAfter, ReadOut, Transfer.At, Transfer.Place, InBurst, Fold, FlagIs, Ask, AtWord;
    BurstRange(d, From(t, i, a), j - i);
    SendWord(d, From(t, i, a), j - i);
    FromFits(t, i, a);
    BurstRange(ReadAfter(d, 8 * t.size), From(t, i, a), j - i + 1);
    AskFlag(t, j + 1, Taking(j, p));
  }

  lemma AskFlag(t: Transfer, j: nat, b: Fetch)
    requires 0 < t.size <= 4
    ensures Ask(t, j, b).e == b.e
  {
    hide Transfer.Word;
  }

  /** A word partly gone out */
  lemma PartIs(d: Module, t: Transfer, i: nat, a: nat, j: nat, p: Fetch, k: nat)
    requires Loads(d, t, i, a, j, p) && k < 8 * t.size
    ensures Reading(d) && 1 <= t.size <= 4
    ensures Stops(ReadAfter(d, k), t, if j + 1 < t.count then Waited(Ask(t, j + 1, Taking(j, p)), k) else Taking(j, p))
  {
    hide Reading, FromNat, ReadMem, ReadAfter, Transfer.At, Transfer.Place, InBurst, FlagIs, Ask, AtWord;
    BurstRange(d, From(t, i, a), j - i);
    FromFits(t, i, a);
    SendBits(d, From(t, i, a), j - i, k);
    ReadKeeps(d, k);
    ReadSettled(ReadAfter(d, k));
    AskFlag(t, j + 1, Taking(j, p));
  }

  lemma ReadSettled(m: Module)
    requires Reading(m)
    ensures Settled(m.bus)
  {
  }

  lemma OverStays(d: Module, t: Transfer, b: Fetch, k: nat)
    requires Over(d, t, b)
    ensures Reading(d) && Stops(ReadAfter(d, k), t, b)
  {
    hide Reading, FlagIs, ReadAfter;
    SendCrc(d, k);
    ReadKeeps(d, k);
    ReadSettled(ReadAfter(d, k));
  }

  /** However many clocks pass, the module comes to what `Coast` says */
  lemma {:induction false} CoastIs(d: Module, t: Transfer, i: nat, a: nat, j: nat, p: Fetch, k: nat)
    requires Waits(d, t, i, a, j, p)
    ensures Reading(d) && 1 <= t.size <= 4 && Stops(ReadAfter(d, k), t, Coast(t, j, p, k))
    decreases k
  {
    hide *;
    WaitsParts(d, t, i, a, j, p);
    CoastOnce(t, j, p, k);
    if k <= p.left {
      WaitOn(d, t, i, a, j, p, k);
      WaitsParts(ReadAfter(d, k), t, i, a, j, Waited(p, k));
    } else {
      var d1 := ReadAfter(d, p.left);
      WaitOn(d, t, i, a, j, p, p.left);
      var p1 := Waited(p, p.left);
      LoadedLeft(j, p);
      WaitsParts(d1, t, i, a, j, p1);
      LoadIs(d1, t, i, a, j, p1);
      var d2 := ReadNext(d1);
      var more := k - p.left - 1;
      ReadOne(d1);
      ReadMore(d, p.left, 1);
      ReadMore(d, p.left + 1, more);
      if more < 8 * t.size {
        PartIs(d2, t, i, a, j, p1, more);
      } else {
        SentIs(d2, t, i, a, j, p1);
        ReadMore(d2, 8 * t.size, more - 8 * t.size);
        if j + 1 < t.count {
          CoastIs(ReadAfter(d2, 8 * t.size), t, i, a, j + 1, Waited(Ask(t, j + 1, Taking(j, p)), 8 * t.size), more - 8 * t.size);
        } else {
          OverStays(ReadAfter(d2, 8 * t.size), t, Taking(j, p), more - 8 * t.size);
        }
      }
    }
  }

  lemma LoadedLeft(j: nat, p: Fetch)
    ensures Waited(p, p.left).left == 0 && Taking(j, Waited(p, p.left)) == Taking(j, p)
    ensures Waited(p, p.left).word == p.word
  {
  }

  /** The module at rest after it was stopped at clock `at` */
  lemma StoppedHolds(m: Module, d: Module, t: Transfer, b: Fetch, at: nat, gap: nat, due: nat)
    requires Stopped(m, d, at) && Stops(d, t, b) && (b.left == 0 || due == at + gap)
    ensures Holds(m, t, Waited(b, 1), gap, due)
  {
    hide FlagIs, Bus.Tick, Bus.Aged;
    TickBus(d.bus);
    if due > at { AgedBus(m.bus, due - at); }
  }

  /** The module as the host sees it when the scan starts */
  lemma BeganAs(m: Module, n: Module, t: Transfer, i: nat, a: nat, b: Fetch, opcode: nat, k: nat, gap: nat, now: nat)
    requires t.Fits() && AtWord(t, i, a) && Holds(m, t, b, gap, now) && ReadOp(opcode) && WordSize(opcode) == t.size
    requires Commanded(m, n, opcode, a, t.count - i, now)
    ensures i < t.count && Begins(n, From(t, i, a)) && 1 <= t.size <= 4
    ensures var d := Lagging(Started(n), k); Waits(d, t, i, a, i, First(t, k, gap, i, b)) && d.crc == ONES && d.regSel == n.regSel
  {
    hide FromNat, ReadMem, Transfer.At, Transfer.Place, InBurst, Bus.Strobe, Bus.Tick, WordSize, ReadOp, Begins, Started, Lane, Plan.Place, AtWord,
      BusNow, Commanded, FlagIs;
    FromFits(t, i, a);
    CommandedModule(m, n, From(t, i, a), opcode, now);
    AgedResult(m, now);
    FromPlace(t, i, a, 0);
    StartedInBurst(n, From(t, i, a));
    ClearStays(n.intReg, Started(n).intReg, t, b.e);
    LagInBurst(Started(n), From(t, i, a), 0, k);
  }

  lemma AgedResult(m: Module, now: nat)
    requires Settled(m.bus)
    ensures var b := BusNow(m, now); b.result == m.bus.result && b.answers == m.bus.answers && Settled(b)
  {
    if now > m.since { AgedBus(m.bus, now - m.since); }
  }

  lemma ClearStays(reg: Stream, n: Stream, t: Transfer, e: int)
    requires FlagIs(reg, t, e) && |n| == 33 && (reg[0] ==> n == reg) && (n[0] ==> reg[0])
    ensures FlagIs(n, t, e)
  {
    hide AtWord, WordOf, ToNat;
  }

  lemma CommandedModule(m: Module, n: Module, p: Plan, opcode: nat, now: nat)
    requires p.Fits() && p.kind == Wishbone && m.kind == Wishbone && m.bus.result.mem == p.mem
    requires ReadOp(opcode) && WordSize(opcode) == p.size
    requires Commanded(m, n, opcode, p.base, p.count, now)
    ensures Begins(n, p) && n.crc == ONES && n.bus == BusNow(m, now) && n.intReg == m.intReg && n.regSel == m.regSel
    ensures Settled(m.bus)
  {
    hide ReadOp, Plan.At;
    AgedResult(m, now);
  }

  // --- the host ---

  lemma OnePin()
    ensures StreamPins([false], false) == [TMS_LOW]
  {
  }

  lemma ReadOneBit(d: Module)
    requires Reading(d)
    ensures ReadAfter(d, 1) == ReadNext(d) && ReadOut(d, 1) == [Tdo(d, NO_INPUT)]
  {
    hide ReadNext, Tdo, Reading;
  }

  /** One poll of the status bit */
  lemma PollIs(d: Module, t: Transfer, i: nat, a: nat, j: nat, p: Fetch, k: nat)
    requires Waits(d, t, i, a, j, p) && k <= p.left
    ensures Reading(d) && ReadOut(ReadAfter(d, k), 1) == [k == p.left]
    ensures ReadAfter(d, k + 1) == ReadAfter(ReadAfter(d, k), 1)
  {
    hide *;
    var p1 := Waited(p, k);
    WaitedIs(p, k);
    WaitOn(d, t, i, a, j, p, k);
    WaitsParts(ReadAfter(d, k), t, i, a, j, p1);
    ReadOneBit(ReadAfter(d, k));
    ReadMore(d, k, 1);
    if k < p.left { WaitStep(ReadAfter(d, k)); } else { LoadIs(ReadAfter(d, k), t, i, a, j, p1); }
  }

  lemma WaitedIs(p: Fetch, k: nat)
    ensures Waited(p, k) == p.(left := if p.left > k then p.left - k else 0)
  {
  }

  class Burster {
    const adv: Debugger
    var faults: seq<Fault>

    constructor (adv: Debugger, faults: seq<Fault>)
      ensures this.adv == adv && this.faults == faults
    {
      this.adv, this.faults := adv, faults;
    }

    /** When the next burst command will have ended */
    ghost function Due(): nat
      reads adv.host
    {
      adv.host.hw.unit.time + SelectClocks(adv.host.currentChain == adv.host.desiredChain, adv.host.drPrefix)
        + BurstClocks(adv.host.drPrefix)
    }

    /** Sends the command and enters the scan */
    method BeginRead(opcode: nat, ghost t: Transfer, ghost i: nat, address: nat, count: nat, ghost b: Fetch,
                     ghost gap: nat)
      returns (ghost d: Module, ghost u: Unit)
      requires Synced(adv.host) && adv.host.desiredChain == 0 && t.Fits()
      requires AtWord(t, i, address) && count == t.count - i && Holds(adv.host.hw.unit.wb, t, b, gap, Due())
      requires opcode in {BREAD8, BREAD16, BREAD32} && WordSize(opcode) == t.size
      modifies adv.host`hw, adv.host`currentChain, adv.host`softRetryNo, adv.host`desiredChain
      ensures Scanning(adv.host.hw, d, u) && u.id == 0 && d.crc == ONES
      ensures 1 <= t.size <= 4 && Waits(d, t, i, address, i, First(t, |adv.host.hw.post|, gap, i, b))
      ensures adv.host.desiredChain == adv.host.currentChain == 0 && adv.host.softRetryNo == 0
      ensures CachesHold(u, 0, 0, adv.host.currentRegIdx)
      ensures SameBoard(adv.host.hw, old(adv.host.hw))
    {
      hide *;
      ghost var m := adv.host.hw.unit.wb;
      BurstOpcodes(opcode);
      ModuleCount();
      FromFits(t, i, address);
      ghost var p := From(t, i, address);
      WbIsCurrent(adv.host.hw.unit);
      HoldsKind(m, t, b, gap, Due());
      DueIs();
      ghost var due := Due();
      adv.BurstCommand(opcode, address, count);
      ghost var h := adv.host.hw;
      u := h.unit;
      WbIsCurrent(u);
      BeganAs(m, Current(u), t, i, address, b, opcode, |h.post|, gap, due);
      EnterBurstScan(h, p);
      AfterBoard(h, TO_SHIFT_DR);
      ToShift();
      adv.host.TapSetShiftDr();
      d := Lagging(Started(Current(u)), |h.post|);
      SameBoardTrans(adv.host.hw, h, old(adv.host.hw));
      ScanningFrom(adv.host.hw, d, u);
    }

    lemma DueIs()
      ensures Due() == adv.host.hw.unit.time + SelectClocks(adv.host.currentChain == adv.host.desiredChain, adv.host.drPrefix)
                       + BurstClocks(adv.host.drPrefix)
    {
    }

    /** Reads status bits until one is set; gives up after too many */
    method AwaitWord(ghost d0: Module, ghost t: Transfer, ghost i0: nat, ghost a: nat, ghost j: nat, ghost p: Fetch,
                     ghost u: Unit)
      returns (timedOut: bool)
      requires Scanning(adv.host.hw, d0, u) && Waits(d0, t, i0, a, j, p)
      modifies adv.host`hw
      ensures Reading(d0) && timedOut == (p.left >= MAX_READ_STATUS_WAIT)
      ensures Scanning(adv.host.hw, ReadAfter(d0, if timedOut then MAX_READ_STATUS_WAIT + 1 else p.left + 1), u)
      ensures |adv.host.hw.post| == old(|adv.host.hw.post|) && SameBoard(adv.host.hw, old(adv.host.hw))
    {
      hide *;
      var status := false;
      var tries := 0;
      Limits();
      SameBoardSelf(adv.host.hw);
      WaitsParts(d0, t, i0, a, j, p);
      ReadNone(d0);
      while !status
        invariant tries <= MAX_READ_STATUS_WAIT && Reading(d0) && Scanning(adv.host.hw, ReadAfter(d0, tries), u)
        invariant if status then tries == p.left + 1 else tries <= p.left
        invariant |adv.host.hw.post| == old(|adv.host.hw.post|) && SameBoard(adv.host.hw, old(adv.host.hw))
        decreases MAX_READ_STATUS_WAIT - tries
      {
        ghost var h := adv.host.hw;
        PollIs(d0, t, i0, a, j, p, tries);
        OnePin();
        ScanOn(h, ReadAfter(d0, tries), u, [false]);
        status := adv.host.ReadWriteBit(TMS_LOW);
        SameBoardTrans(adv.host.hw, h, old(adv.host.hw));
        tries := tries + 1;
        if tries > MAX_READ_STATUS_WAIT { return true; }
      }
      return false;
    }

    /** Reads one word; the cable may spoil it */
    method TakeWord(ghost d0: Module, ghost u: Unit, size: nat) returns (bits: Stream, reported: bool)
      requires Scanning(adv.host.hw, d0, u) && 1 <= size <= 4
      modifies adv.host`hw, this`faults
      ensures Reading(d0) && Scanning(adv.host.hw, ReadAfter(d0, 8 * size), u)
      ensures |adv.host.hw.post| == old(|adv.host.hw.post|) && SameBoard(adv.host.hw, old(adv.host.hw))
      ensures bits == Received(NextFault(old(faults)), ReadOut(d0, 8 * size))
      ensures reported == NextFault(old(faults)).Broken?
      ensures faults == LaterFaults(old(faults))
    {
      hide *;
      ghost var h := adv.host.hw;
      var zeros := Fill(8 * size, false);
      ScanningParts(h, d0, u);
      ScanOn(h, d0, u, zeros);
      AdjustedIs(zeros, false, false, adv.host.drPrefix, adv.host.drPostfix);
      NothingAround(zeros);
      var sent := adv.host.JtagReadWriteStream(zeros, false, false);
      WholeSlice(sent, Out(h, StreamPins(zeros, false)));
      var f := NextFault(faults);
      faults := LaterFaults(faults);
      bits := Received(f, sent);
      reported := f.Broken?;
    }

    /** Reads the check word and ends the burst */
    method FinishRead(ghost d: Module, ghost t: Transfer, ghost b: Fetch, ghost u: Unit,
                      ghost gap: nat) returns (crc: Word)
      requires Scanning(adv.host.hw, d, u) && Over(d, t, b) && u.id == 0
      requires adv.host.currentChain == adv.host.desiredChain == 0 && CachesHold(u, 0, 0, adv.host.currentRegIdx)
      requires adv.host.drPrefix == |adv.host.hw.pre| && adv.host.drPostfix == |adv.host.hw.post|
      modifies adv.host`hw
      ensures crc == d.crc && Synced(adv.host) && SameBoard(adv.host.hw, old(adv.host.hw))
      ensures adv.host.hw.unit.id == 0 && b.left == 0 && forall due: nat :: Holds(adv.host.hw.unit.wb, t, b, gap, due)
    {
      hide *;
      ghost var h := adv.host.hw;
      ScanningParts(h, d, u);
      OverParts(d, t, b);
      var zeros := Fill(32, false);
      ghost var all := zeros + Fill(adv.host.drPrefix, false);
      AdjustedIs(zeros, false, true, adv.host.drPrefix, adv.host.drPostfix);
      NothingBefore(zeros, Fill(adv.host.drPrefix, false));
      ReadBehind(h, d, all, true);
      AfterBoard(h, StreamPins(all, true));
      crc := adv.host.JtagReadWriteStream(zeros, false, true);
      ghost var a := adv.host.hw;
      CheckWordRead(d, all, Out(h, StreamPins(all, true)), crc);
      EndBurstScan(a, ReadAfter(d, |all|));
      AfterBoard(a, [TMS_HIGH, TMS_LOW]);
      adv.host.TapExitToIdle();
      SameBoardTrans(adv.host.hw, a, h);
      SameFrameTrans(u, h.unit, a.unit);
      SameFrameTrans(u, a.unit, adv.host.hw.unit);
      BurstOver(u, adv.host.hw.unit, d, |all|, |h.post| + 1, adv.host.currentRegIdx, t, b, gap);
      adv.SyncedFrom();
    }

    /** Gives up a burst in the middle: the reset ends it and the debug unit is selected again, while a
        bus transfer in progress goes on */
    method AbortRead(debugCmd: Word, ghost d: Module, ghost u: Unit, ghost t: Transfer, ghost b: Fetch, ghost gap: nat)
      requires Scanning(adv.host.hw, d, u) && u.id == 0
      requires Reading(d) && Stops(ReadAfter(d, |adv.host.hw.post| + 3), t, b)
      requires adv.CanRetry(debugCmd) && adv.host.softRetryNo == 0 && adv.host.desiredChain == 0
      requires gap == RestartClocks(adv.host.irSize + adv.host.irPrefix + adv.host.irPostfix, adv.host.drPrefix)
      modifies adv.host`hw, adv.host`currentChain, adv.host`currentRegIdx, adv.host`softRetryNo, adv.host`irChain,
        adv.host.irChain
      ensures Standing(t, debugCmd, Waited(b, 1), gap) && SameBoard(adv.host.hw, old(adv.host.hw))
      ensures adv.host.irChain == old(adv.host.irChain) || (adv.host.irChain != null && fresh(adv.host.irChain))
    {
      hide *;
      ghost var h := adv.host.hw;
      Limits();
      SoftRetries();
      ScanningParts(h, d, u);
      ResetAborts(h, d, adv.host.trstWired);
      ghost var n := After(h, ResetPins(adv.host.trstWired));
      SameFrameId(u, h.unit);
      WbIsCurrent(n.unit);
      ghost var ir := adv.host.irSize + adv.host.irPrefix + adv.host.irPostfix;
      var again := adv.RetryDo(debugCmd);
      DueIs();
      RetryClocksAre(ir);
      ClocksAre(adv.host.drPrefix, adv.host.drPostfix);
      StoppedHolds(n.unit.wb, ReadAfter(d, |h.post| + 3), t, b, h.unit.time + 4, gap, Due());
      StandingFrom(t, debugCmd, Waited(b, 1), gap);
    }

    /** Waits for and reads word `j` */
    method ReadWord(ghost t: Transfer, size: nat, ghost i0: nat, ghost a: nat, ghost j: nat, ghost d0: Module,
                    ghost u: Unit, ghost p: Fetch)
      returns (stop: Stop, bits: Stream, ghost d: Module)
      requires t.Fits() && t.size == size && i0 <= j < t.count
      requires Scanning(adv.host.hw, d0, u) && Waits(d0, t, i0, a, j, p)
      modifies adv.host`hw, this`faults
      ensures SameBoard(adv.host.hw, old(adv.host.hw)) && |adv.host.hw.post| == old(|adv.host.hw.post|)
      ensures Scanning(adv.host.hw, d, u) && Reading(d) && 1 <= t.size <= 4
      ensures var f := NextFault(old(faults));
        stop == if p.left >= MAX_READ_STATUS_WAIT then TimedOut else if f.Broken? then Lost else AllRead
      ensures faults == if stop.TimedOut? then old(faults) else LaterFaults(old(faults))
      ensures stop.TimedOut? ==>
        Stops(ReadAfter(d, |adv.host.hw.post| + 3), t, Coast(t, j, p, MAX_READ_STATUS_WAIT + 4 + |adv.host.hw.post|))
      ensures stop.Lost? ==>
        Stops(ReadAfter(d, |adv.host.hw.post| + 3), t, Coast(t, j, p, p.left + 8 * size + 4 + |adv.host.hw.post|))
      ensures stop.AllRead? ==>
        && |bits| == 8 * size && bits == Xor(p.word[..8 * size], Mask(NextFault(old(faults)), 8 * size))
        && d.crc == Fold(Crc.POLY, d0.crc, p.word[..8 * size])
        && if j + 1 < t.count then Waits(d, t, i0, a, j + 1, Waited(Ask(t, j + 1, Taking(j, p)), 8 * size))
           else Over(d, t, Taking(j, p))
    {
      hide *;
      FitsRange(t);
      ghost var h := adv.host.hw;
      ghost var k := |h.post| + 3;
      bits := [];
      WaitsParts(d0, t, i0, a, j, p);
      var timedOut := AwaitWord(d0, t, i0, a, j, p, u);
      ghost var h1 := adv.host.hw;
      if timedOut {
        d := ReadAfter(d0, MAX_READ_STATUS_WAIT + 1);
        ReadMore(d0, MAX_READ_STATUS_WAIT + 1, k);
        CoastIs(d0, t, i0, a, j, p, MAX_READ_STATUS_WAIT + 1 + k);
        return TimedOut, bits, d;
      }
      ghost var d1 := ReadAfter(d0, p.left + 1);
      WordComes(d0, t, i0, a, j, p);
      var reported: bool;
      bits, reported := TakeWord(d1, u, size);
      SameBoardTrans(adv.host.hw, h1, h);
      d := ReadAfter(d1, 8 * size);
      ReadMore(d0, p.left + 1, 8 * size);
      if reported {
        ReadMore(d0, p.left + 1 + 8 * size, k);
        CoastIs(d0, t, i0, a, j, p, p.left + 1 + 8 * size + k);
        return Lost, bits, d;
      }
      ReceivedIs(NextFault(old(faults)), ReadOut(d1, 8 * size));
      stop := AllRead;
    }

    /** Reads the words from `i0` on until all are read, one is not ready in time, or the
        adapter reports an error */
    method ReadWords(ghost t: Transfer, ghost home: nat, size: nat, count: nat, i0: int, data: array<Word>, base: nat,
                     ghost was: seq<Word>, ghost a: nat, ghost d0: Module, ghost u: Unit,
                     ghost p0: Fetch, ghost log0: seq<Got>)
      returns (i: int, stop: Stop, crcCalc: Word, ghost d: Module)
      requires t.Fits() && t.size == size && t.count == home + count && 0 <= home + i0 && i0 < count && home <= base
      requires 1 <= size <= 4
      requires base + count <= data.Length
      requires Scanning(adv.host.hw, d0, u) && Waits(d0, t, home + i0, a, home + i0, p0) && d0.crc == ONES
      requires |log0| == t.count && data[..] == Buffer(was, base - home, log0, size)
      modifies adv.host`hw, this`faults, data
      ensures SameBoard(adv.host.hw, old(adv.host.hw)) && |adv.host.hw.post| == old(|adv.host.hw.post|)
      ensures Scanning(adv.host.hw, d, u) && Reading(d)
      ensures var r := ReadOn(t, |adv.host.hw.post|, home + i0, p0, old(faults), log0, ONES, ONES);
        && stop == r.stop && home + i == r.i && faults == r.faults && data[..] == Buffer(was, base - home, r.log, size)
        && (if stop.AllRead? then Over(d, t, r.rest) && crcCalc == r.host && d.crc == r.unit
            else exists c :: Stops(ReadAfter(d, |adv.host.hw.post| + 3), t, c) && r.rest == Waited(c, 1))
    {
      hide *;
      i, crcCalc, d := i0, ONES, d0;
      ghost var p, log, post := p0, log0, |adv.host.hw.post|;
      ghost var r := ReadOn(t, post, home + i0, p0, faults, log0, ONES, ONES);
      SameBoardSelf(adv.host.hw);
      while i < count
        invariant i0 <= i <= count && Scanning(adv.host.hw, d, u)
        invariant SameBoard(adv.host.hw, old(adv.host.hw)) && |adv.host.hw.post| == post
        invariant |log| == t.count && data[..] == Buffer(was, base - home, log, size)
        invariant i < count ==>
          Waits(d, t, home + i0, a, home + i, p) && r == ReadOn(t, post, home + i, p, faults, log, crcCalc, d.crc)
        invariant i == count ==> Over(d, t, r.rest) && r == Progress(AllRead, t.count, r.rest, faults, log, crcCalc, d.crc)
        decreases count - i
      {
        ghost var h, f, j := adv.host.hw, faults, home + i;
        ReadOnce(t, post, j, p, f, log, crcCalc, d.crc);
        var bits: Stream;
        ghost var d1: Module;
        stop, bits, d1 := ReadWord(t, size, home + i0, a, j, d, u, p);
        SameBoardTrans(adv.host.hw, h, old(adv.host.hw));
        if !stop.AllRead? { return i, stop, crcCalc, d1; }
        ghost var mask := Mask(NextFault(f), 8 * size);
        ghost var g := Got(p.word, mask, p.fail, p.of);
        PackBits(bits);
        crcCalc := Crc.AdbgComputeCrc(crcCalc, Pack(bits), 8 * size);
        ghost var before := data[..];
        data[base + i] := Pack(bits);
        assert data[..] == before[base + i := Pack(bits)];
        ShownIs(g, size);
        BufferStep(was, base - home, log, size, j, g);
        d, log, p := d1, log[j := g], Waited(Ask(t, j + 1, Taking(j, p)), 8 * size);
        i := i + 1;
      }
      stop := AllRead;
      OverParts(d, t, r.rest);
    }

    /** Between bursts of a transfer */
    ghost predicate Standing(t: Transfer, debugCmd: Word, b: Fetch, gap: nat)
      reads this, adv.host
    {
      && Synced(adv.host) && adv.CanRetry(debugCmd) && adv.host.desiredChain == 0 && Holds(adv.host.hw.unit.wb, t, b, gap, Due())
      && gap == RestartClocks(adv.host.irSize + adv.host.irPrefix + adv.host.irPostfix, adv.host.drPrefix)
    }

    lemma StandingParts(t: Transfer, debugCmd: Word, b: Fetch, gap: nat)
      requires Standing(t, debugCmd, b, gap)
      ensures Synced(adv.host) && adv.CanRetry(debugCmd) && adv.host.desiredChain == 0
      ensures Ready(adv.host.hw) && adv.host.drPrefix == |adv.host.hw.pre| && adv.host.drPostfix == |adv.host.hw.post|
      ensures CachesHold(adv.host.hw.unit, adv.host.currentChain, adv.host.desiredChain, adv.host.currentRegIdx)
      ensures Holds(adv.host.hw.unit.wb, t, b, gap, Due())
      ensures gap == RestartClocks(adv.host.irSize + adv.host.irPrefix + adv.host.irPostfix, adv.host.drPrefix)
      ensures Operable(adv.host.hw, adv.host.rule, adv.host.irSize, adv.host.irPrefix, adv.host.irPostfix,
                       adv.host.drPrefix, adv.host.drPostfix, debugCmd)
    {
      hide Holds, Due, RestartClocks;
    }

    lemma StandingFrom(t: Transfer, debugCmd: Word, b: Fetch, gap: nat)
      requires Synced(adv.host) && adv.CanRetry(debugCmd) && adv.host.desiredChain == 0
      requires Holds(adv.host.hw.unit.wb, t, b, gap, Due())
      requires gap == RestartClocks(adv.host.irSize + adv.host.irPrefix + adv.host.irPostfix, adv.host.drPrefix)
      ensures Standing(t, debugCmd, b, gap)
    {
      hide Holds, Due, RestartClocks;
    }

    /** Looks at the error register; if it holds an error, reads its address and, unless that was the
        last one allowed, clears it.  The bus is left alone meanwhile. */
    method CheckBus(debugCmd: Word, start: nat, size: nat, last: bool) returns (failed: bool, addr: nat, index: int)
      requires Synced(adv.host) && adv.CanRetry(debugCmd) && adv.host.desiredChain == 0 && size > 0
      requires adv.host.hw.unit.wb.kind == Wishbone
      modifies adv.host`hw, adv.host`currentChain, adv.host`currentRegIdx, adv.host`softRetryNo, adv.host`desiredChain
      ensures Synced(adv.host) && adv.CanRetry(debugCmd) && adv.host.desiredChain == adv.host.currentChain == 0
      ensures SameBoard(adv.host.hw, old(adv.host.hw)) && adv.Cached(0)
      ensures var m, n := old(adv.host.hw.unit.wb), adv.host.hw.unit.wb;
        && |m.intReg| == 33 && failed == m.intReg[0] && n.bus == m.bus && n.since == m.since && n.kind == Wishbone
        && n.intReg == (if failed && !last then m.intReg[0 := false] else m.intReg)
        && (failed ==> addr == ToNat(m.intReg[1..]) && index == HostIndex(addr, start, size))
      ensures adv.host.hw.unit.time == old(adv.host.hw.unit.time)
        + CheckClocks(old(adv.host.currentChain == adv.host.desiredChain), old(adv.Cached(0)), failed, last, adv.host.drPrefix, adv.host.drPostfix)
    {
      hide *;
      addr, index := 0, 0;
      ModuleCount();
      adv.SyncedParts();
      adv.CanRetryParts(debugCmd);
      ghost var h := adv.host.hw;
      WbIsCurrent(h.unit);
      WbWidth(h.unit);
      CheckClocksAre(old(adv.host.currentChain == adv.host.desiredChain), old(adv.Cached(0)), adv.host.drPrefix, adv.host.drPostfix);
      var bit := adv.CtrlRead(0, 1);
      ghost var h1 := adv.host.hw;
      WbInternal(h.unit, h1.unit);
      failed := bit[0];
      if failed {
        WbIsCurrent(h1.unit);
        var all := adv.CtrlRead(0, 33);
        ghost var h2 := adv.host.hw;
        WbInternal(h1.unit, h2.unit);
        SameBoardTrans(h2, h1, h);
        var low, high := Pack(all[..32]), Pack(all[32..]);
        addr := ToNat(Or(Shr(low, 1), Shl(high, 31)));
        WholeRegister(h1.unit.wb.intReg, all);
        FlagBits(all);
        index := HostIndex(addr, start, size);
        if !last {
          WbIsCurrent(h2.unit);
          adv.CtrlWrite(0, [true]);
          SameBoardTrans(adv.host.hw, h2, h);
          WbIsCurrent(adv.host.hw.unit);
          ClearedIs(h2.unit.wb);
        }
      }
      adv.CanRetryStays(h, debugCmd);
    }

    /** What the error register says after a burst: whether the host goes on, and with which word */
    method CheckRead(ghost t: Transfer, ghost home: nat, debugCmd: Word, start: nat, size: nat, count: nat, base: nat,
                     last: bool, ghost b: Fetch, ghost gap: nat)
      returns (failed: bool, addr: nat, index: int, follows: bool)
      requires 0 < count < 0x1_0000 && start + count * size <= 0x1_0000_0000 && size in {1, 2, 4}
      requires home == Reach(start, size, count, base) && t == Whole(t.mem, start, size, count, base)
      requires Standing(t, debugCmd, b, gap) && b.left == 0
      modifies adv.host`hw, adv.host`currentChain, adv.host`currentRegIdx, adv.host`softRetryNo, adv.host`desiredChain
      ensures Standing(t, debugCmd, if failed && !last then b.(e := -1) else b, gap) && adv.host.currentChain == 0
      ensures SameBoard(adv.host.hw, old(adv.host.hw)) && b.e <= t.count && (failed <==> b.e >= 0)
      ensures failed ==> (follows <==> b.e < t.count) && (follows ==> t.size > 0 && home + index == b.e && AtWord(t, b.e, addr))
    {
      hide *;
      ghost var h := adv.host.hw;
      ghost var due := Due();
      StandingParts(t, debugCmd, b, gap);
      HoldsKind(h.unit.wb, t, b, gap, due);
      WholeFits(t, start, size, count, base);
      FitsRange(t);
      DueIs();
      ghost var selected, cached := adv.host.currentChain == adv.host.desiredChain, adv.Cached(0);
      failed, addr, index := CheckBus(debugCmd, start, size, last);
      CheckTakes(selected, cached, failed, last, adv.host.drPrefix, adv.host.drPostfix);
      DueIs();
      ClocksAre(adv.host.drPrefix, adv.host.drPostfix);
      CheckedFlag(h.unit.wb, adv.host.hw.unit.wb, t, b, gap, last, due, Due());
      StandingFrom(t, debugCmd, if failed && !last then b.(e := -1) else b, gap);
      follows := Follows(index, addr, start, size, count, base);
      if failed { FollowsIff(h.unit.wb.intReg, t, b.e, start, size, count, base); }
    }

    /** One burst, from word `i0` on */
    method ReadBurst(opcode: nat, ghost t: Transfer, ghost home: nat, size: nat, count: nat, i0: int, addr: nat,
                     data: array<Word>, base: nat, ghost was: seq<Word>, debugCmd: Word,
                     ghost b: Fetch, ghost gap: nat, ghost log0: seq<Got>)
      returns (completed: bool, i: int)
      requires t.Fits() && t.size == size && t.count == home + count && 0 <= home + i0 && i0 < count && home <= base
      requires 1 <= size <= 4
      requires AtWord(t, home + i0, addr) && base + count <= data.Length
      requires opcode in {BREAD8, BREAD16, BREAD32} && WordSize(opcode) == size && data != adv.host.irChain
      requires Standing(t, debugCmd, b, gap) && |log0| == t.count && data[..] == Buffer(was, base - home, log0, size)
      modifies adv.host`hw, adv.host`currentChain, adv.host`currentRegIdx, adv.host`softRetryNo, adv.host`desiredChain,
        adv.host`irChain, adv.host.irChain, this`faults, data
      ensures SameBoard(adv.host.hw, old(adv.host.hw))
      ensures adv.host.irChain == old(adv.host.irChain) || (adv.host.irChain != null && fresh(adv.host.irChain))
      ensures var r := Burst(t, old(|adv.host.hw.post|), gap, home + i0, b, old(faults), log0);
        && completed == (r.stop.AllRead? && r.host == r.unit) && i == (if r.stop.AllRead? && !completed then 0 else r.i - home)
        && Standing(t, debugCmd, r.rest, gap) && faults == r.faults && data[..] == Buffer(was, base - home, r.log, size)
        && (r.stop.AllRead? ==> r.rest.left == 0)
    {
      hide *;
      ghost var h := adv.host.hw;
      ghost var post := |h.post|;
      StandingParts(t, debugCmd, b, gap);
      adv.CanRetryParts(debugCmd);
      ghost var d, u := BeginRead(opcode, t, home + i0, addr, count - i0, b, gap);
      ghost var h1 := adv.host.hw;
      StayPut(h, h1);
      ghost var r := Burst(t, post, gap, home + i0, b, faults, log0);
      BurstIs(t, post, gap, home + i0, b, faults, log0);
      var stop: Stop, crcCalc: Word;
      i, stop, crcCalc, d := ReadWords(t, home, size, count, i0, data, base, was, addr, d, u, First(t, post, gap, home + i0, b), log0);
      ghost var h2 := adv.host.hw;
      SameBoardTrans(h2, h1, h);
      adv.CanRetryStays(h, debugCmd);
      if !stop.AllRead? {
        ghost var c :| Stops(ReadAfter(d, |h2.post| + 3), t, c) && r.rest == Waited(c, 1);
        AbortRead(debugCmd, d, u, t, c, gap);
        SameBoardTrans(adv.host.hw, h2, h);
        completed := false;
      } else {
        OverParts(d, t, r.rest);
        completed := Accept(t, debugCmd, crcCalc, d, u, r.rest, gap);
        SameBoardTrans(adv.host.hw, h2, h);
        if !completed { i := 0; }
      }
    }

    /** Compares the check words after the last word; a soft retry if they differ */
    method Accept(ghost t: Transfer, debugCmd: Word, crcCalc: Word, ghost d: Module, ghost u: Unit, ghost b: Fetch,
                  ghost gap: nat)
      returns (ok: bool)
      requires Scanning(adv.host.hw, d, u) && Over(d, t, b) && u.id == 0
      requires adv.host.currentChain == adv.host.desiredChain == 0
      requires CachesHold(u, 0, 0, adv.host.currentRegIdx) && adv.CanRetry(debugCmd) && adv.host.softRetryNo == 0
      requires gap == RestartClocks(adv.host.irSize + adv.host.irPrefix + adv.host.irPostfix, adv.host.drPrefix)
      modifies adv.host`hw, adv.host`currentChain, adv.host`currentRegIdx, adv.host`softRetryNo, adv.host`irChain,
        adv.host.irChain
      ensures Standing(t, debugCmd, b, gap) && SameBoard(adv.host.hw, old(adv.host.hw))
      ensures adv.host.irChain == old(adv.host.irChain) || (adv.host.irChain != null && fresh(adv.host.irChain))
      ensures ok <==> crcCalc == d.crc
    {
      hide *;
      ghost var h := adv.host.hw;
      SoftRetries();
      adv.CanRetryParts(debugCmd);
      var crc := FinishRead(d, t, b, u, gap);
      adv.CanRetryStays(h, debugCmd);
      ok := crc == crcCalc;
      if !ok {
        ghost var h3 := adv.host.hw;
        adv.SyncedParts();
        ReadyRest(h3);
        var again := adv.RetryDo(debugCmd);
        SameBoardTrans(adv.host.hw, h3, h);
      }
      StandingFrom(t, debugCmd, b, gap);
    }

    /** Bursts until all words are in and no bus error is left, too many bus errors, or one that is not
        for words of the transfer */
    method ReadAll(opcode: nat, ghost t: Transfer, ghost home: nat, size: nat, count: nat, start: nat,
                   data: array<Word>, base: nat, debugCmd: Word, ghost b0: Fetch, ghost gap: nat)
      returns (r: Outcome)
      requires 0 < count < 0x1_0000 && start + count * size <= 0x1_0000_0000 && base + count <= data.Length
      requires size in {1, 2, 4}
      requires home == Reach(start, size, count, base) && t == Whole(t.mem, start, size, count, base)
      requires opcode in {BREAD8, BREAD16, BREAD32} && WordSize(opcode) == size && data != adv.host.irChain
      requires Standing(t, debugCmd, b0, gap) && |adv.host.hw.post| < MAX_READ_STATUS_WAIT && b0.e <= t.count
      modifies adv.host`hw, adv.host`currentChain, adv.host`currentRegIdx, adv.host`softRetryNo, adv.host`desiredChain,
        adv.host`irChain, adv.host.irChain, this`faults, data
      ensures SameBoard(adv.host.hw, old(adv.host.hw)) && home <= base
      ensures home < t.count && 0 < t.size <= 4 && adv.host.currentChain == 0
      ensures var s := Run(t, home, old(|adv.host.hw.post|), gap, home, 0, b0, old(faults), Blank(t.count));
        && r == s.outcome && Standing(t, debugCmd, s.rest, gap) && faults == s.faults && s.rest.left == 0
        && data[..] == Buffer(old(data[..]), base - home, s.log, size)
    {
      hide *;
      WholeFits(t, start, size, count, base);
      ghost var h, was, post := adv.host.hw, data[..], |adv.host.hw.post|;
      SameBoardSelf(h);
      FitsRange(t);
      Limits();
      var i: int, addr: nat, busErrors: nat := 0, start, 0;
      ghost var b, log := b0, Blank(t.count);
      BlankBuffer(was, base - home, t.count, size);
      HostWord(t, start, size, count, base, home);
      ghost var s := Run(t, home, post, gap, home, 0, b0, faults, log);
      while true
        invariant SameBoard(adv.host.hw, h) && Standing(t, debugCmd, b, gap)
        invariant adv.host.irChain == old(adv.host.irChain) || (adv.host.irChain != null && fresh(adv.host.irChain))
        invariant 0 <= home + i && i < count && |log| == t.count && b.e <= t.count && AtWord(t, home + i, addr)
        invariant busErrors <= MAX_BUS_ERRORS
        invariant data[..] == Buffer(was, base - home, log, size)
        invariant s == Run(t, home, post, gap, home + i, busErrors, b, faults, log)
        decreases |b.answers| + |faults| + (MAX_BUS_ERRORS - busErrors), b.left
      {
        ghost var h1, f, j := adv.host.hw, faults, home + i;
        StayPut(h, h1);
        BurstEnds(t, post, gap, j, b, f, log);
        RunOnce(t, home, post, gap, j, busErrors, b, f, log);
        ghost var r1 := Burst(t, post, gap, j, b, f, log);
        var completed: bool;
        completed, i := ReadBurst(opcode, t, home, size, count, i, addr, data, base, was, debugCmd, b, gap, log);
        SameBoardTrans(adv.host.hw, h1, h);
        b, log := r1.rest, r1.log;
        if !completed {
          HostWord(t, start, size, count, base, home + i);
          addr := start + i * size;
        } else {
          ghost var h2 := adv.host.hw;
          var last := busErrors == MAX_BUS_ERRORS;
          var failed, failedAddr, index, follows := CheckRead(t, home, debugCmd, start, size, count, base, last, b, gap);
          SameBoardTrans(adv.host.hw, h2, h);
          if !failed { return Done; }
          busErrors := busErrors + 1;
          if busErrors > MAX_BUS_ERRORS { return MaxBusErrors; }
          if !follows { return Astray; }
          i, addr, b := index, failedAddr, b.(e := -1);
        }
      }
    }

    /** Reads `wordCount` words from `start` on into the host's memory `data` at index `base`.  Outcome,
        memory and what is left of faults, answers and errors are those of the run word by word; in
        particular, on an empty bus, with no silent noise, at most one failing transfer and none slower
        than the host's restart, success means that every word is the memory's. */
    method WbBurstRead(wordSize: nat, wordCount: int, start: nat, data: array<Word>, base: nat,
                       debugCmd: Word) returns (r: Outcome)
      requires wordSize in {1, 2, 4} && Synced(adv.host) && adv.CanRetry(debugCmd)
      requires adv.host.currentChain !in {1, 2} && adv.host.hw.unit.wb.kind == Wishbone
      requires |adv.host.hw.post| < MAX_READ_STATUS_WAIT && data != adv.host.irChain
      requires wordCount > 0 ==>
        wordCount < 0x1_0000 && start + wordCount * wordSize <= 0x1_0000_0000 && base + wordCount <= data.Length
      modifies adv.host`hw, adv.host`currentChain, adv.host`currentRegIdx, adv.host`softRetryNo, adv.host`desiredChain,
        adv.host`irChain, adv.host.irChain, this`faults, data
      ensures Synced(adv.host) && adv.CanRetry(debugCmd) && SameBoard(adv.host.hw, old(adv.host.hw))
      ensures adv.host.hw.unit.wb.bus.result.mem == old(adv.host.hw.unit.wb.bus.result.mem)
      ensures r.IllegalChain? <==> wordCount > 0 && old(adv.host.currentChain) != 0
      ensures wordCount <= 0 ==> r.Done?
      ensures wordCount > 0 && r.Done? ==> adv.host.softRetryNo == 0
      ensures wordCount <= 0 || r.IllegalChain? ==> adv.host.hw == old(adv.host.hw) && data[..] == old(data[..])
      ensures wordCount > 0 && !r.IllegalChain? ==>
        var home := Reach(start, wordSize, wordCount, base);
        var t := Whole(old(adv.host.hw.unit.wb.bus.result.mem), start, wordSize, wordCount, base);
        var gap := RestartClocks(adv.host.irSize + adv.host.irPrefix + adv.host.irPostfix, adv.host.drPrefix);
        var b := AtStart(old(adv.host.hw.unit.wb), old(adv.host.hw.unit.time) + BurstClocks(adv.host.drPrefix), gap, t);
        && home <= base && t.count == home + wordCount
        && var s := Run(t, home, old(|adv.host.hw.post|), gap, home, 0, b, old(faults), Blank(t.count));
        && r == s.outcome && faults == s.faults && adv.host.currentChain == 0 && s.rest.left == 0
        && BusNow(adv.host.hw.unit.wb, adv.host.hw.unit.time + BurstClocks(adv.host.drPrefix)).left == 0
        && adv.host.hw.unit.wb.bus.answers == s.rest.answers && FlagIs(adv.host.hw.unit.wb.intReg, t, s.rest.e)
        && data[..] == Buffer(old(data[..]), base - home, s.log, wordSize)
        && (r.Done? ==> Success(t, home, s.log, s.last))
        && (r.Done? && NoNoise(old(faults)) && b.left == 0 && RestBudget(b) <= 1 && Within(b.answers, gap) ==>
              forall k :: home <= k < t.count ==> data[base - home + k] == Pack(t.Word(k)))
    {
      hide *;
      SameBoardSelf(adv.host.hw);
      if wordCount <= 0 { return Done; }
      if adv.host.currentChain != 0 { return IllegalChain; }
      ghost var h, f := adv.host.hw, faults;
      ghost var home := Reach(start, wordSize, wordCount, base);
      ghost var t := Whole(h.unit.wb.bus.result.mem, start, wordSize, wordCount, base);
      WholeFits(t, start, wordSize, wordCount, base);
      ghost var was := data[..];
      ghost var gap := RestartClocks(adv.host.irSize + adv.host.irPrefix + adv.host.irPostfix, adv.host.drPrefix);
      adv.SyncedParts();
      adv.CanRetryParts(debugCmd);
      FitsRange(t);
      DueIs();
      ClocksAre(adv.host.drPrefix, adv.host.drPostfix);
      WbWidth(h.unit);
      ghost var b := AtStart(h.unit.wb, Due(), gap, t);
      var opcode := if wordSize == 1 then BREAD8 else if wordSize == 2 then BREAD16 else BREAD32;
      ReadOpcode(wordSize, opcode);
      StartHolds(h.unit.wb, t, Due(), gap);
      StandingFrom(t, debugCmd, b, gap);
      r := ReadAll(opcode, t, home, wordSize, wordCount, start, data, base, debugCmd, b, gap);
      RunMeans(t, home, |h.post|, gap, b, f, was, base - home);
      ghost var s := Run(t, home, |h.post|, gap, home, 0, b, f, Blank(t.count));
      StandingParts(t, debugCmd, s.rest, gap);
      HoldsKind(adv.host.hw.unit.wb, t, s.rest, gap, Due());
      RestLeft(adv.host.hw.unit.wb, t, s.rest, gap, Due());
      DueIs();
      adv.CanRetryParts(debugCmd);
      if r.Done? {
        adv.host.softRetryNo := 0;
        adv.SyncedFrom();
        adv.CanRetryStays(h, debugCmd);
      }
    }
  }

  // --- the transfer the host means, and what it can be led to ---

  /** How many words before its first one a transfer can be led back to: the host takes the distance to
      a failing address as an unsigned number, and only for bytes is a negative one still a small index
      after the division.  Before them lies whatever the host's memory holds below `base`. */
  function Reach(start: nat, size: nat, count: nat, base: nat): (home: nat)
    ensures home <= base && home * size <= start && (count < 0x1_0000 ==> home + count < 0x1_0000)
  {
    if size != 1 || count >= 0x1_0000 then 0 else Least(Least(base, start), 0xffff - count)
  }

  function Least(a: nat, b: nat): nat {
    if a < b then a else b
  }

  /** The words of the transfer with those before it */
  function Whole(mem: Memory, start: nat, size: nat, count: nat, base: nat): (t: Transfer)
    ensures t.mem == mem && t.size == size
  {
    var home := Reach(start, size, count, base);
    Transfer(mem, start - home * size, size, home + count)
  }

  /** What the host makes of a failing address: a 32-bit difference, divided, as a signed number */
  function HostIndex(addr: nat, start: nat, size: nat): int
    requires size > 0
  {
    var index := (addr - start) % 0x1_0000_0000 / size;
    if index < 0x8000_0000 then index else index - 0x1_0000_0000
  }

  /** A burst from `addr` on moves the words from `index` on, to or from the host's memory */
  predicate Follows(index: int, addr: nat, start: nat, size: nat, count: nat, base: nat)
    requires size > 0
  {
    0 <= base + index && index < count && count - index < 0x1_0000 && Lane(addr, size) == Lane(start, size) + index * size
  }

  lemma WholeFits(t: Transfer, start: nat, size: nat, count: nat, base: nat)
    requires size in {1, 2, 4} && 0 < count < 0x1_0000 && start + count * size <= 0x1_0000_0000
    requires t == Whole(t.mem, start, size, count, base)
    ensures var home := Reach(start, size, count, base);
      t.Fits() && t.size == size && t.count == home + count && home < t.count && home <= base && t.At(home) == start
    ensures t.start + Reach(start, size, count, base) * size == start
  {
    var home := Reach(start, size, count, base);
    Multiply(home, count, size);
  }

  /** The host's words are words of the whole */
  lemma HostWord(t: Transfer, start: nat, size: nat, count: nat, base: nat, k: nat)
    requires size in {1, 2, 4} && 0 < count < 0x1_0000 && start + count * size <= 0x1_0000_0000
    requires t == Whole(t.mem, start, size, count, base) && k < t.count
    ensures var home := Reach(start, size, count, base);
      start + (k - home) * size == t.At(k) && AtWord(t, k, t.At(k))
  {
    WholeFits(t, start, size, count, base);
    AtItsWord(t, k);
    Spread(k, Reach(start, size, count, base), size);
    hide Reach, Whole, AtWord;
  }

  lemma Spread(a: int, b: int, c: int)
    ensures (a - b) * c == a * c - b * c
  {
  }

  /** The host goes on with words of its own, or before them, exactly when the error register names one */
  lemma FollowsIff(reg: Stream, t: Transfer, e: int, start: nat, size: nat, count: nat, base: nat)
    requires size in {1, 2, 4} && 0 < count < 0x1_0000 && start + count * size <= 0x1_0000_0000
    requires t == Whole(t.mem, start, size, count, base) && FlagIs(reg, t, e) && e >= 0
    ensures var a := ToNat(reg[1..]); var index := HostIndex(a, start, size);
      && (Follows(index, a, start, size, count, base) <==> e < t.count)
      && (e < t.count ==> index + Reach(start, size, count, base) == e && AtWord(t, e, a))
  {
    var a := ToNat(reg[1..]);
    RegisterRange(reg);
    WholeFits(t, start, size, count, base);
    hide ToNat;
    if size == 1 {
      BytesFollow(t, a, start, count, base);
    } else {
      WordsFollow(t, a, start, size, count, base);
    }
  }

  lemma RegisterRange(reg: Stream)
    requires |reg| == 33
    ensures ToNat(reg[1..]) < 0x1_0000_0000
  {
    hide ToNat;
    Powers();
    ToNatBound(reg[1..]);
  }

  lemma BytesFollow(t: Transfer, a: nat, start: nat, count: nat, base: nat)
    requires 0 < count < 0x1_0000 && start + count <= 0x1_0000_0000 && a < 0x1_0000_0000
    requires t == Whole(t.mem, start, 1, count, base)
    ensures var index := HostIndex(a, start, 1); var e := WordOf(t, a);
      && (Follows(index, a, start, 1, count, base) <==> e < t.count)
      && (e < t.count ==> index + Reach(start, 1, count, base) == e)
  {
    var home := Reach(start, 1, count, base);
    ByteWord(t, a);
    if start - home <= a < start + count {
      assert HostIndex(a, start, 1) == a - start;
    }
  }

  lemma ByteWord(t: Transfer, a: nat)
    requires t.size == 1
    ensures WordOf(t, a) == if t.start <= a < t.start + t.count then a - t.start else t.count
  {
    if t.start <= a < t.start + t.count { PlaceIs(t, a - t.start); }
  }

  lemma WordsFollow(t: Transfer, a: nat, start: nat, size: nat, count: nat, base: nat)
    requires size in {2, 4} && 0 < count < 0x1_0000 && start + count * size <= 0x1_0000_0000 && a < 0x1_0000_0000
    requires t == Whole(t.mem, start, size, count, base)
    ensures Reach(start, size, count, base) == 0
    ensures var index := HostIndex(a, start, size); var e := WordOf(t, a);
      && (Follows(index, a, start, size, count, base) <==> e < t.count)
      && (e < t.count ==> index == e)
  {
    assert t == Transfer(t.mem, start, size, count);
    if a >= start {
      IndexUp(a, start, size);
      var index := (a - start) / size;
      if index < count { PlaceIs(t, index); }
      hide HostIndex, Lane, Transfer.Place;
    } else {
      IndexDown(a, start, size, count);
      hide HostIndex, Lane;
    }
  }

  lemma IndexUp(a: nat, start: nat, size: nat)
    requires size in {2, 4} && start <= a < 0x1_0000_0000
    ensures HostIndex(a, start, size) == (a - start) / size
  {
    assert (a - start) % 0x1_0000_0000 == a - start;
  }

  lemma IndexDown(a: nat, start: nat, size: nat, count: nat)
    requires size in {2, 4} && a < start && 0 < count < 0x1_0000 && start + count * size <= 0x1_0000_0000
    ensures HostIndex(a, start, size) >= count
  {
    var d := a - start + 0x1_0000_0000;
    assert (a - start) % 0x1_0000_0000 == d >= count * size;
    if size == 2 { assert d / 2 >= count; } else { assert d / 4 >= count; }
  }

  // --- from the state of the module ---

  /** The module at rest when a transfer begins whose first command ends at clock `due` */
  function AtStart(m: Module, due: nat, gap: nat, t: Transfer): Fetch
    requires t.size > 0 && |m.intReg| == 33
  {
    var left := BusNow(m, due).left;
    Fetch(if left > 0 then left + gap else 0, m.bus.result.err, m.bus.result.data, -1, m.bus.answers, FlagOf(m.intReg, t))
  }

  lemma StartHolds(m: Module, t: Transfer, due: nat, gap: nat)
    requires t.size > 0 && |m.intReg| == 33 && m.kind == Wishbone && m.bus.result.mem == t.mem && Settled(m.bus)
    ensures var b := AtStart(m, due, gap, t); Holds(m, t, b, gap, due) && b.e <= t.count && b.of == -1
  {
    hide FlagOf, BusNow;
  }

  lemma WbWidth(u: Unit)
    requires AtRest(u)
    ensures |u.wb.intReg| == 33 && Settled(u.wb.bus)
  {
  }

  /** What a run means for the host's memory */
  lemma RunMeans(t: Transfer, home: nat, post: nat, gap: nat, b: Fetch, faults: seq<Fault>, was: seq<Word>, at: nat)
    requires 0 < t.size <= 4 && home < t.count && b.e <= t.count && post < MAX_READ_STATUS_WAIT
    requires at + t.count <= |was| && b.of == -1
    ensures var s := Run(t, home, post, gap, home, 0, b, faults, Blank(t.count));
      && s.outcome != IllegalChain && (s.outcome.Done? ==> Success(t, home, s.log, s.last)) && s.rest.left == 0
      && (s.outcome.Done? && NoNoise(faults) && b.left == 0 && RestBudget(b) <= 1 && Within(b.answers, gap) ==>
            forall k :: home <= k < t.count ==> Buffer(was, at, s.log, t.size)[at + k] == Pack(t.Word(k)))
  {
    hide *;
    Limits();
    BlankGenuine(t, home);
    UnknownBrings(t, b, gap, home);
    RunSucceeds(t, home, post, gap, home, 0, b, faults, Blank(t.count));
    if NoNoise(faults) && b.left == 0 && RestBudget(b) <= 1 && Within(b.answers, gap) {
      PromptReads(t, home, post, gap, b, faults);
      RightMeans(t, home, post, gap, b, faults, was, at);
    }
  }

  lemma UnknownBrings(t: Transfer, b: Fetch, gap: nat, i: nat)
    requires 0 < t.size <= 4 && b.of == -1
    ensures Brings(t, b) && (b.left == 0 ==> Timely(b, gap, i))
  {
  }

  lemma RightMeans(t: Transfer, home: nat, post: nat, gap: nat, b: Fetch, faults: seq<Fault>, was: seq<Word>, at: nat)
    requires 0 < t.size <= 4 && home < t.count && b.e <= t.count && post < MAX_READ_STATUS_WAIT && at + t.count <= |was|
    requires RightIfDone(t, home, post, gap, b, faults)
    ensures var s := Run(t, home, post, gap, home, 0, b, faults, Blank(t.count));
      s.outcome.Done? ==> forall k :: home <= k < t.count ==> Buffer(was, at, s.log, t.size)[at + k] == Pack(t.Word(k))
  {
    hide Run, Transfer.Word, Shown;
  }

  lemma BlankBuffer(was: seq<Word>, at: nat, n: nat, size: nat)
    requires size <= 4
    ensures Buffer(was, at, Blank(n), size) == was
  {
  }

  lemma BufferStep(was: seq<Word>, at: nat, log: seq<Got>, size: nat, j: nat, g: Got)
    requires size <= 4 && at + j < |was| && j < |log| && g.Got?
    ensures Buffer(was, at, log[j := g], size) == Buffer(was, at, log, size)[at + j := Shown(g, size)]
  {
    hide Shown;
  }

  lemma SoftRetries()
    ensures NUM_SOFT_RETRIES == 5
  {
  }

  lemma HoldsKind(m: Module, t: Transfer, b: Fetch, gap: nat, due: nat)
    requires Holds(m, t, b, gap, due)
    ensures m.kind == Wishbone && m.bus.result.mem == t.mem && m.bus.answers == b.answers && FlagIs(m.intReg, t, b.e)
    ensures |m.intReg| == 33 && b.e <= t.count && (m.intReg[0] <==> b.e >= 0)
  {
    hide FlagOf, BusNow;
  }

  lemma RestLeft(m: Module, t: Transfer, b: Fetch, gap: nat, due: nat)
    requires Holds(m, t, b, gap, due) && b.left == 0
    ensures BusNow(m, due).left == 0
  {
    hide FlagIs, BusNow;
  }

  /** After the error register was looked at, with no transfer in progress */
  lemma CheckedFlag(m: Module, n: Module, t: Transfer, b: Fetch, gap: nat, last: bool, due: nat, later: nat)
    requires Holds(m, t, b, gap, due) && b.left == 0 && n.bus == m.bus && n.since == m.since && n.kind == Wishbone
    requires due <= later
    requires |m.intReg| == 33 && n.intReg == if m.intReg[0] && !last then m.intReg[0 := false] else m.intReg
    ensures b.e <= t.count && (m.intReg[0] <==> b.e >= 0)
    ensures Holds(n, t, if m.intReg[0] && !last then b.(e := -1) else b, gap, later)
  {
    hide WordOf, ToNat, Bus.Aged;
    if due > m.since { AgedBus(m.bus, due - m.since); }
    if later > m.since { AgedBus(m.bus, later - m.since); }
  }

  /** The clocks it takes to look at the error register */
  function CheckClocks(selected: bool, cached: bool, failed: bool, last: bool, pre: nat, post: nat): nat {
    SelectClocks(selected, pre) + RegisterClocks(cached, pre) + ReadClocks(1, pre, post)
      + (if !failed then 0 else ReadClocks(33, pre, post) + if last then 0 else WriteClocks(1, pre))
  }

  lemma CheckTakes(selected: bool, cached: bool, failed: bool, last: bool, pre: nat, post: nat)
    ensures CheckClocks(selected, cached, failed, last, pre, post) >= SelectClocks(selected, pre)
  {
  }

  lemma CheckClocksAre(selected: bool, cached: bool, pre: nat, post: nat)
    ensures forall failed, last ::
      CheckClocks(selected, cached, failed, last, pre, post) ==
      SelectClocks(selected, pre) + RegisterClocks(cached, pre) + ReadClocks(1, pre, post)
        + (if !failed then 0 else ReadClocks(33, pre, post) + if last then 0 else WriteClocks(1, pre))
    ensures SelectClocks(true, pre) == RegisterClocks(true, pre) == 0
  {
  }

  lemma ClearedIs(m: Module)
    requires m.kind == Wishbone && |m.intReg| == 33 && m.intReg[0]
    ensures RegisterAfterWrite(m, false, [true]) == m.intReg[0 := false]
  {
  }

  lemma OverParts(d: Module, t: Transfer, b: Fetch)
    requires Over(d, t, b)
    ensures Reading(d) && d.fsm == Rcrc && Stops(d, t, b) && b.left == 0
  {
    hide Reading, Stops;
  }

  /** From the wait for a word to its last bit */
  lemma WordComes(d: Module, t: Transfer, i: nat, a: nat, j: nat, p: Fetch)
    requires Waits(d, t, i, a, j, p)
    ensures Reading(d) && 1 <= t.size <= 4
    ensures var d1 := ReadAfter(d, p.left + 1); var n := ReadAfter(d1, 8 * t.size);
      && ReadOut(d1, 8 * t.size) == p.word[..8 * t.size] && n.crc == Fold(Crc.POLY, d.crc, p.word[..8 * t.size])
      && if j + 1 < t.count then Waits(n, t, i, a, j + 1, Waited(Ask(t, j + 1, Taking(j, p)), 8 * t.size))
         else Over(n, t, Taking(j, p))
  {
    hide *;
    WaitsParts(d, t, i, a, j, p);
    WaitOn(d, t, i, a, j, p, p.left);
    var d0, p0 := ReadAfter(d, p.left), Waited(p, p.left);
    LoadedLeft(j, p);
    WaitsParts(d0, t, i, a, j, p0);
    LoadIs(d0, t, i, a, j, p0);
    ReadOne(d0);
    ReadMore(d, p.left, 1);
    SentIs(ReadNext(d0), t, i, a, j, p0);
  }

  lemma ReceivedIs(f: Fault, sent: Stream)
    ensures !f.Broken? ==> Received(f, sent) == Xor(sent, Mask(f, |sent|))
  {
  }

  lemma ReadOnce(t: Transfer, post: nat, i: nat, p: Fetch, faults: seq<Fault>, log: seq<Got>, host: Word, unit: Word)
    requires 0 < t.size <= 4 && i < t.count == |log|
    ensures var f, later := NextFault(faults), LaterFaults(faults);
      var mask := Mask(f, 8 * t.size); var log1 := log[i := Got(p.word, mask, p.fail, p.of)];
      var host1 := Fold(Crc.POLY, host, Xor(p.word[..8 * t.size], mask)); var unit1 := Fold(Crc.POLY, unit, p.word[..8 * t.size]);
      ReadOn(t, post, i, p, faults, log, host, unit) ==
        if p.left >= MAX_READ_STATUS_WAIT then
          Progress(TimedOut, i, Waited(Coast(t, i, p, MAX_READ_STATUS_WAIT + 4 + post), 1), faults, log, host, unit)
        else if f.Broken? then
          Progress(Lost, i, Waited(Coast(t, i, p, p.left + 8 * t.size + 4 + post), 1), later, log, host, unit)
        else if i + 1 == t.count then Progress(AllRead, t.count, Taking(i, p), later, log1, host1, unit1)
        else ReadOn(t, post, i + 1, Waited(Ask(t, i + 1, Taking(i, p)), 8 * t.size), later, log1, host1, unit1)
  {
    hide Transfer.Word, Coast, Fold, Ask;
  }

  lemma RunOnce(t: Transfer, home: nat, post: nat, gap: nat, i: nat, errors: nat, b: Fetch, faults: seq<Fault>,
                log: seq<Got>)
    requires 0 < t.size <= 4 && i < t.count == |log| && home < t.count && b.e <= t.count
    requires post < MAX_READ_STATUS_WAIT && errors <= MAX_BUS_ERRORS
    ensures var r := Burst(t, post, gap, i, b, faults, log);
      && |r.log| == t.count && r.rest.e <= t.count && (r.stop.AllRead? <==> r.i == t.count) && r.i <= t.count
      && (r.stop.AllRead? ==> r.rest.left == 0)
      && Run(t, home, post, gap, i, errors, b, faults, log) ==
        if !r.stop.AllRead? then Run(t, home, post, gap, r.i, errors, r.rest, r.faults, r.log)
        else if r.host != r.unit then Run(t, home, post, gap, home, errors, r.rest, r.faults, r.log)
        else if r.rest.e < 0 then Ended(Done, r.rest, r.faults, r.log, i)
        else if errors == MAX_BUS_ERRORS then Ended(MaxBusErrors, r.rest, r.faults, r.log, i)
        else if r.rest.e == t.count then Ended(Astray, r.rest.(e := -1), r.faults, r.log, i)
        else Run(t, home, post, gap, r.rest.e, errors + 1, r.rest.(e := -1), r.faults, r.log)
  {
    hide Burst;
    BurstEnds(t, post, gap, i, b, faults, log);
  }

  lemma BurstIs(t: Transfer, post: nat, gap: nat, i: nat, b: Fetch, faults: seq<Fault>, log: seq<Got>)
    requires 0 < t.size <= 4 && i < t.count == |log|
    ensures Burst(t, post, gap, i, b, faults, log) == ReadOn(t, post, i, First(t, post, gap, i, b), faults, log, ONES, ONES)
  {
    hide ReadOn, First;
  }

  lemma ShownIs(g: Got, size: nat)
    requires g.Got? && size <= 4 && |g.mask| == 8 * size
    ensures Shown(g, size) == Pack(Xor(g.word[..8 * size], g.mask))
  {
  }

  lemma ReadOpcode(size: nat, opcode: nat)
    requires size in {1, 2, 4} && opcode == if size == 1 then BREAD8 else if size == 2 then BREAD16 else BREAD32
    ensures opcode in {BREAD8, BREAD16, BREAD32} && WordSize(opcode) == size
  {
  }

  lemma StayPut(h: Chain, n: Chain)
    requires SameBoard(n, h)
    ensures |n.post| == |h.post| && |n.pre| == |h.pre|
  {
  }

  lemma WbInternal(u: Unit, v: Unit)
    requires SameInternal(u, v)
    ensures v.wb.intReg == u.wb.intReg && v.wb.bus == u.wb.bus && v.wb.since == u.wb.since && v.wb.kind == u.wb.kind
  {
  }

  lemma WholeRegister(reg: Stream, all: Stream)
    requires |reg| == 33 && all == reg[..33]
    ensures all == reg
  {
  }

  lemma FlagBits(all: Stream)
    requires |all| == 33
    ensures Or(Shr(Pack(all[..32]), 1), Shl(Pack(all[32..]), 31)) == all[1..]
  {
  }

  lemma PackBits(bits: Stream)
    requires |bits| <= 32
    ensures Pack(bits)[..|bits|] == bits
  {
  }

  lemma NothingAround(s: Stream)
    ensures Fill(0, false) + s + Fill(0, false) == s
  {
  }

  lemma NothingBefore(s: Stream, t: Stream)
    ensures Fill(0, false) + s + t == s + t
  {
  }

  lemma WholeSlice(b: Stream, o: Stream)
    requires |b| == |o|
    ensures o[0..|b|] == o
  {
  }

  // --- the end of a burst ---

  lemma CheckWordRead(d: Module, all: Stream, out: Stream, crc: Stream)
    requires Reading(d) && d.fsm == Rcrc && |all| >= 32 && out == ReadOut(d, |all|) && crc == out[0..32]
    ensures crc == d.crc
  {
    hide ReadOut, ReadAfter, Reading;
    ReadMore(d, 32, |all| - 32);
    SendCrc(d, 32);
    assert d.crc[..32] == d.crc;
    assert (ReadOut(d, 32) + ReadOut(ReadAfter(d, 32), |all| - 32))[0..32] == ReadOut(d, 32);
  }

  lemma BurstOver(u: Unit, v: Unit, d: Module, k: nat, l: nat, idx: seq<int>, t: Transfer, b: Fetch, gap: nat)
    requires SameFrame(u, v) && u.id == 0 && Over(d, t, b) && Reading(d) && d.regSel == Current(u).regSel
    requires v.id < MODULES && Stopped(Current(v), ReadAfter(ReadAfter(d, k), l), v.time) && CachesHold(u, 0, 0, idx)
    ensures v.id == 0 && CachesHold(v, 0, 0, idx) && forall due: nat :: Holds(v.wb, t, b, gap, due)
  {
    hide Reading, ReadAfter, Over, Stops, Holds;
    ReadMore(d, k, l);
    OverStays(d, t, b, k + l);
    ReadKeeps(d, k + l);
    FrameOthers(u, v);
    OverParts(d, t, b);
    WaitedNone(b);
    forall due: nat ensures Holds(v.wb, t, b, gap, due) {
      StoppedHolds(v.wb, ReadAfter(d, k + l), t, b, v.time, gap, due);
    }
    hide SameFrame, ModuleAtRest, Stopped;
  }

  lemma WaitedNone(b: Fetch)
    requires b.left == 0
    ensures Waited(b, 1) == b
  {
  }

  lemma FrameOthers(u: Unit, v: Unit)
    requires SameFrame(u, v)
    ensures u.id == v.id < MODULES
    ensures (u.id != 0 ==> u.wb == v.wb) && (u.id != 1 ==> u.cpu0 == v.cpu0) && (u.id != 2 ==> u.cpu1 == v.cpu1)
  {
    var w := WithCurrent(u, Current(v)).(input := v.input, time := v.time);
    assert w == WithCurrent(v, Current(v));
  }

  // --- the first word ---

  lemma {:induction false} StatusBits(d: Module, k: nat)
    requires Reading(d) && d.fsm == Rstatus
    ensures forall i :: 0 <= i < k && i <= d.bus.left ==> ReadOut(d, k)[i] == (i == d.bus.left)
    decreases k
  {
    hide ReadNext, Reading;
    if k > 0 && d.bus.left > 0 {
      WaitStep(d);
      StatusBits(ReadNext(d), k - 1);
    }
  }

  /** The host sees the first word announced in time exactly when the devices behind the target
      and the clocks the bus still needs are fewer than the reads it allows: behind that many
      devices no burst read ever gets anywhere, however fast the bus */
  lemma AnnouncedInTimeIff(h: Chain, p: Plan)
    requires h.tap == Tap.RunTestIdle && Selecting(h) && OthersAtRest(h.unit) && Begins(Current(h.unit), p)
    ensures var n := After(h, TO_SHIFT_DR); var polls := StreamPins(Fill(MAX_READ_STATUS_WAIT, false), false);
      (exists i :: 0 <= i < |polls| && Out(n, polls)[i])
        <==> |h.post| + Started(Current(h.unit)).bus.left < MAX_READ_STATUS_WAIT
  {
    hide *;
    Limits();
    OthersRange(h.unit);
    var m := Started(Current(h.unit));
    var d := Lagging(m, |h.post|);
    var n := After(h, TO_SHIFT_DR);
    EnterBurstScan(h, p);
    StartedInBurst(Current(h.unit), p);
    BurstRange(m, p, 0);
    LagRuns(m, |h.post|);
    LagIs(m, |h.post|);
    ReadBehind(n, d, Fill(MAX_READ_STATUS_WAIT, false), false);
    StatusBits(d, MAX_READ_STATUS_WAIT);
    var o := ReadOut(d, MAX_READ_STATUS_WAIT);
    if d.bus.left < MAX_READ_STATUS_WAIT { assert o[d.bus.left]; }
  }

  lemma LagIs(m: Module, k: nat)
    ensures Lagging(m, k).bus.left == m.bus.left + k && Lagging(m, k).fsm == m.fsm
  {
  }
}
