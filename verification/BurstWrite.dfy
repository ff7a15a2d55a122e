/** Burst writes on a chain without other devices: the host's loops over a slow and failing bus
    and a noisy cable, clock by clock.  They come to exactly what `WriteRun` says. */
module BurstWrite {
  import opened Bits
  import opened ShiftRegister
  import Crc
  import opened Scan
  import opened ChainLaws
  import opened DebugUnit
  import opened UnitLaws
  import opened DataLaws
  import opened ChainCommands
  import opened AdvDbg
  import opened ReadEngine
  import opened WriteEngine
  import opened BurstLine
  import opened BurstRead
  import opened Transfers
  import opened WriteRun
  import opened WriteLaws
  import Tap

  // --- straight to the unit ---

  predicate Alone(h: Chain) {
    h.pre == [] && h.post == []
  }

  /** With no other device what the host sends is what the unit takes, clock by clock */
  lemma DirectShift(h: Chain, s: Stream, last: bool)
    requires h.tap == Tap.ShiftDr && Selecting(h) && Alone(h)
    ensures var n := After(h, StreamPins(s, last));
      && n.unit == UnitShifted(h.unit, s) && Out(h, StreamPins(s, last)) == UnitOut(h.unit, s)
      && Alone(n) && Selecting(n) && n.tap == (if last && s != [] then Tap.Exit1Dr else Tap.ShiftDr) && SameBoard(n, h)
  {
    hide *;
    AloneParts(h);
    SelectingDebugs(h);
    ShiftDebugStream(h, s, last);
    SelectingStream(h, s, last);
    AfterBoard(h, StreamPins(s, last));
    NoRows(s);
    var n := After(h, StreamPins(s, last));
    AloneFrom(n);
    NothingAfter(Out(h, StreamPins(s, last)), UnitOut(h.unit, s));
  }

  lemma AloneParts(h: Chain)
    requires Alone(h)
    ensures h.pre == [] && h.post == []
  {
  }

  lemma AloneFrom(h: Chain)
    requires |h.pre| == 0 && |h.post| == 0
    ensures Alone(h) && Stages(h.post) == []
  {
  }

  lemma NoRows(s: Stream)
    ensures Stages([]) == [] && Delayed([], s) == s
  {
    assert [] + s == s;
  }

  lemma NothingAfter(a: Stream, b: Stream)
    ensures a + [] == [] + b ==> a == b
  {
    assert a + [] == a && [] + b == b;
  }

  // --- a word and its status bit ---

  /** A scan of a burst write under way, word `j` or the check word next; `u` is the unit when
      the scan began */
  ghost predicate Sending(h: Chain, p: Writes, j: nat, u: Unit) {
    && h.tap == Tap.ShiftDr && Selecting(h) && Alone(h) && SameFrame(u, h.unit)
    && Current(h.unit).regSel == Current(u).regSel
    && p.Fits() && j <= p.count && if j < p.count then AtWrite(h.unit, p, j) else CrcWrite(h.unit, 0)
  }

  /** What the error register makes of a transfer that is over and one that starts */
  function Noted(reg: Stream, failed: bool, addr: nat): Stream {
    if reg == [] || reg[0] then reg else if failed then reg[0 := true] else [false] + FromNat(addr, 32)
  }

  /** The bus when the status bit of a word is shown */
  function BusThen(m: Module, size: nat): Bus
    requires size > 0
  {
    BusFirst(m).Aged(8 * size - 1)
  }

  /** What a word and its status bit do to the module */
  ghost predicate Took(m: Module, n: Module, p: Writes, j: nat, w: Stream) {
    && 1 <= p.size <= 4 && |w| == 8 * p.size
    && var b := BusThen(m, p.size);
    && n.crc == Fold(Crc.POLY, m.crc, w) && n.intReg == Noted(m.intReg, b.err, p.At(j))
    && n.bus == b.Strobe(true, p.At(j), p.size, w)
  }

  lemma UnitOneBit(u: Unit, b: bool)
    ensures UnitShifted(u, [b]) == ClockUnit(u, true, Tap.ShiftDr, b) && UnitOut(u, [b]) == [UnitTdo(u)]
  {
    hide ClockUnit, UnitTdo;
    UnitStep(u, b, []);
    UnitNone(ClockUnit(u, true, Tap.ShiftDr, b));
    assert [b] + [] == [b] && [UnitTdo(u)] + [] == [UnitTdo(u)];
  }

  lemma WatchIsNoted(m: Module)
    requires |m.intReg| == 33 && m.kind == Wishbone
    ensures Watch(m, true, true) == Noted(m.intReg, m.bus.err, m.addr)
  {
    hide FromNat;
  }

  /** Word and status bit at the unit */
  lemma TakeUnit(u: Unit, p: Writes, j: nat, w: Stream)
    requires AtWrite(u, p, j) && |w| == 8 * p.size
    ensures u.id < MODULES && 1 <= p.size <= 4
    ensures var v := UnitShifted(u, w); var n := ClockUnit(v, true, Tap.ShiftDr, false);
      && UnitTdo(v) == (BusThen(Current(u), p.size).left == 0)
      && OthersAtRest(n) && SameFrame(u, n) && AfterWord(Current(n), p, j)
      && Took(Current(u), Current(n), p, j, w) && Current(n).regSel == Current(u).regSel
  {
    hide ClockUnit, ClockModule, SameFrame, AtModule, BusFirst, Bus.Aged, Tdo, Watch, AfterWord, OthersAtRest, UnitTdo, Fold,
      Bus.Strobe, Writes.At, FromNat, UnitShifted;
    WriteWord(u, p, j, w);
    var v := UnitShifted(u, w);
    BusyWrite(v, false);
    StatusStep(Current(v), v.time, v.input, p, j, false);
    WatchIsNoted(Current(v));
    SameFrameTrans(u, v, ClockUnit(v, true, Tap.ShiftDr, false));
  }

  /** Word and status bit on the chain */
  lemma TakeChain(h: Chain, p: Writes, j: nat, u: Unit, w: Stream)
    requires Sending(h, p, j, u) && j < p.count && |w| == 8 * p.size
    ensures h.unit.id < MODULES && 1 <= p.size <= 4
    ensures var a := After(h, StreamPins(w, false)); var n := After(a, [TMS_LOW]);
      && Out(a, [TMS_LOW]) == [BusThen(Current(h.unit), p.size).left == 0]
      && Sending(n, p, j + 1, u) && n.unit.id < MODULES && Took(Current(h.unit), Current(n.unit), p, j, w)
      && SameBoard(n, h)
  {
    hide *;
    SendingParts(h, p, j, u);
    DirectShift(h, w, false);
    var a := After(h, StreamPins(w, false));
    OnePin();
    DirectShift(a, [false], false);
    UnitOneBit(a.unit, false);
    TakeUnit(h.unit, p, j, w);
    var n := After(a, [TMS_LOW]);
    SameBoardTrans(n, a, h);
    SameFrameTrans(u, h.unit, n.unit);
    AfterWordAt(n.unit, p, j);
    SendingFrom(n, p, j + 1, u);
  }

  lemma SendingParts(h: Chain, p: Writes, j: nat, u: Unit)
    requires Sending(h, p, j, u)
    ensures h.tap == Tap.ShiftDr && Selecting(h) && Alone(h) && SameFrame(u, h.unit) && u.id == h.unit.id < MODULES
    ensures Current(h.unit).regSel == Current(u).regSel && p.Fits() && j <= p.count && 1 <= p.size <= 4
    ensures if j < p.count then AtWrite(h.unit, p, j) else CrcWrite(h.unit, 0)
  {
    hide AtWrite, CrcWrite, Writes.At;
  }

  lemma SendingFrom(h: Chain, p: Writes, j: nat, u: Unit)
    requires h.tap == Tap.ShiftDr && Selecting(h) && Alone(h) && SameFrame(u, h.unit) && u.id < MODULES
    requires h.unit.id < MODULES
    requires Current(h.unit).regSel == Current(u).regSel && p.Fits() && j <= p.count
    requires if j < p.count then AtWrite(h.unit, p, j) else CrcWrite(h.unit, 0)
    ensures Sending(h, p, j, u)
  {
    hide AtWrite, CrcWrite, Writes.At;
  }

  lemma AfterWordAt(n: Unit, p: Writes, j: nat)
    requires OthersAtRest(n) && n.id < MODULES && AfterWord(Current(n), p, j) && j < p.count
    ensures if j + 1 < p.count then AtWrite(n, p, j + 1) else CrcWrite(n, 0)
    ensures j + 1 <= p.count && n.id < MODULES
  {
    hide Writes.At, ModuleAtRest;
  }

  // --- the module's states and their meaning ---

  /** The burst that writes the words from `i` on, the first of them to address `a` */
  function Into(t: Transfer, i: nat, a: nat): Writes
    requires i <= t.count
  {
    Writes(a, t.size, t.count - i)
  }

  /** Its addresses are words of the transfer */
  lemma {:induction false} IntoAt(t: Transfer, i: nat, a: nat, j: nat)
    requires t.Fits() && AtWord(t, i, a) && i + j < t.count
    ensures AtWord(t, i + j, Into(t, i, a).At(j)) && Lane(Into(t, i, a).At(j), t.size) == t.Place(i + j)
    ensures Into(t, i, a).At(j) < 0x1_0000_0000
    decreases j
  {
    if j == 0 {
      assert Into(t, i, a).At(0) == a;
    } else {
      IntoAt(t, i, a, j - 1);
      AtNextWord(t, i + j - 1, Into(t, i, a).At(j - 1));
      Multiply(j - 1, 1, t.size);
      assert Into(t, i, a).At(j) == Into(t, i, a).At(j - 1) + t.size;
    }
    AtWordRange(t, i + j, Into(t, i, a).At(j));
    hide Lane, Transfer.Place;
  }

  lemma IntoFits(t: Transfer, i: nat, a: nat)
    requires t.Fits() && AtWord(t, i, a)
    ensures i < t.count && Into(t, i, a).Fits()
    ensures a < 0x1_0000_0000 && 0 < t.count - i < 0x1_0000 && 1 <= t.size <= 4
  {
    IntoAt(t, i, a, 0);
    IntoAt(t, i, a, t.count - i - 1);
    assert Into(t, i, a).At(0) == a;
    hide AtWord, Transfer.Place;
  }

  /** Before word `i` of a burst that began with word `i0` at address `a` */
  ghost predicate Flows(m: Module, t: Transfer, i0: nat, a: nat, i: nat, s: Flow) {
    && t.Fits() && AtWord(t, i0, a) && i0 <= i <= t.count && Settled(m.bus) && m.kind == Wishbone
    && m.bus.mem == s.mem && m.bus.answers == s.answers && FlagIs(m.intReg, t, s.e)
    && if i == i0 then s.left == 0 && !s.fail && s.next == s.mem
       else
         && m.bus.left == s.left > 0 && m.bus.result.err == s.fail && m.bus.result.mem == s.next && (m.bus.err ==> s.e >= 0)
         && (s.e < 0 ==> m.intReg == [false] + FromNat(Into(t, i0, a).At(i - 1 - i0), 32))
  }

  /** The module at rest, or about to be brought to it */
  ghost predicate Rests(m: Module, t: Transfer, s: Flow) {
    && m.kind == Wishbone && Settled(m.bus) && FlagIs(m.intReg, t, s.e)
    && m.bus.mem == s.mem && m.bus.result.mem == s.next && m.bus.left == s.left && m.bus.answers == s.answers
  }

  /** The bus when a status bit is shown: cleared before the first word of a burst */
  lemma BusThenIs(m: Module, size: nat)
    requires Settled(m.bus) && 1 <= size <= 4
    ensures var b := BusThen(m, size);
      && Settled(b) && b.answers == m.bus.answers
      && (m.fsm == Wwait ==> b.left == 0 && !b.err && b.mem == m.bus.mem)
      && (m.fsm != Wwait ==>
            && b.result == m.bus.result && b.left == (if m.bus.left > 8 * size then m.bus.left - 8 * size else 0)
            && (b.left > 0 ==> b.err == m.bus.err && b.mem == m.bus.mem))
  {
    hide Bus.Aged;
    if m.fsm != Wwait { TickBus(m.bus); }
    AgedBus(BusFirst(m), 8 * size - 1);
  }

  lemma NotedFlag(reg: Stream, t: Transfer, e: int, failed: bool, i: nat, before: nat, addr: nat)
    requires FlagIs(reg, t, e) && i < t.count && AtWord(t, i, addr) && addr < 0x1_0000_0000
    requires failed && e < 0 ==> i > 0 && AtWord(t, i - 1, before) && before < 0x1_0000_0000 && reg == [false] + FromNat(before, 32)
    ensures var e1 := if e >= 0 || !failed then e else i - 1; var n := Noted(reg, failed, addr);
      FlagIs(n, t, e1) && (e1 < 0 ==> n == [false] + FromNat(addr, 32))
  {
    hide FromNat, WordOf, AtWord, ToNat;
    if failed && e < 0 {
      var f := FromNat(before, 32);
      assert ([false] + f)[0 := true] == [true] + f;
      NamedFlag(t, i - 1, before);
    }
  }

  /** A word that was taken */
  lemma FlowStep(m: Module, n: Module, t: Transfer, i0: nat, a: nat, i: nat, s: Flow, w: Stream)
    requires Flows(m, t, i0, a, i, s) && i < t.count && n.kind == Wishbone && s.left <= 8 * t.size
    requires Took(m, n, Into(t, i0, a), i - i0, w) && (m.fsm == Wwait <==> i == i0)
    ensures |w| == 8 * t.size && Flows(n, t, i0, a, i + 1, Give(t, i, s, w))
  {
    hide Transfer.At, Transfer.Place, Writes.At, ReadMem, WriteMem, FromNat, BusThen, Bus.Strobe, Noted, FlagIs, Fold, Lane, AtWord;
    IntoAt(t, i0, a, i - i0);
    if i > i0 { IntoAt(t, i0, a, i - i0 - 1); }
    BusThenIs(m, t.size);
    var b := BusThen(m, t.size);
    SettledErr(b);
    NotedFlag(m.intReg, t, s.e, b.err, i, if i > i0 then Into(t, i0, a).At(i - 1 - i0) else 0, Into(t, i0, a).At(i - i0));
    StrobeWrites(b, Into(t, i0, a).At(i - i0), t.size, w);
  }

  lemma SettledErr(b: Bus)
    requires Settled(b)
    ensures b.left == 0 ==> b.err == b.result.err && b.mem == b.result.mem
  {
  }

  /** A word that came before the bus was ready */
  lemma FlowBusy(m: Module, n: Module, t: Transfer, i0: nat, a: nat, i: nat, s: Flow, w: Stream)
    requires Flows(m, t, i0, a, i, s) && i < t.count && n.kind == Wishbone && s.left > 8 * t.size
    requires Took(m, n, Into(t, i0, a), i - i0, w) && (m.fsm == Wwait <==> i == i0)
    ensures Rests(n, t, Later(s, 8 * t.size + 1))
  {
    hide Transfer.At, Transfer.Place, Writes.At, ReadMem, WriteMem, FromNat, BusThen, Bus.Strobe, Noted, FlagIs, Fold, Lane, AtWord;
    IntoAt(t, i0, a, i - i0);
    IntoAt(t, i0, a, i - i0 - 1);
    BusThenIs(m, t.size);
    var b := BusThen(m, t.size);
    NotedFlag(m.intReg, t, s.e, b.err, i, Into(t, i0, a).At(i - 1 - i0), Into(t, i0, a).At(i - i0));
    StrobeWrites(b, Into(t, i0, a).At(i - i0), t.size, w);
    TickBus(b);
    SettledErr(b.Tick());
  }

  /** Whether the bus is done when the next word is in */
  lemma ReadyIs(m: Module, t: Transfer, i0: nat, a: nat, i: nat, s: Flow)
    requires Flows(m, t, i0, a, i, s) && (m.fsm == Wwait <==> i == i0)
    ensures t.size > 0 && (BusThen(m, t.size).left == 0 <==> s.left <= 8 * t.size)
  {
    hide FlagIs, FromNat, BusThen, Transfer.At, AtWord;
    BusThenIs(m, t.size);
  }

  lemma FlowRests(m: Module, t: Transfer, i0: nat, a: nat, i: nat, s: Flow)
    requires Flows(m, t, i0, a, i, s) && i > i0
    ensures Rests(m, t, s) && i0 <= i <= t.count && s.e <= t.count
  {
    hide FromNat, Transfer.At, AtWord, WordOf;
  }

  // --- the end of a burst ---

  lemma AgedLast(b: Bus, k: nat)
    ensures b.Aged(k + 1) == b.Aged(k).Tick()
  {
    AgedMore(b, k, 1);
    AgedOnce(b.Aged(k));
  }

  lemma EndClock(h: Chain, p: Pin, k: nat)
    requires Selecting(h) && Alone(h) && OthersAtRest(h.unit) && h.unit.id < MODULES
    requires Ending(Current(h.unit), k + 1) && !p.trst
    requires h.tap in {Tap.ShiftDr, Tap.Exit1Dr} && Tap.Next(h.tap, p.tms) in {Tap.ShiftDr, Tap.Exit1Dr, Tap.UpdateDr}
    ensures var n := Clock(h, p); var c := Current(h.unit);
      && Selecting(n) && Alone(n) && OthersAtRest(n.unit) && n.tap == Tap.Next(h.tap, p.tms) && SameFrame(h.unit, n.unit)
      && n.unit.id < MODULES && Ending(Current(n.unit), k)
      && Current(n.unit).fsm == c.fsm && Current(n.unit).intReg == c.intReg && Current(n.unit).regSel == c.regSel
      && Current(n.unit).kind == c.kind && Current(n.unit).bus == c.bus.Tick() && n.unit.time == h.unit.time + 1
  {
    hide *;
    AloneParts(h);
    SelectingDebugs(h);
    SelectingClock(h, p);
    UnitClocks(h, p);
    AloneFrom(Clock(h, p));
    BusyStep(h.unit, h.tap, TargetTdi(h, p.tdi));
    SameFrameId(h.unit, Clock(h, p).unit);
    EndingClock(Current(h.unit), h.unit.time, h.unit.input, h.tap, TargetTdi(h, p.tdi), k);
  }

  /** What the error register holds when a burst is over */
  function Closed(m: Module, b: Bus): Stream {
    if m.fsm == Wmatch && m.intReg != [] && !m.intReg[0] && b.err then m.intReg[0 := true] else m.intReg
  }

  /** `n` is `m` at rest since clock `at`; its bus was `b` a clock before */
  ghost predicate Rested(n: Module, m: Module, b: Bus, at: nat) {
    && ModuleAtRest(n) && n.kind == m.kind && n.regSel == m.regSel && n.intReg == Closed(m, b)
    && n.bus == b.Tick() && n.since == at
  }

  lemma RestedIs(m: Module, now: nat, r: Input, tdi: bool)
    requires Ending(m, 0)
    ensures Inhibits(m) && Rested(ClockModule(m, now, true, Tap.UpdateDr, r, tdi), m, m.bus, now + 1)
  {
    hide ClockModule, ModuleAtRest, Watch;
    EndingUpdate(m, now, r, tdi);
    EndingReg(m);
  }

  lemma EndingReg(m: Module)
    requires Ending(m, 0)
    ensures (if m.fsm == Wmatch then Watch(m, true, false) else m.intReg) == Closed(m, m.bus)
  {
    hide FromNat;
  }

  /** Update-DR ends the burst */
  lemma EndUpdate(h: Chain, p: Pin)
    requires Selecting(h) && Alone(h) && OthersAtRest(h.unit) && h.unit.id < MODULES && Ending(Current(h.unit), 0)
    requires h.tap == Tap.UpdateDr && !p.trst
    ensures var n := Clock(h, p); var c := Current(h.unit);
      && Selecting(n) && Alone(n) && AtRest(n.unit) && n.tap == Tap.Next(h.tap, p.tms) && SameFrame(h.unit, n.unit)
      && n.unit.id < MODULES && Rested(Current(n.unit), c, c.bus, n.unit.time) && n.unit.time == h.unit.time + 1
  {
    hide *;
    AloneParts(h);
    UpdateNext(p.tms);
    SelectingDebugs(h);
    SelectingClock(h, p);
    UnitClocks(h, p);
    var n := Clock(h, p);
    AloneFrom(n);
    RestedIs(Current(h.unit), h.unit.time, h.unit.input, TargetTdi(h, p.tdi));
    BusyClock(h.unit, Tap.UpdateDr, TargetTdi(h, p.tdi));
    FrameOf(h.unit, n.unit, ClockModule(Current(h.unit), h.unit.time, true, Tap.UpdateDr, h.unit.input, TargetTdi(h, p.tdi)));
    RestedRest(Current(n.unit), Current(h.unit), n.unit.time);
    RestUnit(n.unit);
  }

  lemma FrameOf(u: Unit, n: Unit, m: Module)
    requires u.id < MODULES && n == WithCurrent(u, m).(input := n.input, time := n.time)
    ensures SameFrame(u, n)
  {
  }

  lemma RestedRest(n: Module, m: Module, at: nat)
    requires Rested(n, m, m.bus, at)
    ensures ModuleAtRest(n)
  {
  }

  lemma UpdateNext(tms: bool)
    ensures Tap.Next(Tap.UpdateDr, tms) == if tms then Tap.SelectDr else Tap.RunTestIdle
  {
  }

  lemma SendingEnds(h: Chain, p: Writes, j: nat, u: Unit)
    requires Sending(h, p, j, u) && j > 0
    ensures h.unit.id < MODULES && OthersAtRest(h.unit) && Ending(Current(h.unit), 3)
    ensures Current(h.unit).fsm != Wmatch && Current(h.unit).kind == Wishbone
  {
    hide Writes.At, Selecting, SameFrame, ModuleAtRest;
  }

  /** A reset in the middle of a burst brings the unit to rest at its fourth clock; the error register
      stays, and a transfer in progress goes on */
  lemma ResetAbortsWrite(h: Chain, p: Writes, j: nat, u: Unit, trstWired: bool)
    requires Sending(h, p, j, u) && j > 0
    ensures h.unit.id < MODULES
    ensures var n := After(h, ResetPins(trstWired)); var c := Current(h.unit);
      && AtRest(n.unit) && n.unit.id == h.unit.id && SameFrame(u, n.unit) && n.unit.time == h.unit.time + 11
      && Current(n.unit).kind == Wishbone && Current(n.unit).intReg == c.intReg
      && Current(n.unit).bus == c.bus.Aged(4) && Current(n.unit).since == h.unit.time + 4
  {
    hide *;
    SendingParts(h, p, j, u);
    SendingEnds(h, p, j, u);
    TapIsHigh();
    TapAbort();
    ResetSplit(trstWired);
    TailAvoidsData(trstWired);
    var tail := seq(5, _ => TMS_HIGH) + [Pin(false, false, trstWired), TMS_LOW];
    AfterAppend(h, [TMS_LOW, TMS_HIGH, TMS_HIGH, TMS_HIGH], tail);
    After4(h, TMS_LOW, TMS_HIGH, TMS_HIGH, TMS_HIGH);
    var a := Clock(h, TMS_LOW);
    var b := Clock(a, TMS_HIGH);
    var c := Clock(b, TMS_HIGH);
    var e := Clock(c, TMS_HIGH);
    EndClock(h, TMS_LOW, 2);
    EndClock(a, TMS_HIGH, 1);
    EndClock(b, TMS_HIGH, 0);
    EndUpdate(c, TMS_HIGH);
    QuietRun(e, tail);
    LaterAtRest(e.unit, e.unit.time + 7);
    SameFrameTrans(u, h.unit, a.unit);
    SameFrameTrans(u, a.unit, b.unit);
    SameFrameTrans(u, b.unit, c.unit);
    SameFrameTrans(u, c.unit, e.unit);
    SameFrameId(u, e.unit);
    SameFrameLater(u, e.unit, e.unit.time + 7);
    FourTicks(Current(h.unit).bus);
    RestedCut(Current(e.unit), Current(c.unit), Current(c.unit).bus, e.unit.time);
  }

  lemma FourTicks(b: Bus)
    ensures b.Tick().Tick().Tick().Tick() == b.Aged(4)
  {
    hide Bus.Tick;
    AgedNone(b);
    AgedLast(b, 0);
    AgedLast(b, 1);
    AgedLast(b, 2);
    AgedLast(b, 3);
    hide Bus.Aged;
  }

  lemma RestedCut(n: Module, m: Module, b: Bus, at: nat)
    requires Rested(n, m, b, at) && m.fsm != Wmatch
    ensures n.kind == m.kind && n.intReg == m.intReg && n.bus == b.Tick() && n.since == at
  {
  }

  lemma MatchBit(u: Unit, c: Word)
    requires CrcWrite(u, 0)
    ensures u.id < MODULES
    ensures var v := UnitShifted(u, c); var n := ClockUnit(v, true, Tap.ShiftDr, false);
      && UnitTdo(v) == (c == Current(u).crc)
      && OthersAtRest(n) && SameFrame(u, n) && Ending(Current(n), 2) && Current(n).fsm == Wmatch
      && Current(n).intReg == Current(u).intReg && Current(n).regSel == Current(u).regSel && Current(n).kind == Wishbone
      && Current(n).bus == Current(u).bus.Aged(33)
  {
    hide *;
    CrcBits(u, 0, c);
    var v := UnitShifted(u, c);
    CrcParts(v, 32);
    BusyWrite(v, false);
    CrcClock(Current(v), v.time, v.input, Tap.ShiftDr, false);
    AgedLast(Current(u).bus, 32);
    SameFrameTrans(u, v, ClockUnit(v, true, Tap.ShiftDr, false));
    SameFrameId(u, ClockUnit(v, true, Tap.ShiftDr, false));
    MatchEnds(Current(v));
  }

  lemma MatchEnds(m: Module)
    requires Writing(m)
    ensures Ending(m.(fsm := Wmatch, bitCount := m.bitCount + 1, bus := m.bus.Tick()), 2) && m.kind == Wishbone
  {
    TickBus(m.bus);
  }

  /** The check word, its match bit and the end of the scan */
  lemma FinishChain(h: Chain, p: Writes, u: Unit, c: Word)
    requires Sending(h, p, p.count, u)
    ensures h.unit.id < MODULES
    ensures var a := After(h, StreamPins(c, false)); var b := After(a, [TMS_LOW]); var d := After(b, [TMS_HIGH]);
      var n := After(d, [TMS_HIGH, TMS_LOW]); var m := Current(h.unit);
      && Out(a, [TMS_LOW]) == [c == m.crc] && Ready(n) && SameFrame(u, n.unit) && SameBoard(n, h)
      && n.unit.id == u.id && Current(n.unit).regSel == Current(u).regSel
      && Rested(Current(n.unit), m.(fsm := Wmatch), m.bus.Aged(35), n.unit.time)
  {
    hide *;
    SendingParts(h, p, p.count, u);
    var m := Current(h.unit);
    DirectShift(h, c, false);
    var a := After(h, StreamPins(c, false));
    OnePin();
    DirectShift(a, [false], false);
    UnitOneBit(a.unit, false);
    MatchBit(h.unit, c);
    var b := After(a, [TMS_LOW]);
    TapIsHigh();
    TapAbort();
    UpdateNext(false);
    OthersRange(b.unit);
    CrcKind(h.unit);
    AfterOne(b, TMS_HIGH);
    var d := Clock(b, TMS_HIGH);
    EndClock(b, TMS_HIGH, 1);
    After2(d, TMS_HIGH, TMS_LOW);
    var e := Clock(d, TMS_HIGH);
    EndClock(d, TMS_HIGH, 0);
    EndUpdate(e, TMS_LOW);
    var n := Clock(e, TMS_LOW);
    AgedLast(m.bus, 33);
    AgedLast(m.bus, 34);
    SameFrameTrans(u, h.unit, b.unit);
    SameFrameTrans(u, b.unit, d.unit);
    SameFrameTrans(u, d.unit, e.unit);
    SameFrameTrans(u, e.unit, n.unit);
    SameFrameId(u, n.unit);
    AfterBoard(b, [TMS_HIGH]);
    AfterBoard(d, [TMS_HIGH, TMS_LOW]);
    SameBoardTrans(b, a, h);
    SameBoardTrans(d, b, h);
    SameBoardTrans(n, d, h);
    ReadyFrom(n);
    RestedSame(Current(n.unit), Current(e.unit), m.(fsm := Wmatch), Current(e.unit).bus, n.unit.time);
  }

  lemma CrcKind(u: Unit)
    requires CrcWrite(u, 0)
    ensures u.id < MODULES && Current(u).kind == Wishbone
  {
  }

  lemma RestedSame(n: Module, m: Module, l: Module, b: Bus, at: nat)
    requires Rested(n, m, b, at) && m.fsm == l.fsm && m.intReg == l.intReg && m.kind == l.kind && m.regSel == l.regSel
    ensures Rested(n, l, b, at) && n.regSel == l.regSel
  {
  }

  /** Whatever error was still open has been noticed by then if it could be */
  lemma FlowEnds(m: Module, n: Module, t: Transfer, i0: nat, a: nat, s: Flow, r: Course, at: nat)
    requires i0 < t.count && Flows(m, t, i0, a, t.count, s) && r.stop.AllSent? && r.s == s
    requires Rested(n, m.(fsm := Wmatch), m.bus.Aged(35), at)
    ensures Rests(n, t, Left(t, r)) && n.since == at
  {
    hide Transfer.At, FromNat, Bus.Aged, ModuleAtRest, ReadMem, FlagIs, AtWord, Writes.At;
    FitsRange(t);
    AgedBus(m.bus, 35);
    var b := m.bus.Aged(35);
    SettledErr(b);
    TickBus(b);
    SettledErr(b.Tick());
    ClosedFlag(m, b, t, s.e, i0, a);
  }

  lemma ClosedFlag(m: Module, b: Bus, t: Transfer, e: int, i0: nat, a: nat)
    requires t.Fits() && AtWord(t, i0, a) && i0 < t.count && FlagIs(m.intReg, t, e)
    requires e < 0 ==> m.intReg == [false] + FromNat(Into(t, i0, a).At(t.count - 1 - i0), 32)
    ensures FlagIs(Closed(m.(fsm := Wmatch), b), t, if e >= 0 || !b.err then e else t.count - 1)
  {
    hide FromNat, AtWord, WordOf, ToNat, Writes.At;
    var addr := Into(t, i0, a).At(t.count - 1 - i0);
    IntoAt(t, i0, a, t.count - 1 - i0);
    var f := FromNat(addr, 32);
    assert ([false] + f)[0 := true] == [true] + f;
    NamedFlag(t, t.count - 1, addr);
  }

  // --- the start of a burst ---

  /** A module that has just taken a burst write command */
  predicate Primed(m: Module, p: Writes) {
    && p.Fits() && m.fsm == Wready && |m.out| == |m.intReg| == 33 && m.kind == Wishbone
    && Settled(m.bus) && m.Size() == p.size && m.wordCount == p.count && m.addr == p.base && m.bitCount == 0
  }

  lemma PrimedClock(m: Module, p: Writes, now: nat, tap: Tap.State, r: Input, tdi: bool)
    requires Primed(m, p)
    ensures ClockModule(m, now, true, tap, r, tdi) == m.(fsm := if tap.CaptureDr? then Wwait else Wready, bus := m.bus.Tick())
  {
    hide FromNat, WriteMem, ModuleSelect, Operation, Watch, Writes.At, Crc.HardwareStep, WordSize;
  }

  lemma AwaitClock(m: Module, now: nat, r: Input, tdi: bool)
    requires m.fsm == Wwait && !r[52]
    ensures ClockModule(m, now, true, Tap.ShiftDr, r, tdi) == m.(bus := m.bus.Tick())
  {
    hide FromNat, WriteMem, ModuleSelect, Operation, Watch, Crc.HardwareStep, WordSize;
  }

  const START: Pin := Pin(false, true, false)

  lemma StartPin()
    ensures StreamPins([true], false) == [START]
  {
  }

  lemma PrimedAt(m: Module, r: Input, p: Writes)
    requires Primed(m, p) && r[52]
    ensures AtModule(m.(fsm := Wwait), r, p, 0)
  {
    assert p.At(0) == p.base;
    hide Writes.At;
  }

  /** The clocks up to Shift-DR */
  lemma ReachWrite(h: Chain, p: Writes)
    requires h.tap == Tap.RunTestIdle && Selecting(h) && Alone(h) && OthersAtRest(h.unit) && h.unit.id < MODULES
    requires Primed(Current(h.unit), p)
    ensures var n := After(h, TO_SHIFT_DR); var m := Current(h.unit);
      && n.tap == Tap.ShiftDr && Selecting(n) && Alone(n) && OthersAtRest(n.unit) && SameFrame(h.unit, n.unit)
      && SameBoard(n, h) && n.unit.id < MODULES && n.unit.input == h.unit.input
      && Current(n.unit) == m.(fsm := Wwait, bus := m.bus.Tick().Tick().Tick())
  {
    hide *;
    var m := Current(h.unit);
    var m1 := m.(bus := m.bus.Tick());
    var m2 := m1.(bus := m1.bus.Tick());
    ToShift();
    TapEntry();
    TapIsHigh();
    After3(h, TMS_HIGH, TMS_LOW, TMS_LOW);
    AfterBoard(h, TO_SHIFT_DR);
    var a := Clock(h, TMS_HIGH);
    var b := Clock(a, TMS_LOW);
    EntryClock(h, TMS_HIGH);
    PrimedClock(m, p, h.unit.time, Tap.RunTestIdle, h.unit.input, TargetTdi(h, false));
    PrimedStays(m, p);
    EntryClock(a, TMS_LOW);
    PrimedClock(m1, p, a.unit.time, Tap.SelectDr, a.unit.input, TargetTdi(a, false));
    PrimedStays(m1, p);
    EntryClock(b, TMS_LOW);
    PrimedClock(m2, p, b.unit.time, Tap.CaptureDr, b.unit.input, TargetTdi(b, false));
    PrimedStays(m2, p);
    SameFrameTrans(h.unit, a.unit, b.unit);
    SameFrameTrans(h.unit, b.unit, Clock(b, TMS_LOW).unit);
  }

  /** And up to the start bit */
  lemma EnterWrite(h: Chain, p: Writes)
    requires h.tap == Tap.RunTestIdle && Selecting(h) && Alone(h) && OthersAtRest(h.unit) && h.unit.id < MODULES
    requires Primed(Current(h.unit), p) && !ModuleSelect(h.unit.input)
    ensures var n := After(After(h, TO_SHIFT_DR), [START]); var m := Current(h.unit);
      && Sending(n, p, 0, h.unit) && n.unit.id == h.unit.id && SameBoard(n, h)
      && Current(n.unit) == m.(fsm := Wwait, bus := m.bus.Aged(4))
  {
    hide *;
    var m, c := Current(h.unit), After(h, TO_SHIFT_DR);
    ReachWrite(h, p);
    StartPin();
    DirectShift(c, [true], false);
    UnitOneBit(c.unit, true);
    BusyShift(c.unit, true);
    InputSame(h.unit.input);
    AwaitClock(Current(c.unit), c.unit.time, c.unit.input, true);
    FourTicks(m.bus);
    var n := After(c, [START]);
    SameBoardTrans(n, c, h);
    SameFrameTrans(h.unit, c.unit, n.unit);
    SameFrameId(h.unit, n.unit);
    PrimedLater(m, p);
    PrimedAt(m.(bus := m.bus.Aged(4)), n.unit.input, p);
    PrimedParts(m, p);
    AtWriteFrom(n.unit, p);
    SendingFrom(n, p, 0, h.unit);
  }

  lemma InputSame(r: Input)
    requires !ModuleSelect(r)
    ensures !r[52]
  {
  }

  lemma PrimedLater(m: Module, p: Writes)
    requires Primed(m, p)
    ensures Primed(m.(bus := m.bus.Aged(4)), p)
  {
    AgedBus(m.bus, 4);
    hide Bus.Aged, Writes.At;
  }

  lemma PrimedParts(m: Module, p: Writes)
    requires Primed(m, p)
    ensures p.Fits() && 0 < p.count
  {
  }

  lemma PrimedStays(m: Module, p: Writes)
    requires Primed(m, p)
    ensures m.(fsm := Wready) == m && Primed(m.(bus := m.bus.Tick()), p)
  {
    TickBus(m.bus);
    hide Writes.At;
  }

  lemma AtWriteFrom(u: Unit, p: Writes)
    requires OthersAtRest(u) && u.id < MODULES && AtModule(Current(u), u.input, p, 0)
    ensures AtWrite(u, p, 0)
  {
  }

  lemma BusyShift(u: Unit, b: bool)
    requires OthersAtRest(u)
    ensures u.id < MODULES
    ensures var n := ClockUnit(u, true, Tap.ShiftDr, b);
      && OthersAtRest(n) && SameFrame(u, n) && Current(n) == ClockModule(Current(u), u.time, true, Tap.ShiftDr, u.input, b)
      && n.input == u.input[1..] + [b]
  {
    BusyClock(u, Tap.ShiftDr, b);
    hide ClockModule, ModuleAtRest, ClockUnit;
  }

  lemma EntryClock(h: Chain, p: Pin)
    requires Selecting(h) && Alone(h) && OthersAtRest(h.unit) && !p.trst
    requires h.tap in {Tap.RunTestIdle, Tap.SelectDr, Tap.CaptureDr}
    requires Tap.Next(h.tap, p.tms) in {Tap.SelectDr, Tap.CaptureDr, Tap.ShiftDr}
    ensures h.unit.id < MODULES
    ensures var n := Clock(h, p);
      && Selecting(n) && Alone(n) && OthersAtRest(n.unit) && n.tap == Tap.Next(h.tap, p.tms) && SameFrame(h.unit, n.unit)
      && n.unit.id < MODULES && n.unit.input == h.unit.input
      && Current(n.unit) == ClockModule(Current(h.unit), h.unit.time, true, h.tap, h.unit.input, TargetTdi(h, p.tdi))
  {
    hide *;
    AloneParts(h);
    SelectingDebugs(h);
    SelectingClock(h, p);
    UnitClocks(h, p);
    AloneFrom(Clock(h, p));
    BusyStep(h.unit, h.tap, TargetTdi(h, p.tdi));
    IdleInput(h.unit, h.tap, TargetTdi(h, p.tdi));
    SameFrameId(h.unit, Clock(h, p).unit);
  }

  lemma IdleInput(u: Unit, tap: Tap.State, tdi: bool)
    requires tap != Tap.ShiftDr
    ensures ClockUnit(u, true, tap, tdi).input == u.input
  {
    hide ClockModule;
  }

  // --- the host ---

  class Writer {
    const burster: Burster
    const adv: Debugger

    constructor (burster: Burster)
      ensures this.burster == burster && this.adv == burster.adv
    {
      this.burster, this.adv := burster, burster.adv;
    }

    /** Sends one word, which the cable may spoil, and reads its status bit */
    method SendWord(ghost t: Transfer, size: nat, ghost i0: nat, ghost a: nat, ghost i: nat, w: Stream, ghost u: Unit,
                    ghost s: Flow)
      returns (ready: bool, reported: bool)
      requires burster.adv == adv && t.Fits() && t.size == size && |w| == 8 * size && i0 <= i < t.count
      requires Sending(adv.host.hw, Into(t, i0, a), i - i0, u) && adv.host.hw.unit.id < MODULES
      requires Flows(Current(adv.host.hw.unit), t, i0, a, i, s)
      modifies adv.host`hw, burster`faults
      ensures adv.host.hw.unit.id < MODULES && SameBoard(adv.host.hw, old(adv.host.hw))
      ensures Sending(adv.host.hw, Into(t, i0, a), i - i0 + 1, u)
      ensures burster.faults == LaterFaults(old(burster.faults)) && 0 < t.size <= 4
      ensures reported == NextFault(old(burster.faults)).Broken? && ready == (s.left <= 8 * size)
      ensures var m, bits := Current(adv.host.hw.unit), Received(NextFault(old(burster.faults)), w);
        && (ready ==> Flows(m, t, i0, a, i + 1, Give(t, i, s, bits)))
        && (!ready ==> Rests(m, t, Later(s, 8 * size + 1)))
        && m.crc == Fold(Crc.POLY, old(Current(adv.host.hw.unit)).crc, bits)
    {
      hide *;
      FitsRange(t);
      ghost var h := adv.host.hw;
      ghost var p := Into(t, i0, a);
      ghost var m := Current(h.unit);
      SendingParts(h, p, i - i0, u);
      SendingNext(h, p, i - i0, u);
      var f := NextFault(burster.faults);
      burster.faults := LaterFaults(burster.faults);
      var actual := Received(f, w);
      IntoIs(t, i0, a);
      TakeChain(h, p, i - i0, u, actual);
      ReadyIs(m, t, i0, a, i, s);
      adv.host.JtagWriteStream(actual, false);
      ready := adv.host.ReadWriteBit(TMS_LOW);
      reported := f.Broken?;
      ghost var n := Current(adv.host.hw.unit);
      TookCrc(m, n, p, i - i0, actual);
      SendingNext(adv.host.hw, p, i - i0 + 1, u);
      if ready {
        FlowStep(m, n, t, i0, a, i, s, actual);
      } else {
        FlowBusy(m, n, t, i0, a, i, s, actual);
      }
    }

    /** Between operations, on a chain without other devices */
    ghost predicate Operating(debugCmd: Word, gap: nat)
      reads this, burster, adv.host
    {
      && burster.adv == adv && Synced(adv.host) && adv.CanRetry(debugCmd) && adv.host.desiredChain == 0 && Alone(adv.host.hw)
      && gap == RestartClocks(adv.host.irSize + adv.host.irPrefix + adv.host.irPostfix, 0)
    }

    lemma OperatingParts(debugCmd: Word, gap: nat)
      requires Operating(debugCmd, gap)
      ensures burster.adv == adv && Synced(adv.host) && adv.CanRetry(debugCmd) && adv.host.desiredChain == 0
      ensures Alone(adv.host.hw) && Ready(adv.host.hw) && AtRest(adv.host.hw.unit)
      ensures adv.host.drPrefix == |adv.host.hw.pre| == 0 && adv.host.drPostfix == |adv.host.hw.post| == 0
      ensures gap == RestartClocks(adv.host.irSize + adv.host.irPrefix + adv.host.irPostfix, 0)
    {
      hide RestartClocks;
    }

    lemma OperatingFrom(debugCmd: Word, gap: nat)
      requires burster.adv == adv && Synced(adv.host) && adv.CanRetry(debugCmd) && adv.host.desiredChain == 0
      requires Alone(adv.host.hw) && gap == RestartClocks(adv.host.irSize + adv.host.irPrefix + adv.host.irPostfix, 0)
      ensures Operating(debugCmd, gap)
    {
      hide RestartClocks;
    }

    /** Before a burst, whose first bit will find the store `k`; `known` says whether the error register
        is selected and the host knows it */
    ghost predicate Standing(t: Transfer, debugCmd: Word, k: Store, gap: nat, known: bool)
      reads this, burster, adv.host
    {
      Operating(debugCmd, gap) && Primes(adv.host.hw.unit.wb, t, k, burster.Due()) && adv.Cached(0) == known
    }

    lemma StandingParts(t: Transfer, debugCmd: Word, k: Store, gap: nat, known: bool)
      requires Standing(t, debugCmd, k, gap, known)
      ensures Operating(debugCmd, gap) && Primes(adv.host.hw.unit.wb, t, k, burster.Due()) && adv.Cached(0) == known
    {
      hide Primes, Operating;
    }

    lemma StandingFrom(t: Transfer, debugCmd: Word, k: Store, gap: nat, known: bool)
      requires Operating(debugCmd, gap) && Primes(adv.host.hw.unit.wb, t, k, burster.Due()) && adv.Cached(0) == known
      ensures Standing(t, debugCmd, k, gap, known)
    {
      hide Primes, Operating;
    }

    /** After a burst that was not cut short and whose check word matched */
    ghost predicate Finished(t: Transfer, debugCmd: Word, n: Flow, gap: nat, known: bool)
      reads this, burster, adv.host
    {
      && Operating(debugCmd, gap) && Rests(adv.host.hw.unit.wb, t, n) && adv.Cached(0) == known
      && adv.host.hw.unit.wb.since == adv.host.hw.unit.time && adv.host.currentChain == 0
    }

    lemma FinishedParts(t: Transfer, debugCmd: Word, n: Flow, gap: nat, known: bool)
      requires Finished(t, debugCmd, n, gap, known)
      ensures Operating(debugCmd, gap) && Rests(adv.host.hw.unit.wb, t, n) && adv.Cached(0) == known
      ensures adv.host.hw.unit.wb.since == adv.host.hw.unit.time && adv.host.currentChain == 0
    {
      hide Rests, Operating;
    }

    lemma FinishedFrom(t: Transfer, debugCmd: Word, n: Flow, gap: nat, known: bool)
      requires Operating(debugCmd, gap) && Rests(adv.host.hw.unit.wb, t, n) && adv.Cached(0) == known
      requires adv.host.hw.unit.wb.since == adv.host.hw.unit.time && adv.host.currentChain == 0
      ensures Finished(t, debugCmd, n, gap, known)
    {
      hide Rests, Operating;
    }

    /** Sends the command and the start bit */
    method BeginWrite(opcode: nat, ghost t: Transfer, size: nat, ghost i0: nat, address: nat, count: nat,
                      ghost debugCmd: Word, ghost k: Store, ghost gap: nat, ghost known: bool)
      returns (ghost u: Unit)
      requires Standing(t, debugCmd, k, gap, known) && t.Fits() && t.size == size && i0 < t.count
      requires count == t.count - i0
      requires AtWord(t, i0, address) && opcode in {BWRITE8, BWRITE16, BWRITE32} && WordSize(opcode) == size
      modifies adv.host`hw, adv.host`currentChain, adv.host`softRetryNo, adv.host`desiredChain
      ensures Sending(adv.host.hw, Into(t, i0, address), 0, u) && u.id == 0 && adv.host.hw.unit.id < MODULES
      ensures Flows(Current(adv.host.hw.unit), t, i0, address, i0, Cleared(k))
      ensures Current(adv.host.hw.unit).crc == ONES
      ensures adv.host.desiredChain == adv.host.currentChain == 0 && adv.host.softRetryNo == 0
      ensures CachesHold(u, 0, 0, adv.host.currentRegIdx) && adv.CanRetry(debugCmd)
      ensures SameBoard(adv.host.hw, old(adv.host.hw)) && burster.adv == adv && adv.Cached(0) == known
      ensures adv.host.drPrefix == 0 && adv.host.drPostfix == 0
    {
      hide *;
      StandingParts(t, debugCmd, k, gap, known);
      OperatingParts(debugCmd, gap);
      adv.CanRetryParts(debugCmd);
      adv.SyncedParts();
      ghost var h := adv.host.hw;
      ghost var m := h.unit.wb;
      ghost var p := Into(t, i0, address);
      WriteOpcodes(opcode);
      ModuleCount();
      IntoFits(t, i0, address);
      IntoIs(t, i0, address);
      WbIsCurrent(h.unit);
      PrimesKind(m, t, k, burster.Due());
      burster.DueIs();
      ghost var due := burster.Due();
      adv.CachedIs(0);
      adv.BurstCommand(opcode, address, count);
      adv.CachedIs(0);
      ghost var g := adv.host.hw;
      AloneStays(h, g);
      u := g.unit;
      WbIsCurrent(u);
      PrimedFrom(m, Current(u), p, opcode, due);
      EnterWrite(g, p);
      ToShift();
      adv.host.TapSetShiftDr();
      adv.host.WriteBit(START);
      SameBoardTrans(adv.host.hw, g, h);
      adv.CanRetryStays(h, debugCmd);
      adv.CachedIs(0);
      FlowFrom(m, Current(adv.host.hw.unit), t, i0, address, k, due);
    }

    /** Gives up a burst in the middle */
    method CutShort(debugCmd: Word, ghost t: Transfer, ghost p: Writes, ghost j: nat, ghost u: Unit, ghost s: Flow,
                    ghost gap: nat)
      requires burster.adv == adv && Sending(adv.host.hw, p, j, u) && j > 0 && u.id == 0
      requires adv.host.hw.unit.id < MODULES
      requires Rests(Current(adv.host.hw.unit), t, s)
      requires adv.CanRetry(debugCmd) && adv.host.softRetryNo == 0 && adv.host.desiredChain == 0
      requires adv.host.drPrefix == 0
      requires gap == RestartClocks(adv.host.irSize + adv.host.irPrefix + adv.host.irPostfix, 0)
      modifies adv.host`hw, adv.host`currentChain, adv.host`currentRegIdx, adv.host`softRetryNo, adv.host`irChain,
        adv.host.irChain
      ensures Standing(t, debugCmd, Resumed(Later(s, CUTTING), gap + STARTING), gap, false)
      ensures SameBoard(adv.host.hw, old(adv.host.hw))
      ensures Rests(adv.host.hw.unit.wb, t, Later(s, CUTTING)) && burster.Due() == adv.host.hw.unit.wb.since + gap
      ensures adv.host.irChain == old(adv.host.irChain) || (adv.host.irChain != null && fresh(adv.host.irChain))
    {
      hide *;
      ghost var h := adv.host.hw;
      SoftRetries();
      ModuleCount();
      SendingParts(h, p, j, u);
      ResetAbortsWrite(h, p, j, u, adv.host.trstWired);
      ghost var n := After(h, ResetPins(adv.host.trstWired));
      SameFrameId(u, n.unit);
      WbIsCurrent(n.unit);
      RestsLater(Current(h.unit), n.unit.wb, t, s);
      ghost var ir := adv.host.irSize + adv.host.irPrefix + adv.host.irPostfix;
      var again := adv.RetryDo(debugCmd);
      AloneStays(h, adv.host.hw);
      adv.CachedIs(0);
      burster.DueIs();
      RetryClocksAre(ir);
      ClocksAre(0, 0);
      OperatingFrom(debugCmd, gap);
      RestsPrimes(adv.host.hw.unit.wb, t, Later(s, CUTTING), burster.Due(), gap);
      StandingFrom(t, debugCmd, Resumed(Later(s, CUTTING), gap + STARTING), gap, false);
    }

    /** The host sends the next command before it finds that it must give up */
    method Overtaken(opcode: nat, ghost t: Transfer, address: nat, length: nat, ghost debugCmd: Word, ghost n: Flow,
                     ghost gap: nat)
      requires Operating(debugCmd, gap) && Rests(adv.host.hw.unit.wb, t, n)
      requires burster.Due() == adv.host.hw.unit.wb.since + gap
      requires opcode in {BWRITE8, BWRITE16, BWRITE32} && address < 0x1_0000_0000 && length < 0x1_0000_0000
      modifies adv.host`hw, adv.host`currentChain, adv.host`softRetryNo, adv.host`desiredChain
      ensures Rests(adv.host.hw.unit.wb, t, Later(n, gap)) && SameBoard(adv.host.hw, old(adv.host.hw))
    {
      hide *;
      ghost var h := adv.host.hw;
      OperatingParts(debugCmd, gap);
      adv.SyncedParts();
      WbIsCurrent(h.unit);
      WriteOpcodes(opcode);
      ModuleCount();
      RestsKind(h.unit.wb, t, n);
      burster.DueIs();
      RetryClocksAre(adv.host.irSize + adv.host.irPrefix + adv.host.irPostfix);
      adv.BurstCommand(opcode, address, length);
      WbIsCurrent(adv.host.hw.unit);
      CommandedRests(h.unit.wb, adv.host.hw.unit.wb, t, n, opcode, address, length, adv.host.hw.unit.time, gap);
    }

    /** Sends the check word, reads whether it matched and ends the scan */
    method SendCheck(crcCalc: Word, ghost t: Transfer, ghost i0: nat, ghost a: nat, ghost u: Unit,
                     ghost r: Course) returns (ok: bool)
      requires t.Fits() && i0 < t.count && u.id == 0 && adv.host.hw.unit.id < MODULES && r.stop.AllSent?
      requires Sending(adv.host.hw, Into(t, i0, a), t.count - i0, u)
      requires Flows(Current(adv.host.hw.unit), t, i0, a, t.count, r.s)
      requires adv.host.drPrefix == |adv.host.hw.pre| && adv.host.drPostfix == |adv.host.hw.post|
      requires adv.host.currentChain == adv.host.desiredChain == 0 && CachesHold(u, 0, 0, adv.host.currentRegIdx)
      modifies adv.host`hw
      ensures Synced(adv.host) && Alone(adv.host.hw) && SameBoard(adv.host.hw, old(adv.host.hw))
      ensures ok <==> crcCalc == old(Current(adv.host.hw.unit)).crc
      ensures Rests(adv.host.hw.unit.wb, t, Left(t, r)) && adv.host.hw.unit.wb.since == adv.host.hw.unit.time
    {
      hide *;
      ghost var h := adv.host.hw;
      ghost var p := Into(t, i0, a);
      IntoIs(t, i0, a);
      SendingParts(h, p, t.count - i0, u);
      SendingNext(h, p, t.count - i0, u);
      FinishChain(h, p, u, crcCalc);
      AloneParts(h);
      OneBitStream(adv.host.drPrefix, adv.host.drPostfix);
      OnePin();
      adv.host.JtagWriteStream(crcCalc, false);
      var crcMatch := adv.host.JtagReadWriteStream([false], true, false);
      adv.host.WriteBit(TMS_HIGH);
      adv.host.TapExitToIdle();
      ok := crcMatch[0];
      ghost var n := adv.host.hw;
      AloneStays(h, n);
      AloneParts(n);
      FrameOthers(u, n.unit);
      WbIsCurrent(n.unit);
      WbIsCurrent(u);
      FlowEnds(Current(h.unit), n.unit.wb, t, i0, a, r.s, r, n.unit.time);
      CachesAfterScan(u, n.unit, adv.host.currentRegIdx);
      adv.SyncedFrom();
    }

    /** Compares check words; a soft retry if they differ */
    method FinishWrite(crcCalc: Word, debugCmd: Word, ghost t: Transfer, ghost i0: nat, ghost a: nat, ghost u: Unit,
                       ghost r: Course, ghost gap: nat, ghost known: bool)
      returns (ok: bool)
      requires burster.adv == adv && t.Fits() && i0 < t.count && u.id == 0 && adv.host.hw.unit.id < MODULES
      requires r.stop.AllSent?
      requires Sending(adv.host.hw, Into(t, i0, a), t.count - i0, u)
      requires Flows(Current(adv.host.hw.unit), t, i0, a, t.count, r.s)
      requires adv.host.currentChain == adv.host.desiredChain == 0 && CachesHold(u, 0, 0, adv.host.currentRegIdx)
      requires adv.CanRetry(debugCmd) && adv.host.softRetryNo == 0 && adv.Cached(0) == known
      requires adv.host.drPrefix == 0
      requires gap == RestartClocks(adv.host.irSize + adv.host.irPrefix + adv.host.irPostfix, 0)
      modifies adv.host`hw, adv.host`currentChain, adv.host`currentRegIdx, adv.host`softRetryNo, adv.host`irChain,
        adv.host.irChain
      ensures SameBoard(adv.host.hw, old(adv.host.hw))
      ensures if ok then Finished(t, debugCmd, Left(t, r), gap, known)
              else Standing(t, debugCmd, Resumed(Left(t, r), gap + 4 + STARTING), gap, false)
      ensures adv.host.irChain == old(adv.host.irChain) || (adv.host.irChain != null && fresh(adv.host.irChain))
      ensures ok <==> crcCalc == old(Current(adv.host.hw.unit)).crc
    {
      hide *;
      ghost var h := adv.host.hw;
      SoftRetries();
      ModuleCount();
      adv.CanRetryParts(debugCmd);
      CachesLength(u, adv.host.currentRegIdx);
      adv.CachedIs(0);
      ok := SendCheck(crcCalc, t, i0, a, u, r);
      ghost var n := adv.host.hw;
      adv.CanRetryStays(h, debugCmd);
      adv.CachedIs(0);
      if !ok {
        adv.SyncedParts();
        ReadyRest(n);
        ghost var ir := adv.host.irSize + adv.host.irPrefix + adv.host.irPostfix;
        var again := adv.RetryDo(debugCmd);
        SameBoardTrans(adv.host.hw, n, h);
        AloneStays(n, adv.host.hw);
        adv.CachedIs(0);
        burster.DueIs();
        RetryClocksAre(ir);
        ClocksAre(0, 0);
        RestsPrimes(adv.host.hw.unit.wb, t, Left(t, r), burster.Due(), gap + 4);
      }
      OperatingFrom(debugCmd, gap);
      if ok {
        FinishedFrom(t, debugCmd, Left(t, r), gap, known);
      } else {
        StandingFrom(t, debugCmd, Resumed(Left(t, r), gap + 4 + STARTING), gap, false);
      }
    }

    /** Sends the words from `i0` on until all are taken, or one is not */
    method WriteWords(ghost t: Transfer, ghost home: nat, size: nat, count: nat, i0: int, data: array<Word>,
                      base: nat, ghost a: nat, ghost u: Unit, ghost s0: Flow)
      returns (i: int, stop: Halt, crcCalc: Word, ghost at: nat)
      requires burster.adv == adv && t.Fits() && t.size == size && t.count == home + count && 1 <= size <= 4
      requires 0 <= home + i0 && i0 < count && home <= base && base + count <= data.Length
      requires Sending(adv.host.hw, Into(t, home + i0, a), 0, u) && adv.host.hw.unit.id < MODULES
      requires Flows(Current(adv.host.hw.unit), t, home + i0, a, home + i0, s0) && Current(adv.host.hw.unit).crc == ONES
      modifies adv.host`hw, burster`faults
      ensures at <= count - i0 && adv.host.hw.unit.id < MODULES
      ensures Sending(adv.host.hw, Into(t, home + i0, a), at, u) && SameBoard(adv.host.hw, old(adv.host.hw))
      ensures var words := data[base - home..base + count];
        var r := SendOn(t, home + i0, s0, old(burster.faults), words, ONES, ONES); var m := Current(adv.host.hw.unit);
        && stop == r.stop && home + i == r.i && burster.faults == r.faults
        && if stop.AllSent? then at == count - i0 && Flows(m, t, home + i0, a, t.count, r.s) && crcCalc == r.host && m.crc == r.unit
           else at > 0 && Rests(m, t, r.s)
    {
      hide *;
      i, crcCalc, at := i0, ONES, 0;
      ghost var p := Into(t, home + i0, a);
      ghost var s, words := s0, data[base - home..base + count];
      ghost var r := SendOn(t, home + i0, s0, burster.faults, words, ONES, ONES);
      SameBoardSelf(adv.host.hw);
      while i < count
        invariant i0 <= i <= count && adv.host.hw.unit.id < MODULES
        invariant Sending(adv.host.hw, p, i - i0, u) && SameBoard(adv.host.hw, old(adv.host.hw))
        invariant Flows(Current(adv.host.hw.unit), t, home + i0, a, home + i, s)
        invariant i < count ==> r == SendOn(t, home + i, s, burster.faults, words, crcCalc, Current(adv.host.hw.unit).crc)
        invariant i == count ==> r == Course(AllSent, t.count, s, burster.faults, crcCalc, Current(adv.host.hw.unit).crc)
        decreases count - i
      {
        ghost var h, f, j := adv.host.hw, burster.faults, home + i;
        SendOnIs(t, j, s, f, words, crcCalc, Current(h.unit).crc);
        MeantIs(words, size, j);
        assert words[j] == data[base + i];
        var w := data[base + i][..8 * size];
        crcCalc := Crc.AdbgComputeCrc(crcCalc, data[base + i], 8 * size);
        var ready, reported := SendWord(t, size, home + i0, a, j, w, u, s);
        SameBoardTrans(adv.host.hw, h, old(adv.host.hw));
        s := if ready then Give(t, j, s, Received(NextFault(f), w)) else s;
        if !ready { return i, if reported then LostBusy else Busy, crcCalc, i - i0 + 1; }
        if reported {
          FlowRests(Current(adv.host.hw.unit), t, home + i0, a, j + 1, s);
          return i, Halt.Lost, crcCalc, i - i0 + 1;
        }
        i := i + 1;
      }
      stop, at := AllSent, count - i0;
    }

    /** One burst, from word `i0` on.  Given up, or with a check that failed, the next one is due; with
        both kinds of trouble at once it has begun, and is left. */
    method WriteBurst(opcode: nat, ghost t: Transfer, ghost home: nat, size: nat, count: nat, start: nat, i0: int,
                      addr: nat, data: array<Word>, base: nat, debugCmd: Word,
                      ghost k: Store, ghost gap: nat, ghost known: bool)
      returns (stop: Halt, ok: bool, i: int)
      requires 0 < count < 0x1_0000 && start + count * size <= 0x1_0000_0000 && size in {1, 2, 4}
      requires home == Reach(start, size, count, base) && t == Whole(t.mem, start, size, count, base) && t.Fits()
      requires t.count == home + count
      requires Standing(t, debugCmd, k, gap, known) && home <= base && base + count <= data.Length
      requires 0 <= home + i0 && i0 < count && AtWord(t, home + i0, addr) && data != adv.host.irChain
      requires opcode in {BWRITE8, BWRITE16, BWRITE32} && WordSize(opcode) == size && k.e <= t.count
      modifies adv.host`hw, adv.host`currentChain, adv.host`currentRegIdx, adv.host`softRetryNo, adv.host`desiredChain,
        adv.host`irChain, adv.host.irChain, burster`faults
      ensures SameBoard(adv.host.hw, old(adv.host.hw))
      ensures adv.host.irChain == old(adv.host.irChain) || (adv.host.irChain != null && fresh(adv.host.irChain))
      ensures var r := Burst(t, home + i0, k, old(burster.faults), data[base - home..base + count]); var n := Left(t, r);
        && stop == r.stop && home + i == r.i && burster.faults == r.faults
        && (stop.AllSent? ==> (ok <==> r.host == r.unit))
        && (if stop.LostBusy? then Rests(adv.host.hw.unit.wb, t, Later(n, gap))
            else if !stop.AllSent? then Standing(t, debugCmd, Resumed(n, gap + STARTING), gap, false)
            else if !ok then Standing(t, debugCmd, Resumed(n, gap + 4 + STARTING), gap, false)
            else Finished(t, debugCmd, n, gap, known))
    {
      hide *;
      ghost var h := adv.host.hw;
      StandingParts(t, debugCmd, k, gap, known);
      OperatingParts(debugCmd, gap);
      ghost var j := home + i0;
      ghost var u := BeginWrite(opcode, t, size, j, addr, count - i0, debugCmd, k, gap, known);
      ghost var h1, f, words := adv.host.hw, burster.faults, data[base - home..base + count];
      ghost var r := Burst(t, j, k, f, words);
      WriteBurstIs(t, j, k, f, words);
      adv.CanRetryParts(debugCmd);
      CachesLength(u, adv.host.currentRegIdx);
      adv.CachedIs(0);
      var crcCalc: Word;
      ghost var at: nat;
      i, stop, crcCalc, at := WriteWords(t, home, size, count, i0, data, base, addr, u, Cleared(k));
      adv.CachedIs(0);
      ghost var h2 := adv.host.hw;
      SameBoardTrans(h2, h1, h);
      adv.CanRetryStays(h1, debugCmd);
      LeftIs(t, r);
      ok := false;
      if !stop.AllSent? {
        CutShort(debugCmd, t, Into(t, j, addr), at, u, r.s, gap);
        ghost var h3 := adv.host.hw;
        SameBoardTrans(h3, h2, h);
        if stop.LostBusy? {
          StandingParts(t, debugCmd, Resumed(Left(t, r), gap + STARTING), gap, false);
          WriteBurstRange(t, j, k, f, words);
          HostWord(t, start, size, count, base, home + i);
          AtWordRange(t, home + i, t.At(home + i));
          Overtaken(opcode, t, start + i * size, count - i, debugCmd, Left(t, r), gap);
          SameBoardTrans(adv.host.hw, h3, h);
        }
      } else {
        ok := FinishWrite(crcCalc, debugCmd, t, j, addr, u, r, gap, known);
        SameBoardTrans(adv.host.hw, h2, h);
      }
    }

    /** What the error register says after a burst: whether the host goes on, and with which word */
    method CheckWrite(ghost t: Transfer, ghost home: nat, debugCmd: Word, start: nat, size: nat, count: nat,
                      base: nat, last: bool, ghost n: Flow, ghost gap: nat, ghost known: bool)
      returns (failed: bool, addr: nat, index: int, follows: bool)
      requires 0 < count < 0x1_0000 && start + count * size <= 0x1_0000_0000 && size in {1, 2, 4}
      requires home == Reach(start, size, count, base) && t == Whole(t.mem, start, size, count, base)
      requires Finished(t, debugCmd, n, gap, known)
      modifies adv.host`hw, adv.host`currentChain, adv.host`currentRegIdx, adv.host`softRetryNo, adv.host`desiredChain
      ensures Operating(debugCmd, gap) && SameBoard(adv.host.hw, old(adv.host.hw)) && adv.host.currentChain == 0
      ensures n.e <= t.count && (failed <==> n.e >= 0)
      ensures failed ==> (follows <==> n.e < t.count) && (follows ==> t.size > 0 && home + index == n.e && AtWord(t, n.e, addr))
      ensures Rests(adv.host.hw.unit.wb, t, if failed && !last then n.(e := -1) else n)
      ensures failed && !last ==> Standing(t, debugCmd, Resumed(n.(e := -1), ErrorGap(known) + STARTING), gap, true)
      ensures adv.host.hw.unit.wb.since + ReadClocks(1, 0, 0) <= adv.host.hw.unit.time
    {
      hide *;
      ghost var h := adv.host.hw;
      FinishedParts(t, debugCmd, n, gap, known);
      OperatingParts(debugCmd, gap);
      RestsKind(h.unit.wb, t, n);
      WholeFits(t, start, size, count, base);
      FitsRange(t);
      failed, addr, index := burster.CheckBus(debugCmd, start, size, last);
      AloneStays(h, adv.host.hw);
      OperatingFrom(debugCmd, gap);
      ErrorGapIs(known, failed, last);
      RestsChecked(h.unit.wb, adv.host.hw.unit.wb, t, n, last);
      follows := Follows(index, addr, start, size, count, base);
      if failed {
        FollowsIff(h.unit.wb.intReg, t, n.e, start, size, count, base);
        if !last {
          burster.DueIs();
          RestsPrimes(adv.host.hw.unit.wb, t, n.(e := -1), burster.Due(), ErrorGap(known));
          StandingFrom(t, debugCmd, Resumed(n.(e := -1), ErrorGap(known) + STARTING), gap, true);
        }
      }
    }

    /** One burst and what the host makes of it: the transfer is over, or goes on from another word */
    method WriteOnce(opcode: nat, ghost t: Transfer, ghost home: nat, size: nat, count: nat, start: nat, i0: int,
                     addr0: nat, errors0: nat, data: array<Word>, base: nat, debugCmd: Word, ghost k0: Store,
                     ghost gap: nat, ghost known0: bool)
      returns (over: bool, r: Written, i: int, addr: nat, errors: nat, ghost k: Store, ghost known: bool)
      requires 0 < count < 0x1_0000 && start + count * size <= 0x1_0000_0000 && base + count <= data.Length
      requires size in {1, 2, 4} && data != adv.host.irChain
      requires home == Reach(start, size, count, base) && t == Whole(t.mem, start, size, count, base)
      requires home <= base && t.count == home + count && t.Fits()
      requires Standing(t, debugCmd, k0, gap, known0) && k0.e <= t.count && errors0 <= MAX_BUS_ERRORS
      requires 0 <= home + i0 && i0 < count && AtWord(t, home + i0, addr0)
      requires opcode in {BWRITE8, BWRITE16, BWRITE32} && WordSize(opcode) == size
      modifies adv.host`hw, adv.host`currentChain, adv.host`currentRegIdx, adv.host`softRetryNo, adv.host`desiredChain,
        adv.host`irChain, adv.host.irChain, burster`faults
      ensures SameBoard(adv.host.hw, old(adv.host.hw))
      ensures adv.host.irChain == old(adv.host.irChain) || (adv.host.irChain != null && fresh(adv.host.irChain))
      ensures k.e <= t.count && errors0 <= errors <= MAX_BUS_ERRORS && 0 <= home + i && i < count
      ensures var words := data[base - home..base + count];
        var s := Run(t, home, gap, home + i0, errors0, known0, k0, old(burster.faults), words);
        if over then
          && r == s.outcome && burster.faults == s.faults && Rests(adv.host.hw.unit.wb, t, s.rest)
          && (!r.Failed? ==>
                && Operating(debugCmd, gap) && adv.host.currentChain == 0
                && adv.host.hw.unit.wb.since + ReadClocks(1, 0, 0) <= adv.host.hw.unit.time)
        else
          && Standing(t, debugCmd, k, gap, known) && AtWord(t, home + i, addr)
          && |k.answers| + |burster.faults| + (MAX_BUS_ERRORS - errors)
             < |k0.answers| + |old(burster.faults)| + (MAX_BUS_ERRORS - errors0)
          && s == Run(t, home, gap, home + i, errors, known, k, burster.faults, words)
    {
      hide *;
      ghost var h, f, j, words := adv.host.hw, burster.faults, home + i0, data[base - home..base + count];
      ghost var n := Left(t, Burst(t, j, k0, f, words));
      FitsRange(t);
      WriteRunAgain(t, home, gap, j, errors0, known0, k0, f, words);
      over, r, i, addr, errors, k, known := true, Failed, i0, addr0, errors0, k0, known0;
      var stop, ok, next := WriteBurst(opcode, t, home, size, count, start, i0, addr0, data, base, debugCmd, k0, gap, known0);
      if stop.LostBusy? { return; }
      if !stop.AllSent? || !ok {
        over := false;
        i := if stop.AllSent? then 0 else next;
        HostWord(t, start, size, count, base, home + i);
        addr := start + i * size;
        k, known := Resumed(n, if stop.AllSent? then gap + 4 + STARTING else gap + STARTING), false;
      } else {
        ghost var h2 := adv.host.hw;
        WriteRunChecked(t, home, gap, j, errors0, known0, k0, f, words);
        ResumedIs(n.(e := -1), ErrorGap(known0) + STARTING);
        var failed, failedAddr, index, follows :=
          CheckWrite(t, home, debugCmd, start, size, count, base, errors0 == MAX_BUS_ERRORS, n, gap, known0);
        SameBoardTrans(adv.host.hw, h2, h);
        if !failed { r := Complete; return; }
        if errors0 == MAX_BUS_ERRORS { r := TooManyErrors; return; }
        errors := errors0 + 1;
        if !follows { r := Astray; return; }
        over, i, addr, k, known := false, index, failedAddr, Resumed(n.(e := -1), ErrorGap(known0) + STARTING), true;
      }
    }

    /** Bursts until all words are out and no bus error is left, too many bus errors, an error that
        stays, or a burst that is not for words of the transfer */
    method WriteAll(opcode: nat, ghost t: Transfer, ghost home: nat, size: nat, count: nat, start: nat,
                    data: array<Word>, base: nat, debugCmd: Word, ghost k0: Store, ghost gap: nat, ghost known0: bool)
      returns (r: Written)
      requires 0 < count < 0x1_0000 && start + count * size <= 0x1_0000_0000 && base + count <= data.Length
      requires size in {1, 2, 4}
      requires home == Reach(start, size, count, base) && t == Whole(t.mem, start, size, count, base)
      requires Standing(t, debugCmd, k0, gap, known0) && data != adv.host.irChain && k0.e <= t.count
      requires opcode in {BWRITE8, BWRITE16, BWRITE32} && WordSize(opcode) == size
      modifies adv.host`hw, adv.host`currentChain, adv.host`currentRegIdx, adv.host`softRetryNo, adv.host`desiredChain,
        adv.host`irChain, adv.host.irChain, burster`faults
      ensures SameBoard(adv.host.hw, old(adv.host.hw)) && home <= base && home < t.count == home + count && 0 < t.size <= 4
      ensures adv.host.irChain == old(adv.host.irChain) || (adv.host.irChain != null && fresh(adv.host.irChain))
      ensures var s := Run(t, home, gap, home, 0, known0, k0, old(burster.faults), data[base - home..base + count]);
        && r == s.outcome && burster.faults == s.faults && Rests(adv.host.hw.unit.wb, t, s.rest)
        && (!r.Failed? ==>
              && Operating(debugCmd, gap) && adv.host.currentChain == 0
              && adv.host.hw.unit.wb.since + ReadClocks(1, 0, 0) <= adv.host.hw.unit.time)
    {
      hide *;
      WholeFits(t, start, size, count, base);
      FitsRange(t);
      Limits();
      HostWord(t, start, size, count, base, home);
      SameBoardSelf(adv.host.hw);
      ghost var words := data[base - home..base + count];
      var over: bool, i: int, addr: nat, busErrors: nat := false, 0, start, 0;
      ghost var k, known := k0, known0;
      ghost var s := Run(t, home, gap, home, 0, known0, k0, burster.faults, words);
      r := Complete;
      while !over
        invariant SameBoard(adv.host.hw, old(adv.host.hw))
        invariant adv.host.irChain == old(adv.host.irChain) || (adv.host.irChain != null && fresh(adv.host.irChain))
        invariant k.e <= t.count && busErrors <= MAX_BUS_ERRORS && 0 <= home + i && i < count
        invariant if over then
            && r == s.outcome && burster.faults == s.faults && Rests(adv.host.hw.unit.wb, t, s.rest)
            && (!r.Failed? ==>
                  && Operating(debugCmd, gap) && adv.host.currentChain == 0
                  && adv.host.hw.unit.wb.since + ReadClocks(1, 0, 0) <= adv.host.hw.unit.time)
          else
            && Standing(t, debugCmd, k, gap, known) && AtWord(t, home + i, addr)
            && s == Run(t, home, gap, home + i, busErrors, known, k, burster.faults, words)
        decreases !over, |k.answers| + |burster.faults| + (MAX_BUS_ERRORS - busErrors)
      {
        ghost var h := adv.host.hw;
        over, r, i, addr, busErrors, k, known :=
          WriteOnce(opcode, t, home, size, count, start, i, addr, busErrors, data, base, debugCmd, k, gap, known);
        SameBoardTrans(adv.host.hw, h, old(adv.host.hw));
      }
    }

    /** Writes `wordCount` words from index `base` of the host's memory `data` to `start` on.  Outcome,
        memory and what is left of faults, answers and errors are those of the run word by word; in
        particular nothing outside the words, and those before them that a stale error can lead to,
        changes, and with no silent noise and prompt transfers success means that every word is in
        memory once the bus is done. */
    method WbBurstWrite(data: array<Word>, base: nat, wordSize: nat, wordCount: int, start: nat,
                        debugCmd: Word) returns (r: Written)
      requires wordSize in {1, 2, 4} && burster.adv == adv && Synced(adv.host) && adv.CanRetry(debugCmd)
      requires adv.host.currentChain !in {1, 2} && adv.host.hw.unit.wb.kind == Wishbone && Alone(adv.host.hw)
      requires data != adv.host.irChain
      requires wordCount > 0 ==>
        wordCount < 0x1_0000 && start + wordCount * wordSize <= 0x1_0000_0000 && base + wordCount <= data.Length
      modifies adv.host`hw, adv.host`currentChain, adv.host`currentRegIdx, adv.host`softRetryNo, adv.host`desiredChain,
        adv.host`irChain, adv.host.irChain, burster`faults
      ensures SameBoard(adv.host.hw, old(adv.host.hw))
      ensures adv.host.irChain == old(adv.host.irChain) || (adv.host.irChain != null && fresh(adv.host.irChain))
      ensures !r.Failed? ==> Synced(adv.host) && adv.CanRetry(debugCmd)
      ensures r.BadChain? <==> wordCount > 0 && old(adv.host.currentChain) != 0
      ensures wordCount <= 0 ==> r.Complete?
      ensures wordCount <= 0 || r.BadChain? ==> adv.host.hw == old(adv.host.hw)
      ensures wordCount > 0 && r.Complete? ==>
        && adv.host.currentChain == 0 && adv.host.softRetryNo == 0
        && adv.host.hw.unit.wb.since + ReadClocks(1, 0, 0) <= adv.host.hw.unit.time
      ensures |old(adv.host.hw.unit.wb.intReg)| == 33
      ensures wordCount > 0 && !r.BadChain? ==>
        var home := Reach(start, wordSize, wordCount, base);
        var due := old(adv.host.hw.unit.time) + BurstClocks(0);
        var t := Whole(BusNow(old(adv.host.hw.unit.wb), due).Aged(STARTING).mem, start, wordSize, wordCount, base);
        var k := StoreAt(old(adv.host.hw.unit.wb), due, t);
        var gap := RestartClocks(adv.host.irSize + adv.host.irPrefix + adv.host.irPostfix, 0);
        && home <= base && home < t.count == home + wordCount
        && Achieves(t, home, gap, old(adv.host.currentRegIdx[0] == 0), k, old(burster.faults), data[base - home..base + wordCount],
                    r, burster.faults, adv.host.hw.unit.wb)
    {
      hide *;
      SameBoardSelf(adv.host.hw);
      adv.SyncedParts();
      WbWidth(adv.host.hw.unit);
      if wordCount <= 0 { return Complete; }
      if adv.host.currentChain != 0 { return BadChain; }
      ghost var h, f := adv.host.hw, burster.faults;
      ghost var due := h.unit.time + BurstClocks(0);
      ghost var home := Reach(start, wordSize, wordCount, base);
      ghost var t := Whole(BusNow(h.unit.wb, due).Aged(STARTING).mem, start, wordSize, wordCount, base);
      WholeFits(t, start, wordSize, wordCount, base);
      ghost var words := data[base - home..base + wordCount];
      ghost var gap := RestartClocks(adv.host.irSize + adv.host.irPrefix + adv.host.irPostfix, 0);
      adv.CanRetryParts(debugCmd);
      FitsRange(t);
      ModuleCount();
      AloneParts(h);
      ghost var k := StoreAt(h.unit.wb, due, t);
      var opcode := if wordSize == 1 then BWRITE8 else if wordSize == 2 then BWRITE16 else BWRITE32;
      WriteOpcode(wordSize, opcode);
      StorePrimes(h.unit.wb, due, t);
      burster.DueIs();
      ClocksAre(0, 0);
      adv.CachedIs(0);
      OperatingFrom(debugCmd, gap);
      StandingFrom(t, debugCmd, k, gap, adv.host.currentRegIdx[0] == 0);
      r := WriteAll(opcode, t, home, wordSize, wordCount, start, data, base, debugCmd, k, gap, adv.host.currentRegIdx[0] == 0);
      Achieved(t, home, gap, old(adv.host.currentRegIdx[0] == 0), k, f, words, r, burster.faults, adv.host.hw.unit.wb);
      if !r.Failed? { OperatingParts(debugCmd, gap); }
      if r.Complete? {
        adv.CanRetryParts(debugCmd);
        adv.SyncedParts();
        adv.host.softRetryNo := 0;
        adv.SyncedFrom();
        adv.CanRetryStays(h, debugCmd);
      }
    }
  }

  // --- the module between bursts ---

  /** The store that the first bit of a burst will find whose command ends at clock `due` */
  ghost predicate Primes(m: Module, t: Transfer, k: Store, due: nat) {
    && m.kind == Wishbone && Settled(m.bus) && m.bus.answers == k.answers && FlagIs(m.intReg, t, k.e)
    && BusNow(m, due).Aged(STARTING).mem == k.mem
  }

  lemma PrimesKind(m: Module, t: Transfer, k: Store, due: nat)
    requires Primes(m, t, k, due)
    ensures m.kind == Wishbone && Settled(m.bus) && FlagIs(m.intReg, t, k.e)
  {
    hide FlagIs, BusNow, Bus.Aged;
  }

  /** When a transfer begins */
  function StoreAt(m: Module, due: nat, t: Transfer): Store
    requires t.size > 0 && |m.intReg| == 33
  {
    Store(BusNow(m, due).Aged(STARTING).mem, m.bus.answers, FlagOf(m.intReg, t))
  }

  lemma StorePrimes(m: Module, due: nat, t: Transfer)
    requires t.size > 0 && |m.intReg| == 33 && m.kind == Wishbone && Settled(m.bus)
    ensures var k := StoreAt(m, due, t);
      Primes(m, t, k, due) && k.e <= t.count && k.mem == BusNow(m, due).Aged(STARTING).mem
  {
    hide FlagOf, BusNow, Bus.Aged;
  }

  /** After a burst */
  lemma RestsPrimes(m: Module, t: Transfer, n: Flow, due: nat, gap: nat)
    requires Rests(m, t, n) && due == m.since + gap && gap > 0
    ensures Primes(m, t, Resumed(n, gap + STARTING), due)
  {
    hide FlagIs, Bus.Aged;
    AgedBus(m.bus, gap + STARTING);
    AgedMore(m.bus, gap, STARTING);
    SettledErr(m.bus.Aged(gap + STARTING));
  }

  lemma RestsLater(m: Module, n: Module, t: Transfer, s: Flow)
    requires Rests(m, t, s) && n.kind == Wishbone && n.intReg == m.intReg && n.bus == m.bus.Aged(4)
    ensures Rests(n, t, Later(s, CUTTING))
  {
    hide FlagIs, Bus.Aged;
    AgedBus(m.bus, 4);
    SettledErr(n.bus);
  }

  lemma RestsChecked(m: Module, n: Module, t: Transfer, s: Flow, last: bool)
    requires Rests(m, t, s) && n.bus == m.bus && n.kind == Wishbone && |m.intReg| == 33
    requires n.intReg == if m.intReg[0] && !last then m.intReg[0 := false] else m.intReg
    ensures s.e <= t.count && (m.intReg[0] <==> s.e >= 0)
    ensures Rests(n, t, if m.intReg[0] && !last then s.(e := -1) else s)
  {
    hide WordOf, ToNat;
  }

  /** The clocks spent on the error register and the next command */
  lemma ErrorGapIs(known: bool, failed: bool, last: bool)
    ensures CheckClocks(true, known, failed, last, 0, 0) >= ReadClocks(1, 0, 0)
    ensures ErrorGap(known) == CheckClocks(true, known, true, false, 0, 0) + SelectClocks(true, 0) + BurstClocks(0) > 0
  {
  }

  lemma CachesLength(u: Unit, idx: seq<int>)
    requires CachesHold(u, 0, 0, idx)
    ensures |idx| == DBG_MAX_MODULES
  {
  }

  lemma IntoIs(t: Transfer, i: nat, a: nat)
    requires i <= t.count
    ensures Into(t, i, a) == Writes(a, t.size, t.count - i)
  {
  }

  /** What a run means for the memory */
  lemma WriteRunMeans(t: Transfer, home: nat, gap: nat, known: bool, k: Store, faults: seq<Fault>, data: seq<Word>)
    requires t.size in {1, 2, 4} && home < t.count <= |data| && k.e <= t.count && k.mem == t.mem
    ensures var s := Run(t, home, gap, home, 0, known, k, faults, data);
      && s.outcome != BadChain && Outside(s.rest.mem, t, 0) && Outside(s.rest.next, t, 0) && (s.outcome.Complete? ==> s.rest.e < 0)
      && (Above(k.e, home) ==> Outside(s.rest.mem, t, home) && Outside(s.rest.next, t, home))
      && (s.outcome.Complete? && NoNoise(faults) && k.e < 0 && Prompt(k.answers, t, home, gap) ==> AllStored(s.rest.next, t, data, home))
  {
    hide *;
    Limits();
    OutsideStart(t, k.e, home);
    RunOutside(t, 0, home, gap, home, 0, known, k, faults, data);
    if Above(k.e, home) { RunOutside(t, home, home, gap, home, 0, known, k, faults, data); }
    RunEnds(t, home, gap, home, 0, known, k, faults, data);
    if NoNoise(faults) && k.e < 0 && Prompt(k.answers, t, home, gap) {
      NothingKept(k.mem, t, data, home, k.e);
      InTimeIsWritten(t, home, gap, home, 0, known, k, faults, data);
    }
  }

  /** What a transfer comes to: the run word by word decides outcome, faults used up, memory, bus and error
      register.  Nothing outside the transfer's words has changed or will, and if the error register named
      none before the ones asked for, nothing outside those.  If no word was silently
      spoilt, no error was registered before and every bus transfer was prompt, success means that
      every word is in memory once the bus is done. */
  ghost predicate Achieves(t: Transfer, home: nat, gap: nat, known: bool, k: Store, faults: seq<Fault>, data: seq<Word>,
                           r: Written, later: seq<Fault>, m: Module)
    requires 0 < t.size <= 4 && home < t.count <= |data| && k.e <= t.count
  {
    Limits();
    var s := Run(t, home, gap, home, 0, known, k, faults, data);
    && r == s.outcome && later == s.faults && Rests(m, t, s.rest)
    && Outside(m.bus.mem, t, 0) && Outside(m.bus.result.mem, t, 0) && (r.Complete? ==> s.rest.e < 0)
    && (Above(k.e, home) ==> Outside(m.bus.mem, t, home) && Outside(m.bus.result.mem, t, home))
    && (r.Complete? && NoNoise(faults) && k.e < 0 && Prompt(k.answers, t, home, gap) ==> AllStored(m.bus.result.mem, t, data, home))
  }

  lemma Achieved(t: Transfer, home: nat, gap: nat, known: bool, k: Store, faults: seq<Fault>, data: seq<Word>,
                 r: Written, later: seq<Fault>, m: Module)
    requires t.size in {1, 2, 4} && home < t.count <= |data| && k.e <= t.count && k.mem == t.mem
    requires var s := Run(t, home, gap, home, 0, known, k, faults, data); r == s.outcome && later == s.faults && Rests(m, t, s.rest)
    ensures Achieves(t, home, gap, known, k, faults, data, r, later, m) && r != BadChain
  {
    WriteRunMeans(t, home, gap, known, k, faults, data);
    var s := Run(t, home, gap, home, 0, known, k, faults, data);
    RestsKind(m, t, s.rest);
    hide Run, Rests, Outside, AllStored, Prompt, NoNoise;
  }

  lemma OutsideStart(t: Transfer, e: int, lo: nat)
    requires t.size > 0
    ensures Outside(t.mem, t, 0) && Outside(t.mem, t, lo) && Above(e, 0)
  {
  }

  lemma NothingKept(mem: Memory, t: Transfer, data: seq<Word>, home: nat, e: int)
    requires 0 < t.size <= 4 && home <= |data|
    ensures Kept(mem, t, data, home, home, e, false)
  {
  }

  lemma {:induction false} RunEnds(t: Transfer, home: nat, gap: nat, i: nat, errors: nat, known: bool, k: Store,
                                   faults: seq<Fault>, data: seq<Word>)
    requires 0 < t.size <= 4 && i < t.count <= |data| && home < t.count && k.e <= t.count && errors <= MAX_BUS_ERRORS
    ensures var s := Run(t, home, gap, i, errors, known, k, faults, data);
      s.outcome != BadChain && (s.outcome.Complete? ==> s.rest.e < 0) && (s.outcome.TooManyErrors? ==> s.rest.e >= 0)
    decreases |k.answers| + |faults| + (MAX_BUS_ERRORS - errors)
  {
    hide Burst, Left;
    BurstEnds(t, i, k, faults, data);
    var r := Burst(t, i, k, faults, data);
    var n := Left(t, r);
    if r.stop.LostBusy? {
    } else if !r.stop.AllSent? {
      RunEnds(t, home, gap, r.i, errors, false, Resumed(n, gap + STARTING), r.faults, data);
    } else if r.host != r.unit {
      RunEnds(t, home, gap, home, errors, false, Resumed(n, gap + 4 + STARTING), r.faults, data);
    } else if n.e >= 0 && errors < MAX_BUS_ERRORS && n.e < t.count {
      RunEnds(t, home, gap, n.e, errors + 1, true, Resumed(n.(e := -1), ErrorGap(known) + STARTING), r.faults, data);
    }
  }

  lemma RestsKind(m: Module, t: Transfer, s: Flow)
    requires Rests(m, t, s)
    ensures m.kind == Wishbone && m.bus.mem == s.mem && m.bus.result.mem == s.next && FlagIs(m.intReg, t, s.e)
    ensures s.e <= t.count
    ensures Settled(m.bus)
  {
    hide FlagOf;
  }

  lemma FlowFrom(m: Module, n: Module, t: Transfer, i: nat, a: nat, k: Store, due: nat)
    requires t.Fits() && AtWord(t, i, a) && Primes(m, t, k, due)
    requires n.bus == BusNow(m, due).Aged(4) && n.intReg == m.intReg && n.kind == m.kind
    ensures Flows(n, t, i, a, i, Cleared(k))
  {
    AtWordRange(t, i, a);
    hide FlagIs, BusNow, AtWord;
    AgedResult(m, due);
    AgedBus(BusNow(m, due), 4);
    hide Bus.Aged;
  }

  lemma WriteBurstIs(t: Transfer, i: nat, k: Store, faults: seq<Fault>, data: seq<Word>)
    requires 0 < t.size <= 4 && i < t.count <= |data|
    ensures Burst(t, i, k, faults, data) == SendOn(t, i, Cleared(k), faults, data, ONES, ONES)
  {
    hide SendOn, Cleared;
  }

  lemma WriteBurstRange(t: Transfer, i: nat, k: Store, faults: seq<Fault>, data: seq<Word>)
    requires 0 < t.size <= 4 && i < t.count <= |data| && k.e <= t.count
    ensures var r := Burst(t, i, k, faults, data); !r.stop.AllSent? ==> r.i < t.count
  {
    hide Burst, Left;
    BurstEnds(t, i, k, faults, data);
  }

  lemma LeftIs(t: Transfer, r: Course)
    ensures !r.stop.AllSent? ==> Left(t, r) == Later(r.s, CUTTING)
  {
  }

  /** The host starts again, `gap` clocks after the burst */
  lemma WriteRunAgain(t: Transfer, home: nat, gap: nat, i: nat, errors: nat, known: bool, k: Store,
                      faults: seq<Fault>, data: seq<Word>)
    requires 0 < t.size <= 4 && i < t.count <= |data| && home < t.count && k.e <= t.count && errors <= MAX_BUS_ERRORS
    ensures var r := Burst(t, i, k, faults, data); var n := Left(t, r);
      && (r.stop.LostBusy? ==> Run(t, home, gap, i, errors, known, k, faults, data) == Ended(Failed, Later(n, gap), r.faults, i))
      && (!r.stop.LostBusy? && (!r.stop.AllSent? || r.host != r.unit) ==>
            var from := if r.stop.AllSent? then home else r.i;
            var next := Resumed(n, if r.stop.AllSent? then gap + 4 + STARTING else gap + STARTING);
            && next.e <= t.count && from < t.count && |next.answers| + |r.faults| < |k.answers| + |faults|
            && Run(t, home, gap, i, errors, known, k, faults, data) == Run(t, home, gap, from, errors, false, next, r.faults, data))
  {
    hide Burst, Left;
    BurstEnds(t, i, k, faults, data);
  }

  /** A burst that checks: the error register decides */
  lemma WriteRunChecked(t: Transfer, home: nat, gap: nat, i: nat, errors: nat, known: bool, k: Store,
                        faults: seq<Fault>, data: seq<Word>)
    requires 0 < t.size <= 4 && i < t.count <= |data| && home < t.count && k.e <= t.count && errors <= MAX_BUS_ERRORS
    ensures var r := Burst(t, i, k, faults, data); var n := Left(t, r);
      r.stop.AllSent? && r.host == r.unit ==>
        && n.e <= t.count && |n.answers| + |r.faults| <= |k.answers| + |faults|
        && Run(t, home, gap, i, errors, known, k, faults, data) ==
             if n.e < 0 then Ended(Complete, n, r.faults, i)
             else if errors == MAX_BUS_ERRORS then Ended(TooManyErrors, n, r.faults, i)
             else if n.e == t.count then Ended(Astray, n.(e := -1), r.faults, i)
             else Run(t, home, gap, n.e, errors + 1, true, Resumed(n.(e := -1), ErrorGap(known) + STARTING), r.faults, data)
  {
    hide Burst, Left;
    BurstEnds(t, i, k, faults, data);
  }

  lemma CommandedRests(m: Module, n: Module, t: Transfer, s: Flow, opcode: nat, address: nat, length: nat, now: nat,
                       gap: nat)
    requires Rests(m, t, s) && Commanded(m, n, opcode, address, length, now) && now == m.since + gap && gap > 0
    ensures Rests(n, t, Later(s, gap))
  {
    hide FlagIs, Bus.Aged, ReadOp;
    AgedBus(m.bus, gap);
    SettledErr(n.bus);
  }

  lemma WriteOpcode(size: nat, opcode: nat)
    requires size in {1, 2, 4} && opcode == if size == 1 then BWRITE8 else if size == 2 then BWRITE16 else BWRITE32
    ensures opcode in {BWRITE8, BWRITE16, BWRITE32} && WordSize(opcode) == size
  {
  }

  lemma MeantIs(data: seq<Word>, size: nat, k: nat)
    requires k < |data| && size <= 4
    ensures |data[k]| == 32 && 8 * size <= 32 && Meant(data, size, k) == data[k][..8 * size]
  {
  }

  lemma WriteOpcodes(opcode: nat)
    requires opcode in {BWRITE8, BWRITE16, BWRITE32}
    ensures opcode < 16 && !ReadOp(opcode) && BurstOp(Wishbone, opcode)
  {
  }

  lemma AloneStays(h: Chain, n: Chain)
    requires Alone(h) && SameBoard(n, h)
    ensures Alone(n)
  {
  }

  lemma PrimedFrom(m: Module, n: Module, p: Writes, opcode: nat, now: nat)
    requires p.Fits() && m.kind == Wishbone && !ReadOp(opcode) && WordSize(opcode) == p.size
    requires Commanded(m, n, opcode, p.base, p.count, now)
    ensures Primed(n, p) && n.crc == ONES && n.bus == BusNow(m, now) && n.intReg == m.intReg && n.kind == m.kind
  {
    hide ReadOp, Writes.At, BusNow;
  }

  lemma OneBitStream(drPrefix: nat, drPostfix: nat)
    requires drPrefix == 0 && drPostfix == 0
    ensures AdjustedStream([false], true, false, drPrefix, drPostfix) == [false]
  {
  }

  lemma CachesAfterScan(u: Unit, v: Unit, idx: seq<int>)
    requires u.id == v.id == 0 && u.cpu0 == v.cpu0 && u.cpu1 == v.cpu1 && v.wb.regSel == u.wb.regSel
    requires CachesHold(u, 0, 0, idx)
    ensures CachesHold(v, 0, 0, idx)
  {
  }

  lemma TookCrc(m: Module, n: Module, p: Writes, j: nat, w: Stream)
    requires Took(m, n, p, j, w)
    ensures n.crc == Fold(Crc.POLY, m.crc, w)
  {
    hide BusThen, Noted, Bus.Strobe, Writes.At, Fold;
  }

  lemma SendingNext(h: Chain, p: Writes, j: nat, u: Unit)
    requires Sending(h, p, j, u)
    ensures h.unit.id < MODULES && (Current(h.unit).fsm == Wwait <==> j == 0) && Current(h.unit).kind == Wishbone
    ensures Settled(Current(h.unit).bus)
  {
    hide Writes.At, SameFrame, Selecting, ModuleAtRest;
  }
}
