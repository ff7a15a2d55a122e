/** A burst write followed by a burst read. */
module RoundTrip {
  import opened Bits
  import opened Scan
  import opened ChainLaws
  import opened DebugUnit
  import opened UnitLaws
  import opened AdvDbg
  import opened Transfers
  import opened BurstRead
  import opened BurstWrite
  import ReadRun
  import ReadLaws
  import WriteRun
  import WriteLaws

  /** The clocks a transfer may take here: the last write must be over when the read begins, and no read
      may outlive a burst */
  function Allowed(gap: nat): nat {
    if gap < 104 then gap else 104
  }

  /** Nothing is silently spoilt, no error was registered before, and no transfer takes longer than
      allowed, with at most one failing and then in time to be noticed */
  ghost predicate Benign(m: Module, faults: seq<Fault>, start: nat, size: nat, count: nat, gap: nat)
    requires |m.intReg| == 33 && size > 0 && count > 0
  {
    && NoNoise(faults) && !m.intReg[0] && Failures(m.bus.answers) <= 1
    && WriteLaws.InTime(m.bus.answers, WriteLaws.Notice(Transfer(m.bus.mem, start, size, count), 0), Allowed(gap) + 1)
  }

  lemma PlainWhole(mem: Memory, start: nat, size: nat, count: nat)
    requires size in {1, 2, 4} && 0 < count < 0x1_0000 && start + count * size <= 0x1_0000_0000
    ensures var t := Whole(mem, start, size, count, 0);
      Reach(start, size, count, 0) == 0 && t == Transfer(mem, start, size, count) && t.Fits()
  {
  }

  lemma BenignParts(m: Module, faults: seq<Fault>, t: Transfer, start: nat, size: nat, count: nat, due: nat, gap: nat)
    requires |m.intReg| == 33 && t == Transfer(t.mem, start, size, count) && size in {1, 2, 4} && count > 0 && gap >= 79
    requires Benign(m, faults, start, size, count, gap)
    ensures NoNoise(faults)
    ensures var k := StoreAt(m, due, t);
      && Failures(k.answers) <= 1 && k.e < 0 && k.answers == m.bus.answers && WriteLaws.Prompt(k.answers, t, 0, gap)
      && WriteLaws.InTime(k.answers, Allowed(gap) + 1, Allowed(gap) + 1)
  {
    hide BusNow, Bus.Aged;
  }

  lemma AloneShort(h: Chain, n: Chain)
    requires Alone(h) && SameBoard(n, h)
    ensures |n.post| == 0 && |n.pre| == 0 && |n.post| < MAX_READ_STATUS_WAIT
  {
  }

  /** The state the read starts from */
  lemma AfterWrite(t: Transfer, gap: nat, known: bool, k: WriteRun.Store, faults: seq<Fault>, data: seq<Word>,
                   later: seq<Fault>, m: Module, u: Transfer, due: nat)
    requires t.size in {1, 2, 4} && 0 < t.count <= |data| && k.e < 0 && u == t.(mem := m.bus.result.mem) && |m.intReg| == 33
    requires Achieves(t, 0, gap, known, k, faults, data, WriteRun.Complete, later, m)
    requires NoNoise(faults) && WriteLaws.Prompt(k.answers, t, 0, gap) && Failures(k.answers) <= 1
    requires WriteLaws.InTime(k.answers, Allowed(gap) + 1, Allowed(gap) + 1)
    requires due >= m.since + ReadClocks(1, 0, 0) + BurstClocks(0)
    ensures var b := AtStart(m, due, gap, u);
      && NoNoise(later) && b.left == 0 && ReadLaws.RestBudget(b) <= 1 && ReadLaws.Within(b.answers, gap)
      && WriteLaws.AllStored(u.mem, t, data, 0)
  {
    hide *;
    AchievesParts(t, gap, known, k, faults, data, later, m);
    var s := WriteRun.Run(t, 0, gap, 0, 0, known, k, faults, data);
    WriteLaws.RunSpends(t, 0, gap, 0, 0, known, k, faults, data, Allowed(gap) + 1);
    StartQuiet(t, gap, m, u, due, s.rest);
  }

  lemma AchievesParts(t: Transfer, gap: nat, known: bool, k: WriteRun.Store, faults: seq<Fault>, data: seq<Word>,
                      later: seq<Fault>, m: Module)
    requires t.size in {1, 2, 4} && 0 < t.count <= |data| && k.e < 0
    requires Achieves(t, 0, gap, known, k, faults, data, WriteRun.Complete, later, m)
    requires NoNoise(faults) && WriteLaws.Prompt(k.answers, t, 0, gap)
    ensures var s := WriteRun.Run(t, 0, gap, 0, 0, known, k, faults, data);
      && s.outcome.Complete? && later == s.faults && Rests(m, t, s.rest) && s.rest.e < 0
      && WriteLaws.AllStored(m.bus.result.mem, t, data, 0)
  {
    hide WriteRun.Run, Rests, WriteLaws.AllStored;
  }

  lemma AchievesKind(t: Transfer, gap: nat, known: bool, k: WriteRun.Store, faults: seq<Fault>, data: seq<Word>,
                     r: WriteRun.Written, later: seq<Fault>, m: Module)
    requires 0 < t.size <= 4 && 0 < t.count <= |data| && k.e <= t.count
    requires Achieves(t, 0, gap, known, k, faults, data, r, later, m)
    ensures m.kind == Wishbone
  {
    hide WriteRun.Run, WriteLaws.Outside, WriteLaws.AllStored, WriteLaws.Prompt;
  }

  lemma StoreFits(m: Module, due: nat, t: Transfer)
    requires t.size > 0 && |m.intReg| == 33
    ensures StoreAt(m, due, t).e <= t.count
  {
    hide BusNow, Bus.Aged;
  }

  /** A bus at rest when the read asks for its first word */
  lemma StartQuiet(t: Transfer, gap: nat, m: Module, u: Transfer, due: nat, n: WriteRun.Flow)
    requires t.size in {1, 2, 4} && u == t.(mem := m.bus.result.mem) && |m.intReg| == 33
    requires Rests(m, t, n) && n.e < 0 && WriteLaws.Brief(n, Allowed(gap) + 1)
    requires due >= m.since + ReadClocks(1, 0, 0) + BurstClocks(0)
    requires Failures(n.answers) <= 1 && WriteLaws.InTime(n.answers, Allowed(gap) + 1, Allowed(gap) + 1)
    ensures var b := AtStart(m, due, gap, u); b.left == 0 && ReadLaws.RestBudget(b) <= 1 && ReadLaws.Within(b.answers, gap)
  {
    hide Bus.Aged, Failures, WordOf, ToNat;
    AgedBus(m.bus, due - m.since);
  }

  lemma Comes(t: Transfer, u: Transfer, words: seq<Word>)
    requires 0 < t.size <= 4 && WriteLaws.AllStored(u.mem, t, words, 0) && u == t.(mem := u.mem)
    ensures forall k :: 0 <= k < t.count ==> u.Word(k) == words[k][..8 * t.size]
  {
    hide ReadMem, Lane;
    forall k | 0 <= k < t.count ensures u.Word(k) == words[k][..8 * t.size] {
      assert WriteLaws.Stored(u.mem, t, words, k);
      assert u.Place(k) == t.Place(k);
    }
  }

  /** What a benign write leaves for the read: a quiet bus, and the words in memory */
  lemma ReadBack(m: Module, start: nat, size: nat, count: nat, due: nat, gap: nat, known: bool, faults: seq<Fault>,
                 data: seq<Word>, later: seq<Fault>, m1: Module, due1: nat)
    requires size in {1, 2, 4} && 0 < count < 0x1_0000 && count <= |data| && start + count * size <= 0x1_0000_0000
    requires gap >= 79
    requires |m.intReg| == 33 && |m1.intReg| == 33 && Benign(m, faults, start, size, count, gap)
    requires var t := Whole(BusNow(m, due).Aged(WriteRun.STARTING).mem, start, size, count, 0);
      var k := StoreAt(m, due, t);
      k.e <= t.count && Achieves(t, 0, gap, known, k, faults, data, WriteRun.Complete, later, m1)
    requires due1 >= m1.since + ReadClocks(1, 0, 0) + BurstClocks(0)
    ensures var u := Whole(m1.bus.result.mem, start, size, count, 0); var b := AtStart(m1, due1, gap, u);
      && NoNoise(later) && b.left == 0 && ReadLaws.RestBudget(b) <= 1 && ReadLaws.Within(b.answers, gap)
      && forall k :: 0 <= k < count ==> u.Word(k) == data[k][..8 * size]
  {
    hide *;
    var mem := BusNow(m, due).Aged(WriteRun.STARTING).mem;
    var t, u := Whole(mem, start, size, count, 0), Whole(m1.bus.result.mem, start, size, count, 0);
    PlainWhole(mem, start, size, count);
    PlainWhole(m1.bus.result.mem, start, size, count);
    BenignParts(m, faults, t, start, size, count, due, gap);
    AfterWrite(t, gap, known, StoreAt(m, due, t), faults, data, later, m1, u, due1);
    Comes(t, u, data);
  }

  /** Writes words and reads them back.  If both transfers succeed, no word was silently spoilt, no error
      was registered before, and no bus transfer took longer than allowed, with at most one of them
      failing and then in time, the words come back, for any alignment and any number of errors the
      cable reports. */
  method WriteAndRead(w: Writer, data: array<Word>, back: array<Word>, size: nat, count: nat, start: nat,
                      debugCmd: Word)
    returns (written: WriteRun.Written, read: ReadRun.Outcome)
    requires size in {1, 2, 4} && w.burster.adv == w.adv && Synced(w.adv.host) && w.adv.CanRetry(debugCmd)
    requires w.adv.host.currentChain !in {1, 2} && w.adv.host.hw.unit.wb.kind == Wishbone && Alone(w.adv.host.hw)
    requires data != w.adv.host.irChain && back != w.adv.host.irChain
    requires 0 < count < 0x1_0000 && start + count * size <= 0x1_0000_0000 && count <= data.Length
    requires count <= back.Length
    modifies w.adv.host`hw, w.adv.host`currentChain, w.adv.host`currentRegIdx, w.adv.host`softRetryNo, w.adv.host`desiredChain,
      w.adv.host`irChain, w.adv.host.irChain, w.burster`faults, back
    ensures |old(w.adv.host.hw.unit.wb.intReg)| == 33
    ensures var m := old(w.adv.host.hw.unit.wb);
      var gap := RestartClocks(w.adv.host.irSize + w.adv.host.irPrefix + w.adv.host.irPostfix, 0);
      written.Complete? && read.Done? && Benign(m, old(w.burster.faults), start, size, count, gap) ==>
        forall k :: 0 <= k < count ==> back[k] == Pack(old(data[k])[..8 * size])
  {
    hide *;
    ghost var h, f, words := w.adv.host.hw, w.burster.faults, data[..count];
    ghost var m := h.unit.wb;
    ghost var due := h.unit.time + BurstClocks(0);
    ghost var t := Whole(BusNow(m, due).Aged(WriteRun.STARTING).mem, start, size, count, 0);
    ghost var gap := RestartClocks(w.adv.host.irSize + w.adv.host.irPrefix + w.adv.host.irPostfix, 0);
    PlainWhole(t.mem, start, size, count);
    AloneParts(h);
    w.adv.SyncedParts();
    WbWidth(h.unit);
    ModuleCount();
    ghost var known := w.adv.host.currentRegIdx[0] == 0;
    ghost var k := StoreAt(m, due, t);
    StoreFits(m, due, t);
    RetryClocksAre(w.adv.host.irSize + w.adv.host.irPrefix + w.adv.host.irPostfix);
    written := w.WbBurstWrite(data, 0, size, count, start, debugCmd);
    read := ReadRun.IllegalChain;
    if !written.Complete? { return; }
    assert data[0 - 0..0 + count] == words;
    ghost var h1, f1, m1 := w.adv.host.hw, w.burster.faults, w.adv.host.hw.unit.wb;
    AchievesKind(t, gap, known, k, f, words, written, f1, m1);
    PlainWhole(m1.bus.result.mem, start, size, count);
    AloneShort(h, h1);
    w.adv.SyncedParts();
    WbWidth(h1.unit);
    ghost var due1 := h1.unit.time + BurstClocks(w.adv.host.drPrefix);
    read := w.burster.WbBurstRead(size, count, start, back, 0, debugCmd);
    if read.Done? && Benign(m, f, start, size, count, gap) {
      ReadBack(m, start, size, count, due, gap, known, f, words, f1, m1, due1);
    }
  }
}
