/** A transfer that finds an error register which another transfer left behind. */
module StaleFlags {
  import opened Bits
  import opened ShiftRegister
  import Crc
  import opened DebugUnit
  import opened Transfers
  import opened BurstRead
  import ReadRun
  import opened SlowReads
  import LostReads
  import WriteRun
  import WriteLaws
  import LostWrites

  /** The register is clear or names a word that the host asked for */
  predicate Harmless(reg: Stream, start: nat, size: nat, count: nat)
    requires |reg| == 33 && size > 0
  {
    !reg[0] || WordOf(Transfer(map[], start, size, count), ToNat(reg[1..])) < count
  }

  predicate Own(e: int, home: nat, count: nat) {
    e < 0 || home <= e < count
  }

  lemma HarmlessIs(reg: Stream, mem: Memory, start: nat, size: nat, count: nat, base: nat)
    requires |reg| == 33 && size in {1, 2, 4} && 0 < count < 0x1_0000 && start + count * size <= 0x1_0000_0000
    ensures var t := Whole(mem, start, size, count, base);
      Harmless(reg, start, size, count) <==> Own(FlagOf(reg, t), Reach(start, size, count, base), t.count)
  {
    var t := Whole(mem, start, size, count, base);
    WholeFits(t, start, size, count, base);
    var a := ToNat(reg[1..]);
    WordsOwn(t, start, size, count, base, a);
    hide ToNat, WordOf, Reach, Whole;
  }

  lemma WordsOwn(t: Transfer, start: nat, size: nat, count: nat, base: nat, a: nat)
    requires size in {1, 2, 4} && 0 < count < 0x1_0000 && start + count * size <= 0x1_0000_0000
    requires t == Whole(t.mem, start, size, count, base)
    ensures WordOf(Transfer(map[], start, size, count), a) < count
       <==> Reach(start, size, count, base) <= WordOf(t, a) < Reach(start, size, count, base) + count
  {
    var p := Transfer(map[], start, size, count);
    if size == 1 {
      ByteWord(t, a);
      ByteWord(p, a);
      hide WordOf;
    } else {
      assert t == p.(mem := t.mem);
      assert WordOf(t, a) == WordOf(p, a);
    }
  }

  // --- how it comes about ---

  function Fails(n: nat): (a: seq<Answer>) {
    seq(n, _ => LostReads.BAD)
  }

  lemma FailsMore(n: nat)
    ensures Fails(n + 1) == [LostReads.BAD] + Fails(n) && Fails(n + 1)[1..] == Fails(n) && Fails(n + 1)[0] == LostReads.BAD
  {
  }

  lemma ReadFails(t: Transfer, post: nat, gap: nat, b: ReadRun.Fetch, log: seq<ReadRun.Got>, n: nat)
    requires 0 < t.size <= 4 && t.count == |log| == 1 && post < MAX_READ_STATUS_WAIT && b.left == 0 && b.e == -1
    requires b.answers == Fails(n + 1)
    ensures var r := ReadRun.Burst(t, post, gap, 0, b, [], log);
      && r.stop.AllRead? && r.host == r.unit && r.rest.e == 0 && r.rest.answers == Fails(n) && r.rest.left == 0 && r.faults == []
      && |r.log| == 1
  {
    hide Transfer.Word, Fold, Fails, ReadRun.Cut;
    FailsMore(n);
    NoMask(b.word[..8 * t.size]);
  }

  lemma ReadWorks(t: Transfer, post: nat, gap: nat, b: ReadRun.Fetch, log: seq<ReadRun.Got>)
    requires 0 < t.size <= 4 && t.count == |log| == 1 && post < MAX_READ_STATUS_WAIT && b.left == 0 && b.e == -1
    requires b.answers == []
    ensures var r := ReadRun.Burst(t, post, gap, 0, b, [], log);
      r.stop.AllRead? && r.host == r.unit && r.rest.e == -1 && r.rest.answers == []
  {
    hide Transfer.Word, Fold, ReadRun.Cut;
    NoMask(Pack(t.Word(0))[..8 * t.size]);
  }

  /** A read of one word whose transfer fails `n` times succeeds exactly when that is not more often than
      the host allows; else it leaves the error registered */
  lemma {:induction false} ReadGivesUp(t: Transfer, post: nat, gap: nat, errors: nat, b: ReadRun.Fetch,
                                       log: seq<ReadRun.Got>, n: nat)
    requires 0 < t.size <= 4 && t.count == |log| == 1 && post < MAX_READ_STATUS_WAIT && errors <= MAX_BUS_ERRORS
    requires b.left == 0 && b.e == -1 && b.answers == Fails(n)
    ensures var r := ReadRun.Run(t, 0, post, gap, 0, errors, b, [], log); var allowed := MAX_BUS_ERRORS - errors;
      if n <= allowed then r.outcome.Done? && r.rest.e == -1
      else r.outcome.MaxBusErrors? && r.rest.e == 0 && r.rest.answers == Fails(n - allowed - 1)
    decreases n
  {
    hide ReadRun.Burst, Fails;
    NoFails();
    var r := ReadRun.Burst(t, post, gap, 0, b, [], log);
    ReadRun.BurstEnds(t, post, gap, 0, b, [], log);
    if n == 0 {
      ReadWorks(t, post, gap, b, log);
    } else {
      ReadFails(t, post, gap, b, log, n - 1);
      if errors < MAX_BUS_ERRORS { ReadGivesUp(t, post, gap, errors + 1, r.rest.(e := -1), r.log, n - 1); }
    }
  }

  lemma NoFails()
    ensures Fails(0) == []
  {
  }

  lemma WriteFails(t: Transfer, k: WriteRun.Store, data: seq<Word>, n: nat)
    requires 0 < t.size <= 4 && t.count == 1 <= |data| && k.e == -1 && k.answers == Fails(n + 1)
    ensures var r := WriteRun.Burst(t, 0, k, [], data); var l := WriteRun.Left(t, r);
      r.stop.AllSent? && r.host == r.unit && l.e == 0 && l.answers == Fails(n) && r.faults == []
  {
    hide Transfer.Place, WriteMem, Fold, Fails;
    FailsMore(n);
    NoMask(WriteRun.Meant(data, t.size, 0));
  }

  lemma WriteWorks(t: Transfer, k: WriteRun.Store, data: seq<Word>)
    requires 0 < t.size <= 4 && t.count == 1 <= |data| && k.e == -1 && k.answers == []
    ensures var r := WriteRun.Burst(t, 0, k, [], data); var l := WriteRun.Left(t, r);
      r.stop.AllSent? && r.host == r.unit && l.e == -1 && l.answers == [] && r.faults == []
  {
    hide Transfer.Place, WriteMem, Fold;
    NoMask(WriteRun.Meant(data, t.size, 0));
  }

  /** The same of a write */
  lemma {:induction false} WriteGivesUp(t: Transfer, gap: nat, errors: nat, known: bool, k: WriteRun.Store,
                                        data: seq<Word>, n: nat)
    requires 0 < t.size <= 4 && t.count == 1 <= |data| && errors <= MAX_BUS_ERRORS
    requires k.e == -1 && k.answers == Fails(n)
    ensures var r := WriteRun.Run(t, 0, gap, 0, errors, known, k, [], data); var allowed := MAX_BUS_ERRORS - errors;
      if n <= allowed then r.outcome.Complete? && r.rest.e == -1
      else r.outcome.TooManyErrors? && r.rest.e == 0 && r.rest.answers == Fails(n - allowed - 1)
    decreases n
  {
    hide WriteRun.Burst, WriteRun.Left, Fails;
    NoFails();
    WriteRun.BurstEnds(t, 0, k, [], data);
    if n == 0 {
      WriteWorks(t, k, data);
    } else {
      WriteFails(t, k, data, n - 1);
      var l := WriteRun.Left(t, WriteRun.Burst(t, 0, k, [], data));
      if errors < MAX_BUS_ERRORS {
        WriteGivesUp(t, gap, errors + 1, true, WriteRun.Resumed(l.(e := -1), WriteRun.ErrorGap(known) + WriteRun.STARTING), data, n - 1);
      }
    }
  }

  // --- where it leads ---

  /** The register that a transfer of the byte at `a` left behind, as a transfer of bytes `d` further on
      takes it: the word `d` before its first */
  lemma BelowFlag(reg: Stream, t: Transfer, home: nat, a: nat, d: nat)
    requires FlagIs(reg, Transfer(t.mem, a, 1, 1), 0) && t.size == 1 && d <= home < t.count && t.start + home == a + d
    ensures FlagOf(reg, t) == home - d
  {
    hide ToNat;
    ByteWord(Transfer(t.mem, a, 1, 1), ToNat(reg[1..]));
    ByteWord(t, ToNat(reg[1..]));
  }

  /** A transfer of `count` bytes from `start` on, between the host's memory at `base` and the bus, that
      can be led back by `home` bytes, as `Whole` gives it */
  predicate LedBack(t: Transfer, home: nat, start: nat, count: nat, base: nat) {
    t.size == 1 && 0 < count && t.count == home + count && t.start + home == start && home <= base
  }

  lemma WholeIsLedBack(t: Transfer, start: nat, count: nat, base: nat)
    requires 0 < count < 0x1_0000 && start + count <= 0x1_0000_0000 && t == Whole(t.mem, start, 1, count, base)
    ensures LedBack(t, Reach(start, 1, count, base), start, count, base)
  {
    WholeFits(t, start, 1, count, base);
  }

  /** A read of bytes that finds the error of one `d` bytes below its start: on an idle bus and a clean
      cable it succeeds, and the bytes from there on are stored below the buffer */
  lemma ReadsBelow(reg: Stream, t: Transfer, home: nat, a: nat, d: nat, count: nat, base: nat, post: nat, gap: nat,
                   b: ReadRun.Fetch, was: seq<Word>)
    returns (r: ReadRun.Ended, now: seq<Word>)
    requires FlagIs(reg, Transfer(t.mem, a, 1, 1), 0) && LedBack(t, home, a + d, count, base)
    requires 0 < d <= home && base + count <= |was| && post < MAX_READ_STATUS_WAIT
    requires b.answers == [] && b.left == 0 && b.e == FlagOf(reg, t)
    ensures r == ReadRun.Run(t, home, post, gap, home, 0, b, [], Blank(t.count)) && r.outcome.Done?
    ensures now == ReadRun.Buffer(was, base - home, r.log, 1)
    ensures forall i :: base - d <= i < base + count ==> now[i] == Pack(ReadMem(t.mem, a + d - base + i, 1))
  {
    BelowFlag(reg, t, home, a, d);
    hide *;
    Limits();
    var log := Blank(t.count);
    LedBackIs(t, home, a + d, count, base);
    LostReads.IdleRun(t, home, post, gap, home, 0, b, log);
    r := ReadRun.Run(t, home, post, gap, home, 0, b, [], log);
    now := ReadRun.Buffer(was, base - home, r.log, 1);
    BytesShown(t, log, home, a, d, count, base, was);
  }

  lemma LedBackIs(t: Transfer, home: nat, start: nat, count: nat, base: nat)
    requires LedBack(t, home, start, count, base)
    ensures t.size == 1 && t.count == home + count && 0 < count && home <= base
  {
  }

  lemma BytesShown(t: Transfer, log: seq<ReadRun.Got>, home: nat, a: nat, d: nat, count: nat, base: nat, was: seq<Word>)
    requires LedBack(t, home, a + d, count, base) && 0 < d <= home && base + count <= |was| && |log| == t.count
    ensures var now := ReadRun.Buffer(was, base - home, LostReads.Filled(t, LostReads.Filled(t, log, home), home - d), 1);
      forall i :: base - d <= i < base + count ==> now[i] == Pack(ReadMem(t.mem, a + d - base + i, 1))
  {
    var now := ReadRun.Buffer(was, base - home, LostReads.Filled(t, LostReads.Filled(t, log, home), home - d), 1);
    hide ReadMem, ReadRun.Buffer, LostReads.Filled, ReadRun.BufferWord;
    forall i | base - d <= i < base + count ensures now[i] == Pack(ReadMem(t.mem, a + d - base + i, 1)) {
      FilledShows(t, log, home, home - d, i + home - base, was, base - home);
    }
  }

  lemma FilledShows(t: Transfer, log: seq<ReadRun.Got>, i: nat, e: nat, j: nat, was: seq<Word>, at: nat)
    requires t.size == 1 && e <= j < t.count == |log| && at + t.count <= |was|
    ensures var l := LostReads.Filled(t, LostReads.Filled(t, log, i), e);
      ReadRun.Buffer(was, at, l, 1)[at + j] == Pack(ReadMem(t.mem, t.start + j, 1))
  {
    ByteOf(t, j);
    LostReads.ShownWord(t.Word(j), 1, j);
    hide *;
    var l := LostReads.Filled(t, LostReads.Filled(t, log, i), e);
    assert l[j] == ReadRun.Got(Pack(t.Word(j)), Fill(8 * t.size, false), false, j);
    GotShown(was[at + j], j, l);
  }

  lemma ByteOf(t: Transfer, j: nat)
    requires t.size == 1
    ensures t.Word(j) == ReadMem(t.mem, t.start + j, 1)
  {
    hide ReadMem;
    PlaceIs(t, j);
  }

  lemma GotShown(was: Word, j: nat, log: seq<ReadRun.Got>)
    requires j < |log| && log[j].Got?
    ensures ReadRun.BufferWord(was, j, log, 1) == ReadRun.Shown(log[j], 1)
  {
    hide ReadRun.Shown;
  }

  /** A write of bytes that finds the error of one `d` bytes below its start: it succeeds, and the bytes
      below are overwritten with what lies below the buffer */
  lemma WritesBelow(reg: Stream, t: Transfer, home: nat, a: nat, d: nat, count: nat, base: nat, gap: nat, known: bool,
                    data: seq<Word>)
    returns (r: WriteRun.Ended)
    requires FlagIs(reg, Transfer(t.mem, a, 1, 1), 0) && LedBack(t, home, a + d, count, base) && 0 < d <= home
    requires base + count <= |data|
    ensures FlagOf(reg, t) <= t.count
    ensures r == WriteRun.Run(t, home, gap, home, 0, known, WriteRun.Store(t.mem, [], FlagOf(reg, t)), [], data[base - home..base + count])
    ensures r.outcome.Complete?
    ensures forall i :: base - d <= i < base + count ==> ReadMem(r.rest.next, a + d - base + i, 1) == WriteRun.Meant(data, 1, i)
  {
    BelowFlag(reg, t, home, a, d);
    hide *;
    Limits();
    LedBackIs(t, home, a + d, count, base);
    var words := data[base - home..base + count];
    var k := WriteRun.Store(t.mem, [], FlagOf(reg, t));
    WriteLedBack(t, home, gap, known, k, words);
    r := WriteRun.Run(t, home, gap, home, 0, known, k, [], words);
    BytesStored(r.rest.next, t, home, a, d, count, base, data, words);
  }

  lemma BytesStored(mem: Memory, t: Transfer, home: nat, a: nat, d: nat, count: nat, base: nat, data: seq<Word>,
                    words: seq<Word>)
    requires LedBack(t, home, a + d, count, base) && 0 < d <= home && base + count <= |data|
    requires words == data[base - home..base + count]
    requires forall j :: home - d <= j < t.count ==> WriteLaws.Stored(mem, t, words, j)
    ensures forall i :: base - d <= i < base + count ==> ReadMem(mem, a + d - base + i, 1) == WriteRun.Meant(data, 1, i)
  {
    hide ReadMem, WriteRun.Meant, WriteLaws.Stored;
    forall i | base - d <= i < base + count
      ensures ReadMem(mem, a + d - base + i, 1) == WriteRun.Meant(data, 1, i)
    {
      StoredByte(mem, t, words, i + home - base);
      SameWord(data, base - home, base + count, i);
    }
  }

  lemma SameWord(data: seq<Word>, lo: nat, hi: nat, i: nat)
    requires lo <= i < hi <= |data|
    ensures WriteRun.Meant(data[lo..hi], 1, i - lo) == WriteRun.Meant(data, 1, i)
  {
  }

  lemma StoredByte(mem: Memory, t: Transfer, data: seq<Word>, j: nat)
    requires t.size == 1 && j < |data| && WriteLaws.Stored(mem, t, data, j)
    ensures ReadMem(mem, t.start + j, 1) == WriteRun.Meant(data, 1, j)
  {
    PlaceIs(t, j);
    hide ReadMem, Transfer.Place;
  }

  /** On an idle bus and a clean cable a write goes through and then again from the word named */
  lemma WriteLedBack(t: Transfer, home: nat, gap: nat, known: bool, k: WriteRun.Store, data: seq<Word>)
    requires t.size in {1, 2, 4} && home < t.count <= |data| && k.answers == [] && 0 <= k.e < t.count
    ensures var r := WriteRun.Run(t, home, gap, home, 0, known, k, [], data);
      && r.outcome.Complete? && forall j :: k.e <= j < t.count ==> WriteLaws.Stored(r.rest.next, t, data, j)
  {
    hide WriteRun.SendOn, WriteLaws.Stored, Transfer.Place;
    Limits();
    LostWrites.SendIdle(t, home, WriteRun.Cleared(k), data, ONES);
    var n := WriteRun.Left(t, WriteRun.Burst(t, home, k, [], data));
    var k1 := WriteRun.Resumed(n.(e := -1), WriteRun.ErrorGap(known) + WriteRun.STARTING);
    LostWrites.SendIdle(t, n.e, WriteRun.Cleared(k1), data, ONES);
    var r1 := WriteRun.Burst(t, n.e, k1, [], data);
    LostWrites.WroteStored(k1.mem, r1.s.next, t, data, n.e, t.count);
    LedBackRun(t, home, gap, known, k, data);
  }

  lemma LedBackRun(t: Transfer, home: nat, gap: nat, known: bool, k: WriteRun.Store, data: seq<Word>)
    requires 0 < t.size <= 4 && home < t.count <= |data| && k.e < t.count
    requires var r := WriteRun.Burst(t, home, k, [], data); var n := WriteRun.Left(t, r);
      && r.stop.AllSent? && r.host == r.unit && r.faults == [] && 0 <= n.e < t.count
      && var k1 := WriteRun.Resumed(n.(e := -1), WriteRun.ErrorGap(known) + WriteRun.STARTING);
      var r1 := WriteRun.Burst(t, n.e, k1, [], data);
      r1.stop.AllSent? && r1.host == r1.unit && WriteRun.Left(t, r1).e < 0
    ensures var n := WriteRun.Left(t, WriteRun.Burst(t, home, k, [], data));
      var k1 := WriteRun.Resumed(n.(e := -1), WriteRun.ErrorGap(known) + WriteRun.STARTING);
      var s := WriteRun.Run(t, home, gap, home, 0, known, k, [], data);
      s.outcome.Complete? && s.rest == WriteRun.Left(t, WriteRun.Burst(t, n.e, k1, [], data))
  {
    hide WriteRun.Burst, WriteRun.Left;
    Limits();
  }

  // --- exactly when a transfer stays with its own words ---

  /** The transfer sends only bursts for words it was asked for: none stray and nothing is read into the
      host's memory before the buffer */
  ghost predicate ReadStays(t: Transfer, home: nat, post: nat, gap: nat, b: ReadRun.Fetch, faults: seq<Fault>)
    requires 0 < t.size <= 4 && home < t.count && b.e <= t.count && post < MAX_READ_STATUS_WAIT
  {
    Limits();
    var r := ReadRun.Run(t, home, post, gap, home, 0, b, faults, Blank(t.count));
    !r.outcome.Astray? && BlankBelow(r.log, home)
  }

  ghost predicate BlankBelow(log: seq<ReadRun.Got>, home: nat) {
    home <= |log| && forall k :: 0 <= k < home ==> log[k] == ReadRun.Unread
  }

  lemma {:induction false} CoastAbove(t: Transfer, lo: nat, j: nat, p: ReadRun.Fetch, clocks: nat)
    requires 0 < t.size <= 4 && Own(p.e, lo, t.count) && lo <= j < t.count
    ensures Own(ReadRun.Coast(t, j, p, clocks).e, lo, t.count)
    decreases clocks
  {
    hide Transfer.Word;
    var b := ReadRun.Taking(j, p);
    if clocks > p.left && j + 1 < t.count && clocks - p.left - 1 >= 8 * t.size {
      CoastAbove(t, lo, j + 1, ReadRun.Waited(ReadRun.Ask(t, j + 1, b), 8 * t.size), clocks - p.left - 1 - 8 * t.size);
    }
  }

  lemma {:induction false} ReadAbove(t: Transfer, lo: nat, post: nat, i: nat, p: ReadRun.Fetch, faults: seq<Fault>,
                                     log: seq<ReadRun.Got>, host: Word, unit: Word)
    requires 0 < t.size <= 4 && lo <= i < t.count == |log| && Own(p.e, lo, t.count) && BlankBelow(log, lo)
    ensures var r := ReadRun.ReadOn(t, post, i, p, faults, log, host, unit); Own(r.rest.e, lo, t.count) && BlankBelow(r.log, lo)
    decreases t.count - i
  {
    hide Transfer.Word, ReadRun.Coast, Fold, ReadRun.Ask;
    CoastAbove(t, lo, i, p, MAX_READ_STATUS_WAIT + 4 + post);
    CoastAbove(t, lo, i, p, p.left + 8 * t.size + 4 + post);
    var f := NextFault(faults);
    if p.left < MAX_READ_STATUS_WAIT && !f.Broken? && i + 1 < t.count {
      var mask := Mask(f, 8 * t.size);
      AskFlag(t, i + 1, ReadRun.Taking(i, p));
      ReadAbove(t, lo, post, i + 1, ReadRun.Waited(ReadRun.Ask(t, i + 1, ReadRun.Taking(i, p)), 8 * t.size), LaterFaults(faults),
                log[i := ReadRun.Got(p.word, mask, p.fail, p.of)],
                Fold(Crc.POLY, host, Xor(p.word[..8 * t.size], mask)), Fold(Crc.POLY, unit, p.word[..8 * t.size]));
    }
  }

  lemma BurstAbove(t: Transfer, lo: nat, post: nat, gap: nat, i: nat, b: ReadRun.Fetch, faults: seq<Fault>,
                   log: seq<ReadRun.Got>)
    requires 0 < t.size <= 4 && lo <= i < t.count == |log| && Own(b.e, lo, t.count) && BlankBelow(log, lo)
    ensures var r := ReadRun.Burst(t, post, gap, i, b, faults, log); Own(r.rest.e, lo, t.count) && BlankBelow(r.log, lo)
  {
    hide ReadRun.ReadOn, ReadRun.Ask;
    AskFlag(t, i, b);
    ReadAbove(t, lo, post, i, ReadRun.First(t, post, gap, i, b), faults, log, ONES, ONES);
  }

  lemma {:induction false} RunAbove(t: Transfer, home: nat, post: nat, gap: nat, i: nat, errors: nat,
                                    b: ReadRun.Fetch, faults: seq<Fault>, log: seq<ReadRun.Got>)
    requires 0 < t.size <= 4 && home <= i < t.count == |log| && home < t.count && b.e <= t.count
    requires post < MAX_READ_STATUS_WAIT && errors <= MAX_BUS_ERRORS && Own(b.e, home, t.count) && BlankBelow(log, home)
    ensures var r := ReadRun.Run(t, home, post, gap, i, errors, b, faults, log); !r.outcome.Astray? && BlankBelow(r.log, home)
    decreases |b.answers| + |faults| + (MAX_BUS_ERRORS - errors), b.left
  {
    hide ReadRun.Burst, BlankBelow;
    ReadRun.BurstEnds(t, post, gap, i, b, faults, log);
    BurstAbove(t, home, post, gap, i, b, faults, log);
    var r := ReadRun.Burst(t, post, gap, i, b, faults, log);
    if !r.stop.AllRead? {
      RunAbove(t, home, post, gap, r.i, errors, r.rest, r.faults, r.log);
    } else if r.host != r.unit {
      RunAbove(t, home, post, gap, home, errors, r.rest, r.faults, r.log);
    } else if r.rest.e >= 0 && errors < MAX_BUS_ERRORS {
      RunAbove(t, home, post, gap, r.rest.e, errors + 1, r.rest.(e := -1), r.faults, r.log);
    }
  }

  /** The state of the module when a transfer begins on an idle bus */
  function Begun(shown: Word, answers: seq<Answer>, e: int): ReadRun.Fetch {
    Still(shown, answers).(e := e)
  }

  /** A read stays with its own words, whatever bus and cable do, exactly when the error register was
      clear or named one of them */
  lemma ReadStaysIff(reg: Stream, t: Transfer, start: nat, size: nat, count: nat, base: nat, gap: nat, shown: Word)
    requires |reg| == 33 && size in {1, 2, 4} && 0 < count < 0x1_0000 && start + count * size <= 0x1_0000_0000
    requires t == Whole(t.mem, start, size, count, base)
    ensures var home, e := Reach(start, size, count, base), FlagOf(reg, t);
      && home < t.count && e <= t.count
      && ((forall answers: seq<Answer>, faults: seq<Fault>, post: nat :: post < MAX_READ_STATUS_WAIT ==>
             ReadStays(t, home, post, gap, Begun(shown, answers, e), faults))
          <==> Harmless(reg, start, size, count))
  {
    WholeFits(t, start, size, count, base);
    HarmlessIs(reg, t.mem, start, size, count, base);
    var home, e := Reach(start, size, count, base), FlagOf(reg, t);
    hide *;
    Limits();
    if Own(e, home, t.count) {
      forall answers: seq<Answer>, faults: seq<Fault>, post: nat | post < MAX_READ_STATUS_WAIT
        ensures ReadStays(t, home, post, gap, Begun(shown, answers, e), faults)
      {
        ReadsOwn(t, home, post, gap, Begun(shown, answers, e), faults);
      }
    } else {
      ReadStrays(t, home, gap, shown, e);
      assert !ReadStays(t, home, 0, gap, Begun(shown, [], e), []);
    }
  }

  lemma ReadsOwn(t: Transfer, home: nat, post: nat, gap: nat, b: ReadRun.Fetch, faults: seq<Fault>)
    requires 0 < t.size <= 4 && home < t.count && b.e <= t.count && post < MAX_READ_STATUS_WAIT
    requires Own(b.e, home, t.count)
    ensures ReadStays(t, home, post, gap, b, faults)
  {
    hide ReadRun.Run;
    RunAbove(t, home, post, gap, home, 0, b, faults, Blank(t.count));
  }

  lemma ReadStrays(t: Transfer, home: nat, gap: nat, shown: Word, e: int)
    requires 0 < t.size <= 4 && home < t.count && e <= t.count && !Own(e, home, t.count)
    ensures !ReadStays(t, home, 0, gap, Begun(shown, [], e), [])
  {
    hide Transfer.Word, ReadRun.Burst, LostReads.Filled;
    var b, log := Begun(shown, [], e), Blank(t.count);
    if e == t.count {
      LostReads.IdleBurst(t, 0, gap, home, b, log);
    } else {
      LostReads.IdleRun(t, home, 0, gap, home, 0, b, log);
      assert LostReads.Filled(t, LostReads.Filled(t, log, home), e)[e] != ReadRun.Unread;
    }
  }

  /** The same of a write: none of its bursts stray, and nothing outside the words it was asked for
      changes, now or when the bus is done */
  ghost predicate WriteStays(t: Transfer, home: nat, gap: nat, known: bool, k: WriteRun.Store, faults: seq<Fault>,
                             data: seq<Word>)
    requires 0 < t.size <= 4 && home < t.count <= |data| && k.e <= t.count
  {
    Limits();
    var r := WriteRun.Run(t, home, gap, home, 0, known, k, faults, data);
    !r.outcome.Astray? && WriteLaws.Outside(r.rest.mem, t, home) && WriteLaws.Outside(r.rest.next, t, home)
  }

  lemma {:induction false} WriteNamesOwn(t: Transfer, lo: nat, i: nat, s: WriteRun.Flow, faults: seq<Fault>,
                                         data: seq<Word>, host: Word, unit: Word)
    requires 0 < t.size <= 4 && lo <= i < t.count <= |data| && Own(s.e, lo, t.count) && (s.fail ==> lo < i)
    ensures Own(WriteRun.SendOn(t, i, s, faults, data, host, unit).s.e, lo, t.count)
    decreases t.count - i
  {
    hide Transfer.Place, WriteMem, Fold;
    var f := NextFault(faults);
    if s.left <= 8 * t.size && !f.Broken? && i + 1 < t.count {
      var bits := Received(f, WriteRun.Meant(data, t.size, i));
      WriteNamesOwn(t, lo, i + 1, WriteRun.Give(t, i, s, bits), LaterFaults(faults), data,
                    Fold(Crc.POLY, host, WriteRun.Meant(data, t.size, i)), Fold(Crc.POLY, unit, bits));
    }
  }

  lemma BurstNamesOwn(t: Transfer, lo: nat, i: nat, k: WriteRun.Store, faults: seq<Fault>, data: seq<Word>)
    requires 0 < t.size <= 4 && lo <= i < t.count <= |data| && Own(k.e, lo, t.count)
    ensures Own(WriteRun.Left(t, WriteRun.Burst(t, i, k, faults, data)).e, lo, t.count)
  {
    hide WriteRun.SendOn;
    WriteNamesOwn(t, lo, i, WriteRun.Cleared(k), faults, data, ONES, ONES);
  }

  lemma {:induction false} WriteNotAstray(t: Transfer, home: nat, gap: nat, i: nat, errors: nat, known: bool,
                                          k: WriteRun.Store, faults: seq<Fault>, data: seq<Word>)
    requires 0 < t.size <= 4 && home <= i < t.count <= |data| && k.e <= t.count && errors <= MAX_BUS_ERRORS
    requires Own(k.e, home, t.count)
    ensures !WriteRun.Run(t, home, gap, i, errors, known, k, faults, data).outcome.Astray?
    decreases |k.answers| + |faults| + (MAX_BUS_ERRORS - errors)
  {
    hide WriteRun.Burst, WriteRun.Left;
    WriteRun.BurstEnds(t, i, k, faults, data);
    BurstNamesOwn(t, home, i, k, faults, data);
    var r := WriteRun.Burst(t, i, k, faults, data);
    var n := WriteRun.Left(t, r);
    if r.stop.LostBusy? {
    } else if !r.stop.AllSent? {
      WriteNotAstray(t, home, gap, r.i, errors, false, WriteRun.Resumed(n, gap + WriteRun.STARTING), r.faults, data);
    } else if r.host != r.unit {
      WriteNotAstray(t, home, gap, home, errors, false, WriteRun.Resumed(n, gap + 4 + WriteRun.STARTING), r.faults, data);
    } else if n.e >= 0 && errors < MAX_BUS_ERRORS {
      WriteNotAstray(t, home, gap, n.e, errors + 1, true, WriteRun.Resumed(n.(e := -1), WriteRun.ErrorGap(known) + WriteRun.STARTING),
                     r.faults, data);
    }
  }

  /** A write stays with its own words, whatever bus, cable and data, exactly when the error register was
      clear or named one of them */
  lemma WriteStaysIff(reg: Stream, t: Transfer, start: nat, size: nat, count: nat, base: nat, gap: nat, known: bool)
    requires |reg| == 33 && size in {1, 2, 4} && 0 < count < 0x1_0000 && start + count * size <= 0x1_0000_0000
    requires t == Whole(t.mem, start, size, count, base)
    ensures var home, e := Reach(start, size, count, base), FlagOf(reg, t);
      && home < t.count && e <= t.count
      && ((forall answers: seq<Answer>, faults: seq<Fault>, data: seq<Word> :: |data| == t.count ==>
             WriteStays(t, home, gap, known, WriteRun.Store(t.mem, answers, e), faults, data))
          <==> Harmless(reg, start, size, count))
  {
    WholeFits(t, start, size, count, base);
    HarmlessIs(reg, t.mem, start, size, count, base);
    var home, e := Reach(start, size, count, base), FlagOf(reg, t);
    FitsRange(t);
    hide *;
    Limits();
    if Own(e, home, t.count) {
      forall answers: seq<Answer>, faults: seq<Fault>, data: seq<Word> | |data| == t.count
        ensures WriteStays(t, home, gap, known, WriteRun.Store(t.mem, answers, e), faults, data)
      {
        WritesOwn(t, home, gap, known, WriteRun.Store(t.mem, answers, e), faults, data);
      }
    } else {
      WriteStrays(t, home, gap, known, e);
      assert !WriteStays(t, home, gap, known, WriteRun.Store(t.mem, [], e), [], Contrary(t, e));
    }
  }

  lemma WritesOwn(t: Transfer, home: nat, gap: nat, known: bool, k: WriteRun.Store, faults: seq<Fault>, data: seq<Word>)
    requires t.size in {1, 2, 4} && home < t.count <= |data| && k.e <= t.count && k.mem == t.mem
    requires Own(k.e, home, t.count)
    ensures WriteStays(t, home, gap, known, k, faults, data)
  {
    WriteNotAstray(t, home, gap, home, 0, known, k, faults, data);
    WriteLaws.RunOutside(t, home, home, gap, home, 0, known, k, faults, data);
    hide WriteRun.Run;
  }

  /** Data whose word `e` differs from the memory's in every bit */
  function Contrary(t: Transfer, e: int): (data: seq<Word>)
    requires t.size in {1, 2, 4} && e <= t.count
    ensures |data| == t.count
  {
    var ones := LostWrites.AllOnes(t.count);
    if 0 <= e < t.count then ones[e := Not(Pack(ReadMem(t.mem, t.Place(e), t.size)))] else ones
  }

  lemma WriteAstray(t: Transfer, home: nat, gap: nat, known: bool, k: WriteRun.Store, data: seq<Word>)
    requires t.size in {1, 2, 4} && home < t.count <= |data| && k.answers == [] && k.e == t.count
    ensures WriteRun.Run(t, home, gap, home, 0, known, k, [], data).outcome.Astray?
  {
    hide WriteRun.SendOn, Transfer.Place, LostWrites.Wrote;
    LostWrites.SendIdle(t, home, WriteRun.Cleared(k), data, ONES);
  }

  lemma WriteStrays(t: Transfer, home: nat, gap: nat, known: bool, e: int)
    requires t.size in {1, 2, 4} && home < t.count && e <= t.count && !Own(e, home, t.count)
    ensures !WriteStays(t, home, gap, known, WriteRun.Store(t.mem, [], e), [], Contrary(t, e))
  {
    var k, data := WriteRun.Store(t.mem, [], e), Contrary(t, e);
    hide WriteRun.Run, WriteLaws.Stored, WriteLaws.Outside, Contrary;
    if e == t.count {
      WriteAstray(t, home, gap, known, k, data);
    } else {
      WriteLedBack(t, home, gap, known, k, data);
      StoredInside(WriteRun.Run(t, home, gap, home, 0, known, k, [], data).rest.next, t, home, e);
    }
  }

  lemma StoredInside(mem: Memory, t: Transfer, home: nat, e: nat)
    requires t.size in {1, 2, 4} && e < home && e < t.count && WriteLaws.Stored(mem, t, Contrary(t, e), e)
    ensures !WriteLaws.Outside(mem, t, home)
  {
    hide Transfer.Place, ReadMem, WriteLaws.Outside;
    StaysOutside(mem, t, home, e);
    var was := ReadMem(t.mem, t.Place(e), t.size);
    assert WriteRun.Meant(Contrary(t, e), t.size, e)[0] != was[0];
  }

  lemma StaysOutside(mem: Memory, t: Transfer, home: nat, e: nat)
    requires t.size in {1, 2, 4} && e < home
    ensures WriteLaws.Outside(mem, t, home) ==> ReadMem(mem, t.Place(e), t.size) == ReadMem(t.mem, t.Place(e), t.size)
  {
    PlaceIs(t, e);
    WriteLaws.Inside(e, home, t.size);
    hide Lane, Transfer.Place;
    if WriteLaws.Outside(mem, t, home) {
      forall a | t.Place(e) <= a < t.Place(e) + t.size ensures ByteAt(mem, a) == ByteAt(t.mem, a) {
      }
      ReadUnchanged(t.mem, mem, t.Place(e), t.size);
    }
  }
}
