/** When a burst read that succeeds has read the memory. */
module ReadLaws {
  import opened Bits
  import opened ShiftRegister
  import Crc
  import opened DebugUnit
  import opened Transfers
  import opened ReadRun

  // --- every run ---

  /** What the bus brings for a word of the transfer, unless that fails, is the memory's */
  predicate Brings(t: Transfer, p: Fetch)
    requires 0 < t.size <= 4
  {
    !p.fail && p.of >= 0 ==> p.word == Pack(t.Word(p.of))
  }

  /** And so is what the buffer then holds, but for noise */
  predicate Genuine(t: Transfer, g: Got)
    requires 0 < t.size <= 4
  {
    g.Got? ==> |g.mask| == 8 * t.size && (!g.fail && g.of >= 0 ==> g.word == Pack(t.Word(g.of)))
  }

  ghost predicate AllGenuine(t: Transfer, log: seq<Got>)
    requires 0 < t.size <= 4
  {
    forall k :: 0 <= k < |log| ==> Genuine(t, log[k])
  }

  /** Every word in came from a transfer of its own */
  ghost predicate AllOwn(log: seq<Got>) {
    forall k :: 0 <= k < |log| && log[k].Got? ==> log[k].of == k
  }

  /** The words from `home` up to `i` are in; those whose transfer failed are disowned by the error register */
  ghost predicate Covered(log: seq<Got>, home: nat, i: nat, e: int) {
    i <= |log| && forall k :: home <= k < i ==> log[k].Got? && (log[k].fail ==> 0 <= e <= k)
  }

  /** The bits the buffer holds for words `i` up to `n`, and the bits the module sent for them */
  function Held(log: seq<Got>, size: nat, i: nat, n: nat): seq<Stream>
    requires i <= n <= |log| && size <= 4 && forall k :: i <= k < n ==> log[k].Got? && |log[k].mask| == 8 * size
  {
    seq(n - i, j requires 0 <= j < n - i => Xor(log[i + j].word[..8 * size], log[i + j].mask))
  }

  function Sent(log: seq<Got>, size: nat, i: nat, n: nat): seq<Stream>
    requires i <= n <= |log| && size <= 4 && forall k :: i <= k < n ==> log[k].Got?
  {
    seq(n - i, j requires 0 <= j < n - i => log[i + j].word[..8 * size])
  }

  /** A burst from word `i0` on, up to word `i`: the two check words */
  ghost predicate Checks(log: seq<Got>, size: nat, i0: nat, i: nat, host: Word, unit: Word) {
    && i0 <= i <= |log| && size <= 4 && (forall k :: i0 <= k < i ==> log[k].Got? && |log[k].mask| == 8 * size)
    && host == Fold(Crc.POLY, ONES, Wire(Held(log, size, i0, i)))
    && unit == Fold(Crc.POLY, ONES, Wire(Sent(log, size, i0, i)))
  }

  lemma ChecksStart(log: seq<Got>, size: nat, i: nat)
    requires i <= |log| && size <= 4
    ensures Checks(log, size, i, i, ONES, ONES)
  {
    FoldNone(Crc.POLY, ONES);
    assert Wire([]) == [];
    assert Held(log, size, i, i) == [] && Sent(log, size, i, i) == [];
  }

  lemma ChecksStep(log: seq<Got>, size: nat, i0: nat, i: nat, host: Word, unit: Word, g: Got)
    requires Checks(log, size, i0, i, host, unit) && i < |log| && g.Got? && |g.mask| == 8 * size
    ensures Checks(log[i := g], size, i0, i + 1, Fold(Crc.POLY, host, Xor(g.word[..8 * size], g.mask)),
                   Fold(Crc.POLY, unit, g.word[..8 * size]))
  {
    hide Fold, Wire;
    var log1 := log[i := g];
    var h, u := Xor(g.word[..8 * size], g.mask), g.word[..8 * size];
    WireMore(Held(log, size, i0, i), h, ONES);
    WireMore(Sent(log, size, i0, i), u, ONES);
    assert Held(log1, size, i0, i + 1) == Held(log, size, i0, i) + [h];
    assert Sent(log1, size, i0, i + 1) == Sent(log, size, i0, i) + [u];
  }

  /** The transfers still to fail, counting the one in progress and the failure already registered */
  function Budget(p: Fetch): nat {
    Failures(p.answers) + (if p.fail then 1 else 0) + (if p.e >= 0 then 1 else 0)
  }

  /** The same between bursts, where a transfer that is over is of no account */
  function RestBudget(b: Fetch): nat {
    Failures(b.answers) + (if b.fail && b.left > 0 then 1 else 0) + (if b.e >= 0 then 1 else 0)
  }

  lemma AskBudget(t: Transfer, j: nat, b: Fetch)
    requires 0 < t.size <= 4
    ensures var p := Ask(t, j, b);
      && Budget(p) == Failures(b.answers) + (if b.e >= 0 then 1 else 0) && p.e == b.e && Brings(t, p) && p.of == j
  {
    hide Transfer.Word;
  }

  lemma FirstBudget(t: Transfer, post: nat, gap: nat, i: nat, b: Fetch)
    requires 0 < t.size <= 4 && Brings(t, b)
    ensures var p := First(t, post, gap, i, b);
      Budget(p) <= RestBudget(b) && p.e == b.e && Brings(t, p) && (b.left <= gap || b.of == i ==> p.of == i)
  {
    hide Transfer.Word, Ask;
    AskBudget(t, i, b);
  }

  /** A module left to itself spends failures, and an error newly registered is for a word from `j` on */
  lemma {:induction false} CoastBudget(t: Transfer, j: nat, p: Fetch, clocks: nat)
    requires 0 < t.size <= 4 && Brings(t, p)
    ensures var b := Coast(t, j, p, clocks);
      && Failures(b.answers) + (if b.fail && b.left > 0 then 1 else 0) + (if b.e >= 0 then 1 else 0) <= Budget(p)
      && (b.e == p.e || (p.e < 0 && b.e >= j)) && Brings(t, b)
    decreases clocks
  {
    hide Transfer.Word, Ask;
    var b := Taking(j, p);
    if clocks > p.left && j + 1 < t.count {
      AskBudget(t, j + 1, b);
      if clocks - p.left - 1 >= 8 * t.size {
        CoastBudget(t, j + 1, Waited(Ask(t, j + 1, b), 8 * t.size), clocks - p.left - 1 - 8 * t.size);
      }
    }
  }

  lemma CutBudget(t: Transfer, j: nat, p: Fetch, clocks: nat)
    requires 0 < t.size <= 4 && Brings(t, p)
    ensures var b := Cut(t, j, p, clocks); RestBudget(b) <= Budget(p) && (b.e == p.e || (p.e < 0 && b.e >= j)) && Brings(t, b)
  {
    hide Transfer.Word, Coast;
    CoastBudget(t, j, p, clocks);
  }

  ghost predicate AllIn(log: seq<Got>, home: nat, i: nat) {
    i <= |log| && forall k :: home <= k < i ==> log[k].Got?
  }

  ghost predicate NoneFailed(log: seq<Got>, i: nat, n: nat) {
    n <= |log| && forall k :: i <= k < n ==> log[k].Got? && !log[k].fail
  }

  /** The words between `i` and `n` came from transfers of their own */
  ghost predicate OwnAfter(log: seq<Got>, i: nat, n: nat) {
    n <= |log| && forall k :: i < k < n ==> log[k].Got? && log[k].of == k
  }

  /** A burst from word `i0` on, now at word `i`: one that ends with no error registered had no failing
      transfer, and only its first word can be another's */
  lemma {:induction false} ReadAccounts(t: Transfer, home: nat, post: nat, i0: nat, i: nat, p: Fetch,
                                        faults: seq<Fault>, log: seq<Got>, host: Word, unit: Word)
    requires 0 < t.size <= 4 && i < t.count == |log| && AllGenuine(t, log) && AllIn(log, home, i) && Brings(t, p)
    requires Checks(log, t.size, i0, i, host, unit) && (p.e < 0 ==> NoneFailed(log, i0, i))
    requires OwnAfter(log, i0, i) && (i > i0 ==> p.of == i)
    ensures var r := ReadOn(t, post, i, p, faults, log, host, unit);
      && AllGenuine(t, r.log) && |r.log| == t.count && AllIn(r.log, home, r.i) && Brings(t, r.rest)
      && (r.stop.AllRead? ==>
            r.i == t.count && Checks(r.log, t.size, i0, t.count, r.host, r.unit) && OwnAfter(r.log, i0, t.count))
      && (r.stop.AllRead? && r.rest.e < 0 ==> NoneFailed(r.log, i0, t.count))
    decreases t.count - i
  {
    hide Transfer.Word, Coast, Fold, Ask, Checks, Cut;
    CutBudget(t, i, p, MAX_READ_STATUS_WAIT + 4 + post);
    CutBudget(t, i, p, p.left + 8 * t.size + 4 + post);
    var f := NextFault(faults);
    if p.left < MAX_READ_STATUS_WAIT && !f.Broken? {
      var mask := Mask(f, 8 * t.size);
      var g := Got(p.word, mask, p.fail, p.of);
      var b := Taking(i, p);
      ChecksStep(log, t.size, i0, i, host, unit, g);
      if i + 1 < t.count {
        AskBudget(t, i + 1, b);
        ReadAccounts(t, home, post, i0, i + 1, Waited(Ask(t, i + 1, b), 8 * t.size), LaterFaults(faults), log[i := g],
                  Fold(Crc.POLY, host, Xor(p.word[..8 * t.size], mask)), Fold(Crc.POLY, unit, p.word[..8 * t.size]));
      }
    }
  }

  /** While at most one transfer fails none is read wrongly without being registered */
  lemma {:induction false} ReadCovers(t: Transfer, home: nat, post: nat, i: nat, p: Fetch, faults: seq<Fault>,
                                      log: seq<Got>, host: Word, unit: Word)
    requires 0 < t.size <= 4 && i < t.count == |log| && Covered(log, home, i, p.e) && Budget(p) <= 1 && Brings(t, p)
    ensures var r := ReadOn(t, post, i, p, faults, log, host, unit);
      RestBudget(r.rest) <= Budget(p) && |r.log| == t.count && Covered(r.log, home, r.i, r.rest.e)
    decreases t.count - i
  {
    hide Transfer.Word, Coast, Fold, Ask, Cut;
    CutBudget(t, i, p, MAX_READ_STATUS_WAIT + 4 + post);
    CutBudget(t, i, p, p.left + 8 * t.size + 4 + post);
    var f := NextFault(faults);
    if p.left < MAX_READ_STATUS_WAIT && !f.Broken? {
      var mask := Mask(f, 8 * t.size);
      var b := Taking(i, p);
      if i + 1 < t.count {
        AskBudget(t, i + 1, b);
        ReadCovers(t, home, post, i + 1, Waited(Ask(t, i + 1, b), 8 * t.size), LaterFaults(faults),
                   log[i := Got(p.word, mask, p.fail, p.of)],
                   Fold(Crc.POLY, host, Xor(p.word[..8 * t.size], mask)), Fold(Crc.POLY, unit, p.word[..8 * t.size]));
      }
    }
  }

  /** The cable leaves the words alone */
  ghost predicate Quiet(log: seq<Got>, size: nat) {
    forall k :: 0 <= k < |log| && log[k].Got? ==> log[k].mask == Fill(8 * size, false)
  }

  lemma {:induction false} ReadQuiet(t: Transfer, post: nat, i: nat, p: Fetch, faults: seq<Fault>, log: seq<Got>,
                                     host: Word, unit: Word)
    requires 0 < t.size <= 4 && i < t.count == |log| && Quiet(log, t.size) && NoNoise(faults)
    ensures var r := ReadOn(t, post, i, p, faults, log, host, unit); Quiet(r.log, t.size) && NoNoise(r.faults)
    decreases t.count - i
  {
    hide Transfer.Word, Coast, Fold, Ask;
    var f := NextFault(faults);
    if p.left < MAX_READ_STATUS_WAIT && !f.Broken? {
      var mask := Mask(f, 8 * t.size);
      if i + 1 < t.count {
        ReadQuiet(t, post, i + 1, Waited(Ask(t, i + 1, Taking(i, p)), 8 * t.size), LaterFaults(faults),
                  log[i := Got(p.word, mask, p.fail, p.of)],
                  Fold(Crc.POLY, host, Xor(p.word[..8 * t.size], mask)), Fold(Crc.POLY, unit, p.word[..8 * t.size]));
      }
    }
  }

  lemma BurstKeeps(t: Transfer, home: nat, post: nat, gap: nat, i: nat, b: Fetch, faults: seq<Fault>, log: seq<Got>)
    requires 0 < t.size <= 4 && i < t.count == |log| && AllGenuine(t, log) && AllIn(log, home, i) && Brings(t, b)
    ensures var r := Burst(t, post, gap, i, b, faults, log);
      && AllGenuine(t, r.log) && |r.log| == t.count && AllIn(r.log, home, r.i) && Brings(t, r.rest)
      && (r.stop.AllRead? ==>
            r.i == t.count && Checks(r.log, t.size, i, t.count, r.host, r.unit) && OwnAfter(r.log, i, t.count))
      && (r.stop.AllRead? && r.rest.e < 0 ==> NoneFailed(r.log, i, t.count))
  {
    hide ReadOn, First, Checks, Transfer.Word, AllGenuine;
    FirstBudget(t, post, gap, i, b);
    ChecksStart(log, t.size, i);
    ReadAccounts(t, home, post, i, i, First(t, post, gap, i, b), faults, log, ONES, ONES);
  }

  lemma BurstCovers(t: Transfer, home: nat, post: nat, gap: nat, i: nat, b: Fetch, faults: seq<Fault>, log: seq<Got>)
    requires 0 < t.size <= 4 && i < t.count == |log| && Covered(log, home, i, b.e) && RestBudget(b) <= 1 && Brings(t, b)
    ensures var r := Burst(t, post, gap, i, b, faults, log);
      RestBudget(r.rest) <= RestBudget(b) && |r.log| == t.count && Covered(r.log, home, r.i, r.rest.e)
  {
    hide ReadOn, First;
    FirstBudget(t, post, gap, i, b);
    ReadCovers(t, home, post, i, First(t, post, gap, i, b), faults, log, ONES, ONES);
  }

  lemma BurstQuiet(t: Transfer, post: nat, gap: nat, i: nat, b: Fetch, faults: seq<Fault>, log: seq<Got>)
    requires 0 < t.size <= 4 && i < t.count == |log| && Quiet(log, t.size) && NoNoise(faults)
    ensures var r := Burst(t, post, gap, i, b, faults, log); Quiet(r.log, t.size) && NoNoise(r.faults)
  {
    hide ReadOn, First;
    ReadQuiet(t, post, i, First(t, post, gap, i, b), faults, log, ONES, ONES);
  }

  // --- every transfer ---

  /** Of every successful transfer: all words are in; those whose transfer had not failed are, but for
      the cable's noise, words of the memory, each the word its transfer was for.  In the last burst no
      transfer failed, all were for their own words, but perhaps the first, and the check word does not
      tell its noise from none. */
  ghost predicate Success(t: Transfer, home: nat, log: seq<Got>, last: nat)
    requires 0 < t.size <= 4
  {
    && |log| == t.count && last < t.count && AllGenuine(t, log) && AllIn(log, home, t.count)
    && NoneFailed(log, last, t.count) && OwnAfter(log, last, t.count)
    && exists check :: Checks(log, t.size, last, t.count, check, check)
  }

  lemma {:induction false} RunSucceeds(t: Transfer, home: nat, post: nat, gap: nat, i: nat, errors: nat, b: Fetch,
                                       faults: seq<Fault>, log: seq<Got>)
    requires 0 < t.size <= 4 && i < t.count == |log| && home < t.count && b.e <= t.count
    requires post < MAX_READ_STATUS_WAIT && errors <= MAX_BUS_ERRORS
    requires AllGenuine(t, log) && AllIn(log, home, i) && Brings(t, b)
    ensures var r := Run(t, home, post, gap, i, errors, b, faults, log);
      && |r.log| == t.count && (r.outcome.Done? ==> Success(t, home, r.log, r.last) && r.rest.e < 0) && r.rest.left == 0
      && r.outcome != IllegalChain && (r.outcome.MaxBusErrors? ==> 0 <= r.rest.e <= t.count)
    decreases |b.answers| + |faults| + (MAX_BUS_ERRORS - errors), b.left
  {
    hide Burst, Checks, Transfer.Word, AllGenuine, AllIn, Brings, OwnAfter;
    BurstEnds(t, post, gap, i, b, faults, log);
    BurstKeeps(t, home, post, gap, i, b, faults, log);
    var r := Burst(t, post, gap, i, b, faults, log);
    if !r.stop.AllRead? {
      RunSucceeds(t, home, post, gap, r.i, errors, r.rest, r.faults, r.log);
    } else if r.host != r.unit {
      AllInLess(r.log, home, t.count, home);
      RunSucceeds(t, home, post, gap, home, errors, r.rest, r.faults, r.log);
    } else if r.rest.e >= 0 && errors < MAX_BUS_ERRORS && r.rest.e < t.count {
      AllInLess(r.log, home, t.count, r.rest.e);
      StillBrings(t, r.rest);
      RunSucceeds(t, home, post, gap, r.rest.e, errors + 1, r.rest.(e := -1), r.faults, r.log);
    }
  }

  lemma StillBrings(t: Transfer, b: Fetch)
    requires 0 < t.size <= 4 && Brings(t, b)
    ensures Brings(t, b.(e := -1))
  {
    hide Transfer.Word;
  }

  lemma AllInLess(log: seq<Got>, home: nat, i: nat, k: nat)
    requires AllIn(log, home, i) && k <= i
    ensures AllIn(log, home, k)
  {
  }

  /** However many faults befall the cable and however slow the bus: if at most one transfer fails,
      counting a failure registered before, a successful transfer holds no word of a failed one */
  lemma {:induction false} OneFailureIsRepaired(t: Transfer, home: nat, post: nat, gap: nat, i: nat, errors: nat,
                                                b: Fetch, faults: seq<Fault>, log: seq<Got>)
    requires 0 < t.size <= 4 && i < t.count == |log| && home < t.count && b.e <= t.count
    requires post < MAX_READ_STATUS_WAIT && errors <= MAX_BUS_ERRORS
    requires Covered(log, home, i, b.e) && RestBudget(b) <= 1 && AllGenuine(t, log) && AllIn(log, home, i)
    requires Brings(t, b)
    ensures var r := Run(t, home, post, gap, i, errors, b, faults, log);
      |r.log| == t.count && (r.outcome.Done? ==> NoneFailed(r.log, home, t.count))
    decreases |b.answers| + |faults| + (MAX_BUS_ERRORS - errors), b.left
  {
    hide Burst, Checks, Transfer.Word, AllGenuine, AllIn, Brings, OwnAfter;
    BurstEnds(t, post, gap, i, b, faults, log);
    BurstCovers(t, home, post, gap, i, b, faults, log);
    BurstKeeps(t, home, post, gap, i, b, faults, log);
    var r := Burst(t, post, gap, i, b, faults, log);
    if !r.stop.AllRead? {
      OneFailureIsRepaired(t, home, post, gap, r.i, errors, r.rest, r.faults, r.log);
    } else if r.host != r.unit {
      AllInLess(r.log, home, t.count, home);
      OneFailureIsRepaired(t, home, post, gap, home, errors, r.rest, r.faults, r.log);
    } else if r.rest.e >= 0 && errors < MAX_BUS_ERRORS && r.rest.e < t.count {
      AllInLess(r.log, home, t.count, r.rest.e);
      StillBrings(t, r.rest);
      OneFailureIsRepaired(t, home, post, gap, r.rest.e, errors + 1, r.rest.(e := -1), r.faults, r.log);
    }
  }

  lemma {:induction false} RunQuiet(t: Transfer, home: nat, post: nat, gap: nat, i: nat, errors: nat, b: Fetch,
                                    faults: seq<Fault>, log: seq<Got>)
    requires 0 < t.size <= 4 && i < t.count == |log| && home < t.count && b.e <= t.count
    requires post < MAX_READ_STATUS_WAIT && errors <= MAX_BUS_ERRORS
    requires Quiet(log, t.size) && NoNoise(faults)
    ensures Quiet(Run(t, home, post, gap, i, errors, b, faults, log).log, t.size)
    decreases |b.answers| + |faults| + (MAX_BUS_ERRORS - errors), b.left
  {
    hide Burst, Quiet, NoNoise;
    BurstEnds(t, post, gap, i, b, faults, log);
    BurstQuiet(t, post, gap, i, b, faults, log);
    var r := Burst(t, post, gap, i, b, faults, log);
    if !r.stop.AllRead? {
      RunQuiet(t, home, post, gap, r.i, errors, r.rest, r.faults, r.log);
    } else if r.host != r.unit {
      RunQuiet(t, home, post, gap, home, errors, r.rest, r.faults, r.log);
    } else if r.rest.e >= 0 && errors < MAX_BUS_ERRORS && r.rest.e < t.count {
      RunQuiet(t, home, post, gap, r.rest.e, errors + 1, r.rest.(e := -1), r.faults, r.log);
    }
  }

  // --- transfers that outlive their burst ---

  /** No transfer takes more than `n` clocks */
  ghost predicate Within(answers: seq<Answer>, n: nat) {
    forall i :: 0 <= i < |answers| ==> answers[i].wait <= n
  }

  /** What is in progress will be over when the next burst begins, or is for its first word anyway */
  predicate Timely(b: Fetch, gap: nat, i: nat) {
    b.left <= gap || b.of == i
  }

  /** After its own word, a module left to itself waits for transfers it asked for meanwhile */
  lemma {:induction false} CoastWithin(t: Transfer, j: nat, p: Fetch, clocks: nat, n: nat)
    requires 0 < t.size <= 4 && Within(p.answers, n)
    ensures var b := Coast(t, j, p, clocks); Within(b.answers, n) && ((clocks <= p.left && b.of == p.of) || b.left <= n + 1)
    decreases clocks
  {
    hide Transfer.Word;
    var b := Taking(j, p);
    if clocks > p.left && j + 1 < t.count && clocks - p.left - 1 >= 8 * t.size {
      CoastWithin(t, j + 1, Waited(Ask(t, j + 1, b), 8 * t.size), clocks - p.left - 1 - 8 * t.size, n);
    }
  }

  lemma {:induction false} ReadOwn(t: Transfer, post: nat, gap: nat, i: nat, p: Fetch, faults: seq<Fault>,
                                   log: seq<Got>, host: Word, unit: Word)
    requires 0 < t.size <= 4 && i < t.count == |log| && Within(p.answers, gap) && p.of == i && AllOwn(log)
    ensures var r := ReadOn(t, post, i, p, faults, log, host, unit);
      AllOwn(r.log) && Within(r.rest.answers, gap) && (!r.stop.AllRead? ==> Timely(r.rest, gap, r.i))
    decreases t.count - i
  {
    hide Transfer.Word, Coast, Fold;
    CoastWithin(t, i, p, MAX_READ_STATUS_WAIT + 4 + post, gap);
    CoastWithin(t, i, p, p.left + 8 * t.size + 4 + post, gap);
    var f := NextFault(faults);
    if p.left < MAX_READ_STATUS_WAIT && !f.Broken? {
      var mask := Mask(f, 8 * t.size);
      if i + 1 < t.count {
        ReadOwn(t, post, gap, i + 1, Waited(Ask(t, i + 1, Taking(i, p)), 8 * t.size), LaterFaults(faults),
                log[i := Got(p.word, mask, p.fail, p.of)],
                Fold(Crc.POLY, host, Xor(p.word[..8 * t.size], mask)), Fold(Crc.POLY, unit, p.word[..8 * t.size]));
      }
    }
  }

  lemma BurstOwn(t: Transfer, post: nat, gap: nat, i: nat, b: Fetch, faults: seq<Fault>, log: seq<Got>)
    requires 0 < t.size <= 4 && i < t.count == |log| && Within(b.answers, gap) && Timely(b, gap, i) && AllOwn(log)
    ensures var r := Burst(t, post, gap, i, b, faults, log);
      AllOwn(r.log) && Within(r.rest.answers, gap) && (!r.stop.AllRead? ==> Timely(r.rest, gap, r.i))
  {
    hide ReadOn, Transfer.Word, AllOwn;
    ReadOwn(t, post, gap, i, First(t, post, gap, i, b), faults, log, ONES, ONES);
  }

  /** If no transfer takes longer than it takes the host to start again, every word comes from a transfer
      of its own */
  lemma {:induction false} RunOwn(t: Transfer, home: nat, post: nat, gap: nat, i: nat, errors: nat, b: Fetch,
                                  faults: seq<Fault>, log: seq<Got>)
    requires 0 < t.size <= 4 && i < t.count == |log| && home < t.count && b.e <= t.count
    requires post < MAX_READ_STATUS_WAIT && errors <= MAX_BUS_ERRORS
    requires Within(b.answers, gap) && Timely(b, gap, i) && AllOwn(log)
    ensures AllOwn(Run(t, home, post, gap, i, errors, b, faults, log).log)
    decreases |b.answers| + |faults| + (MAX_BUS_ERRORS - errors), b.left
  {
    hide Burst, AllOwn, Within;
    BurstEnds(t, post, gap, i, b, faults, log);
    BurstOwn(t, post, gap, i, b, faults, log);
    var r := Burst(t, post, gap, i, b, faults, log);
    if !r.stop.AllRead? {
      RunOwn(t, home, post, gap, r.i, errors, r.rest, r.faults, r.log);
    } else if r.host != r.unit {
      RunOwn(t, home, post, gap, home, errors, r.rest, r.faults, r.log);
    } else if r.rest.e >= 0 && errors < MAX_BUS_ERRORS && r.rest.e < t.count {
      RunOwn(t, home, post, gap, r.rest.e, errors + 1, r.rest.(e := -1), r.faults, r.log);
    }
  }
}
