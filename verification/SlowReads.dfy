/** When every word of a successful burst read is the memory's, however slow the bus. */
module SlowReads {
  import opened Bits
  import opened ShiftRegister
  import Crc
  import opened DebugUnit
  import opened Transfers
  import opened ReadRun
  import opened ReadLaws

  /** Every word of the buffer from `home` on is the memory's */
  ghost predicate ReadsMemory(t: Transfer, home: nat, log: seq<Got>)
    requires 0 < t.size <= 4
  {
    |log| == t.count && forall k :: home <= k < t.count ==>
      log[k].Got? && |log[k].mask| == 8 * t.size && Shown(log[k], t.size) == Pack(t.Word(k))
  }

  function Blank(n: nat): (log: seq<Got>)
    ensures |log| == n && forall k :: 0 <= k < n ==> log[k] == Unread
  {
    seq(n, _ => Unread)
  }

  /** A bus at rest that shows `shown`; no error registered */
  function Still(shown: Word, answers: seq<Answer>): (b: Fetch)
    ensures b.e == -1 && b.answers == answers && b.word == shown
  {
    Fetch(0, false, shown, -1, answers, -1)
  }

  /** A transfer from the state `b` of the module that succeeds reads the memory */
  ghost predicate RightIfDone(t: Transfer, home: nat, post: nat, gap: nat, b: Fetch, faults: seq<Fault>)
    requires 0 < t.size <= 4 && home < t.count && b.e <= t.count && post < MAX_READ_STATUS_WAIT
  {
    var r := Run(t, home, post, gap, home, 0, b, faults, Blank(t.count));
    r.outcome.Done? ==> ReadsMemory(t, home, r.log)
  }

  lemma QuietSuccessReads(t: Transfer, home: nat, log: seq<Got>, last: nat)
    requires 0 < t.size <= 4 && Success(t, home, log, last) && Quiet(log, t.size) && NoneFailed(log, home, t.count)
    requires AllOwn(log)
    ensures ReadsMemory(t, home, log)
  {
    hide Transfer.Word, Checks;
    forall k | home <= k < t.count
      ensures log[k].Got? && |log[k].mask| == 8 * t.size && Shown(log[k], t.size) == Pack(t.Word(k))
    {
      assert Genuine(t, log[k]);
      WordOut(t.Word(k), t.size);
    }
  }

  lemma WordOut(w: Stream, size: nat)
    requires |w| == 8 * size && size <= 4
    ensures Pack(w)[..8 * size] == w && Xor(w, Fill(8 * size, false)) == w
  {
  }

  lemma BlankGenuine(t: Transfer, home: nat)
    requires 0 < t.size <= 4 && home < t.count
    ensures AllGenuine(t, Blank(t.count)) && AllIn(Blank(t.count), home, home) && AllOwn(Blank(t.count))
    ensures Quiet(Blank(t.count), t.size)
    ensures forall e: int :: Covered(Blank(t.count), home, home, e)
  {
    hide Transfer.Word;
  }

  /** What is left to show of a run: that every word in comes from an own transfer that did not fail */
  lemma RightFrom(t: Transfer, home: nat, post: nat, gap: nat, b: Fetch, faults: seq<Fault>)
    requires 0 < t.size <= 4 && home < t.count && b.e <= t.count && post < MAX_READ_STATUS_WAIT
    requires NoNoise(faults) && Brings(t, b)
    requires var r := Run(t, home, post, gap, home, 0, b, faults, Blank(t.count));
      r.outcome.Done? ==> NoneFailed(r.log, home, t.count) && AllOwn(r.log)
    ensures RightIfDone(t, home, post, gap, b, faults)
  {
    hide Run, Success, AllGenuine, AllIn, AllOwn, Quiet, Brings, Covered, NoneFailed;
    var log := Blank(t.count);
    BlankGenuine(t, home);
    RunSucceeds(t, home, post, gap, home, 0, b, faults, log);
    RunQuiet(t, home, post, gap, home, 0, b, faults, log);
    var r := Run(t, home, post, gap, home, 0, b, faults, log);
    if r.outcome.Done? { QuietSuccessReads(t, home, r.log, r.last); }
  }

  /** At most one failing transfer, none that outlives its burst, no silent noise: the buffer is the
      memory */
  lemma PromptReads(t: Transfer, home: nat, post: nat, gap: nat, b: Fetch, faults: seq<Fault>)
    requires 0 < t.size <= 4 && home < t.count && b.e <= t.count && post < MAX_READ_STATUS_WAIT
    requires RestBudget(b) <= 1 && NoNoise(faults) && Brings(t, b) && Within(b.answers, gap) && Timely(b, gap, home)
    ensures RightIfDone(t, home, post, gap, b, faults)
  {
    hide Run, AllGenuine, AllIn, AllOwn, Brings, Covered, NoneFailed, Quiet;
    var log := Blank(t.count);
    BlankGenuine(t, home);
    OneFailureIsRepaired(t, home, post, gap, home, 0, b, faults, log);
    RunOwn(t, home, post, gap, home, 0, b, faults, log);
    RightFrom(t, home, post, gap, b, faults);
  }

  // --- slower transfers ---

  /** Even with transfers of `n` clocks a burst given up for being late leaves none in progress for
      another word than the one it is to start with */
  predicate Quick(n: nat, gap: nat) {
    n + (if n < MAX_READ_STATUS_WAIT + 4 then n else MAX_READ_STATUS_WAIT + 4) <= gap + MAX_READ_STATUS_WAIT + 4
  }

  /** The module takes no third word before it is stopped */
  predicate Short(t: Transfer, j: nat, p: Fetch, clocks: nat) {
    clocks > p.left ==> clocks - p.left - 1 <= 8 * t.size || j + 2 >= t.count
  }

  /** Then what is in progress is for the word it was waiting for, or was asked for since */
  lemma CutSoon(t: Transfer, j: nat, p: Fetch, clocks: nat, n: nat)
    requires 0 < t.size <= 4 && Within(p.answers, n) && Short(t, j, p, clocks)
    ensures var b := Cut(t, j, p, clocks);
      && Within(b.answers, n)
      && if clocks <= p.left then b.of == p.of && (b.left == 0 || b.left + clocks < p.left)
         else b.left == 0 || b.left + (clocks - p.left - 1) <= n
  {
    hide Transfer.Word, Coast;
    CoastOnce(t, j, p, clocks);
    if clocks > p.left {
      var q := Ask(t, j + 1, Taking(j, p));
      var more := clocks - p.left - 1;
      if more >= 8 * t.size && j + 1 < t.count { CoastOnce(t, j + 1, Waited(q, 8 * t.size), more - 8 * t.size); }
    }
  }

  lemma CoastOnce(t: Transfer, j: nat, p: Fetch, clocks: nat)
    requires 0 < t.size <= 4
    ensures var b := Taking(j, p); var more := clocks - p.left - 1; var q := Ask(t, j + 1, b);
      Coast(t, j, p, clocks) ==
      if clocks <= p.left then Waited(p, clocks) else if j + 1 >= t.count then b
      else if more < 8 * t.size then Waited(q, more)
      else Coast(t, j + 1, Waited(q, 8 * t.size), more - 8 * t.size)
  {
    hide Transfer.Word, Ask;
  }

  /** How long a word can still be awaited when transfers take at most `n` clocks */
  predicate Awaited(p: Fetch, n: nat, post: nat) {
    p.left <= post || p.left < n + post
  }

  lemma AskAwaited(t: Transfer, j: nat, b: Fetch, n: nat, post: nat)
    requires 0 < t.size <= 4 && Within(b.answers, n)
    ensures var q := Ask(t, j, b);
      Within(q.answers, n) && Awaited(Waited(q, 8 * t.size), n, post) && q.e == b.e && q.of == j
  {
    hide Transfer.Word;
  }

  /** A burst never times out, or stops before a third word and is quick */
  predicate Tame(t: Transfer, post: nat, gap: nat, n: nat) {
    n + post <= MAX_READ_STATUS_WAIT || (Quick(n, gap) && (post + 2 < 8 * t.size || t.count <= 2))
  }

  /** The same of a burst given up for a reported error */
  ghost predicate Safe(t: Transfer, gap: nat, n: nat, faults: seq<Fault>) {
    NoReports(faults) || (t.count <= 2 && n < gap + 8 * t.size + 4)
  }

  lemma TimeoutSoon(t: Transfer, post: nat, gap: nat, n: nat, i: nat, p: Fetch)
    requires 0 < t.size <= 4 && i < t.count && Within(p.answers, n) && p.of == i && Awaited(p, n, post)
    requires Tame(t, post, gap, n)
    requires p.left >= MAX_READ_STATUS_WAIT > post
    ensures var b := Cut(t, i, p, MAX_READ_STATUS_WAIT + 4 + post); Within(b.answers, n) && Timely(b, gap, i) && b.left <= n
  {
    hide Cut;
    CutSoon(t, i, p, MAX_READ_STATUS_WAIT + 4 + post, n);
  }

  lemma LostSoon(t: Transfer, post: nat, gap: nat, n: nat, i: nat, p: Fetch)
    requires 0 < t.size <= 4 && i < t.count <= 2 && Within(p.answers, n) && n < gap + 8 * t.size + 4
    ensures var b := Cut(t, i, p, p.left + 8 * t.size + 4 + post); Within(b.answers, n) && Timely(b, gap, i) && b.left <= n
  {
    hide Cut;
    CutSoon(t, i, p, p.left + 8 * t.size + 4 + post, n);
  }

  lemma {:induction false} ReadSoon(t: Transfer, post: nat, gap: nat, n: nat, i: nat, p: Fetch, faults: seq<Fault>,
                                    log: seq<Got>, host: Word, unit: Word)
    requires 0 < t.size <= 4 && i < t.count == |log| && post < MAX_READ_STATUS_WAIT && AllOwn(log)
    requires Within(p.answers, n) && p.of == i && Awaited(p, n, post) && Tame(t, post, gap, n)
    requires Safe(t, gap, n, faults)
    ensures var r := ReadOn(t, post, i, p, faults, log, host, unit);
      && AllOwn(r.log) && Within(r.rest.answers, n) && r.rest.left <= n && Safe(t, gap, n, r.faults)
      && (!r.stop.AllRead? ==> Timely(r.rest, gap, r.i))
    decreases t.count - i
  {
    hide Transfer.Word, Coast, Fold, Cut, Tame, Ask;
    var f := NextFault(faults);
    if p.left >= MAX_READ_STATUS_WAIT {
      TimeoutSoon(t, post, gap, n, i, p);
    } else if f.Broken? {
      LostSoon(t, post, gap, n, i, p);
    } else {
      var mask := Mask(f, 8 * t.size);
      if i + 1 < t.count {
        var q := Ask(t, i + 1, Taking(i, p));
        AskAwaited(t, i + 1, Taking(i, p), n, post);
        ReadSoon(t, post, gap, n, i + 1, Waited(q, 8 * t.size), LaterFaults(faults),
                 log[i := Got(p.word, mask, p.fail, p.of)],
                 Fold(Crc.POLY, host, Xor(p.word[..8 * t.size], mask)), Fold(Crc.POLY, unit, p.word[..8 * t.size]));
      }
    }
  }

  lemma BurstSoon(t: Transfer, post: nat, gap: nat, n: nat, i: nat, b: Fetch, faults: seq<Fault>, log: seq<Got>)
    requires 0 < t.size <= 4 && i < t.count == |log| && post < MAX_READ_STATUS_WAIT && AllOwn(log)
    requires Within(b.answers, n) && Timely(b, gap, i) && b.left <= n && Tame(t, post, gap, n)
    requires Safe(t, gap, n, faults)
    ensures var r := Burst(t, post, gap, i, b, faults, log);
      && AllOwn(r.log) && Within(r.rest.answers, n) && r.rest.left <= n && Safe(t, gap, n, r.faults)
      && (!r.stop.AllRead? ==> Timely(r.rest, gap, r.i))
  {
    hide ReadOn, Transfer.Word, AllOwn, Tame, Safe;
    ReadSoon(t, post, gap, n, i, First(t, post, gap, i, b), faults, log, ONES, ONES);
  }

  lemma {:induction false} RunSoon(t: Transfer, home: nat, post: nat, gap: nat, n: nat, i: nat, errors: nat, b: Fetch,
                                   faults: seq<Fault>, log: seq<Got>)
    requires 0 < t.size <= 4 && i < t.count == |log| && home < t.count && b.e <= t.count
    requires post < MAX_READ_STATUS_WAIT && errors <= MAX_BUS_ERRORS && AllOwn(log)
    requires Within(b.answers, n) && Timely(b, gap, i) && b.left <= n && Tame(t, post, gap, n)
    requires Safe(t, gap, n, faults)
    ensures AllOwn(Run(t, home, post, gap, i, errors, b, faults, log).log)
    decreases |b.answers| + |faults| + (MAX_BUS_ERRORS - errors), b.left
  {
    hide Burst, AllOwn, Within, Tame, Safe;
    BurstEnds(t, post, gap, i, b, faults, log);
    BurstSoon(t, post, gap, n, i, b, faults, log);
    var r := Burst(t, post, gap, i, b, faults, log);
    if !r.stop.AllRead? {
      RunSoon(t, home, post, gap, n, r.i, errors, r.rest, r.faults, r.log);
    } else if r.host != r.unit {
      RunSoon(t, home, post, gap, n, home, errors, r.rest, r.faults, r.log);
    } else if r.rest.e >= 0 && errors < MAX_BUS_ERRORS && r.rest.e < t.count {
      RunSoon(t, home, post, gap, n, r.rest.e, errors + 1, r.rest.(e := -1), r.faults, r.log);
    }
  }

  // --- a clean cable ---

  /** Nothing befalls the words that the check word would show */
  ghost predicate Calmly(faults: seq<Fault>) {
    NoNoise(faults) && NoReports(faults)
  }

  /** Nothing is missed while a burst that times out is stopped before it takes another word */
  lemma CutCovers(t: Transfer, i: nat, p: Fetch, post: nat)
    requires 0 < t.size <= 4 && p.left >= MAX_READ_STATUS_WAIT && post + 2 < 8 * t.size
    ensures var b := Cut(t, i, p, MAX_READ_STATUS_WAIT + 4 + post); b.e == p.e || (p.e < 0 && b.e == i)
  {
    hide Transfer.Word, Coast;
    var clocks := MAX_READ_STATUS_WAIT + 4 + post;
    CoastOnce(t, i, p, clocks);
    if clocks > p.left && i + 1 < t.count && clocks - p.left - 1 == 8 * t.size {
      CoastOnce(t, i + 1, Waited(Ask(t, i + 1, Taking(i, p)), 8 * t.size), 0);
    }
  }

  lemma {:induction false} ReadCalmly(t: Transfer, home: nat, post: nat, n: nat, i: nat, p: Fetch, faults: seq<Fault>,
                                      log: seq<Got>, c: Word)
    requires 0 < t.size <= 4 && i < t.count == |log| && Covered(log, home, i, p.e) && p.e <= i
    requires Calmly(faults) && Within(p.answers, n) && Awaited(p, n, post)
    requires n + post <= MAX_READ_STATUS_WAIT || post + 2 < 8 * t.size
    requires post < MAX_READ_STATUS_WAIT
    ensures var r := ReadOn(t, post, i, p, faults, log, c, c);
      && |r.log| == t.count && Covered(r.log, home, r.i, r.rest.e) && r.rest.e <= r.i && r.host == r.unit && Calmly(r.faults)
    decreases t.count - i
  {
    hide Transfer.Word, Coast, Fold, Cut, Ask, Within;
    if p.left >= MAX_READ_STATUS_WAIT {
      CutCovers(t, i, p, post);
    } else {
      var f := NextFault(faults);
      var mask := Mask(f, 8 * t.size);
      NoMask(p.word[..8 * t.size]);
      if i + 1 < t.count {
        var q := Ask(t, i + 1, Taking(i, p));
        AskAwaited(t, i + 1, Taking(i, p), n, post);
        ReadCalmly(t, home, post, n, i + 1, Waited(q, 8 * t.size), LaterFaults(faults),
                  log[i := Got(p.word, mask, p.fail, p.of)], Fold(Crc.POLY, c, p.word[..8 * t.size]));
      }
    }
  }

  /** However the bus fails, nothing is missed on a clean cable if a burst that times out cannot run into
      another word, or none times out */
  lemma {:induction false} RunCalmly(t: Transfer, home: nat, post: nat, gap: nat, n: nat, i: nat, errors: nat,
                                     b: Fetch, faults: seq<Fault>, log: seq<Got>)
    requires 0 < t.size <= 4 && i < t.count == |log| && home < t.count && b.e <= t.count
    requires post < MAX_READ_STATUS_WAIT && errors <= MAX_BUS_ERRORS
    requires Covered(log, home, i, b.e) && b.e <= i && Calmly(faults) && AllOwn(log)
    requires Within(b.answers, n) && Timely(b, gap, i) && b.left <= n && Tame(t, post, gap, n)
    requires n + post <= MAX_READ_STATUS_WAIT || post + 2 < 8 * t.size
    ensures var r := Run(t, home, post, gap, i, errors, b, faults, log);
      |r.log| == t.count && (r.outcome.Done? ==> NoneFailed(r.log, home, t.count))
    decreases |b.answers| + |faults| + (MAX_BUS_ERRORS - errors), b.left
  {
    hide Burst, Calmly, AllOwn, Within, Tame, Safe;
    BurstEnds(t, post, gap, i, b, faults, log);
    BurstCalmly(t, home, post, gap, n, i, b, faults, log);
    CalmlySafe(t, gap, n, faults);
    BurstSoon(t, post, gap, n, i, b, faults, log);
    var r := Burst(t, post, gap, i, b, faults, log);
    if !r.stop.AllRead? {
      RunCalmly(t, home, post, gap, n, r.i, errors, r.rest, r.faults, r.log);
    } else if r.rest.e >= 0 && errors < MAX_BUS_ERRORS && r.rest.e < t.count {
      RunCalmly(t, home, post, gap, n, r.rest.e, errors + 1, r.rest.(e := -1), r.faults, r.log);
    }
  }

  lemma CalmlySafe(t: Transfer, gap: nat, n: nat, faults: seq<Fault>)
    requires Calmly(faults)
    ensures Safe(t, gap, n, faults)
  {
  }

  lemma BurstCalmly(t: Transfer, home: nat, post: nat, gap: nat, n: nat, i: nat, b: Fetch, faults: seq<Fault>,
                    log: seq<Got>)
    requires 0 < t.size <= 4 && i < t.count == |log| && Covered(log, home, i, b.e) && b.e <= i
    requires Calmly(faults) && Within(b.answers, n) && b.left <= n && post < MAX_READ_STATUS_WAIT
    requires n + post <= MAX_READ_STATUS_WAIT || post + 2 < 8 * t.size
    ensures var r := Burst(t, post, gap, i, b, faults, log);
      && |r.log| == t.count && Covered(r.log, home, r.i, r.rest.e) && r.rest.e <= r.i && r.host == r.unit && Calmly(r.faults)
  {
    hide ReadOn, Transfer.Word, Calmly;
    ReadCalmly(t, home, post, n, i, First(t, post, gap, i, b), faults, log, ONES);
  }

  // --- a single word ---

  /** Nor is anything missed of a single word, whatever happens */
  lemma {:induction false} RunSingle(t: Transfer, post: nat, gap: nat, errors: nat, b: Fetch, faults: seq<Fault>,
                                     log: seq<Got>)
    requires 0 < t.size <= 4 && t.count == |log| == 1 && b.e < 1 && post < MAX_READ_STATUS_WAIT
    requires errors <= MAX_BUS_ERRORS
    requires Timely(b, gap, 0) && AllOwn(log)
    ensures var r := Run(t, 0, post, gap, 0, errors, b, faults, log);
      |r.log| == t.count && AllOwn(r.log) && (r.outcome.Done? ==> NoneFailed(r.log, 0, 1))
    decreases |b.answers| + |faults| + (MAX_BUS_ERRORS - errors), b.left
  {
    hide Burst;
    BurstEnds(t, post, gap, 0, b, faults, log);
    BurstSingle(t, post, gap, b, faults, log);
    var r := Burst(t, post, gap, 0, b, faults, log);
    if !r.stop.AllRead? {
      RunSingle(t, post, gap, errors, r.rest, r.faults, r.log);
    } else if r.host != r.unit {
      RunSingle(t, post, gap, errors, r.rest, r.faults, r.log);
    } else if r.rest.e >= 0 && errors < MAX_BUS_ERRORS {
      RunSingle(t, post, gap, errors + 1, r.rest.(e := -1), r.faults, r.log);
    }
  }

  lemma BurstSingle(t: Transfer, post: nat, gap: nat, b: Fetch, faults: seq<Fault>, log: seq<Got>)
    requires 0 < t.size <= 4 && t.count == |log| == 1 && Timely(b, gap, 0) && AllOwn(log) && b.e < 1
    ensures var r := Burst(t, post, gap, 0, b, faults, log);
      && |r.log| == 1 && AllOwn(r.log) && Timely(r.rest, gap, 0) && r.rest.e < 1
      && (r.stop.AllRead? ==> r.log[0].Got? && (r.log[0].fail ==> r.rest.e >= 0))
  {
    hide Transfer.Word, Fold;
  }
}
