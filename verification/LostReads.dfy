/** How a burst read can succeed over words it did not read, and exactly when. */
module LostReads {
  import opened Bits
  import opened ShiftRegister
  import Crc
  import opened DebugUnit
  import opened Transfers
  import opened ReadRun
  import opened ReadLaws
  import opened SlowReads

  // --- idle runs ---

  /** `log` with the memory's words from `i` on */
  function Filled(t: Transfer, log: seq<Got>, i: nat): (r: seq<Got>)
    requires 0 < t.size <= 4
    ensures |r| == |log|
    ensures forall k :: 0 <= k < |log| ==> r[k] == if k < i then log[k] else Got(Pack(t.Word(k)), Fill(8 * t.size, false), false, k)
  {
    seq(|log|, k requires 0 <= k < |log| => if k < i then log[k] else Got(Pack(t.Word(k)), Fill(8 * t.size, false), false, k))
  }

  /** A module that has asked for a word of a bus that goes on at once */
  predicate Prompt(p: Fetch) {
    p.left < MAX_READ_STATUS_WAIT && !p.fail && p.answers == []
  }

  lemma AskIdle(t: Transfer, j: nat, b: Fetch)
    requires 0 < t.size <= 4 && b.answers == []
    ensures var p := Ask(t, j, b); p == Fetch(1, false, Pack(t.Word(j)), j, [], b.e)
  {
    hide Transfer.Word;
  }

  /** On such a bus and a clean cable a burst simply reads on to the end, whatever the first word is */
  lemma {:induction false} IdleRead(t: Transfer, post: nat, i: nat, p: Fetch, log: seq<Got>, c: Word)
    requires 0 < t.size <= 4 && i < t.count == |log| && Prompt(p)
    ensures var r := ReadOn(t, post, i, p, [], log, c, c);
      && r.stop.AllRead? && r.i == t.count && r.faults == [] && r.host == r.unit
      && r.rest.left == 0 && !r.rest.fail && r.rest.answers == [] && r.rest.e == p.e
      && r.log == Filled(t, log[i := Got(p.word, Fill(8 * t.size, false), false, p.of)], i + 1)
    decreases t.count - i
  {
    hide Transfer.Word, Coast, Fold, Ask;
    var mask := Fill(8 * t.size, false);
    var g := Got(p.word, mask, false, p.of);
    NoMask(p.word[..8 * t.size]);
    var log1 := log[i := g];
    if i + 1 < t.count {
      AskIdle(t, i + 1, Taking(i, p));
      var q := Waited(Ask(t, i + 1, Taking(i, p)), 8 * t.size);
      IdleRead(t, post, i + 1, q, log1, Fold(Crc.POLY, c, p.word[..8 * t.size]));
      assert Filled(t, log1[i + 1 := Got(q.word, mask, false, q.of)], i + 2) == Filled(t, log1, i + 1);
    } else {
      assert Filled(t, log1, i + 1) == log1;
    }
  }

  lemma IdleBurst(t: Transfer, post: nat, gap: nat, i: nat, b: Fetch, log: seq<Got>)
    requires 0 < t.size <= 4 && i < t.count == |log| && post < MAX_READ_STATUS_WAIT && b.answers == [] && b.left <= gap
    ensures var r := Burst(t, post, gap, i, b, [], log);
      && r.stop.AllRead? && r.i == t.count && r.faults == [] && r.host == r.unit
      && r.rest.left == 0 && !r.rest.fail && r.rest.answers == [] && r.rest.e == b.e && r.log == Filled(t, log, i)
  {
    hide Transfer.Word, ReadOn, Ask;
    AskIdle(t, i, b);
    var p := First(t, post, gap, i, b);
    IdleRead(t, post, i, p, log, ONES);
    assert Filled(t, log[i := Got(p.word, Fill(8 * t.size, false), false, p.of)], i + 1) == Filled(t, log, i);
  }

  /** And so does a transfer, again from the word the error register names, if any */
  lemma IdleRun(t: Transfer, home: nat, post: nat, gap: nat, i: nat, errors: nat, b: Fetch, log: seq<Got>)
    requires 0 < t.size <= 4 && i < t.count == |log| && home < t.count && post < MAX_READ_STATUS_WAIT
    requires b.answers == [] && b.left <= gap && b.e < t.count && errors < MAX_BUS_ERRORS
    ensures var r := Run(t, home, post, gap, i, errors, b, [], log);
      r.outcome.Done? && r.log == (if b.e < 0 then Filled(t, log, i) else Filled(t, Filled(t, log, i), b.e))
  {
    hide Transfer.Word, Burst, Filled;
    IdleBurst(t, post, gap, i, b, log);
    if b.e >= 0 {
      var r := Burst(t, post, gap, i, b, [], log);
      IdleBurst(t, post, gap, b.e, r.rest.(e := -1), Filled(t, log, i));
    }
  }

  // --- a word read for another ---

  /** A transfer that outlives its burst: what it brings is taken for the word the next one starts with */
  lemma StaleRun(t: Transfer, home: nat, post: nat, gap: nat, errors: nat, i: nat, b: Fetch, log: seq<Got>)
    requires 0 < t.size <= 4 && i < t.count == |log| && home < t.count && post < MAX_READ_STATUS_WAIT
    requires errors < MAX_BUS_ERRORS
    requires b.answers == [] && b.e == -1 && !b.fail && gap < b.left < gap + 3 + MAX_READ_STATUS_WAIT - post
    ensures var r := Run(t, home, post, gap, i, errors, b, [], log);
      && r.outcome.Done? && |r.log| == t.count && r.log[i] == Got(b.word, Fill(8 * t.size, false), false, b.of)
  {
    hide Transfer.Word, ReadOn;
    var p := First(t, post, gap, i, b);
    IdleRead(t, post, i, p, log, ONES);
  }

  /** The clocks run on into the next word, which the bus is still busy with at the end */
  lemma CoastAsks(t: Transfer, j: nat, p: Fetch, clocks: nat)
    requires 0 < t.size <= 4 && j + 1 < t.count && clocks > p.left
    requires clocks - p.left - 1 <= NextAnswer(p.answers).wait + 1
    ensures Coast(t, j, p, clocks) == Waited(Ask(t, j + 1, Taking(j, p)), clocks - p.left - 1)
  {
    hide Transfer.Word;
    CoastOnce(t, j, p, clocks);
    var more := clocks - p.left - 1;
    if more >= 8 * t.size { CoastOnce(t, j + 1, Waited(Ask(t, j + 1, Taking(j, p)), 8 * t.size), more - 8 * t.size); }
  }

  lemma AskNext(t: Transfer, j: nat, b: Fetch, a: Answer, more: seq<Answer>)
    requires 0 < t.size <= 4 && b.answers == [a] + more
    ensures Ask(t, j, b) == Fetch(a.wait + 1, a.err, if a.err then b.word else Pack(t.Word(j)), j, more, b.e)
  {
    hide Transfer.Word;
    assert ([a] + more)[1..] == more;
  }

  lemma FirstIs(t: Transfer, post: nat, gap: nat, b: Fetch, a: Answer, more: seq<Answer>)
    requires 0 < t.size <= 4 && b.answers == [a] + more && b.left <= gap
    ensures First(t, post, gap, 0, b)
         == Fetch((if a.wait > 0 then a.wait - 1 else 0) + post, a.err, if a.err then b.word else Pack(t.Word(0)), 0, more, b.e)
  {
    hide Transfer.Word;
    AskNext(t, 0, b, a, more);
    hide Ask;
  }

  /** The host gives up just as the first word comes in, and the second takes its time: a successful
      transfer, on a clean cable and without a failure, whose first word is the second */
  lemma SwappedRun(t: Transfer, post: nat, gap: nat, v: nat, w: nat, shown: Word)
    requires 0 < t.size <= 4 && t.count >= 2 && post < MAX_READ_STATUS_WAIT
    requires MAX_READ_STATUS_WAIT < v + post && v <= MAX_READ_STATUS_WAIT + 4
    requires gap + MAX_READ_STATUS_WAIT + 4 < v + w < gap + 2 * MAX_READ_STATUS_WAIT + 7 - post
    ensures var r := Run(t, 0, post, gap, 0, 0, Still(shown, [Answer(v, false), Answer(w, false)]), [], Blank(t.count));
      && r.outcome.Done? && |r.log| == t.count && r.log[0] == Got(Pack(t.Word(1)), Fill(8 * t.size, false), false, 1)
  {
    hide Transfer.Word, Ask, Coast, First;
    Limits();
    var b, log := Still(shown, [Answer(v, false), Answer(w, false)]), Blank(t.count);
    assert b.answers == [Answer(v, false)] + [Answer(w, false)] && [Answer(w, false)] == [Answer(w, false)] + [];
    FirstIs(t, post, gap, b, Answer(v, false), [Answer(w, false)]);
    var p := First(t, post, gap, 0, b);
    CoastAsks(t, 0, p, MAX_READ_STATUS_WAIT + 4 + post);
    AskNext(t, 1, Taking(0, p), Answer(w, false), []);
    hide ReadOn, Run;
    SwappedBurst(t, post, gap, b, log);
    var c := Cut(t, 0, p, MAX_READ_STATUS_WAIT + 4 + post);
    StaleRun(t, 0, post, gap, 0, 0, c, log);
  }

  lemma SwappedBurst(t: Transfer, post: nat, gap: nat, b: Fetch, log: seq<Got>)
    requires 0 < t.size <= 4 && 0 < t.count == |log| && post < MAX_READ_STATUS_WAIT && b.e == -1
    requires First(t, post, gap, 0, b).left >= MAX_READ_STATUS_WAIT
    ensures var c := Cut(t, 0, First(t, post, gap, 0, b), MAX_READ_STATUS_WAIT + 4 + post);
      c.e <= t.count && Run(t, 0, post, gap, 0, 0, b, [], log) == Run(t, 0, post, gap, 0, 0, c, [], log)
  {
    hide Transfer.Word, First, Cut;
    Limits();
    BurstEnds(t, post, gap, 0, b, [], log);
  }

  /** For one: a single device, a target with 4 instruction bits, two words, the bus taking 102 clocks
      for the first and 150 for the second */
  lemma SwappedPair(mem: Memory, start: nat, shown: Word)
    ensures var t := Transfer(mem, start, 4, 2);
      var r := Run(t, 0, 0, 83, 0, 0, Still(shown, [Answer(102, false), Answer(150, false)]), [], Blank(2));
      && r.outcome.Done? && |r.log| == 2 && r.log[0].Got? && Shown(r.log[0], 4) == Pack(t.Word(1))
  {
    hide *;
    Limits();
    var t := Transfer(mem, start, 4, 2);
    SwappedRun(t, 0, 83, 102, 150, shown);
    WordOut(t.Word(1), 4);
    ShownWord(t.Word(1), 4, 1);
  }

  lemma ShownWord(w: Stream, size: nat, of: int)
    requires |w| == 8 * size && size <= 4
    ensures Shown(Got(Pack(w), Fill(8 * size, false), false, of), size) == Pack(w)
  {
    WordOut(w, size);
  }

  // --- a word whose failure is missed ---

  const OK: Answer := Answer(0, false)
  const BAD: Answer := Answer(0, true)

  /** `m` transfers that go well at once, then `more` */
  function Oks(m: nat, more: seq<Answer>): (a: seq<Answer>)
    decreases m
  {
    if m == 0 then more else [OK] + Oks(m - 1, more)
  }

  /** How many more words a module asks for in so many clocks, if they come at once */
  function Asks(t: Transfer, j: nat, left: nat, clocks: nat): nat
    decreases clocks
  {
    if clocks <= left || j + 1 >= t.count then 0
    else if clocks - left - 1 < 8 * t.size then 1
    else 1 + Asks(t, j + 1, 0, clocks - left - 1 - 8 * t.size)
  }

  /** It takes the word it waits for, and then shows that word or a later one */
  lemma {:induction false} CoastFine(t: Transfer, j: nat, p: Fetch, clocks: nat, more: seq<Answer>)
    requires 1 <= t.size <= 4 && clocks > p.left && p.answers == Oks(Asks(t, j, p.left, clocks), more)
    ensures var b := Coast(t, j, p, clocks);
      && b.left <= 1 && b.answers == more && b.e == Taking(j, p).e
      && if j + 1 >= t.count then b.word == p.word && b.of == p.of else j < b.of < t.count && b.word == Pack(t.Word(b.of))
    decreases clocks
  {
    hide Transfer.Word, Ask, Coast;
    CoastOnce(t, j, p, clocks);
    if j + 1 < t.count {
      var n := Asks(t, j, p.left, clocks);
      AskNext(t, j + 1, Taking(j, p), OK, Oks(n - 1, more));
      var q := Waited(Ask(t, j + 1, Taking(j, p)), 8 * t.size);
      var rest := clocks - p.left - 1 - 8 * t.size;
      if rest > 0 {
        CoastFine(t, j + 1, q, rest, more);
      } else if rest == 0 {
        CoastOnce(t, j + 1, q, 0);
      }
    }
  }

  /** The answers a burst uses up that is given up at its first word, `clocks` clocks after the word
      came in: the second word's is `second` */
  function Ahead(t: Transfer, first: Answer, second: Answer, clocks: nat, more: seq<Answer>): seq<Answer> {
    [first] + ([second] + Oks(Asks(t, 1, 0, clocks), more))
  }

  /** A module that ran on over its second word, brought to rest */
  ghost predicate RanOn(t: Transfer, p: Fetch, second: Answer, b: Fetch, more: seq<Answer>)
    requires 0 < t.size <= 4
  {
    && b.left == 0 && b.answers == more && b.e == (if second.err && p.e < 0 then 1 else p.e)
    && (!second.err || t.count > 2 ==> 1 <= b.of < t.count && b.word == Pack(t.Word(b.of)))
  }

  lemma CutAhead(t: Transfer, p: Fetch, second: Answer, clocks: nat, more: seq<Answer>)
    requires 1 <= t.size <= 4 && t.count >= 2 && second.wait == 0 && !p.fail && clocks > 0
    requires p.answers == [second] + Oks(Asks(t, 1, 0, clocks), more)
    ensures RanOn(t, p, second, Cut(t, 0, p, p.left + 1 + 8 * t.size + clocks), more)
  {
    hide Transfer.Word, Ask, Coast;
    CoastOnce(t, 0, p, p.left + 1 + 8 * t.size + clocks);
    AskNext(t, 1, Taking(0, p), second, Oks(Asks(t, 1, 0, clocks), more));
    var q := Waited(Ask(t, 1, Taking(0, p)), 8 * t.size);
    CoastFine(t, 1, q, clocks, more);
  }

  /** The bus just slow enough for the host to give up as the first word comes in */
  function Late(post: nat): Answer
    requires post < MAX_READ_STATUS_WAIT
  {
    Answer(MAX_READ_STATUS_WAIT + 1 - post, false)
  }

  /** Given up for being late, behind enough devices */
  lemma LateBurst(t: Transfer, post: nat, gap: nat, b: Fetch, second: Answer, more: seq<Answer>, log: seq<Got>)
    requires 1 <= t.size <= 4 && t.count >= 2 && |log| == t.count && second.wait == 0 && b.left <= gap
    requires post < MAX_READ_STATUS_WAIT && 8 * t.size <= post + 2
    requires b.answers == Ahead(t, Late(post), second, post + 3 - 8 * t.size, more)
    ensures var r := Burst(t, post, gap, 0, b, [], log);
      r == Progress(TimedOut, 0, r.rest, [], log, ONES, ONES) && RanOn(t, b, second, r.rest, more)
  {
    hide Transfer.Word, Ask, Coast, First, Cut, Asks, Oks;
    var after := [second] + Oks(Asks(t, 1, 0, post + 3 - 8 * t.size), more);
    FirstIs(t, post, gap, b, Late(post), after);
    CutAhead(t, First(t, post, gap, 0, b), second, post + 3 - 8 * t.size, more);
  }

  /** Given up for a reported error */
  lemma LostBurst(t: Transfer, gap: nat, b: Fetch, second: Answer, more: seq<Answer>, log: seq<Got>, bits: Stream,
                  later: seq<Fault>)
    requires 1 <= t.size <= 4 && t.count >= 2 && |log| == t.count && second.wait == 0 && b.left <= gap
    requires b.answers == Ahead(t, OK, second, 3, more)
    ensures var r := Burst(t, 0, gap, 0, b, [Broken(bits)] + later, log);
      r == Progress(Lost, 0, r.rest, later, log, ONES, ONES) && RanOn(t, b, second, r.rest, more)
  {
    hide Transfer.Word, Ask, Coast, First, Cut, Asks, Oks;
    var after := [second] + Oks(Asks(t, 1, 0, 3), more);
    FirstIs(t, 0, gap, b, OK, after);
    assert ([Broken(bits)] + later)[1..] == later;
    CutAhead(t, First(t, 0, gap, 0, b), second, 3, more);
  }

  /** The first word's transfer fails while the error register holds on to the second's: the burst
      goes through, starts again at the second word, and succeeds */
  lemma Missed(t: Transfer, post: nat, gap: nat, b: Fetch, log: seq<Got>)
    requires 1 <= t.size <= 4 && t.count >= 2 && |log| == t.count && post < MAX_READ_STATUS_WAIT
    requires b.left == 0 && b.answers == [BAD] && b.e == 1
    ensures var r := Run(t, 0, post, gap, 0, 0, b, [], log);
      && r.outcome.Done? && |r.log| == t.count && r.log[0] == Got(b.word, Fill(8 * t.size, false), true, 0)
  {
    hide Transfer.Word, Burst, Filled;
    Limits();
    MissedBurst(t, post, gap, b, log);
    var r := Burst(t, post, gap, 0, b, [], log);
    BurstEnds(t, post, gap, 0, b, [], log);
    IdleRun(t, 0, post, gap, 1, 1, r.rest.(e := -1), r.log);
    FilledFirst(t, r.log);
  }

  lemma FilledFirst(t: Transfer, log: seq<Got>)
    requires 0 < t.size <= 4 && |log| > 0
    ensures Filled(t, log, 1)[0] == log[0]
  {
    hide Transfer.Word;
  }

  lemma MissedBurst(t: Transfer, post: nat, gap: nat, b: Fetch, log: seq<Got>)
    requires 1 <= t.size <= 4 && t.count >= 2 && |log| == t.count && post < MAX_READ_STATUS_WAIT
    requires b.left == 0 && b.answers == [BAD] && b.e == 1
    ensures var r := Burst(t, post, gap, 0, b, [], log);
      && r.stop.AllRead? && r.host == r.unit && r.rest.left == 0 && r.rest.answers == [] && r.rest.e == 1 && r.faults == []
      && |r.log| == t.count && r.log[0] == Got(b.word, Fill(8 * t.size, false), true, 0)
  {
    hide Transfer.Word, Ask, Coast, First, Filled, Fold;
    var mask := Fill(8 * t.size, false);
    assert [BAD] == [BAD] + [];
    FirstIs(t, post, gap, b, BAD, []);
    var p := First(t, post, gap, 0, b);
    NoMask(b.word[..8 * t.size]);
    AskIdle(t, 1, Taking(0, p));
    var log1 := log[0 := Got(b.word, mask, true, 0)];
    var q := Waited(Ask(t, 1, Taking(0, p)), 8 * t.size);
    IdleRead(t, post, 1, q, log1, Fold(Crc.POLY, ONES, b.word[..8 * t.size]));
    FilledTwo(t, log1, Got(q.word, mask, false, q.of));
  }

  lemma FilledTwo(t: Transfer, log: seq<Got>, g: Got)
    requires 0 < t.size <= 4 && |log| > 1
    ensures Filled(t, log[1 := g], 2)[0] == log[0]
  {
    hide Transfer.Word;
  }

  /** The answers that make a word be missed: the second fails, later the first */
  function Trap(t: Transfer, first: Answer, clocks: nat): seq<Answer> {
    Ahead(t, first, BAD, clocks, Ahead(t, first, OK, clocks, [BAD]))
  }

  /** What the buffer then holds for the first word: another one of the memory */
  ghost predicate HoldsOther(t: Transfer, log: seq<Got>)
    requires 0 < t.size <= 4
  {
    && |log| == t.count > 0 && log[0].Got? && log[0].mask == Fill(8 * t.size, false)
    && exists x: nat :: 1 <= x < t.count && log[0].word == Pack(t.Word(x))
  }

  /** Behind many devices a bus just slow enough to be given up is enough */
  lemma LateRun(t: Transfer, post: nat, gap: nat, shown: Word)
    requires 1 <= t.size <= 4 && t.count >= 2 && post < MAX_READ_STATUS_WAIT && 8 * t.size <= post + 2
    ensures var r := Run(t, 0, post, gap, 0, 0, Still(shown, Trap(t, Late(post), post + 3 - 8 * t.size)), [], Blank(t.count));
      r.outcome.Done? && HoldsOther(t, r.log)
  {
    hide Transfer.Word, Burst, Ahead, Late;
    Limits();
    var log, clocks := Blank(t.count), post + 3 - 8 * t.size;
    var b := Still(shown, Trap(t, Late(post), clocks));
    LateBurst(t, post, gap, b, BAD, Ahead(t, Late(post), OK, clocks, [BAD]), log);
    var b1 := Burst(t, post, gap, 0, b, [], log).rest;
    LateBurst(t, post, gap, b1, OK, [BAD], log);
    var b2 := Burst(t, post, gap, 0, b1, [], log).rest;
    Missed(t, post, gap, b2, log);
  }

  /** Anywhere, two reported errors and two failing transfers are enough */
  lemma LostRun(t: Transfer, gap: nat, shown: Word, bits: Stream)
    requires 1 <= t.size <= 4 && t.count >= 2
    ensures var r := Run(t, 0, 0, gap, 0, 0, Still(shown, Trap(t, OK, 3)), [Broken(bits), Broken(bits)], Blank(t.count));
      r.outcome.Done? && HoldsOther(t, r.log)
  {
    hide Transfer.Word, Burst, Ahead;
    Limits();
    var log := Blank(t.count);
    var b := Still(shown, Trap(t, OK, 3));
    assert [Broken(bits), Broken(bits)] == [Broken(bits)] + [Broken(bits)] && [Broken(bits)] == [Broken(bits)] + [];
    LostBurst(t, gap, b, BAD, Ahead(t, OK, OK, 3, [BAD]), log, bits, [Broken(bits)]);
    var b1 := Burst(t, 0, gap, 0, b, [Broken(bits), Broken(bits)], log).rest;
    LostBurst(t, gap, b1, OK, [BAD], log, bits, []);
    var b2 := Burst(t, 0, gap, 0, b1, [Broken(bits)], log).rest;
    Missed(t, 0, gap, b2, log);
  }

  /** A reported error in the first word while the second takes its time */
  lemma SecondRun(t: Transfer, gap: nat, shown: Word)
    requires 1 <= t.size <= 4 && t.count >= 2
    ensures var r := Run(t, 0, 0, gap, 0, 0, Still(shown, [OK, Answer(gap + 8 * t.size + 4, false)]), [Broken([])], Blank(t.count));
      r.outcome.Done? && HoldsOther(t, r.log)
  {
    hide Transfer.Word, Ask, Coast, First;
    Limits();
    var slow := Answer(gap + 8 * t.size + 4, false);
    var b, log := Still(shown, [OK, slow]), Blank(t.count);
    assert [OK, slow] == [OK] + [slow] && [slow] == [slow] + [];
    FirstIs(t, 0, gap, b, OK, [slow]);
    var p := First(t, 0, gap, 0, b);
    CoastAsks(t, 0, p, p.left + 8 * t.size + 4);
    AskNext(t, 1, Taking(0, p), slow, []);
    hide ReadOn, Run;
    BrokenBurst(t, gap, b, log);
    StaleRun(t, 0, 0, gap, 0, 0, Cut(t, 0, p, p.left + 8 * t.size + 4), log);
  }

  /** A reported error in the first word when the third is asked for at the last moment */
  lemma ThirdRun(t: Transfer, gap: nat, shown: Word)
    requires 1 <= t.size <= 4 && t.count >= 3
    ensures var r := Run(t, 0, 0, gap, 0, 0, Still(shown, [OK, Answer(8 * t.size + 1, false), Answer(gap + 1, false)]), [Broken([])],
                         Blank(t.count));
      r.outcome.Done? && HoldsOther(t, r.log)
  {
    hide Transfer.Word, Ask, Coast, First;
    Limits();
    var second, third := Answer(8 * t.size + 1, false), Answer(gap + 1, false);
    var b, log := Still(shown, [OK, second, third]), Blank(t.count);
    assert [OK, second, third] == [OK] + [second, third] && [second, third] == [second] + [third] && [third] == [third] + [];
    FirstIs(t, 0, gap, b, OK, [second, third]);
    var p := First(t, 0, gap, 0, b);
    var clocks := p.left + 8 * t.size + 4;
    CoastOnce(t, 0, p, clocks);
    AskNext(t, 1, Taking(0, p), second, [third]);
    var q := Waited(Ask(t, 1, Taking(0, p)), 8 * t.size);
    CoastAsks(t, 1, q, 3);
    AskNext(t, 2, Taking(1, q), third, []);
    hide ReadOn, Run;
    BrokenBurst(t, gap, b, log);
    StaleRun(t, 0, 0, gap, 0, 0, Cut(t, 0, p, clocks), log);
  }

  lemma BrokenBurst(t: Transfer, gap: nat, b: Fetch, log: seq<Got>)
    requires 0 < t.size <= 4 && 0 < t.count == |log| && b.e == -1
    requires First(t, 0, gap, 0, b).left < MAX_READ_STATUS_WAIT
    ensures var p := First(t, 0, gap, 0, b); var c := Cut(t, 0, p, p.left + 8 * t.size + 4);
      c.e <= t.count && Run(t, 0, 0, gap, 0, 0, b, [Broken([])], log) == Run(t, 0, 0, gap, 0, 0, c, [], log)
  {
    hide Transfer.Word, First, Cut;
    Limits();
    BurstEnds(t, 0, gap, 0, b, [Broken([])], log);
  }

  lemma OtherThere(t: Transfer, log: seq<Got>)
    requires 0 < t.size <= 4 && t.count >= 2 && |log| == t.count
    requires log[0] == Got(Pack(t.Word(1)), Fill(8 * t.size, false), false, 1)
    ensures HoldsOther(t, log)
  {
    hide Transfer.Word;
  }

  // --- exactly when ---

  /** A memory with ones at the first word only */
  function Marked(start: nat, size: nat): Memory
    requires size > 0
  {
    map[Lane(start, size) := Fill(8, true)]
  }

  lemma MarkedWords(start: nat, size: nat, count: nat, k: nat)
    requires size in {1, 2, 4}
    ensures var t := Transfer(Marked(start, size), start, size, count);
      t.Word(0)[8 * (size - 1)] && (k > 0 ==> t.Word(k) == Fill(8 * size, false))
  {
    var t := Transfer(Marked(start, size), start, size, count);
    PlaceIs(t, 0);
    PlaceIs(t, k);
    FirstByte(t.mem, t.Place(0), size, 0);
    if k > 0 {
      Multiply(1, k - 1, size);
      NoBytes(t.mem, t.Place(k), size);
    }
  }

  /** A buffer with another word for the first is wrong */
  lemma OtherIsWrong(start: nat, size: nat, count: nat, log: seq<Got>)
    requires size in {1, 2, 4} && HoldsOther(Transfer(Marked(start, size), start, size, count), log)
    ensures !ReadsMemory(Transfer(Marked(start, size), start, size, count), 0, log)
  {
    hide Transfer.Word, Marked;
    var t := Transfer(Marked(start, size), start, size, count);
    var x: nat :| 1 <= x < count && log[0].word == Pack(t.Word(x));
    MarkedWords(start, size, count, x);
    assert !Shown(log[0], size)[8 * (size - 1)];
    assert Pack(t.Word(0))[8 * (size - 1)];
  }

  lemma WrongRun(start: nat, size: nat, count: nat, post: nat, gap: nat, b: Fetch, faults: seq<Fault>)
    requires size in {1, 2, 4} && count > 0 && b.e <= count && post < MAX_READ_STATUS_WAIT
    requires var t := Transfer(Marked(start, size), start, size, count);
      var r := Run(t, 0, post, gap, 0, 0, b, faults, Blank(count)); r.outcome.Done? && HoldsOther(t, r.log)
    ensures !RightIfDone(Transfer(Marked(start, size), start, size, count), 0, post, gap, b, faults)
  {
    hide Run, ReadsMemory, HoldsOther, Marked;
    OtherIsWrong(start, size, count,
                 Run(Transfer(Marked(start, size), start, size, count), 0, post, gap, 0, 0, b, faults, Blank(count)).log);
  }

  /** The wait with which the host just gives up, if transfers may take `n` clocks */
  function Brink(n: nat): nat {
    if n < MAX_READ_STATUS_WAIT + 4 then n else MAX_READ_STATUS_WAIT + 4
  }

  /** On a clean cable, with transfers of at most `n` clocks and an empty bus at the start, every
      successful transfer reads the memory, however many transfers fail, exactly when it is of one word,
      or no burst times out, or those that do neither run into another word nor leave a transfer in
      progress that is still not over when the host starts again */
  lemma CleanCableIff(start: nat, size: nat, count: nat, post: nat, gap: nat, n: nat, shown: Word)
    requires size in {1, 2, 4} && count > 0 && post < MAX_READ_STATUS_WAIT
    ensures (forall mem: Memory, answers: seq<Answer> :: Within(answers, n) ==>
               RightIfDone(Transfer(mem, start, size, count), 0, post, gap, Still(shown, answers), []))
      <==> count == 1 || n + post <= MAX_READ_STATUS_WAIT || (post + 2 < 8 * size && Quick(n, gap))
  {
    hide *;
    Limits();
    if count == 1 || n + post <= MAX_READ_STATUS_WAIT || (post + 2 < 8 * size && Quick(n, gap)) {
      forall mem: Memory, answers: seq<Answer> | Within(answers, n)
        ensures RightIfDone(Transfer(mem, start, size, count), 0, post, gap, Still(shown, answers), [])
      {
        CleanReads(Transfer(mem, start, size, count), post, gap, n, shown, answers);
      }
    } else {
      var t := Transfer(Marked(start, size), start, size, count);
      if post + 2 < 8 * size {
        SwappedWrong(start, size, count, post, gap, n, shown);
      } else {
        var answers := Trap(t, Late(post), post + 3 - 8 * size);
        LateRun(t, post, gap, shown);
        WrongRun(start, size, count, post, gap, Still(shown, answers), []);
        TrapWithin(t, post, n);
        assert !RightIfDone(Transfer(Marked(start, size), start, size, count), 0, post, gap, Still(shown, answers), []);
      }
    }
  }

  lemma SwappedWrong(start: nat, size: nat, count: nat, post: nat, gap: nat, n: nat, shown: Word)
    requires size in {1, 2, 4} && count >= 2 && post < MAX_READ_STATUS_WAIT
    requires n + post > MAX_READ_STATUS_WAIT && !Quick(n, gap)
    ensures exists mem: Memory, answers: seq<Answer> :: Within(answers, n) && Failures(answers) == 0
              && !RightIfDone(Transfer(mem, start, size, count), 0, post, gap, Still(shown, answers), [])
  {
    hide *;
    Limits();
    var t := Transfer(Marked(start, size), start, size, count);
    var v := Brink(n);
    BrinkIs(n, gap);
    var w := gap + MAX_READ_STATUS_WAIT + 5 - v;
    var answers := [Answer(v, false), Answer(w, false)];
    SwappedRun(t, post, gap, v, w, shown);
    OtherThere(t, Run(t, 0, post, gap, 0, 0, Still(shown, answers), [], Blank(count)).log);
    WrongRun(start, size, count, post, gap, Still(shown, answers), []);
    TwoWithin(v, w, n);
    assert !RightIfDone(Transfer(Marked(start, size), start, size, count), 0, post, gap, Still(shown, answers), []);
  }

  lemma BrinkIs(n: nat, gap: nat)
    ensures Brink(n) == (if n < MAX_READ_STATUS_WAIT + 4 then n else MAX_READ_STATUS_WAIT + 4)
    ensures Quick(n, gap) <==> n + Brink(n) <= gap + MAX_READ_STATUS_WAIT + 4
  {
  }

  lemma TwoWithin(v: nat, w: nat, n: nat)
    requires v <= n && w <= n
    ensures Within([Answer(v, false), Answer(w, false)], n) && Failures([Answer(v, false), Answer(w, false)]) == 0
  {
    PairFails(Answer(v, false), Answer(w, false));
  }

  lemma PairFails(a: Answer, b: Answer)
    requires !a.err && !b.err
    ensures Failures([a, b]) == 0
  {
    assert [a, b][1..] == [b] && [b][1..] == [];
    hide Failures;
    FailuresNone();
    FailuresMore(b, []);
    FailuresMore(a, [b]);
    assert [a, b] == [a] + [b] && [b] == [b] + [];
  }

  lemma {:induction false} OksWithin(m: nat, more: seq<Answer>, n: nat)
    requires Within(more, n)
    ensures Within(Oks(m, more), n) && Failures(Oks(m, more)) == Failures(more)
    decreases m
  {
    if m > 0 {
      OksWithin(m - 1, more, n);
      FailuresMore(OK, Oks(m - 1, more));
    }
  }

  lemma AheadWithin(t: Transfer, first: Answer, second: Answer, clocks: nat, more: seq<Answer>, n: nat)
    requires first.wait <= n && second.wait <= n && Within(more, n) && !first.err
    ensures Within(Ahead(t, first, second, clocks, more), n)
    ensures Failures(Ahead(t, first, second, clocks, more)) == (if second.err then 1 else 0) + Failures(more)
  {
    hide Failures, Oks, Asks;
    var tail := Oks(Asks(t, 1, 0, clocks), more);
    OksWithin(Asks(t, 1, 0, clocks), more, n);
    FailuresMore(second, tail);
    FailuresMore(first, [second] + tail);
  }

  lemma FailuresMore(a: Answer, more: seq<Answer>)
    ensures Failures([a] + more) == (if a.err then 1 else 0) + Failures(more)
  {
    assert ([a] + more)[1..] == more;
  }

  lemma TrapIs(t: Transfer, first: Answer, clocks: nat, n: nat)
    requires first.wait <= n && !first.err
    ensures Within(Trap(t, first, clocks), n) && Failures(Trap(t, first, clocks)) == 2
  {
    hide Failures, Ahead;
    FailuresMore(BAD, []);
    FailuresNone();
    assert [BAD] + [] == [BAD];
    AheadWithin(t, first, OK, clocks, [BAD], n);
    AheadWithin(t, first, BAD, clocks, Ahead(t, first, OK, clocks, [BAD]), n);
  }

  lemma FailuresNone()
    ensures Failures([]) == 0
  {
  }

  lemma TrapWithin(t: Transfer, post: nat, n: nat)
    requires 0 < t.size && post < MAX_READ_STATUS_WAIT && n + post > MAX_READ_STATUS_WAIT && post + 2 >= 8 * t.size
    ensures Within(Trap(t, Late(post), post + 3 - 8 * t.size), n)
  {
    hide Trap;
    TrapIs(t, Late(post), post + 3 - 8 * t.size, n);
  }

  lemma CleanReads(t: Transfer, post: nat, gap: nat, n: nat, shown: Word, answers: seq<Answer>)
    requires 0 < t.size <= 4 && t.count > 0 && post < MAX_READ_STATUS_WAIT && Within(answers, n)
    requires t.count == 1 || n + post <= MAX_READ_STATUS_WAIT || (post + 2 < 8 * t.size && Quick(n, gap))
    ensures RightIfDone(t, 0, post, gap, Still(shown, answers), [])
  {
    hide Run, AllGenuine, AllIn, AllOwn, Brings, Covered, NoneFailed, Quiet, Quick;
    var b, log := Still(shown, answers), Blank(t.count);
    BlankGenuine(t, 0);
    StillIs(t, gap, b);
    if t.count == 1 {
      RunSingle(t, post, gap, 0, b, [], log);
    } else {
      RunSoon(t, 0, post, gap, n, 0, 0, b, [], log);
      RunCalmly(t, 0, post, gap, n, 0, 0, b, [], log);
    }
    RightFrom(t, 0, post, gap, b, []);
  }

  lemma StillIs(t: Transfer, gap: nat, b: Fetch)
    requires 0 < t.size <= 4 && b == Still(b.word, b.answers)
    ensures Brings(t, b) && b.left == 0 && b.e == -1 && Timely(b, gap, 0) && RestBudget(b) == Failures(b.answers)
  {
    hide Transfer.Word;
  }

  /** Whatever errors the cable reports and however many devices there are, with transfers of at most
      `n` clocks and an empty bus at the start, every successful transfer reads the memory exactly when
      there is only one word, or at most one transfer on the bus may fail and none can outlive its burst
      until the host starts again: none is that slow, or there are two words only and what is left of
      the second's is over by then */
  lemma FailuresIff(start: nat, size: nat, count: nat, shown: Word, failures: nat, gap: nat, n: nat)
    requires size in {1, 2, 4} && count > 0 && gap > 32
    ensures (forall mem: Memory, answers: seq<Answer>, faults: seq<Fault>, post: nat ::
               post < MAX_READ_STATUS_WAIT && Failures(answers) <= failures && Within(answers, n) && NoNoise(faults) ==>
                 RightIfDone(Transfer(mem, start, size, count), 0, post, gap, Still(shown, answers), faults))
      <==> count == 1 || (failures <= 1 && (n <= gap || (count == 2 && n < gap + 8 * size + 4 && Quick(n, gap))))
  {
    hide *;
    Limits();
    if count == 1 || (failures <= 1 && (n <= gap || (count == 2 && n < gap + 8 * size + 4 && Quick(n, gap)))) {
      forall mem: Memory, answers: seq<Answer>, faults: seq<Fault>, post: nat
        | post < MAX_READ_STATUS_WAIT && Failures(answers) <= failures && Within(answers, n) && NoNoise(faults)
        ensures RightIfDone(Transfer(mem, start, size, count), 0, post, gap, Still(shown, answers), faults)
      {
        FewReads(Transfer(mem, start, size, count), post, gap, n, shown, answers, faults);
      }
    } else {
      ManyWrong(start, size, count, shown, failures, gap, n);
    }
  }

  lemma ManyWrong(start: nat, size: nat, count: nat, shown: Word, failures: nat, gap: nat, n: nat)
    requires size in {1, 2, 4} && count >= 2 && gap > 32
    requires failures > 1 || (n > gap && (count > 2 || n >= gap + 8 * size + 4 || !Quick(n, gap)))
    ensures exists mem: Memory, answers: seq<Answer>, faults: seq<Fault>, post: nat ::
      && post < MAX_READ_STATUS_WAIT && Failures(answers) <= failures && Within(answers, n) && NoNoise(faults)
      && !RightIfDone(Transfer(mem, start, size, count), 0, post, gap, Still(shown, answers), faults)
  {
    hide *;
    Limits();
    OkIs();
    var t := Transfer(Marked(start, size), start, size, count);
    ReportsOnly();
    if failures > 1 {
      LostRun(t, gap, shown, []);
      WrongRun(start, size, count, 0, gap, Still(shown, Trap(t, OK, 3)), [Broken([]), Broken([])]);
      TrapIs(t, OK, 3, n);
      assert !RightIfDone(Transfer(Marked(start, size), start, size, count), 0, 0, gap, Still(shown, Trap(t, OK, 3)), [Broken([]), Broken([])]);
    } else if count > 2 {
      var answers := [OK, Answer(8 * size + 1, false), Answer(gap + 1, false)];
      ThirdRun(t, gap, shown);
      WrongRun(start, size, count, 0, gap, Still(shown, answers), [Broken([])]);
      ThreeWithin(8 * size + 1, gap + 1, n);
      assert !RightIfDone(Transfer(Marked(start, size), start, size, count), 0, 0, gap, Still(shown, answers), [Broken([])]);
    } else if n >= gap + 8 * size + 4 {
      var answers := [OK, Answer(gap + 8 * size + 4, false)];
      SecondRun(t, gap, shown);
      WrongRun(start, size, count, 0, gap, Still(shown, answers), [Broken([])]);
      TwoWithin(0, gap + 8 * size + 4, n);
      assert !RightIfDone(Transfer(Marked(start, size), start, size, count), 0, 0, gap, Still(shown, answers), [Broken([])]);
    } else {
      BrinkIs(n, gap);
      SwappedWrong(start, size, count, MAX_READ_STATUS_WAIT + 4 - Brink(n), gap, n, shown);
    }
  }

  lemma OkIs()
    ensures OK == Answer(0, false)
  {
  }

  lemma ReportsOnly()
    ensures NoNoise([]) && NoNoise([Broken([])]) && NoNoise([Broken([]), Broken([])])
  {
  }

  lemma ThreeWithin(v: nat, w: nat, n: nat)
    requires v <= n && w <= n
    ensures Within([OK, Answer(v, false), Answer(w, false)], n)
    ensures Failures([OK, Answer(v, false), Answer(w, false)]) == 0
  {
    var rest := [Answer(v, false), Answer(w, false)];
    PairFails(Answer(v, false), Answer(w, false));
    FailuresMore(OK, rest);
    assert [OK] + rest == [OK, Answer(v, false), Answer(w, false)];
  }

  lemma FewReads(t: Transfer, post: nat, gap: nat, n: nat, shown: Word, answers: seq<Answer>, faults: seq<Fault>)
    requires 0 < t.size <= 4 && t.count > 0 && post < MAX_READ_STATUS_WAIT && Within(answers, n) && NoNoise(faults)
    requires || t.count == 1
             || (Failures(answers) <= 1 && (n <= gap || (t.count == 2 && n < gap + 8 * t.size + 4 && Quick(n, gap))))
    ensures RightIfDone(t, 0, post, gap, Still(shown, answers), faults)
  {
    hide Run, AllGenuine, AllIn, AllOwn, Brings, Covered, NoneFailed, Quiet, Quick, Failures, RestBudget;
    var b, log := Still(shown, answers), Blank(t.count);
    BlankGenuine(t, 0);
    StillIs(t, gap, b);
    if t.count == 1 {
      RunSingle(t, post, gap, 0, b, faults, log);
    } else {
      OneFailureIsRepaired(t, 0, post, gap, 0, 0, b, faults, log);
      if n <= gap {
        RunOwn(t, 0, post, gap, 0, 0, b, faults, log);
      } else {
        RunSoon(t, 0, post, gap, n, 0, 0, b, faults, log);
      }
    }
    RightFrom(t, 0, post, gap, b, faults);
  }
}
