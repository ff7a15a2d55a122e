/** A burst read word by word: which transfers the bus is asked for, what each brings, where each
    fault strikes and where the host starts again.  `BurstRead` proves that the clocks on the chain
    come to exactly this. */
module ReadRun {
  import opened Bits
  import opened ShiftRegister
  import Crc
  import opened DebugUnit
  import opened Transfers

  /** The bus as the module finds it: the transfer in progress, for word `of`, takes `left` more clocks
      and brings `word`, which after a failed one is what the bus showed before; with none in progress
      `word` is what it shows.  `answers` is how the bus will answer, `e` the word that the error
      register names, -1 for none and `count` for none of the transfer's. */
  datatype Fetch = Fetch(left: nat, fail: bool, word: Word, of: int, answers: seq<Answer>, e: int)

  /** The bus is asked for word `j` */
  function Ask(t: Transfer, j: nat, b: Fetch): Fetch
    requires 0 < t.size <= 4
  {
    var a := NextAnswer(b.answers);
    Fetch(a.wait + 1, a.err, if a.err then b.word else Pack(t.Word(j)), j, LaterAnswers(b.answers), b.e)
  }

  /** Word `j` is taken.  The error register keeps the first failure it sees. */
  function Taking(j: nat, p: Fetch): Fetch {
    p.(left := 0, e := if p.fail && p.e < 0 then j else p.e)
  }

  function Waited(p: Fetch, k: nat): Fetch {
    p.(left := if p.left > k then p.left - k else 0)
  }

  /** The module waiting for word `j`, left to itself for a number of clocks */
  function Coast(t: Transfer, j: nat, p: Fetch, clocks: nat): Fetch
    requires 0 < t.size <= 4
    decreases clocks
  {
    if clocks <= p.left then Waited(p, clocks)
    else
      var b := Taking(j, p);
      var more := clocks - p.left - 1;
      if j + 1 >= t.count then b
      else
        var q := Ask(t, j + 1, b);
        if more < 8 * t.size then Waited(q, more)
        else Coast(t, j + 1, Waited(q, 8 * t.size), more - 8 * t.size)
  }

  /** And then brought to rest, which takes a clock that it does not act on */
  function Cut(t: Transfer, j: nat, p: Fetch, clocks: nat): Fetch
    requires 0 < t.size <= 4
  {
    Waited(Coast(t, j, p, clocks), 1)
  }

  // --- the host ---

  /** How the reading of words ends */
  datatype Stop = AllRead | TimedOut | Lost

  /** What the host's buffer holds for a word: the word the module sent, with what the cable flipped in
      it; `fail` if the transfer for it had failed, and `of` the word it was for */
  datatype Got = Unread | Got(word: Word, mask: Stream, fail: bool, of: int)

  /** The buffer's word */
  function Shown(g: Got, size: nat): Word
    requires g.Got? && size <= 4
  {
    if |g.mask| == 8 * size then Pack(Xor(g.word[..8 * size], g.mask)) else g.word
  }

  /** The host's memory, which held `was` before, with the transfer's words at index `at` */
  function Buffer(was: seq<Word>, at: nat, log: seq<Got>, size: nat): (data: seq<Word>)
    requires size <= 4
    ensures |data| == |was| && forall k :: 0 <= k < |was| ==> data[k] == BufferWord(was[k], k - at, log, size)
  {
    seq(|was|, k requires 0 <= k < |was| => BufferWord(was[k], k - at, log, size))
  }

  function BufferWord(was: Word, k: int, log: seq<Got>, size: nat): Word
    requires size <= 4
  {
    if 0 <= k < |log| && log[k].Got? then Shown(log[k], size) else was
  }

  /** A burst when it has stopped: at which word, and the two check words */
  datatype Progress = Progress(stop: Stop, i: nat, rest: Fetch, faults: seq<Fault>, log: seq<Got>, host: Word, unit: Word)

  /** The words from `i` on, with `post` devices behind the target.  A word not announced within
      100 status bits or spoilt by a reported error stops the burst; the reset then takes 3 clocks
      to end it. */
  function ReadOn(t: Transfer, post: nat, i: nat, p: Fetch, faults: seq<Fault>, log: seq<Got>, host: Word,
                  unit: Word): Progress
    requires 0 < t.size <= 4 && i < t.count == |log|
    decreases t.count - i
  {
    var f, later := NextFault(faults), LaterFaults(faults);
    if p.left >= MAX_READ_STATUS_WAIT then
      Progress(TimedOut, i, Cut(t, i, p, MAX_READ_STATUS_WAIT + 4 + post), faults, log, host, unit)
    else if f.Broken? then
      Progress(Lost, i, Cut(t, i, p, p.left + 8 * t.size + 4 + post), later, log, host, unit)
    else
      var mask := Mask(f, 8 * t.size);
      var log1 := log[i := Got(p.word, mask, p.fail, p.of)];
      var host1 := Fold(Crc.POLY, host, Xor(p.word[..8 * t.size], mask));
      var unit1 := Fold(Crc.POLY, unit, p.word[..8 * t.size]);
      if i + 1 == t.count then Progress(AllRead, t.count, Taking(i, p), later, log1, host1, unit1)
      else ReadOn(t, post, i + 1, Waited(Ask(t, i + 1, Taking(i, p)), 8 * t.size), later, log1, host1, unit1)
  }

  /** The first word is asked for two clocks before the scan and seen `post` clocks late.  The command
      comes `gap` clocks after the last burst; a transfer that is still in progress then keeps the bus
      from taking another, and what it brings is taken for the first word. */
  function First(t: Transfer, post: nat, gap: nat, i: nat, b: Fetch): Fetch
    requires 0 < t.size <= 4
  {
    var p := if b.left > gap then Waited(b, gap + 3) else Waited(Ask(t, i, b), 2);
    p.(left := p.left + post)
  }

  /** One burst, from word `i` on */
  function Burst(t: Transfer, post: nat, gap: nat, i: nat, b: Fetch, faults: seq<Fault>, log: seq<Got>): Progress
    requires 0 < t.size <= 4 && i < t.count == |log|
  {
    ReadOn(t, post, i, First(t, post, gap, i, b), faults, log, ONES, ONES)
  }

  /** `Astray`: the next burst would not be one for words of the transfer, and is not followed */
  datatype Outcome = Done | MaxBusErrors | IllegalChain | Astray

  /** A transfer when it is over; its last burst started with word `last` */
  datatype Ended = Ended(outcome: Outcome, rest: Fetch, faults: seq<Fault>, log: seq<Got>, last: nat)

  // --- sizes, and that a burst that stops uses something up ---

  lemma {:induction false} CoastRange(t: Transfer, j: nat, p: Fetch, clocks: nat)
    requires 0 < t.size <= 4 && p.e <= t.count && j < t.count
    ensures var b := Coast(t, j, p, clocks);
      && b.e <= t.count && |b.answers| <= |p.answers|
      && (|b.answers| == |p.answers| ==> b.left <= 1 || (clocks <= p.left && b.left == p.left - clocks))
    decreases clocks
  {
    hide Transfer.Word, Transfer.Place;
    if clocks > p.left && j + 1 < t.count {
      AskRange(t, j + 1, Taking(j, p));
      if clocks - p.left - 1 >= 8 * t.size {
        CoastRange(t, j + 1, Waited(Ask(t, j + 1, Taking(j, p)), 8 * t.size), clocks - p.left - 1 - 8 * t.size);
      }
    }
  }

  lemma AskRange(t: Transfer, j: nat, b: Fetch)
    requires 0 < t.size <= 4
    ensures var p := Ask(t, j, b);
      && p.e == b.e && |p.answers| <= |b.answers| && (b.answers == [] ==> p.answers == [] && p.left == 1)
      && (b.answers != [] ==> |p.answers| < |b.answers|)
  {
    hide Transfer.Word;
  }

  lemma {:induction false} ReadRange(t: Transfer, post: nat, i: nat, p: Fetch, faults: seq<Fault>, log: seq<Got>,
                                     host: Word, unit: Word)
    requires 0 < t.size <= 4 && i < t.count == |log| && p.e <= t.count
    ensures var r := ReadOn(t, post, i, p, faults, log, host, unit);
      && |r.log| == t.count && r.rest.e <= t.count && (r.stop.AllRead? <==> r.i == t.count) && i <= r.i <= t.count
      && |r.faults| <= |faults| && |r.rest.answers| <= |p.answers|
      && (r.stop.Lost? ==> |r.faults| < |faults|) && (r.stop.AllRead? ==> r.rest.left == 0)
      && (r.stop.TimedOut? && |r.rest.answers| == |p.answers| ==>
            p.left >= MAX_READ_STATUS_WAIT && (r.rest.left == 0 || r.rest.left + MAX_READ_STATUS_WAIT + post < p.left))
      && (host == unit && |r.faults| == |faults| && r.stop.AllRead? ==> r.host == r.unit)
    decreases t.count - i
  {
    hide Transfer.Word, Transfer.Place, Coast, Fold, Ask;
    CoastRange(t, i, p, MAX_READ_STATUS_WAIT + 4 + post);
    CoastRange(t, i, p, p.left + 8 * t.size + 4 + post);
    var f := NextFault(faults);
    if p.left < MAX_READ_STATUS_WAIT && !f.Broken? {
      var mask := Mask(f, 8 * t.size);
      if faults == [] { NoMask(p.word[..8 * t.size]); }
      if i + 1 < t.count {
        AskRange(t, i + 1, Taking(i, p));
        ReadRange(t, post, i + 1, Waited(Ask(t, i + 1, Taking(i, p)), 8 * t.size), LaterFaults(faults),
                  log[i := Got(p.word, mask, p.fail, p.of)], Fold(Crc.POLY, host, Xor(p.word[..8 * t.size], mask)),
                  Fold(Crc.POLY, unit, p.word[..8 * t.size]));
      }
    }
  }

  lemma BurstEnds(t: Transfer, post: nat, gap: nat, i: nat, b: Fetch, faults: seq<Fault>, log: seq<Got>)
    requires 0 < t.size <= 4 && i < t.count == |log| && b.e <= t.count && post < MAX_READ_STATUS_WAIT
    ensures var r := Burst(t, post, gap, i, b, faults, log);
      && |r.log| == t.count && r.rest.e <= t.count && (r.stop.AllRead? <==> r.i == t.count) && i <= r.i <= t.count
      && |r.faults| <= |faults| && |r.rest.answers| <= |b.answers| && (r.stop.AllRead? ==> r.rest.left == 0)
      && (!r.stop.AllRead? || r.host != r.unit ==>
            || |r.faults| + |r.rest.answers| < |faults| + |b.answers|
            || (|r.faults| + |r.rest.answers| == |faults| + |b.answers| && r.rest.left < b.left))
  {
    hide ReadOn, Ask;
    AskRange(t, i, b);
    ReadRange(t, post, i, First(t, post, gap, i, b), faults, log, ONES, ONES);
  }

  /** Bursts from word `i` on until all words are in and the error register is clear, or too many bus
      errors.  The words from `home` on are those that the host asked for: there a transfer starts from
      the beginning.  An error register that names a word before them takes it back to that word. */
  function Run(t: Transfer, home: nat, post: nat, gap: nat, i: nat, errors: nat, b: Fetch, faults: seq<Fault>,
               log: seq<Got>): Ended
    requires 0 < t.size <= 4 && i < t.count == |log| && home < t.count && b.e <= t.count
    requires post < MAX_READ_STATUS_WAIT && errors <= MAX_BUS_ERRORS
    decreases |b.answers| + |faults| + (MAX_BUS_ERRORS - errors), b.left
  {
    var r := Burst(t, post, gap, i, b, faults, log);
    BurstEnds(t, post, gap, i, b, faults, log);
    if !r.stop.AllRead? then Run(t, home, post, gap, r.i, errors, r.rest, r.faults, r.log)
    else if r.host != r.unit then Run(t, home, post, gap, home, errors, r.rest, r.faults, r.log)
    else if r.rest.e < 0 then Ended(Done, r.rest, r.faults, r.log, i)
    else if errors == MAX_BUS_ERRORS then Ended(MaxBusErrors, r.rest, r.faults, r.log, i)
    else if r.rest.e == t.count then Ended(Astray, r.rest.(e := -1), r.faults, r.log, i)
    else Run(t, home, post, gap, r.rest.e, errors + 1, r.rest.(e := -1), r.faults, r.log)
  }
}
