/** The check word covers the last burst only: which noise a burst read keeps. */
module KeptNoise {
  import opened Bits
  import opened ShiftRegister
  import Crc
  import opened Transfers
  import opened ReadRun
  import opened SlowReads
  import opened LostReads

  /** `log` with the memory's words from `i` up to `n` */
  function FilledTo(t: Transfer, log: seq<Got>, i: nat, n: nat): (r: seq<Got>)
    requires 0 < t.size <= 4
    ensures |r| == |log|
    ensures forall k :: 0 <= k < |log| ==>
      r[k] == if i <= k < n then Got(Pack(t.Word(k)), Fill(8 * t.size, false), false, k) else log[k]
  {
    seq(|log|, k requires 0 <= k < |log| => if i <= k < n then Got(Pack(t.Word(k)), Fill(8 * t.size, false), false, k) else log[k])
  }

  lemma FilledMore(t: Transfer, log: seq<Got>, i: nat, n: nat)
    requires 0 < t.size <= 4 && i < n && i < |log|
    ensures FilledTo(t, log[i := Got(Pack(t.Word(i)), Fill(8 * t.size, false), false, i)], i + 1, n) == FilledTo(t, log, i, n)
  {
    hide Transfer.Word;
  }

  lemma FilledNone(t: Transfer, log: seq<Got>, i: nat)
    requires 0 < t.size <= 4
    ensures FilledTo(t, log, i, i) == log
  {
    hide Transfer.Word;
  }

  /** A module that has asked for word `j` of a bus that goes on at once */
  predicate OfIdleBus(t: Transfer, j: nat, p: Fetch)
    requires 0 < t.size <= 4
  {
    p.left < MAX_READ_STATUS_WAIT && !p.fail && p.word == Pack(t.Word(j)) && p.of == j && p.answers == []
  }

  lemma FoldSame(c: Word, e: Word, w: Stream)
    ensures Fold(Crc.POLY, c, w) == Fold(Crc.POLY, e, w) <==> c == e
  {
    Crc.PolyTaps();
    if Fold(Crc.POLY, c, w) == Fold(Crc.POLY, e, w) { FoldInjective(Crc.POLY, c, e, w); }
  }

  /** An undisturbed word that is not the last */
  lemma CleanStep(t: Transfer, post: nat, i: nat, p: Fetch, faults: seq<Fault>, log: seq<Got>, host: Word, unit: Word)
    requires 0 < t.size <= 4 && i + 1 < t.count == |log| && OfIdleBus(t, i, p) && NextFault(faults) == Clean
    ensures var q := Waited(Ask(t, i + 1, Taking(i, p)), 8 * t.size); var w := p.word[..8 * t.size];
      && OfIdleBus(t, i + 1, q) && q.e == p.e && p.word == Pack(t.Word(i))
      && ReadOn(t, post, i, p, faults, log, host, unit)
         == ReadOn(t, post, i + 1, q, LaterFaults(faults), log[i := Got(p.word, Fill(8 * t.size, false), false, i)],
                   Fold(Crc.POLY, host, w), Fold(Crc.POLY, unit, w))
  {
    hide Transfer.Word, Coast, Fold, Ask;
    NoMask(p.word[..8 * t.size]);
    AskIdle(t, i + 1, Taking(i, p));
  }

  /** Undisturbed words of an idle bus up to word `i + m`: the check words stay equal or different */
  lemma {:induction false} SkipClean(t: Transfer, post: nat, i: nat, p: Fetch, m: nat, faults: seq<Fault>,
                                     log: seq<Got>, host: Word, unit: Word)
    returns (q: Fetch, host1: Word, unit1: Word)
    requires 0 < t.size <= 4 && i + m < t.count == |log| && OfIdleBus(t, i, p) && Calm(faults, m)
    ensures OfIdleBus(t, i + m, q) && q.e == p.e && (host == unit <==> host1 == unit1)
    ensures ReadOn(t, post, i, p, faults, log, host, unit)
         == ReadOn(t, post, i + m, q, Drop(faults, m), FilledTo(t, log, i, i + m), host1, unit1)
    decreases m
  {
    hide *;
    if m == 0 {
      FilledNone(t, log, i);
      assert Drop(faults, 0) == faults;
      q, host1, unit1 := p, host, unit;
    } else {
      var mask := Fill(8 * t.size, false);
      var w := p.word[..8 * t.size];
      FoldSame(host, unit, w);
      DropOne(faults, m);
      CleanStep(t, post, i, p, faults, log, host, unit);
      FilledMore(t, log, i, i + m);
      q, host1, unit1 := SkipClean(t, post, i + 1, Waited(Ask(t, i + 1, Taking(i, p)), 8 * t.size), m - 1, LaterFaults(faults),
                                   log[i := Got(p.word, mask, false, i)], Fold(Crc.POLY, host, w), Fold(Crc.POLY, unit, w));
    }
  }

  /** All the words from `i` on, undisturbed */
  lemma ReadClean(t: Transfer, post: nat, i: nat, p: Fetch, faults: seq<Fault>, log: seq<Got>, host: Word, unit: Word)
    requires 0 < t.size <= 4 && i < t.count == |log| && OfIdleBus(t, i, p) && Calm(faults, t.count - i)
    ensures var r := ReadOn(t, post, i, p, faults, log, host, unit);
      && r.stop.AllRead? && r.log == FilledTo(t, log, i, t.count) && r.rest.left == 0 && r.rest.answers == [] && r.rest.e == p.e
      && r.faults == Drop(faults, t.count - i) && (host == unit <==> r.host == r.unit)
  {
    hide Transfer.Word, Coast, Fold, Ask, FilledTo, Calm, Drop;
    var k := t.count - 1 - i;
    CalmLess(faults, k + 1, k);
    var q, h, u := SkipClean(t, post, i, p, k, faults, log, host, unit);
    var rest := Drop(faults, k);
    DropOne(rest, 1);
    assert Drop(rest, 1) == Drop(faults, k + 1);
    assert Drop(LaterFaults(rest), 0) == LaterFaults(rest);
    var w := q.word[..8 * t.size];
    NoMask(w);
    FoldSame(h, u, w);
  }

  lemma {:induction false} CoastIdle(t: Transfer, j: nat, p: Fetch, clocks: nat)
    requires 0 < t.size <= 4 && !p.fail && p.answers == [] && clocks > p.left
    ensures var b := Coast(t, j, p, clocks); b.answers == [] && b.e == p.e && b.left <= 1
    decreases clocks
  {
    hide Transfer.Word, Ask;
    if j + 1 < t.count {
      AskIdle(t, j + 1, Taking(j, p));
      if clocks - p.left - 1 > 8 * t.size {
        CoastIdle(t, j + 1, Waited(Ask(t, j + 1, Taking(j, p)), 8 * t.size), clocks - p.left - 1 - 8 * t.size);
      }
    }
  }

  // --- bursts on an idle bus ---

  /** A state of rest on an idle bus with no error registered */
  predicate Easy(b: Fetch) {
    b.left == 0 && b.answers == [] && b.e == -1
  }

  lemma FirstIdle(t: Transfer, post: nat, gap: nat, i: nat, b: Fetch, faults: seq<Fault>, log: seq<Got>)
    requires 0 < t.size <= 4 && i < t.count == |log| && Easy(b) && post < MAX_READ_STATUS_WAIT
    ensures var p := First(t, post, gap, i, b);
      OfIdleBus(t, i, p) && p.e == -1 && Burst(t, post, gap, i, b, faults, log) == ReadOn(t, post, i, p, faults, log, ONES, ONES)
  {
    hide Transfer.Word, ReadOn, Ask;
    AskIdle(t, i, b);
  }

  lemma BurstClean(t: Transfer, post: nat, gap: nat, i: nat, b: Fetch, faults: seq<Fault>, log: seq<Got>)
    requires 0 < t.size <= 4 && i < t.count == |log| && Easy(b) && post < MAX_READ_STATUS_WAIT
    requires Calm(faults, t.count - i)
    ensures var r := Burst(t, post, gap, i, b, faults, log);
      && r.stop.AllRead? && r.log == FilledTo(t, log, i, t.count) && Easy(r.rest)
      && r.faults == Drop(faults, t.count - i) && r.host == r.unit
  {
    hide *;
    FirstIdle(t, post, gap, i, b, faults, log);
    ReadClean(t, post, i, First(t, post, gap, i, b), faults, log, ONES, ONES);
    EasyFrom(Burst(t, post, gap, i, b, faults, log).rest);
  }

  lemma EasyFrom(b: Fetch)
    requires b.left == 0 && b.answers == [] && b.e == -1
    ensures Easy(b)
  {
  }

  /** A reported error stops the burst at its word */
  lemma LostWord(t: Transfer, post: nat, i: nat, p: Fetch, faults: seq<Fault>, log: seq<Got>, host: Word, unit: Word)
    requires 0 < t.size <= 4 && i < t.count == |log| && OfIdleBus(t, i, p) && faults != [] && faults[0].Broken?
    requires p.e == -1
    ensures var r := ReadOn(t, post, i, p, faults, log, host, unit);
      r.stop.Lost? && r.i == i && Easy(r.rest) && r.faults == faults[1..] && r.log == log
  {
    hide Transfer.Word, Coast, Fold, Ask;
    CoastIdle(t, i, p, p.left + 8 * t.size + 4 + post);
  }

  lemma BurstLost(t: Transfer, post: nat, gap: nat, i: nat, b: Fetch, m: nat, faults: seq<Fault>, log: seq<Got>)
    requires 0 < t.size <= 4 && i + m < t.count == |log| && Easy(b) && post < MAX_READ_STATUS_WAIT
    requires Calm(faults, m) && m < |faults| && faults[m].Broken?
    ensures var r := Burst(t, post, gap, i, b, faults, log);
      r.stop.Lost? && r.i == i + m && Easy(r.rest) && r.faults == Drop(faults, m + 1) && r.log == FilledTo(t, log, i, i + m)
  {
    hide *;
    FirstIdle(t, post, gap, i, b, faults, log);
    var q, h, u := SkipClean(t, post, i, First(t, post, gap, i, b), m, faults, log, ONES, ONES);
    DropAt(faults, m);
    LostWord(t, post, i + m, q, Drop(faults, m), FilledTo(t, log, i, i + m), h, u);
  }

  /** Noise on one word makes the check words differ */
  ghost predicate Flips(mask: Stream, size: nat) {
    |mask| == 8 * size && mask != Fill(8 * size, false)
  }

  lemma NoiseDiffers(c: Word, w: Stream, mask: Stream)
    requires |w| == |mask| <= 32 && mask != Fill(|w|, false)
    ensures Xor(w, mask) != w && Fold(Crc.POLY, c, Xor(w, mask)) != Fold(Crc.POLY, c, w)
  {
    hide Fold;
    var v := Xor(w, mask);
    var i :| 0 <= i < |w| && mask[i] != Fill(|w|, false)[i];
    assert v[i] != w[i];
    Crc.PolyTaps();
    if Fold(Crc.POLY, c, v) == Fold(Crc.POLY, c, w) { ShortFoldInjective(Crc.POLY, c, v, w); }
  }

  lemma NoisyWord(t: Transfer, post: nat, i: nat, p: Fetch, faults: seq<Fault>, log: seq<Got>, c: Word)
    returns (q: Fetch, h: Word, u: Word)
    requires 0 < t.size <= 4 && i < t.count == |log| && OfIdleBus(t, i, p) && p.e == -1
    requires faults != [] && faults[0].Noise? && Flips(faults[0].mask, t.size)
    ensures h != u && (i + 1 < t.count ==> OfIdleBus(t, i + 1, q) && q.e == -1)
    ensures var r := ReadOn(t, post, i, p, faults, log, c, c); var log1 := log[i := Got(Pack(t.Word(i)), faults[0].mask, false, i)];
      if i + 1 < t.count then r == ReadOn(t, post, i + 1, q, faults[1..], log1, h, u)
      else r.stop.AllRead? && Easy(r.rest) && r.faults == faults[1..] && r.host == h && r.unit == u && r.log == log1
  {
    hide Transfer.Word, Coast, Fold, Ask;
    var w, mask := p.word[..8 * t.size], faults[0].mask;
    NoiseDiffers(c, w, mask);
    h, u := Fold(Crc.POLY, c, Xor(w, mask)), Fold(Crc.POLY, c, w);
    AskIdle(t, i + 1, Taking(i, p));
    q := Waited(Ask(t, i + 1, Taking(i, p)), 8 * t.size);
  }

  /** What the buffer holds after words `i` up to `n` with noise on word `a` */
  function Noisy(t: Transfer, log: seq<Got>, i: nat, a: nat, n: nat, mask: Stream): (r: seq<Got>)
    requires 0 < t.size <= 4 && i <= a < |log|
    ensures |r| == |log|
  {
    FilledTo(t, FilledTo(t, log, i, a)[a := Got(Pack(t.Word(a)), mask, false, a)], a + 1, n)
  }

  /** Noise on a word, nothing else up to the end of the burst: the check words differ */
  lemma BurstNoisy(t: Transfer, post: nat, gap: nat, i: nat, b: Fetch, m: nat, faults: seq<Fault>, log: seq<Got>)
    requires 0 < t.size <= 4 && i + m < t.count == |log| && Easy(b) && post < MAX_READ_STATUS_WAIT
    requires Calm(faults, m) && m < |faults| && faults[m].Noise? && Flips(faults[m].mask, t.size)
    requires Calm(Drop(faults, m + 1), t.count - i - m - 1)
    ensures var r := Burst(t, post, gap, i, b, faults, log);
      r.stop.AllRead? && Easy(r.rest) && r.faults == Drop(faults, t.count - i) && |r.log| == t.count && r.host != r.unit
  {
    hide *;
    FirstIdle(t, post, gap, i, b, faults, log);
    var q, h, u := SkipClean(t, post, i, First(t, post, gap, i, b), m, faults, log, ONES, ONES);
    DropAt(faults, m);
    var log1 := FilledTo(t, log, i, i + m);
    var q2, h2, u2 := NoisyWord(t, post, i + m, q, Drop(faults, m), log1, h);
    var log2 := log1[i + m := Got(Pack(t.Word(i + m)), faults[m].mask, false, i + m)];
    if i + m + 1 < t.count {
      ReadClean(t, post, i + m + 1, q2, Drop(faults, m + 1), log2, h2, u2);
      DropTwice(faults, m + 1, t.count - i - m - 1);
      EasyFrom(Burst(t, post, gap, i, b, faults, log).rest);
    }
  }

  /** Noise on a word, then a reported error on a later one: the burst starts again there */
  lemma BurstNoisyLost(t: Transfer, post: nat, gap: nat, i: nat, b: Fetch, m: nat, n: nat, faults: seq<Fault>,
                       log: seq<Got>)
    requires 0 < t.size <= 4 && m < n && i + n < t.count == |log| && Easy(b) && post < MAX_READ_STATUS_WAIT
    requires Calm(faults, m) && m < |faults| && faults[m].Noise? && Flips(faults[m].mask, t.size)
    requires Calm(Drop(faults, m + 1), n - m - 1) && n < |faults| && faults[n].Broken?
    ensures var r := Burst(t, post, gap, i, b, faults, log);
      && r.stop.Lost? && r.i == i + n && Easy(r.rest) && r.faults == Drop(faults, n + 1)
      && r.log == Noisy(t, log, i, i + m, i + n, faults[m].mask)
  {
    hide *;
    FirstIdle(t, post, gap, i, b, faults, log);
    var q, h, u := SkipClean(t, post, i, First(t, post, gap, i, b), m, faults, log, ONES, ONES);
    DropAt(faults, m);
    var log1 := FilledTo(t, log, i, i + m);
    var q2, h2, u2 := NoisyWord(t, post, i + m, q, Drop(faults, m), log1, h);
    var log2 := log1[i + m := Got(Pack(t.Word(i + m)), faults[m].mask, false, i + m)];
    var q3, h3, u3 := SkipClean(t, post, i + m + 1, q2, n - m - 1, Drop(faults, m + 1), log2, h2, u2);
    DropTwice(faults, m + 1, n - m - 1);
    DropAt(faults, n);
    LostWord(t, post, i + n, q3, Drop(faults, n), FilledTo(t, log2, i + m + 1, i + n), h3, u3);
    NoisyIs(t, log, i, i + m, i + n, faults[m].mask);
  }

  lemma NoisyIs(t: Transfer, log: seq<Got>, i: nat, a: nat, n: nat, mask: Stream)
    requires 0 < t.size <= 4 && i <= a < |log|
    ensures Noisy(t, log, i, a, n, mask) == FilledTo(t, FilledTo(t, log, i, a)[a := Got(Pack(t.Word(a)), mask, false, a)], a + 1, n)
  {
    hide Transfer.Word, FilledTo;
  }

  // --- which noise is kept ---

  /** Noise on the `a`-th word sent, a reported error on the `p`-th */
  function TwoFaults(a: nat, mask: Stream, p: nat, bits: Stream): (f: seq<Fault>)
    requires a != p
    ensures |f| == (if a < p then p else a) + 1
    ensures forall k :: 0 <= k < |f| ==> f[k] == if k == a then Noise(mask) else if k == p then Broken(bits) else Clean
  {
    seq((if a < p then p else a) + 1, k => if k == a then Noise(mask) else if k == p then Broken(bits) else Clean)
  }

  lemma AllFilledReads(t: Transfer, log: seq<Got>)
    requires 0 < t.size <= 4 && |log| == t.count
    requires forall k :: 0 <= k < t.count ==> log[k] == Got(Pack(t.Word(k)), Fill(8 * t.size, false), false, k)
    ensures ReadsMemory(t, 0, log)
  {
    hide Transfer.Word;
    forall k | 0 <= k < t.count
      ensures log[k].Got? && |log[k].mask| == 8 * t.size && Shown(log[k], t.size) == Pack(t.Word(k))
    {
      WordOut(t.Word(k), t.size);
    }
  }

  /** From a clean state on, with no noise to come, the run reads the memory */
  lemma EasyRun(t: Transfer, post: nat, gap: nat, i: nat, b: Fetch, faults: seq<Fault>, log: seq<Got>)
    requires 0 < t.size <= 4 && i < t.count == |log| && post < MAX_READ_STATUS_WAIT && Easy(b)
    requires Calm(faults, t.count - i)
    ensures var r := Run(t, 0, post, gap, i, 0, b, faults, log); r.outcome.Done? && r.log == FilledTo(t, log, i, t.count)
  {
    hide Transfer.Word, Burst, FilledTo, Calm, Drop;
    BurstClean(t, post, gap, i, b, faults, log);
  }

  lemma FilledAll(t: Transfer, log: seq<Got>)
    requires 0 < t.size <= 4 && |log| == t.count
    ensures ReadsMemory(t, 0, FilledTo(t, log, 0, t.count))
    ensures forall k :: 0 <= k < t.count ==> ReadsMemory(t, 0, FilledTo(t, FilledTo(t, log, 0, k), k, t.count))
  {
    hide Transfer.Word, ReadsMemory;
    AllFilledReads(t, FilledTo(t, log, 0, t.count));
    forall k | 0 <= k < t.count ensures ReadsMemory(t, 0, FilledTo(t, FilledTo(t, log, 0, k), k, t.count)) {
      AllFilledReads(t, FilledTo(t, FilledTo(t, log, 0, k), k, t.count));
    }
  }

  /** The error comes in the burst with the noise: words before it are never checked again */
  lemma NoiseThenError(t: Transfer, post: nat, gap: nat, b: Fetch, a: nat, mask: Stream, p: nat, bits: Stream)
    requires 0 < t.size <= 4 && a < p < t.count && Flips(mask, t.size) && Easy(b) && post < MAX_READ_STATUS_WAIT
    ensures var r := Run(t, 0, post, gap, 0, 0, b, TwoFaults(a, mask, p, bits), Blank(t.count)); r.outcome.Done? && !ReadsMemory(t, 0, r.log)
  {
    hide *;
    var faults, log := TwoFaults(a, mask, p, bits), Blank(t.count);
    TwoFaultsCalm(a, mask, p, bits);
    EasyIs(b);
    BurstNoisyLost(t, post, gap, 0, b, a, p, faults, log);
    var r := Burst(t, post, gap, 0, b, faults, log);
    CalmNone(t.count - p);
    EasyRun(t, post, gap, p, r.rest, r.faults, r.log);
    RunAgain(t, post, gap, 0, b, faults, log);
    NoisyWrong(t, log, a, p, mask);
  }

  lemma TwoFaultsCalm(a: nat, mask: Stream, p: nat, bits: Stream)
    requires a != p
    ensures var f := TwoFaults(a, mask, p, bits);
      a < |f| && p < |f| && f[a] == Noise(mask) && f[p] == Broken(bits) && Calm(f, if a < p then a else p)
    ensures var f := TwoFaults(a, mask, p, bits);
      a < p ==> |f| == p + 1 && Calm(Drop(f, a + 1), p - a - 1) && Drop(f, p + 1) == []
    ensures var f := TwoFaults(a, mask, p, bits);
      p < a ==> Calm(Drop(f, p + 1), a - p - 1) && |Drop(f, p + 1)| == a - p && Drop(f, p + 1)[a - p - 1] == Noise(mask)
  {
  }

  lemma EasyIs(b: Fetch)
    requires Easy(b)
    ensures b.left == 0 && b.answers == [] && b.e == -1
  {
  }

  /** A burst that stopped early is started again where it stopped */
  lemma RunAgain(t: Transfer, post: nat, gap: nat, i: nat, b: Fetch, faults: seq<Fault>, log: seq<Got>)
    requires 0 < t.size <= 4 && i < t.count == |log| && b.e <= t.count && post < MAX_READ_STATUS_WAIT
    ensures var r := Burst(t, post, gap, i, b, faults, log);
      && |r.log| == t.count && r.rest.e <= t.count && (!r.stop.AllRead? ==> r.i < t.count)
      && (!r.stop.AllRead? ==> Run(t, 0, post, gap, i, 0, b, faults, log) == Run(t, 0, post, gap, r.i, 0, r.rest, r.faults, r.log))
      && (r.stop.AllRead? && r.host != r.unit ==>
            Run(t, 0, post, gap, i, 0, b, faults, log) == Run(t, 0, post, gap, 0, 0, r.rest, r.faults, r.log))
  {
    hide Transfer.Word, Burst;
    Limits();
    BurstEnds(t, post, gap, i, b, faults, log);
  }

  lemma NoisyWrong(t: Transfer, log: seq<Got>, a: nat, p: nat, mask: Stream)
    requires 0 < t.size <= 4 && a < p < t.count == |log| && Flips(mask, t.size)
    ensures !ReadsMemory(t, 0, FilledTo(t, Noisy(t, log, 0, a, p, mask), p, t.count))
  {
    hide Transfer.Word;
    var log1 := FilledTo(t, Noisy(t, log, 0, a, p, mask), p, t.count);
    assert log1[a] == Got(Pack(t.Word(a)), mask, false, a);
    WordOut(t.Word(a), t.size);
    NoiseDiffers(ONES, t.Word(a), mask);
    PackDiffers(Xor(t.Word(a), mask), t.Word(a));
  }

  lemma PackDiffers(v: Stream, w: Stream)
    requires |v| == |w| <= 32 && v != w
    ensures Pack(v) != Pack(w)
  {
    var i :| 0 <= i < |v| && v[i] != w[i];
    assert Pack(v)[i] != Pack(w)[i];
  }

  /** The error comes in a later burst or not at all: the noise has been rejected */
  lemma NoiseAlone(t: Transfer, post: nat, gap: nat, b: Fetch, a: nat, mask: Stream, p: nat, bits: Stream)
    requires 0 < t.size <= 4 && a < t.count <= p && Flips(mask, t.size) && Easy(b) && post < MAX_READ_STATUS_WAIT
    ensures var r := Run(t, 0, post, gap, 0, 0, b, TwoFaults(a, mask, p, bits), Blank(t.count)); r.outcome.Done? && ReadsMemory(t, 0, r.log)
  {
    hide *;
    Limits();
    var faults, log := TwoFaults(a, mask, p, bits), Blank(t.count);
    TwoFaultsCalm(a, mask, p, bits);
    EasyIs(b);
    CalmLess(Drop(faults, a + 1), p - a - 1, t.count - a - 1);
    BurstNoisy(t, post, gap, 0, b, a, faults, log);
    RunAgain(t, post, gap, 0, b, faults, log);
    var r := Burst(t, post, gap, 0, b, faults, log);
    LaterError(faults, a, mask, p, bits, t.count);
    FilledAll(t, r.log);
    var q := p - t.count;
    EasyIs(r.rest);
    if q < t.count {
      CalmNone(t.count - q);
      BurstLost(t, post, gap, 0, r.rest, q, r.faults, r.log);
      RunAgain(t, post, gap, 0, r.rest, r.faults, r.log);
      var s := Burst(t, post, gap, 0, r.rest, r.faults, r.log);
      EasyRun(t, post, gap, q, s.rest, s.faults, s.log);
    } else {
      CalmLess(r.faults, q, t.count);
      EasyRun(t, post, gap, 0, r.rest, r.faults, r.log);
    }
  }

  lemma LaterError(faults: seq<Fault>, a: nat, mask: Stream, p: nat, bits: Stream, n: nat)
    requires a < n <= p && faults == TwoFaults(a, mask, p, bits)
    ensures var f := Drop(faults, n);
      |f| == p - n + 1 && f[p - n] == Broken(bits) && Calm(f, p - n) && Drop(f, p - n + 1) == []
  {
  }

  /** The error comes before the noise: the burst with the noise is rejected */
  lemma ErrorThenNoise(t: Transfer, post: nat, gap: nat, b: Fetch, a: nat, mask: Stream, p: nat, bits: Stream)
    requires 0 < t.size <= 4 && p < a < t.count && Flips(mask, t.size) && Easy(b) && post < MAX_READ_STATUS_WAIT
    ensures var r := Run(t, 0, post, gap, 0, 0, b, TwoFaults(a, mask, p, bits), Blank(t.count)); r.outcome.Done? && ReadsMemory(t, 0, r.log)
  {
    hide *;
    Limits();
    var faults, log := TwoFaults(a, mask, p, bits), Blank(t.count);
    TwoFaultsCalm(a, mask, p, bits);
    EasyIs(b);
    BurstLost(t, post, gap, 0, b, p, faults, log);
    RunAgain(t, post, gap, 0, b, faults, log);
    var r := Burst(t, post, gap, 0, b, faults, log);
    EasyIs(r.rest);
    CalmNone(t.count - p - (a - p - 1) - 1);
    CalmNone(t.count);
    BurstNoisy(t, post, gap, p, r.rest, a - p - 1, r.faults, r.log);
    RunAgain(t, post, gap, p, r.rest, r.faults, r.log);
    var s := Burst(t, post, gap, p, r.rest, r.faults, r.log);
    EasyRun(t, post, gap, 0, s.rest, s.faults, s.log);
    FilledAll(t, s.log);
  }

  /** Of noise on one word and one reported error, on an otherwise idle bus, the noise stays in the
      buffer of a transfer that succeeds exactly when the error strikes a later word of the same
      burst */
  lemma KeptIff(t: Transfer, post: nat, gap: nat, b: Fetch, a: nat, mask: Stream, p: nat, bits: Stream)
    requires 0 < t.size <= 4 && a < t.count && a != p && Flips(mask, t.size) && Easy(b) && post < MAX_READ_STATUS_WAIT
    ensures var r := Run(t, 0, post, gap, 0, 0, b, TwoFaults(a, mask, p, bits), Blank(t.count));
      r.outcome.Done? && (ReadsMemory(t, 0, r.log) <==> !(a < p < t.count))
  {
    hide *;
    if a < p < t.count {
      NoiseThenError(t, post, gap, b, a, mask, p, bits);
    } else if p < a {
      ErrorThenNoise(t, post, gap, b, a, mask, p, bits);
    } else {
      NoiseAlone(t, post, gap, b, a, mask, p, bits);
    }
  }
}
