/** When a burst write can succeed over words it did not write, or end halfway. */
module LostWrites {
  import opened Bits
  import opened ShiftRegister
  import Crc
  import opened DebugUnit
  import opened Transfers
  import opened WriteRun
  import opened WriteLaws

  const FINE: Answer := Answer(0, false)

  /** So many transfers that go well at once, then `more` */
  function Fine(m: nat, more: seq<Answer>): (a: seq<Answer>)
    decreases m
  {
    if m == 0 then more else [FINE] + Fine(m - 1, more)
  }

  lemma FineNext(m: nat, more: seq<Answer>)
    requires m > 0
    ensures NextAnswer(Fine(m, more)) == FINE && LaterAnswers(Fine(m, more)) == Fine(m - 1, more)
  {
    assert Fine(m, more)[1..] == Fine(m - 1, more);
  }

  /** Words `i` up to `n` are written, the others are as they were */
  ghost predicate Wrote(mem: Memory, now: Memory, t: Transfer, data: seq<Word>, i: nat, n: nat)
    requires 0 < t.size <= 4 && t.count <= |data|
  {
    forall k :: 0 <= k < t.count ==>
      if i <= k < n then Stored(now, t, data, k) else ReadMem(now, t.Place(k), t.size) == ReadMem(mem, t.Place(k), t.size)
  }

  lemma WroteNone(mem: Memory, t: Transfer, data: seq<Word>, i: nat)
    requires 0 < t.size <= 4 && t.count <= |data|
    ensures Wrote(mem, mem, t, data, i, i)
  {
    hide ReadMem, Transfer.Place;
  }

  lemma WroteOne(mem: Memory, t: Transfer, data: seq<Word>, i: nat)
    requires t.size in {1, 2, 4} && i < t.count <= |data|
    ensures Wrote(mem, WriteMem(mem, t.Place(i), Meant(data, t.size, i)), t, data, i, i + 1)
  {
    hide ReadMem, WriteMem, Lane;
    forall k | 0 <= k < t.count
      ensures ReadMem(WriteMem(mem, t.Place(i), Meant(data, t.size, i)), t.Place(k), t.size)
           == if k == i then Meant(data, t.size, i) else ReadMem(mem, t.Place(k), t.size)
    {
      PlacesDiffer(t, i, k);
      BusAccess(mem, t.At(i), t.At(k), t.size, Meant(data, t.size, i));
    }
  }

  lemma WroteThen(mem: Memory, mid: Memory, now: Memory, t: Transfer, data: seq<Word>, i: nat, n: nat, l: nat)
    requires 0 < t.size <= 4 && t.count <= |data| && i <= n <= l
    requires Wrote(mem, mid, t, data, i, n) && Wrote(mid, now, t, data, n, l)
    ensures Wrote(mem, now, t, data, i, l)
  {
    hide ReadMem, Transfer.Place, Meant;
  }

  /** A word that goes well */
  lemma GiveFine(t: Transfer, i: nat, s: Flow, data: seq<Word>)
    requires t.size in {1, 2, 4} && i < t.count <= |data| && NextAnswer(s.answers) == FINE
    ensures var n := Give(t, i, s, Meant(data, t.size, i));
      && n.left == 1 && !n.fail && n.answers == LaterAnswers(s.answers) && Wrote(s.next, n.next, t, data, i, i + 1)
      && n.e == if s.fail && s.e < 0 then i - 1 else s.e
  {
    hide WriteMem, Transfer.Place, Wrote;
    WroteOne(s.next, t, data, i);
  }

  /** The error register once the next word is in */
  function Noted(s: Flow, i: nat): int {
    if s.fail && s.e < 0 then i - 1 else s.e
  }

  /** Words that go well, up to word `i + m` */
  lemma {:induction false} SendFine(t: Transfer, i: nat, s: Flow, m: nat, more: seq<Answer>, faults: seq<Fault>,
                                    data: seq<Word>, c: Word)
    returns (n: Flow, c1: Word)
    requires t.size in {1, 2, 4} && i + m < t.count <= |data| && Calm(faults, m)
    requires s.answers == Fine(m, more) && s.left <= 8 * t.size
    ensures n.answers == more && Wrote(s.next, n.next, t, data, i, i + m)
    ensures if m == 0 then n == s else n.left == 1 && !n.fail && n.e == Noted(s, i)
    ensures SendOn(t, i, s, faults, data, c, c) == SendOn(t, i + m, n, Drop(faults, m), data, c1, c1)
    decreases m
  {
    hide *;
    if m == 0 {
      WroteNone(s.next, t, data, i);
      assert Drop(faults, 0) == faults;
      n, c1 := s, c;
      FineNone(more);
    } else {
      var w := Meant(data, t.size, i);
      DropOne(faults, m);
      FineNext(m, more);
      GiveFine(t, i, s, data);
      SendOnce(t, i, s, faults, data, c);
      NotedFine(t, i, s, w);
      var s1 := Give(t, i, s, w);
      n, c1 := SendFine(t, i + 1, s1, m - 1, more, LaterFaults(faults), data, Fold(Crc.POLY, c, w));
      WroteThen(s.next, s1.next, n.next, t, data, i, i + 1, i + m);
    }
  }

  /** A word that goes out undisturbed and is not the last */
  lemma SendOnce(t: Transfer, i: nat, s: Flow, faults: seq<Fault>, data: seq<Word>, c: Word)
    requires 0 < t.size <= 4 && i + 1 < t.count <= |data| && s.left <= 8 * t.size && NextFault(faults) == Clean
    ensures var w := Meant(data, t.size, i); var c1 := Fold(Crc.POLY, c, w);
      SendOn(t, i, s, faults, data, c, c) == SendOn(t, i + 1, Give(t, i, s, w), LaterFaults(faults), data, c1, c1)
  {
    hide Transfer.Place, WriteMem, Fold, Give;
    ReceivedClean(Meant(data, t.size, i));
  }

  lemma NotedFine(t: Transfer, i: nat, s: Flow, w: Stream)
    requires 0 < t.size <= 4 && |w| == 8 * t.size
    ensures var n := Give(t, i, s, w); n.e == Noted(s, i) && (!n.fail ==> Noted(n, i + 1) == n.e)
    ensures 1 <= 8 * t.size
  {
    hide Transfer.Place, WriteMem;
  }

  lemma FineNone(more: seq<Answer>)
    ensures Fine(0, more) == more
  {
  }

  lemma ReceivedClean(w: Stream)
    ensures Received(Clean, w) == w
  {
    NoMask(w);
  }

  /** On an idle bus and a clean cable the rest of a burst goes through */
  lemma {:induction false} SendIdle(t: Transfer, i: nat, s: Flow, data: seq<Word>, c: Word)
    requires t.size in {1, 2, 4} && i < t.count <= |data| && s.answers == [] && s.left <= 8 * t.size
    ensures var r := SendOn(t, i, s, [], data, c, c);
      && r.stop.AllSent? && r.faults == [] && r.host == r.unit && r.s.answers == [] && !r.s.fail
      && r.s.e == Noted(s, i) && r.s.left == 1 && Wrote(s.next, r.s.next, t, data, i, t.count)
    decreases t.count - i
  {
    hide Transfer.Place, WriteMem, Fold, Wrote, Give;
    var w := Meant(data, t.size, i);
    ReceivedClean(w);
    GiveFine(t, i, s, data);
    var s1 := Give(t, i, s, w);
    if i + 1 < t.count {
      SendIdle(t, i + 1, s1, data, Fold(Crc.POLY, c, w));
      var r := SendOn(t, i + 1, s1, [], data, Fold(Crc.POLY, c, w), Fold(Crc.POLY, c, w));
      WroteThen(s.next, s1.next, r.s.next, t, data, i, i + 1, t.count);
    }
  }

  /** And so does a transfer */
  lemma IdleRun(t: Transfer, gap: nat, i: nat, errors: nat, known: bool, k: Store, data: seq<Word>)
    requires t.size in {1, 2, 4} && i < t.count <= |data| && errors <= MAX_BUS_ERRORS && k.answers == [] && k.e == -1
    ensures var r := Run(t, 0, gap, i, errors, known, k, [], data);
      r.outcome.Complete? && Wrote(k.mem, r.rest.next, t, data, i, t.count) && r.rest.e == -1
  {
    hide Transfer.Place, SendOn, Wrote;
    SendIdle(t, i, Cleared(k), data, ONES);
  }

  lemma WroteStored(mem: Memory, now: Memory, t: Transfer, data: seq<Word>, i: nat, n: nat)
    requires 0 < t.size <= 4 && t.count <= |data| && Wrote(mem, now, t, data, i, n)
    ensures forall j :: i <= j < n && j < t.count ==> Stored(now, t, data, j)
  {
    hide Stored;
  }

  lemma WroteKeeps(mem: Memory, now: Memory, t: Transfer, data: seq<Word>, i: nat)
    requires 0 < t.size <= 4 && t.count <= |data| && Wrote(mem, now, t, data, i, t.count)
    ensures forall j :: 0 <= j < i && j < t.count && Stored(mem, t, data, j) ==> Stored(now, t, data, j)
  {
    hide ReadMem, Transfer.Place;
  }

  // --- one failure ---

  /** The clocks a failing transfer of word `k` may take and still be noticed: until the next word is
      in, or until the scan is over */
  function NoticedBefore(t: Transfer, k: nat): nat {
    if k + 1 < t.count then 8 * t.size else CLOSING
  }

  /** A burst whose transfer of word `k` fails after `w` clocks */
  lemma FailingBurst(t: Transfer, mem: Memory, data: seq<Word>, k: nat, w: nat)
    requires t.size in {1, 2, 4} && k < t.count <= |data|
    ensures var r := Burst(t, 0, Store(mem, Fine(k, [Answer(w, true)]), -1), [], data); var n := Left(t, r);
      && r.faults == [] && n.answers == [] && n.mem == n.next
      && (w < NoticedBefore(t, k) ==> r.stop.AllSent? && r.host == r.unit && n.e == k)
      && (w >= NoticedBefore(t, k) ==>
            n.e == -1 && Wrote(mem, n.mem, t, data, 0, k)
            && if k + 1 < t.count then r.stop.Busy? && r.i == k + 1 else r.stop.AllSent? && r.host == r.unit)
      && (forall j :: 0 <= j < k ==> Stored(n.mem, t, data, j))
  {
    hide Transfer.Place, WriteMem, Fold, Give, Fine, SendOn, Stored, Wrote, Calm, Drop, Meant;
    var bad := [Answer(w, true)];
    var s0 := Cleared(Store(mem, Fine(k, bad), -1));
    CalmNone(k);
    var s, c := SendFine(t, 0, s0, k, bad, [], data, ONES);
    assert Drop([], k) == [];
    var v := Meant(data, t.size, k);
    ReceivedClean(v);
    GiveBad(t, k, s, v, w);
    var s1 := Give(t, k, s, v);
    SendOnIs(t, k, s, [], data, c, c);
    WroteStored(mem, s.next, t, data, 0, k);
    if k + 1 < t.count {
      SendOnIs(t, k + 1, s1, [], data, Fold(Crc.POLY, c, v), Fold(Crc.POLY, c, v));
      if w < 8 * t.size {
        SendIdle(t, k + 1, s1, data, Fold(Crc.POLY, c, v));
        WroteKeeps(s1.next, SendOn(t, k + 1, s1, [], data, Fold(Crc.POLY, c, v), Fold(Crc.POLY, c, v)).s.next, t, data, k + 1);
      }
    }
  }

  lemma GiveBad(t: Transfer, i: nat, s: Flow, bits: Stream, w: nat)
    requires t.size in {1, 2, 4} && |bits| == 8 * t.size && s.answers == [Answer(w, true)] && !s.fail
    ensures Give(t, i, s, bits) == Flow(s.next, s.next, w + 1, true, [], s.e)
  {
  }

  lemma ResumedSame(s: Flow, gap: nat)
    requires s.mem == s.next
    ensures Resumed(s, gap) == Store(s.mem, s.answers, s.e)
  {
  }

  /** Of a transfer in which only word `k` fails on the bus, after `w` clocks: it always reports
      success, and all words are written, but word `k` exactly when the failure comes in time */
  lemma LostIff(t: Transfer, gap: nat, known: bool, mem: Memory, data: seq<Word>, k: nat, w: nat)
    requires t.size in {1, 2, 4} && k < t.count <= |data|
    ensures var r := Run(t, 0, gap, 0, 0, known, Store(mem, Fine(k, [Answer(w, true)]), -1), [], data);
      && r.outcome.Complete?
      && (forall j :: 0 <= j < t.count && j != k ==> Stored(r.rest.next, t, data, j))
      && (w < NoticedBefore(t, k) ==> Stored(r.rest.next, t, data, k))
      && (w >= NoticedBefore(t, k) ==> ReadMem(r.rest.next, t.Place(k), t.size) == ReadMem(mem, t.Place(k), t.size))
  {
    hide Transfer.Place, Burst, ReadMem, Fine, Left, Stored, Resumed;
    Limits();
    var k0 := Store(mem, Fine(k, [Answer(w, true)]), -1);
    FailingBurst(t, mem, data, k, w);
    var r := Burst(t, 0, k0, [], data);
    var n := Left(t, r);
    if w < NoticedBefore(t, k) {
      var k1 := Resumed(n.(e := -1), ErrorGap(known) + STARTING);
      ResumedSame(n.(e := -1), ErrorGap(known) + STARTING);
      IdleRun(t, gap, k, 1, true, k1, data);
      WroteKeeps(k1.mem, Run(t, 0, gap, k, 1, true, k1, [], data).rest.next, t, data, k);
    } else if k + 1 < t.count {
      var k1 := Resumed(n, gap + STARTING);
      ResumedSame(n, gap + STARTING);
      IdleRun(t, gap, k + 1, 0, false, k1, data);
      WroteKeeps(k1.mem, Run(t, 0, gap, k + 1, 0, false, k1, [], data).rest.next, t, data, k + 1);
    }
  }

  // --- one slow word ---

  /** A burst whose transfer of word `k` goes well, but too late for the next word */
  lemma SlowBurst(t: Transfer, mem: Memory, data: seq<Word>, k: nat, w: nat)
    requires t.size in {1, 2, 4} && k + 1 < t.count <= |data| && w >= 8 * t.size
    ensures var r := Burst(t, 0, Store(mem, Fine(k, [Answer(w, false)]), -1), [], data); var n := Left(t, r);
      && r.faults == [] && n.answers == [] && n.e == -1 && r.stop.Busy? && r.i == k + 1
      && n.left == (if w > 8 * t.size + CUTTING then w - 8 * t.size - CUTTING else 0)
      && Wrote(mem, n.next, t, data, 0, k + 1) && (n.left > 0 ==> Wrote(mem, n.mem, t, data, 0, k)) && (n.left == 0 ==> n.mem == n.next)
  {
    hide Transfer.Place, WriteMem, Fold, Give, Fine, SendOn, Stored, Wrote, Calm, Drop, Meant;
    var slow := [Answer(w, false)];
    var s0 := Cleared(Store(mem, Fine(k, slow), -1));
    CalmNone(k);
    var s, c := SendFine(t, 0, s0, k, slow, [], data, ONES);
    assert Drop([], k) == [];
    var v := Meant(data, t.size, k);
    ReceivedClean(v);
    GiveSlow(t, k, s, data, w);
    var s1 := Give(t, k, s, v);
    SendOnIs(t, k, s, [], data, c, c);
    WroteThen(mem, s.next, s1.next, t, data, 0, k, k + 1);
    SendOnIs(t, k + 1, s1, [], data, Fold(Crc.POLY, c, v), Fold(Crc.POLY, c, v));
  }

  lemma GiveSlow(t: Transfer, i: nat, s: Flow, data: seq<Word>, w: nat)
    requires t.size in {1, 2, 4} && i < t.count <= |data| && s.answers == [Answer(w, false)] && !s.fail
    ensures var n := Give(t, i, s, Meant(data, t.size, i));
      && n.mem == s.next && n.left == w + 1 && !n.fail && n.answers == [] && n.e == s.e && Wrote(s.next, n.next, t, data, i, i + 1)
  {
    hide WriteMem, Transfer.Place, Wrote, Meant;
    WroteOne(s.next, t, data, i);
  }

  /** And one in which it is not too late */
  lemma PatientBurst(t: Transfer, mem: Memory, data: seq<Word>, k: nat, w: nat)
    requires t.size in {1, 2, 4} && k < t.count <= |data| && (w < 8 * t.size || k + 1 == t.count)
    ensures var r := Burst(t, 0, Store(mem, Fine(k, [Answer(w, false)]), -1), [], data); var n := Left(t, r);
      && r.stop.AllSent? && r.host == r.unit && n.e == -1 && Wrote(mem, n.next, t, data, 0, t.count)
  {
    hide Transfer.Place, WriteMem, Fold, Give, Fine, SendOn, Stored, Wrote, Calm, Drop, Meant;
    var slow := [Answer(w, false)];
    var s0 := Cleared(Store(mem, Fine(k, slow), -1));
    CalmNone(k);
    var s, c := SendFine(t, 0, s0, k, slow, [], data, ONES);
    assert Drop([], k) == [];
    var v := Meant(data, t.size, k);
    ReceivedClean(v);
    GiveSlow(t, k, s, data, w);
    var s1 := Give(t, k, s, v);
    SendOnIs(t, k, s, [], data, c, c);
    WroteThen(mem, s.next, s1.next, t, data, 0, k, k + 1);
    if k + 1 < t.count {
      var c1 := Fold(Crc.POLY, c, v);
      SendIdle(t, k + 1, s1, data, c1);
      WroteThen(mem, s1.next, SendOn(t, k + 1, s1, [], data, c1, c1).s.next, t, data, 0, k + 1, t.count);
    }
  }

  /** Of a transfer in which only word `k` is slow and takes `w` clocks, without any error: it always
      reports success, and all words are written, but word `k` exactly when no word follows it, or the
      bus is done with it before the host has started again from the next one */
  lemma DroppedIff(t: Transfer, gap: nat, known: bool, mem: Memory, data: seq<Word>, k: nat, w: nat)
    requires t.size in {1, 2, 4} && k < t.count <= |data|
    ensures var r := Run(t, 0, gap, 0, 0, known, Store(mem, Fine(k, [Answer(w, false)]), -1), [], data);
      && r.outcome.Complete?
      && (forall j :: 0 <= j < t.count && j != k ==> Stored(r.rest.next, t, data, j))
      && (w < Patience(t, gap) || k + 1 == t.count ==> Stored(r.rest.next, t, data, k))
      && (w >= Patience(t, gap) && k + 1 < t.count ==>
            ReadMem(r.rest.next, t.Place(k), t.size) == ReadMem(mem, t.Place(k), t.size))
  {
    hide Transfer.Place, Burst, ReadMem, Fine, Left, Stored;
    Limits();
    var k0 := Store(mem, Fine(k, [Answer(w, false)]), -1);
    if w < 8 * t.size || k + 1 == t.count {
      PatientBurst(t, mem, data, k, w);
      WroteStored(mem, Left(t, Burst(t, 0, k0, [], data)).next, t, data, 0, t.count);
    } else {
      SlowBurst(t, mem, data, k, w);
      var n := Left(t, Burst(t, 0, k0, [], data));
      var k1 := Resumed(n, gap + STARTING);
      IdleRun(t, gap, k + 1, 0, false, k1, data);
      var now := Run(t, 0, gap, k + 1, 0, false, k1, [], data).rest.next;
      WroteStored(k1.mem, now, t, data, k + 1, t.count);
      WroteKeeps(k1.mem, now, t, data, k + 1);
      if w < Patience(t, gap) {
        WroteStored(mem, k1.mem, t, data, 0, k + 1);
      } else {
        WroteStored(mem, k1.mem, t, data, 0, k);
      }
    }
  }

  // --- exactly when ---

  /** A transfer from the state `k` of the module that succeeds writes the memory, at the latest when
      the bus is done */
  ghost predicate WrittenIfDone(t: Transfer, gap: nat, known: bool, k: Store, faults: seq<Fault>, data: seq<Word>)
    requires t.size in {1, 2, 4} && 0 < t.count <= |data| && k.e <= t.count
  {
    var r := Run(t, 0, gap, 0, 0, known, k, faults, data); r.outcome.Complete? ==> AllStored(r.rest.next, t, data, 0)
  }

  function AllOnes(n: nat): (data: seq<Word>)
    ensures |data| == n && forall k :: 0 <= k < n ==> data[k] == ONES
  {
    seq(n, _ => ONES)
  }

  /** Whatever errors the cable reports, with failing transfers of fewer than `n` clocks and others of
      fewer than `m`, every successful transfer has written every word exactly when no transfer can fail
      as late as the next word, or the end of the scan if there is one word only, and, if there are more,
      no other can take so long that it is dropped when the host starts again */
  lemma InTimeIff(start: nat, size: nat, count: nat, gap: nat, known: bool, n: nat, m: nat)
    requires size in {1, 2, 4} && count > 0
    ensures (forall mem: Memory, answers: seq<Answer>, faults: seq<Fault>, data: seq<Word> ::
               |data| == count && InTime(answers, n, m) && NoNoise(faults) ==>
                 WrittenIfDone(Transfer(mem, start, size, count), gap, known, Store(mem, answers, -1), faults, data))
      <==> var t := Transfer(map[], start, size, count); n <= Notice(t, 0) && (count == 1 || m <= Patience(t, gap))
  {
    hide *;
    Limits();
    var t0 := Transfer(map[], start, size, count);
    if n <= Notice(t0, 0) && (count == 1 || m <= Patience(t0, gap)) {
      forall mem: Memory, answers: seq<Answer>, faults: seq<Fault>, data: seq<Word>
        | |data| == count && InTime(answers, n, m) && NoNoise(faults)
        ensures WrittenIfDone(Transfer(mem, start, size, count), gap, known, Store(mem, answers, -1), faults, data)
      {
        var t := Transfer(mem, start, size, count);
        PromptFrom(answers, t, t0, gap, n, m);
        InTimeWrites(t, gap, known, Store(mem, answers, -1), faults, data);
      }
    } else if n > Notice(t0, 0) {
      LateWrong(start, size, count, gap, known, n, m);
    } else {
      SlowWrong(start, size, count, gap, known, n, m);
    }
  }

  lemma PromptFrom(answers: seq<Answer>, t: Transfer, u: Transfer, gap: nat, n: nat, m: nat)
    requires InTime(answers, n, m) && t.size == u.size && t.count == u.count
    requires n <= Notice(u, 0) && (u.count == 1 || m <= Patience(u, gap))
    ensures Prompt(answers, t, 0, gap)
  {
  }

  /** A failure that comes too late */
  lemma LateWrong(start: nat, size: nat, count: nat, gap: nat, known: bool, n: nat, m: nat)
    requires size in {1, 2, 4} && count > 0 && n > Notice(Transfer(map[], start, size, count), 0)
    ensures exists mem: Memory, answers: seq<Answer>, faults: seq<Fault>, data: seq<Word> ::
      && |data| == count && InTime(answers, n, m) && NoNoise(faults)
      && !WrittenIfDone(Transfer(mem, start, size, count), gap, known, Store(mem, answers, -1), faults, data)
  {
    hide *;
    Limits();
    var t0 := Transfer(map[], start, size, count);
    var w := Notice(t0, 0);
    var data, answers := AllOnes(count), [Answer(w, true)];
    OneInTime(w, true, n, m);
    FineNone(answers);
    NoFaults();
    LostIff(t0, gap, known, map[], data, 0, w);
    FirstNotice(t0);
    NothingThere(t0, data, Run(t0, 0, gap, 0, 0, known, Store(map[], Fine(0, answers), -1), [], data).rest.next);
    NotWritten(t0, gap, known, Store(map[], answers, -1), [], data);
    assert !WrittenIfDone(Transfer(map[], start, size, count), gap, known, Store(map[], answers, -1), [], data);
  }

  /** A word that takes too long */
  lemma SlowWrong(start: nat, size: nat, count: nat, gap: nat, known: bool, n: nat, m: nat)
    requires size in {1, 2, 4} && count > 1 && m > Patience(Transfer(map[], start, size, count), gap)
    ensures exists mem: Memory, answers: seq<Answer>, faults: seq<Fault>, data: seq<Word> ::
      && |data| == count && InTime(answers, n, m) && NoNoise(faults)
      && !WrittenIfDone(Transfer(mem, start, size, count), gap, known, Store(mem, answers, -1), faults, data)
  {
    hide *;
    Limits();
    var t0 := Transfer(map[], start, size, count);
    var w := Patience(t0, gap);
    var data, answers := AllOnes(count), [Answer(w, false)];
    OneInTime(w, false, n, m);
    FineNone(answers);
    NoFaults();
    DroppedIff(t0, gap, known, map[], data, 0, w);
    NothingThere(t0, data, Run(t0, 0, gap, 0, 0, known, Store(map[], Fine(0, answers), -1), [], data).rest.next);
    NotWritten(t0, gap, known, Store(map[], answers, -1), [], data);
    assert !WrittenIfDone(Transfer(map[], start, size, count), gap, known, Store(map[], answers, -1), [], data);
  }

  lemma FirstNotice(t: Transfer)
    requires t.count > 0
    ensures NoticedBefore(t, 0) == Notice(t, 0)
  {
  }

  lemma OneInTime(w: nat, err: bool, n: nat, m: nat)
    requires w < if err then n else m
    ensures InTime([Answer(w, err)], n, m)
  {
  }

  lemma NoFaults()
    ensures NoNoise([])
  {
  }

  lemma InTimeWrites(t: Transfer, gap: nat, known: bool, k: Store, faults: seq<Fault>, data: seq<Word>)
    requires t.size in {1, 2, 4} && 0 < t.count <= |data| && k.e == -1 && NoNoise(faults)
    requires Prompt(k.answers, t, 0, gap)
    ensures WrittenIfDone(t, gap, known, k, faults, data)
  {
    hide Run, AllStored, Stored;
    assert Kept(k.mem, t, data, 0, 0, -1, false);
    InTimeIsWritten(t, 0, gap, 0, 0, known, k, faults, data);
  }

  lemma NotWritten(t: Transfer, gap: nat, known: bool, k: Store, faults: seq<Fault>, data: seq<Word>)
    requires t.size in {1, 2, 4} && 0 < t.count <= |data| && k.e <= t.count
    requires var r := Run(t, 0, gap, 0, 0, known, k, faults, data); r.outcome.Complete? && !Stored(r.rest.next, t, data, 0)
    ensures !WrittenIfDone(t, gap, known, k, faults, data)
  {
    hide Run, Stored;
  }

  lemma NothingThere(t: Transfer, data: seq<Word>, now: Memory)
    requires t.size in {1, 2, 4} && |data| > 0 && data[0] == ONES
    requires ReadMem(now, t.Place(0), t.size) == ReadMem(map[], t.Place(0), t.size)
    ensures !Stored(now, t, data, 0)
  {
    hide ReadMem, Transfer.Place;
    NoBytes(map[], t.Place(0), t.size);
    assert Meant(data, t.size, 0)[0];
  }

  // --- a transfer that ends halfway ---

  /** A reported error on word `a` when the transfer of the word before takes `w` clocks: the transfer
      ends with the unit left in the middle of a burst exactly when the bus is not done with that
      word yet, and otherwise succeeds */
  lemma HalfwayIff(t: Transfer, gap: nat, known: bool, mem: Memory, data: seq<Word>, a: nat, w: nat, bits: Stream)
    requires t.size in {1, 2, 4} && 0 < a < t.count <= |data|
    ensures var r := Run(t, 0, gap, 0, 0, known, Store(mem, Fine(a - 1, [Answer(w, false)]), -1), CalmThen(a, Broken(bits)), data);
      && (r.outcome.Failed? <==> w >= 8 * t.size)
      && (w < 8 * t.size ==> r.outcome.Complete?)
  {
    hide *;
    Limits();
    var k0 := Store(mem, Fine(a - 1, [Answer(w, false)]), -1);
    var faults := CalmThen(a, Broken(bits));
    HalfwayBurst(t, mem, data, a, w, bits);
    var r := Burst(t, 0, k0, faults, data);
    RunHalfway(t, gap, known, k0, faults, data);
    if w < 8 * t.size {
      ResumedIs(Left(t, r), gap + STARTING);
      IdleRun(t, gap, a, 0, false, Resumed(Left(t, r), gap + STARTING), data);
    }
  }

  /** Nothing for `a` words, then `f` */
  function CalmThen(a: nat, f: Fault): (faults: seq<Fault>)
    ensures |faults| == a + 1 && faults[a] == f && forall k :: 0 <= k < a ==> faults[k] == Clean
  {
    seq(a, _ => Clean) + [f]
  }

  lemma RunHalfway(t: Transfer, gap: nat, known: bool, k: Store, faults: seq<Fault>, data: seq<Word>)
    requires 0 < t.size <= 4 && 0 < t.count <= |data| && k.e == -1
    ensures var r := Burst(t, 0, k, faults, data); var n := Left(t, r);
      && n.e <= t.count && (!r.stop.AllSent? ==> r.i < t.count) && Resumed(n, gap + STARTING).e == n.e
      && (r.stop.LostBusy? ==> Run(t, 0, gap, 0, 0, known, k, faults, data).outcome.Failed?)
      && (r.stop.Lost? ==>
            Run(t, 0, gap, 0, 0, known, k, faults, data) == Run(t, 0, gap, r.i, 0, false, Resumed(n, gap + STARTING), r.faults, data))
  {
    hide Burst, Left;
    Limits();
    BurstEnds(t, 0, k, faults, data);
  }

  lemma HalfwayBurst(t: Transfer, mem: Memory, data: seq<Word>, a: nat, w: nat, bits: Stream)
    requires t.size in {1, 2, 4} && 0 < a < t.count <= |data|
    ensures var r := Burst(t, 0, Store(mem, Fine(a - 1, [Answer(w, false)]), -1), CalmThen(a, Broken(bits)), data); var n := Left(t, r);
      && (w >= 8 * t.size ==> r.stop.LostBusy?)
      && (w < 8 * t.size ==> r.stop.Lost? && r.i == a && r.faults == [] && n.answers == [] && n.e == -1)
  {
    hide Transfer.Place, WriteMem, Fold, Give, Fine, Calm, Drop, Wrote;
    var faults := CalmThen(a, Broken(bits));
    var slow := [Answer(w, false)];
    var s0 := Cleared(Store(mem, Fine(a - 1, slow), -1));
    CalmPrefix(faults, a);
    var s, c := SendFine(t, 0, s0, a - 1, slow, faults, data, ONES);
    var rest := Drop(faults, a - 1);
    var v := Meant(data, t.size, a - 1);
    SendOnce(t, a - 1, s, rest, data, c);
    GiveSlow(t, a - 1, s, data, w);
    var s1 := Give(t, a - 1, s, v);
    GiveLast(t, a, s1, Received(Broken(bits), Meant(data, t.size, a)));
  }

  lemma CalmPrefix(faults: seq<Fault>, a: nat)
    requires 0 < a < |faults| && forall k :: 0 <= k < a ==> faults[k] == Clean
    ensures Calm(faults, a - 1)
  {
  }

  lemma GiveLast(t: Transfer, i: nat, s: Flow, bits: Stream)
    requires t.size in {1, 2, 4} && |bits| == 8 * t.size && s.answers == [] && !s.fail
    ensures var n := Give(t, i, s, bits); n.answers == [] && n.e == s.e && !n.fail
  {
    hide WriteMem, Transfer.Place;
  }
}
