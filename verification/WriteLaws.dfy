/** When a burst write that succeeds has written the memory. */
module WriteLaws {
  import opened Bits
  import opened ShiftRegister
  import Crc
  import opened DebugUnit
  import opened Transfers
  import opened WriteRun

  // --- nothing else changes ---

  /** Nothing outside the transfer's words from `lo` on has changed */
  ghost predicate Outside(mem: Memory, t: Transfer, lo: nat)
    requires t.size > 0
  {
    forall a: nat :: !(Lane(t.start, t.size) + lo * t.size <= a < Lane(t.start, t.size) + t.count * t.size) ==>
      ByteAt(mem, a) == ByteAt(t.mem, a)
  }

  lemma GiveOutside(t: Transfer, lo: nat, i: nat, mem: Memory, bits: Stream)
    requires t.size in {1, 2, 4} && lo <= i < t.count && |bits| == 8 * t.size && Outside(mem, t, lo)
    ensures Outside(WriteMem(mem, t.Place(i), bits), t, lo)
  {
    hide WriteMem, Transfer.Place, Lane;
    PlaceIs(t, i);
    Inside(i, t.count, t.size);
    if lo < i { Inside(lo, i, t.size); }
    forall a: nat | !(Lane(t.start, t.size) + lo * t.size <= a < Lane(t.start, t.size) + t.count * t.size)
      ensures ByteAt(WriteMem(mem, t.Place(i), bits), a) == ByteAt(t.mem, a)
    {
      WriteOutside(mem, t.Place(i), bits, a);
    }
  }

  lemma Inside(i: nat, n: nat, size: nat)
    requires i < n
    ensures i * size + size <= n * size
  {
    Multiply(i + 1, n - i - 1, size);
    Multiply(i, 1, size);
  }

  /** The error register names no word before `lo`, and never will */
  predicate Above(e: int, lo: nat) {
    e < 0 || lo <= e
  }

  lemma {:induction false} SendOutside(t: Transfer, lo: nat, i: nat, s: Flow, faults: seq<Fault>, data: seq<Word>,
                                       host: Word, unit: Word)
    requires t.size in {1, 2, 4} && lo <= i < t.count <= |data| && Outside(s.mem, t, lo) && Outside(s.next, t, lo)
    requires Above(s.e, lo) && (s.fail ==> lo < i)
    ensures var r := SendOn(t, i, s, faults, data, host, unit); Outside(r.s.mem, t, lo) && Outside(r.s.next, t, lo) && Above(r.s.e, lo)
    decreases t.count - i
  {
    hide Transfer.Place, WriteMem, Fold, Outside;
    var f := NextFault(faults);
    var bits := Received(f, Meant(data, t.size, i));
    GiveOutside(t, lo, i, s.next, bits);
    if s.left <= 8 * t.size && !f.Broken? && i + 1 < t.count {
      SendOutside(t, lo, i + 1, Give(t, i, s, bits), LaterFaults(faults), data, Fold(Crc.POLY, host, Meant(data, t.size, i)),
                  Fold(Crc.POLY, unit, bits));
    }
  }

  lemma BurstOutside(t: Transfer, lo: nat, i: nat, k: Store, faults: seq<Fault>, data: seq<Word>)
    requires t.size in {1, 2, 4} && lo <= i < t.count <= |data| && Outside(k.mem, t, lo) && Above(k.e, lo)
    ensures var n := Left(t, Burst(t, i, k, faults, data)); Outside(n.mem, t, lo) && Outside(n.next, t, lo) && Above(n.e, lo)
  {
    hide SendOn, Outside;
    SendOutside(t, lo, i, Cleared(k), faults, data, ONES, ONES);
  }

  /** Whatever happens, a transfer whose error register names no word before `lo` changes no byte outside
      its words from there on, now or when the bus is done */
  lemma {:induction false} RunOutside(t: Transfer, lo: nat, home: nat, gap: nat, i: nat, errors: nat, known: bool,
                                      k: Store, faults: seq<Fault>, data: seq<Word>)
    requires t.size in {1, 2, 4} && lo <= i < t.count <= |data| && lo <= home < t.count && k.e <= t.count
    requires errors <= MAX_BUS_ERRORS
    requires Outside(k.mem, t, lo) && Above(k.e, lo)
    ensures var n := Run(t, home, gap, i, errors, known, k, faults, data).rest; Outside(n.mem, t, lo) && Outside(n.next, t, lo)
    decreases |k.answers| + |faults| + (MAX_BUS_ERRORS - errors)
  {
    hide Burst, Outside, Left;
    BurstEnds(t, i, k, faults, data);
    BurstOutside(t, lo, i, k, faults, data);
    var r := Burst(t, i, k, faults, data);
    var n := Left(t, r);
    if r.stop.LostBusy? {
    } else if !r.stop.AllSent? {
      RunOutside(t, lo, home, gap, r.i, errors, false, Resumed(n, gap + STARTING), r.faults, data);
    } else if r.host != r.unit {
      RunOutside(t, lo, home, gap, home, errors, false, Resumed(n, gap + 4 + STARTING), r.faults, data);
    } else if n.e >= 0 && errors < MAX_BUS_ERRORS && n.e < t.count {
      RunOutside(t, lo, home, gap, n.e, errors + 1, true, Resumed(n.(e := -1), ErrorGap(known) + STARTING), r.faults, data);
    }
  }

  // --- what is kept ---

  /** The memory holds word `k` as the host means it */
  predicate Stored(mem: Memory, t: Transfer, data: seq<Word>, k: nat)
    requires 0 < t.size <= 4 && k < |data|
  {
    ReadMem(mem, t.Place(k), t.size) == Meant(data, t.size, k)
  }

  /** The words from `home` up to `i` are stored but for those the error register disowns, and the last
      one while it is `open` */
  ghost predicate Kept(mem: Memory, t: Transfer, data: seq<Word>, home: nat, i: nat, e: int, open: bool)
    requires 0 < t.size <= 4
  {
    i <= |data| && forall k :: home <= k < i && (e < 0 || k < e) && !(open && k == i - 1) ==> Stored(mem, t, data, k)
  }

  /** Every word from `home` on is stored */
  ghost predicate AllStored(mem: Memory, t: Transfer, data: seq<Word>, home: nat)
    requires 0 < t.size <= 4
  {
    t.count <= |data| && forall k :: home <= k < t.count ==> Stored(mem, t, data, k)
  }

  /** The clocks a transfer that is going to fail may take and still be noticed */
  function Notice(t: Transfer, home: nat): nat {
    if t.count == home + 1 then CLOSING else 8 * t.size
  }

  /** The clocks another may take and still not be dropped when the host starts again: those of the next
      word and its status bit, of the reset up to Update-DR, and from there to the first bit */
  function Patience(t: Transfer, gap: nat): nat {
    8 * t.size + 1 + CUTTING + gap + STARTING
  }

  /** Every transfer that fails does so in fewer than `n` clocks, every other takes fewer than `m` */
  ghost predicate InTime(answers: seq<Answer>, n: nat, m: nat) {
    forall i :: 0 <= i < |answers| ==> answers[i].wait < if answers[i].err then n else m
  }

  /** As a transfer of the words from `home` on needs it */
  ghost predicate Prompt(answers: seq<Answer>, t: Transfer, home: nat, gap: nat) {
    if t.count == home + 1 then forall i :: 0 <= i < |answers| && answers[i].err ==> answers[i].wait < CLOSING
    else InTime(answers, 8 * t.size, Patience(t, gap))
  }

  lemma PlacesDiffer(t: Transfer, i: nat, k: nat)
    requires t.size in {1, 2, 4}
    ensures t.Place(i) == t.Place(k) <==> i == k
  {
    PlaceIs(t, i);
    PlaceIs(t, k);
    hide Transfer.Place, Lane;
    if i < k { Inside(i, k, t.size); } else if k < i { Inside(k, i, t.size); }
  }

  /** A word given to the bus leaves the others as they are */
  lemma GiveStored(mem: Memory, t: Transfer, data: seq<Word>, i: nat, bits: Stream, k: nat)
    requires t.size in {1, 2, 4} && |bits| == 8 * t.size && k < |data|
    ensures Stored(WriteMem(mem, t.Place(i), bits), t, data, k)
       <==> if k == i then bits == Meant(data, t.size, k) else Stored(mem, t, data, k)
  {
    hide ReadMem, WriteMem, Lane;
    PlacesDiffer(t, i, k);
    BusAccess(mem, t.At(i), t.At(k), t.size, bits);
  }

  /** Between words: all are kept once the transfer in progress is over, and all but the last one now */
  ghost predicate Keeps(t: Transfer, s: Flow, data: seq<Word>, home: nat, i: nat)
    requires 0 < t.size <= 4
  {
    && s.e <= i && s.e < t.count && (s.e < 0 || home <= s.e) && Kept(s.next, t, data, home, i, s.e, s.fail) && Kept(s.mem, t, data, home, i, s.e, true)
    && (s.fail ==> i > home && s.e < i)
  }

  lemma GiveKept(t: Transfer, home: nat, i: nat, s: Flow, data: seq<Word>, bits: Stream)
    requires t.size in {1, 2, 4} && home <= i < t.count <= |data| && bits == Meant(data, t.size, i)
    requires Keeps(t, s, data, home, i)
    ensures Keeps(t, Give(t, i, s, bits), data, home, i + 1)
  {
    hide ReadMem, WriteMem, Transfer.Place, Stored;
    var s1 := Give(t, i, s, bits);
    forall k | home <= k < i + 1 && (s1.e < 0 || k < s1.e) && !(s1.fail && k == i)
      ensures Stored(s1.next, t, data, k)
    {
      GiveStored(s.next, t, data, i, bits, k);
    }
  }

  /** A word that is going to be sent again */
  lemma GiveBroken(t: Transfer, home: nat, i: nat, s: Flow, data: seq<Word>, bits: Stream)
    requires t.size in {1, 2, 4} && i < |data| && |bits| == 8 * t.size && Keeps(t, s, data, home, i)
    ensures var s1 := Give(t, i, s, bits);
      s1.e <= i && (s1.e < 0 || home <= s1.e) && Kept(s1.next, t, data, home, i, s1.e, false) && Kept(s1.mem, t, data, home, i, s1.e, false)
  {
    hide ReadMem, WriteMem, Transfer.Place, Stored;
    var s1 := Give(t, i, s, bits);
    forall k | home <= k < i && (s1.e < 0 || k < s1.e)
      ensures Stored(s1.next, t, data, k)
    {
      GiveStored(s.next, t, data, i, bits, k);
    }
  }

  /** A transfer of the burst that is in progress is prompt, too */
  predicate Going(t: Transfer, home: nat, s: Flow, gap: nat) {
    t.count == home + 1 || s.left <= if s.fail then 8 * t.size else Patience(t, gap)
  }

  /** In a burst whose transfers are prompt and whose words arrive unspoilt, nothing is lost */
  lemma {:induction false} SendKeeps(t: Transfer, home: nat, gap: nat, i: nat, s: Flow, faults: seq<Fault>,
                                     data: seq<Word>, c: Word)
    requires t.size in {1, 2, 4} && i < t.count <= |data| && NoNoise(faults) && Prompt(s.answers, t, home, gap)
    requires Keeps(t, s, data, home, i) && Going(t, home, s, gap) && home <= i && (i == home ==> s.left == 0)
    ensures var r := SendOn(t, i, s, faults, data, c, c);
      && NoNoise(r.faults) && Prompt(r.s.answers, t, home, gap) && r.host == r.unit && r.s.e <= r.i && (r.s.e < 0 || home <= r.s.e)
      && (r.stop.AllSent? ==> r.i == t.count && Keeps(t, r.s, data, home, t.count) && (r.s.fail ==> r.s.left <= CLOSING))
      && (!r.stop.AllSent? ==>
            && Kept(r.s.next, t, data, home, r.i, r.s.e, false)
            && (Kept(r.s.mem, t, data, home, r.i, r.s.e, false) || r.s.left <= CUTTING + gap + STARTING))
    decreases t.count - i
  {
    hide ReadMem, WriteMem, Transfer.Place, Stored, Fold, Give, Kept, Received;
    var f := NextFault(faults);
    if s.left <= 8 * t.size {
      var bits := Received(f, Meant(data, t.size, i));
      if f.Broken? {
        GiveBroken(t, home, i, s, data, bits);
        GiveGoing(t, home, gap, i, s, bits);
      } else {
        Unspoilt(f, Meant(data, t.size, i), faults);
        GiveKept(t, home, i, s, data, bits);
        GiveGoing(t, home, gap, i, s, bits);
        if i + 1 < t.count {
          SendKeeps(t, home, gap, i + 1, Give(t, i, s, bits), LaterFaults(faults), data, Fold(Crc.POLY, c, bits));
        }
      }
    }
  }

  lemma Unspoilt(f: Fault, w: Stream, faults: seq<Fault>)
    requires NoNoise(faults) && f == NextFault(faults)
    ensures !f.Broken? ==> Received(f, w) == w
    ensures NoNoise(LaterFaults(faults))
  {
    NoMask(w);
  }

  lemma GiveGoing(t: Transfer, home: nat, gap: nat, i: nat, s: Flow, bits: Stream)
    requires t.size in {1, 2, 4} && |bits| == 8 * t.size && Prompt(s.answers, t, home, gap)
    ensures var s1 := Give(t, i, s, bits);
      && Going(t, home, s1, gap) && Prompt(s1.answers, t, home, gap) && (s1.fail ==> s1.left <= CLOSING)
  {
    hide WriteMem, Transfer.Place;
  }

  /** What the next burst finds after one that stopped */
  lemma StoppedKeeps(t: Transfer, home: nat, gap: nat, r: Course, data: seq<Word>)
    requires 0 < t.size <= 4 && !r.stop.AllSent? && Kept(r.s.next, t, data, home, r.i, r.s.e, false)
    requires Kept(r.s.mem, t, data, home, r.i, r.s.e, false) || r.s.left <= CUTTING + gap + STARTING
    ensures var k := Resumed(Left(t, r), gap + STARTING); k.e == r.s.e && Kept(k.mem, t, data, home, r.i, k.e, false)
  {
    hide Kept;
  }

  /** And after one that was sent to the end */
  lemma SentKeeps(t: Transfer, home: nat, r: Course, data: seq<Word>, gap: nat)
    requires 0 < t.size <= 4 && r.stop.AllSent? && home < t.count && Keeps(t, r.s, data, home, t.count) && (r.s.fail ==> r.s.left <= CLOSING)
    ensures var n := Left(t, r);
      && n.e < t.count && (n.e < 0 || home <= n.e) && (n.e < 0 ==> AllStored(n.next, t, data, home))
      && (n.e >= 0 ==> Kept(Resumed(n.(e := -1), gap).mem, t, data, home, n.e, -1, false))
  {
    hide Stored;
  }

  /** If no word is silently spoilt and every transfer on the bus is prompt, a successful transfer has
      written every word, at the latest when the bus is done, whatever errors the cable reports */
  lemma {:induction false} InTimeIsWritten(t: Transfer, home: nat, gap: nat, i: nat, errors: nat, known: bool,
                                           k: Store, faults: seq<Fault>, data: seq<Word>)
    requires t.size in {1, 2, 4} && i < t.count <= |data| && home < t.count && k.e <= t.count
    requires errors <= MAX_BUS_ERRORS
    requires NoNoise(faults) && Prompt(k.answers, t, home, gap) && home <= i && (k.e < 0 || home <= k.e <= i) && Kept(k.mem, t, data, home, i, k.e, false)
    ensures var r := Run(t, home, gap, i, errors, known, k, faults, data); r.outcome.Complete? ==> AllStored(r.rest.next, t, data, home)
    decreases |k.answers| + |faults| + (MAX_BUS_ERRORS - errors)
  {
    hide SendOn, Stored, Prompt, Kept, AllStored, Left, NoNoise;
    BurstEnds(t, i, k, faults, data);
    ClearedKeeps(t, home, gap, i, k, data);
    SendKeeps(t, home, gap, i, Cleared(k), faults, data, ONES);
    var r := Burst(t, i, k, faults, data);
    var n := Left(t, r);
    LeftAnswers(t, r);
    if r.stop.LostBusy? {
    } else if !r.stop.AllSent? {
      StoppedKeeps(t, home, gap, r, data);
      InTimeIsWritten(t, home, gap, r.i, errors, false, Resumed(n, gap + STARTING), r.faults, data);
    } else {
      SentKeeps(t, home, r, data, ErrorGap(known) + STARTING);
      if n.e >= 0 && errors < MAX_BUS_ERRORS {
        InTimeIsWritten(t, home, gap, n.e, errors + 1, true, Resumed(n.(e := -1), ErrorGap(known) + STARTING), r.faults, data);
      }
    }
  }

  lemma ClearedKeeps(t: Transfer, home: nat, gap: nat, i: nat, k: Store, data: seq<Word>)
    requires 0 < t.size <= 4 && k.e <= i < t.count && (k.e < 0 || home <= k.e) && Kept(k.mem, t, data, home, i, k.e, false)
    ensures Keeps(t, Cleared(k), data, home, i) && Going(t, home, Cleared(k), gap)
  {
    hide Stored;
  }

  lemma LeftAnswers(t: Transfer, r: Course)
    ensures Left(t, r).answers == r.s.answers
  {
  }

  // --- what is left for later ---

  lemma {:induction false} SendSpends(t: Transfer, i: nat, s: Flow, faults: seq<Fault>, data: seq<Word>, host: Word,
                                      unit: Word, n: nat)
    requires 0 < t.size <= 4 && i < t.count <= |data|
    ensures var r := SendOn(t, i, s, faults, data, host, unit);
      && Failures(r.s.answers) <= Failures(s.answers) && (NoNoise(faults) ==> NoNoise(r.faults))
      && (InTime(s.answers, n, n) ==> InTime(r.s.answers, n, n) && (r.stop.AllSent? ==> r.s.left <= n || r.s.left == 1))
    decreases t.count - i
  {
    hide Transfer.Place, WriteMem, Fold;
    var f := NextFault(faults);
    if s.left <= 8 * t.size && !f.Broken? && i + 1 < t.count {
      var bits := Received(f, Meant(data, t.size, i));
      SendSpends(t, i + 1, Give(t, i, s, bits), LaterFaults(faults), data, Fold(Crc.POLY, host, Meant(data, t.size, i)),
                 Fold(Crc.POLY, unit, bits), n);
    }
  }

  /** What a transfer of fewer than `n` clocks still has to go when the scan of its burst is over */
  predicate Brief(s: Flow, n: nat) {
    s.left == 0 || s.left + CLOSING + 1 <= n
  }

  lemma BurstSpends(t: Transfer, i: nat, k: Store, faults: seq<Fault>, data: seq<Word>, n: nat)
    requires 0 < t.size <= 4 && i < t.count <= |data|
    ensures var r := Burst(t, i, k, faults, data);
      && Failures(Left(t, r).answers) <= Failures(k.answers) && (NoNoise(faults) ==> NoNoise(r.faults))
      && (InTime(k.answers, n, n) ==> InTime(Left(t, r).answers, n, n) && (r.stop.AllSent? ==> Brief(Left(t, r), n)))
  {
    hide SendOn;
    SendSpends(t, i, Cleared(k), faults, data, ONES, ONES, n);
  }

  /** A transfer uses answers and faults up */
  lemma {:induction false} RunSpends(t: Transfer, home: nat, gap: nat, i: nat, errors: nat, known: bool, k: Store,
                                     faults: seq<Fault>, data: seq<Word>, n: nat)
    requires 0 < t.size <= 4 && i < t.count <= |data| && home < t.count && k.e <= t.count && errors <= MAX_BUS_ERRORS
    ensures var s := Run(t, home, gap, i, errors, known, k, faults, data);
      && Failures(s.rest.answers) <= Failures(k.answers) && (NoNoise(faults) ==> NoNoise(s.faults))
      && (InTime(k.answers, n, n) ==> InTime(s.rest.answers, n, n) && (s.outcome.Complete? ==> Brief(s.rest, n)))
    decreases |k.answers| + |faults| + (MAX_BUS_ERRORS - errors)
  {
    hide Burst, Failures, Left, InTime, NoNoise, Brief;
    BurstEnds(t, i, k, faults, data);
    BurstSpends(t, i, k, faults, data, n);
    var r := Burst(t, i, k, faults, data);
    var l := Left(t, r);
    if r.stop.LostBusy? {
    } else if !r.stop.AllSent? {
      RunSpends(t, home, gap, r.i, errors, false, Resumed(l, gap + STARTING), r.faults, data, n);
    } else if r.host != r.unit {
      RunSpends(t, home, gap, home, errors, false, Resumed(l, gap + 4 + STARTING), r.faults, data, n);
    } else if l.e >= 0 && errors < MAX_BUS_ERRORS && l.e < t.count {
      RunSpends(t, home, gap, l.e, errors + 1, true, Resumed(l.(e := -1), ErrorGap(known) + STARTING), r.faults, data, n);
    }
  }
}
