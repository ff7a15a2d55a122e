/** A burst write word by word, on a chain without other devices: which words the bus takes, which
    it refuses or drops, and where the host starts again.  `BurstWrite` proves that the clocks on the
    chain come to exactly this. */
module WriteRun {
  import opened Bits
  import opened ShiftRegister
  import Crc
  import opened DebugUnit
  import opened Transfers

  /** What the first bit of a burst finds, when the bus has been cleared: the memory, how the bus will
      answer, and the word the error register names, -1 for none and `count` for none of the transfer's */
  datatype Store = Store(mem: Memory, answers: seq<Answer>, e: int)

  /** A transfer in progress takes `left` more clocks, fails or not, and leaves the memory `next` behind */
  datatype Flow = Flow(mem: Memory, next: Memory, left: nat, fail: bool, answers: seq<Answer>, e: int)

  /** The bits of word `k` as the host means them */
  function Meant(data: seq<Word>, size: nat, k: nat): (s: Stream)
    requires k < |data| && size <= 4
    ensures |s| == 8 * size
  {
    data[k][..8 * size]
  }

  /** Word `i` is taken, when the one before it is done: the register notes a failure of that one, and
      the bus is given the bits */
  function Give(t: Transfer, i: nat, s: Flow, bits: Stream): Flow
    requires 0 < t.size <= 4 && |bits| == 8 * t.size
  {
    var a := NextAnswer(s.answers);
    Flow(s.next, if a.err then s.next else WriteMem(s.next, t.Place(i), bits), a.wait + 1, a.err, LaterAnswers(s.answers),
         if s.fail && s.e < 0 then i - 1 else s.e)
  }

  function Later(s: Flow, k: nat): Flow {
    if s.left > k then s.(left := s.left - k) else s.(left := 0, mem := s.next)
  }

  /** How the sending of words ends: all taken, one that came before the bus was ready, one whose
      sending the adapter reports as failed, or both at once */
  datatype Halt = AllSent | Busy | Lost | LostBusy

  /** A burst when it has stopped: at which word, and the two check words */
  datatype Course = Course(stop: Halt, i: nat, s: Flow, faults: seq<Fault>, host: Word, unit: Word)

  /** The words from `i` on.  The bus must be done with a word when the next one is in. */
  function SendOn(t: Transfer, i: nat, s: Flow, faults: seq<Fault>, data: seq<Word>, host: Word, unit: Word): Course
    requires 0 < t.size <= 4 && i < t.count <= |data|
    decreases t.count - i
  {
    var f, later := NextFault(faults), LaterFaults(faults);
    if s.left > 8 * t.size then Course(if f.Broken? then LostBusy else Busy, i, Later(s, 8 * t.size + 1), later, host, unit)
    else
      var bits := Received(f, Meant(data, t.size, i));
      var s1 := Give(t, i, s, bits);
      var host1, unit1 := Fold(Crc.POLY, host, Meant(data, t.size, i)), Fold(Crc.POLY, unit, bits);
      if f.Broken? then Course(Lost, i, s1, later, host, unit)
      else if i + 1 == t.count then Course(AllSent, t.count, s1, later, host1, unit1)
      else SendOn(t, i + 1, s1, later, data, host1, unit1)
  }

  /** The state of the bus behind its first bit */
  function Cleared(k: Store): Flow {
    Flow(k.mem, k.mem, 0, false, k.answers, k.e)
  }

  /** One burst, from word `i` on */
  function Burst(t: Transfer, i: nat, k: Store, faults: seq<Fault>, data: seq<Word>): Course
    requires 0 < t.size <= 4 && i < t.count <= |data|
  {
    SendOn(t, i, Cleared(k), faults, data, ONES, ONES)
  }

  /** From the last bit of the last word to the end of the scan: the check word, its match bit and
      the way to Update-DR */
  const CLOSING: nat := 35

  /** And from the last bit that was sent to the end of a burst that a reset cuts short */
  const CUTTING: nat := 4

  /** When the burst is over.  One cut short leaves the error register alone; one that ends notices the
      last word's failure if the bus reports it in time. */
  function Left(t: Transfer, r: Course): Flow {
    var noticed := r.stop.AllSent? && r.s.fail && r.s.left <= CLOSING && r.s.e < 0;
    var s := Later(r.s, if r.stop.AllSent? then CLOSING + 1 else CUTTING);
    s.(e := if noticed then t.count - 1 else r.s.e)
  }

  /** What the next burst finds, whose first bit comes `gap` clocks later: a transfer still in progress
      is dropped then */
  function Resumed(s: Flow, gap: nat): Store {
    Store(Later(s, gap).mem, s.answers, s.e)
  }

  lemma ResumedIs(s: Flow, gap: nat)
    ensures Resumed(s, gap).answers == s.answers && Resumed(s, gap).e == s.e
  {
  }

  /** From the end of a burst command to the first bit of the burst: the way to Shift-DR and the start bit */
  const STARTING: nat := 4

  /** From the end of a burst to the end of the command of the next when the error register is read and
      cleared in between; it need not be selected if it still is */
  function ErrorGap(known: bool): nat { if known then 124 else 135 }

  /** `Astray`: the next burst would not be one for words of the transfer, and is not followed */
  datatype Written = Complete | TooManyErrors | BadChain | Failed | Astray

  /** A transfer when it is over; its last burst started with word `last` */
  datatype Ended = Ended(outcome: Written, rest: Flow, faults: seq<Fault>, last: nat)

  lemma {:induction false} SendRange(t: Transfer, i: nat, s: Flow, faults: seq<Fault>, data: seq<Word>, host: Word,
                                     unit: Word, a0: nat)
    requires 0 < t.size <= 4 && i < t.count <= |data| && s.e <= t.count
    requires |s.answers| <= a0 && (s.left <= 1 || |s.answers| < a0)
    ensures var r := SendOn(t, i, s, faults, data, host, unit);
      && r.s.e <= t.count && i <= r.i <= t.count && (r.stop.AllSent? <==> r.i == t.count)
      && |r.faults| <= |faults| && |r.s.answers| <= a0
      && (r.stop.Busy? ==> |r.s.answers| < a0) && (r.stop.Lost? || r.stop.LostBusy? ==> |r.faults| < |faults|)
      && (host == unit && |r.faults| == |faults| && r.stop.AllSent? ==> r.host == r.unit)
    decreases t.count - i
  {
    hide Transfer.Place, WriteMem, Fold;
    var f := NextFault(faults);
    if s.left <= 8 * t.size && !f.Broken? {
      if faults == [] { NoMask(Meant(data, t.size, i)); }
      if i + 1 < t.count {
        var bits := Received(f, Meant(data, t.size, i));
        SendRange(t, i + 1, Give(t, i, s, bits), LaterFaults(faults), data, Fold(Crc.POLY, host, Meant(data, t.size, i)),
                  Fold(Crc.POLY, unit, bits), a0);
      }
    }
  }

  lemma SendOnIs(t: Transfer, i: nat, s: Flow, faults: seq<Fault>, data: seq<Word>, host: Word, unit: Word)
    requires 0 < t.size <= 4 && i < t.count <= |data|
    ensures var f, later := NextFault(faults), LaterFaults(faults);
      var bits := Received(f, Meant(data, t.size, i)); var s1 := Give(t, i, s, bits);
      var host1, unit1 := Fold(Crc.POLY, host, Meant(data, t.size, i)), Fold(Crc.POLY, unit, bits);
      SendOn(t, i, s, faults, data, host, unit) ==
        if s.left > 8 * t.size then Course(if f.Broken? then LostBusy else Busy, i, Later(s, 8 * t.size + 1), later, host, unit)
        else if f.Broken? then Course(Lost, i, s1, later, host, unit)
        else if i + 1 == t.count then Course(AllSent, t.count, s1, later, host1, unit1)
        else SendOn(t, i + 1, s1, later, data, host1, unit1)
  {
    hide Give, Fold, Meant;
  }

  lemma BurstEnds(t: Transfer, i: nat, k: Store, faults: seq<Fault>, data: seq<Word>)
    requires 0 < t.size <= 4 && i < t.count <= |data| && k.e <= t.count
    ensures var r := Burst(t, i, k, faults, data);
      && Left(t, r).e <= t.count && i <= r.i <= t.count && (r.stop.AllSent? <==> r.i == t.count)
      && |r.faults| <= |faults| && |Left(t, r).answers| <= |k.answers|
      && (!r.stop.AllSent? || r.host != r.unit ==> |r.faults| + |Left(t, r).answers| < |faults| + |k.answers|)
  {
    hide SendOn;
    SendRange(t, i, Cleared(k), faults, data, ONES, ONES, |k.answers|);
  }

  /** Bursts from word `i` on until all words are out and the error register is clear, too many bus
      errors, or an error that stays.  The words from `home` on are those that the host was asked to
      write: there a transfer starts from the beginning.  It starts again `gap` clocks after a burst cut
      short, and 4 later after a failed check; `known` says whether the error register is still selected. */
  function Run(t: Transfer, home: nat, gap: nat, i: nat, errors: nat, known: bool, k: Store, faults: seq<Fault>,
               data: seq<Word>): Ended
    requires 0 < t.size <= 4 && i < t.count <= |data| && home < t.count && k.e <= t.count && errors <= MAX_BUS_ERRORS
    decreases |k.answers| + |faults| + (MAX_BUS_ERRORS - errors)
  {
    var r := Burst(t, i, k, faults, data);
    var n := Left(t, r);
    BurstEnds(t, i, k, faults, data);
    if r.stop.LostBusy? then Ended(Failed, Later(n, gap), r.faults, i)
    else if !r.stop.AllSent? then Run(t, home, gap, r.i, errors, false, Resumed(n, gap + STARTING), r.faults, data)
    else if r.host != r.unit then Run(t, home, gap, home, errors, false, Resumed(n, gap + 4 + STARTING), r.faults, data)
    else if n.e < 0 then Ended(Complete, n, r.faults, i)
    else if errors == MAX_BUS_ERRORS then Ended(TooManyErrors, n, r.faults, i)
    else if n.e == t.count then Ended(Astray, n.(e := -1), r.faults, i)
    else Run(t, home, gap, n.e, errors + 1, true, Resumed(n.(e := -1), ErrorGap(known) + STARTING), r.faults, data)
  }
}
