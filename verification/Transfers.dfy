/** Burst transfers as the host means them, and what can befall their words on the cable. */
module Transfers {
  import opened Bits
  import opened ShiftRegister
  import Crc
  import opened DebugUnit

  const MAX_READ_STATUS_WAIT: nat := 100
  const MAX_BUS_ERRORS: nat := 10

  lemma Limits()
    ensures MAX_READ_STATUS_WAIT == 100 && MAX_BUS_ERRORS == 10
  {
  }

  // --- the cable ---

  /** What befalls a word on its way through the cable: nothing, flipped bits, or an error the
      adapter reports along with whatever it read */
  datatype Fault = Clean | Noise(mask: Stream) | Broken(bits: Stream)

  function Mask(f: Fault, n: nat): (s: Stream)
    ensures |s| == n
  {
    if f.Noise? && |f.mask| == n then f.mask else Fill(n, false)
  }

  function Received(f: Fault, sent: Stream): (s: Stream)
    ensures |s| == |sent|
  {
    if f.Broken? then (if |f.bits| == |sent| then f.bits else sent) else Xor(sent, Mask(f, |sent|))
  }

  lemma NoMask(w: Stream)
    ensures Xor(w, Fill(|w|, false)) == w
  {
  }

  /** What befalls the next word; nothing once the list is used up */
  function NextFault(faults: seq<Fault>): Fault {
    if faults == [] then Clean else faults[0]
  }

  function LaterFaults(faults: seq<Fault>): seq<Fault> {
    if faults == [] then [] else faults[1..]
  }

  ghost predicate NoNoise(faults: seq<Fault>) {
    forall i :: 0 <= i < |faults| ==> !faults[i].Noise?
  }

  ghost predicate NoReports(faults: seq<Fault>) {
    forall i :: 0 <= i < |faults| ==> !faults[i].Broken?
  }

  /** Nothing befalls the next `m` words */
  predicate Calm(faults: seq<Fault>, m: nat) {
    forall k :: 0 <= k < m && k < |faults| ==> faults[k].Clean?
  }

  function Drop(faults: seq<Fault>, m: nat): (f: seq<Fault>)
    ensures |f| == if m <= |faults| then |faults| - m else 0
    ensures forall k :: 0 <= k < |f| ==> f[k] == faults[m + k]
  {
    if m <= |faults| then faults[m..] else []
  }

  lemma DropOne(faults: seq<Fault>, m: nat)
    requires Calm(faults, m) && m > 0
    ensures NextFault(faults) == Clean && Calm(LaterFaults(faults), m - 1)
    ensures Drop(LaterFaults(faults), m - 1) == Drop(faults, m)
  {
  }

  lemma CalmLess(faults: seq<Fault>, m: nat, k: nat)
    requires Calm(faults, m) && k <= m
    ensures Calm(faults, k) && Calm(Drop(faults, k), m - k)
  {
  }

  lemma DropAt(faults: seq<Fault>, m: nat)
    requires m < |faults|
    ensures Drop(faults, m) != [] && Drop(faults, m)[0] == faults[m] && Drop(faults, m)[1..] == Drop(faults, m + 1)
  {
  }

  lemma DropTwice(faults: seq<Fault>, m: nat, n: nat)
    ensures Drop(Drop(faults, m), n) == Drop(faults, m + n)
  {
  }

  lemma CalmNone(n: nat)
    ensures Calm([], n)
  {
  }

  // --- the bus ---

  function NextAnswer(answers: seq<Answer>): Answer {
    if answers == [] then Answer(0, false) else answers[0]
  }

  function LaterAnswers(answers: seq<Answer>): seq<Answer> {
    if answers == [] then [] else answers[1..]
  }

  /** How many of the transfers to come fail */
  function Failures(answers: seq<Answer>): nat {
    if answers == [] then 0 else (if answers[0].err then 1 else 0) + Failures(answers[1..])
  }

  // --- transfers ---

  /** `count` words of `size` bytes each from bus address `start` on */
  datatype Transfer = Transfer(mem: Memory, start: nat, size: nat, count: nat) {
    function At(k: nat): nat {
      start + k * size
    }

    /** The byte address the bus unit makes of word `k`'s: it drops the bits below the word size */
    function Place(k: nat): nat
      requires size > 0
    {
      Lane(At(k), size)
    }

    function Word(k: nat): (s: Stream)
      requires size > 0
      ensures |s| == 8 * size
    {
      ReadMem(mem, Place(k), size)
    }

    predicate Fits() {
      size in {1, 2, 4} && 0 < count < 0x1_0000 && At(count) <= 0x1_0000_0000
    }
  }

  lemma Multiply(a: nat, b: nat, c: nat)
    ensures (a + b) * c == a * c + b * c
  {
  }

  lemma FitsRange(t: Transfer)
    requires t.Fits()
    ensures t.size in {1, 2, 4} && 1 <= t.size <= 4 && 0 < t.count < 0x1_0000 && t.At(0) == t.start
  {
  }

  /** The words lie one after the other from the aligned start on */
  lemma PlaceIs(t: Transfer, k: nat)
    requires t.size in {1, 2, 4}
    ensures t.Place(k) == Lane(t.start, t.size) + k * t.size
  {
    if t.size == 1 {
      assert t.At(k) % 1 == 0;
    } else if t.size == 2 {
      assert (t.start + k * 2) % 2 == t.start % 2;
    } else {
      assert (t.start + k * 4) % 4 == t.start % 4;
    }
  }

  /** The transfer moves the bytes the host means, for whatever memory, exactly when its start is a
      multiple of the word size */
  lemma AlignedIff(start: nat, size: nat, count: nat)
    requires size in {1, 2, 4} && count > 0
    ensures (forall mem: Memory, k: nat :: k < count ==>
               var t := Transfer(mem, start, size, count); t.Word(k) == ReadMem(mem, t.At(k), size))
      <==> start % size == 0
  {
    if start % size == 0 {
      forall mem: Memory, k: nat | k < count
        ensures var t := Transfer(mem, start, size, count); t.Word(k) == ReadMem(mem, t.At(k), size)
      {
        PlaceIs(Transfer(mem, start, size, count), k);
      }
    } else {
      var a := start + size - 1;
      var mem: Memory := map[a := Fill(8, true)];
      var t := Transfer(mem, start, size, count);
      assert t.At(0) == start;
      FirstByte(mem, start, size, size - 1);
      NoBytes(mem, Lane(start, size), size);
      assert ReadMem(mem, start, size)[0] != t.Word(0)[0];
    }
  }

  lemma {:induction false} FirstByte(mem: Memory, addr: nat, size: nat, k: nat)
    requires k < size && forall a :: a in mem <==> a == addr + k
    requires mem[addr + k] == Fill(8, true)
    ensures ReadMem(mem, addr, size)[8 * (size - 1 - k)]
    decreases size
  {
    if k > 0 { FirstByte(mem, addr + 1, size - 1, k - 1); }
  }

  lemma {:induction false} NoBytes(mem: Memory, addr: nat, size: nat)
    requires forall a :: addr <= a < addr + size ==> a !in mem
    ensures ReadMem(mem, addr, size) == Fill(8 * size, false)
    decreases size
  {
    if size > 0 { NoBytes(mem, addr + 1, size - 1); }
  }

  // --- memory ---

  lemma {:induction false} WriteOutside(mem: Memory, addr: nat, value: Stream, a: nat)
    requires |value| % 8 == 0 && !(addr <= a < addr + |value| / 8)
    ensures ByteAt(WriteMem(mem, addr, value), a) == ByteAt(mem, a)
    decreases value
  {
    if value != [] { WriteOutside(mem, addr + 1, value[..|value| - 8], a); }
  }

  lemma {:induction false} ReadUnchanged(mem: Memory, now: Memory, addr: nat, size: nat)
    requires forall a :: addr <= a < addr + size ==> ByteAt(now, a) == ByteAt(mem, a)
    ensures ReadMem(now, addr, size) == ReadMem(mem, addr, size)
    decreases size
  {
    if size > 0 { ReadUnchanged(mem, now, addr + 1, size - 1); }
  }

  lemma WriteStep(mem: Memory, addr: nat, value: Stream)
    requires |value| % 8 == 0 && value != []
    ensures |value| >= 8 && |value[..|value| - 8]| % 8 == 0 && |value[..|value| - 8]| / 8 == |value| / 8 - 1
    ensures WriteMem(mem, addr, value) == WriteMem(mem, addr + 1, value[..|value| - 8])[addr := value[|value| - 8..]]
    ensures value == value[..|value| - 8] + value[|value| - 8..]
  {
  }

  lemma ReadMemStep(mem: Memory, addr: nat, size: nat)
    requires size > 0
    ensures ReadMem(mem, addr, size) == ReadMem(mem, addr + 1, size - 1) + ByteAt(mem, addr)
    ensures ReadMem(mem, addr, 0) == []
  {
    hide ByteAt;
  }

  /** What is written is read back */
  lemma {:induction false} WriteThenRead(mem: Memory, addr: nat, value: Stream)
    requires |value| % 8 == 0
    ensures ReadMem(WriteMem(mem, addr, value), addr, |value| / 8) == value
    decreases value
  {
    hide WriteMem, ReadMem;
    ReadMemStep(WriteMem(mem, addr, value), addr, 1);
    if value != [] {
      var n := |value| / 8;
      var v := value[..|value| - 8];
      WriteStep(mem, addr, value);
      var low, now := WriteMem(mem, addr + 1, v), WriteMem(mem, addr, value);
      WriteThenRead(mem, addr + 1, v);
      ReadUnchanged(low, now, addr + 1, n - 1);
      ReadMemStep(now, addr, n);
    }
  }

  /** Two accesses of one size go to the same bytes or to none in common */
  lemma LanesApart(a: nat, b: nat, size: nat)
    requires size in {1, 2, 4} && Lane(a, size) != Lane(b, size)
    ensures Lane(a, size) + size <= Lane(b, size) || Lane(b, size) + size <= Lane(a, size)
  {
  }

  /** A bus write as later bus reads of the same size see it, aligned or not */
  lemma BusAccess(mem: Memory, a: nat, b: nat, size: nat, value: Stream)
    requires size in {1, 2, 4} && |value| == 8 * size
    ensures ReadMem(WriteMem(mem, Lane(a, size), value), Lane(b, size), size)
         == if Lane(a, size) == Lane(b, size) then value else ReadMem(mem, Lane(b, size), size)
  {
    hide *;
    var x, y := Lane(a, size), Lane(b, size);
    if x == y {
      WriteThenRead(mem, x, value);
    } else {
      LanesApart(a, b, size);
      forall c | y <= c < y + size ensures ByteAt(WriteMem(mem, x, value), c) == ByteAt(mem, c) {
        WriteOutside(mem, x, value, c);
      }
      ReadUnchanged(mem, WriteMem(mem, x, value), y, size);
    }
  }

  // --- the error register ---

  /** Address `a` is word `k`'s: the host counts it as that word, and the bus unit makes the same byte
      address of it */
  predicate AtWord(t: Transfer, k: nat, a: nat)
    requires t.size > 0
  {
    k < t.count && a >= t.start && (a - t.start) / t.size == k && Lane(a, t.size) == t.Place(k)
  }

  /** The word at address `a`, or `count` if there is none */
  function WordOf(t: Transfer, a: nat): (k: nat)
    requires t.size > 0
    ensures k <= t.count && (k < t.count <==> AtWord(t, k, a)) && (k == t.count ==> forall l: nat :: !AtWord(t, l, a))
  {
    if a >= t.start && AtWord(t, (a - t.start) / t.size, a) then (a - t.start) / t.size else t.count
  }

  /** The word the error register names: -1 if it is clear, `count` if it names none of the transfer's */
  function FlagOf(reg: Stream, t: Transfer): (e: int)
    requires t.size > 0 && |reg| == 33
    ensures e <= t.count && (e < 0 <==> !reg[0])
  {
    if reg[0] then WordOf(t, ToNat(reg[1..])) else -1
  }

  predicate FlagIs(reg: Stream, t: Transfer, e: int) {
    t.size > 0 && |reg| == 33 && e == FlagOf(reg, t)
  }

  /** The words are apart, so that an address is at most one word's */
  lemma AtOneWord(t: Transfer, k: nat, a: nat)
    requires t.size > 0 && AtWord(t, k, a)
    ensures WordOf(t, a) == k
  {
  }

  /** One word further on */
  lemma AtNextWord(t: Transfer, k: nat, a: nat)
    requires t.size in {1, 2, 4} && AtWord(t, k, a) && k + 1 < t.count
    ensures AtWord(t, k + 1, a + t.size)
  {
    PlaceIs(t, k);
    PlaceIs(t, k + 1);
    NextLane(a, t.size);
    NextIndex(a - t.start, t.size);
    hide Lane, Transfer.Place;
    Multiply(k, 1, t.size);
  }

  lemma NextLane(a: nat, size: nat)
    requires size in {1, 2, 4}
    ensures Lane(a + size, size) == Lane(a, size) + size
  {
  }

  lemma NextIndex(d: nat, size: nat)
    requires size in {1, 2, 4}
    ensures (d + size) / size == d / size + 1
  {
  }

  /** Where the word should be */
  lemma AtItsWord(t: Transfer, k: nat)
    requires t.size in {1, 2, 4} && k < t.count
    ensures AtWord(t, k, t.At(k))
  {
    hide Lane;
    Quotient(k, t.size);
  }

  lemma Quotient(e: nat, size: nat)
    requires size in {1, 2, 4}
    ensures (e * size) / size == e
  {
    if size == 1 {
      assert (e * 1) / 1 == e;
    } else if size == 2 {
      assert (e * 2) / 2 == e;
    } else {
      assert (e * 4) / 4 == e;
    }
  }

  /** A run of words as one stream */
  function Wire(words: seq<Stream>): Stream {
    if words == [] then [] else Wire(words[..|words| - 1]) + words[|words| - 1]
  }

  lemma WireMore(words: seq<Stream>, w: Stream, c: Word)
    ensures Fold(Crc.POLY, c, Wire(words + [w])) == Fold(Crc.POLY, Fold(Crc.POLY, c, Wire(words)), w)
  {
    assert (words + [w])[..|words + [w]| - 1] == words;
    FoldAppend(Crc.POLY, c, Wire(words), w);
    hide Fold;
  }

  lemma {:induction false} WireInjective(a: seq<Stream>, b: seq<Stream>)
    requires Wire(a) == Wire(b) && |a| == |b| && forall j :: 0 <= j < |a| ==> |a[j]| == |b[j]|
    ensures a == b
  {
    if a != [] {
      var n := |a| - 1;
      var x, y := a[..n], b[..n];
      var v, w := Wire(x) + a[n], Wire(y) + b[n];
      assert |v| - |a[n]| == |w| - |b[n]|;
      assert Wire(x) == v[..|v| - |a[n]|] && Wire(y) == w[..|w| - |b[n]|];
      assert a[n] == v[|v| - |a[n]|..] && b[n] == w[|w| - |b[n]|..];
      WireInjective(x, y);
      assert a == x + [a[n]] && b == y + [b[n]];
    }
  }

  /** A burst whose only damage lies within 32 consecutive bits is never accepted */
  lemma DamagedBurstRejected(sent: seq<Stream>, got: seq<Stream>, pre: Stream, a: Stream, b: Stream, post: Stream)
    requires Wire(sent) == pre + a + post && Wire(got) == pre + b + post && |a| == |b| <= 32
    requires Fold(Crc.POLY, ONES, Wire(got)) == Fold(Crc.POLY, ONES, Wire(sent))
    requires |got| == |sent| && forall j :: 0 <= j < |sent| ==> |got[j]| == |sent[j]|
    ensures got == sent
  {
    Crc.PolyTaps();
    if a != b { WindowChangesCheck(Crc.POLY, ONES, pre, a, b, post); }
    WireInjective(sent, got);
  }
}
