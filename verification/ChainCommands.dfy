/** The host's commands on a scan chain: reset, instruction and data scans, enumeration. */
module ChainCommands {
  import opened Bits
  import opened Scan
  import opened ChainLaws

  // --- word arrays as streams ---

  predicate BitOf(words: seq<Word>, j: nat)
    requires j < 32 * |words|
  {
    words[j / 32][j % 32]
  }

  /** The first `n` bits of an array of words, least significant bit of the first word first */
  function WordsStream(words: seq<Word>, n: nat): (s: Stream)
    requires n <= 32 * |words|
    ensures |s| == n
    ensures forall j :: 0 <= j < n ==> s[j] == BitOf(words, j)
  {
    seq(n, j requires 0 <= j < n => BitOf(words, j))
  }

  /** What a compiler makes of a left shift by 32 or more, which C leaves open: no bits remain,
      or the count is taken modulo 32 */
  datatype ShiftRule = ZeroFill | Modulo

  function LeftShift(rule: ShiftRule, w: Word, n: nat): Word {
    if n < 32 || rule == ZeroFill then Shl(w, n) else Shl(w, n % 32)
  }

  /** `ir >> n` on the signed argument */
  function SignedRight(w: Word, n: nat): (r: Word)
    ensures forall i :: 0 <= i < 32 ==> r[i] == if i + n < 32 then w[i + n] else w[31]
  {
    seq(32, i requires 0 <= i < 32 => if i + n < 32 then w[i + n] else w[31])
  }

  /** True when the mask for the bits above the instruction is shifted by 32 or more and the
      shift count wraps */
  predicate MaskWraps(rule: ShiftRule, irSize: nat, postfix: nat) {
    rule == Modulo && postfix % 32 + irSize >= 32
  }

  /** The bits the packed words hold: the instruction among ones, with the instruction bits in
      its first word lost to ones if the mask wraps */
  function PackedIr(rule: ShiftRule, ir: Word, irSize: nat, prefix: nat, postfix: nat): (s: Stream)
    requires irSize <= 32
    ensures |s| == irSize + prefix + postfix
    ensures forall j :: 0 <= j < |s| ==> s[j] == PackedBit(rule, ir, irSize, postfix, j)
  {
    seq(irSize + prefix + postfix, j requires 0 <= j => PackedBit(rule, ir, irSize, postfix, j))
  }

  predicate PackedBit(rule: ShiftRule, ir: Word, irSize: nat, postfix: nat, j: nat)
    requires irSize <= 32
  {
    postfix <= j < postfix + irSize ==>
      ir[j - postfix] || (MaskWraps(rule, irSize, postfix) && j / 32 == postfix / 32)
  }

  /** A first word: instruction bits from `shift` up, ones around them */
  ghost predicate FirstWordIs(rule: ShiftRule, ir: Word, irSize: nat, shift: nat, w: Word) {
    forall i :: 0 <= i < 32 ==>
      w[i] == (shift <= i < shift + irSize ==> ir[i - shift] || (rule == Modulo && shift + irSize >= 32))
  }

  /** A second word: the instruction bits that crossed into it, ones above them */
  ghost predicate SecondWordIs(ir: Word, irSize: nat, shift: nat, w: Word)
    requires shift < 32 && irSize <= 32
  {
    forall i :: 0 <= i < 32 ==> w[i] == (i + 32 < shift + irSize ==> ir[i + 32 - shift])
  }

  lemma FirstWord(rule: ShiftRule, ir: Word, irSize: nat, shift: nat, w: Word)
    requires shift < 32 && 0 < irSize <= 32
    requires w == Or(Or(And(ONES, Shl(ir, shift)), Not(Shl(ONES, shift))), LeftShift(rule, ONES, shift + irSize))
    ensures FirstWordIs(rule, ir, irSize, shift, w)
  {
    if shift + irSize >= 32 { assert (shift + irSize) % 32 <= shift; }
    hide LeftShift;
  }

  lemma SecondWord(ir: Word, irSize: nat, shift: nat, w: Word)
    requires 0 < shift < 32 && irSize <= 32 && shift + irSize > 32
    requires w == Or(And(ONES, SignedRight(ir, 32 - shift)), Shl(ONES, irSize - (32 - shift)))
    ensures SecondWordIs(ir, irSize, shift, w)
  {
  }

  /** No instruction bit reaches a second word of ones */
  lemma NoSecondWord(ir: Word, irSize: nat, shift: nat)
    requires shift < 32 && irSize <= 32 && shift + irSize <= 32
    ensures SecondWordIs(ir, irSize, shift, ONES)
  {
  }

  /** The packed stream is the wanted one exactly when the mask does not wrap, or nothing is
      lost because the instruction's bits in the first word are all ones already */
  lemma PackedIrCorrectIff(rule: ShiftRule, ir: Word, irSize: nat, prefix: nat, postfix: nat)
    requires 0 < irSize <= 32
    ensures PackedIr(rule, ir, irSize, prefix, postfix) == Fill(postfix, true) + ir[..irSize] + Fill(prefix, true)
      <==> (rule == ZeroFill || postfix % 32 + irSize < 32
            || forall i :: 0 <= i < 32 - postfix % 32 ==> ir[i])
  {
    var s := PackedIr(rule, ir, irSize, prefix, postfix);
    var t := Fill(postfix, true) + ir[..irSize] + Fill(prefix, true);
    assert forall j :: 0 <= j < |t| ==> t[j] == (postfix <= j < postfix + irSize ==> ir[j - postfix]);
    if s == t && MaskWraps(rule, irSize, postfix) {
      forall i | 0 <= i < 32 - postfix % 32 ensures ir[i] {
        assert (i + postfix) / 32 == postfix / 32;
        assert s[i + postfix] == t[i + postfix];
      }
    }
    if !MaskWraps(rule, irSize, postfix) {
      assert forall j :: 0 <= j < |t| ==> s[j] == t[j];
    } else if forall i :: 0 <= i < 32 - postfix % 32 ==> ir[i] {
      forall j | 0 <= j < |t| ensures s[j] == t[j] {
        if postfix <= j && j / 32 == postfix / 32 { assert j - postfix < 32 - postfix % 32; }
      }
    }
  }

  // --- the host ---

  const DBG_MAX_MODULES: nat := 4
  const NUM_SOFT_RETRIES: nat := 5

  /** What reading `s` leaves in a variable that held `was` */
  function ReadInto(clears: bool, was: Word, s: Stream): Word
    requires |s| <= 32
  {
    if clears then Pack(s) else Overwritten(was, s)
  }

  /** The host's view of its configuration agrees with the chain it drives */
  ghost predicate Configured(h: Chain, irSize: nat, irPrefix: nat, irPostfix: nat, drPrefix: nat, drPostfix: nat) {
    && irSize == h.target.irLength && irPrefix == IrLength(h.pre) && irPostfix == IrLength(h.post)
    && drPrefix == |h.pre| && drPostfix == |h.post|
  }

  class Host {
    const rule: ShiftRule
    const trstWired: bool
    /** The cable's driver clears a word before storing what it reads in it */
    const clears: bool
    var hw: Chain
    var irSize: nat
    var irPrefix: nat
    var irPostfix: nat
    var drPrefix: nat
    var drPostfix: nat
    var currentChain: int
    var desiredChain: int
    var currentRegIdx: seq<int>
    var softRetryNo: nat
    var irChain: array?<Word>

    constructor (rule: ShiftRule, trstWired: bool, clears: bool, hw: Chain)
      ensures this.rule == rule && this.trstWired == trstWired && this.clears == clears && this.hw == hw
      ensures currentChain == desiredChain == -1 && softRetryNo == 0 && irChain == null
      ensures irSize == irPrefix == irPostfix == drPrefix == drPostfix == 0
      ensures currentRegIdx == seq(DBG_MAX_MODULES, _ => 0)
    {
      this.rule, this.trstWired, this.clears, this.hw := rule, trstWired, clears, hw;
      irSize, irPrefix, irPostfix, drPrefix, drPostfix := 0, 0, 0, 0, 0;
      currentChain, desiredChain, softRetryNo := -1, -1, 0;
      currentRegIdx := seq(DBG_MAX_MODULES, _ => 0);
      irChain := null;
    }

    // --- the cable ---

    method WriteBit(p: Pin)
      modifies this`hw
      ensures hw == After(old(hw), [p])
    {
      AfterOne(hw, p);
      hw := Clock(hw, p);
    }

    method ReadWriteBit(p: Pin) returns (b: bool)
      modifies this`hw
      ensures hw == After(old(hw), [p]) && [b] == Out(old(hw), [p])
    {
      AfterOne(hw, p);
      b := ReadBack(hw, p.tdi);
      hw := Clock(hw, p);
    }

    method CableWriteStream(s: Stream, last: bool)
      modifies this`hw
      ensures hw == After(old(hw), StreamPins(s, last))
    {
      hw := After(hw, StreamPins(s, last));
    }

    method CableReadWriteStream(s: Stream, last: bool) returns (b: Stream)
      modifies this`hw
      ensures hw == After(old(hw), StreamPins(s, last)) && b == Out(old(hw), StreamPins(s, last))
    {
      b := Out(hw, StreamPins(s, last));
      hw := After(hw, StreamPins(s, last));
    }

    // --- TAP movements ---

    method TapReset()
      modifies this`hw, this`currentChain, this`currentRegIdx
      ensures hw == After(old(hw), ResetPins(trstWired))
      ensures currentChain == -1
      ensures currentRegIdx == seq(DBG_MAX_MODULES, _ => -1)
    {
      hide *;
      WriteBit(TMS_LOW);
      ghost var sent := [TMS_LOW];
      for i := 0 to 8
        invariant sent == [TMS_LOW] + seq(i, _ => TMS_HIGH)
        invariant hw == After(old(hw), sent)
      {
        AfterAppend(old(hw), sent, [TMS_HIGH]);
        WriteBit(TMS_HIGH);
        sent := sent + [TMS_HIGH];
      }
      var pull := Pin(false, false, trstWired);
      AfterAppend(old(hw), sent, [pull]);
      WriteBit(pull);
      AfterAppend(old(hw), sent + [pull], [TMS_LOW]);
      WriteBit(TMS_LOW);
      ResetPinsAre(trstWired);
      assert sent + [pull] + [TMS_LOW] == ResetPins(trstWired);
      currentChain := -1;
      currentRegIdx := seq(DBG_MAX_MODULES, _ => -1);
    }

    method TapSetShiftDr()
      modifies this`hw
      ensures hw == After(old(hw), [TMS_HIGH, TMS_LOW, TMS_LOW])
    {
      hide *;
      WriteBit(TMS_HIGH);
      AfterAppend(old(hw), [TMS_HIGH], [TMS_LOW]);
      WriteBit(TMS_LOW);
      AfterAppend(old(hw), [TMS_HIGH, TMS_LOW], [TMS_LOW]);
      assert [TMS_HIGH] + [TMS_LOW] == [TMS_HIGH, TMS_LOW];
      assert [TMS_HIGH, TMS_LOW] + [TMS_LOW] == [TMS_HIGH, TMS_LOW, TMS_LOW];
      WriteBit(TMS_LOW);
    }

    method TapExitToIdle()
      modifies this`hw
      ensures hw == After(old(hw), [TMS_HIGH, TMS_LOW])
    {
      hide *;
      WriteBit(TMS_HIGH);
      AfterAppend(old(hw), [TMS_HIGH], [TMS_LOW]);
      assert [TMS_HIGH] + [TMS_LOW] == [TMS_HIGH, TMS_LOW];
      WriteBit(TMS_LOW);
    }

    // --- data streams ---

    /** Sends `s`; with `setTms` it also pushes it past the devices before the target and
        leaves Shift-DR */
    method JtagWriteStream(s: Stream, setTms: bool)
      requires s != []
      modifies this`hw
      ensures hw == After(old(hw), StreamPins(if setTms then s + Fill(drPrefix, false) else s, setTms))
    {
      hide *;
      if !setTms {
        CableWriteStream(s, false);
      } else if drPrefix == 0 {
        assert s + Fill(drPrefix, false) == s;
        CableWriteStream(s, true);
      } else {
        CableWriteStream(s, false);
        PushPrefix();
        AfterAppend(old(hw), StreamPins(s, false), StreamPins(Fill(drPrefix, false), true));
        PinsJoin(s, Fill(drPrefix, false), true);
      }
    }

    /** Clocks zeros through the devices before the target, the last with TMS high */
    method PushPrefix()
      requires drPrefix > 0
      modifies this`hw
      ensures hw == After(old(hw), StreamPins(Fill(drPrefix, false), true))
    {
      hide *;
      AfterNone(hw);
      assert seq(0, _ => TMS_LOW) == [];
      for i := 0 to drPrefix - 1
        invariant hw == After(old(hw), seq(i, _ => TMS_LOW))
      {
        AfterAppend(old(hw), seq(i, _ => TMS_LOW), [TMS_LOW]);
        assert seq(i + 1, _ => TMS_LOW) == seq(i, _ => TMS_LOW) + [TMS_LOW];
        WriteBit(TMS_LOW);
      }
      AfterAppend(old(hw), seq(drPrefix - 1, _ => TMS_LOW), [TMS_HIGH]);
      WriteBit(TMS_HIGH);
      ZeroPins(drPrefix);
    }

    /** Sends `s` and returns the bits read meanwhile; `adjust` first clocks the devices behind
        the target out of the way, `setTms` is as for writing */
    method JtagReadWriteStream(s: Stream, adjust: bool, setTms: bool) returns (b: Stream)
      requires s != []
      modifies this`hw
      ensures var x := AdjustedStream(s, adjust, setTms, drPrefix, drPostfix); var burnt := if adjust then drPostfix else 0;
        hw == After(old(hw), StreamPins(x, setTms)) && b == Out(old(hw), StreamPins(x, setTms))[burnt..burnt + |s|]
    {
      hide *;
      ghost var burn := Fill(if adjust then drPostfix else 0, false);
      AfterNone(hw);
      ghost var sent: seq<Pin> := [];
      if adjust && drPostfix > 0 {
        for i := 0 to drPostfix
          invariant sent == StreamPins(Fill(i, false), false)
          invariant hw == After(old(hw), sent)
        {
          AfterAppend(old(hw), sent, [TMS_LOW]);
          ZeroPin(i);
          WriteBit(TMS_LOW);
          sent := sent + [TMS_LOW];
        }
      }
      assert sent == StreamPins(burn, false);
      AdjustedIs(s, adjust, setTms, drPrefix, drPostfix);
      if !setTms || drPrefix == 0 {
        b := CableReadWriteStream(s, setTms);
        AfterAppend(old(hw), sent, StreamPins(s, setTms));
        PinsJoin(burn, s, setTms);
        Middle(Out(old(hw), sent), b, []);
        assert burn + s + Fill(0, false) == burn + s;
      } else {
        b := CableReadWriteStream(s, false);
        AfterAppend(old(hw), sent, StreamPins(s, false));
        PinsJoin(burn, s, false);
        PushPrefix();
        AfterAppend(old(hw), sent + StreamPins(s, false), StreamPins(Fill(drPrefix, false), true));
        PinsJoin(burn + s, Fill(drPrefix, false), true);
        Middle(Out(old(hw), sent), b,
               Out(After(old(hw), sent + StreamPins(s, false)), StreamPins(Fill(drPrefix, false), true)));
      }
    }

    // --- instruction scans ---

    /** Fills `words` with ones and packs the instruction among them */
    method PackInstruction(words: array<Word>, ir: Word)
      requires 0 < irSize <= 32 && words.Length == (irSize + irPrefix + irPostfix) / 32 + 1
      modifies words
      ensures WordsStream(words[..], irSize + irPrefix + irPostfix) == PackedIr(rule, ir, irSize, irPrefix, irPostfix)
    {
      hide *;
      for i := 0 to words.Length
        invariant forall k :: 0 <= k < i ==> words[k] == ONES
      {
        words[i] := ONES;
      }
      var offset := irPostfix / 32;
      var shift := irPostfix - offset * 32;
      PackFirst(words, ir, offset, shift);
      NoSecondWord(ir, irSize, if shift + irSize <= 32 then shift else 0);
      if shift + irSize > 32 {
        words[offset + 1] := And(words[offset + 1], SignedRight(ir, 32 - shift));
        words[offset + 1] := Or(words[offset + 1], Shl(ONES, irSize - (32 - shift)));
        SecondWord(ir, irSize, shift, words[offset + 1]);
      }
      PackedAroundIs(rule, ir, irSize, irPostfix, words[..]);
      PackedWords(rule, ir, irSize, irPrefix, irPostfix, words[..]);
    }

    method PackFirst(words: array<Word>, ir: Word, offset: nat, shift: nat)
      requires 0 < irSize <= 32 && offset < words.Length && shift < 32
      requires words[offset] == ONES
      modifies words
      ensures FirstWordIs(rule, ir, irSize, shift, words[offset])
      ensures forall k :: 0 <= k < words.Length && k != offset ==> words[k] == old(words[k])
    {
      hide *;
      words[offset] := And(words[offset], Shl(ir, shift));
      words[offset] := Or(words[offset], Not(Shl(ONES, shift)));
      words[offset] := Or(words[offset], LeftShift(rule, ONES, shift + irSize));
      FirstWord(rule, ir, irSize, shift, words[offset]);
    }

    /** Loads `ir` into the target's instruction register and all ones into every other */
    method TapSetIr(ir: Word)
      requires 0 < irSize <= 32
      requires irChain != null ==> irChain.Length == (irSize + irPrefix + irPostfix) / 32 + 1
      modifies this`hw, this`currentChain, this`irChain, irChain
      ensures hw == After(old(hw), IrScan(PackedIr(rule, ir, irSize, irPrefix, irPostfix)))
      ensures currentChain == -1
      ensures irChain != null && irChain.Length == (irSize + irPrefix + irPostfix) / 32 + 1
      ensures old(irChain) == null ==> fresh(irChain)
      ensures old(irChain) != null ==> irChain == old(irChain)
    {
      hide *;
      var size := irSize + irPrefix + irPostfix;
      var words := irChain;
      if words == null {
        words := new Word[size / 32 + 1](_ => ZERO);
        irChain := words;
      }
      PackInstruction(words, ir);
      var s := WordsStream(words[..], size);
      WriteBit(TMS_HIGH);
      AfterAppend(old(hw), [TMS_HIGH], [TMS_HIGH]);
      WriteBit(TMS_HIGH);
      AfterAppend(old(hw), [TMS_HIGH] + [TMS_HIGH], [TMS_LOW]);
      WriteBit(TMS_LOW);
      AfterAppend(old(hw), [TMS_HIGH] + [TMS_HIGH] + [TMS_LOW], [TMS_LOW]);
      WriteBit(TMS_LOW);
      ghost var head := [TMS_HIGH] + [TMS_HIGH] + [TMS_LOW] + [TMS_LOW];
      CableWriteStream(s, true);
      AfterAppend(old(hw), head, StreamPins(s, true));
      TapExitToIdle();
      AfterAppend(old(hw), head + StreamPins(s, true), [TMS_HIGH, TMS_LOW]);
      IrScanIs(s);
      assert head == [TMS_HIGH, TMS_HIGH, TMS_LOW, TMS_LOW];
      currentChain := -1;
    }
  }

  lemma ResetPinsAre(trstWired: bool)
    ensures ResetPins(trstWired) == [TMS_LOW] + seq(8, _ => TMS_HIGH) + [Pin(false, false, trstWired), TMS_LOW]
  {
  }

  lemma IrScanIs(s: Stream)
    ensures IrScan(s) == [TMS_HIGH, TMS_HIGH, TMS_LOW, TMS_LOW] + StreamPins(s, true) + [TMS_HIGH, TMS_LOW]
  {
  }

  /** Words of ones but for the instruction's one or two words */
  ghost predicate PackedAround(rule: ShiftRule, ir: Word, irSize: nat, postfix: nat, words: seq<Word>)
    requires 0 < irSize <= 32
  {
    var o, shift := postfix / 32, postfix % 32;
    && o < |words|
    && (forall k :: 0 <= k < |words| && k != o && k != o + 1 ==> words[k] == ONES)
    && FirstWordIs(rule, ir, irSize, shift, words[o])
    && (o + 1 < |words| ==> SecondWordIs(ir, irSize, shift, words[o + 1]))
  }

  lemma PackedAroundIs(rule: ShiftRule, ir: Word, irSize: nat, postfix: nat, words: seq<Word>)
    requires 0 < irSize <= 32
    requires var o, shift := postfix / 32, postfix % 32;
      && o < |words|
      && (forall k :: 0 <= k < |words| && k != o && k != o + 1 ==> words[k] == ONES)
      && FirstWordIs(rule, ir, irSize, shift, words[o])
      && (o + 1 < |words| ==> SecondWordIs(ir, irSize, shift, words[o + 1]))
    ensures PackedAround(rule, ir, irSize, postfix, words)
  {
  }

  lemma PackedWords(rule: ShiftRule, ir: Word, irSize: nat, prefix: nat, postfix: nat, words: seq<Word>)
    requires 0 < irSize <= 32 && |words| == (irSize + prefix + postfix) / 32 + 1
    requires PackedAround(rule, ir, irSize, postfix, words)
    ensures WordsStream(words, irSize + prefix + postfix) == PackedIr(rule, ir, irSize, prefix, postfix)
  {
    hide PackedAround, BitOf, PackedBit;
    var n := irSize + prefix + postfix;
    forall j | 0 <= j < n ensures BitOf(words, j) == PackedBit(rule, ir, irSize, postfix, j) {
      PackedWordBit(rule, ir, irSize, postfix, words, j);
    }
  }

  lemma PackedWordBit(rule: ShiftRule, ir: Word, irSize: nat, postfix: nat, words: seq<Word>, j: nat)
    requires 0 < irSize <= 32 && j / 32 < |words|
    requires PackedAround(rule, ir, irSize, postfix, words)
    ensures BitOf(words, j) == PackedBit(rule, ir, irSize, postfix, j)
  {
    var k, i := j / 32, j % 32;
    var o, sh := postfix / 32, postfix % 32;
    assert j == 32 * k + i && postfix == 32 * o + sh;
    if k < o || k > o + 1 {
    } else if k == o {
      assert j - postfix == i - sh;
    } else {
      assert j - postfix == i + 32 - sh;
    }
  }

  /** The bits clocked by a combined read and write */
  function AdjustedStream(s: Stream, adjust: bool, setTms: bool, drPrefix: nat, drPostfix: nat): Stream {
    Fill(if adjust then drPostfix else 0, false) + s + Fill(if setTms then drPrefix else 0, false)
  }

  lemma AdjustedIs(s: Stream, adjust: bool, setTms: bool, drPrefix: nat, drPostfix: nat)
    ensures AdjustedStream(s, adjust, setTms, drPrefix, drPostfix)
         == Fill(if adjust then drPostfix else 0, false) + s + Fill(if setTms then drPrefix else 0, false)
  {
  }

  lemma PinsJoin(a: Stream, b: Stream, last: bool)
    requires b != []
    ensures StreamPins(a, false) + StreamPins(b, last) == StreamPins(a + b, last)
  {
  }

  lemma Middle(a: Stream, b: Stream, c: Stream)
    ensures (a + b + c)[|a|..|a| + |b|] == b
    ensures (a + b)[|a|..|a| + |b|] == b
  {
  }

  lemma ZeroPin(i: nat)
    ensures StreamPins(Fill(i, false), false) + [TMS_LOW] == StreamPins(Fill(i + 1, false), false)
  {
  }

  lemma ZeroPins(n: nat)
    requires n > 0
    ensures seq(n - 1, _ => TMS_LOW) + [TMS_HIGH] == StreamPins(Fill(n, false), true)
  {
  }
}
