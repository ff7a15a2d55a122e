/** The older debug interface: the same check, computed in the opposite bit order. */
module Legacy {
  import opened Bits
  import opened ShiftRegister
  import Crc

  const LEGACY_POLY: Word := Hex([0x0, 0x4, 0xc, 0x1, 0x1, 0xd, 0xb, 0x7])
  const MASK28: Word := Hex([0x0, 0xf, 0xf, 0xf, 0xf, 0xf, 0xf, 0xf])
  const DC_SIZE: nat := 4
  const DC_STATUS_SIZE: nat := 4
  const DBG_CRC_SIZE: nat := 32
  const NUM_SOFT_RETRIES: nat := 5

  datatype Outcome = ErrNone | ErrCrc | ErrBadParam

  /** One bit into the legacy register.  The masks have 28 bits, not 32. */
  function LegacyCrcCalc(crc: Word, bit: bool): Word {
    var d := if bit then MASK28 else ZERO;
    var crc32 := if Shr(crc, 31)[0] then MASK28 else ZERO;
    Xor(Shl(crc, 1), And(Xor(d, crc32), LEGACY_POLY))
  }

  lemma LegacyTaps()
    ensures forall i :: 0 <= i < 32 ==> LEGACY_POLY[i] == Crc.Tapped(31 - i)
  {
  }

  /** The two polynomials are mirror images */
  lemma PolyMirror()
    ensures Reversed(LEGACY_POLY) == Crc.POLY
  {
    hide *;
    Crc.PolyTaps();
    LegacyTaps();
  }

  /** The short masks cover every tap */
  lemma ShortMask()
    ensures And(MASK28, LEGACY_POLY) == LEGACY_POLY
  {
    assert forall i :: 0 <= i < 28 ==> MASK28[i];
    assert forall i :: 28 <= i < 32 ==> !LEGACY_POLY[i];
    hide MASK28, LEGACY_POLY;
  }

  lemma LegacyCrcCalcTaps(crc: Word, bit: bool)
    ensures LegacyCrcCalc(crc, bit) == StepUp(LEGACY_POLY, crc, bit)
  {
    hide LEGACY_POLY, MASK28;
    ShortMask();
  }

  /** The legacy register after any bit sequence is the bit reversal of the current
      interface's register after the same sequence */
  lemma LegacyIsMirrored(crc: Word, s: Stream)
    ensures Reversed(FoldUp(LEGACY_POLY, crc, s)) == Fold(Crc.POLY, Reversed(crc), s)
  {
    hide *;
    PolyMirror();
    FoldMirror(LEGACY_POLY, crc, s);
  }

  /** Sends `stream` most significant bit first: what the bit-reversal loop leaves in
      the word handed to the least-significant-bit-first cable */
  method ReverseLow(stream: Word, len: nat) returns (outdata: Word)
    requires len <= 32
    ensures outdata[..len] == Reversed(stream[..len])
    ensures forall k :: len <= k < 32 ==> !outdata[k]
  {
    hide *;
    outdata := ZERO;
    ZeroBits();
    var rest := stream;
    for i := 0 to len
      invariant forall k :: 0 <= k < 32 && i + k < 32 ==> i < len ==> rest[k] == stream[i + k]
      invariant i < len ==> forall k :: 0 <= k < 32 ==> outdata[k] == (1 <= k <= i && stream[i - k])
      invariant i == len ==> forall k :: 0 <= k < 32 ==> outdata[k] == (k < len && stream[len - 1 - k])
    {
      var bit := LowBit(rest);
      outdata := Or(outdata, bit);
      if i < len - 1 {
        outdata := Shl(outdata, 1);
        rest := Shr(rest, 1);
      }
    }
  }

  lemma ZeroBits()
    ensures forall k :: 0 <= k < 32 ==> !ZERO[k]
  {
  }

  /** `w & 0x1` */
  function LowBit(w: Word): (r: Word)
    ensures r[0] == w[0] && forall k :: 1 <= k < 32 ==> !r[k]
  {
    And(w, Pack([true]))
  }

  // --- the driver ---

  /** The request that opens a scan: a 1 and the low four bits of the module number,
      most significant first */
  function Header(chain: nat): Stream {
    [true] + Reversed(FromNat(chain, DC_SIZE))
  }

  /** What the hardware answers to a request: a status and its check word */
  type Reply = s: Stream | |s| == DC_STATUS_SIZE + DBG_CRC_SIZE witness Fill(36, false)

  /** A scan as the hardware sees it: the request, its check word, then idle bits while
      the status and its check word are read back */
  function Frame(chain: nat): Stream {
    Header(chain) + Reversed(FoldUp(LEGACY_POLY, ONES, Header(chain)))
    + Fill(DC_STATUS_SIZE + DBG_CRC_SIZE, false)
  }

  /** On the wire: a 1, the number's four digits with the highest first, 32 check bits and 36 zeros */
  lemma FrameNames(chain: nat)
    ensures |Frame(chain)| == 73 && Frame(chain)[0] && ToNat(Reversed(Frame(chain)[1..5])) == chain % 16
    ensures forall i :: 37 <= i < 73 ==> !Frame(chain)[i]
  {
    hide FoldUp, FromNat, ToNat;
    var d := FromNat(chain, 4);
    assert Frame(chain)[1..5] == Reversed(d);
    assert Reversed(Reversed(d)) == d;
    FourBits(chain);
    ToFromNat(chain % 16, 4);
  }

  lemma FourBits(v: nat)
    ensures Pow2(4) == 16 && FromNat(v % 16, 4) == FromNat(v, 4)
  {
    var q, r := v / 16, v % 16;
    assert v == 16 * q + r;
    Half(v, 8 * q, r);
    Half(v / 2, 4 * q, r / 2);
    Half(v / 2 / 2, 2 * q, r / 2 / 2);
    Half(v / 2 / 2 / 2, q, r / 2 / 2 / 2);
    SameBits(v, r);
  }

  lemma Half(v: nat, q: nat, r: nat)
    requires v == 2 * q + r
    ensures v % 2 == r % 2 && v / 2 == q + r / 2
  {
  }

  lemma SameBits(v: nat, r: nat)
    requires v % 2 == r % 2 && v / 2 % 2 == r / 2 % 2 && v / 2 / 2 % 2 == r / 2 / 2 % 2
    requires v / 2 / 2 / 2 % 2 == r / 2 / 2 / 2 % 2
    ensures FromNat(v, 4) == FromNat(r, 4)
  {
    assert FromNat(v / 2 / 2 / 2 / 2, 0) == FromNat(r / 2 / 2 / 2 / 2, 0) == [];
    assert FromNat(v / 2 / 2 / 2, 1) == FromNat(r / 2 / 2 / 2, 1);
    assert FromNat(v / 2 / 2, 2) == FromNat(r / 2 / 2, 2);
    assert FromNat(v / 2, 3) == FromNat(r / 2, 3);
  }

  /** The check the driver makes on a reply whose last 32 bits are its check word */
  predicate CrcMatches(reply: Stream)
    requires |reply| >= 32
  {
    FoldUp(LEGACY_POLY, ONES, reply[..|reply| - 32]) == Reversed(reply[|reply| - 32..])
  }

  /** The hardware's register is empty once request and check word have gone by */
  lemma FrameChecks(chain: nat)
    ensures FoldUp(LEGACY_POLY, ONES, Frame(chain)[..DC_SIZE + 1 + DBG_CRC_SIZE]) == ZERO
  {
    hide LEGACY_POLY, FoldUp;
    var h := Header(chain);
    var c := FoldUp(LEGACY_POLY, ONES, h);
    assert Frame(chain)[..DC_SIZE + 1 + DBG_CRC_SIZE] == h + Reversed(c);
    FoldUpAppend(LEGACY_POLY, ONES, h, Reversed(c));
    FoldUpSelf(LEGACY_POLY, c);
  }

  /** A reply passes exactly when its check word, in order of arrival, is the current
      interface's register over the bits before it */
  lemma CrcMatchesIff(reply: Stream)
    requires |reply| >= 32
    ensures CrcMatches(reply)
      <==> Fold(Crc.POLY, ONES, reply[..|reply| - 32]) == reply[|reply| - 32..]
  {
    hide LEGACY_POLY, FoldUp, Fold;
    var data, check := reply[..|reply| - 32], reply[|reply| - 32..];
    LegacyIsMirrored(ONES, data);
    ReversedZero();
    ReversedTwice(check);
    ReversedTwice(FoldUp(LEGACY_POLY, ONES, data));
  }

  /** No reply passes both before and after a change confined to 32 consecutive data bits */
  lemma DamagedReplyRejected(pre: Stream, a: Stream, b: Stream, post: Stream, check: Word)
    requires |a| == |b| <= 32 && a != b
    requires CrcMatches(pre + a + post + check)
    ensures !CrcMatches(pre + b + post + check)
  {
    hide CrcMatches, LEGACY_POLY, Fold, FoldUp;
    Tail(pre + a + post, check);
    Tail(pre + b + post, check);
    CrcMatchesIff(pre + a + post + check);
    CrcMatchesIff(pre + b + post + check);
    Crc.PolyTaps();
    WindowChangesCheck(Crc.POLY, ONES, pre, a, b, post);
  }

  lemma Tail(s: Stream, check: Word)
    ensures (s + check)[..|s + check| - 32] == s && (s + check)[|s + check| - 32..] == check
  {
  }

  class LegacyDriver {
    var crcR: Word
    var crcW: Word
    var wire: Stream          // bits put on the cable since the scan began
    var scans: seq<Stream>    // completed scans
    var currentChain: int
    var desiredChain: int
    var softRetryNo: nat

    constructor ()
      ensures currentChain == desiredChain == -1 && softRetryNo == 0 && scans == []
    {
      crcR, crcW, wire, scans := ZERO, ZERO, [], [];
      currentChain, desiredChain, softRetryNo := -1, -1, 0;
    }

    method WriteStream(stream: Word, len: nat)
      requires len <= 32
      modifies this`crcW, this`wire
      ensures wire == old(wire) + Reversed(stream[..len])
      ensures crcW == FoldUp(LEGACY_POLY, old(crcW), Reversed(stream[..len]))
    {
      hide *;
      var outdata := ReverseLow(stream, len);
      wire := wire + outdata[..len];
      ghost var bits := Reversed(stream[..len]);
      var i := len;
      FoldUpNone(LEGACY_POLY, crcW);
      assert bits[..0] == [];
      while i > 0
        invariant 0 <= i <= len
        invariant wire == old(wire) + bits
        invariant crcW == FoldUp(LEGACY_POLY, old(crcW), bits[..len - i])
      {
        i := i - 1;
        assert bits[..len - i] == bits[..len - i - 1] + [stream[i]];
        FoldUpLast(LEGACY_POLY, old(crcW), bits[..len - i - 1], stream[i]);
        LegacyCrcCalcTaps(crcW, stream[i]);
        crcW := LegacyCrcCalc(crcW, Shr(stream, i)[0]);
      }
      assert bits[..len] == bits;
    }

    /** Reads the bits `tdo` while sending zeros */
    method ReadStream(tdo: Stream) returns (data: Word)
      requires |tdo| <= 32
      modifies this`crcW, this`crcR, this`wire
      ensures data == Pack(Reversed(tdo))
      ensures wire == old(wire) + Fill(|tdo|, false)
      ensures crcR == FoldUp(LEGACY_POLY, old(crcR), tdo)
      ensures crcW == FoldUp(LEGACY_POLY, old(crcW), Fill(|tdo|, false))
    {
      hide *;
      var len := |tdo|;
      var indata := Pack(tdo);
      wire := wire + Fill(len, false);
      data := ReverseLow(indata, len);
      assert indata[..len] == tdo;
      var i := len;
      FoldUpNone(LEGACY_POLY, crcR);
      FoldUpNone(LEGACY_POLY, crcW);
      assert tdo[..0] == [] && Fill(0, false) == [];
      while i > 0
        invariant 0 <= i <= len
        invariant wire == old(wire) + Fill(len, false)
        invariant crcR == FoldUp(LEGACY_POLY, old(crcR), tdo[..len - i])
        invariant crcW == FoldUp(LEGACY_POLY, old(crcW), Fill(len - i, false))
      {
        i := i - 1;
        assert data[..len][i] == data[i] == tdo[len - i - 1];
        assert tdo[..len - i] == tdo[..len - i - 1] + [tdo[len - i - 1]];
        FoldUpLast(LEGACY_POLY, old(crcR), tdo[..len - i - 1], tdo[len - i - 1]);
        assert Fill(len - i, false) == Fill(len - i - 1, false) + [false];
        FoldUpLast(LEGACY_POLY, old(crcW), Fill(len - i - 1, false), false);
        LegacyCrcCalcTaps(crcW, false);
        LegacyCrcCalcTaps(crcR, data[i]);
        crcW := LegacyCrcCalc(crcW, false);
        crcR := LegacyCrcCalc(crcR, Shr(data, i)[0]);
      }
      assert tdo[..len] == tdo;
      assert data == Pack(Reversed(tdo)) by {
        forall k | 0 <= k < len ensures data[k] == Reversed(tdo)[k] {
          assert data[..len][k] == data[k];
        }
      }
    }

    /** One scan of the module-select request */
    method SelectScan(chain: nat, reply: Reply) returns (status: Word, crcGenerated: Word, crcRead: Word)
      modifies this`crcW, this`crcR, this`wire, this`scans
      ensures scans == old(scans) + [Frame(chain)]
      ensures crcRead == crcGenerated <==> CrcMatches(reply)
      ensures status == ZERO <==> reply[..4] == [false, false, false, false]
    {
      hide LEGACY_POLY, FoldUp, FromNat;
      var h := Pack(FromNat(chain, DC_SIZE) + [true]);
      assert Reversed(h[..DC_SIZE + 1]) == Header(chain);
      wire := [];
      crcW := ONES;
      WriteStream(h, DC_SIZE + 1);
      WriteStream(crcW, DBG_CRC_SIZE);
      crcR := ONES;
      status := ReadStream(reply[..DC_STATUS_SIZE]);
      crcGenerated := crcR;
      crcRead := ReadStream(reply[DC_STATUS_SIZE..]);
      assert crcRead == Reversed(reply[DC_STATUS_SIZE..]);
      assert wire == Frame(chain);
      scans := scans + [wire];
      StatusZero(reply[..DC_STATUS_SIZE]);
    }

    /** Counts a retry; false once the allowance is used up.  The TAP reset it makes
        forgets the selected module. */
    method RetryDo() returns (again: bool)
      modifies this`softRetryNo, this`currentChain
      ensures again <==> old(softRetryNo) < NUM_SOFT_RETRIES
      ensures softRetryNo == old(softRetryNo) + (if again then 1 else 0)
      ensures currentChain == if again then -1 else old(currentChain)
    {
      if softRetryNo >= NUM_SOFT_RETRIES { return false; }
      currentChain := -1;
      softRetryNo := softRetryNo + 1;
      return true;
    }

    /** `replies[k]` is what the hardware answers to the k-th scan.  Scans are made until a reply has
        both a matching check word and a status of four zeros, or the retries are used up. */
    method SetChain(chain: nat, replies: seq<Reply>) returns (r: Outcome)
      requires |replies| > NUM_SOFT_RETRIES
      modifies this
      ensures desiredChain == chain
      ensures old(currentChain) == chain ==>
        r == ErrNone && currentChain == chain && scans == old(scans) && softRetryNo == old(softRetryNo)
      ensures old(currentChain) != chain ==>
        var limit := if old(softRetryNo) < NUM_SOFT_RETRIES then NUM_SOFT_RETRIES + 1 - old(softRetryNo) else 1;
        var used := |scans| - |old(scans)|;
        && 1 <= used <= limit && scans == old(scans) + Repeat(Frame(chain), used)
        && (forall j :: 0 <= j < used - 1 ==>
              !CrcMatches(replies[j]) || replies[j][..4] != [false, false, false, false])
        && var last := replies[used - 1]; var matches := CrcMatches(last);
        && (r == ErrNone <==> matches && last[..4] == [false, false, false, false])
        && (r == ErrBadParam <==> matches && last[..4] != [false, false, false, false])
        && if r == ErrNone then currentChain == chain && softRetryNo == 0
           else used == limit && currentChain == -1 && softRetryNo >= NUM_SOFT_RETRIES
    {
      hide CrcMatches, Frame, LEGACY_POLY;
      desiredChain := chain;
      if currentChain == chain { return ErrNone; }
      ghost var limit := if softRetryNo < NUM_SOFT_RETRIES then NUM_SOFT_RETRIES + 1 - softRetryNo else 1;
      var k := 0;
      while true
        invariant 0 <= k < limit && softRetryNo == old(softRetryNo) + k
        invariant currentChain != chain && desiredChain == chain
        invariant k > 0 ==> softRetryNo <= NUM_SOFT_RETRIES
        invariant forall j :: 0 <= j < k ==> !CrcMatches(replies[j]) || replies[j][..4] != [false, false, false, false]
        invariant scans == old(scans) + Repeat(Frame(chain), k)
        decreases limit - k
      {
        currentChain := -1;
        var status, crcGenerated, crcRead := SelectScan(chain, replies[k]);
        assert Repeat(Frame(chain), k + 1) == Repeat(Frame(chain), k) + [Frame(chain)];
        if crcRead != crcGenerated {
          var again := RetryDo();
          if !again { return ErrCrc; }
        } else if status != ZERO {
          var again := RetryDo();
          if !again { return ErrBadParam; }
        } else {
          softRetryNo := 0;
          currentChain := chain;
          return ErrNone;
        }
        k := k + 1;
      }
    }
  }

  function Repeat<T>(x: T, n: nat): (s: seq<T>)
    ensures |s| == n && forall i :: 0 <= i < n ==> s[i] == x
  {
    seq(n, _ => x)
  }

  lemma StatusZero(s: Stream)
    requires |s| == DC_STATUS_SIZE
    ensures Pack(Reversed(s)) == ZERO <==> s == Fill(DC_STATUS_SIZE, false)
  {
    var p := Pack(Reversed(s));
    if p == ZERO {
      forall i | 0 <= i < 4 ensures !s[i] {
        assert p[3 - i] == Reversed(s)[3 - i] == s[i];
      }
    }
  }
}
