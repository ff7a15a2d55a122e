/** The 32-bit cyclic redundancy check shared by the debug unit, its host driver
    and the boot monitor. */
module Crc {
  import opened Bits
  import opened ShiftRegister

  const POLY: Word := Hex([0xe, 0xd, 0xb, 0x8, 0x8, 0x3, 0x2, 0x0])

  /** The debug unit's CRC hardware: every stage takes its neighbour, and the stages
      listed also take the incoming bit against the outgoing one */
  function HardwareStep(c: Word, d: bool): (r: Word)
    ensures forall i :: 0 <= i < 32 ==> r[i] == ((i < 31 && c[i + 1]) != (Tapped(i) && d != c[0]))
  {
    seq(32, i requires 0 <= i < 32 => (i < 31 && c[i + 1]) != (Tapped(i) && d != c[0]))
  }

  predicate Tapped(i: nat) {
    i in {5, 8, 9, 15, 19, 20, 21, 23, 24, 26, 27, 29, 30, 31}
  }

  lemma PolyTaps()
    ensures forall i :: 0 <= i < 32 ==> POLY[i] == Tapped(i)
  {
  }

  /** Host and hardware step the same register */
  lemma HardwareAgrees(c: Word, d: bool)
    ensures HardwareStep(c, d) == Step(POLY, c, d)
  {
    PolyTaps();
  }

  // --- the host driver's rendering ---

  method AdbgComputeCrc(crcIn: Word, dataIn: Word, lengthBits: nat) returns (crcOut: Word)
    requires lengthBits <= 32
    ensures crcOut == Fold(POLY, crcIn, dataIn[..lengthBits])
  {
    hide *;
    crcOut := crcIn;
    assert dataIn[..0] == [];
    FoldNone(POLY, crcIn);
    for i := 0 to lengthBits
      invariant crcOut == Fold(POLY, crcIn, dataIn[..i])
    {
      var d := if Shr(dataIn, i)[0] then ONES else ZERO;
      var c := if crcOut[0] then ONES else ZERO;
      MaskedStep(POLY, crcOut, dataIn[i], d, c);
      FoldLast(POLY, crcIn, dataIn[..i], dataIn[i]);
      assert dataIn[..i + 1] == dataIn[..i] + [dataIn[i]];
      crcOut := Shr(crcOut, 1);
      crcOut := Xor(crcOut, And(Xor(d, c), POLY));
    }
  }

  lemma MaskedStep(p: Word, c: Word, d: bool, dMask: Word, cMask: Word)
    requires dMask == if d then ONES else ZERO
    requires cMask == if c[0] then ONES else ZERO
    ensures Xor(Shr(c, 1), And(Xor(dMask, cMask), p)) == Step(p, c, d)
  {
  }

  /** The driver's check word changes whenever at most 32 consecutive bits change, and
      no longer window is safe */
  lemma WindowDetection(n: nat)
    ensures DetectsWindow(POLY, n) <==> n <= 32
  {
    PolyTaps();
    DetectsWindowIff(POLY, n);
  }

  // --- the monitor's table-driven rendering ---

  function Bytes(buf: seq<Byte>): Stream {
    if buf == [] then [] else buf[0] + Bytes(buf[1..])
  }

  lemma {:induction false} BytesAppend(a: seq<Byte>, b: seq<Byte>)
    ensures Bytes(a + b) == Bytes(a) + Bytes(b)
  {
    if a == [] {
      assert a + b == b;
    } else {
      assert (a + b)[1..] == a[1..] + b;
      BytesAppend(a[1..], b);
    }
  }

  lemma BytesNone()
    ensures Bytes([]) == []
  {
  }

  lemma BytesLast(a: seq<Byte>, b: Byte)
    ensures Bytes(a + [b]) == Bytes(a) + b
  {
    BytesAppend(a, [b]);
    assert Bytes([b]) == b;
  }

  /** What eight steps do to a register holding the number `i` */
  function TableEntry(i: nat): Word {
    Fold(POLY, ToWord(i), Fill(8, false))
  }

  method BuildTable(table: array<Word>)
    requires table.Length == 256
    modifies table
    ensures forall i :: 0 <= i < 256 ==> table[i] == TableEntry(i)
  {
    hide *;
    for i := 0 to 256
      invariant forall j :: 0 <= j < i ==> table[j] == TableEntry(j)
    {
      var c := TableRow(i);
      table[i] := c;
    }
  }

  method TableRow(i: nat) returns (c: Word)
    ensures c == TableEntry(i)
  {
    c := ToWord(i);
    for k := 0 to 8
      invariant c == Fold(POLY, ToWord(i), Fill(k, false))
    {
      FoldLast(POLY, ToWord(i), Fill(k, false), false);
      assert Fill(k + 1, false) == Fill(k, false) + [false];
      BranchStep(POLY, c);
      c := if c[0] then Xor(POLY, Shr(c, 1)) else Shr(c, 1);
    }
  }

  lemma BranchStep(p: Word, c: Word)
    ensures Step(p, c, false) == if c[0] then Xor(p, Shr(c, 1)) else Shr(c, 1)
  {
  }

  /** One table lookup does the work of the eight bits of `b` */
  lemma LookupStep(r: Word, b: Byte)
    ensures ToNat(Xor(r[..8], b)) < 256
    ensures Fold(POLY, r, b) == Xor(TableEntry(ToNat(Xor(r[..8], b))), Shr(r, 8))
  {
    hide *;
    var index := Xor(r[..8], b);
    IndexInTable(index);
    TableEntryDef(ToNat(index));
    StepMany(POLY, r, b);
  }

  lemma IndexInTable(b: Byte)
    ensures ToNat(b) < 256
    ensures ToWord(ToNat(b)) == Pack(b)
  {
    ToNatBound(b);
    assert Pow2(8) == 256;
    FromToNat(b, 32);
  }

  lemma TableEntryDef(i: nat)
    ensures TableEntry(i) == Fold(POLY, ToWord(i), Fill(8, false))
  {
  }

  method Crc32(crc: Word, buf: seq<Byte>) returns (r: Word)
    ensures r == MonitorCrc(crc, buf)
  {
    hide *;
    var table := new Word[256](_ => ZERO);
    BuildTable(table);
    r := Xor(crc, ONES);
    assert buf[..0] == [];
    FoldNone(POLY, r);
    BytesNone();
    for n := 0 to |buf|
      invariant forall i :: 0 <= i < 256 ==> table[i] == TableEntry(i)
      invariant r == Fold(POLY, Xor(crc, ONES), Bytes(buf[..n]))
    {
      LookupStep(r, buf[n]);
      BytesLast(buf[..n], buf[n]);
      assert buf[..n + 1] == buf[..n] + [buf[n]];
      FoldAppend(POLY, Xor(crc, ONES), Bytes(buf[..n]), buf[n]);
      r := Xor(table[ToNat(Xor(r[..8], buf[n]))], Shr(r, 8));
    }
    assert buf[..|buf|] == buf;
    r := Xor(r, ONES);
    MonitorCrcDef(crc, buf);
  }

  /** The monitor's check word: the driver's register, complemented before and after */
  function MonitorCrc(crc: Word, buf: seq<Byte>): Word {
    Xor(Fold(POLY, Xor(crc, ONES), Bytes(buf)), ONES)
  }

  lemma MonitorCrcDef(crc: Word, buf: seq<Byte>)
    ensures MonitorCrc(crc, buf) == Xor(Fold(POLY, Xor(crc, ONES), Bytes(buf)), ONES)
  {
  }

  /** A buffer may be checked in pieces */
  lemma MonitorCrcComposes(crc: Word, a: seq<Byte>, b: seq<Byte>)
    ensures MonitorCrc(MonitorCrc(crc, a), b) == MonitorCrc(crc, a + b)
  {
    var r := Fold(POLY, Xor(crc, ONES), Bytes(a));
    BytesAppend(a, b);
    XorTwice(r, ONES);
    FoldAppend(POLY, Xor(crc, ONES), Bytes(a), Bytes(b));
  }

  // --- word-wise and byte-wise burst checks ---

  /** Words of `size` bytes in the order a burst shifts them */
  function WordStream(words: seq<Word>, size: nat): Stream
    requires size <= 4
  {
    if words == [] then [] else words[0][..8 * size] + WordStream(words[1..], size)
  }

  /** The low `size` bytes of a word, least significant first */
  function WordBytes(w: Word, size: nat): (b: seq<Byte>)
    requires size <= 4
    ensures |b| == size
  {
    if size == 0 then [] else WordBytes(w, size - 1) + [w[8 * size - 8..8 * size]]
  }

  /** Words of `size` bytes as they lie in a little-endian host's buffer */
  function LittleEndian(words: seq<Word>, size: nat): seq<Byte>
    requires size <= 4
  {
    if words == [] then [] else WordBytes(words[0], size) + LittleEndian(words[1..], size)
  }

  lemma {:induction false} WordBytesStream(w: Word, size: nat)
    requires size <= 4
    ensures Bytes(WordBytes(w, size)) == w[..8 * size]
  {
    if size > 0 {
      WordBytesStream(w, size - 1);
      BytesLast(WordBytes(w, size - 1), w[8 * size - 8..8 * size]);
      assert w[..8 * size] == w[..8 * size - 8] + w[8 * size - 8..8 * size];
    }
  }

  /** Checking a burst word by word or byte by byte folds the same bits */
  lemma {:induction false} WordsAreBytes(words: seq<Word>, size: nat)
    requires size <= 4
    ensures Bytes(LittleEndian(words, size)) == WordStream(words, size)
  {
    if words != [] {
      WordBytesStream(words[0], size);
      BytesAppend(WordBytes(words[0], size), LittleEndian(words[1..], size));
      WordsAreBytes(words[1..], size);
    }
  }

  /** The check as the driver makes it word by word: `size` bytes of each */
  function WordCheck(c: Word, words: seq<Word>, size: nat): Word
    requires size <= 4
    decreases words
  {
    if words == [] then c else WordCheck(Fold(POLY, c, words[0][..8 * size]), words[1..], size)
  }

  /** And byte by byte over a buffer */
  function ByteCheck(c: Word, buf: seq<Byte>): Word
    decreases buf
  {
    if buf == [] then c else ByteCheck(Fold(POLY, c, buf[0]), buf[1..])
  }

  lemma {:induction false} WordCheckFolds(c: Word, words: seq<Word>, size: nat)
    requires size <= 4
    ensures WordCheck(c, words, size) == Fold(POLY, c, WordStream(words, size))
    decreases words
  {
    hide Fold;
    if words == [] {
      FoldNone(POLY, c);
    } else {
      FoldAppend(POLY, c, words[0][..8 * size], WordStream(words[1..], size));
      WordCheckFolds(Fold(POLY, c, words[0][..8 * size]), words[1..], size);
    }
  }

  lemma {:induction false} ByteCheckFolds(c: Word, buf: seq<Byte>)
    ensures ByteCheck(c, buf) == Fold(POLY, c, Bytes(buf))
    decreases buf
  {
    hide Fold;
    if buf == [] {
      FoldNone(POLY, c);
    } else {
      FoldAppend(POLY, c, buf[0], Bytes(buf[1..]));
      ByteCheckFolds(Fold(POLY, c, buf[0]), buf[1..]);
    }
  }

  /** The check of a burst is the same word by word and byte by byte over the words as they lie in a
      little-endian host's buffer */
  lemma WordsAndBytesAgree(c: Word, words: seq<Word>, size: nat)
    requires size <= 4
    ensures WordCheck(c, words, size) == ByteCheck(c, LittleEndian(words, size))
  {
    WordCheckFolds(c, words, size);
    ByteCheckFolds(c, LittleEndian(words, size));
    WordsAreBytes(words, size);
  }
}
