/** The serial engine of the FT2232: what command bytes make it clock and answer. */
module Mpsse {
  import opened Bits
  import opened Scan
  import opened ChainLaws
  import Crc

  /** Opcodes, least significant bit first; `read` asks for the bits clocked in meanwhile */
  function OpBytes(read: bool): Byte { [true, false, false, true, true, read, false, false] }
  function OpBits(read: bool): Byte { [true, true, false, true, true, read, false, false] }
  function OpTms(read: bool): Byte { [true, true, false, true, false, read, true, false] }

  /** A command at the start of some bytes: how many bytes it takes (0 if it is not complete, or not
      known), what it clocks, whether it answers, in whole bytes or with one byte for its bits, and
      whether bytes go lowest bit first */
  datatype Command = Command(used: nat, pins: seq<Pin>, read: bool, bytes: bool, lowFirst: bool)

  const NONE: Command := Command(0, [], false, false, false)

  /** Data out on the falling edge and in on the rising one, as a chain needs it, on TDI, in bytes
      or bits; or on TMS, which takes bits, lowest first.  The other opcodes are not followed. */
  predicate Known(o: Byte) {
    && o[0] && !o[2] && !o[7]
    && if o[6] then o[1] && o[3] && !o[4] else o[4]
  }

  /** Between commands TMS is low; a TMS command holds TDI at the top bit of its byte */
  function TmsPins(b: Byte, n: nat): (p: seq<Pin>)
    requires n <= 8
    ensures |p| == n
  {
    seq(n, k requires 0 <= k < n => Pin(b[k], b[7], false))
  }

  /** The 16-bit length field */
  function Length(low: Stream, high: Stream): nat {
    ToNat(low + high)
  }

  /** A byte's bits in the order they go */
  function Ordered(b: Byte, lowFirst: bool): Byte {
    if lowFirst then b else Reversed(b)
  }

  function AllOrdered(data: seq<Byte>, lowFirst: bool): (r: seq<Byte>)
    ensures |r| == |data|
  {
    seq(|data|, i requires 0 <= i < |data| => Ordered(data[i], lowFirst))
  }

  function First(cmds: seq<Byte>): (c: Command)
    ensures c.used <= |cmds|
  {
    if |cmds| < 3 || !Known(cmds[0]) then NONE
    else
      var o := cmds[0];
      if o[1] then
        var n := ToNat(cmds[1]) % 8 + 1;
        Command(3, if o[6] then TmsPins(cmds[2], n) else StreamPins(Ordered(cmds[2], o[3])[..n], false), o[5], false, o[3])
      else
        var n := Length(cmds[1], cmds[2]) + 1;
        if |cmds| < 3 + n then NONE
        else Command(3 + n, StreamPins(Crc.Bytes(AllOrdered(cmds[3..3 + n], o[3])), false), o[5], true, o[3])
  }

  /** The clocks of a run of commands */
  function Pins(cmds: seq<Byte>): seq<Pin>
    decreases |cmds|
  {
    var c := First(cmds);
    if c.used == 0 then [] else c.pins + Pins(cmds[c.used..])
  }

  /** Bits clocked in by a bit command arrive at the top of a byte and push down what was there; the
      other way round if the highest bit goes first */
  function Shifted(junk: Byte, t: Stream, lowFirst: bool): Byte
    requires |t| <= 8
  {
    if lowFirst then junk[|t|..] + t else Reversed(t) + junk[..8 - |t|]
  }

  function Packed(t: Stream): seq<Byte>
    decreases t
  {
    if |t| < 8 then [] else [t[..8]] + Packed(t[8..])
  }

  /** The answers to a run of commands during which `t` was clocked in */
  function Answers(cmds: seq<Byte>, t: Stream, junk: Byte): seq<Byte>
    decreases |cmds|
  {
    var c := First(cmds);
    if c.used == 0 || |t| < |c.pins| then []
    else
      (if !c.read then [] else if c.bytes then AllOrdered(Packed(t[..|c.pins|]), c.lowFirst)
       else if |c.pins| > 8 then [] else [Shifted(junk, t[..|c.pins|], c.lowFirst)])
      + Answers(cmds[c.used..], t[|c.pins|..], junk)
  }

  /** Nothing but whole commands */
  predicate Complete(cmds: seq<Byte>)
    decreases |cmds|
  {
    cmds == [] || (First(cmds).used > 0 && Complete(cmds[First(cmds).used..]))
  }

  lemma FirstStays(a: seq<Byte>, b: seq<Byte>)
    requires First(a).used > 0
    ensures First(a + b) == First(a)
  {
    var n := Length(a[1], a[2]) + 1;
    if !a[0][1] {
      assert (a + b)[3..3 + n] == a[3..3 + n];
    }
    hide ToNat, Length;
  }

  /** Whole commands run one after the other */
  lemma {:induction false} PinsAppend(a: seq<Byte>, b: seq<Byte>)
    requires Complete(a)
    ensures Pins(a + b) == Pins(a) + Pins(b) && (Complete(a + b) <==> Complete(b))
    decreases |a|
  {
    hide First;
    if a == [] {
      assert a + b == b;
      FirstOfNone();
    } else {
      FirstStays(a, b);
      var k := First(a).used;
      assert (a + b)[k..] == a[k..] + b;
      PinsAppend(a[k..], b);
    }
  }

  lemma FirstOfNone()
    ensures First([]).used == 0
  {
  }

  lemma {:induction false} AnswersAppend(a: seq<Byte>, b: seq<Byte>, s: Stream, t: Stream, junk: Byte)
    requires Complete(a) && |s| == |Pins(a)|
    ensures Answers(a + b, s + t, junk) == Answers(a, s, junk) + Answers(b, t, junk)
    decreases |a|
  {
    hide First, Packed, Shifted;
    if a == [] {
      assert a + b == b && s + t == t;
      FirstOfNone();
    } else {
      FirstStays(a, b);
      var c := First(a);
      var k := |c.pins|;
      assert (a + b)[c.used..] == a[c.used..] + b;
      assert (s + t)[..k] == s[..k] && (s + t)[k..] == s[k..] + t;
      AnswersAppend(a[c.used..], b, s[k..], t, junk);
    }
  }

  // --- the driver's commands ---

  lemma LengthBytes(n: nat)
    requires n < 0x1_0000
    ensures |FromNat(n, 16)| == 16 && Length(FromNat(n, 16)[..8], FromNat(n, 16)[8..]) == n
  {
    assert FromNat(n, 16)[..8] + FromNat(n, 16)[8..] == FromNat(n, 16);
    SixteenBits();
    ToFromNat(n, 16);
    hide FromNat, ToNat;
  }

  lemma SixteenBits()
    ensures Pow2(16) == 0x1_0000
  {
    assert Pow2(8) == 256;
    assert Pow2(12) == 4096;
  }

  /** A byte command */
  function BytesCommand(data: seq<Byte>, read: bool): seq<Byte>
    requires 0 < |data| <= 0x1_0000
  {
    [OpBytes(read), FromNat(|data| - 1, 16)[..8], FromNat(|data| - 1, 16)[8..]] + data
  }

  lemma BytesCommandDoes(data: seq<Byte>, read: bool, t: Stream, junk: Byte)
    requires 0 < |data| <= 0x1_0000 && |t| == 8 * |data|
    ensures var c := BytesCommand(data, read);
      && Complete(c) && Pins(c) == StreamPins(Crc.Bytes(data), false)
      && Answers(c, t, junk) == if read then Packed(t) else []
  {
    hide FromNat, ToNat, Crc.Bytes, Packed, Shifted;
    var c := BytesCommand(data, read);
    LengthBytes(|data| - 1);
    BytesLength(data);
    assert c[3..3 + |data|] == data;
    assert AllOrdered(data, true) == data && AllOrdered(Packed(t), true) == Packed(t);
    assert First(c) == Command(3 + |data|, StreamPins(Crc.Bytes(data), false), read, true, true);
    OneCommand(c, t, junk);
  }

  lemma {:induction false} BytesLength(data: seq<Byte>)
    ensures |Crc.Bytes(data)| == 8 * |data|
  {
    if data != [] { BytesLength(data[1..]); }
  }

  /** A run that is one command */
  lemma OneCommand(c: seq<Byte>, t: Stream, junk: Byte)
    requires First(c).used == |c| > 0 && |t| == |First(c).pins|
    ensures Complete(c) && Pins(c) == First(c).pins
    ensures Answers(c, t, junk) ==
      if !First(c).read then [] else if First(c).bytes then AllOrdered(Packed(t), First(c).lowFirst)
      else if |t| > 8 then [] else [Shifted(junk, t, First(c).lowFirst)]
  {
    hide First, Packed, Shifted;
    FirstOfNone();
    assert c[|c|..] == [];
    assert Pins([]) == [];
    assert t[..|t|] == t && Answers([], t[|t|..], junk) == [];
  }

  lemma {:induction false} PackedBytes(t: Stream)
    requires |t| % 8 == 0
    ensures Crc.Bytes(Packed(t)) == t && |Packed(t)| == |t| / 8
    decreases t
  {
    if t != [] {
      PackedBytes(t[8..]);
      assert t == t[..8] + t[8..];
      assert Packed(t)[1..] == Packed(t[8..]);
    }
  }

  /** A bit command for the low `n` bits of a byte */
  function BitsCommand(b: Byte, n: nat, read: bool): seq<Byte>
    requires 1 <= n <= 8
  {
    [OpBits(read), FromNat(n - 1, 8), b]
  }

  /** A TMS command for one bit */
  function TmsCommand(b: Byte, read: bool): seq<Byte> {
    [OpTms(read), FromNat(0, 8), [true, false, false, false, false, false, false, b[0]]]
  }

  lemma SmallLength(n: nat)
    requires n < 8
    ensures ToNat(FromNat(n, 8)) == n
  {
    assert Pow2(8) == 256;
    ToFromNat(n, 8);
    hide FromNat, ToNat;
  }

  lemma BitsCommandDoes(b: Byte, n: nat, read: bool, t: Stream, junk: Byte)
    requires 1 <= n <= 8 && |t| == n
    ensures var c := BitsCommand(b, n, read);
      && Complete(c) && Pins(c) == StreamPins(b[..n], false)
      && Answers(c, t, junk) == if read then [Shifted(junk, t, true)] else []
  {
    hide FromNat, ToNat, Packed, Shifted;
    SmallLength(n - 1);
    var c := BitsCommand(b, n, read);
    assert First(c) == Command(3, StreamPins(b[..n], false), read, false, true);
    OneCommand(c, t, junk);
  }

  lemma TmsCommandDoes(b: Byte, read: bool, t: Stream, junk: Byte)
    requires |t| == 1
    ensures var c := TmsCommand(b, read);
      && Complete(c) && Pins(c) == StreamPins([b[0]], true)
      && Answers(c, t, junk) == if read then [Shifted(junk, t, true)] else []
  {
    hide FromNat, ToNat, Packed, Shifted;
    SmallLength(0);
    var c := TmsCommand(b, read);
    assert TmsPins(c[2], 1) == StreamPins([b[0]], true);
    assert First(c) == Command(3, StreamPins([b[0]], true), read, false, true);
    OneCommand(c, t, junk);
  }
}
