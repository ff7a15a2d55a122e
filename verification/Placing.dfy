/** Single bits written into a byte buffer. */
module Placing {
  import opened Bits
  import opened Mpsse
  import Crc

  /** The bits of a buffer, least significant bit of the first byte first */
  function BitsOf(buf: seq<Byte>): Stream {
    Crc.Bytes(buf)
  }

  function ByteAnd(a: Byte, b: Byte): (r: Byte)
    ensures forall i :: 0 <= i < 8 ==> r[i] == (a[i] && b[i])
  {
    seq(8, i requires 0 <= i < 8 => a[i] && b[i])
  }

  function ByteOr(a: Byte, b: Byte): (r: Byte)
    ensures forall i :: 0 <= i < 8 ==> r[i] == (a[i] || b[i])
  {
    seq(8, i requires 0 <= i < 8 => a[i] || b[i])
  }

  function ByteNot(a: Byte): (r: Byte)
    ensures forall i :: 0 <= i < 8 ==> r[i] == !a[i]
  {
    seq(8, i requires 0 <= i < 8 => !a[i])
  }

  /** `b >> n` */
  function ShiftedDown(b: Byte, n: nat): (r: Byte)
    ensures forall i :: 0 <= i < 8 ==> r[i] == (i + n < 8 && b[i + n])
  {
    seq(8, i requires 0 <= i < 8 => i + n < 8 && b[i + n])
  }

  /** `b << n` */
  function ShiftedUp(b: Byte, n: nat): (r: Byte)
    ensures forall i :: 0 <= i < 8 ==> r[i] == (n <= i && b[i - n])
  {
    seq(8, i requires 0 <= i < 8 => n <= i && b[i - n])
  }

  /** `1 << n` */
  function OneBit(n: nat): (r: Byte)
    requires n < 8
    ensures forall i :: 0 <= i < 8 ==> r[i] == (i == n)
  {
    seq(8, i => i == n)
  }

  /** Bit `from` of one byte stored as bit `to` of another, in the driver's masks and shifts */
  function Moved(dst: Byte, to: nat, src: Byte, from: nat): (r: Byte)
    requires from <= to < 8
  {
    ByteOr(ByteAnd(dst, ByteNot(OneBit(to))), ShiftedUp(ByteAnd(src, OneBit(from)), to - from))
  }

  function WithBit(b: Byte, i: nat, v: bool): Byte
    requires i < 8
  {
    b[i := v]
  }

  lemma MovedBit(dst: Byte, to: nat, src: Byte, from: nat)
    requires from <= to < 8
    ensures Moved(dst, to, src, from) == WithBit(dst, to, src[from])
  {
  }

  /** `s` with `d` written over it from position `at` */
  function Placed(s: Stream, at: nat, d: Stream): (r: Stream)
    requires at + |d| <= |s|
    ensures |r| == |s|
    ensures forall i :: 0 <= i < |s| ==> r[i] == if at <= i < at + |d| then d[i - at] else s[i]
  {
    s[..at] + d + s[at + |d|..]
  }

  /** Storing a bit in a byte of a buffer stores it among the buffer's bits */
  lemma BufferBit(buf: seq<Byte>, row: nat, col: nat, v: bool)
    requires row < |buf| && col < 8
    ensures |BitsOf(buf)| == 8 * |buf| && 8 * row + col < |BitsOf(buf)|
    ensures BitsOf(buf[row := WithBit(buf[row], col, v)]) == BitsOf(buf)[8 * row + col := v]
  {
    hide Crc.Bytes;
    var n := WithBit(buf[row], col, v);
    var front, rest := BitsOf(buf[..row]), BitsOf(buf[row + 1..]);
    Around(buf, row);
    Around(buf[row := n], row);
    assert buf[row := n][..row] == buf[..row] && buf[row := n][row + 1..] == buf[row + 1..];
    assert (front + buf[row] + rest)[8 * row + col := v] == front + n + rest;
  }

  /** The bits of a buffer around one byte */
  lemma Around(buf: seq<Byte>, row: nat)
    requires row < |buf|
    ensures |BitsOf(buf)| == 8 * |buf| && |BitsOf(buf[..row])| == 8 * row
    ensures BitsOf(buf) == BitsOf(buf[..row]) + buf[row] + BitsOf(buf[row + 1..])
  {
    hide Crc.Bytes;
    assert buf == buf[..row] + ([buf[row]] + buf[row + 1..]);
    Crc.BytesAppend(buf[..row], [buf[row]] + buf[row + 1..]);
    OneByte(buf[row], buf[row + 1..]);
    BytesLength(buf[..row]);
    BytesLength(buf);
  }

  lemma OneByte(b: Byte, rest: seq<Byte>)
    ensures Crc.Bytes([b] + rest) == b + Crc.Bytes(rest)
  {
    assert ([b] + rest)[1..] == rest;
  }

  /** Copying whole bytes into a buffer places their bits */
  lemma BufferBytes(buf: seq<Byte>, row: nat, d: seq<Byte>)
    requires row + |d| <= |buf|
    ensures |BitsOf(buf)| == 8 * |buf| && |BitsOf(d)| == 8 * |d|
    ensures BitsOf(buf[..row] + d + buf[row + |d|..]) == Placed(BitsOf(buf), 8 * row, BitsOf(d))
  {
    hide Crc.Bytes;
    var mid := buf[row..row + |d|];
    assert buf == buf[..row] + mid + buf[row + |d|..];
    Crc.BytesAppend(buf[..row] + d, buf[row + |d|..]);
    Crc.BytesAppend(buf[..row], d);
    Crc.BytesAppend(buf[..row] + mid, buf[row + |d|..]);
    Crc.BytesAppend(buf[..row], mid);
    BytesLength(buf[..row]);
    BytesLength(d);
    BytesLength(mid);
    BytesLength(buf);
  }
}
