/** The FT2232 cable driver: splitting bit streams into commands, and the buffers in between. */
module Ft2232 {
  import opened Bits
  import opened Scan
  import opened ChainLaws
  import opened Mpsse
  import opened Placing
  import Crc
  import ChainCommands

  const FTDX_MAXSEND: nat := 4096
  const FTDI_MAXRECV: nat := 256

  /** How many answer bytes a run of commands gives */
  function Replies(cmds: seq<Byte>): nat {
    |Answers(cmds, Fill(|Pins(cmds)|, false), Fill(8, false))|
  }

  lemma {:induction false} RepliesIs(cmds: seq<Byte>, t: Stream, junk: Byte)
    requires |t| == |Pins(cmds)|
    ensures |Answers(cmds, t, junk)| == Replies(cmds)
  {
    SameCount(cmds, t, junk, Fill(|Pins(cmds)|, false), Fill(8, false));
  }

  lemma {:induction false} SameCount(cmds: seq<Byte>, s: Stream, j: Byte, t: Stream, k: Byte)
    requires |s| == |t|
    ensures |Answers(cmds, s, j)| == |Answers(cmds, t, k)|
    decreases |cmds|
  {
    hide First, Shifted, Packed;
    var c := First(cmds);
    if c.used > 0 && |t| >= |c.pins| {
      PackedCount(s[..|c.pins|], t[..|c.pins|]);
      SameCount(cmds[c.used..], s[|c.pins|..], j, t[|c.pins|..], k);
    }
  }

  lemma {:induction false} PackedCount(s: Stream, t: Stream)
    requires |s| == |t|
    ensures |Packed(s)| == |Packed(t)|
    decreases s
  {
    if |s| >= 8 { PackedCount(s[8..], t[8..]); }
  }

  /** The connection: commands not sent yet, answers not read yet, and the chip with its chain.
      The chip answers in full. */
  class UsbConn {
    const junk: Byte
    var h: Chain
    var sendBuf: seq<Byte>
    var toRecv: nat
    var recvBuf: seq<Byte>
    var readIdx: nat

    ghost predicate Valid()
      reads this
    {
      Complete(sendBuf) && toRecv == Replies(sendBuf) && readIdx <= |recvBuf|
    }

    /** The chain once everything written has been carried out */
    ghost function Ahead(): Chain
      reads this
    {
      After(h, Pins(sendBuf))
    }

    /** The answers to everything written that have not been read */
    ghost function Unread(): seq<Byte>
      requires readIdx <= |recvBuf|
      reads this
    {
      recvBuf[readIdx..] + Answers(sendBuf, Out(h, Pins(sendBuf)), junk)
    }

    constructor (h: Chain, junk: Byte)
      ensures Valid() && Ahead() == h && Unread() == [] && this.junk == junk
    {
      this.junk, this.h := junk, h;
      sendBuf, toRecv, recvBuf, readIdx := [], 0, [], 0;
      new;
      Nothing(h, junk);
    }

    /** Sends what is buffered and takes in all the answers to it */
    method Flush()
      requires Valid()
      modifies this`h, this`sendBuf, this`toRecv, this`recvBuf
      ensures Valid() && Ahead() == old(Ahead()) && Unread() == old(Unread())
      ensures sendBuf == [] && toRecv == 0 && h == old(Ahead())
    {
      hide *;
      ValidParts();
      Nothing(h, junk);
      if |sendBuf| == 0 { ValidFrom(); return; }
      var sent := sendBuf;
      RepliesIs(sent, Out(h, Pins(sent)), junk);
      var replies := Answers(sent, Out(h, Pins(sent)), junk);
      h := After(h, Pins(sent));
      sendBuf := [];
      Nothing(h, junk);
      assert old(recvBuf)[readIdx..] + replies == (old(recvBuf) + replies)[readIdx..];
      assert (recvBuf + replies)[readIdx..] + [] == (recvBuf + replies)[readIdx..];
      if toRecv > 0 {
        recvBuf := recvBuf + replies;
        toRecv := 0;
      } else {
        assert replies == [];
      }
      ValidFrom();
    }

    /** Buffers whole commands that will give `recv` answers, and sends what is buffered before if its
        answers or, without any, its length would become too many */
    method Write(buf: seq<Byte>, recv: nat)
      requires Valid() && Complete(buf) && recv == Replies(buf)
      modifies this`h, this`sendBuf, this`toRecv, this`recvBuf
      ensures Valid() && Ahead() == After(old(Ahead()), Pins(buf))
      ensures toRecv <= FTDI_MAXRECV || toRecv == recv
      ensures toRecv == 0 ==> |sendBuf| <= FTDX_MAXSEND + |buf|
      ensures Unread() == old(Unread()) + Answers(buf, Out(old(Ahead()), Pins(buf)), junk)
    {
      hide *;
      if toRecv + recv > FTDI_MAXRECV || (|sendBuf| > FTDX_MAXSEND && toRecv == 0) {
        Flush();
      }
      ValidParts();
      PinsAppend(sendBuf, buf);
      AfterAppend(h, Pins(sendBuf), Pins(buf));
      RepliesMore(sendBuf, buf);
      AnswersAppend(sendBuf, buf, Out(h, Pins(sendBuf)), Out(After(h, Pins(sendBuf)), Pins(buf)), junk);
      ghost var a, b := Answers(sendBuf, Out(h, Pins(sendBuf)), junk), Answers(buf, Out(After(h, Pins(sendBuf)), Pins(buf)), junk);
      assert recvBuf[readIdx..] + a + b == recvBuf[readIdx..] + (a + b);
      sendBuf := sendBuf + buf;
      toRecv := toRecv + recv;
      ValidFrom();
    }

    /** Reads the next answers */
    method Read(len: nat) returns (buf: seq<Byte>)
      requires Valid() && len <= |Unread()|
      modifies this
      ensures Valid() && Ahead() == old(Ahead()) && buf == old(Unread())[..len] && Unread() == old(Unread())[len..]
    {
      hide *;
      Flush();
      ValidParts();
      Nothing(h, junk);
      assert recvBuf[readIdx..] + [] == recvBuf[readIdx..];
      if len == 0 {
        assert recvBuf[readIdx..][..0] == [];
        assert recvBuf[readIdx..][0..] == recvBuf[readIdx..];
        return [];
      }
      buf := recvBuf[readIdx..readIdx + len];
      assert recvBuf[readIdx..][len..] == recvBuf[readIdx + len..];
      assert recvBuf[readIdx + len..] + [] == recvBuf[readIdx + len..];
      readIdx := readIdx + len;
      if readIdx == |recvBuf| {
        assert recvBuf[readIdx..] == [];
        recvBuf, readIdx := [], 0;
        assert recvBuf[0..] + [] == [];
      }
      ValidFrom();
    }

    lemma ValidParts()
      requires Valid()
      ensures Complete(sendBuf) && toRecv == Replies(sendBuf) && readIdx <= |recvBuf|
      ensures Ahead() == After(h, Pins(sendBuf))
      ensures Unread() == recvBuf[readIdx..] + Answers(sendBuf, Out(h, Pins(sendBuf)), junk)
    {
    }

    lemma ValidFrom()
      requires Complete(sendBuf) && toRecv == Replies(sendBuf) && readIdx <= |recvBuf|
      ensures Valid() && Ahead() == After(h, Pins(sendBuf))
      ensures Unread() == recvBuf[readIdx..] + Answers(sendBuf, Out(h, Pins(sendBuf)), junk)
    {
    }
  }

  lemma Nothing(h: Chain, junk: Byte)
    ensures Complete([]) && Pins([]) == [] && Replies([]) == 0 && After(h, []) == h
    ensures Answers([], Out(h, []), junk) == [] && Answers([], [], junk) == []
  {
    FirstOfNone();
    AfterNone(h);
    hide First;
  }

  lemma RepliesMore(a: seq<Byte>, b: seq<Byte>)
    requires Complete(a)
    ensures Replies(a + b) == Replies(a) + Replies(b)
  {
    hide First, Answers, Pins, Complete;
    PinsAppend(a, b);
    var z, y := Fill(|Pins(a)|, false), Fill(|Pins(b)|, false);
    AnswersAppend(a, b, z, y, Fill(8, false));
    assert z + y == Fill(|Pins(a + b)|, false);
  }

  // --- splitting streams ---

  lemma StreamsJoin(a: Stream, b: Stream, last: bool)
    requires b != []
    ensures StreamPins(a, false) + StreamPins(b, last) == StreamPins(a + b, last)
  {
  }

  lemma {:induction false} PackedJoin(a: Stream, b: Stream)
    requires |a| % 8 == 0
    ensures Packed(a + b) == Packed(a) + Packed(b)
    decreases a
  {
    if a == [] {
      assert a + b == b;
    } else {
      assert (a + b)[..8] == a[..8] && (a + b)[8..] == a[8..] + b;
      PackedJoin(a[8..], b);
    }
  }

  /** The answer byte, if any, for fewer than 8 bits clocked in */
  function Single(d: Stream, junk: Byte): seq<Byte>
    requires |d| <= 8
  {
    if d == [] then [] else [Shifted(junk, d, true)]
  }

  lemma SingleIs(d: Stream, junk: Byte)
    requires 0 < |d| <= 8
    ensures Single(d, junk) == [Shifted(junk, d, true)]
  {
  }

  /** The answer bytes for `t` clocked in as whole bytes, then single bits, then one with TMS */
  function Reply(t: Stream, tms: bool, junk: Byte): seq<Byte>
    requires tms ==> t != []
  {
    var n := if tms then |t| - 1 else |t|;
    var bytes := n / 8 * 8;
    Packed(t[..bytes]) + Single(t[bytes..n], junk) + Single(t[n..], junk)
  }

  /** The connection after `s` was sent from `start` with `before` unread: the chain has had the
      stream and the answers, if asked for, are `answers` */
  ghost predicate Sent(conn: UsbConn, start: Chain, before: seq<Byte>, s: Stream, last: bool, answers: seq<Byte>)
    reads conn
  {
    conn.Valid() && conn.Ahead() == After(start, StreamPins(s, last)) && conn.Unread() == before + answers
  }

  class Cable {
    const conn: UsbConn

    constructor (conn: UsbConn)
      ensures this.conn == conn
    {
      this.conn := conn;
    }

    /** Sends whole bytes in chunks of at most 65536 */
    method WriteBytes(buf: seq<Byte>, postread: bool)
      requires conn.Valid()
      modifies conn
      ensures Sent(conn, old(conn.Ahead()), old(conn.Unread()), BitsOf(buf), false,
                   if postread then Packed(Out(old(conn.Ahead()), StreamPins(BitsOf(buf), false))) else [])
    {
      hide *;
      conn.ValidParts();
      ghost var start, before := conn.Ahead(), conn.Unread();
      var rest := buf;
      ghost var done: seq<Byte> := [];
      SentNothing(conn, start, before, postread);
      assert done + rest == buf;
      while |rest| > 0
        invariant done + rest == buf
        invariant Sent(conn, start, before, BitsOf(done), false,
                       if postread then Packed(Out(start, StreamPins(BitsOf(done), false))) else [])
        decreases |rest|
      {
        var size := if |rest| < 0x1_0000 then |rest| else 0x1_0000;
        var chunk := rest[..size];
        ghost var was := conn.Ahead();
        SentParts(conn, start, before, BitsOf(done), false, if postread then Packed(Out(start, StreamPins(BitsOf(done), false))) else []);
        ChunkBits(chunk);
        BytesCommandDoes(chunk, postread, Out(was, StreamPins(BitsOf(chunk), false)), conn.junk);
        RepliesIs(BytesCommand(chunk, postread), Out(was, StreamPins(BitsOf(chunk), false)), conn.junk);
        RepliesOfBytes(Out(was, StreamPins(BitsOf(chunk), false)), size);
        conn.Write(BytesCommand(chunk, postread), if postread then size else 0);
        MoreBytes(start, before, done, chunk, postread, conn.junk);
        SentFrom(conn, start, before, BitsOf(done + chunk), false,
                 if postread then Packed(Out(start, StreamPins(BitsOf(done + chunk), false))) else []);
        assert (done + chunk) + rest[size..] == done + (chunk + rest[size..]);
        assert chunk + rest[size..] == rest;
        done := done + chunk;
        rest := rest[size..];
      }
      assert done + [] == done;
    }

    /** Sends up to 8 single bits, without or, one at a time, with TMS */
    method WriteBits(b: Byte, n: nat, postread: bool, withTms: bool)
      requires conn.Valid() && 1 <= n <= 8 && (withTms ==> n == 1)
      modifies conn
      ensures var t := Out(old(conn.Ahead()), StreamPins(b[..n], withTms));
        Sent(conn, old(conn.Ahead()), old(conn.Unread()), b[..n], withTms, if postread then Single(t, conn.junk) else [])
    {
      hide *;
      conn.ValidParts();
      ghost var start, before := conn.Ahead(), conn.Unread();
      ghost var t := Out(start, StreamPins(b[..n], withTms));
      var cmd := if withTms then TmsCommand(b, postread) else BitsCommand(b, n, postread);
      if withTms {
        assert b[..1] == [b[0]];
        TmsCommandDoes(b, postread, t, conn.junk);
      } else {
        BitsCommandDoes(b, n, postread, t, conn.junk);
      }
      SingleIs(t, conn.junk);
      RepliesIs(cmd, t, conn.junk);
      conn.Write(cmd, if postread then 1 else 0);
      SentFrom(conn, start, before, b[..n], withTms, if postread then Single(t, conn.junk) else []);
    }

    /** Sends the first `len` bits of a buffer: whole bytes, the bits left over, and the last one
        with TMS if asked for */
    method WriteStream(buf: seq<Byte>, len: nat, postread: bool, withTms: bool)
      requires conn.Valid() && 0 < len <= 8 * |buf|
      modifies conn
      ensures |BitsOf(buf)| == 8 * |buf|
      ensures var s := BitsOf(buf)[..len]; var t := Out(old(conn.Ahead()), StreamPins(s, withTms));
        Sent(conn, old(conn.Ahead()), old(conn.Unread()), s, withTms, if postread then Reply(t, withTms, conn.junk) else [])
    {
      hide *;
      ChunkBits(buf);
      conn.ValidParts();
      ghost var start, before := conn.Ahead(), conn.Unread();
      var lenTmsBits := if withTms then 1 else 0;
      var lenBytes := (len - lenTmsBits) / 8;
      var lenBits := (len - lenTmsBits) % 8;
      ghost var junk, k := conn.junk, 8 * lenBytes;
      ghost var s1, s2, s3 := BitsOf(buf)[..k], BitsOf(buf)[k..k + lenBits], BitsOf(buf)[k + lenBits..len];
      Head(buf, lenBytes);
      WriteBytes(buf[..lenBytes], postread);
      ghost var a1 := if postread then Packed(Out(start, StreamPins(s1, false))) else [];
      SentParts(conn, start, before, s1, false, a1);
      ghost var mid := conn.Ahead();
      WriteRow(buf, lenBytes, 0, lenBits, postread, false);
      ghost var a2 := if postread then Single(Out(mid, StreamPins(s2, false)), junk) else [];
      SentThen(conn, start, before, s1, a1, s2, false, a2);
      SentParts(conn, start, before, s1 + s2, false, a1 + a2);
      ghost var late := conn.Ahead();
      WriteRow(buf, lenBytes, lenBits, lenTmsBits, postread, withTms);
      ghost var a3 := if postread then Single(Out(late, StreamPins(s3, withTms)), junk) else [];
      SentThen(conn, start, before, s1 + s2, a1 + a2, s3, withTms, a3);
      Joined(BitsOf(buf), k, k + lenBits, len);
      Assembled(start, s1, s2, s3, withTms, postread, junk);
    }

    /** Sends `n` bits of one byte of the buffer, if any */
    method WriteRow(buf: seq<Byte>, row: nat, lo: nat, n: nat, postread: bool, withTms: bool)
      requires conn.Valid() && (n > 0 ==> row < |buf|) && 8 * row + lo + n <= 8 * |buf| == |BitsOf(buf)|
      requires if withTms then n == 1 && lo < 8 else n == 0 || (lo == 0 && n < 8)
      modifies conn
      ensures var s := BitsOf(buf)[8 * row + lo..8 * row + lo + n];
        Sent(conn, old(conn.Ahead()), old(conn.Unread()), s, withTms,
             if postread then Single(Out(old(conn.Ahead()), StreamPins(s, withTms)), conn.junk) else [])
    {
      hide *;
      conn.ValidParts();
      ghost var s := BitsOf(buf)[8 * row + lo..8 * row + lo + n];
      EmptyStart(conn, conn.Ahead(), conn.Unread(), s);
      if n > 0 {
        ByteBits(buf, row, lo, lo + n);
        WriteBits(if withTms then ShiftedDown(buf[row], lo) else buf[row], n, postread, withTms);
      }
    }

    /** Reads answers and stores their bits in `buf` from bit `offset` up.  A packet of fewer than
        8 bits has them at the top of its byte; the driver reads such packets one at a time,
        within one byte of `buf`. */
    method ReadPackedBits(buf: array<Byte>, packetLen: nat, bitsPerPacket: nat, offset: nat) returns (r: int)
      requires conn.Valid() && packetLen <= |conn.Unread()|
      requires bitsPerPacket < 8 ==> packetLen <= 1 && offset % 8 + bitsPerPacket <= 8 && offset / 8 < buf.Length
      requires bitsPerPacket == 8 ==> offset % 8 == 0 && offset / 8 + packetLen <= buf.Length
      modifies conn, buf
      ensures conn.Valid() && conn.Ahead() == old(conn.Ahead())
      ensures packetLen == 0 || bitsPerPacket == 0 ==> r == 0 && conn.Unread() == old(conn.Unread()) && buf[..] == old(buf[..])
      ensures packetLen > 0 && bitsPerPacket > 0 ==> conn.Unread() == old(conn.Unread())[packetLen..]
      ensures packetLen > 0 && bitsPerPacket > 8 ==> r == -1 && buf[..] == old(buf[..])
      ensures packetLen > 0 && 0 < bitsPerPacket <= 8 ==>
        r == 0 && Stored(old(buf[..]), buf[..], offset, Taken(old(conn.Unread())[..packetLen], bitsPerPacket))
    {
      hide *;
      conn.ValidParts();
      if packetLen == 0 || bitsPerPacket == 0 { return 0; }
      var mybuf := conn.Read(packetLen);
      conn.ValidParts();
      if bitsPerPacket < 8 {
        TakenPart(mybuf, bitsPerPacket);
        var aligned := ShiftedDown(mybuf[0], 8 - bitsPerPacket);
        assert aligned[..bitsPerPacket] == mybuf[0][8 - bitsPerPacket..];
        StoreBits(buf, aligned, bitsPerPacket, offset);
      } else if bitsPerPacket == 8 {
        CopyBytes(buf, offset / 8, mybuf);
        BytesStored(old(buf[..]), offset / 8, mybuf);
      } else {
        return -1;
      }
      return 0;
    }

    /** Reads back the answers to a stream sent with reading: bit `k` clocked in becomes bit `k` of
        `buf`, whose other bits stay */
    method ReadStream(buf: array<Byte>, len: nat, withTms: bool, ghost t: Stream, ghost rest: seq<Byte>)
      requires conn.Valid() && 0 < len == |t| <= 8 * buf.Length
      requires conn.Unread() == Reply(t, withTms, conn.junk) + rest
      modifies conn, buf
      ensures conn.Valid() && conn.Ahead() == old(conn.Ahead()) && conn.Unread() == rest
      ensures Stored(old(buf[..]), buf[..], 0, t)
    {
      hide *;
      var lenTmsBits := if withTms then 1 else 0;
      var lenBytes := (len - lenTmsBits) / 8;
      var lenBits := (len - lenTmsBits) % 8;
      ghost var k, n, b0 := 8 * lenBytes, 8 * lenBytes + lenBits, buf[..];
      ghost var t1, t2, t3 := t[..k], t[k..n], t[n..];
      ReplyIs(t, k, n, withTms, conn.junk);
      ghost var p2, p3 := Single(t2, conn.junk), Single(t3, conn.junk);
      assert Packed(t1) + p2 + p3 + rest == Packed(t1) + (p2 + (p3 + rest));
      ReadWhole(buf, lenBytes, t1, p2 + (p3 + rest));
      ghost var b1 := buf[..];
      ReadRow(buf, lenBits, lenBytes * 8, t2, p3 + rest);
      ghost var b2 := buf[..];
      StoredThen(b0, b1, b2, 0, t1, t2);
      ReadRow(buf, lenTmsBits, lenBits + lenBytes * 8, t3, rest);
      StoredThen(b0, b2, buf[..], 0, t1 + t2, t3);
      assert t1 + t2 + t3 == t;
    }

    method ReadWhole(buf: array<Byte>, lenBytes: nat, ghost d: Stream, ghost rest: seq<Byte>)
      requires conn.Valid() && |d| == 8 * lenBytes <= 8 * buf.Length && conn.Unread() == Packed(d) + rest
      modifies conn, buf
      ensures conn.Valid() && conn.Ahead() == old(conn.Ahead()) && conn.Unread() == rest
      ensures Stored(old(buf[..]), buf[..], 0, d)
    {
      hide *;
      ghost var p := Packed(d);
      PackedBytes(d);
      assert (p + rest)[..|p|] == p && (p + rest)[|p|..] == rest;
      NothingStored(buf[..], 0);
      if lenBytes > 0 {
        TakenWhole(p, d);
        var _ := ReadPackedBits(buf, lenBytes, 8, 0);
      } else {
        assert d == [] && p + rest == rest;
      }
    }

    method ReadRow(buf: array<Byte>, n: nat, offset: nat, ghost d: Stream, ghost rest: seq<Byte>)
      requires conn.Valid() && |d| == n < 8 && offset % 8 + n <= 8 && offset + n <= 8 * buf.Length
      requires conn.Unread() == Single(d, conn.junk) + rest
      modifies conn, buf
      ensures conn.Valid() && conn.Ahead() == old(conn.Ahead()) && conn.Unread() == rest
      ensures Stored(old(buf[..]), buf[..], offset, d)
    {
      hide *;
      ghost var p := Single(d, conn.junk);
      NothingStored(buf[..], offset);
      TakenSingle(d, conn.junk);
      assert (p + rest)[..|p|] == p && (p + rest)[|p|..] == rest;
      if n > 0 {
        var _ := ReadPackedBits(buf, 1, n, offset);
      } else {
        assert d == [] && p + rest == rest;
      }
    }

    // --- the operations of a cable ---

    /** Sends a stream; when this returns the chain has had it */
    method FtdiWriteStream(stream: seq<Byte>, len: nat, setLastBit: bool)
      requires conn.Valid() && 0 < len <= 8 * |stream|
      modifies conn
      ensures |BitsOf(stream)| == 8 * |stream|
      ensures conn.Valid() && conn.Unread() == old(conn.Unread())
      ensures conn.h == conn.Ahead() == After(old(conn.Ahead()), StreamPins(BitsOf(stream)[..len], setLastBit))
    {
      hide *;
      conn.ValidParts();
      ghost var start, before := conn.Ahead(), conn.Unread();
      WriteStream(stream, len, false, setLastBit);
      SentParts(conn, start, before, BitsOf(stream)[..len], setLastBit, []);
      assert before + [] == before;
      conn.Flush();
    }

    /** Sends a stream and stores the bits that come out meanwhile */
    method FtdiReadStream(outstream: seq<Byte>, instream: array<Byte>, len: nat, setLastBit: bool)
      requires conn.Valid() && conn.Unread() == [] && 0 < len <= 8 * |outstream| && len <= 8 * instream.Length
      modifies conn, instream
      ensures |BitsOf(outstream)| == 8 * |outstream|
      ensures var pins := StreamPins(BitsOf(outstream)[..len], setLastBit);
        && conn.Valid() && conn.Unread() == [] && conn.Ahead() == After(old(conn.Ahead()), pins)
        && Stored(old(instream[..]), instream[..], 0, Out(old(conn.Ahead()), pins))
    {
      hide *;
      ghost var start := conn.Ahead();
      WriteStream(outstream, len, true, setLastBit);
      ghost var s := BitsOf(outstream)[..len];
      ghost var t := Out(start, StreamPins(s, setLastBit));
      SentParts(conn, start, [], s, setLastBit, Reply(t, setLastBit, conn.junk));
      assert [] + Reply(t, setLastBit, conn.junk) == Reply(t, setLastBit, conn.junk) + [];
      ReadStream(instream, len, setLastBit, t, []);
    }

    method FtdiWriteBit(tms: bool, tdo: bool)
      requires conn.Valid()
      modifies conn
      ensures conn.Valid() && conn.Unread() == old(conn.Unread())
      ensures conn.h == conn.Ahead() == After(old(conn.Ahead()), [Pin(tms, tdo, false)])
    {
      hide *;
      OneBitStream(tms, tdo);
      FtdiWriteStream([BitByte(tdo)], 1, tms);
    }

    /** One clock; the bit that comes out replaces the lowest bit of `bitIn[0]` only */
    method FtdiReadWriteBit(tms: bool, tdo: bool, bitIn: array<Byte>) returns (ghost b: bool)
      requires conn.Valid() && conn.Unread() == [] && bitIn.Length == 1
      modifies conn, bitIn
      ensures conn.Valid() && conn.Unread() == [] && conn.Ahead() == After(old(conn.Ahead()), [Pin(tms, tdo, false)])
      ensures [b] == Out(old(conn.Ahead()), [Pin(tms, tdo, false)]) && bitIn[0] == WithBit(old(bitIn[0]), 0, b)
    {
      hide *;
      OneBitStream(tms, tdo);
      b := Out(conn.Ahead(), [Pin(tms, tdo, false)])[0];
      ghost var was := bitIn[..];
      ghost var out := Out(conn.Ahead(), [Pin(tms, tdo, false)]);
      FtdiReadStream([BitByte(tdo)], bitIn, 1, tms);
      assert out == [b];
      StoredFirst(was, bitIn[..], b);
    }
  }

  function BitByte(b: bool): Byte {
    [b] + Fill(7, false)
  }

  lemma OneBitStream(tms: bool, tdo: bool)
    ensures |BitsOf([BitByte(tdo)])| == 8 && StreamPins(BitsOf([BitByte(tdo)])[..1], tms) == [Pin(tms, tdo, false)]
  {
    OneByte(BitByte(tdo), []);
    assert [BitByte(tdo)] + [] == [BitByte(tdo)];
    assert BitByte(tdo)[..1] == [tdo];
  }

  lemma StoredFirst(was: seq<Byte>, now: seq<Byte>, b: bool)
    requires |was| == 1 && Stored(was, now, 0, [b])
    ensures |now| == 1 && now[0] == WithBit(was[0], 0, b)
  {
    OneByte(was[0], []);
    OneByte(now[0], []);
    assert [was[0]] + [] == was && [now[0]] + [] == now;
    Crc.BytesNone();
    assert BitsOf(was) == was[0] && BitsOf(now) == now[0];
  }

  /** A caller that reads one bit and then tests the whole variable sees that bit exactly when it
      is set anyway or the variable's other bits were clear before: the driver does not clear them */
  lemma BitSeenIff(was: seq<Byte>, now: seq<Byte>, b: bool)
    requires Stored(was, now, 0, [b])
    ensures ((exists i :: 0 <= i < |BitsOf(now)| && BitsOf(now)[i]) <==> b)
      <==> (b || forall i :: 1 <= i < |BitsOf(was)| ==> !BitsOf(was)[i])
  {
    hide Crc.Bytes;
    var s, t := BitsOf(was), BitsOf(now);
    assert t[0] == b;
    assert forall i :: 1 <= i < |s| ==> t[i] == s[i];
  }

  /** A word read into is not cleared first */
  lemma WordKept(was: seq<Byte>, now: seq<Byte>, d: Stream)
    requires |was| == 4 && Stored(was, now, 0, d)
    ensures |BitsOf(was)| == 32 && |d| <= 32 && BitsOf(now) == Overwritten(BitsOf(was), d)
  {
    BytesLength(was);
    hide Crc.Bytes;
  }

  lemma TakenSingle(d: Stream, junk: Byte)
    requires |d| < 8
    ensures d == [] ==> Single(d, junk) == []
    ensures d != [] ==> |Single(d, junk)| == 1 && Taken(Single(d, junk), |d|) == d
  {
  }

  lemma TakenWhole(p: seq<Byte>, d: Stream)
    requires p != [] && Crc.Bytes(p) == d
    ensures Taken(p, 8) == d
  {
  }

  lemma StoredThen(a: seq<Byte>, b: seq<Byte>, c: seq<Byte>, at: nat, d: Stream, e: Stream)
    requires Stored(a, b, at, d) && Stored(b, c, at + |d|, e)
    ensures Stored(a, c, at, d + e)
  {
    hide Crc.Bytes;
  }

  /** Stores the low bits of a byte, one at a time */
  method StoreBits(buf: array<Byte>, src: Byte, n: nat, offset: nat)
    requires 0 < n < 8 && offset % 8 + n <= 8 && offset / 8 < buf.Length
    modifies buf
    ensures Stored(old(buf[..]), buf[..], offset, src[..n])
  {
    hide *;
    ghost var was, d := buf[..], src[..n];
    NothingStored(was, offset);
    assert d[..0] == [];
    var i := offset;
    while i < offset + n
      invariant offset <= i <= offset + n
      invariant Stored(was, buf[..], offset, d[..i - offset])
    {
      Column(offset, n, i);
      var row, dstCol, srcCol := i / 8, i % 8, i - offset;
      ghost var before := buf[..];
      MovedBit(buf[row], dstCol, src, srcCol);
      assert src[srcCol] == d[srcCol];
      buf[row] := Moved(buf[row], dstCol, src, srcCol);
      assert buf[..] == before[row := WithBit(before[row], dstCol, d[srcCol])];
      StoredSize(was, before, offset, d[..i - offset]);
      OneMoreStored(was, before, offset, d, srcCol, row, dstCol);
      i := i + 1;
    }
    assert d[..n] == d;
  }

  /** `memcpy(&(buf[row]), bytes)` */
  method CopyBytes(buf: array<Byte>, row: nat, bytes: seq<Byte>)
    requires row + |bytes| <= buf.Length
    modifies buf
    ensures buf[..] == old(buf[..])[..row] + bytes + old(buf[..])[row + |bytes|..]
  {
    forall k | 0 <= k < |bytes| { buf[row + k] := bytes[k]; }
  }

  lemma StoredSize(was: seq<Byte>, now: seq<Byte>, at: nat, d: Stream)
    requires Stored(was, now, at, d)
    ensures |now| == |was| && at + |d| <= |BitsOf(was)| == 8 * |was|
  {
    hide Crc.Bytes;
    BytesLength(was);
  }

  /** What a packet of answers holds */
  function Taken(bytes: seq<Byte>, bitsPerPacket: nat): Stream
    requires bytes != [] && 0 < bitsPerPacket <= 8
  {
    if bitsPerPacket == 8 then BitsOf(bytes) else bytes[0][8 - bitsPerPacket..]
  }

  lemma TakenPart(bytes: seq<Byte>, n: nat)
    requires bytes != [] && 0 < n < 8
    ensures Taken(bytes, n) == bytes[0][8 - n..]
  {
  }

  /** The bits of a buffer after some were stored, and no others touched */
  ghost predicate Stored(was: seq<Byte>, now: seq<Byte>, at: nat, d: Stream) {
    at + |d| <= |BitsOf(was)| && |now| == |was| && BitsOf(now) == Placed(BitsOf(was), at, d)
  }

  lemma NothingStored(was: seq<Byte>, at: nat)
    requires at <= 8 * |was|
    ensures Stored(was, was, at, [])
  {
    hide Crc.Bytes;
    BytesLength(was);
  }

  /** Where bit `i` goes */
  lemma Column(offset: nat, n: nat, i: nat)
    requires offset % 8 + n <= 8 && offset <= i < offset + n
    ensures i / 8 == offset / 8 && i - offset <= i % 8 && 8 * (i / 8) + i % 8 == i
  {
  }

  /** The driver's shift count for the bits of a packet, their column in the buffer less that in the
      packet, is never negative exactly when the packet lies within one byte of the buffer */
  lemma ShiftsUpIff(offset: nat, n: nat)
    requires 0 < n < 8
    ensures (forall i :: offset <= i < offset + n ==> i % 8 >= i - offset) <==> offset % 8 + n <= 8
  {
    if offset % 8 + n <= 8 {
      forall i | offset <= i < offset + n ensures i % 8 >= i - offset {
        Column(offset, n, i);
      }
    } else {
      var i := offset + (8 - offset % 8);
      assert i % 8 == 0 && offset <= i < offset + n && i - offset > 0;
    }
  }

  lemma OneMoreStored(was: seq<Byte>, now: seq<Byte>, at: nat, d: Stream, n: nat, row: nat, col: nat)
    requires n < |d| && Stored(was, now, at, d[..n]) && row < |now| && col < 8 && 8 * row + col == at + n
    ensures d[..n + 1] == d[..n] + [d[n]] && Stored(was, now[row := WithBit(now[row], col, d[n])], at, d[..n + 1])
  {
    hide Crc.Bytes, WithBit;
    BytesLength(was);
    BytesLength(now);
    BufferBit(now, row, col, d[n]);
    assert d[..n + 1][..n] == d[..n];
  }

  lemma BytesStored(was: seq<Byte>, row: nat, d: seq<Byte>)
    requires row + |d| <= |was| && d != []
    ensures Stored(was, was[..row] + d + was[row + |d|..], 8 * row, Taken(d, 8))
  {
    hide Crc.Bytes;
    BufferBytes(was, row, d);
  }

  lemma Joined(s: Stream, i: nat, j: nat, k: nat)
    requires i <= j <= k <= |s|
    ensures s[..i] + s[i..j] + s[j..k] == s[..k]
  {
  }

  lemma Head(buf: seq<Byte>, n: nat)
    requires n <= |buf|
    ensures |BitsOf(buf)| == 8 * |buf| && BitsOf(buf[..n]) == BitsOf(buf)[..8 * n] && (n > 0 ==> buf[..n] != [])
  {
    hide Crc.Bytes;
    assert buf == buf[..n] + buf[n..];
    Crc.BytesAppend(buf[..n], buf[n..]);
    BytesLength(buf);
    BytesLength(buf[..n]);
  }

  /** Bits of one byte are bits of the buffer */
  lemma ByteBits(buf: seq<Byte>, row: nat, lo: nat, hi: nat)
    requires row < |buf| && lo <= hi <= 8
    ensures |BitsOf(buf)| == 8 * |buf| && 8 * row + hi <= |BitsOf(buf)|
    ensures BitsOf(buf)[8 * row + lo..8 * row + hi] == buf[row][lo..hi]
    ensures lo == 0 ==> BitsOf(buf)[8 * row..8 * row + hi] == buf[row][..hi]
    ensures hi == lo + 1 ==> BitsOf(buf)[8 * row + lo..8 * row + hi] == ShiftedDown(buf[row], lo)[..1]
  {
    hide Crc.Bytes;
    Around(buf, row);
    var front, rest := BitsOf(buf[..row]), BitsOf(buf[row + 1..]);
    assert (front + buf[row] + rest)[8 * row + lo..8 * row + hi] == buf[row][lo..hi];
  }

  /** Sending nothing changes nothing */
  lemma EmptyStart(conn: UsbConn, start: Chain, before: seq<Byte>, s: Stream)
    requires conn.Valid() && conn.Ahead() == start && conn.Unread() == before
    ensures s == [] ==> Sent(conn, start, before, s, false, []) && Sent(conn, start, before, s, true, [])
    ensures s == [] ==> Single(Out(start, StreamPins(s, false)), conn.junk) == [] && Single(Out(start, StreamPins(s, true)), conn.junk) == []
  {
    if s == [] {
      AfterNone(start);
      assert StreamPins([], false) == [] && StreamPins([], true) == [];
      assert before + [] == before;
    }
  }

  /** What was sent in two goes was sent */
  lemma SentThen(conn: UsbConn, start: Chain, before: seq<Byte>, s: Stream, a: seq<Byte>, t: Stream, last: bool,
                 b: seq<Byte>)
    requires Sent(conn, After(start, StreamPins(s, false)), before + a, t, last, b) && (t == [] ==> !last)
    ensures Sent(conn, start, before, s + t, last, a + b)
  {
    hide *;
    var mid := After(start, StreamPins(s, false));
    SentParts(conn, mid, before + a, t, last, b);
    AfterAppend(start, StreamPins(s, false), StreamPins(t, last));
    if t == [] {
      assert s + t == s;
      assert StreamPins(s, false) + [] == StreamPins(s, false);
    } else {
      StreamsJoin(s, t, last);
    }
    assert before + a + b == before + (a + b);
    SentFrom(conn, start, before, s + t, last, a + b);
  }

  /** The three parts' answers make up the stream's */
  lemma Assembled(start: Chain, s1: Stream, s2: Stream, s3: Stream, tms: bool, postread: bool, junk: Byte)
    requires |s1| % 8 == 0 && |s2| < 8 && |s3| == (if tms then 1 else 0)
    ensures var mid := After(start, StreamPins(s1, false)); var late := After(start, StreamPins(s1 + s2, false));
      var t1, t2, t3 := Out(start, StreamPins(s1, false)), Out(mid, StreamPins(s2, false)), Out(late, StreamPins(s3, tms));
      Reply(Out(start, StreamPins(s1 + s2 + s3, tms)), tms, junk)
      == Packed(t1) + Single(t2, junk) + Single(t3, junk)
  {
    hide After, Out, Packed, Shifted;
    var mid := After(start, StreamPins(s1, false));
    var late := After(start, StreamPins(s1 + s2, false));
    var t1, t2, t3 := Out(start, StreamPins(s1, false)), Out(mid, StreamPins(s2, false)), Out(late, StreamPins(s3, tms));
    PinsThree(s1, s2, s3, tms);
    assert StreamPins(s1, false) + StreamPins(s2, false) == StreamPins(s1 + s2, false);
    AfterAppend(start, StreamPins(s1 + s2, false), StreamPins(s3, tms));
    AfterAppend(start, StreamPins(s1, false), StreamPins(s2, false));
    ReplyThree(t1, t2, t3, tms, junk);
  }

  lemma PinsThree(s1: Stream, s2: Stream, s3: Stream, tms: bool)
    requires |s3| == if tms then 1 else 0
    ensures StreamPins(s1, false) + StreamPins(s2, false) + StreamPins(s3, tms) == StreamPins(s1 + s2 + s3, tms)
  {
  }

  lemma ReplyThree(t1: Stream, t2: Stream, t3: Stream, tms: bool, junk: Byte)
    requires |t1| % 8 == 0 && |t2| < 8 && |t3| == if tms then 1 else 0
    ensures Reply(t1 + t2 + t3, tms, junk)
      == Packed(t1) + Single(t2, junk) + Single(t3, junk)
  {
    hide *;
    var t := t1 + t2 + t3;
    ReplyIs(t, |t1|, |t1| + |t2|, tms, junk);
    assert t[..|t1|] == t1 && t[|t1|..|t1| + |t2|] == t2 && t[|t1| + |t2|..] == t3;
  }

  /** The answers, given how many bits go out in bytes and how many before the TMS bit */
  lemma ReplyIs(t: Stream, bytes: nat, n: nat, tms: bool, junk: Byte)
    requires |t| == (if tms then n + 1 else n) && bytes % 8 == 0 && bytes <= n < bytes + 8
    ensures Reply(t, tms, junk)
      == Packed(t[..bytes]) + Single(t[bytes..n], junk) + Single(t[n..], junk)
  {
    hide Packed, Shifted;
  }

  lemma SentNothing(conn: UsbConn, start: Chain, before: seq<Byte>, postread: bool)
    requires conn.Valid() && conn.Ahead() == start && conn.Unread() == before
    ensures Sent(conn, start, before, BitsOf([]), false, if postread then Packed(Out(start, StreamPins(BitsOf([]), false))) else [])
  {
    AfterNone(start);
    assert StreamPins([], false) == [];
    assert before + [] == before;
  }

  lemma SentParts(conn: UsbConn, start: Chain, before: seq<Byte>, s: Stream, last: bool, answers: seq<Byte>)
    requires Sent(conn, start, before, s, last, answers)
    ensures conn.Valid() && conn.Ahead() == After(start, StreamPins(s, last)) && conn.Unread() == before + answers
  {
  }

  lemma SentFrom(conn: UsbConn, start: Chain, before: seq<Byte>, s: Stream, last: bool, answers: seq<Byte>)
    requires conn.Valid() && conn.Ahead() == After(start, StreamPins(s, last)) && conn.Unread() == before + answers
    ensures Sent(conn, start, before, s, last, answers)
  {
  }

  lemma ChunkBits(chunk: seq<Byte>)
    ensures |BitsOf(chunk)| == 8 * |chunk| && Crc.Bytes(chunk) == BitsOf(chunk)
  {
    BytesLength(chunk);
  }

  lemma RepliesOfBytes(t: Stream, n: nat)
    requires |t| == 8 * n
    ensures |Packed(t)| == n
  {
    PackedBytes(t);
  }

  lemma MoreBytes(start: Chain, before: seq<Byte>, done: seq<Byte>, chunk: seq<Byte>, postread: bool, junk: Byte)
    requires chunk != []
    ensures var a, b := StreamPins(BitsOf(done), false), StreamPins(BitsOf(chunk), false);
      var all := StreamPins(BitsOf(done + chunk), false);
      && After(After(start, a), b) == After(start, all)
      && before + Packed(Out(start, a)) + Packed(Out(After(start, a), b)) == before + Packed(Out(start, all))
      && before + [] + [] == before + []
  {
    hide After, Out, Packed;
    Crc.BytesAppend(done, chunk);
    BytesLength(done);
    BytesLength(chunk);
    var s, t := BitsOf(done), BitsOf(chunk);
    StreamsJoin(s, t, false);
    var a, b := StreamPins(s, false), StreamPins(t, false);
    AfterAppend(start, a, b);
    PackedJoin(Out(start, a), Out(After(start, a), b));
    var x, y := Packed(Out(start, a)), Packed(Out(After(start, a), b));
    assert before + x + y == before + (x + y);
  }

  // --- the contract of a cable ---

  /** The driver's cast of its word array to bytes on a little-endian host: the clocks this cable
      sends for it are those the host's commands count on, and the bits are the same */
  lemma WordsOnCable(words: seq<Word>, n: nat, last: bool)
    requires n <= 32 * |words|
    ensures var buf := Crc.LittleEndian(words, 4);
      && 8 * |buf| == |BitsOf(buf)| == 32 * |words| && BitsOf(buf)[..n] == ChainCommands.WordsStream(words, n)
      && StreamPins(BitsOf(buf)[..n], last) == StreamPins(ChainCommands.WordsStream(words, n), last)
  {
    hide *;
    Crc.WordsAreBytes(words, 4);
    BytesLength(Crc.LittleEndian(words, 4));
    WholeWords(words);
    assert BitsOf(Crc.LittleEndian(words, 4)) == Crc.WordStream(words, 4) by { BitsAre(Crc.LittleEndian(words, 4)); }
    forall j | 0 <= j < n ensures Crc.WordStream(words, 4)[j] == ChainCommands.WordsStream(words, n)[j] {
      WordBit(words, j, n);
    }
  }

  lemma BitsAre(buf: seq<Byte>)
    ensures BitsOf(buf) == Crc.Bytes(buf)
  {
  }

  lemma {:induction false} WholeWords(words: seq<Word>)
    ensures |Crc.WordStream(words, 4)| == 32 * |words|
  {
    if words != [] { WholeWords(words[1..]); }
  }

  lemma {:induction false} WordBit(words: seq<Word>, j: nat, n: nat)
    requires j < n <= 32 * |words|
    ensures |Crc.WordStream(words, 4)| == 32 * |words|
    ensures Crc.WordStream(words, 4)[j] == ChainCommands.WordsStream(words, n)[j]
    decreases words
  {
    WholeWords(words);
    if j >= 32 {
      WordBit(words[1..], j - 32, n - 32);
      assert j / 32 == (j - 32) / 32 + 1;
    }
  }

  /** A stream sent by the host and the same words sent through this cable, to the same chain: the
      chain goes through the same states, and the buffer gets the bits the host gets */
  method StreamBothWays(host: ChainCommands.Host, cable: Cable, words: seq<Word>, instream: array<Byte>, n: nat,
                        last: bool)
    returns (ghost bits: Stream)
    requires cable.conn.Valid() && cable.conn.Unread() == [] && cable.conn.Ahead() == host.hw
    requires 0 < n <= 32 * |words| && n <= 8 * instream.Length
    modifies host`hw, cable.conn, instream
    ensures cable.conn.Valid() && cable.conn.Unread() == [] && cable.conn.Ahead() == host.hw
    ensures Stored(old(instream[..]), instream[..], 0, bits)
    ensures bits == Out(old(host.hw), StreamPins(ChainCommands.WordsStream(words, n), last))
  {
    hide *;
    WordsOnCable(words, n, last);
    bits := host.CableReadWriteStream(ChainCommands.WordsStream(words, n), last);
    cable.FtdiReadStream(Crc.LittleEndian(words, 4), instream, n, last);
  }
}
