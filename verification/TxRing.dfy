/** The Ethernet transmit ring: buffers move between descriptors, the user and the hardware. */
module TxRing {
  import opened Options

  const ETH_TXBD_NUM: nat := 8
  const ETH_MAXBUF_LEN: nat := 0x600

  /** A transmit descriptor: buffer address, length, the ready bit, its control bits and the
      status the hardware reports */
  datatype Bd = Bd(addr: nat, len: nat, ready: bool, control: nat, stats: nat)

  /** A packet to send: the address of its buffer and its length */
  datatype Packet = Packet(addr: nat, len: nat)

  const PAD_CRC_IRQ: nat := 0x5800
  const WRAP: nat := 0x2000

  function Mod8(i: nat): (r: nat)
    ensures r < ETH_TXBD_NUM && (i < ETH_TXBD_NUM ==> r == i)
  {
    i % ETH_TXBD_NUM
  }

  /** The descriptors in order, starting with descriptor `first` */
  function From(bds: seq<Bd>, first: nat): (v: seq<Bd>)
    requires |bds| == ETH_TXBD_NUM
    ensures |v| == ETH_TXBD_NUM && forall k :: 0 <= k < ETH_TXBD_NUM ==> v[k] == bds[Mod8(first + k)]
  {
    seq(ETH_TXBD_NUM, k requires 0 <= k => bds[Mod8(first + k)])
  }

  lemma FromNext(bds: seq<Bd>, first: nat, d: Bd)
    requires |bds| == ETH_TXBD_NUM && first < ETH_TXBD_NUM
    ensures From(bds[first := d], Mod8(first + 1)) == From(bds, first)[1..] + [d]
  {
    var w, v := From(bds[first := d], Mod8(first + 1)), From(bds, first)[1..] + [d];
    forall k | 0 <= k < ETH_TXBD_NUM ensures w[k] == v[k] {
      assert Mod8(Mod8(first + 1) + k) == Mod8(first + (k + 1));
    }
  }

  lemma FromInside(bds: seq<Bd>, first: nat, k: nat, d: Bd)
    requires |bds| == ETH_TXBD_NUM && first < ETH_TXBD_NUM && k < ETH_TXBD_NUM
    ensures From(bds[Mod8(first + k) := d], first) == From(bds, first)[k := d]
  {
    var w, v := From(bds[Mod8(first + k) := d], first), From(bds, first)[k := d];
    forall j | 0 <= j < ETH_TXBD_NUM ensures w[j] == v[j] {
      Apart(first, j, k);
    }
  }

  lemma Apart(first: nat, j: nat, k: nat)
    requires j < ETH_TXBD_NUM && k < ETH_TXBD_NUM
    ensures Mod8(first + j) == Mod8(first + k) <==> j == k
  {
  }

  function Addrs(v: seq<Bd>): (a: seq<nat>)
    ensures |a| == |v| && forall i :: 0 <= i < |v| ==> a[i] == v[i].addr
  {
    seq(|v|, i requires 0 <= i < |v| => v[i].addr)
  }

  predicate Distinct(a: seq<nat>) {
    forall i, j :: 0 <= i < j < |a| ==> a[i] != a[j]
  }

  /** Seen from the next descriptor to fill: `holes` whose buffers the user has, then those at
      rest, then `queued` that the hardware has, with no status of an earlier packet.  The buffers in
      descriptors that are no holes and those with the user, `out`, are all different and together
      the whole `pool`. */
  ghost predicate Sound(v: seq<Bd>, holes: nat, queued: nat, out: set<nat>, pool: set<nat>) {
    && |v| == ETH_TXBD_NUM && holes + queued <= ETH_TXBD_NUM && |out| == holes
    && (forall k :: 0 <= k < |v| ==> v[k].ready == (k >= ETH_TXBD_NUM - queued))
    && (forall k :: 0 <= k < |v| && v[k].ready ==> v[k].stats == 0)
    && Distinct(Addrs(v)[holes..])
    && (forall x :: x in Addrs(v)[holes..] ==> x !in out)
    && (forall x :: x in pool <==> x in Addrs(v)[holes..] || x in out)
  }

  /** The packets the hardware has, oldest first */
  function Queue(v: seq<Bd>, queued: nat): (q: seq<Packet>)
    requires queued <= |v|
    ensures |q| == queued
    ensures forall i :: 0 <= i < queued ==> q[i] == Packet(v[|v| - queued + i].addr, v[|v| - queued + i].len)
  {
    seq(queued, i requires 0 <= i < queued => Packet(v[|v| - queued + i].addr, v[|v| - queued + i].len))
  }

  /** A buffer with the user is in no descriptor the hardware may read */
  lemma NoAlias(v: seq<Bd>, holes: nat, queued: nat, out: set<nat>, pool: set<nat>, k: nat)
    requires Sound(v, holes, queued, out, pool) && k < |v| && v[k].ready
    ensures v[k].addr !in out
  {
    assert Addrs(v)[holes..][k - holes] == v[k].addr;
  }

  /** Handing out a buffer */
  lemma TakeKeeps(v: seq<Bd>, holes: nat, queued: nat, out: set<nat>, pool: set<nat>)
    requires Sound(v, holes, queued, out, pool) && holes + queued < ETH_TXBD_NUM
    ensures !v[holes].ready && v[holes].addr !in out && v[holes].addr in pool
    ensures Sound(v, holes + 1, queued, out + {v[holes].addr}, pool)
  {
    var a := Addrs(v)[holes..];
    var b := Addrs(v)[holes + 1..];
    assert a == [v[holes].addr] + b;
    assert a[0] == v[holes].addr;
    forall x ensures x in a <==> x == a[0] || x in b {
    }
    forall i, j | 0 <= i < j < |b| ensures b[i] != b[j] {
      assert a[i + 1] == b[i] && a[j + 1] == b[j];
    }
    forall x | x in b ensures x != a[0] {
      var i :| 0 <= i < |b| && b[i] == x;
      assert a[i + 1] == x;
    }
  }

  /** Sending a buffer the user has */
  lemma PutKeeps(v: seq<Bd>, holes: nat, queued: nat, out: set<nat>, pool: set<nat>, d: Bd)
    requires Sound(v, holes, queued, out, pool) && d.addr in out && d.ready && d.stats == 0
    ensures holes > 0 && Sound(v[1..] + [d], holes - 1, queued + 1, out - {d.addr}, pool)
    ensures Queue(v[1..] + [d], queued + 1) == Queue(v, queued) + [Packet(d.addr, d.len)]
  {
    assert |out| > 0 by { assert out - {d.addr} + {d.addr} == out; }
    var w := v[1..] + [d];
    var a, b := Addrs(v)[holes..], Addrs(w)[holes - 1..];
    assert b == a + [d.addr];
    forall k | 0 <= k < |w| ensures w[k].ready == (k >= ETH_TXBD_NUM - (queued + 1)) {
      if k < |w| - 1 { assert w[k] == v[k + 1]; }
    }
  }

  /** The hardware is done with its oldest buffer */
  lemma SentKeeps(v: seq<Bd>, holes: nat, queued: nat, out: set<nat>, pool: set<nat>, stats: nat)
    requires Sound(v, holes, queued, out, pool) && queued > 0
    ensures var k := ETH_TXBD_NUM - queued; var w := v[k := v[k].(ready := false, stats := stats)];
      Sound(w, holes, queued - 1, out, pool) && Queue(w, queued - 1) == Queue(v, queued)[1..]
  {
    var k := ETH_TXBD_NUM - queued;
    var w := v[k := v[k].(ready := false, stats := stats)];
    assert Addrs(w) == Addrs(v);
  }

  /** The last descriptor and no other sends the hardware back to the first */
  ghost predicate Controls(bds: seq<Bd>) {
    forall i :: 0 <= i < |bds| ==> bds[i].control == if i == ETH_TXBD_NUM - 1 then PAD_CRC_IRQ + WRAP else PAD_CRC_IRQ
  }

  predicate Wraps(d: Bd) {
    d.control / WRAP % 2 == 1
  }

  lemma WrapsAtLast(bds: seq<Bd>, i: nat)
    requires |bds| == ETH_TXBD_NUM && Controls(bds) && i < ETH_TXBD_NUM
    ensures (if Wraps(bds[i]) then 0 else i + 1) == Mod8(i + 1)
  {
  }

  lemma ControlsKept(bds: seq<Bd>, i: nat, d: Bd)
    requires Controls(bds) && i < |bds| && d.control == bds[i].control
    ensures Controls(bds[i := d])
  {
  }

  class Transmitter {
    const bd: array<Bd>
    var txNext: nat
    var txLast: nat
    var txFull: bool
    /** The descriptor the hardware will send next */
    var hwNext: nat
    /** The buffers handed out and not sent yet */
    ghost var out: set<nat>
    /** The buffers given to the hardware and not sent yet, by number */
    ghost var queued: nat
    ghost var pool: set<nat>

    ghost predicate Valid()
      reads this, bd
    {
      && bd.Length == ETH_TXBD_NUM && txNext < ETH_TXBD_NUM && txLast < ETH_TXBD_NUM
      && |out| <= ETH_TXBD_NUM && txNext == Mod8(txLast + |out|) && (txFull <==> |out| == ETH_TXBD_NUM)
      && queued <= ETH_TXBD_NUM && hwNext == Mod8(txLast + (ETH_TXBD_NUM - queued))
      && Sound(From(bd[..], txLast), |out|, queued, out, pool)
      && Controls(bd[..])
    }

    /** What the hardware has, oldest first */
    ghost function Queued(): seq<Packet>
      requires Valid()
      reads this, bd
    {
      Queue(From(bd[..], txLast), queued)
    }

    /** All descriptors at rest, each with a buffer of its own */
    constructor (base: nat)
      ensures Valid() && out == {} && queued == 0 && fresh(bd)
      ensures pool == set i | 0 <= i < ETH_TXBD_NUM :: base + i * ETH_MAXBUF_LEN
      ensures forall i :: 0 <= i < ETH_TXBD_NUM ==> bd[i].len == bd[i].stats == 0
    {
      bd := new Bd[ETH_TXBD_NUM]((i: nat) => Bd(base + i * ETH_MAXBUF_LEN, 0, false,
                                         if i == ETH_TXBD_NUM - 1 then PAD_CRC_IRQ + WRAP else PAD_CRC_IRQ, 0));
      txNext, txLast, txFull, hwNext := 0, 0, false, 0;
      out, queued := {}, 0;
      pool := set i | 0 <= i < ETH_TXBD_NUM :: base + i * ETH_MAXBUF_LEN;
      new;
      InitSound(bd[..], base);
    }

    /** The next free buffer, if not all of them are with the user or the hardware */
    method EthGetTxBuf() returns (r: Option<nat>)
      requires Valid()
      modifies this`txNext, this`txFull, this`out
      ensures Valid() && Queued() == old(Queued())
      ensures r.None? <==> old(|out|) + queued == ETH_TXBD_NUM
      ensures r.None? ==> out == old(out)
      ensures r.Some? ==> r.value in pool && r.value !in old(out) && out == old(out) + {r.value}
    {
      hide Sound, Mod8, Queue;
      ghost var v := From(bd[..], txLast);
      SoundRange(v, |out|, queued, out, pool);
      if txFull { return None; }
      FromAt(bd[..], txLast, |out|);
      if bd[txNext].ready { return None; }
      TakeKeeps(v, |out|, queued, out, pool);
      var add := bd[txNext].addr;
      NextIndex(txLast, |out|);
      txNext := Mod8(txNext + 1);
      if txNext == txLast { txFull := true; }
      out := out + {add};
      return Some(add);
    }

    /** Queues a packet for sending; its length takes the upper half of a word */
    method EthSend(buf: nat, len: nat)
      requires Valid() && buf in out
      modifies bd, this`txLast, this`txFull, this`out, this`queued
      ensures Valid() && out == old(out) - {buf} && Queued() == old(Queued()) + [Packet(buf, len % 0x1_0000)]
    {
      hide Sound, Mod8, Queue, From, Addrs, Controls;
      ghost var v := From(bd[..], txLast);
      ghost var was := bd[..];
      SoundRange(v, |out|, queued, out, pool);
      ghost var d := bd[txLast].(addr := buf, len := len % 0x1_0000, ready := true, stats := 0);
      PutKeeps(v, |out|, queued, out, pool, d);
      FromNext(was, txLast, d);
      ControlsKept(was, txLast, d);
      SendIndex(txLast, |out|);
      HwIndex(txLast, queued);
      bd[txLast] := bd[txLast].(addr := buf);
      bd[txLast] := bd[txLast].(stats := 0, len := len % 0x1_0000, ready := true);
      assert bd[..] == was[txLast := d];
      txLast := Mod8(txLast + 1);
      txFull := false;
      out, queued := out - {buf}, queued + 1;
    }

    /** The hardware has sent its oldest packet, and goes back to the first descriptor behind the one
        that says so */
    method HardwareSends(stats: nat)
      requires Valid() && Queued() != []
      modifies bd, this`queued, this`hwNext
      ensures Valid() && out == old(out) && Queued() == old(Queued())[1..]
    {
      hide Sound, Mod8, Queue, From, Addrs, Controls;
      ghost var v := From(bd[..], txLast);
      ghost var was := bd[..];
      SoundRange(v, |out|, queued, out, pool);
      QueueLength(v, queued);
      ghost var k := ETH_TXBD_NUM - queued;
      FromAt(was, txLast, k);
      SentKeeps(v, |out|, queued, out, pool, stats);
      ControlsKept(was, hwNext, was[hwNext].(ready := false, stats := stats));
      FromInside(was, txLast, k, was[hwNext].(ready := false, stats := stats));
      bd[hwNext] := bd[hwNext].(ready := false, stats := stats);
      assert bd[..] == was[hwNext := was[hwNext].(ready := false, stats := stats)];
      HwIndex(txLast, queued);
      WrapsAtLast(was, hwNext);
      hwNext := if Wraps(bd[hwNext]) then 0 else hwNext + 1;
      queued := queued - 1;
    }
  }

  lemma HwIndex(last: nat, queued: nat)
    requires last < ETH_TXBD_NUM && queued <= ETH_TXBD_NUM
    ensures queued > 0 ==>
      Mod8(Mod8(last + (ETH_TXBD_NUM - queued)) + 1) == Mod8(last + (ETH_TXBD_NUM - (queued - 1)))
    ensures queued < ETH_TXBD_NUM ==>
      Mod8(Mod8(last + 1) + (ETH_TXBD_NUM - (queued + 1))) == Mod8(last + (ETH_TXBD_NUM - queued))
  {
  }

  lemma QueueLength(v: seq<Bd>, queued: nat)
    requires queued <= |v|
    ensures |Queue(v, queued)| == queued
  {
  }

  lemma InitSound(bds: seq<Bd>, base: nat)
    requires |bds| == ETH_TXBD_NUM
    requires forall i :: 0 <= i < |bds| ==> bds[i].addr == base + i * ETH_MAXBUF_LEN && !bds[i].ready
    ensures Sound(From(bds, 0), 0, 0, {}, set i | 0 <= i < ETH_TXBD_NUM :: base + i * ETH_MAXBUF_LEN)
  {
    var v := From(bds, 0);
    var pool := set i | 0 <= i < ETH_TXBD_NUM :: base + i * ETH_MAXBUF_LEN;
    var a := Addrs(v);
    assert a[0..] == a;
    assert forall k :: 0 <= k < ETH_TXBD_NUM ==> v[k] == bds[k];
    assert forall k :: 0 <= k < |a| ==> a[k] == base + k * ETH_MAXBUF_LEN;
    hide From, Addrs;
    forall x | x in pool ensures x in a {
      var i :| 0 <= i < ETH_TXBD_NUM && x == base + i * ETH_MAXBUF_LEN;
      assert a[i] == x;
    }
  }

  lemma SoundRange(v: seq<Bd>, holes: nat, queued: nat, out: set<nat>, pool: set<nat>)
    requires Sound(v, holes, queued, out, pool)
    ensures |v| == ETH_TXBD_NUM && holes + queued <= ETH_TXBD_NUM
    ensures holes < ETH_TXBD_NUM ==> (v[holes].ready <==> holes + queued == ETH_TXBD_NUM)
  {
  }

  lemma FromAt(bds: seq<Bd>, first: nat, k: nat)
    requires |bds| == ETH_TXBD_NUM
    ensures k < ETH_TXBD_NUM ==> From(bds, first)[k] == bds[Mod8(first + k)]
  {
  }

  lemma NextIndex(last: nat, holes: nat)
    requires last < ETH_TXBD_NUM && holes < ETH_TXBD_NUM
    ensures var n := Mod8(Mod8(last + holes) + 1);
      n == Mod8(last + (holes + 1)) && (n == last <==> holes + 1 == ETH_TXBD_NUM)
  {
  }

  lemma SendIndex(last: nat, holes: nat)
    requires last < ETH_TXBD_NUM && holes <= ETH_TXBD_NUM
    ensures holes > 0 ==> Mod8(last + holes) == Mod8(Mod8(last + 1) + (holes - 1))
  {
  }
}
