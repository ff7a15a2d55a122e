/** Packets of the GDB remote protocol: framing, checksums, escapes and resynchronisation. */
module Framing {
  type Char = c: nat | c < 256

  const NUM_REGS: nat := 35
  const GDB_BUF_MAX: nat := NUM_REGS * 8 + 1

  const DOLLAR: Char := 0x24
  const HASH: Char := 0x23
  const STAR: Char := 0x2a
  const BRACE: Char := 0x7d
  const PLUS: Char := 0x2b
  const MINUS: Char := 0x2d
  const BREAK: Char := 0x03

  // --- escapes ---

  /** `c ^ 0x20` */
  function Flip(c: Char): Char {
    if c / 32 % 2 == 1 then c - 32 else c + 32
  }

  predicate Special(c: Char) {
    c in {DOLLAR, HASH, STAR, BRACE}
  }

  function Escape(s: seq<Char>): seq<Char> {
    if s == [] then []
    else (if Special(s[0]) then [BRACE, Flip(s[0])] else [s[0]]) + Escape(s[1..])
  }

  /** What the escapes stand for; an escape at the very end takes the character behind it */
  function Unescape(s: seq<Char>, behind: Char): (r: seq<Char>)
    ensures |r| <= |s|
    decreases s
  {
    if s == [] then []
    else if s[0] != BRACE then [s[0]] + Unescape(s[1..], behind)
    else if |s| == 1 then [Flip(behind)]
    else [Flip(s[1])] + Unescape(s[2..], behind)
  }

  /** Which characters are escaped, and what stands behind the escape for each */
  lemma EscapeTable(c: Char)
    ensures Escape([c]) ==
      if c == 0x23 then [0x7d, 0x03] else if c == 0x24 then [0x7d, 0x04]
      else if c == 0x2a then [0x7d, 0x0a] else if c == 0x7d then [0x7d, 0x5d] else [c]
  {
    assert Escape([]) == [];
  }

  /** No frame character survives escaping */
  lemma {:induction false} EscapedIsClean(s: seq<Char>)
    ensures forall i :: 0 <= i < |Escape(s)| ==> Escape(s)[i] !in {DOLLAR, HASH, STAR}
  {
    if s != [] { EscapedIsClean(s[1..]); }
  }

  lemma {:induction false} UnescapeEscape(s: seq<Char>, behind: Char)
    ensures Unescape(Escape(s), behind) == s
  {
    if s != [] {
      UnescapeEscape(s[1..], behind);
      var e, rest := Escape(s), Escape(s[1..]);
      if Special(s[0]) {
        assert e[0] == BRACE && e[1] == Flip(s[0]) && e[2..] == rest;
      } else {
        assert e[0] == s[0] && e[1..] == rest;
      }
    }
  }

  lemma UnescapeStep(was: seq<Char>, from: nat, len: nat, done: seq<Char>)
    requires from < len < |was|
    ensures var all := done + Unescape(was[from..len], was[len]);
      if was[from] != BRACE then all == done + [was[from]] + Unescape(was[from + 1..len], was[len])
      else all == done + [Flip(was[from + 1])]
             + (if from + 1 < len then Unescape(was[from + 2..len], was[len]) else [])
  {
    var tail := was[from..len];
    assert tail[0] == was[from] && tail[1..] == was[from + 1..len];
    if was[from] == BRACE && from + 1 < len {
      assert tail[1] == was[from + 1] && tail[2..] == was[from + 2..len];
    }
  }

  lemma UnescapeDone(was: seq<Char>, len: nat, done: seq<Char>)
    requires len < |was|
    ensures Unescape(was[len..len], was[len]) == [] && done + [] == done && was[0..len] == was[..len]
    ensures [] + Unescape(was[0..len], was[len]) == Unescape(was[..len], was[len])
  {
    assert was[len..len] == [];
    assert was[0..len] == was[..len];
  }

  /** Undoes the escapes in place */
  method RspUnescape(data: array<Char>, len: nat) returns (toOff: nat)
    requires len < data.Length
    modifies data
    ensures toOff <= len
    ensures data[..toOff] == Unescape(old(data[..len]), old(data[len]))
    ensures data[len..] == old(data[len..])
  {
    hide *;
    var fromOff := 0;
    toOff := 0;
    ghost var was, behind := data[..], data[len];
    ghost var rest := Unescape(was[..len], behind);
    UnescapeDone(was, len, []);
    while fromOff < len
      invariant toOff <= fromOff <= len + 1 && toOff <= len
      invariant forall k :: toOff <= k < data.Length && (fromOff <= k || len <= k) ==> data[k] == was[k]
      invariant data[..toOff] + rest == Unescape(was[..len], behind)
      invariant rest == if fromOff <= len then Unescape(was[fromOff..len], behind) else []
    {
      ghost var done := data[..toOff];
      UnescapeStep(was, fromOff, len, done);
      if data[fromOff] == BRACE {
        fromOff := fromOff + 1;
        data[toOff] := Flip(data[fromOff]);
      } else {
        data[toOff] := data[fromOff];
      }
      assert data[..toOff + 1] == done + [data[toOff]];
      fromOff := fromOff + 1;
      toOff := toOff + 1;
      UnescapeDone(was, len, data[..toOff]);
      rest := if fromOff <= len then Unescape(was[fromOff..len], behind) else [];
    }
    UnescapeDone(was, len, data[..toOff]);
  }

  // --- checksums ---

  function Sum(s: seq<Char>): nat {
    if s == [] then 0 else Sum(s[..|s| - 1]) + s[|s| - 1]
  }

  lemma SumMore(s: seq<Char>, c: Char)
    ensures Sum(s + [c]) == Sum(s) + c
  {
    assert (s + [c])[..|s|] == s;
  }

  lemma {:induction false} SumAppend(a: seq<Char>, b: seq<Char>)
    ensures Sum(a + b) == Sum(a) + Sum(b)
  {
    if b == [] {
      assert a + b == a;
    } else {
      assert (a + b)[..|a + b| - 1] == a + b[..|b| - 1];
      SumAppend(a, b[..|b| - 1]);
    }
  }

  /** The digit `n` */
  function HexChar(n: nat): Char
    requires n < 16
  {
    if n < 10 then 0x30 + n else 0x61 + n - 10
  }

  /** The value of a digit, -1 for anything else */
  function Hex(c: Char): int {
    if 0x61 <= c <= 0x66 then c - 0x61 + 10
    else if 0x30 <= c <= 0x39 then c - 0x30
    else if 0x41 <= c <= 0x46 then c - 0x41 + 10
    else -1
  }

  lemma HexHexChar(n: nat)
    requires n < 16
    ensures Hex(HexChar(n)) == n && HexChar(n) !in {DOLLAR, HASH, BREAK}
  {
  }

  /** The digits are those of hexadecimal, written in lower case and read in both */
  lemma HexTable(n: nat)
    requires n < 16
    ensures HexChar(n) == "0123456789abcdef"[n] as int
    ensures Hex("0123456789abcdef"[n] as int) == Hex("0123456789ABCDEF"[n] as int) == n
  {
  }

  /** No other character is one */
  lemma HexOnly(c: Char)
    ensures (forall n :: 0 <= n < 16 ==> c != "0123456789abcdef"[n] as int && c != "0123456789ABCDEF"[n] as int) ==>
      Hex(c) == -1
  {
    if Hex(c) != -1 {
      assert c == (if c >= 0x61 || c < 0x41 then "0123456789abcdef" else "0123456789ABCDEF")[Hex(c)] as int;
    }
  }

  /** Changing any one character changes the checksum */
  lemma OneCharacterDetected(a: seq<Char>, c: Char, d: Char, b: seq<Char>)
    requires c != d
    ensures Sum(a + [c] + b) % 256 != Sum(a + [d] + b) % 256
  {
    SumAppend(a + [c], b);
    SumAppend(a + [d], b);
    SumMore(a, c);
    SumMore(a, d);
  }

  // --- frames ---

  /** Start mark, escaped body, end mark and two checksum digits */
  function Frame(body: seq<Char>): seq<Char> {
    var e := Escape(body);
    [DOLLAR] + e + [HASH, HexChar(Sum(e) % 256 / 16), HexChar(Sum(e) % 16)]
  }

  // --- the receiving side ---

  /** Where the receiver is: before a packet, in its body, or at its checksum digits */
  datatype Reader = Waiting | Body(data: seq<Char>) | First(data: seq<Char>) | Second(data: seq<Char>, high: int)

  datatype Result = Packet(data: seq<Char>) | Interrupt | Closed

  /** A result, what has not been read yet, and the acknowledgements sent */
  datatype Outcome = Outcome(result: Result, rest: seq<Char>, acks: seq<Char>)

  /** One received character: the next state, or the end */
  datatype Step = To(next: Reader, ack: seq<Char>) | End(result: Result, ack: seq<Char>)

  function Accept(s: Reader, c: Char): Step {
    match s
    case Waiting =>
      if c == DOLLAR then To(Body([]), []) else if c == BREAK then End(Interrupt, []) else To(Waiting, [])
    case Body(d) =>
      if c == DOLLAR then To(Body([]), [])
      else if c == HASH then To(First(d), [])
      else if |d| + 1 >= GDB_BUF_MAX - 1 then To(Waiting, [])
      else To(Body(d + [c]), [])
    case First(d) => To(Second(d, Hex(c)), [])
    case Second(d, high) =>
      if Sum(d) % 256 == (high * 16 + Hex(c)) % 256 then End(Packet(d), [PLUS]) else To(Waiting, [MINUS])
  }

  function Receive(s: Reader, input: seq<Char>): Outcome
    decreases input
  {
    if input == [] then Outcome(Closed, [], []) else
      match Accept(s, input[0])
      case End(r, ack) => Outcome(r, input[1..], ack)
      case To(next, ack) =>
        var o := Receive(next, input[1..]);
        o.(acks := ack + o.acks)
  }

  // --- what the receiver accepts ---

  /** Characters of a body leave the receiver in the body */
  lemma {:induction false} ReceiveBody(d: seq<Char>, e: seq<Char>, rest: seq<Char>)
    requires forall i :: 0 <= i < |e| ==> e[i] !in {DOLLAR, HASH}
    requires |d| + |e| < GDB_BUF_MAX - 1
    ensures Receive(Body(d), e + rest) == Receive(Body(d + e), rest)
    decreases e
  {
    if e == [] {
      assert e + rest == rest && d + e == d;
    } else {
      var input := e + rest;
      assert input[0] == e[0] && input[1..] == e[1..] + rest;
      ReceiveBody(d + [e[0]], e[1..], rest);
      assert d + [e[0]] + e[1..] == d + e;
    }
  }

  lemma ReceiveStep(s: Reader, c: Char, rest: seq<Char>)
    ensures var a := Accept(s, c);
      && (a.End? ==> Receive(s, [c] + rest) == Outcome(a.result, rest, a.ack))
      && (a.To? ==> Receive(s, [c] + rest) == Receive(a.next, rest).(acks := a.ack + Receive(a.next, rest).acks))
  {
    hide Accept;
    assert ([c] + rest)[1..] == rest;
  }

  lemma NoAck(o: Outcome)
    ensures o.(acks := [] + o.acks) == o
  {
    assert [] + o.acks == o.acks;
  }

  /** Checksum digits that agree end the packet */
  lemma ReceiveEnd(d: seq<Char>, high: Char, low: Char, rest: seq<Char>)
    requires Sum(d) % 256 == (Hex(high) * 16 + Hex(low)) % 256
    ensures Receive(Body(d), [HASH] + ([high] + ([low] + rest))) == Outcome(Packet(d), rest, [PLUS])
  {
    hide Receive, Sum, Hex;
    ReceiveStep(Body(d), HASH, [high] + ([low] + rest));
    ReceiveStep(First(d), high, [low] + rest);
    ReceiveStep(Second(d, Hex(high)), low, rest);
    NoAck(Outcome(Packet(d), rest, [PLUS]));
  }

  /** A start mark is seen as one: before a packet and in a body, not among the checksum digits */
  predicate Ready(s: Reader) {
    s.Waiting? || s.Body?
  }

  lemma Digits(n: nat)
    ensures n % 256 / 16 < 16 && n % 256 == (n % 256 / 16 * 16 + n % 16) % 256
  {
    var q, r := n / 256, n % 256;
    var h, l := r / 16, r % 16;
    assert r == 16 * h + l;
    LowDigit(n, 16 * q + h, l);
  }

  lemma LowDigit(n: nat, q: nat, l: nat)
    requires n == 16 * q + l && l < 16
    ensures n % 16 == l
  {
    assert n - 16 * q == l;
  }

  /** A frame whose body fits is accepted from wherever the receiver is when the frame starts */
  lemma ReceiveFrame(s: Reader, body: seq<Char>, rest: seq<Char>)
    requires Ready(s)
    requires |Escape(body)| <= GDB_BUF_MAX - 2
    ensures Receive(s, Frame(body) + rest) == Outcome(Packet(Escape(body)), rest, [PLUS])
  {
    hide Escape, Sum, Hex, HexChar, Receive;
    var e := Escape(body);
    EscapedIsClean(body);
    Digits(Sum(e));
    var high, low := HexChar(Sum(e) % 256 / 16), HexChar(Sum(e) % 16);
    HexHexChar(Sum(e) % 256 / 16);
    HexHexChar(Sum(e) % 16);
    var tail := [HASH] + ([high] + ([low] + rest));
    assert Frame(body) + rest == [DOLLAR] + (e + tail);
    ReceiveStep(s, DOLLAR, e + tail);
    ReceiveBody([], e, tail);
    assert [] + e == e;
    ReceiveEnd(e, high, low, rest);
    NoAck(Outcome(Packet(e), rest, [PLUS]));
  }

  /** A frame ends with the checksum of what lies between its marks, in two digits */
  lemma FrameChecksum(body: seq<Char>)
    ensures var n := |Frame(body)|; var e := Escape(body);
      && n == |e| + 4 && Frame(body)[0] == DOLLAR && Frame(body)[1..n - 3] == e && Frame(body)[n - 3] == HASH
      && Hex(Frame(body)[n - 2]) * 16 + Hex(Frame(body)[n - 1]) == Sum(e) % 256
  {
    hide Escape, Sum;
    var e := Escape(body);
    Digits(Sum(e));
    HexHexChar(Sum(e) % 256 / 16);
    HexHexChar(Sum(e) % 16);
    hide Hex, HexChar;
    var h, l := Sum(e) % 256 / 16, Sum(e) % 16;
    SmallSum(Sum(e), h, l);
  }

  lemma SmallSum(n: nat, h: nat, l: nat)
    requires h < 16 && l < 16 && n % 256 == (h * 16 + l) % 256
    ensures h * 16 + l == n % 256
  {
  }

  /** What the receiver does over characters of which it may not see the end */
  function Listen(s: Reader, noise: seq<Char>): Step
    decreases noise
  {
    if noise == [] then To(s, []) else
      match Accept(s, noise[0])
      case End(r, ack) => End(r, ack)
      case To(next, ack) => var l := Listen(next, noise[1..]); l.(ack := ack + l.ack)
  }

  /** Noise either ends the receipt within itself or leaves it to what follows */
  lemma {:induction false} ReceiveNoise(s: Reader, noise: seq<Char>, rest: seq<Char>)
    ensures var l, o := Listen(s, noise), Receive(s, noise + rest);
      && (l.End? ==> o.result == l.result && o.acks == l.ack && |o.rest| >= |rest|)
      && (l.To? ==> var k := Receive(l.next, rest); o == k.(acks := l.ack + k.acks))
    decreases noise
  {
    hide Accept;
    if noise == [] {
      assert noise + rest == rest;
      NoAck(Receive(s, rest));
    } else {
      var tail := noise[1..] + rest;
      assert noise + rest == [noise[0]] + tail;
      ReceiveStep(s, noise[0], tail);
      var a := Accept(s, noise[0]);
      if a.To? {
        ReceiveNoise(a.next, noise[1..], rest);
        var l := Listen(a.next, noise[1..]);
        if l.To? {
          assert a.ack + (l.ack + Receive(l.next, rest).acks) == a.ack + l.ack + Receive(l.next, rest).acks;
        }
      }
    }
  }

  // --- what it misses ---

  /** A packet ends on a character read */
  lemma {:induction false} ReceiveShortens(s: Reader, input: seq<Char>)
    ensures Receive(s, input).result.Packet? ==> |Receive(s, input).rest| < |input|
    decreases input
  {
    hide Accept;
    if input != [] && Accept(s, input[0]).To? {
      ReceiveShortens(Accept(s, input[0]).next, input[1..]);
    }
  }

  /** Without a start mark the receiver goes on waiting, or is interrupted */
  lemma {:induction false} WaitThrough(x: seq<Char>, rest: seq<Char>)
    requires DOLLAR !in x
    ensures Receive(Waiting, x + rest).result == Interrupt || Receive(Waiting, x + rest) == Receive(Waiting, rest)
    decreases x
  {
    if x == [] {
      assert x + rest == rest;
    } else {
      assert x + rest == [x[0]] + (x[1..] + rest);
      ReceiveStep(Waiting, x[0], x[1..] + rest);
      NoAck(Receive(Waiting, x[1..] + rest));
      WaitThrough(x[1..], rest);
    }
  }

  /** So a packet that ends just there was none of `x` */
  lemma NotThrough(x: seq<Char>, rest: seq<Char>)
    requires DOLLAR !in x
    ensures var o := Receive(Waiting, x + rest); o.result.Packet? ==> |o.rest| < |rest|
  {
    WaitThrough(x, rest);
    ReceiveShortens(Waiting, rest);
  }

  /** A frame whose start mark is taken for a checksum digit is not received */
  lemma FrameMissed(s: Reader, body: seq<Char>, rest: seq<Char>)
    requires !Ready(s)
    ensures var o := Receive(s, Frame(body) + rest); o.result.Packet? ==> o.rest != rest
  {
    hide Escape, Sum, Hex, HexChar, Receive;
    var e := Escape(body);
    EscapedIsClean(body);
    Digits(Sum(e));
    HexHexChar(Sum(e) % 256 / 16);
    HexHexChar(Sum(e) % 16);
    var x := e + [HASH, HexChar(Sum(e) % 256 / 16), HexChar(Sum(e) % 16)];
    assert Frame(body) + rest == [DOLLAR] + (x + rest);
    assert x + rest == [x[0]] + (x[1..] + rest);
    ReceiveStep(s, DOLLAR, x + rest);
    if s.First? {
      ReceiveStep(Accept(s, DOLLAR).next, x[0], x[1..] + rest);
      NotThrough(x[1..], rest);
    } else {
      NotThrough(x, rest);
    }
  }

  // --- and nothing else ---

  /** The part of the line the receiver holds; `c1` is the first digit it has seen */
  function Held(s: Reader, c1: Char): seq<Char> {
    match s
    case Waiting => []
    case Body(d) => [DOLLAR] + d
    case First(d) => [DOLLAR] + d + [HASH]
    case Second(d, _) => [DOLLAR] + d + [HASH] + [c1]
  }

  ghost predicate Clean(s: Reader, c1: Char) {
    && (s.Waiting? || (|s.data| <= GDB_BUF_MAX - 2 && forall i :: 0 <= i < |s.data| ==> s.data[i] !in {DOLLAR, HASH}))
    && (s.Second? ==> s.high == Hex(c1))
  }

  /** What the receiver does not drop it holds */
  lemma HeldStep(s: Reader, c1: Char, c: Char) returns (dropped: seq<Char>, d1: Char)
    requires Clean(s, c1) && Accept(s, c).To?
    ensures Clean(Accept(s, c).next, d1) && Held(s, c1) + [c] == dropped + Held(Accept(s, c).next, d1)
  {
    hide Hex, Sum;
    d1 := if s.First? then c else c1;
    var next := Accept(s, c).next;
    dropped := if next.Waiting? then Held(s, c1) + [c] else if c == DOLLAR && next == Body([]) then Held(s, c1) else [];
    if s.Body? && next.Body? && c != DOLLAR {
      assert [DOLLAR] + s.data + [c] == [DOLLAR] + (s.data + [c]);
    }
  }

  lemma Glue(held: seq<Char>, c: Char, rest: seq<Char>, dropped: seq<Char>, kept: seq<Char>, pre: seq<Char>,
             framed: seq<Char>)
    requires held + [c] == dropped + kept && kept + rest == pre + framed
    ensures held + ([c] + rest) == (dropped + pre) + framed
  {
    assert held + ([c] + rest) == (held + [c]) + rest;
    assert (dropped + kept) + rest == dropped + (kept + rest);
    assert (dropped + pre) + framed == dropped + (pre + framed);
  }

  /** `d` between a start and an end mark, two digits behind it, and then `rest` */
  function Framed(d: seq<Char>, c1: Char, c2: Char, rest: seq<Char>): seq<Char> {
    [DOLLAR] + d + [HASH] + [c1] + [c2] + rest
  }

  ghost predicate Sound(o: Outcome, c1: Char, c2: Char) {
    && o.result.Packet? && var d := o.result.data;
    && |d| <= GDB_BUF_MAX - 2 && (forall i :: 0 <= i < |d| ==> d[i] !in {DOLLAR, HASH})
    && Sum(d) % 256 == (Hex(c1) * 16 + Hex(c2)) % 256 && o.acks != [] && o.acks[|o.acks| - 1] == PLUS
  }

  lemma SoundAcks(o: Outcome, ack: seq<Char>, c1: Char, c2: Char)
    requires Sound(o, c1, c2)
    ensures Sound(o.(acks := ack + o.acks), c1, c2)
  {
    hide Sum, Hex;
  }

  lemma {:induction false} FramedFrom(s: Reader, k: Char, input: seq<Char>) returns (pre: seq<Char>, c1: Char, c2: Char)
    requires Clean(s, k) && Receive(s, input).result.Packet?
    ensures var o := Receive(s, input);
      Sound(o, c1, c2) && Held(s, k) + input == pre + Framed(o.result.data, c1, c2, o.rest)
    decreases input
  {
    hide Receive, Accept, Held, Clean, Sound, Framed;
    ReceiveNothing(s);
    var c, rest := input[0], input[1..];
    assert input == [c] + rest;
    ReceiveStep(s, c, rest);
    match Accept(s, c)
    case End(_, _) =>
      pre, c1, c2 := [], k, c;
      EndSound(s, k, c, rest);
    case To(next, ack) =>
      var dropped, k1 := HeldStep(s, k, c);
      pre, c1, c2 := FramedFrom(next, k1, rest);
      var o := Receive(next, rest);
      SoundAcks(o, ack, c1, c2);
      Glue(Held(s, k), c, rest, dropped, Held(next, k1), pre, Framed(o.result.data, c1, c2, o.rest));
      pre := dropped + pre;
  }

  lemma ReceiveNothing(s: Reader)
    ensures Receive(s, []).result == Closed
  {
  }

  lemma EndSound(s: Reader, k: Char, c: Char, rest: seq<Char>)
    requires Clean(s, k) && Accept(s, c).End? && Accept(s, c).result.Packet?
    ensures var d := Accept(s, c).result.data;
      && Sound(Outcome(Packet(d), rest, Accept(s, c).ack), k, c)
      && Held(s, k) + ([c] + rest) == [] + Framed(d, k, c, rest)
  {
    hide Sum, Hex;
    assert Held(s, k) + ([c] + rest) == Held(s, k) + [c] + rest;
  }

  /** A received packet fits the buffer, was framed on the line, and its two digits agree with
      its checksum */
  lemma ReceivedWasFramed(input: seq<Char>) returns (pre: seq<Char>, c1: Char, c2: Char)
    requires Receive(Waiting, input).result.Packet?
    ensures var o := Receive(Waiting, input);
      Sound(o, c1, c2) && input == pre + Framed(o.result.data, c1, c2, o.rest)
  {
    hide Receive, Sound, Framed;
    pre, c1, c2 := FramedFrom(Waiting, 0, input);
    assert [] + input == input;
  }

  /** A frame is received as it was sent exactly when what came before left the receiver ready
      for its start mark and its escaped body leaves room for the end mark */
  lemma DeliveredIff(noise: seq<Char>, body: seq<Char>, rest: seq<Char>)
    ensures var l, o := Listen(Waiting, noise), Receive(Waiting, noise + Frame(body) + rest);
      var received := l.To? && Ready(l.next) && |Escape(body)| <= GDB_BUF_MAX - 2;
      && (o.result == Packet(Escape(body)) && o.rest == rest <==> received)
      && (received ==> o.acks == l.ack + [PLUS])
  {
    hide Escape, Frame, Receive, Listen;
    var input := noise + Frame(body) + rest;
    var l, o := Listen(Waiting, noise), Receive(Waiting, input);
    assert input == noise + (Frame(body) + rest);
    ReceiveNoise(Waiting, noise, Frame(body) + rest);
    FrameLength(body);
    if l.To? && Ready(l.next) && |Escape(body)| <= GDB_BUF_MAX - 2 {
      ReceiveFrame(l.next, body, rest);
    } else if l.To? && !Ready(l.next) {
      FrameMissed(l.next, body, rest);
    } else if o.result.Packet? && |Escape(body)| > GDB_BUF_MAX - 2 {
      var pre, c1, c2 := ReceivedWasFramed(input);
    }
  }

  lemma FrameLength(body: seq<Char>)
    ensures |Frame(body)| == |Escape(body)| + 4
  {
  }

  /** Framing, noise, receipt and unescaping together give the body back */
  lemma EndToEnd(noise: seq<Char>, body: seq<Char>, rest: seq<Char>, behind: Char)
    requires Listen(Waiting, noise).To? && Ready(Listen(Waiting, noise).next)
    requires |Escape(body)| <= GDB_BUF_MAX - 2
    ensures var o := Receive(Waiting, noise + Frame(body) + rest);
      && o.result.Packet? && Unescape(o.result.data, behind) == body
      && o.rest == rest && o.acks == Listen(Waiting, noise).ack + [PLUS]
  {
    hide Escape, Frame, Receive, Unescape, Listen;
    DeliveredIff(noise, body, rest);
    UnescapeEscape(body, behind);
  }

  // --- the server's methods ---

  class Connection {
    /** Characters still to come from the client; the connection fails behind the last one */
    var input: seq<Char>
    var output: seq<Char>
    const data: array<Char>
    var len: nat

    constructor (input: seq<Char>)
      ensures this.input == input && output == [] && data.Length == GDB_BUF_MAX && fresh(data)
    {
      this.input, output, len := input, [], 0;
      data := new Char[GDB_BUF_MAX](_ => 0);
    }

    method PutRspChar(c: Char)
      modifies this`output
      ensures output == old(output) + [c]
    {
      output := output + [c];
    }

    method GetRspChar() returns (ch: int)
      modifies this`input
      ensures old(input) == [] ==> ch == -1 && input == []
      ensures old(input) != [] ==> ch == old(input)[0] && input == old(input)[1..]
    {
      if input == [] { return -1; }
      ch := input[0];
      input := input[1..];
    }

    /** Sends a packet until the client acknowledges it or the connection fails: one frame for each
        character it answers, none of which but the last is a '+', and one more if it stops answering */
    method PutPacket(body: seq<Char>)
      modifies this`input, this`output
      ensures |input| <= |old(input)|
      ensures var k := |old(input)| - |input|;
        && input == old(input)[k..] && (forall i :: 0 <= i < k - 1 ==> old(input)[i] != PLUS)
        && if k > 0 && old(input)[k - 1] == PLUS then output == old(output) + Times(Frame(body), k)
           else input == [] && output == old(output) + Times(Frame(body), k + 1)
    {
      hide *;
      ghost var n := 0;
      ghost var was := input;
      TimesMore(Frame(body), 0);
      assert was[0..] == was;
      while true
        invariant n <= |was| && input == was[n..] && output == old(output) + Times(Frame(body), n)
        invariant forall i :: 0 <= i < n ==> was[i] != PLUS
        decreases |input|
      {
        ghost var before := output;
        SendFrame(body);
        TimesMore(Frame(body), n);
        assert before + Frame(body) == old(output) + (Times(Frame(body), n) + Frame(body));
        var ch := GetRspChar();
        Answer(was, n);
        if ch == -1 || ch == PLUS { return; }
        n := n + 1;
      }
    }

    /** Sends one character of a body, escaped if need be */
    method PutBodyChar(c: Char, checksum: nat) returns (sum: nat)
      modifies this`output
      ensures output == old(output) + Escape([c])
      ensures sum == (checksum + Sum(Escape([c]))) % 256
    {
      hide *;
      EscapeOne(c, checksum);
      var ch := c;
      sum := checksum;
      if ch == DOLLAR || ch == HASH || ch == STAR || ch == BRACE {
        ch := Flip(ch);
        sum := (sum + BRACE) % 256;
        PutRspChar(BRACE);
      }
      sum := (sum + ch) % 256;
      PutRspChar(ch);
      assert old(output) + [BRACE] + [ch] == old(output) + ([BRACE] + [ch]);
    }

    /** Sends one frame */
    method SendFrame(body: seq<Char>)
      modifies this`output
      ensures output == old(output) + Frame(body)
    {
      hide *;
      var checksum := 0;
      ghost var sent: seq<Char> := [];
      PutRspChar(DOLLAR);
      ghost var base := output;
      EscapeStart();
      assert base + sent == base;
      for count := 0 to |body|
        invariant sent == Escape(body[..count]) && checksum == Sum(sent) % 256
        invariant output == base + sent
      {
        EscapeMore(body[..count], body[count]);
        SumAppend(sent, Escape([body[count]]));
        ModSum(Sum(sent), Sum(Escape([body[count]])));
        assert body[..count + 1] == body[..count] + [body[count]];
        assert base + sent + Escape([body[count]]) == base + (sent + Escape([body[count]]));
        checksum := PutBodyChar(body[count], checksum);
        sent := sent + Escape([body[count]]);
      }
      assert body[..|body|] == body;
      FrameIs(body);
      PutRspChar(HASH);
      PutRspChar(HexChar(checksum / 16));
      PutRspChar(HexChar(checksum % 16));
    }

    /** Reads a body up to its end mark, the end of the buffer, or the end of the connection */
    method ReadBody(ghost goal: Outcome, ghost out0: seq<Char>, ghost top: nat)
      returns (ch: int, checksum: nat, count: nat)
      requires data.Length == GDB_BUF_MAX && |input| < top && Follows(goal, out0, Body([]), input, output)
      modifies this`input, data
      ensures count < data.Length && checksum == Sum(data[..count]) % 256 && |input| < top
      ensures ch == -1 ==> goal == Outcome(Closed, [], goal.acks) && output == out0 + goal.acks && input == []
      ensures ch == HASH ==> Follows(goal, out0, First(data[..count]), input, output)
      ensures ch != HASH && ch != -1 ==> Follows(goal, out0, Waiting, input, output)
    {
      hide *;
      BufferSize();
      ch, checksum, count := DOLLAR, 0, 0;
      NoSum(data[..0]);
      while count < GDB_BUF_MAX - 1
        invariant count <= GDB_BUF_MAX - 1 && checksum == Sum(data[..count]) % 256 && |input| < top && ch != HASH
        invariant ch != -1
        invariant Follows(goal, out0, if count < GDB_BUF_MAX - 1 then Body(data[..count]) else Waiting, input, output)
        decreases |input|
      {
        FollowsEnd(goal, out0, Body(data[..count]), input, output);
        FollowsMore(goal, out0, Body(data[..count]), input, output);
        ch := GetRspChar();
        if ch == -1 { return; }
        BodyStep(goal, out0, data[..count], ch, input, output);
        if ch == DOLLAR {
          checksum, count := 0, 0;
          NoSum(data[..0]);
          continue;
        }
        if ch == HASH { break; }
        ghost var was := data[..count];
        SumMod(was, ch);
        checksum := (checksum + ch) % 256;
        data[count] := ch;
        assert data[..count + 1] == was + [ch];
        count := count + 1;
      }
    }

    /** Reads characters until a packet with a matching checksum is in, the client interrupts, or
        the connection fails; leaves the packet in the buffer */
    method GetPacket() returns (r: Result)
      requires data.Length == GDB_BUF_MAX
      modifies this, data
      ensures var o := Receive(Waiting, old(input));
        r == o.result && input == o.rest && output == old(output) + o.acks
      ensures r.Packet? ==> len < data.Length && data[..len] == r.data && data[len] == 0
      ensures r.Interrupt? ==> len == 1 && data[0] == BREAK
    {
      hide *;
      ghost var goal, out0 := Receive(Waiting, input), output;
      FollowsStart(input, output);
      BufferSize();
      while true
        invariant Follows(goal, out0, Waiting, input, output)
        decreases |input|
      {
        ghost var top := |input|;
        // before a packet
        FollowsEnd(goal, out0, Waiting, input, output);
        FollowsMore(goal, out0, Waiting, input, output);
        var ch := GetRspChar();
        while ch != DOLLAR
          invariant ch == -1 ==> goal == Outcome(Closed, [], goal.acks) && output == out0 + goal.acks && input == []
          invariant ch != -1 ==> 0 <= ch < 256 && |input| < top && Stepped(goal, out0, Waiting, ch, input, output)
          decreases ch != -1, |input|
        {
          if ch == -1 { return Closed; }
          WaitingStep(goal, out0, ch, input, output);
          if ch == BREAK {
            data[0] := BREAK;
            len := 1;
            return Interrupt;
          }
          FollowsEnd(goal, out0, Waiting, input, output);
          FollowsMore(goal, out0, Waiting, input, output);
          ch := GetRspChar();
        }
        WaitingStep(goal, out0, ch, input, output);
        // its body
        var checksum, count;
        ch, checksum, count := ReadBody(goal, out0, top);
        if ch == -1 { return Closed; }
        data[count] := 0;
        len := count;
        // its checksum
        if ch == HASH {
          ghost var d := data[..count];
          FollowsEnd(goal, out0, First(d), input, output);
          FollowsMore(goal, out0, First(d), input, output);
          ch := GetRspChar();
          if ch == -1 { return Closed; }
          DigitStep(goal, out0, d, ch, input, output);
          var xmitcsum := Hex(ch) * 16 % 256;
          ghost var high := Hex(ch);
          FollowsEnd(goal, out0, Second(d, high), input, output);
          FollowsMore(goal, out0, Second(d, high), input, output);
          ch := GetRspChar();
          if ch == -1 { return Closed; }
          LastStep(goal, out0, d, high, ch, input, output);
          ModSum(high * 16, Hex(ch));
          xmitcsum := (xmitcsum + Hex(ch)) % 256;
          if checksum != xmitcsum {
            PutRspChar(MINUS);
          } else {
            PutRspChar(PLUS);
            return Packet(data[..len]);
          }
        }
      }
    }
  }

  /** The rest of the line, read from state `s`, gives the same as the whole line did */
  ghost predicate Follows(goal: Outcome, out0: seq<Char>, s: Reader, input: seq<Char>, output: seq<Char>) {
    var o := Receive(s, input);
    o.result == goal.result && o.rest == goal.rest && output + o.acks == out0 + goal.acks
  }

  /** The same with one character already read */
  ghost predicate Stepped(goal: Outcome, out0: seq<Char>, s: Reader, c: int, input: seq<Char>, output: seq<Char>) {
    0 <= c < 256 && Follows(goal, out0, s, [c] + input, output)
  }

  lemma FollowsStart(input: seq<Char>, output: seq<Char>)
    ensures Follows(Receive(Waiting, input), output, Waiting, input, output)
  {
    hide Receive;
  }

  lemma FollowsEnd(goal: Outcome, out0: seq<Char>, s: Reader, input: seq<Char>, output: seq<Char>)
    requires Follows(goal, out0, s, input, output)
    ensures input == [] ==> goal == Outcome(Closed, [], goal.acks) && output == out0 + goal.acks
  {
    if input == [] { assert output + [] == output; }
  }

  lemma FollowsMore(goal: Outcome, out0: seq<Char>, s: Reader, input: seq<Char>, output: seq<Char>)
    requires Follows(goal, out0, s, input, output)
    ensures input != [] ==> Stepped(goal, out0, s, input[0], input[1..], output)
  {
    hide Receive;
    if input != [] { assert [input[0]] + input[1..] == input; }
  }

  lemma SteppedTo(goal: Outcome, out0: seq<Char>, s: Reader, c: int, input: seq<Char>, output: seq<Char>)
    requires Stepped(goal, out0, s, c, input, output)
    ensures var a := Accept(s, c);
      && (a.To? ==> Follows(goal, out0, a.next, input, output + a.ack))
      && (a.End? ==> goal.result == a.result && goal.rest == input && output + a.ack == out0 + goal.acks)
  {
    hide Receive, Accept;
    ReceiveStep(s, c, input);
    var a := Accept(s, c);
    if a.To? {
      assert output + (a.ack + Receive(a.next, input).acks) == output + a.ack + Receive(a.next, input).acks;
    }
  }

  lemma WaitingStep(goal: Outcome, out0: seq<Char>, c: int, input: seq<Char>, output: seq<Char>)
    requires Stepped(goal, out0, Waiting, c, input, output)
    ensures c == DOLLAR ==> Follows(goal, out0, Body([]), input, output)
    ensures c == BREAK ==> goal.result == Interrupt && goal.rest == input && output == out0 + goal.acks
    ensures c != DOLLAR && c != BREAK ==> Follows(goal, out0, Waiting, input, output)
  {
    hide Follows, Stepped;
    SteppedTo(goal, out0, Waiting, c, input, output);
    assert output + [] == output;
  }

  lemma BodyStep(goal: Outcome, out0: seq<Char>, d: seq<Char>, c: int, input: seq<Char>, output: seq<Char>)
    requires Stepped(goal, out0, Body(d), c, input, output)
    ensures c == DOLLAR ==> Follows(goal, out0, Body([]), input, output)
    ensures c == HASH ==> Follows(goal, out0, First(d), input, output)
    ensures c != DOLLAR && c != HASH ==>
      Follows(goal, out0, if |d| + 1 >= GDB_BUF_MAX - 1 then Waiting else Body(d + [c]), input, output)
  {
    hide Follows, Stepped;
    SteppedTo(goal, out0, Body(d), c, input, output);
    assert output + [] == output;
  }

  lemma DigitStep(goal: Outcome, out0: seq<Char>, d: seq<Char>, c: int, input: seq<Char>, output: seq<Char>)
    requires Stepped(goal, out0, First(d), c, input, output)
    ensures Follows(goal, out0, Second(d, Hex(c)), input, output)
  {
    hide Follows, Stepped, Hex;
    SteppedTo(goal, out0, First(d), c, input, output);
    assert output + [] == output;
  }

  lemma LastStep(goal: Outcome, out0: seq<Char>, d: seq<Char>, high: int, c: int, input: seq<Char>, output: seq<Char>)
    requires Stepped(goal, out0, Second(d, high), c, input, output)
    ensures if Sum(d) % 256 == (high * 16 + Hex(c)) % 256
      then goal.result == Packet(d) && goal.rest == input && output + [PLUS] == out0 + goal.acks
      else Follows(goal, out0, Waiting, input, output + [MINUS])
  {
    hide Follows, Stepped, Hex, Sum;
    SteppedTo(goal, out0, Second(d, high), c, input, output);
  }

  lemma NoSum(s: seq<Char>)
    requires |s| == 0
    ensures Sum(s) % 256 == 0 && s == []
  {
  }

  lemma SumMod(s: seq<Char>, c: int)
    requires 0 <= c < 256
    ensures (Sum(s) % 256 + c) % 256 == Sum(s + [c]) % 256
  {
    SumMore(s, c);
  }

  lemma ModSum(a: int, b: int)
    ensures (a % 256 + b) % 256 == (a + b) % 256
  {
  }

  lemma BufferSize()
    ensures GDB_BUF_MAX == 281 && DOLLAR != HASH && DOLLAR == 0x24 && HASH == 0x23
  {
  }

  lemma Answer(input: seq<Char>, n: nat)
    requires n <= |input|
    ensures n < |input| ==> input[n..][0] == input[n] && input[n..][1..] == input[n + 1..]
    ensures n == |input| ==> input[n..] == []
  {
  }

  function Times(s: seq<Char>, n: nat): seq<Char> {
    if n == 0 then [] else Times(s, n - 1) + s
  }

  lemma TimesMore(s: seq<Char>, n: nat)
    ensures Times(s, n + 1) == Times(s, n) + s && Times(s, 0) == []
  {
  }

  lemma EscapeStart()
    ensures Escape([]) == [] && Sum([]) == 0
  {
  }

  lemma {:induction false} EscapeAppend(a: seq<Char>, b: seq<Char>)
    ensures Escape(a + b) == Escape(a) + Escape(b)
    decreases a
  {
    if a == [] {
      assert a + b == b;
    } else {
      assert (a + b)[0] == a[0] && (a + b)[1..] == a[1..] + b;
      EscapeAppend(a[1..], b);
    }
  }

  lemma EscapeMore(a: seq<Char>, c: Char)
    ensures Escape(a + [c]) == Escape(a) + Escape([c])
  {
    EscapeAppend(a, [c]);
  }

  lemma EscapeOne(c: Char, n: nat)
    ensures if c == DOLLAR || c == HASH || c == STAR || c == BRACE
      then Escape([c]) == [BRACE] + [Flip(c)]
           && ((n + BRACE) % 256 + Flip(c)) % 256 == (n + Sum(Escape([c]))) % 256
      else Escape([c]) == [c] && (n + c) % 256 == (n + Sum(Escape([c]))) % 256
  {
    assert [c][1..] == [];
    SumMore([], c);
    SumMore([], BRACE);
    SumMore([BRACE], Flip(c));
    assert [] + [c] == [c] && [] + [BRACE] == [BRACE];
    ModSum(n + BRACE, Flip(c));
    hide Flip, Sum;
  }

  lemma FrameIs(body: seq<Char>)
    ensures var e := Escape(body); var k := Sum(e) % 256;
      k / 16 < 16 && k % 16 < 16 && Frame(body) == [DOLLAR] + e + [HASH] + [HexChar(k / 16)] + [HexChar(k % 16)]
  {
    hide Escape, Sum;
  }
}
