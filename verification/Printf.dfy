/** The monitor's formatted output. */
module Printf {
  import Bits
  import opened Numerals

  /** An argument: a 32-bit number, a string, or a null pointer */
  datatype Arg = Num(v: nat) | Text(s: string) | Null

  function NumOf(args: seq<Arg>): (n: nat)
    ensures n < WORD
  {
    if args != [] && args[0].Num? then args[0].v % WORD else 0
  }

  function Rest(args: seq<Arg>): seq<Arg> {
    if args == [] then [] else args[1..]
  }

  /** A word as a signed number */
  function Signed(n: nat): int {
    if n % WORD >= WORD / 2 then n % WORD - WORD else n % WORD
  }

  // --- conversion specifications ---

  /** Flags, width and precision; a precision of -1 is none, a sign of '\0' is none */
  datatype Spec = Spec(alt: bool, left: bool, zero: bool, long: bool, short: bool, sign: char, width: int, prec: int)

  const PLAIN: Spec := Spec(false, false, false, false, false, '\0', 0, -1)

  predicate Decimal(c: char) {
    '0' <= c <= '9'
  }

  /** How many digits a string starts with */
  function DigitRun(s: string): (k: nat)
    ensures k <= |s| && (k < |s| ==> !Decimal(s[k])) && forall i :: 0 <= i < k ==> Decimal(s[i])
  {
    if s == [] || !Decimal(s[0]) then 0 else 1 + DigitRun(s[1..])
  }

  /** A specification read up to its conversion character, '\0' at the end of the format */
  datatype Parsed = Parsed(spec: Spec, ch: char, rest: string, args: seq<Arg>)

  function Parse(fmt: string, args: seq<Arg>, s: Spec): (p: Parsed)
    ensures |p.rest| <= |fmt|
    decreases |fmt|
  {
    if fmt == [] then Parsed(s, '\0', [], args)
    else
      var c, more := fmt[0], fmt[1..];
      if c == ' ' then Parse(more, args, if s.sign == '\0' then s.(sign := ' ') else s)
      else if c == '#' then Parse(more, args, s.(alt := true))
      else if c == '*' then
        var w := Signed(NumOf(args));
        Parse(more, Rest(args), if w >= 0 then s.(width := w) else s.(width := -w, left := true))
      else if c == '-' then Parse(more, args, s.(left := true))
      else if c == '+' then Parse(more, args, s.(sign := '+'))
      else if c == '.' && more != [] && more[0] == '*' then
        var n := Signed(NumOf(args));
        Parse(more[1..], Rest(args), s.(prec := if n < 0 then -1 else n))
      else if c == '.' then
        var k := DigitRun(more);
        Parse(more[k..], args, s.(prec := Value(more[..k], 10)))
      else if c == '0' then Parse(more, args, s.(zero := true))
      else if Decimal(c) then
        var k := DigitRun(fmt);
        Parse(fmt[k..], args, s.(width := Value(fmt[..k], 10)))
      else if c == 'h' then Parse(more, args, s.(short := true))
      else if c == 'l' then
        if more != [] && more[0] == 'l' then Parse(more[1..], args, s) else Parse(more, args, s.(long := true))
      else if c == 'q' then Parse(more, args, s)
      else Parsed(s, c, more, args)
  }

  // --- conversions ---

  /** A converted argument: the text proper, what goes before it, whether to pad with zeros, the
      digits demanded */
  datatype Field = Field(text: string, prefix: string, zero: bool, dprec: int)

  function Extended(n: nat, s: Spec): int {
    if s.long then Signed(n) else if s.short then (if n % 0x1_0000 >= 0x8000 then n % 0x1_0000 - 0x1_0000 else n % 0x1_0000)
    else Signed(n)
  }

  function Unsigned(n: nat, s: Spec): (r: nat)
    ensures r < WORD
  {
    if s.short && !s.long then n % 0x1_0000 else n % WORD
  }

  /** The digits of a number; none for 0 with a precision of 0 */
  function NumberText(n: nat, base: nat, upper: bool, s: Spec): string
    requires 2 <= base <= 16
  {
    if n == 0 && s.prec == 0 then []
    else
      var d := Digits(n, base, upper);
      if base == 8 && s.alt && d[0] != '0' then ['0'] + d else d
  }

  function Number(n: nat, base: nat, upper: bool, s: Spec, prefix: string): Field
    requires 2 <= base <= 16
  {
    Field(NumberText(n, base, upper, s), prefix, s.zero && s.prec < 0, s.prec)
  }

  function Sign(c: char): string {
    if c == '\0' then [] else [c]
  }

  function Convert(ch: char, s: Spec, args: seq<Arg>): Field {
    var n := NumOf(args);
    if ch == 'c' then Field([(n % 256) as char], [], s.zero, 0)
    else if ch == 'd' || ch == 'i' || ch == 'D' then
      var v := Extended(n, if ch == 'D' then s.(long := true) else s);
      if v < 0 then Number(-v, 10, false, s, ['-']) else Number(v, 10, false, s, Sign(s.sign))
    else if ch == 'o' || ch == 'O' then Number(Unsigned(n, if ch == 'O' then s.(long := true) else s), 8, false, s, [])
    else if ch == 'u' || ch == 'U' then Number(Unsigned(n, if ch == 'U' then s.(long := true) else s), 10, false, s, [])
    else if ch == 'p' then Number(n, 16, false, s, ['0', 'x'])
    else if ch == 's' then
      var t := if args != [] && args[0].Text? then args[0].s else "(null)";
      Field(if 0 <= s.prec < |t| then t[..s.prec] else t, [], s.zero, 0)
    else if ch == 'x' || ch == 'X' then
      var v := Unsigned(n, s);
      Number(v, 16, ch == 'X', s, if s.alt && v != 0 then ['0', ch] else [])
    else Field([ch], [], s.zero, 0)
  }

  /** Does the conversion take an argument? */
  predicate Takes(ch: char) {
    ch in {'c', 'd', 'i', 'D', 'o', 'O', 'u', 'U', 'p', 's', 'x', 'X', 'n'}
  }

  function Size(f: Field): nat {
    (if f.dprec > |f.text| then f.dprec else |f.text|) + |f.prefix|
  }

  /** A field set in its width */
  function Emit(s: Spec, f: Field): string {
    var pad := s.width - Size(f);
    Repeat(' ', if s.left || f.zero then 0 else pad) + f.prefix + Repeat('0', if f.zero && !s.left then pad else 0)
      + Repeat('0', f.dprec - |f.text|) + f.text + Repeat(' ', if s.left then pad else 0)
  }

  /** Everything a call prints */
  function Output(fmt: string, args: seq<Arg>): string
    decreases |fmt|
  {
    if fmt == [] then []
    else if fmt[0] != '%' then [fmt[0]] + Output(fmt[1..], args)
    else
      var p := Parse(fmt[1..], args, PLAIN);
      if p.ch == '\0' then []
      else
        var rest := Output(p.rest, if Takes(p.ch) then Rest(p.args) else p.args);
        if p.ch == 'n' then rest else Emit(p.spec, Convert(p.ch, p.spec, p.args)) + rest
  }

  // --- the printer ---

  const BUF: nat := 40
  const PADSIZE: nat := 16

  lemma RepeatMore(c: char, m: nat, n: int)
    requires n >= 0
    ensures Repeat(c, m) + Repeat(c, n) == Repeat(c, m + n)
  {
  }

  /** Reads a specification */
  method ParseSpec(fmt: string, args: seq<Arg>) returns (p: Parsed)
    ensures p == Parse(fmt, args, PLAIN)
  {
    hide Parse, DigitRun, Value;
    var f, a, s := fmt, args, PLAIN;
    while f != []
      invariant Parse(f, a, s) == Parse(fmt, args, PLAIN)
      decreases |f|
    {
      var ch, more := f[0], f[1..];
      ParseStep(f, a, s);
      if ch == ' ' {
        if s.sign == '\0' { s := s.(sign := ' '); }
        f := more;
      } else if ch == '#' {
        s, f := s.(alt := true), more;
      } else if ch == '*' {
        var w := Signed(NumOf(a));
        a := Rest(a);
        s := if w >= 0 then s.(width := w) else s.(width := -w, left := true);
        f := more;
      } else if ch == '-' {
        s, f := s.(left := true), more;
      } else if ch == '+' {
        s, f := s.(sign := '+'), more;
      } else if ch == '.' && more != [] && more[0] == '*' {
        var n := Signed(NumOf(a));
        a := Rest(a);
        s, f := s.(prec := if n < 0 then -1 else n), more[1..];
      } else if ch == '.' {
        var n, rest := ReadRun(more);
        s, f := s.(prec := n), rest;
      } else if ch == '0' {
        s, f := s.(zero := true), more;
      } else if Decimal(ch) {
        var n, rest := ReadRun(f);
        s, f := s.(width := n), rest;
      } else if ch == 'h' {
        s, f := s.(short := true), more;
      } else if ch == 'l' {
        if more != [] && more[0] == 'l' {
          f := more[1..];
        } else {
          s, f := s.(long := true), more;
        }
      } else if ch == 'q' {
        f := more;
      } else {
        return Parsed(s, ch, more, a);
      }
    }
    ParseStep(f, a, s);
    return Parsed(s, '\0', [], a);
  }

  lemma ParseStep(fmt: string, args: seq<Arg>, s: Spec)
    ensures fmt == [] ==> Parse(fmt, args, s) == Parsed(s, '\0', [], args)
    ensures fmt != [] ==> var c, more := fmt[0], fmt[1..]; var p := Parse(fmt, args, s); var n := Signed(NumOf(args));
      && (c == ' ' ==> p == Parse(more, args, if s.sign == '\0' then s.(sign := ' ') else s))
      && (c == '#' ==> p == Parse(more, args, s.(alt := true)))
      && (c == '*' ==> p == Parse(more, Rest(args), if n >= 0 then s.(width := n) else s.(width := -n, left := true)))
      && (c == '-' ==> p == Parse(more, args, s.(left := true)))
      && (c == '+' ==> p == Parse(more, args, s.(sign := '+')))
      && (c == '.' && more != [] && more[0] == '*' ==> p == Parse(more[1..], Rest(args), s.(prec := if n < 0 then -1 else n)))
      && (c == '.' && !(more != [] && more[0] == '*') ==>
            p == Parse(more[DigitRun(more)..], args, s.(prec := Value(more[..DigitRun(more)], 10))))
      && (c == '0' ==> p == Parse(more, args, s.(zero := true)))
      && (Decimal(c) && c != '0' ==> p == Parse(fmt[DigitRun(fmt)..], args, s.(width := Value(fmt[..DigitRun(fmt)], 10))))
      && (c == 'h' ==> p == Parse(more, args, s.(short := true)))
      && (c == 'l' && more != [] && more[0] == 'l' ==> p == Parse(more[1..], args, s))
      && (c == 'l' && !(more != [] && more[0] == 'l') ==> p == Parse(more, args, s.(long := true)))
      && (c == 'q' ==> p == Parse(more, args, s))
      && (c !in {' ', '#', '*', '-', '+', '.', 'h', 'l', 'q'} && !Decimal(c) ==> p == Parsed(s, c, more, args))
  {
    hide DigitRun, Value, Signed, NumOf;
  }

  /** Reads decimal digits */
  method ReadRun(s: string) returns (n: nat, rest: string)
    ensures n == Value(s[..DigitRun(s)], 10) && rest == s[DigitRun(s)..]
  {
    hide Value;
    n := 0;
    var k := 0;
    ValueNone(10);
    assert s[..0] == [];
    while k < |s| && Decimal(s[k])
      invariant k <= |s| && n == Value(s[..k], 10) && forall i :: 0 <= i < k ==> Decimal(s[i])
    {
      ValueMore(s[..k], s[k], 10);
      assert s[..k + 1] == s[..k] + [s[k]];
      n := 10 * n + (s[k] as nat - '0' as nat);
      k := k + 1;
    }
    RunIs(s, k);
    rest := s[k..];
  }

  lemma {:induction false} RunIs(s: string, k: nat)
    requires k <= |s| && (k < |s| ==> !Decimal(s[k])) && forall i :: 0 <= i < k ==> Decimal(s[i])
    ensures DigitRun(s) == k
    decreases k
  {
    if k > 0 {
      forall i | 0 <= i < k - 1 ensures Decimal(s[1..][i]) {
        assert s[1..][i] == s[i + 1];
      }
      RunIs(s[1..], k - 1);
    }
  }

  /** `n` has at least `k` binary digits fewer than `number` */
  predicate Room(n: nat, k: nat, number: nat) {
    n * Bits.Pow2(k) <= number < WORD && k <= 31
  }

  /** Fills the buffer from its end with the digits of a number; 40 places are always enough */
  method WriteDigits(buf: array<char>, number: nat, base: nat, upper: bool, alt: bool) returns (cp: nat)
    requires buf.Length == BUF && number < WORD && base in {8, 10, 16}
    modifies buf
    ensures 0 < cp < BUF
    ensures var d := Digits(number, base, upper);
      buf[cp..] == if base == 8 && alt && d[0] != '0' then ['0'] + d else d
  {
    hide Digits, DigitChar, Room, Quo, Rem;
    cp := BUF;
    var n: nat := number;
    ghost var k: nat := 0;
    RoomStart(number);
    assert buf[cp..] == [];
    assert Digits(n, base, upper) + [] == Digits(n, base, upper);
    while n >= base
      invariant cp == BUF - k && k <= 31 && Room(n, k, number)
      invariant Digits(n, base, upper) + buf[cp..] == Digits(number, base, upper)
      decreases n
    {
      DigitsStep(n, base, upper);
      RoomMore(n, base, k, number);
      cp := cp - 1;
      ghost var tail := buf[cp + 1..];
      var c := DigitChar(Rem(n, base), upper);
      buf[cp] := c;
      assert buf[cp..] == [c] + tail;
      Regrouped(Digits(Quo(n, base), base, upper), c, tail);
      n := Quo(n, base);
      k := k + 1;
    }
    DigitsStep(n, base, upper);
    DivMod(n, base);
    cp := cp - 1;
    ghost var rest := buf[cp + 1..];
    buf[cp] := DigitChar(n, upper);
    assert buf[cp..] == [DigitChar(n, upper)] + rest;
    if base == 8 && alt && buf[cp] != '0' {
      ghost var d := buf[cp..];
      cp := cp - 1;
      buf[cp] := '0';
      assert buf[cp..] == ['0'] + d;
    }
  }

  lemma Regrouped(a: string, c: char, b: string)
    ensures (a + [c]) + b == a + ([c] + b)
  {
  }

  lemma RoomStart(number: nat)
    requires number < WORD
    ensures Room(number, 0, number)
  {
  }

  /** A digit more leaves at most half of the number */
  lemma RoomMore(n: nat, base: nat, k: nat, number: nat)
    requires 2 <= base <= n && Room(n, k, number)
    ensures Room(Quo(n, base), k + 1, number) && k + 1 <= 31
  {
    DivMod(n, base);
    Halves(Quo(n, base), base, Rem(n, base), Bits.Pow2(k), number);
    if k == 31 { PowBig(n, number); }
    hide Quo, Rem;
  }

  lemma Halves(q: nat, base: nat, r: nat, p: nat, number: nat)
    requires 2 <= base && (q * base + r) * p <= number
    ensures q * (2 * p) <= number
  {
    assert q * 2 <= q * base + r;
    Times(q * 2, q * base + r, p);
    assert q * (2 * p) == q * 2 * p;
  }

  lemma Times(a: nat, b: nat, p: nat)
    requires a <= b
    ensures a * p <= b * p
  {
  }

  lemma PowBig(n: nat, number: nat)
    requires n >= 2 && n * Bits.Pow2(31) <= number
    ensures number >= WORD
  {
    assert Bits.Pow2(8) == 256;
    assert Bits.Pow2(16) == 65536;
    assert Bits.Pow2(24) == 0x100_0000;
    assert Bits.Pow2(31) == 0x8000_0000;
    Times(2, n, Bits.Pow2(31));
  }

  class Console {
    var out: string

    constructor ()
      ensures out == []
    {
      out := [];
    }

    method Pc(c: char)
      modifies this
      ensures out == old(out) + [c]
    {
      out := out + [c];
    }

    method Print(s: string)
      modifies this
      ensures out == old(out) + s
    {
      for i := 0 to |s|
        invariant out == old(out) + s[..i]
      {
        assert s[..i + 1] == s[..i] + [s[i]];
        Pc(s[i]);
      }
    }

    /** Pads in chunks */
    method Pad(howmany: int, with: char)
      modifies this
      ensures out == old(out) + Repeat(with, howmany)
    {
      hide Repeat;
      var n := howmany;
      ghost var done := 0;
      RepeatFacts(with);
      if n > 0 {
        while n > PADSIZE
          invariant 0 < n && done + n == howmany && done >= 0 && out == old(out) + Repeat(with, done)
        {
          RepeatMore(with, done, PADSIZE);
          ghost var before := out;
          Print(Repeat(with, PADSIZE));
          assert out == old(out) + (Repeat(with, done) + Repeat(with, PADSIZE));
          n := n - PADSIZE;
          done := done + PADSIZE;
        }
        RepeatMore(with, done, n);
        Print(Repeat(with, n));
        assert out == old(out) + (Repeat(with, done) + Repeat(with, n));
      }
    }

    /** Prints a number's text out of a buffer */
    method NumberToText(n: nat, base: nat, upper: bool, s: Spec) returns (text: string)
      requires n < WORD && base in {8, 10, 16}
      ensures text == NumberText(n, base, upper, s)
    {
      var buf := new char[BUF](_ => ' ');
      var cp := BUF;
      if n != 0 || s.prec != 0 {
        cp := WriteDigits(buf, n, base, upper, s.alt);
      }
      text := buf[cp..];
    }

    /** Prints one field and returns its length */
    method PrintField(s: Spec, f: Field) returns (n: nat)
      modifies this
      ensures out == old(out) + Emit(s, f) && n == |Emit(s, f)|
    {
      hide Repeat;
      var size := |f.text|;
      var realsz := (if f.dprec > size then f.dprec else size) + |f.prefix|;
      RepeatFacts(' ');
      RepeatFacts('0');
      if !s.left && !f.zero { Pad(s.width - realsz, ' '); }
      Print(f.prefix);
      if !s.left && f.zero { Pad(s.width - realsz, '0'); }
      Pad(f.dprec - size, '0');
      Print(f.text);
      if s.left { Pad(s.width - realsz, ' '); }
      EmitIs(s, f, old(out));
      n := if s.width > realsz then s.width else realsz;
    }

    /** Prints `args` as `fmt` says and returns how many characters that took */
    method Printf(fmt: string, args: seq<Arg>) returns (ret: nat)
      requires '\0' !in fmt
      modifies this
      ensures out == old(out) + Output(fmt, args) && ret == |Output(fmt, args)|
    {
      hide Output, Emit, Convert, Parse, Takes;
      var f, a := fmt, args;
      ret := 0;
      ghost var done: string := [];
      while f != []
        invariant out == old(out) + done && ret == |done| && done + Output(f, a) == Output(fmt, args)
        decreases |f|
      {
        OutputStep(f, a);
        if f[0] != '%' {
          Pc(f[0]);
          assert old(out) + done + [f[0]] == old(out) + (done + [f[0]]);
          assert done + ([f[0]] + Output(f[1..], a)) == done + [f[0]] + Output(f[1..], a);
          done := done + [f[0]];
          f, ret := f[1..], ret + 1;
        } else {
          var p := ParseSpec(f[1..], a);
          if p.ch == '\0' {
            assert done + [] == done;
            return;
          }
          if p.ch != 'n' {
            var field := ConvertArg(p.ch, p.spec, p.args);
            var n := PrintField(p.spec, field);
            ghost var text := Emit(p.spec, field);
            Joined(old(out), done, text, Output(p.rest, if Takes(p.ch) then Rest(p.args) else p.args));
            done := done + text;
            ret := ret + n;
          }
          f, a := p.rest, if Takes(p.ch) then Rest(p.args) else p.args;
        }
      }
      OutputStep(f, a);
      assert done + [] == done;
    }

    /** Converts one argument */
    method ConvertArg(ch: char, s: Spec, args: seq<Arg>) returns (f: Field)
      ensures f == Convert(ch, s, args)
    {
      var n := NumOf(args);
      if ch == 'c' {
        f := Field([(n % 256) as char], [], s.zero, 0);
      } else if ch == 'd' || ch == 'i' || ch == 'D' {
        var v := Extended(n, if ch == 'D' then s.(long := true) else s);
        var text := NumberToText(if v < 0 then -v else v, 10, false, s);
        f := Field(text, if v < 0 then ['-'] else Sign(s.sign), s.zero && s.prec < 0, s.prec);
      } else if ch == 'o' || ch == 'O' {
        var text := NumberToText(Unsigned(n, if ch == 'O' then s.(long := true) else s), 8, false, s);
        f := Field(text, [], s.zero && s.prec < 0, s.prec);
      } else if ch == 'u' || ch == 'U' {
        var text := NumberToText(Unsigned(n, if ch == 'U' then s.(long := true) else s), 10, false, s);
        f := Field(text, [], s.zero && s.prec < 0, s.prec);
      } else if ch == 'p' {
        var text := NumberToText(n, 16, false, s);
        f := Field(text, ['0', 'x'], s.zero && s.prec < 0, s.prec);
      } else if ch == 's' {
        var t := if args != [] && args[0].Text? then args[0].s else "(null)";
        f := Field(if 0 <= s.prec < |t| then t[..s.prec] else t, [], s.zero, 0);
      } else if ch == 'x' || ch == 'X' {
        var v := Unsigned(n, s);
        var text := NumberToText(v, 16, ch == 'X', s);
        f := Field(text, if s.alt && v != 0 then ['0', ch] else [], s.zero && s.prec < 0, s.prec);
      } else {
        f := Field([ch], [], s.zero, 0);
      }
    }
  }

  lemma Joined(out0: string, done: string, text: string, rest: string)
    ensures out0 + done + text == out0 + (done + text) && done + (text + rest) == done + text + rest
  {
  }

  lemma OutputStep(fmt: string, args: seq<Arg>)
    ensures fmt == [] ==> Output(fmt, args) == []
    ensures fmt != [] && fmt[0] != '%' ==> Output(fmt, args) == [fmt[0]] + Output(fmt[1..], args)
    ensures fmt != [] && fmt[0] == '%' ==> var p := Parse(fmt[1..], args, PLAIN);
      && (p.ch == '\0' ==> Output(fmt, args) == [])
      && |p.rest| < |fmt|
      && (p.ch != '\0' ==> var rest := Output(p.rest, if Takes(p.ch) then Rest(p.args) else p.args);
            Output(fmt, args) == if p.ch == 'n' then rest else Emit(p.spec, Convert(p.ch, p.spec, p.args)) + rest)
  {
    hide Parse, Emit, Convert, Takes;
  }

  lemma RepeatFacts(c: char)
    ensures Repeat(c, 0) == [] && forall n: int :: n <= 0 ==> Repeat(c, n) == []
  {
  }

  lemma EmitIs(s: Spec, f: Field, out0: string)
    ensures var pad := s.width - Size(f); var e := Repeat('0', f.dprec - |f.text|);
      && (!s.left && !f.zero ==> out0 + Repeat(' ', pad) + f.prefix + e + f.text == out0 + Emit(s, f))
      && (!s.left && f.zero ==> out0 + f.prefix + Repeat('0', pad) + e + f.text == out0 + Emit(s, f))
      && (s.left ==> out0 + f.prefix + e + f.text + Repeat(' ', pad) == out0 + Emit(s, f))
  {
    hide Repeat, Size;
    var pad := s.width - Size(f);
    var e := Repeat('0', f.dprec - |f.text|);
    assert Repeat(' ', 0) == [] && Repeat('0', 0) == [];
    if s.left {
      FiveParts(out0, [], f.prefix, [], e, f.text, Repeat(' ', pad));
    } else if f.zero {
      FiveParts(out0, [], f.prefix, Repeat('0', pad), e, f.text, []);
    } else {
      FiveParts(out0, Repeat(' ', pad), f.prefix, [], e, f.text, []);
    }
  }

  lemma FiveParts(out0: string, blanks: string, prefix: string, zeros: string, e: string, text: string, after: string)
    ensures var all := out0 + (blanks + prefix + zeros + e + text + after);
      && (blanks == zeros == [] ==> out0 + prefix + e + text + after == all)
      && (blanks == after == [] ==> out0 + prefix + zeros + e + text == all)
      && (zeros == after == [] ==> out0 + blanks + prefix + e + text == all)
  {
  }

  // --- what the conversions print ---

  /** What may stand between % and a conversion character: flags, width, precision and size, the
      width 0 and the precision -1 if there is none */
  datatype Flags = Flags(left: bool, alt: bool, zero: bool, sign: char, width: nat, prec: int, size: char)

  predicate Proper(f: Flags) {
    f.sign in {'\0', ' ', '+'} && f.size in {'\0', 'h', 'l'}
  }

  function Optional(b: bool, c: char): string {
    if b then [c] else []
  }

  function Spelled(f: Flags): string {
    Optional(f.left, '-') + (Optional(f.alt, '#') + (Sign(f.sign) + (Optional(f.zero, '0') + Amounts(f))))
  }

  function Amounts(f: Flags): string {
    (if f.width > 0 then Digits(f.width, 10, false) else [])
      + ((if f.prec >= 0 then ['.'] + Digits(f.prec, 10, false) else []) + Sign(f.size))
  }

  function SpecOf(f: Flags): Spec {
    Spec(f.alt, f.left, f.zero, f.size == 'l', f.size == 'h', f.sign, f.width, if f.prec < 0 then -1 else f.prec)
  }

  /** A character that ends a specification */
  predicate Ends(ch: char) {
    ch !in {' ', '#', '*', '-', '+', '.', 'h', 'l', 'q'} && !Decimal(ch)
  }

  /** One character of a specification, `was` being what was read before */
  lemma ParseFlag(on: bool, c: char, more: string, args: seq<Arg>, was: Spec, s: Spec)
    requires if on then s == (if c == '-' then was.(left := true) else if c == '#' then was.(alt := true) else was.(zero := true))
                   else s == was
    requires c in {'-', '#', '0'}
    ensures Parse(Optional(on, c) + more, args, was) == Parse(more, args, s)
  {
    hide Parse;
    if on {
      ParseStep([c] + more, args, was);
      assert ([c] + more)[1..] == more;
    } else {
      assert [] + more == more;
    }
  }

  lemma ParseSign(sign: char, more: string, args: seq<Arg>, was: Spec)
    requires sign in {'\0', ' ', '+'} && was.sign == '\0'
    ensures Parse(Sign(sign) + more, args, was) == Parse(more, args, was.(sign := sign))
  {
    hide Parse;
    if sign == '\0' {
      assert [] + more == more;
    } else {
      ParseStep([sign] + more, args, was);
      assert ([sign] + more)[1..] == more;
    }
  }

  /** A run of digits and what follows */
  lemma RunOf(n: nat, more: string)
    requires more != [] && !Decimal(more[0])
    ensures var d := Digits(n, 10, false); var g := d + more;
      DigitRun(g) == |d| && g[..|d|] == d && g[|d|..] == more && Value(d, 10) == n && Decimal(g[0]) && (n > 0 ==> g[0] != '0')
  {
    hide Digits, Value;
    DigitsValue(n, 10, false);
    var d := Digits(n, 10, false);
    var g := d + more;
    assert forall i :: 0 <= i < |d| ==> g[i] == d[i];
    DigitsDecimal(n);
    RunIs(g, |d|);
  }

  lemma {:induction false} DigitsDecimal(n: nat)
    ensures forall i :: 0 <= i < |Digits(n, 10, false)| ==> Decimal(Digits(n, 10, false)[i])
    decreases n
  {
    hide Digits;
    DigitsStep(n, 10, false);
    DivMod(n, 10);
    if n >= 10 { DigitsDecimal(Quo(n, 10)); }
  }

  lemma ParseWidth(w: nat, more: string, args: seq<Arg>, was: Spec)
    requires more != [] && !Decimal(more[0]) && was.width == 0
    ensures Parse((if w > 0 then Digits(w, 10, false) else []) + more, args, was) == Parse(more, args, was.(width := w))
  {
    hide Parse, Digits, Value, DigitRun;
    if w > 0 {
      RunOf(w, more);
      ParseStep(Digits(w, 10, false) + more, args, was);
    } else {
      assert [] + more == more;
    }
  }

  lemma ParsePrec(p: int, more: string, args: seq<Arg>, was: Spec)
    requires more != [] && !Decimal(more[0]) && was.prec == -1
    ensures Parse((if p >= 0 then ['.'] + Digits(p, 10, false) else []) + more, args, was)
         == Parse(more, args, was.(prec := if p < 0 then -1 else p))
  {
    hide Parse, Digits, Value, DigitRun;
    if p >= 0 {
      RunOf(p, more);
      var d := Digits(p, 10, false);
      assert ['.'] + d + more == ['.'] + (d + more);
      assert (['.'] + (d + more))[1..] == d + more;
      ParseStep(['.'] + d + more, args, was);
    } else {
      assert [] + more == more;
    }
  }

  lemma ParseSize(size: char, ch: char, more: string, args: seq<Arg>, was: Spec)
    requires size in {'\0', 'h', 'l'} && Ends(ch) && !was.long && !was.short
    ensures Parse(Sign(size) + ([ch] + more), args, was)
         == Parsed(was.(long := size == 'l', short := size == 'h'), ch, more, args)
  {
    hide Parse;
    var tail := [ch] + more;
    assert tail[1..] == more;
    ParseStep(tail, args, was.(long := size == 'l', short := size == 'h'));
    if size == '\0' {
      assert [] + tail == tail;
    } else {
      ParseStep([size] + tail, args, was);
      assert ([size] + tail)[1..] == tail;
    }
  }

  lemma Chained(a: string, b: string, c: string, d: string, e: string, g: string, h: string, tail: string)
    ensures a + (b + (c + (d + (e + (g + h))))) + tail == a + (b + (c + (d + (e + (g + (h + tail))))))
  {
  }

  /** A specification is read as it is spelled */
  lemma ParseSpelled(f: Flags, ch: char, more: string, args: seq<Arg>)
    requires Proper(f) && Ends(ch)
    ensures Parse(Spelled(f) + ([ch] + more), args, PLAIN) == Parsed(SpecOf(f), ch, more, args)
  {
    hide Parse, Optional, Digits;
    var e := if f.width > 0 then Digits(f.width, 10, false) else [];
    var g := if f.prec >= 0 then ['.'] + Digits(f.prec, 10, false) else [];
    Chained(Optional(f.left, '-'), Optional(f.alt, '#'), Sign(f.sign), Optional(f.zero, '0'), e, g, Sign(f.size), [ch] + more);
    ParseChain(f, ch, more, args, e, g, Sign(f.size) + ([ch] + more));
  }

  lemma ParseChain(f: Flags, ch: char, more: string, args: seq<Arg>, e: string, g: string, last: string)
    requires Proper(f) && Ends(ch) && last == Sign(f.size) + ([ch] + more)
    requires e == (if f.width > 0 then Digits(f.width, 10, false) else [])
    requires g == (if f.prec >= 0 then ['.'] + Digits(f.prec, 10, false) else [])
    ensures Parse(Optional(f.left, '-') + (Optional(f.alt, '#') + (Sign(f.sign) + (Optional(f.zero, '0') + (e + (g + last))))),
                  args, PLAIN)
         == Parsed(SpecOf(f), ch, more, args)
  {
    assert !Decimal(last[0]) && !Decimal((g + last)[0]);
    hide Parse, Optional, Sign, Digits, Ends, Proper;
    var s1 := PLAIN.(left := f.left);
    var s2 := s1.(alt := f.alt);
    var s3 := s2.(sign := f.sign);
    var s4 := s3.(zero := f.zero);
    var s5 := s4.(width := f.width);
    var s6 := s5.(prec := if f.prec < 0 then -1 else f.prec);
    ProperParts(f);
    ParseFlag(f.left, '-', Optional(f.alt, '#') + (Sign(f.sign) + (Optional(f.zero, '0') + (e + (g + last)))), args, PLAIN, s1);
    ParseFlag(f.alt, '#', Sign(f.sign) + (Optional(f.zero, '0') + (e + (g + last))), args, s1, s2);
    ParseSign(f.sign, Optional(f.zero, '0') + (e + (g + last)), args, s2);
    ParseFlag(f.zero, '0', e + (g + last), args, s3, s4);
    ParseWidth(f.width, g + last, args, s4);
    ParsePrec(f.prec, last, args, s5);
    ParseSize(f.size, ch, more, args, s6);
  }

  lemma ProperParts(f: Flags)
    requires Proper(f)
    ensures f.sign in {'\0', ' ', '+'} && f.size in {'\0', 'h', 'l'}
  {
  }

  /** A text behind a sign or prefix in its width: set left, or filled with zeros behind the prefix,
      or with blanks before it */
  function Placed(f: Flags, zero: bool, prefix: string, body: string): string {
    var fill := f.width - |prefix| - |body|;
    if f.left then prefix + body + Repeat(' ', fill)
    else if zero then prefix + Repeat('0', fill) + body
    else Repeat(' ', fill) + prefix + body
  }

  /** The digits of a number, at least as many as the precision asks for, none for 0 if that is 0 */
  function Figures(n: nat, base: nat, upper: bool, prec: int): string
    requires 2 <= base <= 16
  {
    if n == 0 && prec == 0 then [] else
      var d := Digits(n, base, upper);
      Repeat('0', prec - |d|) + d
  }

  lemma EmitPlaced(f: Flags, x: Field)
    ensures Emit(SpecOf(f), x) == Placed(f, x.zero, x.prefix, Repeat('0', x.dprec - |x.text|) + x.text)
  {
    hide Repeat;
    var e := Repeat('0', x.dprec - |x.text|);
    var fill := f.width - |x.prefix| - |e + x.text|;
    assert fill == f.width - Size(x) by { RepeatSize(x.dprec - |x.text|); }
    assert Repeat(' ', 0) == [] && Repeat('0', 0) == [];
    FiveParts([], [], x.prefix, [], e, x.text, Repeat(' ', fill));
    FiveParts([], [], x.prefix, Repeat('0', fill), e, x.text, []);
    FiveParts([], Repeat(' ', fill), x.prefix, [], e, x.text, []);
    SixParts(x.prefix, e, x.text, Repeat(' ', fill), Repeat('0', fill));
  }

  lemma RepeatSize(n: int)
    ensures |Repeat('0', n)| == if n > 0 then n else 0
  {
  }

  lemma SixParts(prefix: string, e: string, text: string, blanks: string, zeros: string)
    ensures [] + ([] + prefix + [] + e + text + blanks) == [] + prefix + [] + e + text + blanks
    ensures [] + prefix + [] + e + text + blanks == prefix + (e + text) + blanks
    ensures [] + prefix + zeros + e + text + [] == prefix + zeros + (e + text)
    ensures blanks + prefix + [] + e + text + [] == blanks + prefix + (e + text)
  {
  }

  /** One conversion, at the start of a format */
  lemma PrintsOne(f: Flags, ch: char, more: string, args: seq<Arg>)
    requires Proper(f) && Ends(ch) && ch !in {'\0', 'n'}
    ensures var x := Convert(ch, SpecOf(f), args);
      Output(['%'] + Spelled(f) + [ch] + more, args)
        == Placed(f, x.zero, x.prefix, Repeat('0', x.dprec - |x.text|) + x.text)
         + Output(more, if Takes(ch) then Rest(args) else args)
  {
    hide Output, Parse, Emit, Convert, Takes, Spelled, Placed;
    var fmt := ['%'] + Spelled(f) + [ch] + more;
    assert fmt[1..] == Spelled(f) + ([ch] + more);
    ParseSpelled(f, ch, more, args);
    OutputStep(fmt, args);
    EmitPlaced(f, Convert(ch, SpecOf(f), args));
  }

  lemma NumIs(n: nat, args: seq<Arg>)
    ensures NumOf([Num(n)] + args) == n % WORD && Rest([Num(n)] + args) == args
  {
    assert ([Num(n)] + args)[1..] == args;
  }

  /** The digits of a converted number with the zeros its precision asks for */
  lemma NumberFigures(n: nat, base: nat, upper: bool, s: Spec, p: int)
    requires 2 <= base <= 16 && s.prec == if p < 0 then -1 else p
    ensures var t := NumberText(n, base, upper, s); var all := Repeat('0', s.prec - |t|) + t;
      && (base != 8 || !s.alt ==> all == Figures(n, base, upper, p))
      && (base == 8 && s.alt && n == 0 ==> all == Figures(0, 8, upper, p))
      && (base == 8 && s.alt && n > 0 ==> var d := ['0'] + Digits(n, 8, upper); all == Repeat('0', p - |d|) + d)
  {
    hide Digits, Repeat;
    DigitsValue(n, base, upper);
    ZeroDigits(base, upper);
    RepeatFacts('0');
  }

  function Abs(v: int): nat {
    if v < 0 then -v else v
  }

  /** How many values an integer argument has */
  function Range(f: Flags, long: bool): nat {
    if f.size == 'h' && !long then 0x1_0000 else WORD
  }

  /** %d, %i and %D print the signed number, a '-' or the sign asked for before its decimal digits,
      whatever the flags, width, precision and size */
  lemma PrintsSigned(f: Flags, ch: char, v: int, n: nat, more: string, args: seq<Arg>)
    requires Proper(f) && ch in {'d', 'i', 'D'}
    requires var range := Range(f, ch == 'D'); v < range / 2 && v + range / 2 >= 0 && n % range == v % range
    ensures Output(['%'] + Spelled(f) + [ch] + more, [Num(n)] + args)
      == Placed(f, f.zero && f.prec < 0, if v < 0 then "-" else Sign(f.sign),
                Figures(Abs(v), 10, false, f.prec))
       + Output(more, args)
  {
    hide Output, Spelled, Digits, Placed, Figures;
    var all := [Num(n)] + args;
    NumIs(n, args);
    SignedValue(f, ch == 'D', v, n);
    NumberFigures(Abs(v), 10, false, SpecOf(f), f.prec);
    PrintsOne(f, ch, more, all);
  }

  lemma SignedValue(f: Flags, long: bool, v: int, n: nat)
    requires Proper(f)
    requires var range := Range(f, long); v < range / 2 && v + range / 2 >= 0 && n % range == v % range
    ensures Extended(n % WORD, if long then SpecOf(f).(long := true) else SpecOf(f)) == v
  {
    ShortOf(n);
  }

  lemma ShortOf(n: nat)
    ensures n % WORD % 0x1_0000 == n % 0x1_0000 && n % WORD % WORD == n % WORD
  {
    var q, r := n / WORD, n % WORD;
    var a, b := r / 0x1_0000, r % 0x1_0000;
    assert n == 0x1_0000 * (0x1_0000 * q + a) + b;
    RemIs(n, 0x1_0000 * q + a, b);
  }

  lemma RemIs(n: nat, q: nat, r: nat)
    requires n == 0x1_0000 * q + r && r < 0x1_0000
    ensures n % 0x1_0000 == r
  {
  }

  lemma UnsignedValue(f: Flags, ch: char, n: nat)
    requires Proper(f)
    ensures Unsigned(n % WORD, if ch in {'U', 'O'} then SpecOf(f).(long := true) else SpecOf(f)) == n % Range(f, ch in {'U', 'O'})
  {
    ShortOf(n);
  }

  /** %u and %U print the unsigned number in decimal, %x and %X in hexadecimal, behind 0x or 0X if asked
      for and not 0, and %o and %O in octal, with one more 0 if asked for and not 0 */
  lemma PrintsUnsigned(f: Flags, ch: char, n: nat, more: string, args: seq<Arg>)
    requires Proper(f) && ch in {'u', 'U', 'x', 'X', 'o', 'O'}
    ensures var v := n % Range(f, ch in {'U', 'O'});
      Output(['%'] + Spelled(f) + [ch] + more, [Num(n)] + args)
      == Placed(f, f.zero && f.prec < 0, if ch in {'x', 'X'} && f.alt && v > 0 then ['0', ch] else [],
                if ch in {'u', 'U'} then Figures(v, 10, false, f.prec)
                else if ch in {'x', 'X'} then Figures(v, 16, ch == 'X', f.prec)
                else if f.alt && v > 0 then (var d := ['0'] + Digits(v, 8, false); Repeat('0', f.prec - |d|) + d)
                else Figures(v, 8, false, f.prec))
       + Output(more, args)
  {
    hide Output, Spelled, Digits, Placed, Figures, Unsigned, Repeat, NumberText;
    var all := [Num(n)] + args;
    var base := if ch in {'u', 'U'} then 10 else if ch in {'x', 'X'} then 16 else 8;
    NumIs(n, args);
    UnsignedValue(f, ch, n);
    NumberFigures(n % Range(f, ch in {'U', 'O'}), base, ch == 'X', SpecOf(f), f.prec);
    PrintsOne(f, ch, more, all);
  }

  /** %p prints 0x and the hexadecimal digits */
  lemma PrintsPointer(f: Flags, n: nat, more: string, args: seq<Arg>)
    requires Proper(f)
    ensures Output(['%'] + Spelled(f) + ['p'] + more, [Num(n)] + args)
      == Placed(f, f.zero && f.prec < 0, "0x", Figures(n % WORD, 16, false, f.prec)) + Output(more, args)
  {
    hide Output, Spelled, Digits, Placed, Figures;
    NumIs(n, args);
    NumberFigures(n % WORD, 16, false, SpecOf(f), f.prec);
    PrintsOne(f, 'p', more, [Num(n)] + args);
  }

  /** %s prints a text, cut at the precision, and (null) for a null pointer */
  lemma PrintsText(f: Flags, a: Arg, more: string, args: seq<Arg>)
    requires Proper(f) && !a.Num?
    ensures var t := if a.Text? then a.s else "(null)";
      Output(['%'] + Spelled(f) + ['s'] + more, [a] + args)
      == Placed(f, f.zero, [], if 0 <= f.prec < |t| then t[..f.prec] else t) + Output(more, args)
  {
    hide Output, Spelled, Placed;
    assert ([a] + args)[1..] == args;
    PrintsOne(f, 's', more, [a] + args);
    NoFill(Convert('s', SpecOf(f), [a] + args).text);
  }

  lemma NoFill(t: string)
    ensures Repeat('0', 0 - |t|) + t == t
  {
  }

  /** %c prints one character, and so does any other character behind %, which takes no argument */
  lemma PrintsCharacter(f: Flags, ch: char, n: nat, more: string, args: seq<Arg>)
    requires Proper(f) && Ends(ch) && ch != '\0' && (ch == 'c' || !Takes(ch))
    ensures Output(['%'] + Spelled(f) + ['c'] + more, [Num(n)] + args)
      == Placed(f, f.zero, [], [(n % WORD % 256) as char]) + Output(more, args)
    ensures ch != 'c' ==>
      Output(['%'] + Spelled(f) + [ch] + more, args) == Placed(f, f.zero, [], [ch]) + Output(more, args)
  {
    hide Output, Spelled, Placed;
    NumIs(n, args);
    PrintsOne(f, 'c', more, [Num(n)] + args);
    NoFill([(n % WORD % 256) as char]);
    if ch != 'c' {
      PrintsOne(f, ch, more, args);
      NoFill([ch]);
    }
  }

  /** %n takes an argument and prints nothing */
  lemma PrintsNothing(f: Flags, a: Arg, more: string, args: seq<Arg>)
    requires Proper(f)
    ensures Output(['%'] + Spelled(f) + ['n'] + more, [a] + args) == Output(more, args)
  {
    hide Output, Parse, Emit, Convert, Spelled;
    var fmt := ['%'] + Spelled(f) + ['n'] + more;
    assert fmt[1..] == Spelled(f) + (['n'] + more);
    ParseSpelled(f, 'n', more, [a] + args);
    OutputStep(fmt, [a] + args);
    assert ([a] + args)[1..] == args;
  }

  /** Text without % prints itself */
  lemma {:induction false} PrintsItself(t: string, more: string, args: seq<Arg>)
    requires '%' !in t
    ensures Output(t + more, args) == t + Output(more, args)
    decreases t
  {
    hide Output;
    if t == [] {
      assert t + more == more && [] + Output(more, args) == Output(more, args);
    } else {
      assert (t + more)[1..] == t[1..] + more;
      OutputStep(t + more, args);
      PrintsItself(t[1..], more, args);
      assert [t[0]] + (t[1..] + Output(more, args)) == t + Output(more, args);
    }
  }

  /** A width given as an argument: as if it was spelled, a negative one behind '-' */
  lemma WidthFromArgument(w: int, more: string, args: seq<Arg>, s: Spec)
    requires w < WORD / 2 && w + WORD / 2 > 0 && more != [] && !Decimal(more[0]) && s.width == 0
    ensures var all := [Num(w % WORD)] + args; var d := Digits(Abs(w), 10, false);
      && (w > 0 ==> Parse(['*'] + more, all, s) == Parse(d + more, args, s))
      && (w < 0 ==> Parse(['*'] + more, all, s) == Parse(['-'] + (d + more), args, s))
  {
    hide Parse, Digits, DigitRun, Value, Signed;
    var d := Digits(Abs(w), 10, false);
    NumIs(w % WORD, args);
    WordOfSigned(w);
    assert (['*'] + more)[1..] == more;
    ParseStep(['*'] + more, [Num(w % WORD)] + args, s);
    if w > 0 {
      ParseWidth(w, more, args, s);
    } else if w < 0 {
      ParseFlag(true, '-', d + more, args, s, s.(left := true));
      ParseWidth(-w, more, args, s.(left := true));
    }
  }

  /** So is a precision, a negative one as none */
  lemma PrecisionFromArgument(p: int, more: string, args: seq<Arg>, s: Spec)
    requires p < WORD / 2 && p + WORD / 2 > 0 && more != [] && !Decimal(more[0]) && s.prec == -1
    ensures Parse(['.', '*'] + more, [Num(p % WORD)] + args, s)
      == if p < 0 then Parse(more, args, s) else Parse(['.'] + (Digits(Abs(p), 10, false) + more), args, s)
  {
    hide Parse, Digits, DigitRun, Value;
    var d := Digits(Abs(p), 10, false);
    NumIs(p % WORD, args);
    WordOfSigned(p);
    assert (['.', '*'] + more)[1..] == ['*'] + more && (['*'] + more)[1..] == more && (['*'] + more)[0] == '*';
    ParseStep(['.', '*'] + more, [Num(p % WORD)] + args, s);
    if p >= 0 {
      RunOf(p, more);
      assert (['.'] + (d + more))[1..] == d + more;
      ParseStep(['.'] + (d + more), args, s);
    }
  }

  lemma WordOfSigned(w: int)
    requires w < WORD / 2 && w + WORD / 2 > 0
    ensures Signed(w % WORD % WORD) == w
  {
  }

  // --- reading back what was printed ---

  lemma OutputNone(args: seq<Arg>)
    ensures Output([], args) == []
  {
  }

  const LONG: Flags := Flags(false, false, false, '\0', 0, -1, 'l')

  /** %lu prints a number's decimal digits, in any format */
  lemma PrintsDecimal(n: nat, more: string, args: seq<Arg>)
    requires n < WORD
    ensures Output("%lu" + more, [Num(n)] + args) == Digits(n, 10, false) + Output(more, args)
  {
    hide Output, Digits;
    PrintsUnsigned(LONG, 'u', n, more, args);
    assert ['%'] + Spelled(LONG) + ['u'] + more == "%lu" + more;
    NoPrecision(Digits(n, 10, false));
    Bare(LONG, false, [], Digits(n, 10, false));
  }

  /** A text in no width, and figures without a precision */
  lemma Bare(f: Flags, zero: bool, prefix: string, body: string)
    requires f.width == 0
    ensures Placed(f, zero, prefix, body) == prefix + body
  {
  }

  lemma NoPrecision(d: string)
    ensures Repeat('0', -1 - |d|) + d == d && [] + d == d
  {
  }

  lemma SpelledAlternate(ch: char)
    ensures ['%'] + Spelled(LONG.(alt := true)) + [ch] + [] == ['%', '#', 'l', ch]
  {
  }

  const INT: Flags := LONG.(size := '\0')

  /** %d prints a number's decimal digits behind a '-' if it is negative, in any format */
  lemma PrintsInt(v: int, more: string, args: seq<Arg>)
    requires v < WORD / 2 && v + WORD / 2 >= 0
    ensures Output("%d" + more, [Num(v % WORD)] + args)
      == (if v < 0 then "-" else []) + Digits(Abs(v), 10, false) + Output(more, args)
  {
    hide Output, Digits, Placed;
    PrintsSigned(INT, 'd', v, v % WORD, more, args);
    assert ['%'] + Spelled(INT) + ['d'] + more == "%d" + more;
    NoPrecision(Digits(Abs(v), 10, false));
    Bare(INT, false, if v < 0 then "-" else [], Digits(Abs(v), 10, false));
  }

  /** %#lx, %#lX and %#lo print a prefix that names the base, but for 0 */
  lemma PrintsAlternate(n: nat, ch: char)
    requires n < WORD && ch in {'x', 'X', 'o'}
    ensures Output(['%', '#', 'l', ch], [Num(n)]) ==
      if ch == 'o' then (var d := Digits(n, 8, false); if d[0] != '0' then ['0'] + d else d)
      else if n == 0 then "0" else ['0', ch] + Digits(n, 16, ch == 'X')
  {
    hide Output, Digits, Spelled, Placed, Figures;
    var f := LONG.(alt := true);
    PrintsUnsigned(f, ch, n, [], []);
    OutputNone([]);
    SpelledAlternate(ch);
    assert [Num(n)] + [] == [Num(n)];
    if ch == 'o' { AlternateOctal(f, n); } else { AlternateHex(f, n, ch); }
  }

  lemma AlternateOctal(f: Flags, n: nat)
    requires f.width == 0 && f.prec == -1
    ensures var d := Digits(n, 8, false); var e := ['0'] + d;
      Placed(f, false, [], if n > 0 then Repeat('0', f.prec - |e|) + e else Figures(n, 8, false, f.prec)) + []
        == if d[0] != '0' then e else d
  {
    hide Digits, Placed, Repeat;
    var d := Digits(n, 8, false);
    DigitsValue(n, 8, false);
    ZeroDigits(8, false);
    NoPrecision(['0'] + d);
    NoPrecision(d);
    var body := if n > 0 then ['0'] + d else d;
    Bare(f, false, [], body);
    assert [] + body + [] == body;
  }

  lemma AlternateHex(f: Flags, n: nat, ch: char)
    requires f.width == 0 && f.prec == -1
    ensures var d := Digits(n, 16, ch == 'X');
      Placed(f, false, if n > 0 then ['0', ch] else [], Figures(n, 16, ch == 'X', f.prec)) + []
        == if n == 0 then "0" else ['0', ch] + d
  {
    hide Digits, Placed, Repeat;
    var d := Digits(n, 16, ch == 'X');
    ZeroDigits(16, ch == 'X');
    NoPrecision(d);
    var prefix := if n > 0 then ['0', ch] else [];
    Bare(f, false, prefix, d);
    assert prefix + d + [] == prefix + d && [] + d == d;
  }

  lemma SpelledPadded(w: nat)
    requires w > 0
    ensures ['%'] + Spelled(LONG.(zero := true, width := w)) + ['x'] + [] == "%0" + Digits(w, 10, false) + "lx"
  {
    hide Digits;
    var d := Digits(w, 10, false);
    assert [] + ([] + ([] + (['0'] + (d + ([] + ['l']))))) == ['0'] + d + ['l'];
  }

  lemma PaddedHex(f: Flags, n: nat)
    requires !f.left && f.prec == -1
    ensures var d := Digits(n, 16, false);
      Placed(f, true, [], Figures(n, 16, false, f.prec)) + [] == Repeat('0', f.width - |d|) + d
  {
    hide Digits, Repeat;
    var d := Digits(n, 16, false);
    NoPrecision(d);
    assert [] + Repeat('0', f.width - |d|) + d + [] == Repeat('0', f.width - |d|) + d;
  }

  /** %0<w>lx prints at least `w` digits */
  lemma PrintsPadded(n: nat, w: nat)
    requires n < WORD && w > 0
    ensures var d := Digits(n, 16, false);
      Output("%0" + Digits(w, 10, false) + "lx", [Num(n)]) == Repeat('0', w - |d|) + d
  {
    hide Output, Digits, Repeat, Spelled, Placed, Figures;
    var f := LONG.(zero := true, width := w);
    PrintsUnsigned(f, 'x', n, [], []);
    OutputNone([]);
    SpelledPadded(w);
    assert [Num(n)] + [] == [Num(n)];
    PaddedHex(f, n);
  }

  /** Whatever is printed by %lu, %#lx, %#lX or %#lo, the reader gets back in base 0, and by
      %0<w>lx in base 16, stopping at the terminator */
  lemma PrintedIsRead(n: nat, w: nat)
    requires n < WORD && w > 0
    ensures var s := Output("%lu", [Num(n)]); StrtoulOf(s, 0, 0) == (n, |s|)
    ensures var s := Output("%#lx", [Num(n)]); StrtoulOf(s, 0, 0) == (n, |s|)
    ensures var s := Output("%#lX", [Num(n)]); StrtoulOf(s, 0, 0) == (n, |s|)
    ensures var s := Output("%#lo", [Num(n)]); StrtoulOf(s, 0, 0) == (n, |s|)
    ensures var s := Output("%0" + Digits(w, 10, false) + "lx", [Num(n)]); StrtoulOf(s, 0, 16) == (n, |s|)
  {
    hide *;
    DecimalRead(n);
    AlternateRead(n, 'x');
    AlternateRead(n, 'X');
    AlternateRead(n, 'o');
    PrintsPadded(n, w);
    var k := w - |Digits(n, 16, false)|;
    ReadsPadded(n, if k > 0 then k else 0);
  }

  lemma DecimalRead(n: nat)
    requires n < WORD
    ensures var s := Output("%lu", [Num(n)]); StrtoulOf(s, 0, 0) == (n, |s|)
  {
    hide Output, Digits, StrtoulOf, DigitOf;
    PrintsDecimal(n, [], []);
    OutputNone([]);
    var d := Digits(n, 10, false);
    assert "%lu" + [] == "%lu" && [Num(n)] + [] == [Num(n)] && d + [] == d;
    assert d[0..0 + |d|] == d;
    Terminator(d);
    ReadsDecimal(d, 0, n, 0);
  }

  lemma AlternateRead(n: nat, ch: char)
    requires n < WORD && ch in {'x', 'X', 'o'}
    ensures var s := Output(['%', '#', 'l', ch], [Num(n)]); StrtoulOf(s, 0, 0) == (n, |s|)
  {
    hide Output, Digits, StrtoulOf, DigitOf;
    PrintsAlternate(n, ch);
    if ch == 'o' {
      ReadsOctal(n);
    } else if n == 0 {
      ReadsOctal(0);
      ZeroDigits(8, false);
    } else {
      ReadsPrefixed(n, ch == 'X', ch);
    }
  }

  // --- addresses ---

  /** Reads an address in dotted decimal; the result is 0 if a dot is missing */
  method ParseIp(ip: string) returns (num: nat)
    ensures num == IpOf(ip)
  {
    hide StrtoulOf;
    var pos;
    num, pos := Strtoul(ip, 0, 10);
    num := num % 256;
    if CharAt(ip, pos) != '.' { return 0; }
    pos := pos + 1;
    var part: nat;
    part, pos := Strtoul(ip, pos, 10);
    num := num * 256 + part % 256;
    if CharAt(ip, pos) != '.' { return 0; }
    pos := pos + 1;
    part, pos := Strtoul(ip, pos, 10);
    num := num * 256 + part % 256;
    if CharAt(ip, pos) != '.' { return 0; }
    pos := pos + 1;
    part, pos := Strtoul(ip, pos, 10);
    num := num * 256 + part % 256;
  }

  function IpOf(s: string): nat {
    var (a, p) := StrtoulOf(s, 0, 10);
    if CharAt(s, p) != '.' then 0 else
      var (b, q) := StrtoulOf(s, p + 1, 10);
      if CharAt(s, q) != '.' then 0 else
        var (c, r) := StrtoulOf(s, q + 1, 10);
        if CharAt(s, r) != '.' then 0 else
          var (d, _) := StrtoulOf(s, r + 1, 10);
          ((a % 256 * 256 + b % 256) * 256 + c % 256) * 256 + d % 256
  }

  /** Whatever is read as an address but 0 has three dots in it */
  lemma IpNeedsDots(s: string)
    ensures IpOf(s) != 0 ==> exists p, q, r :: 0 <= p < q < r < |s| && s[p] == '.' && s[q] == '.' && s[r] == '.'
  {
    hide StrtoulOf;
    var p := StrtoulOf(s, 0, 10).1;
    StopsInside(s, 0, 10);
    if CharAt(s, p) == '.' {
      var q := StrtoulOf(s, p + 1, 10).1;
      StopsInside(s, p + 1, 10);
      if CharAt(s, q) == '.' {
        var r := StrtoulOf(s, q + 1, 10).1;
        StopsInside(s, q + 1, 10);
        if CharAt(s, r) == '.' {
          assert 0 <= p < q < r < |s| && s[p] == '.' && s[q] == '.' && s[r] == '.';
        }
      }
    }
  }

  /** The format prints four numbers with dots between them */
  lemma PrintsDotted(a: nat, b: nat, c: nat, d: nat)
    requires a < WORD && b < WORD && c < WORD && d < WORD
    ensures Output("%lu.%lu.%lu.%lu", [Num(a), Num(b), Num(c), Num(d)])
      == Digits(a, 10, false) + ("." + (Digits(b, 10, false) + ("." + (Digits(c, 10, false) + ("." + Digits(d, 10, false))))))
  {
    hide Output, Digits;
    OneDotted(a, "%lu.%lu.%lu", [Num(b), Num(c), Num(d)]);
    OneDotted(b, "%lu.%lu", [Num(c), Num(d)]);
    OneDotted(c, "%lu", [Num(d)]);
    LastDotted(d);
    DottedArgs(a, b, c, d);
    DottedFormats();
  }

  lemma DottedFormats()
    ensures "%lu." + "%lu" == "%lu.%lu" && "%lu." + "%lu.%lu" == "%lu.%lu.%lu"
    ensures "%lu." + "%lu.%lu.%lu" == "%lu.%lu.%lu.%lu"
  {
  }

  lemma DottedArgs(a: nat, b: nat, c: nat, d: nat)
    ensures [Num(c)] + [Num(d)] == [Num(c), Num(d)] && [Num(b)] + [Num(c), Num(d)] == [Num(b), Num(c), Num(d)]
    ensures [Num(a)] + [Num(b), Num(c), Num(d)] == [Num(a), Num(b), Num(c), Num(d)]
  {
  }

  lemma LastDotted(d: nat)
    requires d < WORD
    ensures Output("%lu", [Num(d)]) == Digits(d, 10, false)
  {
    hide Output, Digits;
    PrintsDecimal(d, [], []);
    OutputNone([]);
    assert "%lu" + [] == "%lu" && [Num(d)] + [] == [Num(d)] && Digits(d, 10, false) + [] == Digits(d, 10, false);
  }

  lemma OneDotted(n: nat, more: string, args: seq<Arg>)
    requires n < WORD
    ensures Output("%lu." + more, [Num(n)] + args) == Digits(n, 10, false) + ("." + Output(more, args))
  {
    hide Output, Digits;
    PrintsDecimal(n, "." + more, args);
    assert "%lu" + ("." + more) == "%lu." + more;
    OutputStep("." + more, args);
    assert ("." + more)[1..] == more;
  }

  lemma OnePart(before: string, n: nat, after: string)
    requires n < WORD && (after == [] || after[0] == '.')
    ensures var s := before + (Digits(n, 10, false) + after); var p := |before| + |Digits(n, 10, false)|;
      && StrtoulOf(s, |before|, 10) == (n, p) && (after != [] ==> CharAt(s, p) == '.')
  {
    hide Digits, StrtoulOf;
    var s := before + (Digits(n, 10, false) + after);
    var d := Digits(n, 10, false);
    assert s[|before|..|before| + |d|] == d;
    assert after != [] ==> s[|before| + |d|] == after[0];
    ReadsDecimal(s, |before|, n, 10);
  }

  lemma DottedParts(x: string, y: string, z: string, w: string)
    ensures var s := x + ("." + (y + ("." + (z + ("." + w)))));
      && s == [] + (x + ("." + (y + ("." + (z + ("." + w))))))
      && s == (x + ".") + (y + ("." + (z + ("." + w))))
      && s == (x + "." + y + ".") + (z + ("." + w))
      && s == (x + "." + y + "." + z + ".") + (w + [])
  {
  }

  /** Dotted decimal printing is undone by reading the address, the parts taken modulo 256 */
  lemma PrintedIpIsRead(a: nat, b: nat, c: nat, d: nat)
    requires a < WORD && b < WORD && c < WORD && d < WORD
    ensures IpOf(Output("%lu.%lu.%lu.%lu", [Num(a), Num(b), Num(c), Num(d)]))
      == ((a % 256 * 256 + b % 256) * 256 + c % 256) * 256 + d % 256
  {
    hide Output, Digits, StrtoulOf, CharAt;
    var x, y, z, w := Digits(a, 10, false), Digits(b, 10, false), Digits(c, 10, false), Digits(d, 10, false);
    var s := x + ("." + (y + ("." + (z + ("." + w)))));
    PrintsDotted(a, b, c, d);
    DottedParts(x, y, z, w);
    OnePart([], a, "." + (y + ("." + (z + ("." + w)))));
    OnePart(x + ".", b, "." + (z + ("." + w)));
    OnePart(x + "." + y + ".", c, "." + w);
    OnePart(x + "." + y + "." + z + ".", d, []);
  }
}
