/** The monitor's number reader and the digits its printer writes. */
module Numerals {
  const WORD: nat := 0x1_0000_0000

  // --- digits ---

  function DigitChar(d: nat, upper: bool): char
    requires d < 16
  {
    if d < 10 then '0' + (d as char) else if upper then 'A' + ((d - 10) as char) else 'a' + ((d - 10) as char)
  }

  /** What the number reader makes of a character; 40 where it gives up at once */
  function DigitOf(c: char): nat {
    if '0' <= c <= '9' then c as nat - '0' as nat
    else if c >= 'a' then c as nat - 'a' as nat + 10
    else if c >= 'A' then c as nat - 'A' as nat + 10
    else 40
  }

  lemma DigitOfChar(d: nat, upper: bool)
    requires d < 16
    ensures DigitOf(DigitChar(d, upper)) == d && DigitChar(d, upper) != 'x' && DigitChar(d, upper) != 'X'
    ensures DigitChar(d, upper) != ' ' && DigitChar(d, upper) != '\t' && (DigitChar(d, upper) == '0' <==> d == 0)
  {
  }

  function Quo(n: nat, base: nat): nat
    requires base > 0
  {
    n / base
  }

  function Rem(n: nat, base: nat): (r: nat)
    requires base > 0
    ensures r < base
  {
    n % base
  }

  /** The digits of `n`, most significant first, no leading zeros but for 0 itself */
  function Digits(n: nat, base: nat, upper: bool): (s: string)
    requires 2 <= base <= 16
    ensures s != []
    decreases n
  {
    Shrinks(n, base);
    (if n < base then [] else Digits(Quo(n, base), base, upper)) + [DigitChar(Rem(n, base), upper)]
  }

  /** The value of digits read left to right */
  function Value(s: string, base: nat): nat {
    if s == [] then 0 else Value(s[..|s| - 1], base) * base + DigitOf(s[|s| - 1])
  }

  predicate AllDigits(s: string, base: nat) {
    forall i :: 0 <= i < |s| ==> DigitOf(s[i]) < base
  }

  lemma ValueMore(s: string, c: char, base: nat)
    ensures Value(s + [c], base) == Value(s, base) * base + DigitOf(c)
  {
    assert (s + [c])[..|s|] == s;
  }

  lemma DigitsStep(n: nat, base: nat, upper: bool)
    requires 2 <= base <= 16
    ensures n < base ==> Digits(n, base, upper) == [DigitChar(Rem(n, base), upper)]
    ensures n >= base ==> Digits(n, base, upper) == Digits(Quo(n, base), base, upper) + [DigitChar(Rem(n, base), upper)]
    ensures n >= base ==> 0 < Quo(n, base) < n
  {
    hide DigitChar, Quo, Rem;
    Shrinks(n, base);
    var c := DigitChar(Rem(n, base), upper);
    assert [] + [c] == [c];
  }

  lemma Shrinks(n: nat, base: nat)
    requires 2 <= base
    ensures n >= base ==> 0 < Quo(n, base) < n
  {
    var q := Quo(n, base);
    DivMod(n, base);
    if n >= base {
      assert q * base >= q * 2;
    }
  }

  lemma {:induction false} DigitsValue(n: nat, base: nat, upper: bool)
    requires 2 <= base <= 16
    ensures Value(Digits(n, base, upper), base) == n && AllDigits(Digits(n, base, upper), base)
    ensures n > 0 ==> Digits(n, base, upper)[0] != '0'
    ensures Digits(n, base, upper)[0] !in {' ', '\t', 'x', 'X'}
    decreases n
  {
    hide Digits, DigitChar, DigitOf, Value, Quo, Rem;
    var c := DigitChar(Rem(n, base), upper);
    DivMod(n, base);
    DigitOfChar(Rem(n, base), upper);
    DigitsStep(n, base, upper);
    if n < base {
      ValueMore([], c, base);
      assert [] + [c] == [c];
      ValueNone(base);
    } else {
      DigitsValue(Quo(n, base), base, upper);
      ValueMore(Digits(Quo(n, base), base, upper), c, base);
      DivMod(n, base);
    }
  }

  lemma ValueNone(base: nat)
    ensures Value([], base) * base == 0 && Value([], base) == 0
  {
  }

  lemma DivMod(n: nat, base: nat)
    requires base > 0
    ensures Quo(n, base) * base + Rem(n, base) == n
    ensures n < base ==> Rem(n, base) == n && Quo(n, base) == 0
  {
  }

  function Repeat(c: char, n: int): (s: string)
    ensures |s| == if n > 0 then n else 0
    ensures forall i :: 0 <= i < |s| ==> s[i] == c
  {
    if n > 0 then seq(n, _ => c) else []
  }

  /** Leading zeros change nothing */
  lemma {:induction false} ZerosValue(k: nat, s: string, base: nat)
    ensures Value(Repeat('0', k) + s, base) == Value(s, base)
    decreases k + |s|
  {
    var z := Repeat('0', k);
    if s != [] {
      assert (z + s)[..|z + s| - 1] == z + s[..|s| - 1];
      ZerosValue(k, s[..|s| - 1], base);
    } else if k > 0 {
      assert z + s == z && z[..k - 1] == Repeat('0', k - 1);
      ZerosValue(k - 1, s, base);
      assert Repeat('0', k - 1) + s == Repeat('0', k - 1);
    } else {
      assert z + s == s;
    }
  }

  // --- reading ---

  /** The character at `pos`, the terminator behind the last */
  function CharAt(s: string, pos: nat): char {
    if pos < |s| then s[pos] else '\0'
  }

  predicate Space(c: char) {
    c == ' ' || c == '\t'
  }

  function SkipSpace(s: string, pos: nat): (p: nat)
    requires pos <= |s|
    ensures pos <= p <= |s|
    decreases |s| - pos
  {
    if Space(CharAt(s, pos)) then SkipSpace(s, pos + 1) else pos
  }

  /** A number being read: its base, the next position, the position to report, the value */
  datatype Reading = Reading(base: nat, pos: nat, failed: nat, number: nat)

  /** Behind an optional prefix */
  function Prefix(s: string, start: nat, base: nat): (r: Reading)
    requires start <= |s|
    ensures start <= r.pos <= |s|
  {
    var zero := CharAt(s, start) == '0';
    var x := zero && (CharAt(s, start + 1) == 'x' || CharAt(s, start + 1) == 'X');
    if base == 16 && zero then Reading(16, if x then start + 2 else start + 1, start + 1, 0)
    else if base == 0 && zero then Reading(if x then 16 else 8, if x then start + 2 else start + 1, start + 1, 0)
    else Reading(if base == 0 then 10 else base, start, 0, 0)
  }

  /** One more digit, in 32 bits */
  function Extend(number: nat, base: nat, digit: nat): (n: nat)
    ensures n < WORD
  {
    (number * base + digit) % WORD
  }

  function ReadDigits(s: string, r: Reading): Reading
    requires r.pos <= |s|
    decreases |s| - r.pos
  {
    if r.pos < |s| && 2 <= r.base <= 36 && DigitOf(s[r.pos]) < r.base
    then ReadDigits(s, r.(pos := r.pos + 1, failed := r.pos + 1, number := Extend(r.number, r.base, DigitOf(s[r.pos]))))
    else r
  }

  lemma SkipStep(s: string, pos: nat)
    requires pos <= |s|
    ensures Space(CharAt(s, pos)) ==> pos < |s| && SkipSpace(s, pos) == SkipSpace(s, pos + 1)
    ensures !Space(CharAt(s, pos)) ==> SkipSpace(s, pos) == pos
  {
  }

  lemma ReadStep(s: string, r: Reading)
    requires r.pos <= |s| && 2 <= r.base <= 36
    ensures r.pos <= |s| && DigitOf(CharAt(s, r.pos)) < r.base ==>
      r.pos < |s| && ReadDigits(s, r)
        == ReadDigits(s, r.(pos := r.pos + 1, failed := r.pos + 1, number := Extend(r.number, r.base, DigitOf(CharAt(s, r.pos)))))
    ensures DigitOf(CharAt(s, r.pos)) >= r.base ==> ReadDigits(s, r) == r
  {
  }

  /** The number read from position `from` on and where the reading stopped */
  function StrtoulOf(s: string, from: nat, base: nat): (r: (nat, nat))
    requires from <= |s|
  {
    var r := ReadDigits(s, Prefix(s, SkipSpace(s, from), base));
    (r.number, if r.failed == 0 then from else r.failed)
  }

  /** Reading goes forward and stays in the string */
  lemma StopsInside(s: string, from: nat, base: nat)
    requires from <= |s|
    ensures from <= StrtoulOf(s, from, base).1 <= |s|
  {
    var r := Prefix(s, SkipSpace(s, from), base);
    ReadsForward(s, r);
  }

  lemma {:induction false} ReadsForward(s: string, r: Reading)
    requires r.pos <= |s| && r.failed <= r.pos
    ensures var n := ReadDigits(s, r); (n.failed == r.failed || r.pos < n.failed) && n.failed <= n.pos <= |s|
    decreases |s| - r.pos
  {
    hide DigitOf, Extend;
    if r.pos < |s| && 2 <= r.base <= 36 && DigitOf(s[r.pos]) < r.base {
      ReadsForward(s, r.(pos := r.pos + 1, failed := r.pos + 1, number := Extend(r.number, r.base, DigitOf(s[r.pos]))));
    }
  }

  /** Reads a number from position `from` on in base `base`, or in the base its prefix tells if
      that is 0.  `endpos` is where it stopped, or where it began if there was none. */
  method Strtoul(s: string, from: nat, base: nat) returns (number: nat, endpos: nat)
    requires from <= |s|
    ensures from <= endpos <= |s|
    ensures (number, endpos) == StrtoulOf(s, from, base)
  {
    hide SkipSpace, ReadDigits, CharAt, Extend;
    var pos, b, failChar := from, base, 0;
    SkipStep(s, pos);
    while Space(CharAt(s, pos))
      invariant from <= pos <= |s| && SkipSpace(s, pos) == SkipSpace(s, from)
      decreases |s| - pos
    {
      SkipStep(s, pos);
      pos := pos + 1;
    }
    SkipStep(s, pos);
    InString(s, pos);
    ghost var start := pos;
    number := 0;
    if b == 16 && CharAt(s, pos) == '0' {
      pos := pos + 1;
      failChar := pos;
      if CharAt(s, pos) == 'x' || CharAt(s, pos) == 'X' { pos := pos + 1; }
    }
    if b == 0 {
      b := 10;
      if CharAt(s, pos) == '0' {
        pos := pos + 1;
        b := b - 2;
        failChar := pos;
        if CharAt(s, pos) == 'x' || CharAt(s, pos) == 'X' {
          b := b + 8;
          pos := pos + 1;
        }
      }
    }
    ghost var first := Prefix(s, start, base);
    assert first == Reading(b, pos, failChar, 0);
    if b < 2 || b > 36 {
      ReadIllegal(s, first);
    } else {
      while true
        invariant pos <= |s| && (failChar == 0 || from < failChar <= pos)
        invariant ReadDigits(s, Reading(b, pos, failChar, number)) == ReadDigits(s, first)
        decreases |s| - pos
      {
        var digit := 40;
        var c := CharAt(s, pos);
        ReadStep(s, Reading(b, pos, failChar, number));
        if '0' <= c <= '9' {
          digit := c as nat - '0' as nat;
        } else if c >= 'a' {
          digit := c as nat - 'a' as nat + 10;
        } else if c >= 'A' {
          digit := c as nat - 'A' as nat + 10;
        } else {
          break;
        }
        if digit >= b { break; }
        pos := pos + 1;
        failChar := pos;
        number := Extend(number, b, digit);
      }
    }
    endpos := if failChar == 0 then from else failChar;
  }

  lemma InString(s: string, pos: nat)
    requires pos <= |s|
    ensures CharAt(s, pos) == '0' ==> pos + 1 <= |s|
    ensures CharAt(s, pos + 1) == 'x' || CharAt(s, pos + 1) == 'X' ==> pos + 2 <= |s|
  {
  }

  lemma ReadIllegal(s: string, r: Reading)
    requires r.pos <= |s| && !(2 <= r.base <= 36)
    ensures ReadDigits(s, r) == r
  {
  }

  // --- reading what was printed ---

  /** Digits up to something that is none are read as their value */
  lemma {:induction false} ReadsValue(s: string, r: Reading, k: nat)
    requires r.pos + k <= |s| && 2 <= r.base <= 36 && r.number < WORD
    requires AllDigits(s[r.pos..r.pos + k], r.base) && DigitOf(CharAt(s, r.pos + k)) >= r.base
    ensures var t := s[r.pos..r.pos + k]; var n := ReadDigits(s, r);
      && n.failed == (if k == 0 then r.failed else r.pos + k) && n.pos == r.pos + k
      && n.number == Extend(r.number, Power(r.base, k), Value(t, r.base))
    decreases k
  {
    hide *;
    ReadStep(s, r);
    ValueNone(r.base);
    PowerStep(r.base, k);
    FirstDigit(s, r, k);
    if k == 0 {
      assert s[r.pos..r.pos + 0] == [];
      ReadsNone(r.number);
    } else {
      var t := s[r.pos..r.pos + k];
      assert t[1..] == s[r.pos + 1..r.pos + k];
      var d := DigitOf(t[0]);
      var n := r.(pos := r.pos + 1, failed := r.pos + 1, number := Extend(r.number, r.base, d));
      ReadsValue(s, n, k - 1);
      ValueFirst(t, r.base);
      ReadsMore(r.number, r.base, d, Power(r.base, k - 1), Value(t[1..], r.base));
    }
  }

  lemma FirstDigit(s: string, r: Reading, k: nat)
    requires r.pos + k <= |s| && AllDigits(s[r.pos..r.pos + k], r.base)
    ensures k > 0 ==> CharAt(s, r.pos) == s[r.pos..r.pos + k][0] && DigitOf(CharAt(s, r.pos)) < r.base
    ensures k > 0 ==> AllDigits(s[r.pos + 1..r.pos + k], r.base)
  {
    hide DigitOf;
    if k > 0 {
      var t := s[r.pos..r.pos + k];
      assert s[r.pos + 1..r.pos + k] == t[1..];
    }
  }

  lemma ReadsNone(n: nat)
    requires n < WORD
    ensures Extend(n, 1, 0) == n
  {
  }

  lemma ReadsMore(n: nat, b: nat, d: nat, p: nat, v: nat)
    ensures Extend(Extend(n, b, d), p, v) == Extend(n, b * p, d * p + v)
  {
    Wraps(n * b + d, p, v);
    Spread(n, b, d, p);
  }

  lemma PowerStep(b: nat, k: nat)
    ensures Power(b, 0) == 1 && (k > 0 ==> Power(b, k) == b * Power(b, k - 1))
  {
  }

  function Power(b: nat, k: nat): nat {
    if k == 0 then 1 else b * Power(b, k - 1)
  }

  lemma Wraps(a: nat, p: nat, v: nat)
    ensures (a % WORD * p + v) % WORD == (a * p + v) % WORD
  {
    var q, m := a / WORD, a % WORD;
    assert a == q * WORD + m;
    Regroup(q, m, p, v);
    Multiple(m * p + v, q * p);
  }

  lemma Regroup(q: nat, m: nat, p: nat, v: nat)
    ensures (q * WORD + m) * p + v == (m * p + v) + (q * p) * WORD
  {
  }

  lemma {:induction false} Multiple(a: nat, k: nat)
    ensures (a + k * WORD) % WORD == a % WORD
    decreases k
  {
    if k > 0 {
      Multiple(a, k - 1);
      assert a + k * WORD == (a + (k - 1) * WORD) + WORD;
    }
  }

  lemma Spread(n: nat, b: nat, d: nat, p: nat)
    ensures (n * b + d) * p == n * (b * p) + d * p
  {
  }

  /** A value by its first digit */
  lemma {:induction false} ValueFirst(s: string, base: nat)
    requires s != []
    ensures Value(s, base) == DigitOf(s[0]) * Power(base, |s| - 1) + Value(s[1..], base)
    decreases s
  {
    hide DigitOf;
    var last := s[|s| - 1];
    if |s| == 1 {
      assert s[..0] == [] && s[1..] == [];
    } else {
      var front := s[..|s| - 1];
      ValueFirst(front, base);
      assert s[1..][..|s| - 2] == front[1..];
      Spread(DigitOf(s[0]), 1, 0, Power(base, |s| - 2));
      Shift(DigitOf(s[0]), Power(base, |s| - 2), Value(front[1..], base), base);
    }
  }

  lemma Shift(d: nat, p: nat, v: nat, b: nat)
    ensures (d * p + v) * b == d * (b * p) + v * b
  {
  }

  lemma ExtendZero(p: nat, v: nat)
    requires v < WORD
    ensures Extend(0, p, v) == v
  {
  }

  /** A number in its base's digits from `at` to `end`, behind a prefix that names the base */
  lemma ReadsNumber(s: string, from: nat, at: nat, end: nat, base: nat, b: nat, n: nat, failed: nat)
    requires from <= at <= end <= |s| && 2 <= b <= 16 && n < WORD && !Space(CharAt(s, from))
    requires Prefix(s, from, base) == Reading(b, at, failed, 0) && (at == end ==> failed == end && failed > 0)
    requires AllDigits(s[at..end], b) && Value(s[at..end], b) == n && DigitOf(CharAt(s, end)) >= b
    ensures StrtoulOf(s, from, base) == (n, end)
  {
    hide Value, DigitOf, Prefix, ReadDigits, Power, Extend, AllDigits;
    ReadsValue(s, Reading(b, at, failed, 0), end - at);
    assert s[at..at + (end - at)] == s[at..end];
    ExtendZero(Power(b, end - at), n);
  }

  lemma Terminator(s: string)
    ensures DigitOf(CharAt(s, |s|)) == 40
  {
  }

  /** Decimal digits are read back whatever follows that is no digit */
  lemma ReadsDecimal(s: string, from: nat, n: nat, base: nat)
    requires n < WORD && base in {0, 10}
    requires var d := Digits(n, 10, false); from + |d| <= |s| && s[from..from + |d|] == d
    requires var c := CharAt(s, from + |Digits(n, 10, false)|); DigitOf(c) >= 10 && c != 'x' && c != 'X'
    ensures StrtoulOf(s, from, base) == (n, from + |Digits(n, 10, false)|)
  {
    hide Digits, DigitOf, Value, StrtoulOf;
    var d := Digits(n, 10, false);
    DigitsValue(n, 10, false);
    assert s[from] == d[0];
    var end := from + |d|;
    if base == 0 && d[0] == '0' {
      ZeroDigits(10, false);
      assert s[from + 1..end] == [];
      ValueNone(8);
      ReadsNumber(s, from, from + 1, end, 0, 8, 0, from + 1);
    } else {
      ReadsNumber(s, from, from, end, base, 10, n, 0);
    }
  }

  lemma ZeroDigits(base: nat, upper: bool)
    requires 2 <= base <= 16
    ensures Digits(0, base, upper) == "0"
  {
    DigitsStep(0, base, upper);
    DivMod(0, base);
  }

  /** Hexadecimal digits behind 0x or 0X are read back in base 0 */
  lemma ReadsPrefixed(n: nat, upper: bool, x: char)
    requires n < WORD && x in {'x', 'X'}
    ensures var s := ['0', x] + Digits(n, 16, upper); StrtoulOf(s, 0, 0) == (n, |s|)
  {
    hide Digits, DigitOf, Value, StrtoulOf;
    var d := Digits(n, 16, upper);
    var s := ['0', x] + d;
    DigitsValue(n, 16, upper);
    assert s[2..|s|] == d;
    Terminator(s);
    ReadsNumber(s, 0, 2, |s|, 0, 16, n, 1);
  }

  /** Octal digits behind a 0 are read back in base 0 */
  lemma ReadsOctal(n: nat)
    requires n < WORD
    ensures var d := Digits(n, 8, false); var s := if d[0] != '0' then ['0'] + d else d;
      StrtoulOf(s, 0, 0) == (n, |s|)
  {
    hide Digits, DigitOf, Value, StrtoulOf;
    var d := Digits(n, 8, false);
    DigitsValue(n, 8, false);
    ZeroDigits(8, false);
    var s := if d[0] != '0' then ['0'] + d else d;
    Terminator(s);
    if n == 0 {
      assert s[1..1] == [];
      ValueNone(8);
      ReadsNumber(s, 0, 1, 1, 0, 8, 0, 1);
    } else {
      assert s[1..|s|] == d;
      ReadsNumber(s, 0, 1, |s|, 0, 8, n, 1);
    }
  }

  /** Hexadecimal digits behind any number of zeros are read back in base 16 */
  lemma ReadsPadded(n: nat, k: nat)
    requires n < WORD
    ensures var s := Repeat('0', k) + Digits(n, 16, false); StrtoulOf(s, 0, 16) == (n, |s|)
  {
    hide Digits, DigitOf, Value, StrtoulOf;
    var d := Digits(n, 16, false);
    DigitsValue(n, 16, false);
    ZeroDigits(16, false);
    var s := Repeat('0', k) + d;
    Terminator(s);
    ZeroIsDigit();
    if k == 0 && n > 0 {
      assert s == d && s[0..|s|] == d;
      ReadsNumber(s, 0, 0, |s|, 16, 16, n, 0);
    } else {
      var j := if k == 0 then 0 else k - 1;
      var rest := if k == 0 then [] else d;
      assert s[1..|s|] == Repeat('0', j) + rest;
      ZerosValue(j, rest, 16);
      ValueNone(16);
      ReadsNumber(s, 0, 1, |s|, 16, 16, n, 1);
    }
  }

  lemma ZeroIsDigit()
    ensures DigitOf('0') == 0
  {
  }

  // --- blanks, prefixes and the other bases ---

  predicate Blank(s: string) {
    forall i :: 0 <= i < |s| ==> Space(s[i])
  }

  lemma {:induction false} SkipsBlanks(s: string, from: nat, k: nat)
    requires from + k <= |s| && Blank(s[from..from + k]) && !Space(CharAt(s, from + k))
    ensures SkipSpace(s, from) == from + k
    decreases k
  {
    SkipStep(s, from);
    if k > 0 {
      assert s[from] == s[from..from + k][0];
      assert s[from + 1..from + k] == s[from..from + k][1..];
      SkipsBlanks(s, from + 1, k - 1);
    }
  }

  /** Digits of any base behind any number of blanks are read as their value in 32 bits, up to what is
      no digit; only base 16 would take a leading 0 for a prefix */
  lemma ReadsAnyBase(blanks: string, d: string, after: string, base: nat)
    requires Blank(blanks) && 2 <= base <= 36 && d != [] && AllDigits(d, base) && (base == 16 ==> d[0] != '0')
    requires DigitOf(CharAt(after, 0)) >= base
    ensures StrtoulOf(blanks + d + after, 0, base) == (Value(d, base) % WORD, |blanks| + |d|)
  {
    hide Value, DigitOf, ReadDigits, Power, SkipSpace;
    var s, k := blanks + d + after, |blanks|;
    assert s[0..0 + k] == blanks && s[k..k + |d|] == d && s[k] == d[0];
    assert CharAt(s, k + |d|) == CharAt(after, 0);
    DigitIsNoBlank(d[0], base);
    SkipsBlanks(s, 0, k);
    ReadsValue(s, Reading(base, k, 0, 0), |d|);
    assert Prefix(s, k, base) == Reading(base, k, 0, 0);
  }

  lemma DigitIsNoBlank(c: char, base: nat)
    requires DigitOf(c) < base <= 36
    ensures !Space(c)
  {
  }

  /** In base 16 hexadecimal digits are read behind 0x or 0X and any number of blanks */
  lemma ReadsHexadecimal(blanks: string, x: char, n: nat, upper: bool, after: string)
    requires Blank(blanks) && x in {'x', 'X'} && n < WORD && DigitOf(CharAt(after, 0)) >= 16
    ensures var d := Digits(n, 16, upper);
      StrtoulOf(blanks + (['0', x] + d + after), 0, 16) == (n, |blanks| + 2 + |d|)
  {
    hide Digits, Value, DigitOf, ReadDigits, Power, SkipSpace, Extend;
    var d := Digits(n, 16, upper);
    var s, k := blanks + (['0', x] + d + after), |blanks|;
    DigitsValue(n, 16, upper);
    assert s[0..0 + k] == blanks && s[k] == '0' && s[k + 1] == x && s[k + 2..k + 2 + |d|] == d;
    assert CharAt(s, k + 2 + |d|) == CharAt(after, 0);
    SkipsBlanks(s, 0, k);
    ReadsValue(s, Reading(16, k + 2, k + 1, 0), |d|);
    ExtendZero(Power(16, |d|), n);
  }

  /** Without digits nothing is read, but for the 0 of a prefix */
  lemma ReadsNothing(blanks: string, after: string, base: nat)
    requires Blank(blanks) && base <= 36 && !Space(CharAt(after, 0))
    requires DigitOf(CharAt(after, 0)) >= (if base == 0 then 10 else base)
    ensures CharAt(after, 0) != '0' ==> StrtoulOf(blanks + after, 0, base) == (0, 0)
    ensures base in {0, 16} ==> forall x | x in {'x', 'X'} ::
      DigitOf(CharAt(after, 0)) >= 16 ==> StrtoulOf(blanks + (['0', x] + after), 0, base) == (0, |blanks| + 1)
  {
    hide DigitOf, SkipSpace, Power, Value;
    var s, k := blanks + after, |blanks|;
    assert s[0..0 + k] == blanks && CharAt(s, k) == CharAt(after, 0);
    SkipsBlanks(s, 0, k);
    forall x | x in {'x', 'X'} && base in {0, 16} && DigitOf(CharAt(after, 0)) >= 16
      ensures StrtoulOf(blanks + (['0', x] + after), 0, base) == (0, |blanks| + 1)
    {
      var t := blanks + (['0', x] + after);
      assert t[0..0 + k] == blanks && t[k] == '0' && t[k + 1] == x && CharAt(t, k + 2) == CharAt(after, 0);
      SkipsBlanks(t, 0, k);
    }
  }
}
