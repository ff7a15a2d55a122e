/** A 32-bit feedback shift register fed one bit at a time, least significant bit
    first.  `p` holds the feedback taps. */
module ShiftRegister {
  import opened Bits

  function Step(p: Word, c: Word, d: bool): Word {
    Xor(Shr(c, 1), if d != c[0] then p else ZERO)
  }

  /** A whole stream through the register, first bit first */
  function Fold(p: Word, c: Word, s: Stream): Word
    decreases s
  {
    if s == [] then c else Fold(p, Step(p, c, s[0]), s[1..])
  }

  lemma {:induction false} FoldAppend(p: Word, c: Word, a: Stream, b: Stream)
    ensures Fold(p, c, a + b) == Fold(p, Fold(p, c, a), b)
    decreases a
  {
    if a == [] {
      assert a + b == b;
    } else {
      assert (a + b)[1..] == a[1..] + b;
      FoldAppend(p, Step(p, c, a[0]), a[1..], b);
    }
  }

  lemma FoldNone(p: Word, c: Word)
    ensures Fold(p, c, []) == c
  {
  }

  lemma FoldLast(p: Word, c: Word, s: Stream, d: bool)
    ensures Fold(p, c, s + [d]) == Step(p, Fold(p, c, s), d)
  {
    FoldAppend(p, c, s, [d]);
  }

  lemma StepLinear(p: Word, c: Word, d: bool, e: Word, f: bool)
    ensures Step(p, Xor(c, e), d != f) == Xor(Step(p, c, d), Step(p, e, f))
  {
  }

  /** The register is linear over GF(2) in its contents and its input together */
  lemma {:induction false} FoldLinear(p: Word, c: Word, a: Stream, e: Word, b: Stream)
    requires |a| == |b|
    ensures Fold(p, Xor(c, e), Xor(a, b)) == Xor(Fold(p, c, a), Fold(p, e, b))
    decreases a
  {
    if a != [] {
      assert Xor(a, b)[1..] == Xor(a[1..], b[1..]);
      StepLinear(p, c, a[0], e, b[0]);
      FoldLinear(p, Step(p, c, a[0]), a[1..], Step(p, e, b[0]), b[1..]);
    }
  }

  lemma StepInjective(p: Word, c: Word, e: Word, d: bool)
    requires p[31]
    requires Step(p, c, d) == Step(p, e, d)
    ensures c == e
  {
    assert Step(p, c, d)[31] == (d != c[0]);
    assert Step(p, e, d)[31] == (d != e[0]);
    forall i | 0 < i < 32 ensures c[i] == e[i] {
      assert Step(p, c, d)[i - 1] == (c[i] != ((d != c[0]) && p[i - 1]));
      assert Step(p, e, d)[i - 1] == (e[i] != ((d != e[0]) && p[i - 1]));
    }
  }

  /** No information is lost by folding the same stream into two registers */
  lemma {:induction false} FoldInjective(p: Word, c: Word, e: Word, s: Stream)
    requires p[31]
    requires Fold(p, c, s) == Fold(p, e, s)
    ensures c == e
    decreases s
  {
    if s != [] {
      FoldInjective(p, Step(p, c, s[0]), Step(p, e, s[0]), s[1..]);
      StepInjective(p, c, e, s[0]);
    }
  }

  lemma StepPreload(p: Word, c: Word, s: Stream)
    requires 0 < |s| <= 32
    ensures Step(p, Xor(c, Pack(s)), false) == Xor(Step(p, c, s[0]), Pack(s[1..]))
  {
    var k := Pack(s);
  }

  /** Up to 32 data bits may be loaded into the register instead of shifted through it */
  lemma {:induction false} FoldPreload(p: Word, c: Word, s: Stream)
    requires |s| <= 32
    ensures Fold(p, c, s) == Fold(p, Xor(c, Pack(s)), Fill(|s|, false))
    decreases s
  {
    if s == [] {
    } else {
      StepPreload(p, c, s);
      FoldPreload(p, Step(p, c, s[0]), s[1..]);
      assert Fill(|s|, false)[1..] == Fill(|s[1..]|, false);
    }
  }

  /** Zeros shifted into an empty register leave it empty */
  lemma {:induction false} FoldZero(p: Word, n: nat)
    ensures Fold(p, ZERO, Fill(n, false)) == ZERO
  {
    if n > 0 {
      StepZero(p, false);
      assert Fill(n, false)[1..] == Fill(n - 1, false);
      FoldZero(p, n - 1);
    }
  }

  /** Sending the register's own contents, least significant bit first, empties it */
  lemma FoldSelf(p: Word, c: Word)
    ensures Fold(p, c, c) == ZERO
  {
    XorPackSelf(c);
    FoldPreload(p, c, c);
    FoldZero(p, |c|);
  }

  lemma StepClear(p: Word, c: Word)
    requires !c[0]
    ensures Step(p, c, false) == Shr(c, 1)
  {
  }

  /** A register whose low bits are clear only shifts */
  lemma {:induction false} FoldHigh(p: Word, c: Word, n: nat)
    requires n <= 32 && forall i :: 0 <= i < n ==> !c[i]
    ensures Fold(p, c, Fill(n, false)) == Shr(c, n)
    decreases n
  {
    if n == 0 {
    } else {
      assert Fill(n, false)[1..] == Fill(n - 1, false);
      StepClear(p, c);
      FoldHigh(p, Shr(c, 1), n - 1);
      ShrAdd(c, 1, n - 1);
    }
  }

  // --- error detection ---

  /** Every change confined to `n` consecutive bits of a stream changes its check word */
  ghost predicate DetectsWindow(p: Word, n: nat) {
    forall c: Word, pre: Stream, a: Stream, b: Stream, post: Stream ::
      |a| == n && |b| == n && a != b ==> Fold(p, c, pre + a + post) != Fold(p, c, pre + b + post)
  }

  lemma ShortFoldInjective(p: Word, c: Word, a: Stream, b: Stream)
    requires p[31] && |a| == |b| <= 32
    requires Fold(p, c, a) == Fold(p, c, b)
    ensures a == b
  {
    var x, y := Xor(c, Pack(a)), Xor(c, Pack(b));
    FoldPreload(p, c, a); FoldPreload(p, c, b);
    FoldInjective(p, x, y, Fill(|a|, false));
    forall i | 0 <= i < |a| ensures a[i] == b[i] {
      assert x[i] == (c[i] != a[i]);
      assert y[i] == (c[i] != b[i]);
    }
  }

  lemma WindowChangesCheck(p: Word, c: Word, pre: Stream, a: Stream, b: Stream, post: Stream)
    requires p[31] && |a| == |b| <= 32 && a != b
    ensures Fold(p, c, pre + a + post) != Fold(p, c, pre + b + post)
  {
    var r := Fold(p, c, pre);
    FoldAppend(p, c, pre + a, post); FoldAppend(p, c, pre + b, post);
    FoldAppend(p, c, pre, a); FoldAppend(p, c, pre, b);
    if Fold(p, Fold(p, r, a), post) == Fold(p, Fold(p, r, b), post) {
      FoldInjective(p, Fold(p, r, a), Fold(p, r, b), post);
      ShortFoldInjective(p, r, a, b);
    }
  }

  /** The 33 bits of the generator go undetected */
  lemma GeneratorUndetected(p: Word)
    ensures Fold(p, ZERO, [true] + p) == ZERO
  {
    var g := [true] + p;
    assert g[0] && g[1..] == p;
    StepZero(p, true);
    FoldSelf(p, p);
  }

  lemma StepZero(p: Word, d: bool)
    ensures Step(p, ZERO, d) == if d then p else ZERO
  {
  }

  lemma Collision(p: Word, a: Stream, b: Stream)
    requires |a| == |b| && a != b
    requires Fold(p, ZERO, a) == Fold(p, ZERO, b)
    ensures !DetectsWindow(p, |a|)
  {
    var e: Stream := [];
    NoContext(a);
    NoContext(b);
    assert Fold(p, ZERO, e + a + e) == Fold(p, ZERO, e + b + e);
  }

  lemma NoContext(s: Stream)
    ensures [] + s + [] == s
  {
  }

  lemma LongWindowMissed(p: Word, n: nat)
    requires n > 32
    ensures !DetectsWindow(p, n)
  {
    var g, z := [true] + p, Fill(n - 33, false);
    GeneratorUndetected(p);
    FoldAppend(p, ZERO, g, z);
    FoldZero(p, |z|);
    FoldZero(p, n);
    assert (g + z)[0] != Fill(n, false)[0];
    Collision(p, g + z, Fill(n, false));
  }

  /** Detection is guaranteed for windows of at most 32 bits and for no longer ones */
  lemma DetectsWindowIff(p: Word, n: nat)
    requires p[31]
    ensures DetectsWindow(p, n) <==> n <= 32
  {
    if n <= 32 {
      forall c: Word, pre: Stream, a: Stream, b: Stream, post: Stream
        | |a| == n && |b| == n && a != b
        ensures Fold(p, c, pre + a + post) != Fold(p, c, pre + b + post)
      {
        WindowChangesCheck(p, c, pre, a, b, post);
      }
    } else {
      LongWindowMissed(p, n);
    }
  }

  // --- the same register shifting the other way ---

  /** Most-significant-bit-first step with feedback taps `q` */
  function StepUp(q: Word, c: Word, d: bool): Word {
    Xor(Shl(c, 1), if d != c[31] then q else ZERO)
  }

  function FoldUp(q: Word, c: Word, s: Stream): Word
    decreases s
  {
    if s == [] then c else FoldUp(q, StepUp(q, c, s[0]), s[1..])
  }

  lemma StepMirror(q: Word, c: Word, d: bool)
    ensures Reversed(StepUp(q, c, d)) == Step(Reversed(q), Reversed(c), d)
  {
    var t := if d != c[31] then q else ZERO;
    ReversedXor(Shl(c, 1), t);
    ReversedShl(c, 1);
    ReversedZero();
  }

  /** On every bit sequence the two directions hold mirror images of each other */
  lemma {:induction false} FoldMirror(q: Word, c: Word, s: Stream)
    ensures Reversed(FoldUp(q, c, s)) == Fold(Reversed(q), Reversed(c), s)
    decreases s
  {
    if s == [] {
      FoldUpNone(q, c);
      FoldNone(Reversed(q), Reversed(c));
    } else {
      FoldMirror(q, StepUp(q, c, s[0]), s[1..]);
      StepMirror(q, c, s[0]);
    }
  }

  lemma FoldUpNone(q: Word, c: Word)
    ensures FoldUp(q, c, []) == c
  {
  }

  lemma {:induction false} FoldUpAppend(q: Word, c: Word, a: Stream, b: Stream)
    ensures FoldUp(q, c, a + b) == FoldUp(q, FoldUp(q, c, a), b)
    decreases a
  {
    if a == [] {
      assert a + b == b;
    } else {
      assert (a + b)[1..] == a[1..] + b;
      FoldUpAppend(q, StepUp(q, c, a[0]), a[1..], b);
    }
  }

  lemma FoldUpLast(q: Word, c: Word, s: Stream, d: bool)
    ensures FoldUp(q, c, s + [d]) == StepUp(q, FoldUp(q, c, s), d)
  {
    FoldUpAppend(q, c, s, [d]);
  }

  /** Sending the register's own contents, most significant bit first, empties it */
  lemma FoldUpSelf(q: Word, c: Word)
    ensures FoldUp(q, c, Reversed(c)) == ZERO
  {
    hide *;
    FoldMirror(q, c, Reversed(c));
    FoldSelf(Reversed(q), Reversed(c));
    ReversedZero();
    ReversedTwice(FoldUp(q, c, Reversed(c)));
  }

  // --- several bits at a time ---

  /** `|b|` steps with one table lookup: the low bits select the feedback, the rest shifts */
  lemma StepMany(p: Word, c: Word, b: Stream)
    requires |b| <= 32
    ensures Fold(p, c, b) == Xor(Fold(p, Pack(Xor(c[..|b|], b)), Fill(|b|, false)), Shr(c, |b|))
  {
    var z := Fill(|b|, false);
    var lo, hi := Pack(Xor(c[..|b|], b)), Shl(Shr(c, |b|), |b|);
    FoldPreload(p, c, b);
    SplitLow(c, b);
    XorZeros(|b|);
    FoldLinear(p, lo, z, hi, z);
    FoldHigh(p, hi, |b|);
    ShrShl(c, |b|);
  }

  lemma SplitLow(c: Word, b: Stream)
    requires |b| <= 32
    ensures Xor(c, Pack(b)) == Xor(Pack(Xor(c[..|b|], b)), Shl(Shr(c, |b|), |b|))
  {
  }
}
