/** Machine words as the bits they are shifted out as.

    The host code keeps data in 32-bit words and the scan chain sees single bits,
    least significant bit first.  A word is written here as its 32 bits in that
    order, and every C operator on words is written out position by position. */
module Bits {
  type Stream = seq<bool>
  type Word = w: Stream | |w| == 32 witness seq(32, _ => false)
  type Byte = b: Stream | |b| == 8 witness seq(8, _ => false)

  function Fill(n: nat, b: bool): (s: Stream)
    ensures |s| == n
    ensures forall i :: 0 <= i < n ==> s[i] == b
  {
    seq(n, _ => b)
  }

  /** `a ^ b`, on streams of one length */
  function Xor(a: Stream, b: Stream): (s: Stream)
    requires |a| == |b|
    ensures |s| == |a|
    ensures forall i :: 0 <= i < |a| ==> s[i] == (a[i] != b[i])
  {
    seq(|a|, i requires 0 <= i < |a| => a[i] != b[i])
  }

  function And(a: Word, b: Word): (w: Word)
    ensures forall i :: 0 <= i < 32 ==> w[i] == (a[i] && b[i])
  {
    seq(32, i requires 0 <= i < 32 => a[i] && b[i])
  }

  function Or(a: Word, b: Word): (w: Word)
    ensures forall i :: 0 <= i < 32 ==> w[i] == (a[i] || b[i])
  {
    seq(32, i requires 0 <= i < 32 => a[i] || b[i])
  }

  function Not(a: Word): (w: Word)
    ensures forall i :: 0 <= i < 32 ==> w[i] == !a[i]
  {
    seq(32, i requires 0 <= i < 32 => !a[i])
  }

  /** Logical `a >> n`; a shift by 32 or more leaves 0 */
  function Shr(a: Word, n: nat): (w: Word)
    ensures forall i :: 0 <= i < 32 ==> w[i] == (i + n < 32 && a[i + n])
  {
    seq(32, i requires 0 <= i < 32 => i + n < 32 && a[i + n])
  }

  /** `a << n`; a shift by 32 or more leaves 0 */
  function Shl(a: Word, n: nat): (w: Word)
    ensures forall i :: 0 <= i < 32 ==> w[i] == (n <= i && a[i - n])
  {
    seq(32, i requires 0 <= i < 32 => n <= i && a[i - n])
  }

  /** The `n` low bits of the binary form of `v`, least significant first */
  function FromNat(v: nat, n: nat): (s: Stream)
    ensures |s| == n
    decreases n
  {
    if n == 0 then [] else [v % 2 == 1] + FromNat(v / 2, n - 1)
  }

  function ToNat(s: Stream): nat {
    if s == [] then 0 else (if s[0] then 1 else 0) + 2 * ToNat(s[1..])
  }

  /** The value `v` held in a 32-bit word */
  function ToWord(v: nat): Word {
    FromNat(v, 32)
  }

  /** Bit `k` of a hexadecimal digit */
  predicate DigitBit(d: nat, k: nat) {
    if k == 0 then d % 2 == 1
    else if k == 1 then d / 2 % 2 == 1
    else if k == 2 then d / 4 % 2 == 1
    else d / 8 % 2 == 1
  }

  /** A word from its eight hexadecimal digits, most significant digit first */
  function Hex(digits: seq<nat>): (w: Word)
    requires |digits| == 8
    ensures forall i :: 0 <= i < 32 ==> w[i] == DigitBit(digits[7 - i / 4], i % 4)
  {
    seq(32, i requires 0 <= i < 32 => DigitBit(digits[7 - i / 4], i % 4))
  }

  /** The word left by storing at most 32 bits, least significant first, in a cleared word */
  function Pack(s: Stream): (w: Word)
    requires |s| <= 32
    ensures forall i :: 0 <= i < 32 ==> w[i] == (i < |s| && s[i])
  {
    seq(32, i requires 0 <= i < 32 => i < |s| && s[i])
  }

  /** The word left by storing at most 32 bits, least significant first, in a word that is not cleared */
  function Overwritten(was: Word, s: Stream): (w: Word)
    requires |s| <= 32
    ensures forall i :: 0 <= i < 32 ==> w[i] == if i < |s| then s[i] else was[i]
  {
    s + was[|s|..]
  }

  function Reversed(s: Stream): (r: Stream)
    ensures |r| == |s|
    ensures forall i :: 0 <= i < |s| ==> r[i] == s[|s| - 1 - i]
  {
    seq(|s|, i requires 0 <= i < |s| => s[|s| - 1 - i])
  }

  const ZERO: Word := Fill(32, false)
  const ONES: Word := Fill(32, true)

  // --- laws of the word operators ---
  lemma ShrAdd(a: Word, m: nat, n: nat)
    ensures Shr(Shr(a, m), n) == Shr(a, m + n)
  {
  }

  lemma ShrShl(a: Word, n: nat)
    ensures Shr(Shl(Shr(a, n), n), n) == Shr(a, n)
  {
  }

  lemma XorTwice(a: Word, b: Word)
    ensures Xor(Xor(a, b), b) == a
  {
  }

  lemma XorZeros(n: nat)
    ensures Xor(Fill(n, false), Fill(n, false)) == Fill(n, false)
  {
  }

  lemma XorPackSelf(a: Word)
    ensures Xor(a, Pack(a)) == ZERO
  {
  }

  lemma ReversedXor(a: Stream, b: Stream)
    requires |a| == |b|
    ensures Reversed(Xor(a, b)) == Xor(Reversed(a), Reversed(b))
  {
  }

  lemma ReversedShl(a: Word, n: nat)
    ensures Reversed(Shl(a, n)) == Shr(Reversed(a), n)
  {
  }

  lemma ReversedTwice(s: Stream)
    ensures Reversed(Reversed(s)) == s
  {
  }

  lemma ReversedZero()
    ensures Reversed(ZERO) == ZERO
    ensures Reversed(ONES) == ONES
  {
  }

  // --- words and numbers ---

  lemma {:induction false} FromNatZero(n: nat)
    ensures FromNat(0, n) == Fill(n, false)
  {
    if n > 0 {
      FromNatZero(n - 1);
      FillStep(n);
    }
  }

  lemma FillStep(n: nat)
    requires n > 0
    ensures [false] + Fill(n - 1, false) == Fill(n, false)
  {
  }

  lemma {:induction false} FromToNat(s: Stream, n: nat)
    requires |s| <= n
    ensures FromNat(ToNat(s), n) == s + Fill(n - |s|, false)
    decreases n
  {
    if s == [] {
      FromNatZero(n);
      assert s + Fill(n, false) == Fill(n, false);
    } else {
      FromToNat(s[1..], n - 1);
    }
  }

  function Pow2(n: nat): nat {
    if n == 0 then 1 else 2 * Pow2(n - 1)
  }

  lemma {:induction false} ToNatBound(s: Stream)
    ensures ToNat(s) < Pow2(|s|)
  {
    if s != [] { ToNatBound(s[1..]); }
  }

  lemma {:induction false} FromNatLow(v: nat, k: nat, n: nat)
    requires k <= n
    ensures FromNat(v, n)[..k] == FromNat(v, k)
    decreases k
  {
    if k > 0 { FromNatLow(v / 2, k - 1, n - 1); }
  }

  lemma {:induction false} FromNatHigh(v: nat, k: nat, n: nat)
    requires k <= n && v < Pow2(k)
    ensures FromNat(v, n) == FromNat(v, k) + Fill(n - k, false)
    decreases k
  {
    if k == 0 {
      FromNatZero(n);
      assert FromNat(v, 0) == [] && [] + Fill(n, false) == Fill(n, false);
    } else {
      FromNatHigh(v / 2, k - 1, n - 1);
    }
  }

  lemma {:induction false} ToFromNat(v: nat, n: nat)
    requires v < Pow2(n)
    ensures ToNat(FromNat(v, n)) == v
    decreases n
  {
    if n > 0 {
      ToFromNat(v / 2, n - 1);
      assert FromNat(v, n)[1..] == FromNat(v / 2, n - 1);
    }
  }
}
