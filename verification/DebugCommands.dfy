/** The commands the host packs for the debug unit, and what the unit makes of them. */
module DebugCommands {
  import opened Bits
  import opened DebugUnit

  // --- the packing the host does in 32-bit words ---

  /** `chain | (1 << 2)` */
  function SelectWord(chain: nat): Word {
    Or(ToWord(chain), Shl(ToWord(1), 2))
  }

  /** `(opcode & ~(1 << 4)) << 1 | regidx` */
  function RegisterWord(opcode: nat, regidx: nat): Word {
    Or(Shl(And(ToWord(opcode), Not(Shl(ToWord(1), 4))), 1), ToWord(regidx))
  }

  /** `length_words | (address << 16)` */
  function BurstLow(address: nat, length: nat): Word {
    Or(ToWord(length), Shl(ToWord(address), 16))
  }

  /** `((address >> 16) | ((opcode & 0xf) << 16)) & ~(1 << 20)` */
  function BurstHigh(opcode: nat, address: nat): Word {
    And(Or(Shr(ToWord(address), 16), Shl(And(ToWord(opcode), ToWord(0xf)), 16)), Not(Shl(ToWord(1), 20)))
  }

  // --- the same commands as the bits that are sent ---

  function SelectCommand(chain: nat): Stream {
    FromNat(chain, 2) + [true]
  }

  function RegisterCommand(opcode: nat, index: bool): Stream {
    [index] + FromNat(opcode, 4) + [false]
  }

  lemma OneBit(v: nat)
    requires v < 2
    ensures FromNat(v, 1) == [v == 1]
  {
    assert FromNat(v / 2, 0) == [];
  }

  lemma OneShifted(n: nat)
    requires n < 32
    ensures forall i :: 0 <= i < 32 ==> Shl(ToWord(1), n)[i] == (i == n)
  {
    hide FromNat;
    assert Pow2(1) == 2;
    OneBit(1);
    FromNatHigh(1, 1, 32);
  }

  lemma SelectBits(chain: nat)
    requires chain < 4
    ensures SelectWord(chain)[..3] == SelectCommand(chain)
  {
    hide FromNat;
    OneShifted(2);
    assert Pow2(2) == 4;
    FromNatHigh(chain, 2, 32);
  }

  lemma RegisterBits(opcode: nat, regidx: nat)
    requires opcode < 16 && regidx < 2
    ensures RegisterWord(opcode, regidx)[..6] == RegisterCommand(opcode, regidx == 1)
  {
    hide FromNat;
    OneShifted(4);
    OneBit(regidx);
    assert Pow2(4) == 16 && Pow2(1) == 2;
    FromNatHigh(opcode, 4, 32);
    FromNatHigh(regidx, 1, 32);
    RegisterPointwise(ToWord(opcode), ToWord(regidx), Shl(ToWord(1), 4), FromNat(opcode, 4), regidx == 1);
  }

  lemma RegisterPointwise(op: Word, idx: Word, bit4: Word, o: Stream, i0: bool)
    requires |o| == 4 && op == o + Fill(28, false) && idx == [i0] + Fill(31, false)
    requires forall i :: 0 <= i < 32 ==> bit4[i] == (i == 4)
    ensures Or(Shl(And(op, Not(bit4)), 1), idx)[..6] == [i0] + o + [false]
  {
    var w := Or(Shl(And(op, Not(bit4)), 1), idx);
    var t := [i0] + o + [false];
    forall i | 0 <= i < 6 ensures w[i] == t[i] {
    }
  }

  // --- what the unit reads out of its input register ---

  /** The newest bits of the register are `s` */
  ghost predicate EndsWith(r: Input, s: Stream) {
    |s| <= 53 && r[53 - |s|..] == s
  }

  lemma SelectDecodes(r: Input, chain: nat)
    requires chain < 4 && EndsWith(r, SelectCommand(chain))
    ensures ModuleSelect(r) && ModuleId(r) == chain
  {
    hide FromNat;
    var s := SelectCommand(chain);
    assert r[52] == r[50..][2] == s[2];
    assert r[50..52] == r[50..][..2] == s[..2] == FromNat(chain, 2);
    assert Pow2(2) == 4;
    ToFromNat(chain, 2);
  }

  lemma RegisterDecodes(r: Input, opcode: nat, index: bool, before: Stream)
    requires opcode < 16 && EndsWith(r, before + RegisterCommand(opcode, index))
    ensures !ModuleSelect(r) && Operation(r) == opcode && r[47] == index
    ensures |before| >= 1 ==> r[46] == before[|before| - 1]
    ensures |before| >= 2 ==> r[45] == before[|before| - 2]
  {
    hide FromNat;
    var s := before + RegisterCommand(opcode, index);
    var n := |before|;
    assert forall i :: 0 <= i < |s| ==> r[53 - |s| + i] == s[i];
    assert r[48..52] == FromNat(opcode, 4) by {
      forall i | 0 <= i < 4 ensures r[48..52][i] == FromNat(opcode, 4)[i] {
        assert s[n + 1 + i] == FromNat(opcode, 4)[i];
      }
    }
    assert Pow2(4) == 16;
    ToFromNat(opcode, 4);
    assert s[n] == index && !s[n + 5];
  }

  /** A no-operation carries only the opcode */
  lemma NopDecodes(r: Input)
    requires EndsWith(r, FromNat(NOP, 4) + [false])
    ensures !ModuleSelect(r) && Operation(r) == NOP
  {
    var s := FromNat(NOP, 4) + [false];
    FromNatZero(4);
    hide FromNat;
    assert r[52] == r[48..][4] == s[4];
    assert r[48..52] == r[48..][..4] == s[..4] == FromNat(NOP, 4);
    ToFromNat(NOP, 4);
  }

  // --- the burst command ---

  /** The 53 bits sent for a burst */
  function BurstCommand(opcode: nat, address: nat, length: nat): (r: Input) {
    BurstLow(address, length) + BurstHigh(opcode, address)[..21]
  }

  lemma Powers()
    ensures Pow2(4) == 16 && Pow2(16) == 0x1_0000 && Pow2(32) == 0x1_0000_0000
  {
    Doubling(16);
    assert Pow2(4) == 16 && Pow2(8) == 256;
    assert Pow2(16) == 0x1_0000;
  }

  lemma Doubling(n: nat)
    ensures Pow2(n + n) == Pow2(n) * Pow2(n)
  {
    Sum(n, n);
  }

  lemma {:induction false} Sum(m: nat, n: nat)
    ensures Pow2(m + n) == Pow2(m) * Pow2(n)
  {
    if m > 0 {
      Sum(m - 1, n);
    }
  }

  /** Field by field, the bits of the packed words */
  lemma BurstFields(a: Word, l: Word, op: Word, mask4: Word, bit20: Word, r: Stream)
    requires r == Or(l, Shl(a, 16)) + And(Or(Shr(a, 16), Shl(And(op, mask4), 16)), Not(bit20))[..21]
    requires forall i :: 0 <= i < 32 ==> mask4[i] == (i < 4) && bit20[i] == (i == 20)
    ensures |r| == 53 && !r[52]
    ensures r[0..16] == l[..16] && r[48..52] == op[..4]
    ensures (forall i :: 16 <= i < 32 ==> !l[i]) ==> r[16..48] == a
  {
    var lo, hi := Or(l, Shl(a, 16)), And(Or(Shr(a, 16), Shl(And(op, mask4), 16)), Not(bit20));
    assert r == lo + hi[..21];
    forall i | 0 <= i < 16 ensures r[i] == l[i] {
      assert r[i] == lo[i];
    }
    forall i | 0 <= i < 4 ensures r[48 + i] == op[i] {
      assert r[48 + i] == hi[16 + i];
    }
    if forall i :: 16 <= i < 32 ==> !l[i] {
      forall i | 0 <= i < 32 ensures r[16 + i] == a[i] {
        assert r[16 + i] == if i < 16 then lo[16 + i] else hi[i - 16];
      }
    }
    assert r[52] == hi[20];
  }

  lemma FifteenBits()
    ensures forall i :: 0 <= i < 32 ==> ToWord(0xf)[i] == (i < 4)
  {
    Powers();
    FromNatHigh(0xf, 4, 32);
    assert FromNat(0xf, 4) == [true, true, true, true] by {
      assert FromNat(0, 0) == [] && FromNat(1, 1) == [true] && FromNat(3, 2) == [true, true];
    }
  }

  /** The unit decodes the opcode always, and the address and length exactly when the length
      fits its 16-bit field: a longer one spills into the address */
  lemma BurstDecodesIff(opcode: nat, address: nat, length: nat)
    requires opcode < 16 && address < 0x1_0000_0000 && length < 0x1_0000_0000
    ensures var r := BurstCommand(opcode, address, length);
      && !ModuleSelect(r) && Operation(r) == opcode
      && (Count(r) == length && Address(r) == address <==> length < 0x1_0000)
  {
    hide FromNat, ToNat, Pow2, Shl, Shr, And, Or, Not;
    var r := BurstCommand(opcode, address, length);
    var a, l, op := ToWord(address), ToWord(length), ToWord(opcode);
    Powers();
    FifteenBits();
    OneShifted(20);
    BurstFields(a, l, op, ToWord(0xf), Shl(ToWord(1), 20), r);
    FromNatLow(opcode, 4, 32);
    ToFromNat(opcode, 4);
    ToNatBound(r[0..16]);
    if length < 0x1_0000 {
      FromNatHigh(length, 16, 32);
      FromNatLow(length, 16, 32);
      ToFromNat(length, 16);
      ToFromNat(address, 32);
    }
  }
}
