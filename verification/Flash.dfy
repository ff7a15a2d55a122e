/** Placement of boot images in flash: best-fit search, table insertion and removal. */
module Flash {
  const TWO32: nat := 0x1_0000_0000
  const MAX_IMAGES: nat := 40
  const FLASH_IMAGES_BASE: nat := 0xf030_0000
  const NO_ADDR: nat := 0xffff_ffff

  /** The boards the monitor is built for */
  datatype Board = Bender | Marvin | Custom {
    function FlashSize(): nat {
      if Bender? then 0x0200_0000 else 0x0400_0000
    }

    function BlockSize(): (b: nat)
      ensures b > 0 && FLASH_IMAGES_BASE % b == 0 && FlashSize() % b == 0
    {
      if Bender? then 0x0002_0000 else 0x0004_0000
    }

    function Limit(): nat {
      FLASH_IMAGES_BASE + FlashSize()
    }

    /** ALIGN on 32-bit addresses; block sizes are powers of two */
    function Align(addr: nat): nat {
      var b := BlockSize();
      (addr + (b - 1)) % TWO32 / b * b
    }
  }

  datatype Image = Image(start: nat, length: nat)

  /** A table of images, in the user's order */
  type Table = seq<Image>

  function End(bd: Board, im: Image): nat {
    bd.Align(im.start + im.length)
  }

  /** An image on a block boundary, wholly inside the image area */
  predicate InArea(bd: Board, im: Image) {
    && im.length > 0
    && FLASH_IMAGES_BASE <= im.start
    && im.start % bd.BlockSize() == 0
    && im.start + im.length <= bd.Limit()
  }

  /** No flash block belongs to both */
  predicate Apart(bd: Board, a: Image, b: Image) {
    End(bd, a) <= b.start || End(bd, b) <= a.start
  }

  ghost predicate Valid(bd: Board, t: Table) {
    && |t| <= MAX_IMAGES
    && (forall i :: 0 <= i < |t| ==> InArea(bd, t[i]))
    && (forall i, j :: 0 <= i < j < |t| ==> Apart(bd, t[i], t[j]))
  }

  /** A maximal free range: bounded by images or by the ends of the area, and empty */
  ghost predicate IsGap(bd: Board, t: Table, lo: nat, hi: nat) {
    && lo <= hi
    && (lo == FLASH_IMAGES_BASE || exists i :: 0 <= i < |t| && lo == End(bd, t[i]))
    && (hi == bd.Limit() || exists i :: 0 <= i < |t| && hi == t[i].start)
    && forall i :: 0 <= i < |t| ==> End(bd, t[i]) <= lo || hi <= t[i].start
  }

  /** The smallest gap that holds `size`, and the lowest one of that size */
  ghost predicate BestGap(bd: Board, t: Table, size: nat, lo: nat, hi: nat) {
    && IsGap(bd, t, lo, hi)
    && size <= hi - lo
    && forall a: nat, b: nat :: IsGap(bd, t, a, b) && size <= b - a ==>
         hi - lo < b - a || (hi - lo == b - a && lo <= a)
  }

  lemma MulMono(q: int, k: int, b: nat)
    requires q < k
    ensures q * b + b <= k * b
  {
    assert k * b == q * b + (k - q) * b;
    assert (k - q) * b == b + (k - q - 1) * b;
  }

  lemma MulMod(q: nat, b: nat)
    requires b > 0
    ensures q * b % b == 0
  {
    var d, r := q * b / b, q * b % b;
    assert q * b == d * b + r;
    if d < q { MulMono(d, q, b); }
    if q < d { MulMono(q, d, b); }
  }

  /** Rounding up to a multiple of `b` stays below any multiple of `b` that was not exceeded */
  lemma RoundUp(e: nat, b: nat, k: nat)
    requires b > 0 && e <= k * b
    ensures var q := (e + (b - 1)) / b; e <= q * b <= k * b && q * b % b == 0
  {
    var n := e + (b - 1);
    var q := n / b;
    assert n == q * b + n % b;
    if q > k { MulMono(k, q, b); }
    if q < k { MulMono(q, k, b); }
    MulMod(q, b);
  }

  lemma AlignProps(bd: Board, im: Image)
    requires InArea(bd, im)
    ensures im.start < End(bd, im) <= bd.Limit()
    ensures End(bd, im) % bd.BlockSize() == 0
    ensures im.start + im.length <= End(bd, im)
  {
    var b := bd.BlockSize();
    var e := im.start + im.length;
    assert e + (b - 1) < TWO32;
    RoundUp(e, b, bd.Limit() / b);
    hide *;
    assert End(bd, im) == (e + (b - 1)) / b * b by { EndDef(bd, im); }
  }

  lemma EndDef(bd: Board, im: Image)
    requires im.start + im.length + (bd.BlockSize() - 1) < TWO32
    ensures End(bd, im) == (im.start + im.length + (bd.BlockSize() - 1)) / bd.BlockSize() * bd.BlockSize()
  {
  }

  // --- the two in-place bubble sorts ---

  /** `perm` and `inv` are inverse permutations of the first `n` positions */
  ghost predicate Permutes(perm: seq<nat>, inv: seq<nat>, n: nat) {
    && |perm| == n && |inv| == n
    && (forall k :: 0 <= k < n ==> perm[k] < n && inv[perm[k]] == k)
    && (forall k :: 0 <= k < n ==> inv[k] < n && perm[inv[k]] == k)
  }

  /** The pairs at positions up to `last` are those of `k0`, `v0`, rearranged by `perm` */
  ghost predicate Rearranged(key: seq<nat>, val: seq<nat>, k0: seq<nat>, v0: seq<nat>, perm: seq<nat>, last: nat) {
    && |key| == |val| == |k0| == |v0| && last < |key| && |perm| == last + 1
    && (forall k :: 0 <= k <= last ==> perm[k] <= last && key[k] == k0[perm[k]] && val[k] == v0[perm[k]])
    && (forall k :: last < k < |key| ==> key[k] == k0[k] && val[k] == v0[k])
  }

  /** Equal keys keep their original order */
  ghost predicate Stable(key: seq<nat>, perm: seq<nat>, last: nat) {
    && last < |key| && |perm| == last + 1
    && forall a, b :: 0 <= a < b <= last && key[a] == key[b] ==> perm[a] < perm[b]
  }

  ghost predicate Sorted(key: seq<nat>, last: nat) {
    last < |key| && forall a, b :: 0 <= a < b <= last ==> key[a] <= key[b]
  }

  /** Positions above `j` already hold the largest keys in order */
  ghost predicate SettledAbove(key: seq<nat>, j: nat, last: nat) {
    last < |key| && forall a, b :: 0 <= a < b <= last && j < b ==> key[a] <= key[b]
  }

  /** Position `i` holds the largest of the keys up to it */
  ghost predicate LargestSoFar(key: seq<nat>, i: nat) {
    i < |key| && forall a :: 0 <= a < i ==> key[a] <= key[i]
  }

  ghost predicate SortState(key: seq<nat>, val: seq<nat>, k0: seq<nat>, v0: seq<nat>,
                            perm: seq<nat>, inv: seq<nat>, last: nat)
  {
    Permutes(perm, inv, last + 1) && Rearranged(key, val, k0, v0, perm, last) && Stable(key, perm, last)
  }

  function Swap(s: seq<nat>, i: nat): (r: seq<nat>)
    requires i + 1 < |s|
    ensures |r| == |s| && r[i] == s[i + 1] && r[i + 1] == s[i]
    ensures forall k :: 0 <= k < |s| && k != i && k != i + 1 ==> r[k] == s[k]
  {
    s[i := s[i + 1]][i + 1 := s[i]]
  }

  lemma SwapSettled(key: seq<nat>, j: nat, last: nat, i: nat)
    requires SettledAbove(key, j, last) && i < j <= last && LargestSoFar(key, i)
    ensures key[i] > key[i + 1] ==> SettledAbove(Swap(key, i), j, last) && LargestSoFar(Swap(key, i), i + 1)
    ensures key[i] <= key[i + 1] ==> LargestSoFar(key, i + 1)
  {
    hide Swap;
  }

  lemma Settle(key: seq<nat>, j: nat, last: nat)
    requires SettledAbove(key, j, last) && j <= last && LargestSoFar(key, j)
    ensures j > 0 ==> SettledAbove(key, j - 1, last)
  {
  }

  lemma SettledIsSorted(key: seq<nat>, last: nat)
    requires SettledAbove(key, 0, last)
    ensures Sorted(key, last)
  {
  }

  lemma SortStart(key: seq<nat>, val: seq<nat>, last: nat)
    requires |key| == |val| && last < |key|
    ensures var id := seq(last + 1, i => i);
      SortState(key, val, key, val, id, id, last) && SettledAbove(key, last, last)
  {
  }

  lemma SwapState(key: seq<nat>, val: seq<nat>, k0: seq<nat>, v0: seq<nat>,
                  perm: seq<nat>, inv: seq<nat>, last: nat, i: nat)
    requires SortState(key, val, k0, v0, perm, inv, last) && i < last && key[i] > key[i + 1]
    ensures SortState(Swap(key, i), Swap(val, i), k0, v0, Swap(perm, i),
                      inv[perm[i] := i + 1][perm[i + 1] := i], last)
  {
    hide Swap;
  }

  lemma SortStateShape(key: seq<nat>, val: seq<nat>, k0: seq<nat>, v0: seq<nat>,
                       perm: seq<nat>, inv: seq<nat>, last: nat)
    requires SortState(key, val, k0, v0, perm, inv, last)
    ensures |perm| == |inv| == last + 1
    ensures forall k :: 0 <= k <= last ==> perm[k] <= last
  {
  }

  /** Sorts the pairs at positions 0 to `last` by key, the smallest first */
  method BubbleSort(key: array<nat>, val: array<nat>, last: nat) returns (ghost perm: seq<nat>, ghost inv: seq<nat>)
    requires key != val && last < key.Length == val.Length
    modifies key, val
    ensures SortState(key[..], val[..], old(key[..]), old(val[..]), perm, inv, last)
    ensures Sorted(key[..], last)
  {
    hide *;
    ghost var k0, v0 := key[..], val[..];
    perm, inv := seq(last + 1, i => i), seq(last + 1, i => i);
    SortStart(k0, v0, last);
    var j := last;
    while j > 0
      invariant 0 <= j <= last
      invariant SortState(key[..], val[..], k0, v0, perm, inv, last)
      invariant SettledAbove(key[..], j, last)
    {
      LargestAtStart(key[..]);
      for i := 0 to j
        invariant SortState(key[..], val[..], k0, v0, perm, inv, last)
        invariant SettledAbove(key[..], j, last) && LargestSoFar(key[..], i)
      {
        SwapSettled(key[..], j, last, i);
        if key[i] > key[i + 1] {
          ghost var k, v := key[..], val[..];
          SortStateShape(k, v, k0, v0, perm, inv, last);
          SwapState(k, v, k0, v0, perm, inv, last, i);
          inv := inv[perm[i] := i + 1][perm[i + 1] := i];
          perm := Swap(perm, i);
          var tmpval := key[i];
          key[i] := key[i + 1];
          key[i + 1] := tmpval;
          tmpval := val[i];
          val[i] := val[i + 1];
          val[i + 1] := tmpval;
          assert key[..] == Swap(k, i);
          assert val[..] == Swap(v, i);
        }
      }
      Settle(key[..], j, last);
      j := j - 1;
    }
    SettledIsSorted(key[..], last);
  }

  lemma LargestAtStart(key: seq<nat>)
    requires key != []
    ensures LargestSoFar(key, 0)
  {
  }

  // --- gaps between sorted images ---

  /** `s` and `e` hold the start and end of every image of `t`, in address order */
  ghost predicate Layout(bd: Board, t: Table, s: seq<nat>, e: seq<nat>, perm: seq<nat>, inv: seq<nat>) {
    && t != [] && |s| == |e| == |t|
    && Permutes(perm, inv, |t|)
    && (forall k :: 0 <= k < |t| ==> perm[k] < |t| && s[k] == t[perm[k]].start && e[k] == End(bd, t[perm[k]]))
    && (forall k :: 0 <= k < |t| ==> FLASH_IMAGES_BASE <= s[k] < e[k] <= bd.Limit())
    && (forall k, l :: 0 <= k < l < |t| ==> e[k] <= s[l])
  }

  /** Start of the `i`-th free range */
  function GapLo(e: seq<nat>, i: nat): nat
    requires i <= |e|
  {
    if i == 0 then FLASH_IMAGES_BASE else e[i - 1]
  }

  /** End of the `i`-th free range */
  function GapHi(bd: Board, s: seq<nat>, i: nat): nat
    requires i <= |s|
  {
    if i < |s| then s[i] else bd.Limit()
  }

  lemma SortedIsLayout(bd: Board, t: Table, key: seq<nat>, val: seq<nat>, k0: seq<nat>, v0: seq<nat>,
                       perm: seq<nat>, inv: seq<nat>)
    requires Valid(bd, t) && 0 < |t| <= |key|
    requires SortState(key, val, k0, v0, perm, inv, |t| - 1) && Sorted(key, |t| - 1)
    requires forall i :: 0 <= i < |t| ==> k0[i] == t[i].start && v0[i] == End(bd, t[i])
    ensures Layout(bd, t, key[..|t|], val[..|t|], perm, inv)
  {
    hide InArea, End, Board.Limit, Board.BlockSize, Board.FlashSize;
    forall k | 0 <= k < |t|
      ensures key[k] == t[perm[k]].start && val[k] == End(bd, t[perm[k]])
      ensures FLASH_IMAGES_BASE <= key[k] < val[k] <= bd.Limit()
    {
      AlignProps(bd, t[perm[k]]);
      InAreaBase(bd, t[perm[k]]);
    }
    forall k, l | 0 <= k < l < |t| ensures val[k] <= key[l] {
      assert inv[perm[k]] == k && inv[perm[l]] == l;
      ApartEither(bd, t, perm[k], perm[l]);
    }
  }

  lemma InAreaBase(bd: Board, im: Image)
    requires InArea(bd, im)
    ensures FLASH_IMAGES_BASE <= im.start && im.start % bd.BlockSize() == 0
  {
  }

  lemma ApartEither(bd: Board, t: Table, i: nat, j: nat)
    requires Valid(bd, t) && i < |t| && j < |t| && i != j
    ensures End(bd, t[i]) <= t[j].start || End(bd, t[j]) <= t[i].start
  {
    hide InArea, End;
    assert Apart(bd, if i < j then t[i] else t[j], if i < j then t[j] else t[i]);
  }

  /** Every free range between sorted neighbours is a gap, and they rise strictly */
  lemma NeighboursBoundGaps(bd: Board, t: Table, s: seq<nat>, e: seq<nat>, perm: seq<nat>, inv: seq<nat>, i: nat)
    requires Layout(bd, t, s, e, perm, inv) && i <= |t|
    ensures |s| == |e| == |t|
    ensures IsGap(bd, t, GapLo(e, i), GapHi(bd, s, i))
    ensures forall j :: 0 <= j < i ==> GapLo(e, j) < GapLo(e, i)
  {
    hide End, Board.Limit;
    var lo, hi := GapLo(e, i), GapHi(bd, s, i);
    if i > 0 { assert lo == End(bd, t[perm[i - 1]]); }
    if i < |t| { assert hi == t[perm[i]].start; }
    forall k | 0 <= k < |t| ensures End(bd, t[k]) <= lo || hi <= t[k].start {
      assert perm[inv[k]] == k;
    }
  }

  /** There are no other gaps */
  lemma GapIndex(bd: Board, t: Table, s: seq<nat>, e: seq<nat>, perm: seq<nat>, inv: seq<nat>, lo: nat,
                 hi: nat) returns (i: nat)
    requires Layout(bd, t, s, e, perm, inv) && IsGap(bd, t, lo, hi)
    ensures i <= |t| && lo == GapLo(e, i) && hi == GapHi(bd, s, i)
  {
    hide End, Board.Limit;
    if lo == FLASH_IMAGES_BASE {
      i := 0;
    } else {
      var k :| 0 <= k < |t| && lo == End(bd, t[k]);
      assert perm[inv[k]] == k;
      i := inv[k] + 1;
    }
    if i < |t| {
      assert t[perm[i]].start == s[i];
      assert hi <= s[i];
    }
    if hi != bd.Limit() {
      var k :| 0 <= k < |t| && hi == t[k].start;
      assert perm[inv[k]] == k;
      assert s[inv[k]] == hi;
    }
  }

  /** `free` and `addr` hold the length and the start of every gap */
  ghost predicate FreeRanges(bd: Board, s: seq<nat>, e: seq<nat>, free: seq<nat>, addr: seq<nat>) {
    && |s| == |e| < |free| == |addr|
    && forall i :: 0 <= i <= |s| ==>
         addr[i] == GapLo(e, i) && free[i] + addr[i] == GapHi(bd, s, i)
  }

  lemma SortedEntry(key: seq<nat>, val: seq<nat>, k0: seq<nat>, v0: seq<nat>,
                    perm: seq<nat>, inv: seq<nat>, last: nat, i: nat)
    requires SortState(key, val, k0, v0, perm, inv, last) && i <= last
    ensures |key| == |val| == |k0| == |v0| && last < |key| && |perm| == |inv| == last + 1
    ensures perm[i] <= last && inv[perm[i]] == i
    ensures key[i] == k0[perm[i]] && val[i] == v0[perm[i]]
    ensures inv[i] <= last && perm[inv[i]] == i
    ensures forall j :: i < j <= last && key[i] == key[j] ==> perm[i] < perm[j]
  {
  }

  /** The first entry that holds `size`, once sorted by length, is the best gap */
  lemma FirstFitIsBest(bd: Board, t: Table, s: seq<nat>, e: seq<nat>, perm: seq<nat>, inv: seq<nat>,
                       free: seq<nat>, addr: seq<nat>, f0: seq<nat>, a0: seq<nat>, perm2: seq<nat>, inv2: seq<nat>,
                       size: nat, i: nat)
    requires Layout(bd, t, s, e, perm, inv) && FreeRanges(bd, s, e, f0, a0)
    requires SortState(free, addr, f0, a0, perm2, inv2, |t|) && Sorted(free, |t|)
    requires i <= |t| && free[i] >= size && forall k :: 0 <= k < i ==> free[k] < size
    ensures BestGap(bd, t, size, addr[i], addr[i] + free[i])
  {
    hide End, Board.Limit, IsGap, Layout, GapLo, GapHi, Rearranged;
    SortedEntry(free, addr, f0, a0, perm2, inv2, |t|, i);
    var g := perm2[i];
    NeighboursBoundGaps(bd, t, s, e, perm, inv, g);
    forall a: nat, b: nat | IsGap(bd, t, a, b) && size <= b - a
      ensures free[i] < b - a || (free[i] == b - a && addr[i] <= a)
    {
      var h := GapIndex(bd, t, s, e, perm, inv, a, b);
      NeighboursBoundGaps(bd, t, s, e, perm, inv, h);
      SortedEntry(free, addr, f0, a0, perm2, inv2, |t|, h);
      SortedEntry(free, addr, f0, a0, perm2, inv2, |t|, inv2[h]);
    }
  }

  lemma NothingFits(bd: Board, t: Table, s: seq<nat>, e: seq<nat>, perm: seq<nat>, inv: seq<nat>,
                    free: seq<nat>, addr: seq<nat>, f0: seq<nat>, a0: seq<nat>, perm2: seq<nat>, inv2: seq<nat>, size: nat)
    requires Layout(bd, t, s, e, perm, inv) && FreeRanges(bd, s, e, f0, a0)
    requires SortState(free, addr, f0, a0, perm2, inv2, |t|)
    requires forall k :: 0 <= k <= |t| ==> free[k] < size
    ensures forall a: nat, b: nat :: IsGap(bd, t, a, b) ==> b - a < size
  {
    hide End, Board.Limit;
    forall a: nat, b: nat | IsGap(bd, t, a, b) ensures b - a < size {
      var h := GapIndex(bd, t, s, e, perm, inv, a, b);
      assert perm2[inv2[h]] == h;
    }
  }

  // --- the allocator and its table ---

  /** What the placement search returns for a table that is neither empty nor full */
  ghost predicate Placement(bd: Board, t: Table, size: nat, addr: nat) {
    if addr == 0
    then forall a: nat, b: nat :: IsGap(bd, t, a, b) ==> b - a < size
    else exists hi: nat :: BestGap(bd, t, size, addr, hi)
  }

  /** An image placed at the best gap stays in the area and touches no other image's blocks */
  lemma PlacementIsFree(bd: Board, t: Table, size: nat, addr: nat)
    requires Valid(bd, t) && size > 0 && addr != 0 && Placement(bd, t, size, addr)
    ensures InArea(bd, Image(addr, size))
    ensures forall i :: 0 <= i < |t| ==> Apart(bd, Image(addr, size), t[i])
  {
    hide End, Board.Limit, Board.BlockSize, InArea;
    var hi: nat :| BestGap(bd, t, size, addr, hi);
    GapAligned(bd, t, addr, hi);
    FitsInGap(bd, addr, hi, size);
  }

  lemma GapAligned(bd: Board, t: Table, lo: nat, hi: nat)
    requires Valid(bd, t) && IsGap(bd, t, lo, hi)
    ensures FLASH_IMAGES_BASE <= lo && lo % bd.BlockSize() == 0
    ensures hi <= bd.Limit() && hi % bd.BlockSize() == 0
  {
    hide End, Board.Limit, Board.BlockSize, InArea;
    forall i | 0 <= i < |t|
      ensures FLASH_IMAGES_BASE <= t[i].start < End(bd, t[i]) <= bd.Limit()
      ensures End(bd, t[i]) % bd.BlockSize() == 0 && t[i].start % bd.BlockSize() == 0
    {
      AlignProps(bd, t[i]);
      InAreaBase(bd, t[i]);
    }
    LimitAligned(bd);
    hide Valid;
  }

  lemma LimitAligned(bd: Board)
    ensures FLASH_IMAGES_BASE < bd.Limit() && bd.Limit() % bd.BlockSize() == 0
  {
  }

  lemma FitsInGap(bd: Board, lo: nat, hi: nat, size: nat)
    requires FLASH_IMAGES_BASE <= lo && lo % bd.BlockSize() == 0
    requires hi <= bd.Limit() && hi % bd.BlockSize() == 0
    requires 0 < size && lo + size <= hi
    ensures InArea(bd, Image(lo, size)) && End(bd, Image(lo, size)) <= hi
  {
    var b, im := bd.BlockSize(), Image(lo, size);
    RoundUp(lo + size, b, hi / b);
    assert lo + size + (b - 1) < TWO32;
    EndDef(bd, im);
    hide End;
    assert hi / b * b == hi;
  }

  /** The monitor's saved configuration: fixed arrays of which the first `imgNumber` entries count */
  datatype Config = Config(imgNumber: nat, imgStart: seq<nat>, imgLength: seq<nat>) {
    predicate WellFormed() {
      imgNumber <= MAX_IMAGES && |imgStart| == |imgLength| == MAX_IMAGES
    }

    function Images(): (t: Table)
      requires WellFormed()
      ensures |t| == imgNumber
      ensures forall i :: 0 <= i < imgNumber ==> t[i] == Image(imgStart[i], imgLength[i])
    {
      seq(imgNumber, i requires 0 <= i < imgNumber => Image(imgStart[i], imgLength[i]))
    }
  }

  class Monitor {
    const bd: Board
    var gcfg: Config

    function Images(): Table
      requires gcfg.WellFormed()
      reads this
    {
      gcfg.Images()
    }

    constructor (bd: Board)
      ensures this.bd == bd && gcfg.WellFormed() && Images() == []
      ensures forall k :: 0 <= k < MAX_IMAGES ==> gcfg.imgStart[k] == gcfg.imgLength[k] == 0
    {
      this.bd := bd;
      gcfg := Config(0, seq(MAX_IMAGES, _ => 0), seq(MAX_IMAGES, _ => 0));
    }

    method GetGoodAddr(size: nat) returns (addr: nat)
      requires gcfg.WellFormed() && Valid(bd, Images())
      ensures |Images()| == MAX_IMAGES ==> addr == NO_ADDR
      ensures |Images()| == 0 ==> addr == FLASH_IMAGES_BASE
      ensures 0 < |Images()| < MAX_IMAGES ==> Placement(bd, Images(), size, addr)
    {
      hide *;
      var n := gcfg.imgNumber;
      ImagesCount();
      Numbers(bd);
      if n == MAX_IMAGES { return NO_ADDR; }
      if n == 0 { return FLASH_IMAGES_BASE; }
      var startAddr, endAddr := new nat[MAX_IMAGES](_ => 0), new nat[MAX_IMAGES](_ => 0);
      var free, stAddr := new nat[MAX_IMAGES](_ => 0), new nat[MAX_IMAGES](_ => 0);
      ghost var perm, inv := SortImages(startAddr, endAddr);
      ghost var s, e := startAddr[..n], endAddr[..n];
      LayoutBounds(bd, Images(), s, e, perm, inv);
      MeasureGaps(bd, startAddr, endAddr, free, stAddr, n);
      ghost var f0, a0 := free[..], stAddr[..];
      ghost var perm2, inv2 := BubbleSort(free, stAddr, n);
      for i := 0 to n + 1
        invariant forall k :: 0 <= k < i ==> free[k] < size
      {
        if free[i] >= size {
          FirstFitIsBest(bd, Images(), s, e, perm, inv, free[..], stAddr[..], f0, a0, perm2, inv2, size, i);
          PlacementFound(bd, Images(), size, stAddr[i], free[i]);
          return stAddr[i];
        }
      }
      NothingFits(bd, Images(), s, e, perm, inv, free[..], stAddr[..], f0, a0, perm2, inv2, size);
      PlacementNone(bd, Images(), size);
      return 0;
    }

    /** Loads the start and block-rounded end of every image and sorts them by start */
    method SortImages(startAddr: array<nat>, endAddr: array<nat>) returns (ghost perm: seq<nat>, ghost inv: seq<nat>)
      requires gcfg.WellFormed() && Valid(bd, Images()) && 0 < |Images()|
      requires startAddr != endAddr && startAddr.Length == endAddr.Length == MAX_IMAGES
      modifies startAddr, endAddr
      ensures |Images()| <= MAX_IMAGES
      ensures Layout(bd, Images(), startAddr[..|Images()|], endAddr[..|Images()|], perm, inv)
    {
      hide *;
      ImagesCount();
      var n := gcfg.imgNumber;
      ghost var t := Images();
      for i := 0 to n
        invariant forall k :: 0 <= k < i ==> startAddr[k] == t[k].start && endAddr[k] == End(bd, t[k])
      {
        startAddr[i] := gcfg.imgStart[i];
        endAddr[i] := bd.Align(gcfg.imgStart[i] + gcfg.imgLength[i]);
        EndIs(t[i]);
      }
      ghost var s0, e0 := startAddr[..], endAddr[..];
      perm, inv := BubbleSort(startAddr, endAddr, n - 1);
      SortedIsLayout(bd, t, startAddr[..], endAddr[..], s0, e0, perm, inv);
      assert startAddr[..][..n] == startAddr[..n] && endAddr[..][..n] == endAddr[..n];
    }

    /** Records an image of `size` bytes as number `num`; `size` is positive, as both
        callers check the transfer length first */
    method PrepareImgData(num: nat, size: nat) returns (addr: nat)
      requires gcfg.WellFormed() && Valid(bd, Images())
      requires 0 < size < TWO32
      modifies this
      ensures gcfg.WellFormed()
      ensures Inserted(bd, old(Images()), num, size, Images(), addr)
      ensures Valid(bd, Images()) <==> addr == NO_ADDR || old(Images()) != [] || size <= bd.FlashSize()
    {
      hide *;
      Numbers(bd);
      ImagesCount();
      var newCfg := gcfg;
      if newCfg.imgNumber >= MAX_IMAGES {
        RefusedIs(bd, Images(), num, size);
        InsertionSoundIff(bd, Images(), num, size, Images(), NO_ADDR);
        return NO_ADDR;
      }
      newCfg := newCfg.(imgNumber := newCfg.imgNumber + 1);
      var at := num;
      if at > newCfg.imgNumber || at == 0 { at := newCfg.imgNumber; }
      addr := GetGoodAddr(size);
      if addr == 0 {
        RefusedIs(bd, Images(), num, size);
        InsertionSoundIff(bd, Images(), num, size, Images(), NO_ADDR);
        return NO_ADDR;
      }
      var start: seq<nat>, length: seq<nat> := newCfg.imgStart, newCfg.imgLength;
      var i := newCfg.imgNumber - 1;
      while i >= at
        invariant at - 1 <= i < newCfg.imgNumber && |start| == |length| == MAX_IMAGES
        invariant forall k :: 0 <= k <= i ==> start[k] == gcfg.imgStart[k] && length[k] == gcfg.imgLength[k]
        invariant forall k :: i < k < newCfg.imgNumber ==>
          start[k] == gcfg.imgStart[k - 1] && length[k] == gcfg.imgLength[k - 1]
      {
        length := length[i := length[i - 1]];
        start := start[i := start[i - 1]];
        i := i - 1;
      }
      newCfg := newCfg.(imgLength := length[at - 1 := size], imgStart := start[at - 1 := addr]);
      ghost var before := Images();
      gcfg := newCfg;
      ConfigWellFormed();
      ImagesCount();
      InsertedIs(bd, before, num, size, Images(), addr, at - 1);
      InsertionSoundIff(bd, before, num, size, Images(), addr);
    }

    /** Deletes image `num`.  In a full table the loop reads one entry past the arrays;
        `beyond` is what lies there. */
    method DelImage(num: nat, beyond: nat)
      requires gcfg.WellFormed()
      modifies this
      ensures gcfg.WellFormed()
      ensures Images() == Removed(old(Images()), num)
    {
      hide *;
      Numbers(bd);
      ImagesCount();
      RemovedIs(Images(), num, Images());
      var newCfg := gcfg;
      if newCfg.imgNumber == 0 { return; }
      var at := num;
      if at == 0 || at > newCfg.imgNumber { at := newCfg.imgNumber; }
      var start: seq<nat>, length: seq<nat> := newCfg.imgStart, newCfg.imgLength;
      for i := at - 1 to newCfg.imgNumber
        invariant |start| == |length| == MAX_IMAGES
        invariant forall k :: 0 <= k < at - 1 || i <= k < newCfg.imgNumber ==>
          start[k] == gcfg.imgStart[k] && length[k] == gcfg.imgLength[k]
        invariant forall k :: at - 1 <= k < i && k + 1 < newCfg.imgNumber ==>
          start[k] == gcfg.imgStart[k + 1] && length[k] == gcfg.imgLength[k + 1]
      {
        length := length[i := if i + 1 < MAX_IMAGES then length[i + 1] else beyond];
        start := start[i := if i + 1 < MAX_IMAGES then start[i + 1] else length[0]];
      }
      ghost var before := Images();
      gcfg := Config(newCfg.imgNumber - 1, start, length);
      ConfigWellFormed();
      ImagesCount();
      RemovedIs(before, num, Images());
    }

    /** The delete command without an argument clears every entry */
    method DelAllImages()
      requires gcfg.WellFormed()
      modifies this
      ensures gcfg.WellFormed() && Images() == []
      ensures forall k :: 0 <= k < MAX_IMAGES ==> gcfg.imgStart[k] == gcfg.imgLength[k] == 0
    {
      var start: seq<nat>, length: seq<nat> := gcfg.imgStart, gcfg.imgLength;
      for i := 0 to MAX_IMAGES
        invariant |start| == |length| == MAX_IMAGES
        invariant forall k :: 0 <= k < i ==> start[k] == length[k] == 0
      {
        length := length[i := 0];
        start := start[i := 0];
      }
      gcfg := Config(0, start, length);
    }

    lemma ConfigWellFormed()
      ensures gcfg.WellFormed() <==> gcfg.imgNumber <= MAX_IMAGES && |gcfg.imgStart| == |gcfg.imgLength| == MAX_IMAGES
    {
    }

    lemma ImagesCount()
      requires gcfg.WellFormed()
      ensures |Images()| == gcfg.imgNumber <= MAX_IMAGES
      ensures |gcfg.imgStart| == |gcfg.imgLength| == MAX_IMAGES
      ensures forall i :: 0 <= i < gcfg.imgNumber ==> Images()[i] == Image(gcfg.imgStart[i], gcfg.imgLength[i])
    {
    }

    lemma EndIs(im: Image)
      ensures End(bd, im) == bd.Align(im.start + im.length)
    {
    }
  }

  /** `a - b` on 32-bit values */
  function Sub32(a: nat, b: nat): nat
    requires b <= TWO32
  {
    (a + TWO32 - b) % TWO32
  }

  lemma Sub32Exact(a: nat, b: nat)
    requires b <= a < TWO32
    ensures Sub32(a, b) == a - b
  {
  }

  method MeasureGaps(bd: Board, startAddr: array<nat>, endAddr: array<nat>, free: array<nat>, stAddr: array<nat>,
                     n: nat)
    requires 0 < n < MAX_IMAGES
    requires free != startAddr && free != endAddr && stAddr != startAddr && stAddr != endAddr && free != stAddr
    requires startAddr.Length == endAddr.Length == free.Length == stAddr.Length == MAX_IMAGES
    requires forall k :: 0 <= k < n ==> FLASH_IMAGES_BASE <= startAddr[k] < endAddr[k] <= bd.Limit()
    requires forall k :: 1 <= k < n ==> endAddr[k - 1] <= startAddr[k]
    modifies free, stAddr
    ensures FreeRanges(bd, startAddr[..n], endAddr[..n], free[..], stAddr[..])
  {
    hide *;
    Numbers(bd);
    for i := 1 to n
      invariant forall k :: 1 <= k < i ==> stAddr[k] == endAddr[k - 1] && free[k] + endAddr[k - 1] == startAddr[k]
    {
      stAddr[i] := endAddr[i - 1];
      Sub32Exact(startAddr[i], endAddr[i - 1]);
      free[i] := Sub32(startAddr[i], endAddr[i - 1]);
    }
    stAddr[0] := FLASH_IMAGES_BASE;
    Sub32Exact(startAddr[0], FLASH_IMAGES_BASE);
    free[0] := Sub32(startAddr[0], FLASH_IMAGES_BASE);
    stAddr[n] := endAddr[n - 1];
    Sub32Exact(bd.Limit(), endAddr[n - 1]);
    free[n] := Sub32(bd.Limit(), endAddr[n - 1]);
    FreeRangesHold(bd, startAddr[..n], endAddr[..n], free[..], stAddr[..]);
  }

  lemma LayoutBounds(bd: Board, t: Table, s: seq<nat>, e: seq<nat>, perm: seq<nat>, inv: seq<nat>)
    requires Layout(bd, t, s, e, perm, inv)
    ensures |s| == |e| == |t|
    ensures forall k :: 0 <= k < |t| ==> FLASH_IMAGES_BASE <= s[k] < e[k] <= bd.Limit()
    ensures forall k :: 1 <= k < |t| ==> e[k - 1] <= s[k]
  {
    hide End, Board.Limit;
  }

  lemma Numbers(bd: Board)
    ensures 0 < MAX_IMAGES
    ensures 0 < FLASH_IMAGES_BASE < bd.Limit() < TWO32
  {
  }

  lemma FreeRangesHold(bd: Board, s: seq<nat>, e: seq<nat>, free: seq<nat>, addr: seq<nat>)
    requires 0 < |s| == |e| < |free| == |addr|
    requires addr[0] == FLASH_IMAGES_BASE && free[0] + FLASH_IMAGES_BASE == s[0]
    requires forall k :: 1 <= k < |s| ==> addr[k] == e[k - 1] && free[k] + e[k - 1] == s[k]
    requires addr[|s|] == e[|s| - 1] && free[|s|] + e[|s| - 1] == bd.Limit()
    ensures FreeRanges(bd, s, e, free, addr)
  {
    hide Board.Limit;
  }

  lemma PlacementFound(bd: Board, t: Table, size: nat, addr: nat, free: nat)
    requires BestGap(bd, t, size, addr, addr + free)
    requires Valid(bd, t)
    ensures addr != 0 && Placement(bd, t, size, addr)
  {
    GapAligned(bd, t, addr, addr + free);
    hide IsGap, Valid;
  }

  lemma PlacementNone(bd: Board, t: Table, size: nat)
    requires forall a: nat, b: nat :: IsGap(bd, t, a, b) ==> b - a < size
    ensures Placement(bd, t, size, 0)
  {
  }

  // --- what the table operations do, and runs of them ---

  /** Position, counted from 1, at which an insertion lands */
  function Position(t: Table, num: nat): nat {
    if num == 0 || num > |t| + 1 then |t| + 1 else num
  }

  /** The outcome of recording an image: refused and unchanged, or inserted at its
      position with everything else kept in order */
  ghost predicate Inserted(bd: Board, t: Table, num: nat, size: nat, t': Table, addr: nat) {
    if addr == NO_ADDR then
      t' == t && (|t| == MAX_IMAGES || forall a: nat, b: nat :: IsGap(bd, t, a, b) ==> b - a < size)
    else
      && |t| < MAX_IMAGES
      && (if t == [] then addr == FLASH_IMAGES_BASE else addr != 0 && Placement(bd, t, size, addr))
      && var at := Position(t, num) - 1;
         t' == t[..at] + [Image(addr, size)] + t[at..]
  }

  lemma RefusedIs(bd: Board, t: Table, num: nat, size: nat)
    requires |t| >= MAX_IMAGES || Placement(bd, t, size, 0)
    requires |t| <= MAX_IMAGES
    ensures Inserted(bd, t, num, size, t, NO_ADDR)
  {
    hide IsGap;
  }

  lemma InsertedIs(bd: Board, t: Table, num: nat, size: nat, t': Table, addr: nat, at: nat)
    requires Valid(bd, t) && |t| < MAX_IMAGES
    requires if t == [] then addr == FLASH_IMAGES_BASE else addr != 0 && Placement(bd, t, size, addr)
    requires |t'| == |t| + 1
    requires at == if num == 0 || num > |t| + 1 then |t| else num - 1
    requires t'[at] == Image(addr, size)
    requires forall k :: 0 <= k < at ==> t'[k] == t[k]
    requires forall k :: at < k < |t'| ==> t'[k] == t[k - 1]
    ensures Inserted(bd, t, num, size, t', addr)
  {
    hide IsGap, Valid, Placement;
    if t != [] { PlacementBelow(bd, t, size, addr); }
  }

  lemma PlacementBelow(bd: Board, t: Table, size: nat, addr: nat)
    requires Valid(bd, t) && addr != 0 && Placement(bd, t, size, addr)
    ensures addr < NO_ADDR
  {
    var hi: nat :| BestGap(bd, t, size, addr, hi);
    GapAligned(bd, t, addr, hi);
    hide IsGap, Valid;
  }

  /** It is number `num` if there are as many before it, else the last, and the others keep their order */
  lemma InsertedWhere(bd: Board, t: Table, num: nat, size: nat, t': Table, addr: nat)
    requires Inserted(bd, t, num, size, t', addr) && addr != NO_ADDR
    ensures var at := if 1 <= num <= |t| then num - 1 else |t|;
      && |t'| == |t| + 1 && t'[at] == Image(addr, size)
      && (forall k :: 0 <= k < at ==> t'[k] == t[k]) && (forall k :: at <= k < |t| ==> t'[k + 1] == t[k])
  {
    hide IsGap, Placement;
  }

  function Removed(t: Table, num: nat): Table {
    if t == [] then t
    else var at := (if num == 0 || num > |t| then |t| else num) - 1; t[..at] + t[at + 1..]
  }

  /** Number `num` goes if there is one, else the last */
  lemma RemovedWhere(t: Table, num: nat)
    ensures t == [] ==> Removed(t, num) == []
    ensures t != [] ==> var at := if 1 <= num <= |t| then num - 1 else |t| - 1;
      && |Removed(t, num)| == |t| - 1
      && (forall k :: 0 <= k < at ==> Removed(t, num)[k] == t[k])
      && (forall k :: at < k < |t| ==> Removed(t, num)[k - 1] == t[k])
  {
  }

  lemma RemovedIs(t: Table, num: nat, t': Table)
    ensures t == [] ==> Removed(t, num) == t
    ensures t != [] && |t'| == |t| - 1 ==>
      var at := (if num == 0 || num > |t| then |t| else num) - 1;
      (forall k :: 0 <= k < at ==> t'[k] == t[k]) && (forall k :: at <= k < |t'| ==> t'[k] == t[k + 1])
      ==> t' == Removed(t, num)
  {
  }

  lemma InsertKeepsApart(bd: Board, t: Table, im: Image, at: nat)
    requires Valid(bd, t) && |t| < MAX_IMAGES && at <= |t| && InArea(bd, im)
    requires forall i :: 0 <= i < |t| ==> Apart(bd, im, t[i])
    ensures Valid(bd, t[..at] + [im] + t[at..])
  {
    hide InArea, End;
    var t' := t[..at] + [im] + t[at..];
    forall i, j | 0 <= i < j < |t'| ensures Apart(bd, t'[i], t'[j]) {
      if i == at {
        assert t'[j] == t[j - 1];
      } else if j == at {
        assert t'[i] == t[i];
      } else {
        assert Apart(bd, t[if i < at then i else i - 1], t[if j < at then j else j - 1]);
      }
    }
  }

  /** An insertion leaves the table sound unless it was the first image and larger than
      the whole area: the search accepts any size when the table is empty */
  lemma InsertionSoundIff(bd: Board, t: Table, num: nat, size: nat, t': Table, addr: nat)
    requires Valid(bd, t) && size > 0 && Inserted(bd, t, num, size, t', addr)
    ensures Valid(bd, t') <==> addr == NO_ADDR || t != [] || size <= bd.FlashSize()
  {
    hide IsGap, Placement, End, Board.BlockSize;
    if addr != NO_ADDR {
      var at := Position(t, num) - 1;
      if t == [] {
        assert t' == [Image(addr, size)];
        assert t'[0].start % bd.BlockSize() == 0;
      } else {
        PlacementIsFree(bd, t, size, addr);
        InsertKeepsApart(bd, t, Image(addr, size), at);
      }
    }
  }

  lemma RemovalKeepsValid(bd: Board, t: Table, num: nat)
    requires Valid(bd, t)
    ensures Valid(bd, Removed(t, num))
  {
    hide InArea, Apart;
  }

  datatype Command = Prepare(num: nat, size: nat) | Delete(num: nat) | DeleteAll

  /** One command of the monitor, as the methods above promise it */
  ghost predicate Executes(bd: Board, t: Table, c: Command, t': Table) {
    match c
    case Prepare(num, size) => size > 0 && exists addr: nat :: Inserted(bd, t, num, size, t', addr)
    case Delete(num) => t' == Removed(t, num)
    case DeleteAll => t' == []
  }

  /** A run from the empty table; a first image never exceeds the area */
  ghost predicate Run(bd: Board, tables: seq<Table>, commands: seq<Command>) {
    && |tables| == |commands| + 1 && tables[0] == []
    && forall k :: 0 <= k < |commands| ==>
         && Executes(bd, tables[k], commands[k], tables[k + 1])
         && (tables[k] == [] && commands[k].Prepare? ==> commands[k].size <= bd.FlashSize())
  }

  /** In every state of every run the recorded images are block-aligned, inside the image
      area and share no flash block */
  lemma {:induction false} RunKeepsValid(bd: Board, tables: seq<Table>, commands: seq<Command>, k: nat)
    requires Run(bd, tables, commands) && k < |tables|
    ensures Valid(bd, tables[k])
    decreases k
  {
    hide Valid, Inserted, Removed, Board.FlashSize;
    if k == 0 {
      NothingRecorded(bd);
    } else {
      RunKeepsValid(bd, tables, commands, k - 1);
      var t, t' := tables[k - 1], tables[k];
      assert Executes(bd, t, commands[k - 1], t');
      match commands[k - 1]
      case Prepare(num, size) =>
        var addr: nat :| Inserted(bd, t, num, size, t', addr);
        InsertionSoundIff(bd, t, num, size, t', addr);
      case Delete(num) => RemovalKeepsValid(bd, t, num);
      case DeleteAll => NothingRecorded(bd);
    }
  }

  lemma NothingRecorded(bd: Board)
    ensures Valid(bd, [])
  {
  }
}
