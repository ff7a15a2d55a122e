/** The remote server's table of matchpoints: chained buckets that act as a finite map. */
module Matchpoints {
  import opened Bits
  import opened Options

  const MP_HASH_SIZE: nat := 1021

  datatype Kind = BpMemory | BpHardware | WpWrite | WpRead | WpAccess

  datatype Key = Key(kind: Kind, addr: nat)

  class Entry {
    const kind: Kind
    const addr: nat
    const instr: Word
    var next: Entry?

    constructor (kind: Kind, addr: nat, instr: Word, next: Entry?)
      ensures this.kind == kind && this.addr == addr && this.instr == instr && this.next == next
    {
      this.kind, this.addr, this.instr, this.next := kind, addr, instr, next;
    }

    function K(): Key {
      Key(kind, addr)
    }
  }

  function Bucket(k: Key): nat {
    k.addr % MP_HASH_SIZE
  }

  /** The entry at position `i`, null behind the last */
  function Link(c: seq<Entry>, i: nat): Entry? {
    if i < |c| then c[i] else null
  }

  /** The links of a chain run through exactly these entries and end */
  ghost predicate Linked(c: seq<Entry>)
    reads c
  {
    forall i :: 0 <= i < |c| ==> c[i].next == Link(c, i + 1)
  }

  /** Every key sits in its bucket, and no key twice */
  predicate Placed(c: seq<Entry>, b: nat) {
    && (forall i :: 0 <= i < |c| ==> Bucket(c[i].K()) == b)
    && forall i, j :: 0 <= i < j < |c| ==> c[i].K() != c[j].K()
  }

  /** What a chain stores */
  function Stored(c: seq<Entry>): map<Key, Word> {
    if c == [] then map[] else Stored(c[1..])[c[0].K() := c[0].instr]
  }

  lemma {:induction false} StoredAt(c: seq<Entry>, b: nat)
    requires Placed(c, b)
    ensures forall k :: k in Stored(c) <==> exists i :: 0 <= i < |c| && c[i].K() == k
    ensures forall i :: 0 <= i < |c| ==> c[i].K() in Stored(c) && Stored(c)[c[i].K()] == c[i].instr
    ensures forall k :: k in Stored(c) ==> Bucket(k) == b
  {
    if c != [] {
      var rest := c[1..];
      assert forall i :: 0 <= i < |rest| ==> rest[i] == c[i + 1];
      StoredAt(rest, b);
      forall k ensures k in Stored(c) <==> exists i :: 0 <= i < |c| && c[i].K() == k {
        if k in Stored(rest) {
          var i :| 0 <= i < |rest| && rest[i].K() == k;
          assert c[i + 1].K() == k;
        }
        if i :| 0 <= i < |c| && c[i].K() == k {
          if i > 0 { assert rest[i - 1].K() == k; }
        }
      }
      forall i | 0 <= i < |c| ensures c[i].K() in Stored(c) && Stored(c)[c[i].K()] == c[i].instr {
        if i > 0 { assert rest[i - 1] == c[i]; }
      }
    }
  }

  // --- the table as a value ---

  function AllOf(chains: seq<seq<Entry>>): set<Entry> {
    set b, i | 0 <= b < |chains| && 0 <= i < |chains[b]| :: chains[b][i]
  }

  /** The instruction kept for a key, if any: the finite map the chains stand for */
  function FindIn(chains: seq<seq<Entry>>, k: Key): Option<Word> {
    var b := Bucket(k);
    if b < |chains| && k in Stored(chains[b]) then Some(Stored(chains[b])[k]) else None
  }

  lemma StoredPush(e: Entry, c: seq<Entry>)
    ensures Stored([e] + c) == Stored(c)[e.K() := e.instr]
  {
    assert ([e] + c)[1..] == c;
  }

  lemma LinkedPush(e: Entry, c: seq<Entry>)
    requires Linked(c) && e.next == Link(c, 0)
    ensures Linked([e] + c)
  {
  }

  lemma PlacedPush(e: Entry, c: seq<Entry>, b: nat)
    requires Placed(c, b) && Bucket(e.K()) == b && e.K() !in Stored(c)
    ensures Placed([e] + c, b)
  {
    StoredAt(c, b);
    var d := [e] + c;
    forall i, j | 0 <= i < j < |d| ensures d[i].K() != d[j].K() {
      if i > 0 {
        assert d[i] == c[i - 1] && d[j] == c[j - 1];
      } else {
        assert d[j] == c[j - 1];
      }
    }
  }

  lemma FindPush(chains: seq<seq<Entry>>, e: Entry, k: Key)
    requires Bucket(e.K()) < |chains|
    ensures var b := Bucket(e.K());
      FindIn(chains[b := [e] + chains[b]], k) == if k == e.K() then Some(e.instr) else FindIn(chains, k)
    ensures AllOf(chains[Bucket(e.K()) := [e] + chains[Bucket(e.K())]]) == AllOf(chains) + {e}
  {
    var b := Bucket(e.K());
    StoredPush(e, chains[b]);
    var now := chains[b := [e] + chains[b]];
    forall x ensures x in AllOf(now) <==> x in AllOf(chains) + {e} {
      if x in AllOf(chains) {
        var d, i :| 0 <= d < |chains| && 0 <= i < |chains[d]| && chains[d][i] == x;
        assert now[d][if d == b then i + 1 else i] == x;
      }
      if x == e { assert now[b][0] == e; }
    }
    hide Stored;
  }

  /** Chain `c` without its entry `i` */
  function Without(c: seq<Entry>, i: nat): seq<Entry>
    requires i < |c|
  {
    c[..i] + c[i + 1..]
  }

  lemma PlacedRest(c: seq<Entry>, b: nat)
    requires c != [] && Placed(c, b)
    ensures Placed(c[1..], b) && c[0].K() !in Stored(c[1..])
  {
    var rest := c[1..];
    assert forall j :: 0 <= j < |rest| ==> rest[j] == c[j + 1];
    StoredAt(rest, b);
    hide Stored;
  }

  lemma StoredFirst(e: Entry, c: seq<Entry>)
    ensures Stored([e] + c) == Stored(c)[e.K() := e.instr] && ([e] + c)[1..] == c
  {
    assert ([e] + c)[1..] == c;
  }

  lemma {:induction false} StoredWithout(c: seq<Entry>, i: nat, b: nat)
    requires i < |c| && Placed(c, b)
    ensures Stored(Without(c, i)) == Stored(c) - {c[i].K()}
    decreases c
  {
    hide Stored;
    var rest := c[1..];
    assert c == [c[0]] + rest;
    StoredFirst(c[0], rest);
    PlacedRest(c, b);
    if i == 0 {
      assert Without(c, 0) == rest;
    } else {
      StoredWithout(rest, i - 1, b);
      assert Without(c, i) == [c[0]] + Without(rest, i - 1);
      StoredFirst(c[0], Without(rest, i - 1));
      assert c[0].K() != c[i].K() && c[i] == rest[i - 1];
    }
  }

  lemma PlacedWithout(c: seq<Entry>, i: nat, b: nat)
    requires i < |c| && Placed(c, b)
    ensures Placed(Without(c, i), b)
  {
    var d := Without(c, i);
    forall x, y | 0 <= x < y < |d| ensures d[x].K() != d[y].K() {
      assert d[x] == c[if x < i then x else x + 1] && d[y] == c[if y < i then y else y + 1];
    }
    forall x | 0 <= x < |d| ensures Bucket(d[x].K()) == b {
      assert d[x] == c[if x < i then x else x + 1];
    }
  }

  lemma FindWithout(chains: seq<seq<Entry>>, b: nat, i: nat, k: Key)
    requires b < |chains| && i < |chains[b]| && Placed(chains[b], b)
    ensures FindIn(chains[b := Without(chains[b], i)], k) == if k == chains[b][i].K() then None else FindIn(chains, k)
    ensures AllOf(chains[b := Without(chains[b], i)]) <= AllOf(chains)
  {
    StoredWithout(chains[b], i, b);
    hide Stored;
    var now := chains[b := Without(chains[b], i)];
    forall x | x in AllOf(now) ensures x in AllOf(chains) {
      var d, j :| 0 <= d < |now| && 0 <= j < |now[d]| && now[d][j] == x;
      if d == b { assert x == chains[b][if j < i then j else j + 1]; }
    }
  }

  /** A chain whose links skip entry `i` is the chain without it */
  lemma LinkedWithout(c: seq<Entry>, i: nat)
    requires i < |c| && (i > 0 ==> c[i - 1].next == Link(c, i + 1))
    requires forall j :: 0 <= j < |c| && j != i - 1 ==> c[j].next == Link(c, j + 1)
    ensures Linked(Without(c, i))
  {
    var d := Without(c, i);
    forall j | 0 <= j < |d| ensures d[j].next == Link(d, j + 1) {
      assert d[j] == c[if j < i then j else j + 1];
    }
  }

  class Table {
    const heads: array<Entry?>
    ghost var chains: seq<seq<Entry>>

    ghost predicate Valid()
      reads this, heads, Entries()
    {
      && heads.Length == |chains| == MP_HASH_SIZE
      && forall b :: 0 <= b < MP_HASH_SIZE ==> heads[b] == Link(chains[b], 0) && Linked(chains[b]) && Placed(chains[b], b)
    }

    ghost function Entries(): set<Entry>
      reads this
    {
      AllOf(chains)
    }

    ghost function Find(k: Key): Option<Word>
      reads this
    {
      FindIn(chains, k)
    }

    constructor ()
      ensures Valid() && fresh(heads) && Entries() == {} && forall k :: Find(k) == None
    {
      heads := new Entry?[MP_HASH_SIZE](_ => null);
      chains := seq(MP_HASH_SIZE, _ => []);
    }

    /** The entry for a key, or null */
    method Lookup(kind: Kind, addr: nat) returns (r: Entry?)
      requires Valid()
      ensures r == null <==> Find(Key(kind, addr)) == None
      ensures r != null ==> r in Entries() && r.K() == Key(kind, addr) && Find(Key(kind, addr)) == Some(r.instr)
    {
      var hv := addr % MP_HASH_SIZE;
      ghost var c := chains[hv];
      var curr := heads[hv];
      ghost var i := 0;
      while curr != null
        invariant i <= |c| && curr == Link(c, i)
        invariant forall j :: 0 <= j < i ==> c[j].K() != Key(kind, addr)
        decreases |c| - i
      {
        if curr.kind == kind && curr.addr == addr {
          StoredAt(c, hv);
          return curr;
        }
        curr := curr.next;
        i := i + 1;
      }
      StoredAt(c, hv);
      return null;
    }

    /** Adds an entry unless there is one for its key already */
    method Add(kind: Kind, addr: nat, instr: Word)
      requires Valid()
      modifies this, heads
      ensures Valid() && fresh(Entries() - old(Entries()))
      ensures forall k :: Find(k) == (if k == Key(kind, addr) && old(Find(k)) == None then Some(instr) else old(Find(k)))
    {
      hide Linked, Placed, Stored, AllOf, FindIn;
      var hv := addr % MP_HASH_SIZE;
      var found := Lookup(kind, addr);
      if found != null { return; }
      ghost var c, was := chains[hv], chains;
      NotFound(chains, Key(kind, addr));
      var curr := new Entry(kind, addr, instr, heads[hv]);
      heads[hv] := curr;
      chains := chains[hv := [curr] + c];
      LinkedPush(curr, c);
      PlacedPush(curr, c, hv);
      forall k ensures FindIn(chains, k) == if k == curr.K() then Some(instr) else FindIn(was, k) {
        FindPush(was, curr, k);
      }
      FindPush(was, curr, curr.K());
    }

    /** Unlinks the entry for a key and returns it, or null if there is none */
    method Delete(kind: Kind, addr: nat) returns (r: Entry?)
      requires Valid()
      modifies this, heads, Entries()
      ensures Valid() && Entries() <= old(Entries())
      ensures r == null <==> old(Find(Key(kind, addr))) == None
      ensures r != null ==> old(Find(Key(kind, addr))) == Some(r.instr) && r in old(Entries())
      ensures forall k :: Find(k) == if k == Key(kind, addr) then None else old(Find(k))
    {
      var hv := addr % MP_HASH_SIZE;
      ghost var c, was := chains[hv], chains;
      var prev: Entry? := null;
      var curr := heads[hv];
      ghost var i := 0;
      while curr != null
        invariant i <= |c| && curr == Link(c, i) && prev == (if i == 0 then null else c[i - 1])
        invariant forall j :: 0 <= j < i ==> c[j].K() != Key(kind, addr)
        decreases |c| - i
      {
        if curr.kind == kind && curr.addr == addr {
          Unlink(hv, i, prev, curr);
          return curr;
        }
        prev := curr;
        curr := curr.next;
        i := i + 1;
      }
      StoredAt(c, hv);
      return null;
    }

    /** Takes entry `i` out of its chain */
    method Unlink(hv: nat, ghost i: nat, prev: Entry?, curr: Entry)
      requires Valid() && hv < MP_HASH_SIZE && i < |chains[hv]| && curr == chains[hv][i]
      requires prev == if i == 0 then null else chains[hv][i - 1]
      modifies this, heads, Entries()
      ensures Valid() && Entries() <= old(Entries())
      ensures old(Find(curr.K())) == Some(curr.instr) && curr in old(Entries())
      ensures forall k :: Find(k) == if k == curr.K() then None else old(Find(k))
    {
      hide Linked, Placed, Stored, AllOf, FindIn;
      ghost var c, was := chains[hv], chains;
      EntryFacts(was, hv, i);
      Elsewhere(was, hv, i);
      ChainLinked(c);
      Distinct(c, hv);
      if prev == null {
        heads[hv] := curr.next;
      } else {
        prev.next := curr.next;
      }
      chains := chains[hv := Without(c, i)];
      LinkedWithout(c, i);
      PlacedWithout(c, i, hv);
      forall k ensures FindIn(chains, k) == if k == curr.K() then None else FindIn(was, k) {
        FindWithout(was, hv, i, k);
      }
      FindWithout(was, hv, i, curr.K());
    }
  }

  lemma NotFound(chains: seq<seq<Entry>>, k: Key)
    requires Bucket(k) < |chains| && FindIn(chains, k) == None
    ensures k !in Stored(chains[Bucket(k)])
  {
  }

  lemma EntryFacts(chains: seq<seq<Entry>>, b: nat, i: nat)
    requires b < |chains| && i < |chains[b]| && Placed(chains[b], b)
    ensures FindIn(chains, chains[b][i].K()) == Some(chains[b][i].instr)
    ensures forall d, j :: 0 <= d < |chains| && 0 <= j < |chains[d]| ==> chains[d][j] in AllOf(chains)
  {
    StoredAt(chains[b], b);
    hide Stored;
  }

  lemma ChainLinked(c: seq<Entry>)
    requires Linked(c)
    ensures forall j :: 0 <= j < |c| ==> c[j].next == Link(c, j + 1)
  {
  }

  lemma Distinct(c: seq<Entry>, b: nat)
    requires Placed(c, b)
    ensures forall i, j :: 0 <= i < j < |c| ==> c[i] != c[j]
  {
    forall i, j | 0 <= i < j < |c| ensures c[i] != c[j] {
      assert c[i].K() != c[j].K();
    }
  }

  /** An entry is in no other bucket's chain */
  lemma Elsewhere(chains: seq<seq<Entry>>, b: nat, i: nat)
    requires |chains| == MP_HASH_SIZE && b < |chains| && i < |chains[b]|
    requires forall d :: 0 <= d < MP_HASH_SIZE ==> Placed(chains[d], d)
    ensures forall d, j :: 0 <= d < MP_HASH_SIZE && d != b && 0 <= j < |chains[b]| ==> chains[b][j] !in chains[d]
  {
    forall d, j | 0 <= d < MP_HASH_SIZE && d != b && 0 <= j < |chains[b]| ensures chains[b][j] !in chains[d] {
      assert Placed(chains[b], b) && Placed(chains[d], d);
      assert Bucket(chains[b][j].K()) == b;
    }
  }
}
