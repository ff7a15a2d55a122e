/** Memory breakpoints: trap instructions laid over the program, with the originals in the table. */
module Breakpoints {
  import opened Bits
  import opened Options
  import opened DebugUnit
  import opened Transfers
  import opened Matchpoints

  const OR1K_TRAP_INSTR: Word := Hex([2, 1, 0, 0, 0, 0, 0, 1])

  datatype Reply = Ok | Unsupported | Error

  // --- the table and the memory as values ---

  /** Target memory and the instructions kept, by address */
  datatype Target = Target(mem: Memory, kept: map<nat, Word>)

  /** The word the bus unit accesses for an address, aligned or not */
  function WordAt(mem: Memory, addr: nat): Word {
    ReadMem(mem, Lane(addr, 4), 4)
  }

  function PutWord(mem: Memory, addr: nat, w: Word): Memory {
    WriteMem(mem, Lane(addr, 4), w)
  }

  function Insert(t: Target, addr: nat): Target {
    Target(PutWord(t.mem, addr, OR1K_TRAP_INSTR),
           if addr in t.kept then t.kept else t.kept[addr := WordAt(t.mem, addr)])
  }

  function Dropped(kept: map<nat, Word>, addr: nat): (r: map<nat, Word>)
    ensures forall a :: a in r <==> a in kept && a != addr
    ensures forall a :: a in r ==> r[a] == kept[a]
  {
    kept - {addr}
  }

  function Remove(t: Target, addr: nat): Target {
    if addr in t.kept then Target(PutWord(t.mem, addr, t.kept[addr]), Dropped(t.kept, addr)) else t
  }

  datatype Request = Set(addr: nat) | Clear(addr: nat)

  function Run(t: Target, requests: seq<Request>): Target {
    if requests == [] then t else
      var last := requests[|requests| - 1];
      var before := Run(t, requests[..|requests| - 1]);
      match last
      case Set(a) => Insert(before, a)
      case Clear(a) => Remove(before, a)
  }

  /** All requests name addresses of the set */
  predicate Within(requests: seq<Request>, addrs: set<nat>) {
    forall i :: 0 <= i < |requests| ==> requests[i].addr in addrs
  }

  /** No two addresses are in one word */
  predicate Apart(addrs: set<nat>) {
    forall a, b :: a in addrs && b in addrs && a != b ==> Lane(a, 4) != Lane(b, 4)
  }

  /** Is there a breakpoint in the word of address `x`? */
  predicate Trapped(kept: map<nat, Word>, x: nat) {
    exists a :: a in kept && Lane(a, 4) == Lane(x, 4)
  }

  /** Memory is the original program with a trap at exactly the kept addresses, and what is kept
      is what the traps hide */
  ghost predicate Overlay(original: Memory, addrs: set<nat>, t: Target) {
    && (forall a :: a in t.kept ==> a in addrs && t.kept[a] == WordAt(original, a))
    && forall x: nat :: WordAt(t.mem, x) == if Trapped(t.kept, x) then OR1K_TRAP_INSTR else WordAt(original, x)
  }

  lemma PutWordAt(mem: Memory, a: nat, w: Word, x: nat)
    ensures WordAt(PutWord(mem, a, w), x) == if Lane(a, 4) == Lane(x, 4) then w else WordAt(mem, x)
  {
    hide ReadMem, WriteMem, Lane;
    BusAccess(mem, a, x, 4, w);
  }

  lemma InsertKeeps(original: Memory, addrs: set<nat>, t: Target, addr: nat)
    requires Overlay(original, addrs, t) && Apart(addrs) && addr in addrs
    ensures Overlay(original, addrs, Insert(t, addr))
  {
    hide WordAt, PutWord, Lane;
    var n := Insert(t, addr);
    if addr !in t.kept { assert !Trapped(t.kept, addr); }
    forall x: nat
      ensures WordAt(n.mem, x) == if Trapped(n.kept, x) then OR1K_TRAP_INSTR else WordAt(original, x)
    {
      PutWordAt(t.mem, addr, OR1K_TRAP_INSTR, x);
      assert addr in n.kept;
      if Trapped(t.kept, x) {
        var a :| a in t.kept && Lane(a, 4) == Lane(x, 4);
        assert a in n.kept;
      }
    }
  }

  lemma RemoveKeeps(original: Memory, addrs: set<nat>, t: Target, addr: nat)
    requires Overlay(original, addrs, t) && Apart(addrs)
    ensures Overlay(original, addrs, Remove(t, addr))
  {
    hide WordAt, PutWord, Lane, Dropped;
    if addr in t.kept {
      var n := Remove(t, addr);
      forall x: nat
        ensures WordAt(n.mem, x) == if Trapped(n.kept, x) then OR1K_TRAP_INSTR else WordAt(original, x)
      {
        PutWordAt(t.mem, addr, t.kept[addr], x);
        SameWord(original, addr, x);
        if Lane(addr, 4) != Lane(x, 4) && Trapped(t.kept, x) {
          var a :| a in t.kept && Lane(a, 4) == Lane(x, 4);
          assert a in n.kept;
        }
      }
    }
  }

  lemma SameWord(mem: Memory, a: nat, x: nat)
    ensures Lane(a, 4) == Lane(x, 4) ==> WordAt(mem, a) == WordAt(mem, x)
  {
    hide ReadMem, Lane;
  }

  /** The invariant holds over every run of requests at addresses in different words, duplicates
      included */
  lemma {:induction false} RunKeepsOverlay(original: Memory, addrs: set<nat>, requests: seq<Request>)
    requires Apart(addrs) && Within(requests, addrs)
    ensures Overlay(original, addrs, Run(Target(original, map[]), requests))
    decreases requests
  {
    hide WordAt, Overlay, Insert, Remove, Apart;
    if requests == [] {
      StartsOverlaid(original, addrs);
    } else {
      var earlier := requests[..|requests| - 1];
      RunKeepsOverlay(original, addrs, earlier);
      var t := Run(Target(original, map[]), earlier);
      match requests[|requests| - 1]
      case Set(a) => InsertKeeps(original, addrs, t, a);
      case Clear(a) => RemoveKeeps(original, addrs, t, a);
    }
  }

  lemma StartsOverlaid(original: Memory, addrs: set<nat>)
    ensures Overlay(original, addrs, Target(original, map[]))
  {
    hide WordAt;
  }

  // --- when removing all breakpoints restores the memory ---

  /** Once every breakpoint is removed, memory is the original byte for byte */
  ghost predicate Restores(original: Memory, requests: seq<Request>) {
    var t := Run(Target(original, map[]), requests);
    t.kept == map[] ==> forall a :: ByteAt(t.mem, a) == ByteAt(original, a)
  }

  lemma WordIsBytes(mem: Memory, w: nat)
    requires w % 4 == 0
    ensures WordAt(mem, w) == ((([] + ByteAt(mem, w + 3)) + ByteAt(mem, w + 2)) + ByteAt(mem, w + 1)) + ByteAt(mem, w)
  {
    hide ByteAt, ReadMem;
    ReadMemStep(mem, w, 4);
    ReadMemStep(mem, w + 1, 3);
    ReadMemStep(mem, w + 2, 2);
    ReadMemStep(mem, w + 3, 1);
    ReadMemStep(mem, w + 4, 1);
  }

  /** The bytes of a word, the first one most significant */
  lemma WordBytes(mem: Memory, w: nat, k: nat)
    requires w % 4 == 0 && k < 4
    ensures WordAt(mem, w)[24 - 8 * k..32 - 8 * k] == ByteAt(mem, w + k)
  {
    hide ByteAt, ReadMem, WordAt;
    WordIsBytes(mem, w);
  }

  lemma RemovedAllRestores(original: Memory, addrs: set<nat>, requests: seq<Request>)
    requires Apart(addrs) && Within(requests, addrs)
    ensures Restores(original, requests)
  {
    hide Run, WordAt, ByteAt;
    RunKeepsOverlay(original, addrs, requests);
    var t := Run(Target(original, map[]), requests);
    if t.kept == map[] {
      forall a: nat ensures ByteAt(t.mem, a) == ByteAt(original, a) {
        var k := a % 4;
        WordBytes(t.mem, a - k, k);
        WordBytes(original, a - k, k);
      }
    }
  }

  lemma RunMore(t: Target, requests: seq<Request>, r: Request)
    ensures Run(t, requests + [r]) ==
      if r.Set? then Insert(Run(t, requests), r.addr) else Remove(Run(t, requests), r.addr)
    ensures Run(t, []) == t
  {
    hide Insert, Remove;
    assert (requests + [r])[..|requests|] == requests;
  }

  /** Two breakpoints in one word, removed in the order they were set: the second has kept the first
      one's trap and puts it back */
  lemma TrapLeft(original: Memory, a: nat, b: nat)
    requires a != b && Lane(a, 4) == Lane(b, 4)
    ensures var t := Run(Target(original, map[]), [Set(a), Set(b), Clear(a), Clear(b)]);
      t.kept == map[] && WordAt(t.mem, a) == OR1K_TRAP_INSTR
  {
    hide WordAt, PutWord, Run, Lane;
    var t0 := Target(original, map[]);
    RunMore(t0, [], Set(a));
    RunMore(t0, [Set(a)], Set(b));
    RunMore(t0, [Set(a), Set(b)], Clear(a));
    RunMore(t0, [Set(a), Set(b), Clear(a)], Clear(b));
    assert [] + [Set(a)] == [Set(a)] && [Set(a)] + [Set(b)] == [Set(a), Set(b)];
    assert [Set(a), Set(b)] + [Clear(a)] == [Set(a), Set(b), Clear(a)];
    assert [Set(a), Set(b), Clear(a)] + [Clear(b)] == [Set(a), Set(b), Clear(a), Clear(b)];
    var t1 := Insert(t0, a);
    PutWordAt(original, a, OR1K_TRAP_INSTR, b);
    var t3 := Remove(Insert(t1, b), a);
    assert t3.kept[b] == OR1K_TRAP_INSTR;
    var t := Remove(t3, b);
    assert t.kept == map[];
    PutWordAt(t3.mem, b, OR1K_TRAP_INSTR, a);
  }

  lemma EmptyHasNoTrap(a: nat)
    ensures WordAt(map[], a) != OR1K_TRAP_INSTR
  {
    NoBytes(map[], Lane(a, 4), 4);
    assert OR1K_TRAP_INSTR[0];
    assert !Fill(32, false)[0];
  }

  lemma SameBytesSameWord(mem: Memory, now: Memory, x: nat)
    requires forall a :: ByteAt(now, a) == ByteAt(mem, a)
    ensures WordAt(now, x) == WordAt(mem, x)
  {
    hide ByteAt, ReadMem;
    ReadUnchanged(mem, now, Lane(x, 4), 4);
  }

  /** Removing all breakpoints restores the memory after every run of requests at some addresses, and
      for every program, exactly when no two of the addresses are in one word */
  lemma RestoresIff(addrs: set<nat>)
    ensures (forall original: Memory, requests: seq<Request> :: Within(requests, addrs) ==> Restores(original, requests))
      <==> Apart(addrs)
  {
    hide WordAt, Run, Lane, Restores;
    if Apart(addrs) {
      forall original: Memory, requests: seq<Request> | Within(requests, addrs) ensures Restores(original, requests) {
        RemovedAllRestores(original, addrs, requests);
      }
    } else {
      var a, b :| a in addrs && b in addrs && a != b && Lane(a, 4) == Lane(b, 4);
      var requests := [Set(a), Set(b), Clear(a), Clear(b)];
      TrapLeft(map[], a, b);
      EmptyHasNoTrap(a);
      NotRestored(requests, a);
      assert Within(requests, addrs) && !Restores(map[], requests);
    }
  }

  lemma NotRestored(requests: seq<Request>, x: nat)
    requires var t := Run(Target(map[], map[]), requests); t.kept == map[] && WordAt(t.mem, x) != WordAt(map[], x)
    ensures !Restores(map[], requests)
  {
    hide WordAt, Run, ByteAt;
    var t := Run(Target(map[], map[]), requests);
    if Restores(map[], requests) { SameBytesSameWord(map[], t.mem, x); }
  }

  // --- the server ---

  class Server {
    const table: Table
    var mem: Memory

    constructor (mem: Memory)
      ensures this.mem == mem && fresh(table) && fresh(table.heads) && table.Valid() && table.Entries() == {}
      ensures forall k :: table.Find(k) == None
    {
      this.mem := mem;
      table := new Table();
    }

    /** The table and the memory stand for `t` */
    ghost predicate Stands(t: Target)
      reads this, table, table.heads, table.Entries()
    {
      && table.Valid() && mem == t.mem
      && forall a: nat :: table.Find(Key(BpMemory, a)) == if a in t.kept then Some(t.kept[a]) else None
    }

    /** Sets a breakpoint.  Only memory breakpoints are supported. */
    method InsertMatchpoint(kind: int, addr: nat, ghost t: Target) returns (r: Reply)
      requires Stands(t)
      modifies this`mem, table, table.heads
      ensures r == if kind == 0 then Ok else if 1 <= kind <= 4 then Unsupported else Error
      ensures Stands(if kind == 0 then Insert(t, addr) else t)
      ensures fresh(table.Entries() - old(table.Entries()))
    {
      hide PutWord, WordAt, Table.Valid, Table.Find, Table.Entries;
      if kind == 0 {
        var instr := WordAt(mem, addr);
        table.Add(BpMemory, addr, instr);
        mem := PutWord(mem, addr, OR1K_TRAP_INSTR);
        ghost var n := Insert(t, addr);
        forall a: nat ensures table.Find(Key(BpMemory, a)) == if a in n.kept then Some(n.kept[a]) else None {
        }
        return Ok;
      }
      return if 1 <= kind <= 4 then Unsupported else Error;
    }

    /** Clears a breakpoint, if it is still there */
    method RemoveMatchpoint(kind: int, addr: nat, ghost t: Target) returns (r: Reply)
      requires Stands(t)
      modifies this`mem, table, table.heads, table.Entries()
      ensures r == if kind == 0 then Ok else if 1 <= kind <= 4 then Unsupported else Error
      ensures Stands(if kind == 0 then Remove(t, addr) else t)
      ensures table.Entries() <= old(table.Entries())
    {
      hide PutWord, WordAt, Table.Valid, Table.Find, Table.Entries, Dropped;
      if kind == 0 {
        assert table.Find(Key(BpMemory, addr)) == if addr in t.kept then Some(t.kept[addr]) else None;
        var e := table.Delete(BpMemory, addr);
        if e != null {
          mem := PutWord(mem, addr, e.instr);
        }
        ghost var n := Remove(t, addr);
        forall a: nat ensures table.Find(Key(BpMemory, a)) == if a in n.kept then Some(n.kept[a]) else None {
        }
        return Ok;
      }
      return if 1 <= kind <= 4 then Unsupported else Error;
    }
  }
}
