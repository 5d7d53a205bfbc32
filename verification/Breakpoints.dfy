/** The breakpoint manager: two intrusive lists over one pool of 32 nodes, and INT3 bytes planted
    in guest memory.  Pointers into the pool are indices, NULL is -1. */
module Breakpoints {
  import opened Lists
  import opened Options
  import opened BreakpointRuns

  const NR_BP: nat := 32

  datatype BP = BP(NO: nat, inUse: bool, enable: bool, addr: Address, oriByte: Byte, next: int)

  // ---------- the pool as a value ----------

  /** The pool, the two list heads and, for the proofs, the nodes on each list in order. */
  datatype Pool = Pool(nodes: seq<BP>, head: int, free: int, active: seq<nat>, spare: seq<nat>)

  /** The list that starts at `first` runs through exactly these nodes. */
  ghost predicate Chain(pool: seq<BP>, first: int, list: seq<nat>) {
    && (forall i :: 0 <= i < |list| ==> list[i] < |pool|)
    && first == (if list == [] then NULL else list[0])
    && forall i :: 0 <= i < |list| ==> pool[list[i]].next == NextOf(list, i)
  }

  /** in_use marks the active nodes. */
  ghost predicate Marks(pool: seq<BP>, active: seq<nat>) {
    && |pool| == NR_BP
    && forall n: nat :: n < NR_BP ==> pool[n].NO == n && (pool[n].inUse <==> n in active)
  }

  ghost predicate Consistent(p: Pool) {
    && Partition(NR_BP, p.active, p.spare)
    && Marks(p.nodes, p.active)
    && Chain(p.nodes, p.head, p.active)
    && Chain(p.nodes, p.free, p.spare)
  }

  function EntryOf(b: BP): Entry { Entry(b.addr, b.oriByte) }

  /** What the manager remembers: address and overwritten byte, newest first. */
  ghost function EntriesOf(p: Pool): (es: seq<Entry>)
    requires Consistent(p)
    ensures |es| == |p.active|
  {
    seq(|p.active|, i requires 0 <= i < |p.active| => EntryOf(p.nodes[p.active[i]]))
  }

  function InitialPool(): Pool {
    Pool(seq(NR_BP, (i: nat) => BP(i, false, false, 0, 0, if i + 1 < NR_BP then i + 1 else NULL)),
         NULL, 0, [], seq(NR_BP, (i: nat) => i))
  }

  lemma InitialConsistent()
    ensures Consistent(InitialPool()) && EntriesOf(InitialPool()) == []
  {
    var p := InitialPool();
    forall n: nat | n < NR_BP ensures p.spare[n] == n && n in p.spare {}
  }

  /** The first spare node, filled in, becomes the first active one. */
  ghost function Taken(p: Pool, addr: Address, byte: Byte): Pool
    requires Consistent(p) && p.free != NULL
  {
    var n := p.spare[0];
    Pool(p.nodes[n := BP(n, true, true, addr, byte, p.head)], n, p.nodes[n].next, [n] + p.active, p.spare[1..])
  }

  lemma ChainFrame(pool: seq<BP>, after: seq<BP>, first: int, list: seq<nat>)
    requires Chain(pool, first, list) && |after| == |pool|
    requires forall i :: 0 <= i < |list| ==> after[list[i]].next == pool[list[i]].next
    ensures Chain(after, first, list)
  {}

  lemma ChainTail(pool: seq<BP>, first: int, list: seq<nat>)
    requires Chain(pool, first, list) && list != []
    ensures Chain(pool, pool[list[0]].next, list[1..])
  {
    var rest := list[1..];
    assert pool[list[0]].next == NextOf(list, 0);
    forall i | 0 <= i < |rest| ensures rest[i] < |pool| && pool[rest[i]].next == NextOf(rest, i) {
      assert pool[list[i + 1]].next == NextOf(list, i + 1);
    }
  }

  lemma ChainCons(pool: seq<BP>, n: nat, first: int, list: seq<nat>)
    requires Chain(pool, first, list) && n < |pool| && pool[n].next == first
    ensures Chain(pool, n, [n] + list)
  {
    var whole := [n] + list;
    forall i | 0 <= i < |whole| ensures whole[i] < |pool| && pool[whole[i]].next == NextOf(whole, i) {
      if i > 0 { assert whole[i] == list[i - 1] && pool[list[i - 1]].next == NextOf(list, i - 1); }
    }
  }

  /** Taking the k-th node out of a list by redirecting the link before it. */
  lemma ChainUnlink(pool: seq<BP>, after: seq<BP>, first: int, list: seq<nat>, k: nat)
    requires Chain(pool, first, list) && k < |list| && |after| == |pool|
    requires forall i :: 0 <= i < |list| && i != k && i + 1 != k ==> after[list[i]].next == pool[list[i]].next
    requires k > 0 ==> after[list[k - 1]].next == pool[list[k]].next
    ensures Chain(after, if k == 0 then pool[list[0]].next else first, Without(list, k))
  {
    forall i | 0 <= i < |list| - 1
      ensures Without(list, k)[i] < |pool| && after[Without(list, k)[i]].next == NextOf(Without(list, k), i)
    {
      UnlinkedAt(pool, after, first, list, k, i);
    }
  }

  lemma UnlinkedAt(pool: seq<BP>, after: seq<BP>, first: int, list: seq<nat>, k: nat, i: nat)
    requires Chain(pool, first, list) && k < |list| && i + 1 < |list| && |after| == |pool|
    requires forall j :: 0 <= j < |list| && j != k && j + 1 != k ==> after[list[j]].next == pool[list[j]].next
    requires k > 0 ==> after[list[k - 1]].next == pool[list[k]].next
    ensures Without(list, k)[i] < |pool| && after[Without(list, k)[i]].next == NextOf(Without(list, k), i)
  {
    hide Without;
    var rest, j := Without(list, k), if i < k then i else i + 1;
    assert rest[i] == list[j] && pool[list[j]].next == NextOf(list, j) && pool[list[k]].next == NextOf(list, k);
    if i + 1 < |rest| { assert rest[i + 1] == list[if i + 1 < k then i + 1 else i + 2]; }
  }

  lemma TakenConsistent(p: Pool, addr: Address, byte: Byte)
    requires Consistent(p) && p.free != NULL
    ensures p.spare != [] && p.free == p.spare[0]
    ensures Consistent(Taken(p, addr, byte))
    ensures EntriesOf(Taken(p, addr, byte)) == [Entry(addr, byte)] + EntriesOf(p)
  {
    hide Consistent, Taken, EntriesOf;
    TakenLists(p, addr, byte);
    var q, es := Taken(p, addr, byte), [Entry(addr, byte)] + EntriesOf(p);
    AllListed(p);
    AllListed(q);
    TakenParts(p, addr, byte);
    forall i | 0 <= i < |es| ensures EntriesOf(q)[i] == es[i] {
      ActiveAt(q, i);
      if i > 0 {
        ActiveAt(p, i - 1);
        TakenAt(p, addr, byte, i - 1);
      }
    }
  }

  lemma TakenParts(p: Pool, addr: Address, byte: Byte)
    requires Consistent(p) && p.free != NULL && p.spare != []
    ensures var q := Taken(p, addr, byte);
            q.active == [p.spare[0]] + p.active && p.spare[0] < |q.nodes|
            && EntryOf(q.nodes[p.spare[0]]) == Entry(addr, byte)
  {}

  /** The other nodes on the list are as before. */
  lemma TakenAt(p: Pool, addr: Address, byte: Byte, i: nat)
    requires Consistent(p) && p.free != NULL && p.spare != [] && i < |p.active|
    ensures p.active[i] < |p.nodes| == |Taken(p, addr, byte).nodes|
    ensures Taken(p, addr, byte).nodes[p.active[i]] == p.nodes[p.active[i]]
  {
    ListedInPool(p);
  }

  lemma TakenLists(p: Pool, addr: Address, byte: Byte)
    requires Consistent(p) && p.free != NULL
    ensures p.spare != [] && p.free == p.spare[0]
    ensures Consistent(Taken(p, addr, byte))
  {
    var q, n := Taken(p, addr, byte), p.spare[0];
    ListedInPool(p);
    PartitionTake(NR_BP, p.active, p.spare);
    hide Chain, Partition;
    ChainFrame(p.nodes, q.nodes, p.head, p.active);
    ChainCons(q.nodes, n, p.head, p.active);
    ChainTail(p.nodes, p.free, p.spare);
    ChainFrame(p.nodes, q.nodes, q.free, q.spare);
    assert forall i :: 0 <= i < |p.active| ==> q.active[i + 1] == p.active[i];
  }

  lemma ListedInPool(p: Pool)
    requires Consistent(p)
    ensures forall i :: 0 <= i < |p.active| ==>
              p.active[i] in p.active && p.active[i] < NR_BP && p.active[i] !in p.spare
    ensures forall i :: 0 <= i < |p.spare| ==> p.spare[i] in p.spare && p.spare[i] < NR_BP && p.spare[i] !in p.active
    ensures forall i, j :: 0 <= i < j < |p.active| ==> p.active[i] != p.active[j]
    ensures forall i, j :: 0 <= i < j < |p.spare| ==> p.spare[i] != p.spare[j]
  {}

  /** The k-th active node, unlinked and pushed on the free list. */
  ghost function Unlinked(p: Pool, k: nat): seq<BP>
    requires Consistent(p) && k < |p.active|
  {
    var n := p.active[k];
    if k == 0 then p.nodes
    else p.nodes[p.active[k - 1] := p.nodes[p.active[k - 1]].(next := p.nodes[n].next)]
  }

  ghost function Released(p: Pool, k: nat): Pool
    requires Consistent(p) && k < |p.active|
  {
    var n := p.active[k];
    var nodes := Unlinked(p, k);
    Pool(nodes[n := nodes[n].(inUse := false, next := p.free)],
         if k == 0 then p.nodes[n].next else p.head, n,
         Without(p.active, k), [n] + p.spare)
  }

  /** Releasing touches the node and the link of the one before it, and nothing else. */
  lemma ReleasedAt(p: Pool, k: nat, m: nat)
    requires Consistent(p) && k < |p.active| && m < NR_BP
    ensures |Released(p, k).nodes| == NR_BP
    ensures Released(p, k).nodes[m] ==
            if m == p.active[k] then p.nodes[m].(inUse := false, next := p.free)
            else if k > 0 && m == p.active[k - 1] then p.nodes[m].(next := p.nodes[p.active[k]].next)
            else p.nodes[m]
  {
    ListedInPool(p);
    hide Chain, Partition, Marks, Without;
  }

  lemma ReleasedParts(p: Pool, k: nat)
    requires Consistent(p) && k < |p.active|
    ensures var q := Released(p, k);
            && q.head == (if k == 0 then p.nodes[p.active[0]].next else p.head) && q.free == p.active[k]
            && q.active == Without(p.active, k) && q.spare == [p.active[k]] + p.spare
  {}

  lemma ReleasedMarks(p: Pool, k: nat)
    requires Consistent(p) && k < |p.active|
    ensures Marks(Released(p, k).nodes, Released(p, k).active)
  {
    hide Chain, Without, Released, Unlinked, Partition;
    PartitionRelease(NR_BP, p.active, p.spare, k);
    ReleasedParts(p, k);
    ReleasedAt(p, k, 0);
    forall m: nat | m < NR_BP
      ensures Released(p, k).nodes[m].NO == m && (Released(p, k).nodes[m].inUse <==> m in Released(p, k).active)
    {
      ReleasedAt(p, k, m);
      assert m == p.active[k] ==> m !in Without(p.active, k) by { NotInWithout(p, k); }
    }
  }

  lemma NotInWithout(p: Pool, k: nat)
    requires Consistent(p) && k < |p.active|
    ensures p.active[k] !in Without(p.active, k)
  {}

  lemma ReleasedChains(p: Pool, k: nat)
    requires Consistent(p) && k < |p.active|
    ensures var q := Released(p, k); Chain(q.nodes, q.head, q.active) && Chain(q.nodes, q.free, q.spare)
  {
    ListedInPool(p);
    hide Chain, Without, Released, Unlinked, Partition, Marks;
    var q, n := Released(p, k), p.active[k];
    ReleasedParts(p, k);
    forall i | 0 <= i < |p.active|
      ensures i != k && i + 1 != k ==> q.nodes[p.active[i]].next == p.nodes[p.active[i]].next {
      ReleasedAt(p, k, p.active[i]);
    }
    if k > 0 { ReleasedAt(p, k, p.active[k - 1]); }
    ReleasedAt(p, k, n);
    ChainUnlink(p.nodes, q.nodes, p.head, p.active, k);
    forall i | 0 <= i < |p.spare| ensures q.nodes[p.spare[i]].next == p.nodes[p.spare[i]].next {
      ReleasedAt(p, k, p.spare[i]);
    }
    ChainFrame(p.nodes, q.nodes, p.free, p.spare);
    ChainCons(q.nodes, n, p.free, p.spare);
  }

  lemma ReleasedConsistent(p: Pool, k: nat)
    requires Consistent(p) && k < |p.active|
    ensures Consistent(Released(p, k))
    ensures EntriesOf(Released(p, k)) == Without(EntriesOf(p), k)
  {
    ReleasedParts(p, k);
    ReleasedMarks(p, k);
    ReleasedChains(p, k);
    PartitionRelease(NR_BP, p.active, p.spare, k);
    assert Consistent(Released(p, k));
    ReleasedEntries(p, k);
  }

  lemma ReleasedEntries(p: Pool, k: nat)
    requires Consistent(p) && k < |p.active| && Consistent(Released(p, k))
    ensures EntriesOf(Released(p, k)) == Without(EntriesOf(p), k)
  {
    hide Consistent, Unlinked, Released, Without;
    ListedInPool(p);
    ReleasedParts(p, k);
    var q := Released(p, k);
    forall i | 0 <= i < |q.active|
      ensures EntriesOf(q)[i] == Without(EntriesOf(p), k)[i]
    {
      ReleasedAt(p, k, q.active[i]);
    }
  }

  lemma FirstSpare(p: Pool)
    requires Consistent(p) && p.free != NULL
    ensures |p.nodes| == NR_BP && p.spare != [] && 0 <= p.free < NR_BP && p.free == p.spare[0]
    ensures p.nodes[p.free].NO == p.free && p.spare[0] !in p.active
  {
    ListedInPool(p);
  }

  // ---------- deleting all, masking, resuming ----------

  ghost function EntriesAt(pool: seq<BP>, list: seq<nat>): (es: seq<Entry>)
    requires forall i :: 0 <= i < |list| ==> list[i] < |pool|
    ensures |es| == |list|
  {
    seq(|list|, i requires 0 <= i < |list| => EntryOf(pool[list[i]]))
  }

  /** Freeing a whole list from its far end: its nodes end up in front of the spare ones, in the
      same order, and only in_use and links have changed. */
  ghost predicate AllReleased(before: seq<BP>, after: seq<BP>, list: seq<nat>) {
    && |after| == |before|
    && forall n: nat :: n < |before| ==>
         after[n] == if n in list then before[n].(inUse := false, next := after[n].next) else before[n]
  }

  /** One node after the rest of its list. */
  lemma AllReleasedStep(nodes: seq<BP>, middle: seq<BP>, free: int, p: nat, rest: seq<nat>, spare: seq<nat>)
    requires p < |nodes| && p !in rest && p !in spare
    requires AllReleased(nodes, middle, rest) && Chain(middle, free, rest + spare)
    ensures var after := middle[p := middle[p].(inUse := false, next := free)];
            AllReleased(nodes, after, [p] + rest) && Chain(after, p, [p] + rest + spare)
  {
    var after := middle[p := middle[p].(inUse := false, next := free)];
    var list := rest + spare;
    assert forall i :: 0 <= i < |list| ==> list[i] in list && list[i] < |middle|;
    assert p !in list;
    assert [p] + rest + spare == [p] + list;
    hide Chain;
    ChainFrame(middle, after, free, list);
    ChainCons(after, p, free, list);
  }

  /** A list about to be freed, and the state after it. */
  ghost predicate Deletable(nodes: seq<BP>, p: int, list: seq<nat>, free: int, spare: seq<nat>) {
    && Chain(nodes, p, list) && Chain(nodes, free, spare) && Distinct(list)
    && forall i :: 0 <= i < |list| ==> list[i] !in spare
  }

  ghost predicate Deleted(before: seq<BP>, after: seq<BP>, list: seq<nat>, free: int, spare: seq<nat>) {
    AllReleased(before, after, list) && Chain(after, free, list + spare)
  }

  lemma DeletableEnd(nodes: seq<BP>, list: seq<nat>, free: int, spare: seq<nat>)
    requires Deletable(nodes, NULL, list, free, spare)
    ensures list == [] && Deleted(nodes, nodes, list, free, spare) && EntriesAt(nodes, list) == []
  {
    assert list + spare == spare;
  }

  lemma DeletableRest(nodes: seq<BP>, p: int, list: seq<nat>, free: int, spare: seq<nat>)
    requires Deletable(nodes, p, list, free, spare) && p != NULL
    ensures 0 <= p < |nodes| && list != [] && list[0] == p && p !in list[1..] && p !in spare
    ensures Deletable(nodes, nodes[p].next, list[1..], free, spare)
    ensures EntriesAt(nodes, list)[0] == EntryOf(nodes[p]) && EntriesAt(nodes, list)[1..] == EntriesAt(nodes, list[1..])
  {
    var rest := list[1..];
    assert forall i :: 0 <= i < |rest| ==> rest[i] == list[i + 1];
    ChainTail(nodes, p, list);
    hide Chain;
  }

  lemma DeletedStep(nodes: seq<BP>, middle: seq<BP>, free: int, p: nat, list: seq<nat>, spare: seq<nat>)
    requires p < |nodes| && list != [] && list[0] == p && p !in list[1..] && p !in spare
    requires Deleted(nodes, middle, list[1..], free, spare)
    ensures p < |middle| && middle[p] == nodes[p]
    ensures Deleted(nodes, middle[p := middle[p].(inUse := false, next := free)], list, p, spare)
  {
    assert list == [p] + list[1..];
    AllReleasedStep(nodes, middle, free, p, list[1..], spare);
  }

  lemma AllReleasedConsistent(p: Pool, after: seq<BP>, free: int)
    requires Consistent(p) && Deleted(p.nodes, after, p.active, free, p.spare)
    ensures Consistent(Pool(after, NULL, free, [], p.active + p.spare))
  {
    PartitionAll(NR_BP, p.active, p.spare);
    hide Partition;
    assert Chain(after, NULL, []) by { EmptyChain(after); }
    assert Marks(after, []) by { hide Chain; }
  }

  lemma ConsistentDeletable(p: Pool)
    requires Consistent(p)
    ensures Deletable(p.nodes, p.head, p.active, p.free, p.spare)
    ensures EntriesAt(p.nodes, p.active) == EntriesOf(p)
  {
    ListedInPool(p);
  }

  lemma EmptyChain(pool: seq<BP>)
    ensures Chain(pool, NULL, [])
  {}

  /** Masking and resuming leave the lists alone. */
  ghost predicate OnlyEnabled(before: seq<BP>, after: seq<BP>) {
    |after| == |before| && forall n: nat :: n < |before| ==> after[n] == before[n].(enable := after[n].enable)
  }

  lemma OnlyEnabledConsistent(p: Pool, after: seq<BP>)
    requires Consistent(p) && OnlyEnabled(p.nodes, after)
    ensures Consistent(p.(nodes := after)) && EntriesOf(p.(nodes := after)) == EntriesOf(p)
  {
    ListedInPool(p);
    ChainFrame(p.nodes, after, p.head, p.active);
    ChainFrame(p.nodes, after, p.free, p.spare);
    hide Chain, Partition;
    var q := p.(nodes := after);
    forall i | 0 <= i < |p.active| ensures EntriesOf(q)[i] == EntriesOf(p)[i] {}
  }

  /** The first k nodes of the list are enabled. */
  ghost predicate Enabled(pool: seq<BP>, list: seq<nat>, k: nat) {
    k <= |list| && forall i :: 0 <= i < k ==> list[i] < |pool| && pool[list[i]].enable
  }

  lemma EnabledStep(pool: seq<BP>, list: seq<nat>, k: nat)
    requires Enabled(pool, list, k) && k < |list| && list[k] < |pool|
    ensures Enabled(pool[list[k] := pool[list[k]].(enable := true)], list, k + 1)
  {}

  lemma AllListed(p: Pool)
    requires Consistent(p)
    ensures |EntriesOf(p)| == |p.active| && Enabled(p.nodes, p.active, 0)
    ensures p.head == if p.active == [] then NULL else p.active[0]
  {}

  lemma ActiveAt(p: Pool, k: nat)
    requires Consistent(p) && k < |p.active|
    ensures p.active[k] < |p.nodes| == NR_BP && p.nodes[p.active[k]].next == NextOf(p.active, k)
    ensures EntriesOf(p)[k] == EntryOf(p.nodes[p.active[k]])
  {}

  // ---------- the manager ----------

  ghost predicate InMemory(es: seq<Entry>, mem: Memory) { forall i :: 0 <= i < |es| ==> es[i].addr in mem }

  lemma InMemoryCons(e: Entry, es: seq<Entry>, mem: Memory, a: Address, v: Byte)
    requires InMemory(es, mem) && (e.addr in mem || e.addr == a)
    ensures InMemory([e] + es, mem[a := v])
  {}

  lemma InMemoryWithout(es: seq<Entry>, k: nat, mem: Memory, a: Address, v: Byte)
    requires InMemory(es, mem) && k < |es|
    ensures InMemory(Without(es, k), mem[a := v])
  {}

  lemma PoolFull(p: Pool)
    requires Consistent(p)
    ensures p.free == NULL <==> |p.active| == NR_BP
  {}

  class Manager {
    const bpList: array<BP>
    var head: int
    var free: int
    var mem: Memory

    ghost var active: seq<nat>
    ghost var spare: seq<nat>

    ghost function Contents(): Pool
      reads this, bpList
    {
      Pool(bpList[..], head, free, active, spare)
    }

    ghost predicate Valid()
      reads this, bpList
    {
      Consistent(Contents()) && InMemory(EntriesOf(Contents()), mem)
    }

    /** The state the run laws are about. */
    ghost function Abstract(): State
      requires Valid()
      reads this, bpList
    {
      State(EntriesOf(Contents()), mem)
    }

    /** init_bp_list */
    constructor (memory: Memory)
      ensures Valid() && Abstract() == State([], memory)
    {
      bpList := new BP[NR_BP](_ => BP(0, false, false, 0, 0, NULL));
      mem := memory;
      head := NULL;
      free := 0;
      active := [];
      spare := InitialPool().spare;
      new;
      var i := 0;
      while i < NR_BP
        invariant 0 <= i <= NR_BP
        invariant forall n: nat :: n < i ==> bpList[n] == BP(n, false, false, 0, 0, n + 1)
        invariant head == NULL && free == 0 && active == [] && spare == InitialPool().spare && mem == memory
      {
        bpList[i] := BP(i, false, false, 0, 0, i + 1);
        i := i + 1;
      }
      bpList[NR_BP - 1] := bpList[NR_BP - 1].(next := NULL);
      assert bpList[..] == InitialPool().nodes;
      InitialConsistent();
    }

    /** new_BP, and the new node's way to the front of the active list. */
    method TakeNode(addr: Address, byte: Byte) returns (p: nat)
      requires Consistent(Contents()) && free != NULL
      modifies this`head, this`free, this`active, this`spare, bpList
      ensures Consistent(old(Contents())) && Contents() == Taken(old(Contents()), addr, byte)
      ensures active == [p] + old(active) && p !in old(active)
    {
      ghost var was := Contents();
      FirstSpare(was);
      hide Consistent;
      p := free;
      free := bpList[p].next;
      bpList[p] := bpList[p].(inUse := true);
      bpList[p] := bpList[p].(addr := addr, oriByte := byte, enable := true);
      bpList[p] := bpList[p].(next := head);
      assert bpList[..] == was.nodes[p := BP(p, true, true, addr, byte, was.head)];
      head := p;
      active, spare := [p] + active, spare[1..];
    }

    /** set_breakpoint; None is the assertion that fails when the pool is used up. */
    method SetBreakpoint(addr: Address) returns (no: Option<nat>)
      requires Valid() && addr in mem
      modifies this, bpList
      ensures Valid()
      ensures no == None <==> |old(active)| == 32
      ensures no == None ==> Abstract() == old(Abstract()) && active == old(active)
      ensures no.Some? ==> no.value !in old(active) && active == [no.value] + old(active)
      ensures no.Some? ==> Abstract() == Step(old(Abstract()), Set(addr))
    {
      hide Consistent, EntriesOf, InMemory, Taken;
      PoolFull(Contents());
      if free == NULL { return None; }
      TakenConsistent(Contents(), addr, mem[addr]);
      InMemoryCons(Entry(addr, mem[addr]), EntriesOf(Contents()), mem, addr, INT3);
      var p := TakeNode(addr, mem[addr]);
      mem := mem[addr := INT3];
      return Some(p);
    }

    /** The search loop of delete_breakpoint: the node numbered no and the one before it. */
    method Find(no: int) returns (p: int, prev: int, ghost k: nat)
      requires Valid()
      ensures p == NULL <==> no !in active
      ensures p != NULL ==> k < |active| && active[k] == p == no && prev == if k == 0 then NULL else active[k - 1]
    {
      p, prev, k := head, NULL, 0;
      while p != NULL && bpList[p].NO != no
        invariant k <= |active|
        invariant p == if k < |active| then active[k] else NULL
        invariant prev == if k == 0 then NULL else active[k - 1]
        invariant forall i :: 0 <= i < k ==> active[i] != no
        decreases |active| - k
      {
        assert bpList[..][active[k]].next == NextOf(active, k);
        prev := p;
        p := bpList[p].next;
        k := k + 1;
      }
    }

    /** Redirect the link that led to p. */
    method Unlink(p: nat, prev: int, ghost k: nat)
      requires Consistent(Contents()) && k < |active| && active[k] == p
      requires prev == if k == 0 then NULL else active[k - 1]
      modifies this`head, bpList
      ensures bpList[..] == Unlinked(old(Contents()), k)
      ensures head == if k == 0 then old(bpList[..])[p].next else old(head)
    {
      ListedInPool(Contents());
      hide Chain, Partition, Marks, Consistent;
      if prev == NULL {
        head := bpList[p].next;
      } else {
        bpList[prev] := bpList[prev].(next := bpList[p].next);
      }
    }

    /** free_BP, its memory write aside. */
    method FreeNode(p: nat)
      requires p < bpList.Length
      modifies this`free, this`spare, bpList
      ensures bpList[..] == old(bpList[..])[p := old(bpList[..])[p].(inUse := false, next := old(free))]
      ensures free == p && spare == [p] + old(spare)
    {
      bpList[p] := bpList[p].(inUse := false);
      bpList[p] := bpList[p].(next := free);
      free := p;
      spare := [p] + spare;
    }

    /** The k-th active node goes back to the free list. */
    method ReleaseNode(p: nat, prev: int, ghost k: nat)
      requires Consistent(Contents()) && k < |active| && active[k] == p
      requires prev == if k == 0 then NULL else active[k - 1]
      modifies this`head, this`free, this`active, this`spare, bpList
      ensures Consistent(old(Contents())) && Contents() == Released(old(Contents()), k)
    {
      assert p < |bpList[..]| by { ListedInPool(Contents()); }
      hide Consistent, Without, Unlinked;
      Unlink(p, prev, k);
      FreeNode(p);
      active := Without(active, k);
    }

    /** delete_breakpoint */
    method DeleteBreakpoint(no: int) returns (found: bool, ghost k: nat)
      requires Valid()
      modifies this, bpList
      ensures Valid()
      ensures found <==> no in old(active)
      ensures !found ==> Abstract() == old(Abstract()) && active == old(active)
      ensures found ==> k < |old(active)| && old(active)[k] == no && active == Without(old(active), k)
      ensures found ==> Abstract() == Step(old(Abstract()), Delete(k))
    {
      var p, prev;
      p, prev, k := Find(no);
      if p == NULL { return false, k; }
      ReleasedConsistent(Contents(), k);
      ReleasedParts(Contents(), k);
      ghost var es := EntriesOf(Contents());
      assert p < bpList.Length && es[k] == EntryOf(bpList[p]) by { ListedInPool(Contents()); }
      assert es[k].addr in mem;
      hide Consistent, EntriesOf, InMemory, Without, Released;
      InMemoryWithout(es, k, mem, es[k].addr, es[k].oriByte);
      mem := mem[bpList[p].addr := bpList[p].oriByte];
      ReleaseNode(p, prev, k);
      return true, k;
    }

    /** delete_all_breakpoint_recursively: the rest of the list first, then the node itself. */
    method DeleteFrom(p: int, ghost list: seq<nat>)
      requires Deletable(bpList[..], p, list, free, spare)
      modifies this`free, this`spare, this`mem, bpList
      ensures spare == list + old(spare) && Deleted(old(bpList[..]), bpList[..], list, free, old(spare))
      ensures mem == Restored(EntriesAt(old(bpList[..]), list), old(mem))
      decreases |list|
    {
      hide Chain, Deletable, Deleted, EntriesAt;
      ghost var nodes := bpList[..];
      if p == NULL {
        DeletableEnd(nodes, list, free, spare);
        return;
      }
      DeletableRest(nodes, p, list, free, spare);
      if bpList[p].next != NULL {
        DeleteFrom(bpList[p].next, list[1..]);
      } else {
        DeletableEnd(nodes, list[1..], free, spare);
      }
      DeletedStep(nodes, bpList[..], free, p, list, old(spare));
      mem := mem[bpList[p].addr := bpList[p].oriByte];
      FreeNode(p);
    }

    /** delete_all_breakpoint */
    method DeleteAllBreakpoints()
      requires Valid()
      modifies this, bpList
      ensures Valid() && active == []
      ensures Abstract() == Step(old(Abstract()), DeleteAll)
    {
      ghost var was := Contents();
      ConsistentDeletable(was);
      hide Consistent, Deletable, Deleted;
      DeleteFrom(head, active);
      AllReleasedConsistent(was, bpList[..], free);
      head := NULL;
      active := [];
      assert EntriesOf(Contents()) == [];
    }

    /** mask_breakpoints */
    method MaskBreakpoints()
      requires Valid()
      modifies this`mem
      ensures Valid() && Abstract() == Step(old(Abstract()), Mask)
    {
      ghost var es := EntriesOf(Contents());
      ghost var k := 0;
      var p := head;
      while p != NULL
        invariant k <= |active| && p == (if k < |active| then active[k] else NULL)
        invariant Masked(es, old(mem)) == Masked(es[k..], mem)
        invariant mem.Keys == old(mem).Keys
        decreases |active| - k
      {
        assert bpList[..][active[k]].next == NextOf(active, k);
        assert es[k..][0] == EntryOf(bpList[p]) && es[k..][1..] == es[k + 1..];
        mem := mem[bpList[p].addr := bpList[p].oriByte];
        p := bpList[p].next;
        k := k + 1;
      }
      assert es[k..] == [];
    }

    /** resume_breakpoints */
    method ResumeBreakpoints()
      requires Valid()
      modifies this`mem, bpList
      ensures Valid() && Abstract() == Step(old(Abstract()), Resume)
      ensures active == old(active) && OnlyEnabled(old(bpList[..]), bpList[..])
      ensures Enabled(bpList[..], active, |active|)
    {
      hide Consistent, EntriesOf, Enabled;
      ghost var was, nodes := Contents(), bpList[..];
      ghost var es := EntriesOf(was);
      ghost var k := 0;
      AllListed(was);
      assert es[0..] == es;
      var p := head;
      while p != NULL
        invariant k <= |active| && p == (if k < |active| then active[k] else NULL)
        invariant Resumed(es, old(mem)) == Resumed(es[k..], mem)
        invariant mem.Keys == old(mem).Keys
        invariant OnlyEnabled(nodes, bpList[..]) && Enabled(bpList[..], active, k)
        decreases |active| - k
      {
        ActiveAt(was, k);
        assert es[k..][0] == EntryOf(nodes[p]) && es[k..][1..] == es[k + 1..];
        EnabledStep(bpList[..], active, k);
        mem := mem[bpList[p].addr := INT3];
        bpList[p] := bpList[p].(enable := true);
        p := bpList[p].next;
        k := k + 1;
      }
      assert es[k..] == [];
      OnlyEnabledConsistent(was, bpList[..]);
    }
  }
}
