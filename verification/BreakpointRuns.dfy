/** What set, delete, mask and resume do to memory, over whole runs: an overlay of INT3 bytes. */
module BreakpointRuns {
  import opened Lists

  type Address = x: int | 0 <= x < 0x1_0000_0000
  type Byte = x: int | 0 <= x < 0x100
  type Memory = map<Address, Byte>

  const INT3: Byte := 0xf1

  /** An active breakpoint: its address and the byte it overwrote. */
  datatype Entry = Entry(addr: Address, oriByte: Byte)

  // ---------- the four walks over the list, newest first ----------

  /** mask_breakpoints writes the original bytes back, resume_breakpoints plants INT3 again. */
  function Masked(es: seq<Entry>, mem: Memory): Memory {
    if es == [] then mem else Masked(es[1..], mem[es[0].addr := es[0].oriByte])
  }

  function Resumed(es: seq<Entry>, mem: Memory): Memory {
    if es == [] then mem else Resumed(es[1..], mem[es[0].addr := INT3])
  }

  /** delete_all_breakpoint frees from the far end of the list, oldest first. */
  function Restored(es: seq<Entry>, mem: Memory): Memory {
    if es == [] then mem else Restored(es[1..], mem)[es[0].addr := es[0].oriByte]
  }

  datatype State = State(entries: seq<Entry>, mem: Memory)
  datatype Command = Set(addr: Address) | Delete(k: nat) | Mask | Resume | DeleteAll

  /** What one call does; a set outside memory or a delete of no breakpoint does nothing. */
  function Step(s: State, c: Command): State {
    match c
    case Set(a) =>
      if a in s.mem then State([Entry(a, s.mem[a])] + s.entries, s.mem[a := INT3]) else s
    case Delete(k) =>
      if k < |s.entries| then State(Without(s.entries, k), s.mem[s.entries[k].addr := s.entries[k].oriByte]) else s
    case Mask => State(s.entries, Masked(s.entries, s.mem))
    case Resume => State(s.entries, Resumed(s.entries, s.mem))
    case DeleteAll => State([], Restored(s.entries, s.mem))
  }

  function Run(s: State, cs: seq<Command>): State
    decreases |cs|
  {
    if cs == [] then s else Run(Step(s, cs[0]), cs[1..])
  }

  // ---------- the overlay invariant ----------

  function Addresses(es: seq<Entry>): set<Address> { set i | 0 <= i < |es| :: es[i].addr }

  function Over(orig: Memory, planted: set<Address>): Memory {
    map a | a in orig :: if a in planted then INT3 else orig[a]
  }

  /** Each entry remembers the original byte of its own address, and memory is the original with
      INT3 at the planted addresses. */
  ghost predicate Overlay(s: State, orig: Memory, planted: set<Address>) {
    && (forall i, j :: 0 <= i < j < |s.entries| ==> s.entries[i].addr != s.entries[j].addr)
    && (forall i :: 0 <= i < |s.entries| ==>
          s.entries[i].addr in orig && s.entries[i].oriByte == orig[s.entries[i].addr])
    && planted <= Addresses(s.entries)
    && s.mem == Over(orig, planted)
  }

  /** No address is set while a breakpoint is active on it. */
  ghost predicate Fresh(s: State, c: Command) { c.Set? ==> c.addr !in Addresses(s.entries) }

  ghost predicate FreshRun(s: State, cs: seq<Command>)
    decreases |cs|
  {
    cs == [] || (Fresh(s, cs[0]) && FreshRun(Step(s, cs[0]), cs[1..]))
  }

  /** Which bytes are planted after a call. */
  function PlantedAfter(s: State, planted: set<Address>, c: Command): set<Address> {
    match c
    case Set(a) => if a in s.mem then planted + {a} else planted
    case Delete(k) => if k < |s.entries| then planted - {s.entries[k].addr} else planted
    case Mask => {}
    case Resume => Addresses(s.entries)
    case DeleteAll => {}
  }

  lemma {:induction false} MaskedOver(es: seq<Entry>, orig: Memory, planted: set<Address>)
    requires forall i :: 0 <= i < |es| ==> es[i].addr in orig && es[i].oriByte == orig[es[i].addr]
    ensures Masked(es, Over(orig, planted)) == Over(orig, planted - Addresses(es))
  {
    if es != [] {
      assert Over(orig, planted)[es[0].addr := es[0].oriByte] == Over(orig, planted - {es[0].addr});
      MaskedOver(es[1..], orig, planted - {es[0].addr});
      AddressesCons(es);
      assert planted - {es[0].addr} - Addresses(es[1..]) == planted - Addresses(es);
    } else {
      assert planted - Addresses(es) == planted;
    }
  }

  lemma {:induction false} ResumedOver(es: seq<Entry>, orig: Memory, planted: set<Address>)
    requires forall i :: 0 <= i < |es| ==> es[i].addr in orig
    ensures Resumed(es, Over(orig, planted)) == Over(orig, planted + Addresses(es))
  {
    if es != [] {
      assert Over(orig, planted)[es[0].addr := INT3] == Over(orig, planted + {es[0].addr});
      ResumedOver(es[1..], orig, planted + {es[0].addr});
      AddressesCons(es);
      assert planted + {es[0].addr} + Addresses(es[1..]) == planted + Addresses(es);
    } else {
      assert planted + Addresses(es) == planted;
    }
  }

  lemma {:induction false} RestoredOver(es: seq<Entry>, orig: Memory, planted: set<Address>)
    requires forall i :: 0 <= i < |es| ==> es[i].addr in orig && es[i].oriByte == orig[es[i].addr]
    ensures Restored(es, Over(orig, planted)) == Over(orig, planted - Addresses(es))
  {
    if es != [] {
      RestoredOver(es[1..], orig, planted);
      AddressesCons(es);
      var rest := planted - Addresses(es[1..]);
      assert Over(orig, rest)[es[0].addr := es[0].oriByte] == Over(orig, rest - {es[0].addr});
      assert rest - {es[0].addr} == planted - Addresses(es);
    } else {
      assert planted - Addresses(es) == planted;
    }
  }

  lemma AddressesCons(es: seq<Entry>)
    requires es != []
    ensures Addresses(es) == {es[0].addr} + Addresses(es[1..])
  {
    forall a | a in Addresses(es) ensures a in {es[0].addr} + Addresses(es[1..]) {
      var i :| 0 <= i < |es| && es[i].addr == a;
      if i > 0 { assert es[1..][i - 1].addr == a; }
    }
    forall a | a in Addresses(es[1..]) ensures a in Addresses(es) {
      var i :| 0 <= i < |es[1..]| && es[1..][i].addr == a;
      assert es[i + 1].addr == a;
    }
  }

  lemma AddressesWithout(es: seq<Entry>, k: nat)
    requires k < |es| && forall i, j :: 0 <= i < j < |es| ==> es[i].addr != es[j].addr
    ensures Addresses(Without(es, k)) == Addresses(es) - {es[k].addr}
  {
    var r := Without(es, k);
    forall a | a in Addresses(es) - {es[k].addr} ensures a in Addresses(r) {
      var i :| 0 <= i < |es| && es[i].addr == a;
      assert r[if i < k then i else i - 1].addr == a;
    }
    forall a | a in Addresses(r) ensures a in Addresses(es) - {es[k].addr} {
      var i :| 0 <= i < |r| && r[i].addr == a;
      assert es[if i < k then i else i + 1].addr == a;
    }
  }

  /** Every call keeps the overlay. */
  lemma StepKeepsOverlay(s: State, orig: Memory, planted: set<Address>, c: Command)
    requires Overlay(s, orig, planted) && Fresh(s, c)
    ensures Overlay(Step(s, c), orig, PlantedAfter(s, planted, c))
  {
    match c
    case Set(a) => if a in s.mem { SetKeepsOverlay(s, orig, planted, a); }
    case Delete(k) => if k < |s.entries| { DeleteKeepsOverlay(s, orig, planted, k); }
    case Mask =>
      MaskedOver(s.entries, orig, planted);
      assert planted - Addresses(s.entries) == {};
    case Resume =>
      ResumedOver(s.entries, orig, planted);
      assert planted + Addresses(s.entries) == Addresses(s.entries);
    case DeleteAll =>
      RestoredOver(s.entries, orig, planted);
      assert planted - Addresses(s.entries) == {};
  }

  lemma SetKeepsOverlay(s: State, orig: Memory, planted: set<Address>, a: Address)
    requires Overlay(s, orig, planted) && a !in Addresses(s.entries) && a in s.mem
    ensures Overlay(State([Entry(a, s.mem[a])] + s.entries, s.mem[a := INT3]), orig, planted + {a})
  {
    var es := [Entry(a, s.mem[a])] + s.entries;
    assert es[1..] == s.entries;
    AddressesCons(es);
    assert forall i :: 0 <= i < |s.entries| ==> s.entries[i].addr in Addresses(s.entries);
    assert s.mem[a := INT3] == Over(orig, planted + {a});
  }

  lemma DeleteKeepsOverlay(s: State, orig: Memory, planted: set<Address>, k: nat)
    requires Overlay(s, orig, planted) && k < |s.entries|
    ensures var e := s.entries[k];
            Overlay(State(Without(s.entries, k), s.mem[e.addr := e.oriByte]), orig, planted - {e.addr})
  {
    var e := s.entries[k];
    AddressesWithout(s.entries, k);
    assert s.mem[e.addr := e.oriByte] == Over(orig, planted - {e.addr});
  }

  /** At every point of every run that sets no address twice at a time, memory is the original
      under INT3 bytes at some active addresses. */
  lemma {:induction false} RunKeepsOverlay(s: State, orig: Memory, planted: set<Address>, cs: seq<Command>)
    returns (final: set<Address>)
    requires Overlay(s, orig, planted) && FreshRun(s, cs)
    ensures Overlay(Run(s, cs), orig, final)
    decreases |cs|
  {
    if cs == [] {
      final := planted;
    } else {
      StepKeepsOverlay(s, orig, planted, cs[0]);
      final := RunKeepsOverlay(Step(s, cs[0]), orig, PlantedAfter(s, planted, cs[0]), cs[1..]);
    }
  }

  lemma StartOverlay(orig: Memory)
    ensures Overlay(State([], orig), orig, {})
  {}

  /** After any such run, deleting all breakpoints leaves memory exactly as it was at the start. */
  lemma DeleteAllRestores(orig: Memory, cs: seq<Command>)
    requires FreshRun(State([], orig), cs)
    ensures Step(Run(State([], orig), cs), DeleteAll) == State([], orig)
  {
    StartOverlay(orig);
    var planted := RunKeepsOverlay(State([], orig), orig, {}, cs);
    var s := Run(State([], orig), cs);
    RestoredOver(s.entries, orig, planted);
    assert planted - Addresses(s.entries) == {};
    assert Over(orig, {}) == orig;
  }

  /** Masking shows the original program; resuming after it changes nothing when every active
      breakpoint was planted before. */
  lemma MaskThenResume(s: State, orig: Memory, planted: set<Address>)
    requires Overlay(s, orig, planted)
    ensures Step(s, Mask).mem == orig
    ensures Step(Step(s, Mask), Resume) == State(s.entries, Over(orig, Addresses(s.entries)))
    ensures planted == Addresses(s.entries) ==> Step(Step(s, Mask), Resume) == s
  {
    MaskedOver(s.entries, orig, planted);
    assert planted - Addresses(s.entries) == {};
    assert Over(orig, {}) == orig;
    ResumedOver(s.entries, orig, {});
    assert {} + Addresses(s.entries) == Addresses(s.entries);
  }

  lemma {:induction false} MaskedElsewhere(es: seq<Entry>, mem: Memory, a: Address)
    requires a !in Addresses(es)
    ensures a in Masked(es, mem) <==> a in mem
    ensures a in mem ==> Masked(es, mem)[a] == mem[a]
  {
    if es != [] {
      AddressesCons(es);
      MaskedElsewhere(es[1..], mem[es[0].addr := es[0].oriByte], a);
    }
  }

  lemma {:induction false} ResumedAt(es: seq<Entry>, mem: Memory, a: Address)
    ensures a in Resumed(es, mem) <==> a in mem || a in Addresses(es)
    ensures a in Resumed(es, mem) ==> Resumed(es, mem)[a] == if a in Addresses(es) then INT3 else mem[a]
  {
    if es != [] {
      AddressesCons(es);
      ResumedAt(es[1..], mem[es[0].addr := INT3], a);
    }
  }

  /** From any state, whatever was set and how often: masking and resuming changes nothing if and only
      if INT3 was planted at every active address. */
  lemma MaskThenResumeIff(s: State)
    requires Addresses(s.entries) <= s.mem.Keys
    ensures Step(Step(s, Mask), Resume) == s <==> forall a :: a in Addresses(s.entries) ==> s.mem[a] == 0xf1
  {
    hide Masked, Resumed;
    var after := Step(Step(s, Mask), Resume).mem;
    forall a: Address
      ensures a in after <==> a in s.mem
      ensures a in after ==> after[a] == if a in Addresses(s.entries) then INT3 else s.mem[a]
    {
      ResumedAt(s.entries, Masked(s.entries, s.mem), a);
      if a !in Addresses(s.entries) { MaskedElsewhere(s.entries, s.mem, a); }
    }
    assert after.Keys == s.mem.Keys;
    if forall a :: a in Addresses(s.entries) ==> s.mem[a] == INT3 {
      assert after == s.mem;
    } else {
      var a :| a in Addresses(s.entries) && s.mem[a] != INT3;
      assert after[a] != s.mem[a];
    }
  }

  // ---------- every run ----------

  /** The byte that deleting everything leaves at a: the one the newest breakpoint there remembers, or
      what memory holds if there is none. */
  function Newest(es: seq<Entry>, mem: Memory, a: Address): Byte
    requires a in mem
  {
    if es == [] then mem[a] else if es[0].addr == a then es[0].oriByte else Newest(es[1..], mem, a)
  }

  lemma {:induction false} RestoredIsNewest(es: seq<Entry>, mem: Memory, a: Address)
    requires a in mem
    ensures a in Restored(es, mem) && Restored(es, mem)[a] == Newest(es, mem, a)
  {
    if es != [] { RestoredIsNewest(es[1..], mem, a); }
  }

  lemma {:induction false} RestoredKeys(es: seq<Entry>, mem: Memory)
    requires Addresses(es) <= mem.Keys
    ensures Restored(es, mem).Keys == mem.Keys
  {
    if es != [] {
      AddressesCons(es);
      RestoredKeys(es[1..], mem);
    }
  }

  lemma {:induction false} WalkKeys(es: seq<Entry>, mem: Memory)
    requires Addresses(es) <= mem.Keys
    ensures Masked(es, mem).Keys == mem.Keys && Resumed(es, mem).Keys == mem.Keys
  {
    if es != [] {
      AddressesCons(es);
      WalkKeys(es[1..], mem[es[0].addr := es[0].oriByte]);
      WalkKeys(es[1..], mem[es[0].addr := INT3]);
    }
  }

  lemma StepKeys(s: State, c: Command)
    requires Addresses(s.entries) <= s.mem.Keys
    ensures var t := Step(s, c); t.mem.Keys == s.mem.Keys && Addresses(t.entries) <= t.mem.Keys
  {
    match c
    case Set(a) =>
      if a in s.mem {
        AddressesCons(Step(s, c).entries);
        assert Step(s, c).entries[1..] == s.entries;
      }
    case Delete(k) =>
      if k < |s.entries| {
        assert s.entries[k].addr in Addresses(s.entries);
        FewerAddresses(s.entries, k);
      }
    case Mask => WalkKeys(s.entries, s.mem);
    case Resume => WalkKeys(s.entries, s.mem);
    case DeleteAll => RestoredKeys(s.entries, s.mem);
  }

  lemma FewerAddresses(es: seq<Entry>, k: nat)
    requires k < |es|
    ensures Addresses(Without(es, k)) <= Addresses(es)
  {
    var r := Without(es, k);
    forall a | a in Addresses(r) ensures a in Addresses(es) {
      var i :| 0 <= i < |r| && r[i].addr == a;
      assert es[if i < k then i else i + 1].addr == a;
    }
  }

  lemma {:induction false} RunKeys(s: State, cs: seq<Command>)
    requires Addresses(s.entries) <= s.mem.Keys
    ensures var t := Run(s, cs); t.mem.Keys == s.mem.Keys && Addresses(t.entries) <= t.mem.Keys
    decreases |cs|
  {
    if cs != [] {
      StepKeys(s, cs[0]);
      RunKeys(Step(s, cs[0]), cs[1..]);
    }
  }

  /** After any run at all, with addresses set as often as one likes and deletes, masks and resumes
      between: deleting all breakpoints restores memory if and only if at every address the newest
      breakpoint remembers the original byte, or memory holds it where there is none. */
  lemma DeleteAllIff(orig: Memory, cs: seq<Command>)
    ensures Run(State([], orig), cs).mem.Keys == orig.Keys
    ensures var s := Run(State([], orig), cs);
            Step(s, DeleteAll) == State([], orig) <==> forall a :: a in orig ==> Newest(s.entries, s.mem, a) == orig[a]
  {
    hide Run, Restored, Newest;
    var s := Run(State([], orig), cs);
    RunKeys(State([], orig), cs);
    RestoredKeys(s.entries, s.mem);
    var after := Restored(s.entries, s.mem);
    forall a | a in orig ensures a in after && after[a] == Newest(s.entries, s.mem, a) {
      RestoredIsNewest(s.entries, s.mem, a);
    }
    if Step(s, DeleteAll) != State([], orig) {
      assert after.Keys == orig.Keys && after != orig;
    }
  }

  // ---------- what is left behind ----------

  predicate OwnOrInt3(orig: Memory, a: Address, b: Byte)
    requires a in orig
  {
    b == orig[a] || b == INT3
  }

  ghost predicate CleanMemory(mem: Memory, orig: Memory) {
    mem.Keys == orig.Keys && forall a :: a in orig ==> OwnOrInt3(orig, a, mem[a])
  }

  ghost predicate CleanEntries(es: seq<Entry>, orig: Memory) {
    forall i :: 0 <= i < |es| ==> es[i].addr in orig && OwnOrInt3(orig, es[i].addr, es[i].oriByte)
  }

  lemma {:induction false} WalksKeepClean(es: seq<Entry>, mem: Memory, orig: Memory)
    requires CleanEntries(es, orig) && CleanMemory(mem, orig)
    ensures CleanMemory(Masked(es, mem), orig) && CleanMemory(Resumed(es, mem), orig)
    ensures CleanMemory(Restored(es, mem), orig)
  {
    if es != [] {
      WalksKeepClean(es[1..], mem, orig);
      WalksKeepClean(es[1..], mem[es[0].addr := es[0].oriByte], orig);
      WalksKeepClean(es[1..], mem[es[0].addr := INT3], orig);
    }
  }

  lemma StepKeepsClean(s: State, orig: Memory, c: Command)
    requires CleanEntries(s.entries, orig) && CleanMemory(s.mem, orig)
    ensures CleanEntries(Step(s, c).entries, orig) && CleanMemory(Step(s, c).mem, orig)
  {
    hide OwnOrInt3;
    Int3IsClean(orig);
    WalksKeepClean(s.entries, s.mem, orig);
  }

  lemma Int3IsClean(orig: Memory)
    ensures forall a :: a in orig ==> OwnOrInt3(orig, a, INT3)
  {}

  /** After any run at all, memory and the remembered bytes hold nothing but original bytes and INT3. */
  lemma {:induction false} RunKeepsClean(s: State, orig: Memory, cs: seq<Command>)
    requires CleanEntries(s.entries, orig) && CleanMemory(s.mem, orig)
    ensures CleanEntries(Run(s, cs).entries, orig) && CleanMemory(Run(s, cs).mem, orig)
    decreases |cs|
  {
    if cs != [] {
      StepKeepsClean(s, orig, cs[0]);
      RunKeepsClean(Step(s, cs[0]), orig, cs[1..]);
    }
  }

  lemma {:induction false} NewestIsClean(es: seq<Entry>, mem: Memory, orig: Memory, a: Address)
    requires CleanEntries(es, orig) && CleanMemory(mem, orig) && a in orig
    ensures OwnOrInt3(orig, a, Newest(es, mem, a))
  {
    if es != [] && es[0].addr != a { NewestIsClean(es[1..], mem, orig, a); }
  }

  /** So what deleting everything can leave behind is an INT3, and it does so exactly where the newest
      breakpoint (or memory, if there is none) has one that was not there from the start. */
  lemma LeftBehindIff(orig: Memory, cs: seq<Command>)
    ensures Run(State([], orig), cs).mem.Keys == orig.Keys
    ensures var s := Run(State([], orig), cs);
            && CleanMemory(Step(s, DeleteAll).mem, orig)
            && (Step(s, DeleteAll) == State([], orig)
                <==> forall a :: a in orig && Newest(s.entries, s.mem, a) == INT3 ==> orig[a] == INT3)
  {
    hide Run, Newest, Restored;
    var s := Run(State([], orig), cs);
    RunKeepsClean(State([], orig), orig, cs);
    WalksKeepClean(s.entries, s.mem, orig);
    DeleteAllIff(orig, cs);
    forall a | a in orig ensures OwnOrInt3(orig, a, Newest(s.entries, s.mem, a)) {
      NewestIsClean(s.entries, s.mem, orig, a);
    }
  }

  // ---------- when an address is set twice ----------

  function Sets(addrs: seq<Address>): seq<Command> { seq(|addrs|, i requires 0 <= i < |addrs| => Set(addrs[i])) }

  ghost predicate Twice(addrs: seq<Address>, a: Address) {
    exists i, j :: 0 <= i < j < |addrs| && addrs[i] == a && addrs[j] == a
  }

  lemma {:induction false} RunSnoc(s: State, cs: seq<Command>, c: Command)
    ensures Run(s, cs + [c]) == Step(Run(s, cs), c)
    decreases |cs|
  {
    if cs == [] {
      assert (cs + [c])[1..] == [];
    } else {
      RunSnoc(Step(s, cs[0]), cs[1..], c);
      assert (cs + [c])[1..] == cs[1..] + [c];
    }
  }

  lemma {:induction false} RestoredElsewhere(es: seq<Entry>, mem: Memory, a: Address, v: Byte, b: Address)
    requires b != a && b in mem
    ensures b in Restored(es, mem) && b in Restored(es, mem[a := v])
    ensures Restored(es, mem[a := v])[b] == Restored(es, mem)[b]
  {
    if es != [] { RestoredElsewhere(es[1..], mem, a, v, b); }
  }

  /** The state after setting addresses one after the other, each possibly more than once. */
  lemma {:induction false} SetsThenDeleteAll(orig: Memory, addrs: seq<Address>, a: Address)
    requires a in orig && forall i :: 0 <= i < |addrs| ==> addrs[i] in orig
    ensures var s := Run(State([], orig), Sets(addrs));
            && s.mem.Keys == orig.Keys
            && s.mem[a] == (if a in addrs then INT3 else orig[a])
            && a in Restored(s.entries, s.mem)
            && Restored(s.entries, s.mem)[a] == (if Twice(addrs, a) then INT3 else orig[a])
    decreases |addrs|
  {
    if addrs != [] {
      var n := |addrs| - 1;
      var before, x := addrs[..n], addrs[n];
      assert Sets(addrs) == Sets(before) + [Set(x)];
      RunSnoc(State([], orig), Sets(before), Set(x));
      SetsThenDeleteAll(orig, before, a);
      SetsThenDeleteAll(orig, before, x);
      var s := Run(State([], orig), Sets(before));
      var t := Run(State([], orig), Sets(addrs));
      assert t == State([Entry(x, s.mem[x])] + s.entries, s.mem[x := INT3]);
      assert t.entries[1..] == s.entries;
      assert addrs == before + [x];
      if a != x {
        RestoredElsewhere(s.entries, s.mem, x, INT3, a);
        TwiceSnoc(before, x, a);
      } else {
        TwiceSnoc(before, x, a);
      }
    }
  }

  lemma TwiceSnoc(addrs: seq<Address>, x: Address, a: Address)
    ensures Twice(addrs + [x], a) <==> Twice(addrs, a) || (a == x && x in addrs)
  {
    var all := addrs + [x];
    if a == x && x in addrs {
      var i :| 0 <= i < |addrs| && addrs[i] == x;
      assert all[i] == a && all[|addrs|] == a;
    }
    if Twice(addrs, a) {
      var i, j :| 0 <= i < j < |addrs| && addrs[i] == a && addrs[j] == a;
      assert all[i] == a && all[j] == a;
    }
    if Twice(all, a) {
      var i, j :| 0 <= i < j < |all| && all[i] == a && all[j] == a;
      assert addrs[i] == a;
      if j < |addrs| { assert addrs[j] == a; }
    }
  }

  /** Deleting all breakpoints after a run of sets restores memory exactly when every address set
      twice held an INT3 byte to begin with. */
  lemma SetTwiceIff(orig: Memory, addrs: seq<Address>)
    requires forall i :: 0 <= i < |addrs| ==> addrs[i] in orig
    ensures (forall a :: a in orig ==>
               a in Step(Run(State([], orig), Sets(addrs)), DeleteAll).mem
               && Step(Run(State([], orig), Sets(addrs)), DeleteAll).mem[a] == orig[a])
            <==> (forall a :: a in orig && Twice(addrs, a) ==> orig[a] == INT3)
  {
    forall a | a in orig
      ensures var m := Step(Run(State([], orig), Sets(addrs)), DeleteAll).mem;
              a in m && m[a] == if Twice(addrs, a) then INT3 else orig[a]
    {
      SetsThenDeleteAll(orig, addrs, a);
    }
  }
}
