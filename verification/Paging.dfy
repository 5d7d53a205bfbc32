/** Page-table construction in the kernel, and the two-level walk the hardware does over the
    tables (Intel 80386 Programmer's Reference Manual, section 5.2).  Memory is a map from the
    addresses of 32-bit words to their values. */
module Paging {
  import opened Options
  import opened Words

  type Memory = map<nat, U32>

  const PAGE_SIZE: nat := 0x1000
  const PT_SIZE: nat := 0x40_0000
  const PHY_MEM: nat := 0x800_0000
  const KOFFSET: nat := 0xc000_0000
  const NR_PDE: nat := 1024
  const NR_PTE: nat := 1024

  function VaToPa(va: U32): U32 { if va >= KOFFSET then va - KOFFSET else va - KOFFSET + 0x1_0000_0000 }

  /** (addr & 0xfffff000) | 0x7, for directory and table entries alike. */
  function MakeEntry(addr: U32): U32 { addr - addr % PAGE_SIZE + 7 }

  function Read(mem: Memory, a: nat): U32 { if a in mem then mem[a] else 0 }

  function Present(entry: U32): bool { entry % 2 == 1 }
  function Frame(entry: U32): U32 { entry - entry % PAGE_SIZE }

  /** The physical address of a linear address, or a page fault. */
  function Walk(mem: Memory, cr3: U32, va: U32): Option<nat> {
    var pde := Read(mem, Frame(cr3) + 4 * (va / PT_SIZE));
    if !Present(pde) then None
    else
      var pte := Read(mem, Frame(pde) + 4 * (va / PAGE_SIZE % NR_PTE));
      if !Present(pte) then None else Some(Frame(pte) + va % PAGE_SIZE)
  }

  // ---------- what the tables should say ----------

  /** A directory whose first d entries and the d entries from KOFFSET on point to consecutive
      page tables from pt. */
  function KernelEntry(pt: nat, d: nat, k: nat): int {
    if k < d then pt + PAGE_SIZE * k + 7
    else if 768 <= k < 768 + d then pt + PAGE_SIZE * (k - 768) + 7
    else 0
  }

  /** The first n table entries from pt on map page frame j to itself. */
  ghost predicate IdentityTables(mem: Memory, pt: nat, n: nat) {
    forall j: nat :: j < n ==> Read(mem, pt + 4 * j) == PAGE_SIZE * j + 7
  }

  ghost predicate KernelDirectory(mem: Memory, pd: nat, pt: nat, d: nat) {
    forall k: nat :: k < NR_PDE ==> Read(mem, pd + 4 * k) == KernelEntry(pt, d, k)
  }

  /** The user directory: a table for the first 4 MB, and the kernel's upper window. */
  ghost predicate UserDirectory(mem: Memory, pd: nat, table: nat, pt: nat, low: bool) {
    forall k: nat :: k < NR_PDE ==>
      Read(mem, pd + 4 * k) ==
        if k == 0 then (if low then table + 7 else 0)
        else if 768 <= k < 800 then pt + PAGE_SIZE * (k - 768) + 7
        else 0
  }

  /** Page-aligned and inside physical memory, as the linker script and align_to_page place them. */
  ghost predicate Placed(a: nat, bytes: nat) { a % PAGE_SIZE == 0 && a + bytes <= PHY_MEM }

  ghost predicate Apart(a: nat, n: nat, b: nat, m: nat) { a + n <= b || b + m <= a }

  lemma VaParts(va: U32)
    ensures var d, t, o := va / PT_SIZE, va / PAGE_SIZE % NR_PTE, va % PAGE_SIZE;
            d < 1024 && va == PT_SIZE * d + PAGE_SIZE * t + o && va / PAGE_SIZE == 1024 * d + t
  {}

  lemma EntryParts(a: nat)
    requires a % PAGE_SIZE == 0 && a + 7 < 0x1_0000_0000
    ensures Present(a + 7) && Frame(a + 7) == a && MakeEntry(a) == a + 7
  {
    FrameAndFlags(a / PAGE_SIZE);
  }

  lemma FrameAndFlags(q: nat)
    ensures (4096 * q) % 4096 == 0 && (4096 * q + 7) % 4096 == 7 && (4096 * q + 7) % 2 == 1
  {}

  /** A directory entry that points to the k-th of the identity tables sends its 4 MB to the k-th
      4 MB of physical memory. */
  lemma WalkThroughTable(mem: Memory, pd: nat, pt: nat, n: nat, k: nat, va: U32)
    requires Placed(pd, 4 * NR_PDE) && Placed(pt, 4 * n) && 1024 * k + 1024 <= n <= 0x8000
    requires Read(mem, pd + 4 * (va / PT_SIZE)) == pt + PAGE_SIZE * k + 7 && IdentityTables(mem, pt, n)
    ensures Walk(mem, pd, va) == Some(PT_SIZE * k + va % PT_SIZE)
  {
    var t := va / PAGE_SIZE % NR_PTE;
    VaParts(va);
    EntryParts(pt + PAGE_SIZE * k);
    assert pt + PAGE_SIZE * k + 4 * t == pt + 4 * (1024 * k + t);
    EntryParts(PAGE_SIZE * (1024 * k + t));
    assert Frame(pd) == pd;
  }

  /** The translation init_page sets up. */
  function KernelTranslation(va: U32): Option<nat> {
    if va < PHY_MEM then Some(va)
    else if KOFFSET <= va < KOFFSET + PHY_MEM then Some(va - KOFFSET)
    else None
  }

  lemma KernelWalk(mem: Memory, pd: nat, pt: nat, va: U32)
    requires Placed(pd, 0x1000) && Placed(pt, 0x2_0000)
    requires KernelDirectory(mem, pd, pt, 32) && IdentityTables(mem, pt, 0x8000)
    ensures Walk(mem, pd, va) == KernelTranslation(va)
  {
    var d := va / PT_SIZE;
    VaParts(va);
    assert Read(mem, pd + 4 * d) == KernelEntry(pt, 32, d);
    if d < 32 {
      WalkThroughTable(mem, pd, pt, 0x8000, d, va);
    } else if 768 <= d < 800 {
      WalkThroughTable(mem, pd, pt, 0x8000, d - 768, va);
    } else {
      assert Frame(pd) == pd;
    }
  }

  /** The translation of the user directory after init_mm and create_video_mapping. */
  function UserTranslation(va: U32): Option<nat> {
    if va < PT_SIZE then Some(va)
    else if KOFFSET <= va < KOFFSET + PHY_MEM then Some(va - KOFFSET)
    else None
  }

  lemma UserWalk(mem: Memory, pd: nat, table: nat, pt: nat, va: U32)
    requires Placed(pd, 0x1000) && Placed(table, 0x1000) && Placed(pt, 0x2_0000)
    requires UserDirectory(mem, pd, table, pt, true)
    requires IdentityTables(mem, table, 1024) && IdentityTables(mem, pt, 0x8000)
    ensures Walk(mem, pd, va) == UserTranslation(va)
  {
    var d := va / PT_SIZE;
    VaParts(va);
    if d == 0 {
      WalkThroughTable(mem, pd, table, 1024, 0, va);
    } else if 768 <= d < 800 {
      WalkThroughTable(mem, pd, pt, 0x8000, d - 768, va);
    } else {
      assert Read(mem, pd + 4 * d) == 0;
      assert Frame(pd) == pd;
    }
  }

  // ---------- writing the tables ----------

  lemma WriteTable(mem: Memory, pt: nat, n: nat)
    requires IdentityTables(mem, pt, n) && PAGE_SIZE * n + 7 < 0x1_0000_0000
    ensures IdentityTables(mem[pt + 4 * n := PAGE_SIZE * n + 7], pt, n + 1)
  {}

  lemma WriteDirectory(mem: Memory, pd: nat, pt: nat, d: nat)
    requires KernelDirectory(mem, pd, pt, d) && d < 32 && pt + PAGE_SIZE * d + 7 < 0x1_0000_0000
    ensures var e := pt + PAGE_SIZE * d + 7;
            KernelDirectory(mem[pd + 4 * d := e][pd + 4 * (d + 768) := e], pd, pt, d + 1)
  {
    var e := pt + PAGE_SIZE * d + 7;
    var after := mem[pd + 4 * d := e][pd + 4 * (d + 768) := e];
    forall k: nat | k < NR_PDE ensures Read(after, pd + 4 * k) == KernelEntry(pt, d + 1, k) {
      assert Read(mem, pd + 4 * k) == KernelEntry(pt, d, k);
    }
  }

  /** Nothing outside one region has changed. */
  ghost predicate SameOutside(before: Memory, after: Memory, a: nat, bytes: nat) {
    forall x: nat :: !(a <= x < a + bytes) ==> Read(after, x) == Read(before, x)
  }

  /** Nothing but the two areas has changed. */
  ghost predicate SameApart(before: Memory, after: Memory, a: nat, n: nat, b: nat, m: nat) {
    forall x: nat :: !(a <= x < a + n) && !(b <= x < b + m) ==> Read(after, x) == Read(before, x)
  }

  lemma NothingChanged(mem: Memory, a: nat, n: nat, b: nat, m: nat)
    ensures SameApart(mem, mem, a, n, b, m)
  {}

  lemma SameApartStep(start: Memory, before: Memory, after: Memory, a: nat, n: nat, b: nat, m: nat, c: nat, k: nat)
    requires SameApart(start, before, a, n, b, m) && SameOutside(before, after, c, k)
    requires (a <= c && c + k <= a + n) || (b <= c && c + k <= b + m)
    ensures SameApart(start, after, a, n, b, m)
  {}

  lemma DirectoryKept(before: Memory, after: Memory, a: nat, bytes: nat, pd: nat, pt: nat, d: nat)
    requires SameOutside(before, after, a, bytes) && Apart(a, bytes, pd, 0x1000) && KernelDirectory(before, pd, pt, d)
    ensures KernelDirectory(after, pd, pt, d)
  {}

  lemma TablesKept(before: Memory, after: Memory, a: nat, bytes: nat, pt: nat, n: nat)
    requires SameOutside(before, after, a, bytes) && Apart(a, bytes, pt, 4 * n) && IdentityTables(before, pt, n)
    ensures IdentityTables(after, pt, n)
  {}

  class Machine {
    var mem: Memory
    var cr3: U32
    var paging: bool

    constructor (memory: Memory)
      ensures mem == memory && cr3 == 0 && !paging
    {
      mem := memory;
      cr3 := 0;
      paging := false;
    }

    /** Where a linear address leads now. */
    function Translate(va: U32): Option<nat>
      reads this
    {
      if paging then Walk(mem, cr3, va) else Some(va)
    }

    /** memset of whole words to 0 at a physical address. */
    method ClearWords(a: nat, n: nat)
      modifies this`mem
      ensures forall k: nat :: k < n ==> Read(mem, a + 4 * k) == 0
      ensures SameOutside(old(mem), mem, a, 4 * n)
    {
      var i := 0;
      while i < n
        invariant i <= n && (forall k: nat :: k < i ==> Read(mem, a + 4 * k) == 0)
        invariant SameOutside(old(mem), mem, a, 4 * n)
      {
        mem := mem[a + 4 * i := 0];
        i := i + 1;
      }
    }

    /** The loop over one page table: 1024 entries from ptableIn on, for the frames from frameIn. */
    method FillTable(ghost pt: nat, ptableIn: nat, frameIn: nat)
      requires ptableIn == pt + 4 * frameIn && frameIn + NR_PTE <= 0x8000 && IdentityTables(mem, pt, frameIn)
      modifies this`mem
      ensures IdentityTables(mem, pt, frameIn + NR_PTE) && SameOutside(old(mem), mem, ptableIn, PAGE_SIZE)
    {
      var ptable, frame, t := ptableIn, frameIn, 0;
      while t < NR_PTE
        invariant t <= NR_PTE && frame == frameIn + t && ptable == pt + 4 * frame
        invariant IdentityTables(mem, pt, frame) && SameOutside(old(mem), mem, ptableIn, PAGE_SIZE)
      {
        EntryParts(PAGE_SIZE * frame);
        WriteTable(mem, pt, frame);
        mem := mem[ptable := MakeEntry(PAGE_SIZE * frame)];
        frame := frame + 1;
        ptable := ptable + 4;
        t := t + 1;
      }
    }

    /** init_page.  kpdir and kptable are the linked addresses of the two arrays. */
    method InitPage(kpdir: U32, kptable: U32)
      requires Placed(VaToPa(kpdir), 0x1000) && Placed(VaToPa(kptable), 0x2_0000)
      requires Apart(VaToPa(kpdir), 0x1000, VaToPa(kptable), 0x2_0000)
      modifies this
      ensures paging && cr3 == VaToPa(kpdir)
      ensures KernelDirectory(mem, VaToPa(kpdir), VaToPa(kptable), 32) && IdentityTables(mem, VaToPa(kptable), 0x8000)
      ensures forall va: U32 :: Translate(va) == KernelTranslation(va)
      ensures SameApart(old(mem), mem, VaToPa(kpdir), 0x1000, VaToPa(kptable), 0x2_0000)
    {
      hide KernelDirectory, IdentityTables, SameOutside, SameApart, Walk;
      var pdir, ptable := VaToPa(kpdir), VaToPa(kptable);
      ghost var pt := ptable;
      NothingChanged(mem, pdir, 0x1000, pt, 0x2_0000);
      ClearWords(pdir, NR_PDE);
      SameApartStep(old(mem), old(mem), mem, pdir, 0x1000, pt, 0x2_0000, pdir, 0x1000);
      EmptyTables(mem, pdir, pt);
      var frame, d := 0, 0;
      while d < PHY_MEM / PT_SIZE
        invariant d <= 32 && frame == 1024 * d && ptable == pt + PAGE_SIZE * d
        invariant KernelDirectory(mem, pdir, pt, d) && IdentityTables(mem, pt, 1024 * d)
        invariant SameApart(old(mem), mem, pdir, 0x1000, pt, 0x2_0000)
      {
        EntryParts(ptable);
        WriteDirectory(mem, pdir, pt, d);
        ghost var before := mem;
        mem := mem[pdir + 4 * d := MakeEntry(ptable)];
        mem := mem[pdir + 4 * (d + KOFFSET / PT_SIZE) := MakeEntry(ptable)];
        TwoWrites(before, pdir, d, MakeEntry(ptable));
        SameApartStep(old(mem), before, mem, pdir, 0x1000, pt, 0x2_0000, pdir, 0x1000);
        TablesKept(before, mem, pdir, 0x1000, pt, 1024 * d);
        ghost var middle := mem;
        FillTable(pt, ptable, frame);
        SameApartStep(old(mem), middle, mem, pdir, 0x1000, pt, 0x2_0000, ptable, PAGE_SIZE);
        DirectoryKept(middle, mem, ptable, PAGE_SIZE, pdir, pt, d + 1);
        frame := frame + NR_PTE;
        ptable := ptable + 4 * NR_PTE;
        d := d + 1;
      }
      cr3 := Frame(pdir);
      paging := true;
      assert cr3 == pdir;
      forall va: U32 ensures Translate(va) == KernelTranslation(va) { KernelWalk(mem, pdir, pt, va); }
    }

    /** The kernel's mapping is in force. */
    ghost predicate KernelMapped(pd: nat, pt: nat)
      reads this
    {
      paging && cr3 == pd && KernelTables(mem, pd, pt)
    }

    lemma KernelTranslates(pd: nat, pt: nat, va: U32)
      requires KernelMapped(pd, pt)
      ensures Translate(va) == KernelTranslation(va)
    {
      KernelWalk(mem, pd, pt, va);
    }

    /** A store through a pointer. */
    method Store(va: U32, v: U32)
      requires Translate(va).Some?
      modifies this`mem
      ensures mem == old(mem)[old(Translate(va).value) := v]
    {
      mem := mem[Translate(va).value := v];
    }

    method Load(va: U32) returns (v: U32)
      requires Translate(va).Some?
      ensures v == Read(mem, Translate(va).value)
    {
      v := Read(mem, Translate(va).value);
    }

    /** memset of a page through its linked address. */
    method ClearPage(va: U32, ghost pd: nat, ghost pt: nat)
      requires va >= KOFFSET && Placed(va - KOFFSET, 0x1000)
      requires KernelMapped(pd, pt)
               && Apart(va - KOFFSET, 0x1000, pd, 0x1000) && Apart(va - KOFFSET, 0x1000, pt, 0x2_0000)
      modifies this`mem
      ensures KernelMapped(pd, pt)
      ensures forall k: nat :: k < 1024 ==> Read(mem, va - KOFFSET + 4 * k) == 0
      ensures SameOutside(old(mem), mem, va - KOFFSET, PAGE_SIZE)
    {
      hide KernelTables, Walk;
      ghost var pa: nat := va - KOFFSET;
      var i := 0;
      while i < 1024
        invariant i <= 1024 && KernelMapped(pd, pt)
        invariant forall k: nat :: k < i ==> Read(mem, pa + 4 * k) == 0
        invariant SameOutside(old(mem), mem, pa, PAGE_SIZE)
      {
        KernelTranslates(pd, pt, va + 4 * i);
        StoreKeepsTables(mem, pd, pt, pa + 4 * i, 0);
        Store(va + 4 * i, 0);
        i := i + 1;
      }
    }

    /** One word of the memcpy in init_mm. */
    method CopyEntry(updir: U32, kpdir: U32, ghost pt: nat, i: nat)
      requires updir >= KOFFSET && kpdir >= KOFFSET && i < 32
      requires Placed(updir - KOFFSET, 0x1000) && Apart(updir - KOFFSET, 0x1000, kpdir - KOFFSET, 0x1000)
      requires Apart(updir - KOFFSET, 0x1000, pt, 0x2_0000)
      requires KernelMapped(kpdir - KOFFSET, pt) && Copied(mem, updir - KOFFSET, pt, i)
      modifies this`mem
      ensures KernelMapped(kpdir - KOFFSET, pt) && Copied(mem, updir - KOFFSET, pt, i + 1)
      ensures SameOutside(old(mem), mem, updir - KOFFSET + 4 * (768 + i), 4)
    {
      hide KernelTables, Walk, SameOutside, Copied;
      ghost var pd, up := kpdir - KOFFSET, updir - KOFFSET;
      KernelTablesOf(mem, pd, pt);
      KernelTranslates(pd, pt, kpdir + 4 * (768 + i));
      KernelTranslates(pd, pt, updir + 4 * (768 + i));
      KernelEntryAt(mem, pd, pt, 768 + i);
      var entry := Load(kpdir + 4 * (KOFFSET / PT_SIZE + i));
      StoreKeepsTables(mem, pd, pt, up + 4 * (768 + i), entry);
      CopyOne(mem, up, pt, i, entry);
      OneWrite(mem, up + 4 * (768 + i), entry);
      Store(updir + 4 * (KOFFSET / PT_SIZE + i), entry);
    }

    /** init_mm: clear the user directory and copy the kernel's 32 entries from KOFFSET on; both
        arrays are reached through their linked addresses.  Returns ucr3. */
    method InitMm(updir: U32, kpdir: U32, ghost pt: nat) returns (ucr3: U32)
      requires updir >= KOFFSET && kpdir >= KOFFSET
      requires Placed(updir - KOFFSET, 0x1000) && Apart(updir - KOFFSET, 0x1000, kpdir - KOFFSET, 0x1000)
      requires Apart(updir - KOFFSET, 0x1000, pt, 0x2_0000)
      requires KernelMapped(kpdir - KOFFSET, pt)
      modifies this`mem
      ensures KernelMapped(kpdir - KOFFSET, pt)
      ensures ucr3 == updir - KOFFSET && UserDirectory(mem, ucr3, 0, pt, false)
      ensures SameOutside(old(mem), mem, ucr3, PAGE_SIZE)
    {
      hide KernelTables, Walk, SameOutside, Copied;
      ghost var up: nat := updir - KOFFSET;
      ClearPage(updir, kpdir - KOFFSET, pt);
      CopiedNone(mem, up, pt);
      var i := 0;
      while i < PHY_MEM / PT_SIZE
        invariant i <= 32 && KernelMapped(kpdir - KOFFSET, pt) && Copied(mem, up, pt, i)
        invariant SameOutside(old(mem), mem, up, PAGE_SIZE)
      {
        ghost var before := mem;
        CopyEntry(updir, kpdir, pt, i);
        StillOutside(old(mem), before, mem, up, PAGE_SIZE, up + 4 * (768 + i), 4);
        i := i + 1;
      }
      CopiedAll(mem, up, pt);
      ucr3 := VaToPa(updir) - VaToPa(updir) % 0x400;
    }

    /** The table-filling loop once paging is on: every entry is stored through the pointer. */
    method FillMappedTable(table: nat, ghost pd: nat, ghost pt: nat)
      requires KernelMapped(pd, pt) && Placed(table, 0x1000)
      requires Apart(table, 0x1000, pd, 0x1000) && Apart(table, 0x1000, pt, 0x2_0000)
      modifies this`mem
      ensures KernelMapped(pd, pt)
      ensures IdentityTables(mem, table, NR_PTE) && SameOutside(old(mem), mem, table, PAGE_SIZE)
    {
      hide KernelTables, Walk, IdentityTables;
      NoTables(mem, table);
      var ptable: U32, frame, t := table, 0, 0;
      while t < NR_PTE
        invariant t <= NR_PTE && frame == t && ptable == table + 4 * frame
        invariant KernelMapped(pd, pt) && IdentityTables(mem, table, frame)
        invariant SameOutside(old(mem), mem, table, PAGE_SIZE)
      {
        EntryParts(PAGE_SIZE * frame);
        WriteTable(mem, table, frame);
        KernelTranslates(pd, pt, ptable);
        StoreKeepsTables(mem, pd, pt, ptable, MakeEntry(PAGE_SIZE * frame));
        Store(ptable, MakeEntry(PAGE_SIZE * frame));
        frame := frame + 1;
        ptable := ptable + 4;
        t := t + 1;
      }
    }

    /** create_video_mapping: one table of identity entries for the first 4 MB of the user.  The
        pointers hold physical addresses, which the kernel's mapping sends to themselves. */
    method CreateVideoMapping(updir: U32, table: U32, ghost pd: nat, ghost pt: nat)
      requires updir >= KOFFSET && table >= KOFFSET
      requires Placed(updir - KOFFSET, 0x1000) && Placed(table - KOFFSET, 0x1000)
      requires Apart(updir - KOFFSET, 0x1000, table - KOFFSET, 0x1000)
      requires Apart(updir - KOFFSET, 0x1000, pd, 0x1000) && Apart(table - KOFFSET, 0x1000, pd, 0x1000)
      requires Apart(updir - KOFFSET, 0x1000, pt, 0x2_0000) && Apart(table - KOFFSET, 0x1000, pt, 0x2_0000)
      requires KernelMapped(pd, pt) && UserDirectory(mem, updir - KOFFSET, 0, pt, false)
      modifies this`mem
      ensures KernelMapped(pd, pt)
      ensures forall va: U32 :: Walk(mem, updir - KOFFSET, va) == UserTranslation(va)
      ensures SameApart(old(mem), mem, updir - KOFFSET, 4, table - KOFFSET, PAGE_SIZE)
    {
      hide KernelTables, Walk, UserDirectory, IdentityTables, SameOutside, SameApart;
      var pdir, ptable: nat := VaToPa(updir), VaToPa(table);
      KernelTranslates(pd, pt, pdir);
      EntryParts(ptable);
      StoreKeepsTables(mem, pd, pt, pdir, MakeEntry(ptable));
      FirstEntry(mem, pdir, ptable, pt);
      OneWrite(mem, pdir, MakeEntry(ptable));
      NothingChanged(mem, pdir, 4, ptable, PAGE_SIZE);
      SameApartStep(mem, mem, mem[pdir := MakeEntry(ptable)], pdir, 4, ptable, PAGE_SIZE, pdir, 4);
      Store(pdir, MakeEntry(ptable));
      ghost var before := mem;
      FillMappedTable(ptable, pd, pt);
      SameApartStep(old(mem), before, mem, pdir, 4, ptable, PAGE_SIZE, ptable, PAGE_SIZE);
      DirectorySurvives(before, mem, ptable, pdir, pt);
      KernelTablesOf(mem, pd, pt);
      forall va: U32 ensures Walk(mem, pdir, va) == UserTranslation(va) { UserWalk(mem, pdir, ptable, pt, va); }
    }
  }

  /** The kernel directory and its 32 tables, in place. */
  ghost predicate KernelTables(mem: Memory, pd: nat, pt: nat) {
    && Placed(pd, 0x1000) && Placed(pt, 0x2_0000) && Apart(pd, 0x1000, pt, 0x2_0000)
    && KernelDirectory(mem, pd, pt, 32) && IdentityTables(mem, pt, 0x8000)
  }

  lemma KernelTablesOf(mem: Memory, pd: nat, pt: nat)
    requires KernelTables(mem, pd, pt)
    ensures Placed(pd, 0x1000) && Placed(pt, 0x2_0000) && IdentityTables(mem, pt, 0x8000)
  {}

  lemma KernelEntryAt(mem: Memory, pd: nat, pt: nat, k: nat)
    requires KernelTables(mem, pd, pt) && k < NR_PDE
    ensures Read(mem, pd + 4 * k) == KernelEntry(pt, 32, k)
  {}

  lemma StoreKeepsTables(mem: Memory, pd: nat, pt: nat, a: nat, v: U32)
    requires KernelTables(mem, pd, pt) && Apart(a, 4, pd, 0x1000) && Apart(a, 4, pt, 0x2_0000)
    ensures KernelTables(mem[a := v], pd, pt)
  {
    DirectoryKept(mem, mem[a := v], a, 4, pd, pt, 32);
    TablesKept(mem, mem[a := v], a, 4, pt, 0x8000);
  }

  lemma StillOutside(start: Memory, before: Memory, after: Memory, a: nat, bytes: nat, b: nat, m: nat)
    requires SameOutside(start, before, a, bytes) && SameOutside(before, after, b, m) && a <= b && b + m <= a + bytes
    ensures SameOutside(start, after, a, bytes)
  {}

  /** The user directory after i of the 32 entries have been copied. */
  ghost predicate Copied(mem: Memory, pd: nat, pt: nat, i: nat) {
    forall k: nat :: k < NR_PDE ==>
      Read(mem, pd + 4 * k) == if 768 <= k < 768 + i then pt + PAGE_SIZE * (k - 768) + 7 else 0
  }

  lemma CopiedNone(mem: Memory, pd: nat, pt: nat)
    requires forall k: nat :: k < 1024 ==> Read(mem, pd + 4 * k) == 0
    ensures Copied(mem, pd, pt, 0)
  {}

  lemma CopyOne(mem: Memory, pd: nat, pt: nat, i: nat, entry: U32)
    requires Copied(mem, pd, pt, i) && i < 32 && entry == pt + PAGE_SIZE * i + 7
    ensures Copied(mem[pd + 4 * (768 + i) := entry], pd, pt, i + 1)
  {}

  lemma CopiedAll(mem: Memory, pd: nat, pt: nat)
    requires Copied(mem, pd, pt, 32)
    ensures UserDirectory(mem, pd, 0, pt, false)
  {}

  lemma FirstEntry(mem: Memory, pd: nat, table: nat, pt: nat)
    requires UserDirectory(mem, pd, 0, pt, false) && table + 7 < 0x1_0000_0000
    ensures UserDirectory(mem[pd := table + 7], pd, table, pt, true)
  {
    var after := mem[pd := table + 7];
    forall k: nat | 0 < k < NR_PDE ensures Read(after, pd + 4 * k) == Read(mem, pd + 4 * k) {}
    assert Read(after, pd + 4 * 0) == table + 7;
  }

  lemma NoTables(mem: Memory, pt: nat)
    ensures IdentityTables(mem, pt, 0)
  {}

  lemma DirectorySurvives(before: Memory, after: Memory, table: nat, pd: nat, pt: nat)
    requires UserDirectory(before, pd, table, pt, true) && SameOutside(before, after, table, PAGE_SIZE)
    requires Apart(pd, 0x1000, table, 0x1000)
    ensures UserDirectory(after, pd, table, pt, true)
  {}

  lemma OneWrite(mem: Memory, a: nat, v: U32)
    ensures SameOutside(mem, mem[a := v], a, 4)
  {}

  lemma TwoWrites(mem: Memory, pd: nat, d: nat, e: U32)
    requires d < 32
    ensures SameOutside(mem, mem[pd + 4 * d := e][pd + 4 * (d + 768) := e], pd, 0x1000)
  {}

  lemma EmptyTables(mem: Memory, pd: nat, pt: nat)
    requires forall k: nat :: k < NR_PDE ==> Read(mem, pd + 4 * k) == 0
    ensures KernelDirectory(mem, pd, pt, 0) && IdentityTables(mem, pt, 0)
  {}
}
