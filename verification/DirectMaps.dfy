/** The kernel's static page tables as the KernelAddressSpace constructor leaves them, and what the
    processor's walk makes of them. */
module DirectMaps {
  import opened Options
  import opened Powers
  import opened Words
  import opened Paging

  const KernelBase: nat := 0xFFFF_FFFF_8000_0000
  const IoBase: nat := 0xFFFF_FFFE_8000_0000
  const HeapBase: nat := 0xFFFF_FFFF_C000_0000

  /** Physical addresses of the static tables (link address minus KERNEL_VIRTUAL_BASE). */
  datatype Layout = Layout(pml4: nat, pdpts: nat, dirs: nat, heapDirs: nat, heapTables: nat, ioDirs: nat)

  ghost predicate Apart(a: nat, n: nat, b: nat, m: nat) {
    a + 4096 * n <= b || b + 4096 * m <= a
  }

  /** The linker keeps the tables page aligned, apart and inside the kernel's first GiB. */
  ghost predicate Placed(l: Layout) {
    && l.pml4 % 4096 == 0 && l.pdpts % 4096 == 0 && l.dirs % 4096 == 0
    && l.heapDirs % 4096 == 0 && l.heapTables % 4096 == 0 && l.ioDirs % 4096 == 0
    && l.pml4 < 0x4000_0000 && l.pdpts < 0x4000_0000 && l.dirs < 0x4000_0000
    && l.heapDirs < 0x4000_0000 && l.heapTables < 0x4000_0000 && l.ioDirs < 0x4000_0000
    && Apart(l.pml4, 1, l.pdpts, 1) && Apart(l.pml4, 1, l.dirs, 1) && Apart(l.pml4, 1, l.heapDirs, 1)
    && Apart(l.pml4, 1, l.heapTables, 512) && Apart(l.pml4, 1, l.ioDirs, 4)
    && Apart(l.pdpts, 1, l.dirs, 1) && Apart(l.pdpts, 1, l.heapDirs, 1)
    && Apart(l.pdpts, 1, l.heapTables, 512) && Apart(l.pdpts, 1, l.ioDirs, 4)
    && Apart(l.dirs, 1, l.heapDirs, 1) && Apart(l.dirs, 1, l.heapTables, 512) && Apart(l.dirs, 1, l.ioDirs, 4)
    && Apart(l.heapDirs, 1, l.heapTables, 512) && Apart(l.heapDirs, 1, l.ioDirs, 4)
    && Apart(l.heapTables, 512, l.ioDirs, 4)
  }

  datatype Tables = Tables(
    pml4: seq<Word>, pdpts: seq<Word>, dirs: seq<Word>, heapDirs: seq<Word>,
    heapTables: seq<seq<Word>>, ioDirs: seq<seq<Word>>)

  ghost predicate Sized(t: Tables) {
    && |t.pml4| == |t.pdpts| == |t.dirs| == |t.heapDirs| == |t.heapTables| == 512 && |t.ioDirs| == 4
    && (forall i :: 0 <= i < 512 ==> |t.heapTables[i]| == 512)
    && (forall i :: 0 <= i < 4 ==> |t.ioDirs[i]| == 512)
  }

  /** The tables where the processor finds them. */
  function MemoryOf(l: Layout, t: Tables): Memory {
    (p: nat) =>
      if p == l.pml4 then Some(t.pml4)
      else if p == l.pdpts then Some(t.pdpts)
      else if p == l.dirs then Some(t.dirs)
      else if p == l.heapDirs then Some(t.heapDirs)
      else if l.heapTables <= p && (p - l.heapTables) % 4096 == 0 && (p - l.heapTables) / 4096 < |t.heapTables|
      then Some(t.heapTables[(p - l.heapTables) / 4096])
      else if l.ioDirs <= p && (p - l.ioDirs) % 4096 == 0 && (p - l.ioDirs) / 4096 < |t.ioDirs|
      then Some(t.ioDirs[(p - l.ioDirs) / 4096])
      else None
  }

  /** The upper levels and the direct maps are in place; the heap tables may hold anything. */
  ghost predicate Built(l: Layout, t: Tables) {
    && Placed(l) && Sized(t)
    && t.pml4[511] == l.pdpts + 3 && t.pml4[0] == l.pdpts + 3
    && (forall i :: 0 < i < 511 ==> t.pml4[i] == 0)
    && t.pdpts[510] == l.dirs + 3 && t.pdpts[0] == l.dirs + 3 && t.pdpts[511] == l.heapDirs + 3
    && (forall i :: 0 <= i < 4 ==> t.pdpts[506 + i] == l.ioDirs + 4096 * i + 3)
    && (forall i :: 0 < i < 506 ==> t.pdpts[i] == 0)
    && (forall i :: 0 <= i < 512 ==> t.dirs[i] == 0x20_0000 * i + 0x93)
    && (forall i :: 0 <= i < 512 ==> t.heapDirs[i] == l.heapTables + 4096 * i + 3)
    && (forall i, j :: 0 <= i < 4 && 0 <= j < 512 ==> t.ioDirs[i][j] == 0x4000_0000 * i + 0x20_0000 * j + 0x93)
  }

  lemma EntryOf(frame: nat, flags: nat)
    requires frame % 4096 == 0 && frame < 0x1_0000_0000 && (flags == 3 || flags == 0x93)
    ensures frame + flags < WordSize && HardwareFrame(frame + flags) == frame
    ensures Present(frame + flags) && (Direct(frame + flags) <==> flags == 0x93)
  {
    var q := frame / 4096;
    var e: Word := 4096 * q + flags;
    assert frame == 4096 * q;
    Quotient(e, q, 4096, flags);
    Quotient(q, 0, 0x100_0000_0000, q);
    Quotient(e, 16 * q, 256, flags);
    Quotient(e, 2048 * q + flags / 2, 2, 1);
    hide *;
    TestsAreFlags(e);
  }

  /** The walk through the two top levels. */
  lemma WalkTop(l: Layout, t: Tables, va: nat)
    requires Built(l, t) && (Pml4Index(va) == 511 || Pml4Index(va) == 0)
    ensures var m := MemoryOf(l, t);
      && Present(Fetch(m, l.pml4, Pml4Index(va)))
      && HardwareFrame(Fetch(m, l.pml4, Pml4Index(va))) == l.pdpts
      && Fetch(m, l.pdpts, PdptIndex(va)) == t.pdpts[PdptIndex(va)]
  {
    EntryOf(l.pdpts, 3);
  }

  /** The walk that ends in the page directory. */
  lemma WalkLargePage(m: Memory, cr3: nat, va: nat, pdpt: nat, dir: nat)
    requires var e4 := Fetch(m, cr3, Pml4Index(va)); Present(e4) && HardwareFrame(e4) == pdpt
    requires var e3 := Fetch(m, pdpt, PdptIndex(va)); Present(e3) && !Direct(e3) && HardwareFrame(e3) == dir
    requires var e2 := Fetch(m, dir, PdirIndex(va)); Present(e2) && Direct(e2)
    ensures WalkAddress(m, cr3, va) ==
              Some(HardwareFrame(Fetch(m, dir, PdirIndex(va))) / 0x20_0000 * 0x20_0000 + va % 0x20_0000)
  {
    hide Fetch, Present, Direct, HardwareFrame, Pml4Index, PdptIndex, PdirIndex;
  }

  /** The walk that ends in a page table. */
  lemma WalkSmallPage(m: Memory, cr3: nat, va: nat, pdpt: nat, dir: nat, table: nat)
    requires var e4 := Fetch(m, cr3, Pml4Index(va)); Present(e4) && HardwareFrame(e4) == pdpt
    requires var e3 := Fetch(m, pdpt, PdptIndex(va)); Present(e3) && !Direct(e3) && HardwareFrame(e3) == dir
    requires var e2 := Fetch(m, dir, PdirIndex(va)); Present(e2) && !Direct(e2) && HardwareFrame(e2) == table
    ensures var e1 := Fetch(m, table, PageIndex(va));
      WalkAddress(m, cr3, va) == if Present(e1) then Some(HardwareFrame(e1) + va % 0x1000) else None
  {
    hide Fetch, Present, Direct, HardwareFrame, Pml4Index, PdptIndex, PdirIndex, PageIndex;
  }

  lemma WalkKernelSlot(l: Layout, t: Tables, va: nat, a: nat)
    requires Built(l, t) && (Pml4Index(va) == 511 || Pml4Index(va) == 0) && a < 0x4000_0000
    requires PdptIndex(va) == 510 || PdptIndex(va) == 0
    requires PdirIndex(va) == a / 0x20_0000 && va % 0x20_0000 == a % 0x20_0000
    ensures WalkAddress(MemoryOf(l, t), l.pml4, va) == Some(a)
  {
    hide *;
    KernelSlot(l, t, va, a / 0x20_0000);
    WalkLargePage(MemoryOf(l, t), l.pml4, va, l.pdpts, l.dirs);
    LargePages(a);
  }

  lemma LargePages(a: nat)
    ensures 0x20_0000 * (a / 0x20_0000) / 0x20_0000 * 0x20_0000 + a % 0x20_0000 == a
  {
  }

  /** The walk through the two top levels and the directory in the kernel window and its alias. */
  lemma KernelSlot(l: Layout, t: Tables, va: nat, j: nat)
    requires Built(l, t) && (Pml4Index(va) == 511 || Pml4Index(va) == 0)
    requires (PdptIndex(va) == 510 || PdptIndex(va) == 0) && PdirIndex(va) == j < 512
    ensures var m := MemoryOf(l, t);
      && Present(Fetch(m, l.pml4, Pml4Index(va))) && HardwareFrame(Fetch(m, l.pml4, Pml4Index(va))) == l.pdpts
      && (var e := Fetch(m, l.pdpts, PdptIndex(va)); Present(e) && !Direct(e) && HardwareFrame(e) == l.dirs)
      && (var e := Fetch(m, l.dirs, PdirIndex(va)); Present(e) && Direct(e) && HardwareFrame(e) == 0x20_0000 * j)
  {
    WalkTop(l, t, va);
    EntryOf(l.dirs, 3);
    EntryOf(0x20_0000 * j, 0x93);
    assert Fetch(MemoryOf(l, t), l.dirs, j) == t.dirs[j] == 0x20_0000 * j + 0x93;
    assert t.pdpts[PdptIndex(va)] == l.dirs + 3;
    hide Fetch, MemoryOf, HardwareFrame, Present, Direct, Pml4Index, PdptIndex, PdirIndex;
  }

  lemma WalkIoSlot(l: Layout, t: Tables, va: nat, a: nat)
    requires Built(l, t) && Pml4Index(va) == 511 && a < 0x1_0000_0000
    requires PdptIndex(va) == 506 + a / 0x4000_0000
    requires PdirIndex(va) == a / 0x20_0000 % 512 && va % 0x20_0000 == a % 0x20_0000
    ensures WalkAddress(MemoryOf(l, t), l.pml4, va) == Some(a)
  {
    hide *;
    var i, j := a / 0x4000_0000, a / 0x20_0000 % 512;
    IoSlot(l, t, va, i);
    IoDir(l, t, i, j);
    LargeFrame(a);
    WalkLargePage(MemoryOf(l, t), l.pml4, va, l.pdpts, l.ioDirs + 4096 * i);
  }

  /** The walk through the two top levels in the IO window. */
  lemma IoSlot(l: Layout, t: Tables, va: nat, i: nat)
    requires Built(l, t) && Pml4Index(va) == 511 && i < 4 && PdptIndex(va) == 506 + i
    ensures var m := MemoryOf(l, t);
      && Present(Fetch(m, l.pml4, Pml4Index(va))) && HardwareFrame(Fetch(m, l.pml4, Pml4Index(va))) == l.pdpts
      && var e := Fetch(m, l.pdpts, PdptIndex(va));
         Present(e) && !Direct(e) && HardwareFrame(e) == l.ioDirs + 4096 * i
  {
    WalkTop(l, t, va);
    EntryOf(l.ioDirs + 4096 * i, 3);
    assert t.pdpts[506 + i] == l.ioDirs + 4096 * i + 3;
    hide Fetch, MemoryOf, HardwareFrame, Present, Direct, Pml4Index, PdptIndex;
  }

  lemma LargeFrame(a: nat)
    requires a < 0x1_0000_0000
    ensures var e := 0x4000_0000 * (a / 0x4000_0000) + 0x20_0000 * (a / 0x20_0000 % 512);
      && e + 0x93 < WordSize && Present(e + 0x93) && Direct(e + 0x93)
      && HardwareFrame(e + 0x93) / 0x20_0000 * 0x20_0000 + a % 0x20_0000 == a
  {
    var e := 0x4000_0000 * (a / 0x4000_0000) + 0x20_0000 * (a / 0x20_0000 % 512);
    assert e == 0x20_0000 * (a / 0x20_0000);
    EntryOf(e, 0x93);
  }

  lemma IoDir(l: Layout, t: Tables, i: nat, j: nat)
    requires Built(l, t) && i < 4 && j < 512
    ensures Fetch(MemoryOf(l, t), l.ioDirs + 4096 * i, j) == 0x4000_0000 * i + 0x20_0000 * j + 0x93
  {
    var p := l.ioDirs + 4096 * i;
    assert (p - l.ioDirs) % 4096 == 0 && (p - l.ioDirs) / 4096 == i;
    assert t.ioDirs[i][j] == 0x4000_0000 * i + 0x20_0000 * j + 0x93;
  }

  /** The three windows use PDPT slots 506 to 509, 510 and 511 of PML4 slot 511. */
  lemma IoWindow(a: nat)
    requires a < 0x1_0000_0000
    ensures Pml4Index(IoBase + a) == 511 && PdptIndex(IoBase + a) == 506 + a / 0x4000_0000 <= 509
    ensures PdirIndex(IoBase + a) == a / 0x20_0000 % 512 && (IoBase + a) % 0x20_0000 == a % 0x20_0000
  {
    WindowIndex(0x3_FFFF_FFFA, a, 0x20_0000, 512);
    Shifted(0x3_FFFF_FFFA, a, 0x4000_0000);
    Quotient(IoBase + a, 0x1FF_FFFF, 0x80_0000_0000, 0x7E_8000_0000 + a);
    assert a / 0x4000_0000 < 4;
  }

  lemma KernelWindow(a: nat)
    requires a < 0x4000_0000
    ensures Pml4Index(KernelBase + a) == 511 && PdptIndex(KernelBase + a) == 510
    ensures PdirIndex(KernelBase + a) == a / 0x20_0000 && (KernelBase + a) % 0x20_0000 == a % 0x20_0000
    ensures Pml4Index(a) == 0 && PdptIndex(a) == 0 && PdirIndex(a) == a / 0x20_0000
  {
  }

  /** Below a base that is a multiple of n units, indices and offsets are those of the rest. */
  lemma WindowIndex(m: nat, a: nat, unit: nat, n: nat)
    requires unit > 0 && n > 0
    ensures (m * (n * unit) + a) / unit % n == a / unit % n && (m * (n * unit) + a) % unit == a % unit
  {
    Associate(m, n, unit);
    Shifted(m * n, a, unit);
    DivMod(a, unit);
    Shifted(m, a / unit, n);
  }

  lemma Associate(m: nat, n: nat, unit: nat)
    ensures m * n >= 0 && m * (n * unit) == (m * n) * unit
  {
    MulMonotone(0, m, n);
  }

  lemma Shifted(c: nat, a: nat, unit: nat)
    requires unit > 0
    ensures (c * unit + a) / unit == c + a / unit && (c * unit + a) % unit == a % unit
  {
    DivMod(a, unit);
    Quotient(c * unit + a, c + a / unit, unit, a % unit);
  }

  lemma HeapWindow(a: nat)
    requires a < 0x4000_0000
    ensures Pml4Index(HeapBase + a) == 511 && PdptIndex(HeapBase + a) == 511
    ensures PdirIndex(HeapBase + a) == a / 0x20_0000 && PageIndex(HeapBase + a) == a / 0x1000 % 512
    ensures (HeapBase + a) % 0x1000 == a % 0x1000
  {
    WindowIndex(0x3_FFFF_FFFF, a, 0x20_0000, 512);
    WindowIndex(0x7FF_FFFF_FE00, a, 0x1000, 512);
    Quotient(HeapBase + a, 0x1FF_FFFF, 0x80_0000_0000, 0x7F_C000_0000 + a);
    Quotient(HeapBase + a, 0x3_FFFF_FFFF, 0x4000_0000, a);
    assert a / 0x20_0000 < 512;
  }

  /** The direct maps: 4 GiB of device memory, the kernel's first GiB, and its identity alias. */
  lemma DirectMapsHold(l: Layout, t: Tables, a: nat)
    requires Built(l, t)
    ensures a < 0x1_0000_0000 ==> WalkAddress(MemoryOf(l, t), l.pml4, IoBase + a) == Some(a)
    ensures a < 0x4000_0000 ==> WalkAddress(MemoryOf(l, t), l.pml4, KernelBase + a) == Some(a)
    ensures a < 0x4000_0000 ==> WalkAddress(MemoryOf(l, t), l.pml4, a) == Some(a)
  {
    if a < 0x1_0000_0000 {
      IoWindow(a);
      WalkIoSlot(l, t, IoBase + a, a);
    }
    if a < 0x4000_0000 {
      KernelWindow(a);
      WalkKernelSlot(l, t, KernelBase + a, a);
      WalkKernelSlot(l, t, a, a);
    }
  }

  /** In the heap window the walk reads the heap table entry of the page. */
  lemma HeapWalk(l: Layout, t: Tables, a: nat)
    requires Built(l, t) && a < 0x4000_0000
    ensures var e := t.heapTables[a / 0x20_0000][a / 0x1000 % 512];
      WalkAddress(MemoryOf(l, t), l.pml4, HeapBase + a) ==
        if Present(e) then Some(HardwareFrame(e) + a % 0x1000) else None
  {
    hide *;
    var va, i := HeapBase + a, a / 0x20_0000;
    HeapWindow(a);
    HeapSlot(l, t, va, i);
    HeapTable(l, t, i);
    WalkSmallPage(MemoryOf(l, t), l.pml4, va, l.pdpts, l.heapDirs, l.heapTables + 4096 * i);
  }

  /** The walk through the three upper levels in the heap window. */
  lemma HeapSlot(l: Layout, t: Tables, va: nat, i: nat)
    requires Built(l, t) && Pml4Index(va) == 511 && PdptIndex(va) == 511 && PdirIndex(va) == i < 512
    ensures var m := MemoryOf(l, t);
      && Present(Fetch(m, l.pml4, Pml4Index(va))) && HardwareFrame(Fetch(m, l.pml4, Pml4Index(va))) == l.pdpts
      && (var e := Fetch(m, l.pdpts, PdptIndex(va)); Present(e) && !Direct(e) && HardwareFrame(e) == l.heapDirs)
      && (var e := Fetch(m, l.heapDirs, PdirIndex(va));
          Present(e) && !Direct(e) && HardwareFrame(e) == l.heapTables + 4096 * i)
  {
    WalkTop(l, t, va);
    HeapTable(l, t, i);
    EntryOf(l.heapDirs, 3);
    EntryOf(l.heapTables + 4096 * i, 3);
    assert t.pdpts[511] == l.heapDirs + 3;
    hide Fetch, MemoryOf, HardwareFrame, Present, Direct, Pml4Index, PdptIndex, PdirIndex;
  }

  lemma HeapTable(l: Layout, t: Tables, i: nat)
    requires Built(l, t) && i < 512
    ensures Fetch(MemoryOf(l, t), l.heapDirs, i) == l.heapTables + 4096 * i + 3
    ensures forall k: nat :: k < 512 ==> Fetch(MemoryOf(l, t), l.heapTables + 4096 * i, k) == t.heapTables[i][k]
  {
    var p := l.heapTables + 4096 * i;
    assert (p - l.heapTables) % 4096 == 0 && (p - l.heapTables) / 4096 == i;
  }
}
