/** The kernel address space on its static tables: construction, page allocation in the heap window,
    mapping and translation. */
module KernelSpaces {
  import opened Options
  import opened Powers
  import opened Words
  import opened Paging
  import opened DirectMaps
  import opened HeapSearch

  class KernelAddressSpace {
    const layout: Layout
    const pml4: array<Word>
    const pdpts: array<Word>
    const kernelPageDirs: array<Word>
    const heapPageDirs: array<Word>
    const heapPageTables: array2<Word>
    const ioMappings: array2<Word>

    ghost predicate Valid()
    {
      && pml4.Length == 512 && pdpts.Length == 512 && kernelPageDirs.Length == 512 && heapPageDirs.Length == 512
      && heapPageTables.Length0 == 512 && heapPageTables.Length1 == 512
      && ioMappings.Length0 == 4 && ioMappings.Length1 == 512
      && pml4 != pdpts && pml4 != kernelPageDirs && pml4 != heapPageDirs
      && pdpts != kernelPageDirs && pdpts != heapPageDirs && kernelPageDirs != heapPageDirs
      && heapPageTables != ioMappings
    }

    ghost function RowsOf(a: array2<Word>): (r: seq<seq<Word>>)
      reads a
      ensures |r| == a.Length0
      ensures forall i :: 0 <= i < |r| ==> |r[i]| == a.Length1
      ensures forall i, j :: 0 <= i < |r| && 0 <= j < |r[i]| ==> r[i][j] == a[i, j]
    {
      seq(a.Length0, i requires 0 <= i < a.Length0 reads a =>
        seq(a.Length1, j requires 0 <= j < a.Length1 reads a => a[i, j]))
    }

    ghost function View(): Tables
      reads pml4, pdpts, kernelPageDirs, heapPageDirs, heapPageTables, ioMappings
    {
      Tables(pml4[..], pdpts[..], kernelPageDirs[..], heapPageDirs[..], RowsOf(heapPageTables), RowsOf(ioMappings))
    }

    ghost function HeapView(): (h: Heap)
      requires Valid()
      reads heapPageDirs, heapPageTables
      ensures HeapSearch.Sized(h)
      ensures h.dirs == heapPageDirs[..]
    {
      Heap(heapPageDirs[..],
           seq(HeapPages, t requires 0 <= t < HeapPages reads heapPageTables => heapPageTables[t / 512, t % 512]))
    }

    /** The constructor: clears the top levels and fills in the kernel, heap and IO windows. */
    constructor (layout: Layout)
      requires Placed(layout)
      ensures Valid() && this.layout == layout && Built(layout, View())
      ensures fresh(pml4) && fresh(pdpts) && fresh(kernelPageDirs) && fresh(heapPageDirs)
      ensures fresh(heapPageTables) && fresh(ioMappings)
      ensures forall t :: 0 <= t < HeapPages ==> HeapView().pages[t] == 0
    {
      this.layout := layout;
      var top := new Word[512](_ => 0);
      var mid := new Word[512](_ => 0);
      var dirs := new Word[512](_ => 0);
      var heapDirs := new Word[512](_ => 0);
      var heapTables := new Word[512, 512]((_, _) => 0);
      var io := new Word[4, 512]((_, _) => 0);
      pml4, pdpts, kernelPageDirs, heapPageDirs, heapPageTables, ioMappings := top, mid, dirs, heapDirs, heapTables, io;
      new;
      Fill();
      forall t | 0 <= t < HeapPages
        ensures HeapView().pages[t] == 0
      {
        assert heapPageTables[t / 512, t % 512] == 0;
      }
    }

    /** The constructor's body, on cleared tables. */
    method Fill()
      requires Valid() && Placed(layout)
      requires forall i :: 0 <= i < 512 ==> pml4[i] == 0 && pdpts[i] == 0 && kernelPageDirs[i] == 0 && heapPageDirs[i] == 0
      requires forall i, j :: 0 <= i < 4 && 0 <= j < 512 ==> ioMappings[i, j] == 0
      modifies pml4, pdpts, kernelPageDirs, heapPageDirs, ioMappings
      ensures Built(layout, View())
    {
      hide Built, Placed, View;
      FillPml4();
      FillKernelDirs();
      FillHeapDirs();
      FillIo();
      pdpts[0] := pdpts[510];
      ViewBuilt();
    }

    lemma ViewBuilt()
      requires Valid() && Placed(layout)
      requires pml4[511] == layout.pdpts + 3 && pml4[0] == layout.pdpts + 3 && forall i :: 0 < i < 511 ==> pml4[i] == 0
      requires pdpts[510] == layout.dirs + 3 && pdpts[0] == layout.dirs + 3 && pdpts[511] == layout.heapDirs + 3
      requires forall i :: 0 <= i < 4 ==> pdpts[506 + i] == layout.ioDirs + 4096 * i + 3
      requires forall i :: 0 < i < 506 ==> pdpts[i] == 0
      requires forall i :: 0 <= i < 512 ==> kernelPageDirs[i] == 0x20_0000 * i + 0x93
      requires forall i :: 0 <= i < 512 ==> heapPageDirs[i] == layout.heapTables + 4096 * i + 3
      requires forall i, j :: 0 <= i < 4 && 0 <= j < 512 ==> ioMappings[i, j] == 0x4000_0000 * i + 0x20_0000 * j + 0x93
      ensures Built(layout, View())
    {
      hide Placed;
    }

    method FillPml4()
      requires Valid() && Placed(layout)
      requires forall i :: 0 <= i < 512 ==> pml4[i] == 0
      modifies pml4
      ensures pml4[511] == layout.pdpts + 3 && pml4[0] == layout.pdpts + 3
      ensures forall i :: 0 < i < 511 ==> pml4[i] == 0
    {
      EntryWritten(layout.pdpts, 3);
      pml4[511] := SetPageFrame(pml4[511], layout.pdpts, 3);
      pml4[0] := pml4[511];
    }

    method FillKernelDirs()
      requires Valid() && Placed(layout)
      requires pdpts[510] == 0 && forall i :: 0 <= i < 512 ==> kernelPageDirs[i] == 0
      modifies pdpts, kernelPageDirs
      ensures pdpts[510] == layout.dirs + 3 && forall i :: 0 <= i < 512 && i != 510 ==> pdpts[i] == old(pdpts[i])
      ensures forall i :: 0 <= i < 512 ==> kernelPageDirs[i] == 0x20_0000 * i + 0x93
    {
      EntryWritten(layout.dirs, 3);
      pdpts[510] := SetPageFrame(pdpts[510], layout.dirs, 3);
      for i := 0 to 512
        invariant forall k :: 0 <= k < i ==> kernelPageDirs[k] == 0x20_0000 * k + 0x93
        invariant forall k :: i <= k < 512 ==> kernelPageDirs[k] == 0
        invariant pdpts[..] == old(pdpts[..])[510 := layout.dirs + 3]
      {
        EntryWritten(0x20_0000 * i, 0x93);
        kernelPageDirs[i] := SetPageFrame(kernelPageDirs[i], 0x20_0000 * i, 0x93);
      }
      assert forall i :: 0 <= i < 512 ==> pdpts[i] == pdpts[..][i];
    }

    method FillHeapDirs()
      requires Valid() && Placed(layout)
      requires pdpts[511] == 0 && forall i :: 0 <= i < 512 ==> heapPageDirs[i] == 0
      modifies pdpts, heapPageDirs
      ensures pdpts[511] == layout.heapDirs + 3 && forall i :: 0 <= i < 511 ==> pdpts[i] == old(pdpts[i])
      ensures forall i :: 0 <= i < 512 ==> heapPageDirs[i] == layout.heapTables + 4096 * i + 3
    {
      EntryWritten(layout.heapDirs, 3);
      pdpts[511] := SetPageFrame(pdpts[511], layout.heapDirs, 3);
      for i := 0 to 512
        invariant forall k :: 0 <= k < i ==> heapPageDirs[k] == layout.heapTables + 4096 * k + 3
        invariant forall k :: i <= k < 512 ==> heapPageDirs[k] == 0
        invariant pdpts[..] == old(pdpts[..])[511 := layout.heapDirs + 3]
      {
        EntryWritten(layout.heapTables + 4096 * i, 3);
        heapPageDirs[i] := SetPageFrame(heapPageDirs[i], layout.heapTables + 4096 * i, 3);
      }
      assert forall i :: 0 <= i < 512 ==> pdpts[i] == pdpts[..][i];
    }

    method FillIo()
      requires Valid() && Placed(layout)
      requires forall i :: 506 <= i < 510 ==> pdpts[i] == 0
      requires forall i, j :: 0 <= i < 4 && 0 <= j < 512 ==> ioMappings[i, j] == 0
      modifies pdpts, ioMappings
      ensures forall i :: 0 <= i < 4 ==> pdpts[506 + i] == layout.ioDirs + 4096 * i + 3
      ensures forall i :: 0 <= i < 512 && !(506 <= i < 510) ==> pdpts[i] == old(pdpts[i])
      ensures forall i, j :: 0 <= i < 4 && 0 <= j < 512 ==>
                ioMappings[i, j] == 0x4000_0000 * i + 0x20_0000 * j + 0x93
    {
      for i := 0 to 4
        invariant forall k :: 0 <= k < i ==> pdpts[506 + k] == layout.ioDirs + 4096 * k + 3
        invariant forall k :: 0 <= k < 512 && !(506 <= k < 506 + i) ==> pdpts[k] == old(pdpts[k])
        invariant forall k, j :: 0 <= k < i && 0 <= j < 512 ==>
                    ioMappings[k, j] == 0x4000_0000 * k + 0x20_0000 * j + 0x93
        invariant forall k, j :: i <= k < 4 && 0 <= j < 512 ==> ioMappings[k, j] == 0
      {
        EntryWritten(layout.ioDirs + 4096 * i, 3);
        pdpts[506 + i] := SetPageFrame(pdpts[506 + i], layout.ioDirs + 4096 * i, 3);
        FillIoRow(i);
      }
    }

    method FillIoRow(i: nat)
      requires Valid() && i < 4 && forall j :: 0 <= j < 512 ==> ioMappings[i, j] == 0
      modifies ioMappings
      ensures forall j :: 0 <= j < 512 ==> ioMappings[i, j] == 0x4000_0000 * i + 0x20_0000 * j + 0x93
      ensures forall k, j :: 0 <= k < 4 && k != i && 0 <= j < 512 ==> ioMappings[k, j] == old(ioMappings[k, j])
    {
      for j := 0 to 512
        invariant forall k :: 0 <= k < j ==> ioMappings[i, k] == 0x4000_0000 * i + 0x20_0000 * k + 0x93
        invariant forall k :: j <= k < 512 ==> ioMappings[i, k] == 0
        invariant forall r, k :: 0 <= r < 4 && r != i && 0 <= k < 512 ==> ioMappings[r, k] == old(ioMappings[r, k])
      {
        // the sums stay below 2^32, so the source's 32-bit arithmetic does not wrap
        EntryWritten(0x4000_0000 * i + 0x20_0000 * j, 0x93);
        ioMappings[i, j] := SetPageFrame(ioMappings[i, j], 0x4000_0000 * i + 0x20_0000 * j, 0x93);
      }
    }

    // ----- KernelAllocate4KPages -----

    /** The inner search loop of the first pass, over the pages of table i. */
    method SearchTable(i: nat, amount: nat, dir: nat, page: nat, count: nat, ghost h: Heap, ghost n: nat)
      returns (found: bool, pageDirOffset: nat, offset: nat, counter: nat)
      requires Valid() && i < 512 && HasTable(heapPageDirs[i]) && h == HeapView() && n == PagesWanted(amount)
      requires page <= 512 && count < n && 512 * dir + page + count == 512 * i
      requires Scanned(h, n, 512 * dir + page, 512 * i)
      ensures offset <= 512
      ensures found ==> FirstFreeRun(h, 512 * pageDirOffset + offset, n) && SomeFreeRun(h, n)
      ensures !found ==> counter < n && 512 * pageDirOffset + offset + counter == 512 * i + 512
      ensures !found ==> Scanned(h, n, 512 * pageDirOffset + offset, 512 * i + 512)
    {
      hide *;
      pageDirOffset, offset, counter, found := dir, page, count, false;
      SearchBounds(i, amount);
      for j := 0 to 512
        invariant offset <= 512 && counter < n
        invariant 512 * pageDirOffset + offset + counter == 512 * i + j
        invariant Scanned(h, n, 512 * pageDirOffset + offset, 512 * i + j)
      {
        PageEntry(h, i, j);
        ScanPage(h, n, 512 * pageDirOffset + offset, 512 * i + j);
        if Present(heapPageTables[i, j]) {
          pageDirOffset, offset, counter := i, j + 1, 0;
        } else {
          counter := counter + 1;
          if counter >= amount {
            found := true;
            return;
          }
        }
      }
    }

    /** The search of the first pass; directory and page of the run. */
    method FirstPassSearch(amount: nat) returns (found: bool, pageDirOffset: nat, offset: nat)
      requires Valid()
      ensures offset <= 512
      ensures found ==> FirstFreeRun(HeapView(), 512 * pageDirOffset + offset, PagesWanted(amount))
      ensures found <==> SomeFreeRun(HeapView(), PagesWanted(amount))
    {
      ghost var h, n := HeapView(), PagesWanted(amount);
      pageDirOffset, offset, found := 0, 0, false;
      var counter: nat := 0;
      ScanStart(h, n);
      hide Scanned, FirstFreeRun, SomeFreeRun;
      for i := 0 to 512
        invariant offset <= 512 && counter < n
        invariant 512 * pageDirOffset + offset + counter == 512 * i
        invariant Scanned(h, n, 512 * pageDirOffset + offset, 512 * i)
      {
        if HasTable(heapPageDirs[i]) {
          found, pageDirOffset, offset, counter := SearchTable(i, amount, pageDirOffset, offset, counter, h, n);
          if found {
            return;
          }
        } else {
          NoTableNoPages(h, i);
          ScanTaken(h, n, 512 * pageDirOffset + offset, 512 * i, 512);
          pageDirOffset, offset, counter := i + 1, 0, 0;
        }
      }
      ScanEnds(h, n, 512 * pageDirOffset + offset, HeapPages);
    }

    lemma SearchBounds(i: nat, amount: nat)
      requires Valid() && i < 512
      ensures PagesWanted(amount) == (if amount == 0 then 1 else amount) && 512 * i + 512 <= HeapPages
      ensures HeapSearch.Sized(HeapView()) && heapPageTables.Length0 == heapPageTables.Length1 == 512
    {
    }

    lemma PageEntry(h: Heap, i: nat, j: nat)
      requires Valid() && h == HeapView() && i < 512 && j < 512
      ensures h.pages[512 * i + j] == heapPageTables[i, j]
      ensures HasTable(heapPageDirs[i]) ==> (FreePage(h, 512 * i + j) <==> !Present(heapPageTables[i, j]))
    {
      assert (512 * i + j) / 512 == i && (512 * i + j) % 512 == j;
    }

    lemma NoTableNoPages(h: Heap, i: nat)
      requires Valid() && h == HeapView() && i < 512 && !HasTable(heapPageDirs[i])
      ensures forall t :: 512 * i <= t < 512 * i + 512 ==> !FreePage(h, t)
    {
      forall t | 512 * i <= t < 512 * i + 512
        ensures !FreePage(h, t)
      {
        assert t / 512 == i;
      }
    }

    /** The marking loop of the first pass. */
    method MarkRun(dir: nat, page: nat, count: nat)
      requires Valid() && page <= 512 && 512 * dir + page + count <= HeapPages
      modifies heapPageTables
      ensures Marked(old(HeapView()), HeapView(), 512 * dir + page, count)
    {
      ghost var h, s := HeapView(), 512 * dir + page;
      var pageDirOffset: nat, offset: nat, counter: nat := dir, page, count;
      while counter > 0
        invariant offset <= 512 && counter <= count && 512 * pageDirOffset + offset + counter == s + count
        invariant Marked(h, HeapView(), s, count - counter)
      {
        counter := counter - 1;
        if offset >= 512 {
          pageDirOffset := pageDirOffset + 1;
          offset := 0;
        }
        MarkPage(pageDirOffset, offset);
        offset := offset + 1;
      }
    }

    method MarkPage(dir: nat, page: nat)
      requires Valid() && dir < 512 && page < 512
      modifies heapPageTables
      ensures Marked(old(HeapView()), HeapView(), 512 * dir + page, 1)
    {
      PresentAndWritable(heapPageTables[dir, page]);
      heapPageTables[dir, page] := SetPageFlags(heapPageTables[dir, page], 3);
      forall t | 0 <= t < HeapPages
        ensures HeapView().pages[t] ==
          if t == 512 * dir + page then 4 * (old(HeapView()).pages[t] / 4) + 3 else old(HeapView()).pages[t]
      {
        assert t == 512 * (t / 512) + t % 512;
      }
    }

    /** The search loop of the second pass. */
    method SecondPassSearch(amount: nat) returns (found: bool, pageDirOffset: nat)
      requires Valid()
      ensures found ==> FirstAbsentRun(HeapView(), pageDirOffset, DirsWanted(amount))
      ensures found <==> SomeAbsentRun(HeapView(), DirsWanted(amount))
    {
      ghost var h, m := HeapView(), DirsWanted(amount);
      pageDirOffset, found := 0, false;
      var counter: nat := 0;
      for i := 0 to 512
        invariant h == HeapView() && counter == 512 * (i - pageDirOffset) && i - pageDirOffset < m
        invariant DirsScanned(h, m, pageDirOffset, i)
      {
        DirsStep(h, m, pageDirOffset, i);
        if !Present(heapPageDirs[i]) {
          counter := counter + 512;
          if counter >= amount {
            DirsEnd(h, m, pageDirOffset, i + 1);
            found := true;
            return;
          }
        } else {
          pageDirOffset, counter := i + 1, 0;
        }
      }
      DirsEnd(h, m, pageDirOffset, 512);
    }

    method LinkDir(d: nat)
      requires Valid() && d < 512 && layout.heapTables + 4096 * 512 <= WordSize
      modifies heapPageDirs
      ensures DirsLinked(old(HeapView()), HeapView(), layout.heapTables, d, 1)
      ensures HeapView().pages == old(HeapView()).pages
    {
      heapPageDirs[d] := SetPageFrame(heapPageDirs[d], layout.heapTables + 4096 * d, 3);
    }

    /** The marking loop of the second pass, which links directories on the way. */
    method LinkAndMark(dir: nat, amount: nat)
      requires Valid() && dir + DirsWanted(amount) <= 512 && layout.heapTables + 4096 * 512 <= WordSize
      modifies heapPageDirs, heapPageTables
      ensures Marked(old(HeapView()), HeapView(), 512 * dir, amount)
      ensures DirsLinked(old(HeapView()), HeapView(), layout.heapTables, dir, DirsWanted(amount))
    {
      ghost var h := HeapView();
      LinkDir(dir);
      var pageDirOffset: nat, offset: nat, left: nat := dir, 0, amount;
      while left > 0
        invariant offset <= 512 && left <= amount && dir <= pageDirOffset
        invariant 512 * (pageDirOffset - dir) + offset + left == amount
        invariant offset == 0 ==> pageDirOffset == dir
        invariant Marked(h, HeapView(), 512 * dir, amount - left)
        invariant DirsLinked(h, HeapView(), layout.heapTables, dir, pageDirOffset - dir + 1)
      {
        left := left - 1;
        if offset >= 512 {
          pageDirOffset := pageDirOffset + 1;
          offset := 0;
          LinkDir(pageDirOffset);
        }
        MarkPage(pageDirOffset, offset);
        offset := offset + 1;
      }
    }

    method KernelAllocate4KPages(amount: nat) returns (address: Option<nat>, ghost found: Found)
      requires Valid() && layout.heapTables + 4096 * 512 <= WordSize
      modifies heapPageDirs, heapPageTables
      ensures Allocates(old(HeapView()), HeapView(), layout.heapTables, amount, found)
      ensures forall t :: 0 <= t < HeapPages ==>
                HeapView().pages[t] == var e := old(HeapView()).pages[t]; if InResult(found, amount, t) then 4 * (e / 4) + 3 else e
      ensures match found
        case FirstPass(start) => address == Some(HeapBase + 4096 * start)
        case SecondPass(dir) => address == Some(SecondPassAddress(dir, 0))
        case NoRoom => address == None
    {
      var ok, dir, page := FirstPassSearch(amount);
      if ok {
        found := FirstPass(512 * dir + page);
        FirstPassIsRight(dir, page);
        address := Some(FirstPassAddress(dir, page));
        MarkRun(dir, page, if amount == 0 then 1 else amount);
        return;
      }
      var some, first := SecondPassSearch(amount);
      if some {
        found := SecondPass(first);
        address := Some(SecondPassAddress(first, 0));
        LinkAndMark(first, amount);
        return;
      }
      found := NoRoom;
      address := None;
    }

    /** The constructor's tables satisfy the condition under which allocation never needs its second
        pass (HeapSearch.ResultsNeverOverlap). */
    lemma ConstructorLinksAllTables()
      requires Valid() && Built(layout, View())
      ensures AllTablesLinked(HeapView())
    {
      forall i | 0 <= i < 512
        ensures HasTable(heapPageDirs[i])
      {
        assert heapPageDirs[i] == View().heapDirs[i];
        EntryOf(layout.heapTables + 4096 * i, 3);
      }
    }

    // ----- mapping and translation -----

    /** KernelMapVirtualMemory4K within the heap window, where every directory has its table. */
    method KernelMapVirtualMemory4K(phys: Word, virt: Word, amount: nat, flags: Word)
      requires Valid() && virt >= HeapBase && (virt - HeapBase) / 4096 + amount <= HeapPages
      modifies heapPageTables
      ensures Mapped(old(HeapView()), HeapView(), phys, (virt - HeapBase) / 4096, amount, flags)
    {
      hide *;
      ghost var h, t0 := HeapView(), (virt - HeapBase) / 4096;
      var p: Word, v: nat, left: nat := phys, virt, amount;
      NothingMapped(h, phys, t0, flags);
      while left > 0
        invariant left <= amount && v == virt + 4096 * (amount - left)
        invariant p == FrameAfter(phys, amount - left)
        invariant Mapped(h, HeapView(), phys, t0, amount - left, flags)
      {
        left := left - 1;
        ghost var was := HeapView();
        ghost var k := amount - left - 1;
        NextPage(phys, virt, k);
        HeapIndices(v, t0 + k);
        MapPage(PdirIndex(v), PageIndex(v), p, flags);
        MappedNext(h, was, HeapView(), phys, t0, k, flags);
        p := FrameAfter(p, 1);
        v := v + 4096;
      }
    }

    method MapPage(dir: nat, page: nat, phys: Word, flags: Word)
      requires Valid() && dir < 512 && page < 512
      modifies heapPageTables
      ensures HeapView() == old(HeapView()).(pages := old(HeapView()).pages
                [512 * dir + page := SetPageFrame(old(HeapView()).pages[512 * dir + page], phys, flags)])
    {
      assert (512 * dir + page) / 512 == dir && (512 * dir + page) % 512 == page;
      heapPageTables[dir, page] := SetPageFrame(heapPageTables[dir, page], phys, flags);
      assert forall t :: 0 <= t < HeapPages ==> t == 512 * (t / 512) + t % 512;
    }

    /** ConvertVirtToPhys, with the parentheses that the source forgot around the masked entry. Only
        PDPT slot 511 has table pointers. */
    function ConvertVirtToPhys(va: nat): nat
      requires Valid()
      reads heapPageTables
    {
      if Pml4Index(va) != 511 then 0
      else if PdptIndex(va) == 510 then 0x20_0000 * PdirIndex(va) + va % 0x20_0000
      else if PdptIndex(va) == 511 && Present(heapPageTables[PdirIndex(va), PageIndex(va)]) then
        And(heapPageTables[PdirIndex(va), PageIndex(va)], PAGE_FRAME) + va % 0x1000
      else 0
    }

    lemma ConvertsFromEntries(va: nat)
      requires Valid()
      ensures ConvertVirtToPhys(va) == Converts(HeapView(), va)
    {
      PageEntry(HeapView(), PdirIndex(va), PageIndex(va));
      hide And, Present, Pml4Index, PdptIndex;
    }

    function IsPagePresent(va: nat): bool
      requires Valid()
      reads heapPageTables
    {
      Pml4Index(va) == 511 && PdptIndex(va) == 511 && Present(heapPageTables[PdirIndex(va), PageIndex(va)])
    }

    /** ConvertVirtToPhys agrees with the processor on the whole kernel window. */
    lemma KernelWindowConverts(a: nat)
      requires Valid() && Built(layout, View()) && a < 0x4000_0000
      ensures ConvertVirtToPhys(KernelBase + a) == a
      ensures WalkAddress(MemoryOf(layout, View()), layout.pml4, KernelBase + a) == Some(a)
    {
      DirectMapsHold(layout, View(), a);
      KernelWindow(a);
    }

    /** In the device window it answers 0 although the processor translates, so the two agree for the
        first byte only. */
    lemma IoWindowDoesNotConvert(a: nat)
      requires Valid() && Built(layout, View()) && a < 0x1_0000_0000
      ensures ConvertVirtToPhys(IoBase + a) == 0
      ensures Some(ConvertVirtToPhys(IoBase + a)) == WalkAddress(MemoryOf(layout, View()), layout.pml4, IoBase + a) <==> a == 0
    {
      DirectMapsHold(layout, View(), a);
      IoWindow(a);
    }

    /** Nor does it know the identity alias of the kernel's first GiB, which the processor translates. */
    lemma AliasDoesNotConvert(a: nat)
      requires Valid() && Built(layout, View()) && a < 0x4000_0000
      ensures ConvertVirtToPhys(a) == 0
      ensures Some(ConvertVirtToPhys(a)) == WalkAddress(MemoryOf(layout, View()), layout.pml4, a) <==> a == 0
    {
      DirectMapsHold(layout, View(), a);
      KernelWindow(a);
    }

    /** In the heap window an absent page, which the processor faults on, converts to 0. A present one
        converts to what the processor translates to if and only if bits 51:48 of its entry are clear:
        the kernel's frame mask is that much shorter than the processor's. */
    lemma HeapWindowConverts(a: nat)
      requires Valid() && Built(layout, View()) && a < 0x4000_0000
      ensures var walk, e := WalkAddress(MemoryOf(layout, View()), layout.pml4, HeapBase + a),
                             heapPageTables[a / 0x20_0000, a / 0x1000 % 512];
        && (walk.Some? <==> IsPagePresent(HeapBase + a))
        && (!IsPagePresent(HeapBase + a) ==> ConvertVirtToPhys(HeapBase + a) == 0)
        && (IsPagePresent(HeapBase + a) ==>
              (walk == Some(ConvertVirtToPhys(HeapBase + a)) <==> e / 0x1_0000_0000_0000 % 16 == 0))
    {
      var e := heapPageTables[a / 0x20_0000, a / 0x1000 % 512];
      assert View().heapTables[a / 0x20_0000][a / 0x1000 % 512] == e;
      HeapWalk(layout, View(), a);
      FramesDiffer(e);
      HeapWindow(a);
      hide Built, MemoryOf, WalkAddress, View, HardwareFrame, And, Present, Pml4Index, PdptIndex, PdirIndex, PageIndex;
    }
  }

  /** The physical address n pages on; the sum wraps at 64 bits. */
  function FrameAfter(phys: nat, n: nat): Word {
    (phys + 4096 * n) % WordSize
  }

  lemma NothingMapped(h: Heap, phys: Word, t0: nat, flags: Word)
    requires HeapSearch.Sized(h) && t0 <= HeapPages
    ensures Mapped(h, h, phys, t0, 0, flags) && FrameAfter(phys, 0) == phys
  {
    hide SetPageFrame;
  }

  /** Pages t0 .. t0+n carry the frames from phys on; every other entry is as before. */
  ghost predicate Mapped(h1: Heap, h2: Heap, phys: nat, t0: nat, n: nat, flags: Word)
  {
    && HeapSearch.Sized(h1) && HeapSearch.Sized(h2) && h2.dirs == h1.dirs && t0 + n <= HeapPages
    && forall t :: 0 <= t < HeapPages ==>
         h2.pages[t] == if t0 <= t < t0 + n then SetPageFrame(h1.pages[t], FrameAfter(phys, t - t0), flags)
                        else h1.pages[t]
  }

  lemma MappedNext(h0: Heap, h1: Heap, h2: Heap, phys: nat, t0: nat, n: nat, flags: Word)
    requires Mapped(h0, h1, phys, t0, n, flags) && t0 + n < HeapPages
    requires h2 == h1.(pages := h1.pages[t0 + n := SetPageFrame(h1.pages[t0 + n], FrameAfter(phys, n), flags)])
    ensures Mapped(h0, h2, phys, t0, n + 1, flags)
  {
  }

  lemma NextPage(phys: nat, virt: nat, k: nat)
    requires virt >= HeapBase
    ensures (virt + 4096 * k - HeapBase) / 4096 == (virt - HeapBase) / 4096 + k
    ensures FrameAfter(FrameAfter(phys, k), 1) == FrameAfter(phys, k + 1)
  {
  }

  /** The processor's frame is 40 bits wide, the kernel's 36. */
  lemma FramesDiffer(e: Word)
    ensures HardwareFrame(e) == And(e, PAGE_FRAME) <==> e / 0x1_0000_0000_0000 % 16 == 0
  {
    AlignedAddress(e);
    var q: nat := e / 4096;
    var high, low := q / 0x10_0000_0000, q % 0x10_0000_0000;
    DivMod(q, 0x10_0000_0000);
    Quotient(q, high / 16, 0x100_0000_0000, 0x10_0000_0000 * (high % 16) + low);
    assert high == e / 0x1_0000_0000_0000 by {
      Quotient(e, high, 0x1_0000_0000_0000, 4096 * low + e % 4096);
    }
    hide And;
  }

  lemma HeapIndices(v: nat, t: nat)
    requires v >= HeapBase && (v - HeapBase) / 4096 == t < HeapPages
    ensures PdptIndex(v) == 511 && PdirIndex(v) < 512 && PageIndex(v) < 512 && 512 * PdirIndex(v) + PageIndex(v) == t
  {
    HeapWindow(v - HeapBase);
  }

  /** An entry mapped present holds the frame of its page; the flag bits already there stay. */
  lemma MappedPage(h1: Heap, h2: Heap, phys: nat, t0: nat, n: nat, flags: Word, i: nat)
    requires Mapped(h1, h2, phys, t0, n, flags) && i < n && flags < 4096 && flags % 2 == 1
    requires phys % 4096 == 0 && phys + 4096 * n <= 0x1_0000_0000_0000
    ensures t0 + i < |h1.pages| == |h2.pages|
    ensures var e := h2.pages[t0 + i];
      Present(e) && And(e, PAGE_FRAME) == phys + 4096 * i && e % 4096 == Or(h1.pages[t0 + i] % 4096, flags)
  {
    PageWritten(h1, h2, phys, t0, n, flags, i);
    hide *;
    Quotient(phys + 4096 * i, phys / 4096 + i, 4096, 0);
    MappedFrame(h1.pages[t0 + i], phys + 4096 * i, flags);
  }

  lemma MappedFrame(page: Word, frame: Word, flags: Word)
    requires flags < 4096 && flags % 2 == 1 && frame % 4096 == 0 && frame < 0x1_0000_0000_0000
    ensures var e := SetPageFrame(page, frame, flags);
      Present(e) && And(e, PAGE_FRAME) == frame && e % 4096 == Or(page % 4096, flags)
  {
    hide *;
    MappedEntry(page, frame, flags);
  }

  lemma PageWritten(h1: Heap, h2: Heap, phys: nat, t0: nat, n: nat, flags: Word, i: nat)
    requires Mapped(h1, h2, phys, t0, n, flags) && i < n && phys + 4096 * n <= 0x1_0000_0000_0000
    ensures t0 + i < |h1.pages| == |h2.pages|
    ensures h2.pages[t0 + i] == SetPageFrame(h1.pages[t0 + i], phys + 4096 * i, flags)
  {
    hide SetPageFrame;
    Quotient(phys + 4096 * i, 0, WordSize, phys + 4096 * i);
  }

  /** ConvertVirtToPhys as a function of the heap entries (ConvertsFromEntries). */
  function Converts(h: Heap, va: nat): nat
    requires |h.pages| == HeapPages
  {
    var t := 512 * PdirIndex(va) + PageIndex(va);
    if Pml4Index(va) != 511 then 0
    else if PdptIndex(va) == 510 then 0x20_0000 * PdirIndex(va) + va % 0x20_0000
    else if PdptIndex(va) == 511 && Present(h.pages[t]) then And(h.pages[t], PAGE_FRAME) + va % 0x1000
    else 0
  }

  /** Byte off of page t of the heap window. */
  function ByteOf(t: nat, off: nat): nat {
    HeapBase + 4096 * t + off
  }

  lemma HeapPageIndices(t: nat, off: nat)
    requires t < HeapPages && off < 4096
    ensures var va := ByteOf(t, off);
      Pml4Index(va) == 511 && PdptIndex(va) == 511 && 512 * PdirIndex(va) + PageIndex(va) == t && va % 0x1000 == off
  {
    hide Pml4Index, PdptIndex, PdirIndex, PageIndex;
    HeapWindow(4096 * t + off);
    Quotient(4096 * t + off, t, 4096, off);
    assert t / 512 == (4096 * t + off) / 0x20_0000;
  }

  /** Mapping then translating is a round trip: every byte of page t0 + i translates to
      phys + 4096 * i plus its offset, and every address whose page is outside the range keeps its
      translation. */
  lemma MapThenTranslate(h1: Heap, h2: Heap, phys: nat, t0: nat, n: nat, flags: Word)
    requires Mapped(h1, h2, phys, t0, n, flags) && flags < 4096 && flags % 2 == 1
    requires phys % 4096 == 0 && phys + 4096 * n <= 0x1_0000_0000_0000
    ensures |h1.pages| == |h2.pages| == HeapPages
    ensures forall t: nat, off: nat :: t0 <= t < t0 + n && off < 4096 ==>
              Converts(h2, ByteOf(t, off)) == phys + 4096 * (t - t0) + off
    ensures forall va: nat ::
              !(PdptIndex(va) == 511 && t0 <= 512 * PdirIndex(va) + PageIndex(va) < t0 + n) ==>
              Converts(h2, va) == Converts(h1, va)
  {
    forall t: nat, off: nat | t0 <= t < t0 + n && off < 4096
      ensures Converts(h2, ByteOf(t, off)) == phys + 4096 * (t - t0) + off
    {
      HeapPageIndices(t, off);
      MappedPage(h1, h2, phys, t0, n, flags, t - t0);
      hide And, Or, Present, SetPageFrame, Pml4Index, PdptIndex, PdirIndex, PageIndex, Mapped;
    }
    forall va: nat | !(PdptIndex(va) == 511 && t0 <= 512 * PdirIndex(va) + PageIndex(va) < t0 + n)
      ensures Converts(h2, va) == Converts(h1, va)
    {
      OthersKeepTranslation(h1, h2, phys, t0, n, flags, va);
    }
  }

  lemma OthersKeepTranslation(h1: Heap, h2: Heap, phys: nat, t0: nat, n: nat, flags: Word, va: nat)
    requires Mapped(h1, h2, phys, t0, n, flags)
    requires !(PdptIndex(va) == 511 && t0 <= 512 * PdirIndex(va) + PageIndex(va) < t0 + n)
    ensures Converts(h2, va) == Converts(h1, va)
  {
    assert 512 * PdirIndex(va) + PageIndex(va) < HeapPages;
    hide And, Or, Present, SetPageFrame, Pml4Index, PdptIndex, PdirIndex, PageIndex;
  }

  /** SetPageFrame on a zero entry. */
  lemma EntryWritten(addr: nat, flags: nat)
    requires addr % 4096 == 0 && addr < 0x1_0000_0000 && flags < 4096
    ensures SetPageFrame(0, addr, flags) == addr + flags
  {
    FreshEntry(addr, flags);
    AlignedAddress(addr);
  }
}
