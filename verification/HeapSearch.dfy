/** The first-fit search of KernelAllocate4KPages as mathematics: which run of heap pages it finds
    and why successive results never overlap. Heap page t is entry t % 512 of table t / 512. */
module HeapSearch {
  import opened Options
  import Powers
  import opened Words
  import opened Paging

  const HeapPages: nat := 262_144

  /** The heap's page directory and its pages' entries in address order. */
  datatype Heap = Heap(dirs: seq<Word>, pages: seq<Word>)

  ghost predicate Sized(h: Heap) {
    |h.dirs| == 512 && |h.pages| == HeapPages
  }

  /** The directory entry points at a table. */
  predicate HasTable(e: Word) {
    Present(e) && !Direct(e)
  }

  predicate FreePage(h: Heap, t: nat)
    requires |h.dirs| == 512 && |h.pages| == HeapPages && t < HeapPages
  {
    HasTable(h.dirs[t / 512]) && !Present(h.pages[t])
  }

  /** In terms of the entries' bits: the directory is present and not a large page, the page is absent. */
  lemma FreePageBits(h: Heap, t: nat)
    requires Sized(h) && t < HeapPages
    ensures FreePage(h, t) <==> h.dirs[t / 512] % 2 == 1 && h.dirs[t / 512] % 256 < 128 && h.pages[t] % 2 == 0
  {
    TestsAreFlags(h.dirs[t / 512]);
    TestsAreFlags(h.pages[t]);
  }

  ghost predicate FreeRun(h: Heap, s: nat, n: nat)
    requires Sized(h)
  {
    s + n <= HeapPages && forall t :: s <= t < s + n ==> FreePage(h, t)
  }

  ghost predicate SomeFreeRun(h: Heap, n: nat)
    requires Sized(h)
  {
    exists s: nat :: FreeRun(h, s, n)
  }

  ghost predicate FirstFreeRun(h: Heap, s: nat, n: nat)
    requires Sized(h)
  {
    FreeRun(h, s, n) && forall p: nat :: p < s ==> !FreeRun(h, p, n)
  }

  ghost predicate AbsentRun(h: Heap, d: nat, n: nat)
    requires Sized(h)
  {
    d + n <= 512 && forall i :: d <= i < d + n ==> !Present(h.dirs[i])
  }

  ghost predicate SomeAbsentRun(h: Heap, n: nat)
    requires Sized(h)
  {
    exists d: nat :: AbsentRun(h, d, n)
  }

  ghost predicate FirstAbsentRun(h: Heap, d: nat, n: nat)
    requires Sized(h)
  {
    AbsentRun(h, d, n) && forall p: nat :: p < d ==> !AbsentRun(h, p, n)
  }

  /** A request for nothing still takes one page, and one directory. */
  function PagesWanted(amount: nat): nat {
    if amount == 0 then 1 else amount
  }

  function DirsWanted(amount: nat): nat {
    if amount == 0 then 1 else (amount + 511) / 512
  }

  /** h2 is h1 with the two lowest bits, present and writable, set in exactly the pages s .. s+n. */
  ghost predicate Marked(h1: Heap, h2: Heap, s: nat, n: nat) {
    && Sized(h1) && Sized(h2)
    && forall t :: 0 <= t < HeapPages ==>
         h2.pages[t] == if s <= t < s + n then 4 * (h1.pages[t] / 4) + 3 else h1.pages[t]
  }

  // ----- the first pass -----

  /** A free run from start to pos that cannot be extended to the left, and no sufficient run ends
      before it. */
  ghost predicate Scanned(h: Heap, n: nat, start: nat, pos: nat)
    requires Sized(h)
  {
    && start <= pos <= HeapPages
    && FreeRun(h, start, pos - start)
    && (start == 0 || !FreePage(h, start - 1))
    && (forall p: nat :: p + n < start ==> !FreeRun(h, p, n))
  }

  lemma ScanStart(h: Heap, n: nat)
    requires Sized(h)
    ensures Scanned(h, n, 0, 0)
  {
  }

  lemma ScanFree(h: Heap, n: nat, start: nat, pos: nat)
    requires Sized(h) && Scanned(h, n, start, pos) && pos < HeapPages && FreePage(h, pos)
    ensures Scanned(h, n, start, pos + 1)
  {
  }

  lemma ScanTaken(h: Heap, n: nat, start: nat, pos: nat, m: nat)
    requires Sized(h) && Scanned(h, n, start, pos) && pos - start < n && 0 < m && pos + m <= HeapPages
    requires forall t :: pos <= t < pos + m ==> !FreePage(h, t)
    ensures Scanned(h, n, pos + m, pos + m)
  {
    forall p: nat | p + n < pos + m
      ensures !FreeRun(h, p, n)
    {
      if p + n > pos {
        assert !FreePage(h, if p <= pos then pos else p);
      } else if p < start && p + n >= start {
        assert !FreePage(h, start - 1);
      }
    }
    assert !FreePage(h, pos + m - 1);
  }

  lemma ScanEnds(h: Heap, n: nat, start: nat, pos: nat)
    requires Sized(h) && Scanned(h, n, start, pos)
    ensures pos - start == n ==> FirstFreeRun(h, start, n) && SomeFreeRun(h, n)
    ensures pos - start < n && pos == HeapPages ==> !SomeFreeRun(h, n)
  {
    forall p: nat | p < start
      ensures !FreeRun(h, p, n)
    {
      if p + n >= start {
        assert n == 0 || !FreePage(h, start - 1);
      }
    }
  }

  /** What one page does to the state of the scan. */
  lemma ScanPage(h: Heap, n: nat, start: nat, pos: nat)
    requires Sized(h) && Scanned(h, n, start, pos) && pos - start < n && pos < HeapPages
    ensures FreePage(h, pos) ==> Scanned(h, n, start, pos + 1)
    ensures FreePage(h, pos) && pos + 1 - start == n ==> FirstFreeRun(h, start, n) && SomeFreeRun(h, n)
    ensures !FreePage(h, pos) ==> Scanned(h, n, pos + 1, pos + 1)
  {
    if FreePage(h, pos) {
      ScanFree(h, n, start, pos);
      ScanEnds(h, n, start, pos + 1);
    } else {
      ScanTaken(h, n, start, pos, 1);
    }
  }

  // ----- the second pass -----

  ghost predicate DirsScanned(h: Heap, m: nat, start: nat, i: nat)
    requires Sized(h)
  {
    && start <= i <= 512
    && AbsentRun(h, start, i - start)
    && (start == 0 || Present(h.dirs[start - 1]))
    && (forall p: nat :: p + m < start ==> !AbsentRun(h, p, m))
  }

  lemma DirsStep(h: Heap, m: nat, start: nat, i: nat)
    requires Sized(h) && DirsScanned(h, m, start, i) && i - start < m && i < 512
    ensures !Present(h.dirs[i]) ==> DirsScanned(h, m, start, i + 1)
    ensures Present(h.dirs[i]) ==> DirsScanned(h, m, i + 1, i + 1)
  {
    if Present(h.dirs[i]) {
      forall p: nat | p + m < i + 1
        ensures !AbsentRun(h, p, m)
      {
        if p < start && p + m >= start {
          assert Present(h.dirs[start - 1]);
        }
      }
    }
  }

  lemma DirsEnd(h: Heap, m: nat, start: nat, i: nat)
    requires Sized(h) && DirsScanned(h, m, start, i) && m > 0
    ensures i - start == m ==> FirstAbsentRun(h, start, m) && SomeAbsentRun(h, m)
    ensures i - start < m && i == 512 ==> !SomeAbsentRun(h, m)
  {
    forall p: nat | p < start
      ensures !AbsentRun(h, p, m)
    {
      if p + m >= start {
        assert Present(h.dirs[start - 1]);
      }
    }
  }

  /** The directories of the run now point at their tables. */
  ghost predicate DirsLinked(h1: Heap, h2: Heap, tables: nat, d: nat, m: nat) {
    && Sized(h1) && Sized(h2) && tables + 4096 * 512 <= WordSize
    && forall i :: 0 <= i < 512 ==>
         h2.dirs[i] == if d <= i < d + m then SetPageFrame(h1.dirs[i], tables + 4096 * i, 3) else h1.dirs[i]
  }

  // ----- addresses -----

  /** The first pass: ((directory * 2 MiB) + (page * 4 KiB)) | 0xFFFFFFFFC0000000. */
  function FirstPassAddress(dir: nat, page: nat): nat {
    Or(dir * 0x20_0000 + page * 0x1000, 0xFFFF_FFFF_C000_0000)
  }

  /** The second pass. PAGE_SIZE_1G * 511 is a product of 32-bit operands and wraps. */
  function SecondPassAddress(dir: nat, page: nat): nat {
    Or(0x80_0000_0000 * 511 + 0x4000_0000 * 511 % 0x1_0000_0000 + dir * 0x20_0000 + page * 0x1000, 0xFFFF_0000_0000_0000)
  }

  /** Or of a number below 2^k and a multiple of 2^k is their sum. */
  lemma OrIsSum(x: nat, high: nat, k: nat)
    requires x < Powers.Pow2(k) && Low(high, k) == 0
    ensures Or(x, high) == x + high
  {
    OrSplit(x, high, k);
    LowBelow(x, k);
    SumSplit(x, high, k);
    JoinUnique(Or(x, high), x + high, k);
  }

  lemma {:induction false} SumSplit(x: nat, high: nat, k: nat)
    requires Low(high, k) == 0 && x < Powers.Pow2(k)
    ensures Shr(x + high, k) == Shr(high, k) && Low(x + high, k) == x
    decreases k
  {
    if k > 0 {
      assert high % 2 == 0;
      SumSplit(x / 2, high / 2, k - 1);
      assert (x + high) / 2 == x / 2 + high / 2;
    }
  }

  /** The first pass returns the address of page 512 * dir + page of the heap window. */
  lemma FirstPassIsRight(dir: nat, page: nat)
    requires 512 * dir + page < HeapPages
    ensures FirstPassAddress(dir, page) == 0xFFFF_FFFF_C000_0000 + 4096 * (512 * dir + page)
  {
    var x, high := dir * 0x20_0000 + page * 0x1000, 0xFFFF_FFFF_C000_0000;
    ThirtyBits(high, 30);
    OrIsSum(x, high, 30);
  }

  lemma ThirtyBits(high: nat, k: nat)
    requires high == 0xFFFF_FFFF_C000_0000 && k == 30
    ensures Powers.Pow2(k) == 0x4000_0000 && Low(high, k) == 0
  {
    hide Low, Shr;
    IndexPowers();
    ShiftIsDivision(high, k);
  }

  /** The second pass never does: for every directory and page it lands in PDPT slot 3 instead of
      511, 508 GiB below the heap window. */
  lemma SecondPassIsWrong(dir: nat, page: nat)
    requires 512 * dir + page < HeapPages
    ensures SecondPassAddress(dir, page) == 0xFFFF_FF80_C000_0000 + 4096 * (512 * dir + page)
    ensures SecondPassAddress(dir, page) != FirstPassAddress(dir, page)
    ensures Pml4Index(SecondPassAddress(dir, page)) == 511 && PdptIndex(SecondPassAddress(dir, page)) == 3
  {
    hide Or, Low, Pml4Index, PdptIndex;
    FirstPassIsRight(dir, page);
    var x: nat, high: nat := 0xFF80_C000_0000 + dir * 0x20_0000 + page * 0x1000, 0xFFFF_0000_0000_0000;
    FortyEightBits(high, 48);
    OrIsSum(x, high, 48);
    SecondPassSlot(4096 * (512 * dir + page));
  }

  lemma FortyEightBits(high: nat, k: nat)
    requires high == 0xFFFF_0000_0000_0000 && k == 48
    ensures Powers.Pow2(k) == 0x1_0000_0000_0000 && Low(high, k) == 0
  {
    hide Low, Shr;
    WordPowers();
    ShiftIsDivision(high, k);
  }

  lemma SecondPassSlot(a: nat)
    requires a < 0x4000_0000
    ensures Pml4Index(0xFFFF_FF80_C000_0000 + a) == 511 && PdptIndex(0xFFFF_FF80_C000_0000 + a) == 3
  {
  }

  // ----- what a call does, and sequences of calls -----

  datatype Found = FirstPass(start: nat) | SecondPass(dir: nat) | NoRoom

  /** The call of KernelAllocate4KPages(amount) on heap h1: which run it takes, the heap it leaves,
      the address it returns. tables is the physical address of the heap tables. */
  ghost predicate Allocates(h1: Heap, h2: Heap, tables: nat, amount: nat, found: Found)
    requires Sized(h1)
  {
    match found
    case FirstPass(start) =>
      && SomeFreeRun(h1, PagesWanted(amount)) && FirstFreeRun(h1, start, PagesWanted(amount))
      && Marked(h1, h2, start, PagesWanted(amount)) && h2.dirs == h1.dirs
    case SecondPass(dir) =>
      && !SomeFreeRun(h1, PagesWanted(amount))
      && SomeAbsentRun(h1, DirsWanted(amount)) && FirstAbsentRun(h1, dir, DirsWanted(amount))
      && Marked(h1, h2, 512 * dir, amount) && DirsLinked(h1, h2, tables, dir, DirsWanted(amount))
    case NoRoom =>
      !SomeFreeRun(h1, PagesWanted(amount)) && !SomeAbsentRun(h1, DirsWanted(amount)) && h2 == h1
  }

  lemma MarkedIsPresent(e: Word)
    ensures 4 * (e / 4) + 3 < WordSize && Present(4 * (e / 4) + 3)
  {
    TestsAreFlags(4 * (e / 4) + 3);
  }

  /** Page t belongs to the result of the call. */
  predicate InResult(found: Found, amount: nat, t: nat) {
    match found
    case FirstPass(start) => start <= t < start + PagesWanted(amount)
    case SecondPass(dir) => 512 * dir <= t < 512 * dir + amount
    case NoRoom => false
  }

  /** Every heap directory points at a table. The constructor leaves it so, and then the second pass
      with its wrong address is never taken. */
  ghost predicate AllTablesLinked(h: Heap) {
    Sized(h) && forall i :: 0 <= i < 512 ==> HasTable(h.dirs[i])
  }

  lemma SecondPassUnreachable(h1: Heap, h2: Heap, tables: nat, amount: nat, found: Found)
    requires AllTablesLinked(h1) && Allocates(h1, h2, tables, amount, found)
    ensures !found.SecondPass? && Sized(h2) && AllTablesLinked(h2)
  {
    if d: nat :| AbsentRun(h1, d, DirsWanted(amount)) {
      assert !Present(h1.dirs[d]);
    }
  }

  /** A history: heaps before each call and after the last, with what each call found. */
  ghost predicate History(heaps: seq<Heap>, amounts: seq<nat>, founds: seq<Found>, tables: nat) {
    && |heaps| == |amounts| + 1 && |founds| == |amounts|
    && (forall i :: 0 <= i < |heaps| ==> Sized(heaps[i]))
    && (forall i :: 0 <= i < |amounts| ==> Allocates(heaps[i], heaps[i + 1], tables, amounts[i], founds[i]))
  }

  lemma {:induction false} TakenStaysTaken(
    heaps: seq<Heap>, amounts: seq<nat>, founds: seq<Found>, tables: nat, i: nat, j: nat, t: nat)
    requires History(heaps, amounts, founds, tables) && AllTablesLinked(heaps[0])
    requires i <= j < |heaps| && t < HeapPages && Present(heaps[i].pages[t])
    ensures AllTablesLinked(heaps[i]) && Present(heaps[j].pages[t])
    decreases j
  {
    TablesStayLinked(heaps, amounts, founds, tables, i);
    if i < j {
      TakenStaysTaken(heaps, amounts, founds, tables, i, j - 1, t);
      TablesStayLinked(heaps, amounts, founds, tables, j - 1);
      SecondPassUnreachable(heaps[j - 1], heaps[j], tables, amounts[j - 1], founds[j - 1]);
      MarkedIsPresent(heaps[j - 1].pages[t]);
    }
  }

  lemma {:induction false} TablesStayLinked(heaps: seq<Heap>, amounts: seq<nat>, founds: seq<Found>, tables: nat, i: nat)
    requires History(heaps, amounts, founds, tables) && AllTablesLinked(heaps[0]) && i < |heaps|
    ensures AllTablesLinked(heaps[i])
  {
    if i > 0 {
      TablesStayLinked(heaps, amounts, founds, tables, i - 1);
      SecondPassUnreachable(heaps[i - 1], heaps[i], tables, amounts[i - 1], founds[i - 1]);
    }
  }

  /** Over any sequence of calls that starts from the constructor's tables, two successful results
      never share a page. */
  lemma ResultsNeverOverlap(heaps: seq<Heap>, amounts: seq<nat>, founds: seq<Found>, tables: nat, i: nat, j: nat)
    requires History(heaps, amounts, founds, tables) && AllTablesLinked(heaps[0])
    requires i < j < |amounts| && founds[i] != NoRoom && founds[j] != NoRoom
    ensures founds[i].FirstPass? && founds[j].FirstPass?
    ensures founds[i].start + PagesWanted(amounts[i]) <= founds[j].start
            || founds[j].start + PagesWanted(amounts[j]) <= founds[i].start
  {
    TablesStayLinked(heaps, amounts, founds, tables, i);
    TablesStayLinked(heaps, amounts, founds, tables, j);
    SecondPassUnreachable(heaps[i], heaps[i + 1], tables, amounts[i], founds[i]);
    SecondPassUnreachable(heaps[j], heaps[j + 1], tables, amounts[j], founds[j]);
    var s, t := founds[i].start, founds[j].start;
    if s < t + PagesWanted(amounts[j]) && t < s + PagesWanted(amounts[i]) {
      var p := if s < t then t else s;
      assert FreePage(heaps[j], p);
      MarkedIsPresent(heaps[i].pages[p]);
      TakenStaysTaken(heaps, amounts, founds, tables, i + 1, j, p);
    }
  }
}
