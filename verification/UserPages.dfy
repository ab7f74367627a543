/** X64Pages: the user address space, where a two-level bitmap and lazily built page tables have to
    tell the same story. Page number p stands for the 4 KiB at address p * 4096; it is reached
    through directory p / 2^18, table p / 512 and entry p % 512.

    The physical address that a directory or table entry carries is not modelled: the source stores
    the address of the slot that holds the pointer, and puts it into the address field unshifted
    (Deviations.AddressFieldIsRight). The walk below follows the pointers the kernel keeps. */
module UserPages {
  import opened Powers
  import opened Words
  import opened Bitmaps

  /** Pages in the space: 512 directories of 512 tables of 512 entries. */
  const Capacity: nat := 134_217_728

  datatype Entry = Entry(present: bool, writable: bool, user: bool, writeThrough: bool, cacheDisabled: bool, frame: nat)

  const Empty := Entry(false, false, false, false, false, 0)

  /** The present entries of the three levels, by directory, table and page number. */
  datatype Space = Space(dirs: map<nat, Entry>, tables: map<nat, Entry>, pages: map<nat, Entry>)

  ghost predicate Nested(s: Space) {
    && (forall t :: t in s.tables ==> t / 512 in s.dirs && t / 512 < 512)
    && (forall p :: p in s.pages ==> p / 512 in s.tables && p < Capacity)
    && (forall d :: d in s.dirs ==> s.dirs[d].present)
    && (forall t :: t in s.tables ==> s.tables[t].present)
    && (forall p :: p in s.pages ==> s.pages[p].present)
  }

  /** What the three-level walk finds for page p. */
  function Walk(s: Space, p: nat): (e: Entry) {
    if p / 262144 in s.dirs && p / 512 in s.tables && p in s.pages then s.pages[p] else Empty
  }

  /** The processor allows a write only if all three entries do. */
  predicate MayWrite(s: Space, p: nat) {
    p / 262144 in s.dirs && p / 512 in s.tables && p in s.pages
    && s.dirs[p / 262144].writable && s.tables[p / 512].writable && s.pages[p].writable
  }

  /** User code gets through only if all three entries let it. */
  predicate MayUse(s: Space, p: nat) {
    p / 262144 in s.dirs && p / 512 in s.tables && p in s.pages
    && s.dirs[p / 262144].user && s.tables[p / 512].user && s.pages[p].user
  }

  /** The flags of one allocation; the leaves point at the zero page. */
  datatype Flags = Flags(rw: bool, pwt: bool, pcd: bool, zeroPage: nat)

  function Leaf(f: Flags): Entry {
    Entry(true, f.rw, true, f.pwt, f.pcd, f.zeroPage)
  }

  function Upper(f: Flags): Entry {
    Entry(true, f.rw, true, f.pwt, f.pcd, 0)
  }

  /** One turn of the loop: missing levels are created with the flags of this allocation. */
  function MapPage(s: Space, p: nat, f: Flags): Space {
    Space(if p / 262144 in s.dirs then s.dirs else s.dirs[p / 262144 := Upper(f)],
          if p / 512 in s.tables then s.tables else s.tables[p / 512 := Upper(f)],
          s.pages[p := Leaf(f)])
  }

  /** The loop: n page numbers from start on, taken modulo the capacity. */
  function MapRange(s: Space, start: nat, n: nat, f: Flags): Space {
    if n == 0 then s else MapPage(MapRange(s, start, n - 1, f), (start + n - 1) % Capacity, f)
  }

  // ----- what the loop does to the translation -----

  ghost predicate InRange(p: nat, start: nat, n: nat) {
    p < Capacity && exists q: nat :: start <= q < start + n && q % Capacity == p
  }

  lemma LastOfRange(p: nat, start: nat, n: nat)
    requires n > 0
    ensures InRange(p, start, n) <==> InRange(p, start, n - 1) || p == (start + n - 1) % Capacity
  {
    var last := (start + n - 1) % Capacity;
    if InRange(p, start, n) {
      var q: nat :| start <= q < start + n && q % Capacity == p;
      assert q < start + n - 1 || q == start + n - 1;
    }
    if InRange(p, start, n - 1) {
      var q: nat :| start <= q < start + (n - 1) && q % Capacity == p;
      assert q < start + n;
    }
    if p == last {
      assert start <= start + n - 1 < start + n;
    }
  }

  /** Exactly the pages of the range are mapped anew: open to user code, with the flags asked for, and
      to the zero page. */
  lemma LeavesGranted(s: Space, start: nat, n: nat, f: Flags)
    requires Nested(s)
    ensures forall p: nat :: Walk(MapRange(s, start, n, f), p) ==
              if InRange(p, start, n) then
                Entry(present := true, writable := f.rw, user := true,
                      writeThrough := f.pwt, cacheDisabled := f.pcd, frame := f.zeroPage)
              else Walk(s, p)
  {
    MapRangeEffect(s, start, n, f);
  }

  lemma {:induction false} MapRangeEffect(s: Space, start: nat, n: nat, f: Flags)
    requires Nested(s)
    ensures Nested(MapRange(s, start, n, f))
    ensures forall p: nat :: Walk(MapRange(s, start, n, f), p) == if InRange(p, start, n) then Leaf(f) else Walk(s, p)
  {
    if n > 0 {
      MapRangeEffect(s, start, n - 1, f);
      var u := MapRange(s, start, n - 1, f);
      var last := (start + n - 1) % Capacity;
      MapPageEffect(u, last, f);
      forall p: nat
        ensures Walk(MapRange(s, start, n, f), p) == if InRange(p, start, n) then Leaf(f) else Walk(s, p)
      {
        LastOfRange(p, start, n);
      }
    }
  }

  /** Directories and tables that existed keep their entries; new ones are open to user code and have
      the flags asked for. */
  lemma UpperGranted(s: Space, start: nat, n: nat, f: Flags)
    ensures var t := MapRange(s, start, n, f);
      && (forall d :: d in s.dirs ==> d in t.dirs && t.dirs[d] == s.dirs[d])
      && (forall d :: d in t.dirs && d !in s.dirs ==>
            t.dirs[d] ==
            Entry(present := true, writable := f.rw, user := true,
                  writeThrough := f.pwt, cacheDisabled := f.pcd, frame := t.dirs[d].frame))
      && (forall b :: b in s.tables ==> b in t.tables && t.tables[b] == s.tables[b])
      && (forall b :: b in t.tables && b !in s.tables ==>
            t.tables[b] ==
            Entry(present := true, writable := f.rw, user := true,
                  writeThrough := f.pwt, cacheDisabled := f.pcd, frame := t.tables[b].frame))
  {
    MapRangeUpper(s, start, n, f);
  }

  lemma {:induction false} MapRangeUpper(s: Space, start: nat, n: nat, f: Flags)
    ensures var t := MapRange(s, start, n, f);
      && (forall d :: d in s.dirs ==> d in t.dirs && t.dirs[d] == s.dirs[d])
      && (forall d :: d in t.dirs && d !in s.dirs ==> t.dirs[d] == Upper(f))
      && (forall b :: b in s.tables ==> b in t.tables && t.tables[b] == s.tables[b])
      && (forall b :: b in t.tables && b !in s.tables ==> t.tables[b] == Upper(f))
  {
    if n > 0 {
      MapRangeUpper(s, start, n - 1, f);
    }
  }

  /** Some page of the range is in the group of that number, a directory's or a table's. */
  ghost predicate Needed(start: nat, n: nat, pages: nat, group: nat)
    requires pages > 0
  {
    exists p: nat :: InRange(p, start, n) && p / pages == group
  }

  lemma NeededNext(start: nat, n: nat, pages: nat, group: nat)
    requires n > 0 && pages > 0
    ensures Needed(start, n, pages, group) <==>
            Needed(start, n - 1, pages, group) || group == (start + n - 1) % Capacity / pages
  {
    var last: nat := (start + n - 1) % Capacity;
    LastOfRange(last, start, n);
    if Needed(start, n, pages, group) {
      var p: nat :| InRange(p, start, n) && p / pages == group;
      LastOfRange(p, start, n);
    }
    if Needed(start, n - 1, pages, group) {
      var p: nat :| InRange(p, start, n - 1) && p / pages == group;
      LastOfRange(p, start, n);
    }
    hide InRange;
  }

  /** Exactly the directories and tables that were there, or that a page of the range needs, are there
      afterwards. */
  lemma {:induction false} LevelsNeeded(s: Space, start: nat, n: nat, f: Flags, g: nat)
    ensures g in MapRange(s, start, n, f).dirs <==> g in s.dirs || Needed(start, n, 262144, g)
    ensures g in MapRange(s, start, n, f).tables <==> g in s.tables || Needed(start, n, 512, g)
  {
    if n > 0 {
      LevelsNeeded(s, start, n - 1, f, g);
      NeededNext(start, n, 262144, g);
      NeededNext(start, n, 512, g);
      hide Needed;
    }
  }

  lemma MapPageEffect(s: Space, p: nat, f: Flags)
    requires Nested(s) && p < Capacity
    ensures var t := MapPage(s, p, f);
      Nested(t) && Walk(t, p) == Leaf(f) && forall q: nat :: q != p ==> Walk(t, q) == Walk(s, q)
  {
    Divided(p);
    NestedStays(s, p, f);
    hide Nested;
    forall q: nat | q != p
      ensures Walk(MapPage(s, p, f), q) == Walk(s, q)
    {
      OtherPageKept(s, p, f, q);
    }
  }

  lemma NestedStays(s: Space, p: nat, f: Flags)
    requires Nested(s) && p < Capacity
    ensures Nested(MapPage(s, p, f))
  {
    Divided(p);
    var d, t := p / 262144, p / 512;
    assert d < 512 && t / 512 == d;
    hide Upper, Leaf;
    Levels(f);
  }

  lemma Levels(f: Flags)
    ensures Upper(f).present && Leaf(f).present
  {
  }

  lemma OtherPageKept(s: Space, p: nat, f: Flags, q: nat)
    requires Nested(s) && q != p
    ensures Walk(MapPage(s, p, f), q) == Walk(s, q)
  {
    Divided(q);
  }

  lemma Divided(q: nat)
    ensures q / 262144 == q / 512 / 512
  {
    DivMod(q, 512);
    var a := q / 512;
    DivMod(a, 512);
    Quotient(q, a / 512, 262144, 512 * (a % 512) + q % 512);
  }

  // ----- bitmap and tables -----

  /** A page number's bit is set exactly when the walk reaches a present entry. */
  ghost predicate Agree(words: seq<Word>, s: Space) {
    64 * |words| == Capacity && forall p: nat :: p < Capacity ==> (Bit(words, p) <==> Walk(s, p).present)
  }

  /** When a clear run exists, the allocation keeps bitmap and tables in agreement; it maps exactly
      the pages of the lowest such run, all of them unmapped before, and no other translation moves. */
  lemma AllocationAgrees(w1: seq<Word>, w2: seq<Word>, s: Space, start: nat, n: nat, f: Flags)
    requires Nested(s) && Agree(w1, s)
    requires FirstFit(w1, n, start) && RangeSet(w1, w2, start, n)
    ensures var t := MapRange(s, start, n, f);
      && Nested(t) && Agree(w2, t) && start + n <= Capacity
      && (forall p :: start <= p < start + n ==>
            !Walk(s, p).present && Walk(t, p) ==
            Entry(present := true, writable := f.rw, user := true,
                  writeThrough := f.pwt, cacheDisabled := f.pcd, frame := f.zeroPage))
      && (forall p: nat :: !(start <= p < start + n) ==> Walk(t, p) == Walk(s, p))
  {
    MapRangeEffect(s, start, n, f);
    RangeBelowCapacity(start, n);
  }

  /** A page of the range can be written exactly when write access was asked for and no directory or
      table left over from an earlier read-only allocation withholds it. */
  lemma WriteAccess(s: Space, start: nat, n: nat, f: Flags, p: nat)
    requires Nested(s) && InRange(p, start, n)
    ensures MayWrite(MapRange(s, start, n, f), p) <==>
      && f.rw
      && (p / 262144 in s.dirs ==> s.dirs[p / 262144].writable)
      && (p / 512 in s.tables ==> s.tables[p / 512].writable)
  {
    MapRangeEffect(s, start, n, f);
    MapRangeUpper(s, start, n, f);
    var t := MapRange(s, start, n, f);
    assert Walk(t, p) == Leaf(f);
  }

  /** User code reaches a page of the range exactly when no older directory or table shuts it out. */
  lemma UserAccess(s: Space, start: nat, n: nat, f: Flags, p: nat)
    requires Nested(s) && InRange(p, start, n)
    ensures MayUse(MapRange(s, start, n, f), p) <==>
      && (p / 262144 in s.dirs ==> s.dirs[p / 262144].user)
      && (p / 512 in s.tables ==> s.tables[p / 512].user)
  {
    MapRangeEffect(s, start, n, f);
    MapRangeUpper(s, start, n, f);
    var t := MapRange(s, start, n, f);
    assert Walk(t, p) == Leaf(f);
  }

  lemma RangeBelowCapacity(start: nat, n: nat)
    requires start + n <= Capacity
    ensures forall p: nat :: InRange(p, start, n) <==> start <= p < start + n
  {
    forall p: nat
      ensures InRange(p, start, n) <==> start <= p < start + n
    {
      if start <= p < start + n {
        assert p % Capacity == p;
      }
    }
  }

  lemma EmptyBitmap(words: seq<Word>, n: nat)
    requires n <= Capacity == 64 * |words| && forall w :: 0 <= w < |words| ==> words[w] == 0
    ensures Nested(Space(map[], map[], map[])) && Agree(words, Space(map[], map[], map[])) && SomeRun(words, n)
    ensures forall p: nat :: FirstFit(words, n, p) ==> p == 0
  {
    forall p: nat | p < Capacity
      ensures !Bit(words, p)
    {
      ConstantBits(p % 64);
    }
    assert ClearRun(words, 0, n);
  }

  /** When no clear run exists, findFree's 0 is taken for a position: pages 0 .. n are remapped,
      whoever owned them, without their bits. Agreement survives exactly if all of them were
      allocated before. */
  lemma FailedSearchRemapsLowPages(words: seq<Word>, s: Space, n: nat, f: Flags)
    requires Nested(s) && Agree(words, s) && !SomeRun(words, n)
    ensures var t := MapRange(s, 0, n, f);
      && Nested(t)
      && (forall p: nat :: p < n && p < Capacity ==>
            Walk(t, p) ==
            Entry(present := true, writable := f.rw, user := true,
                  writeThrough := f.pwt, cacheDisabled := f.pcd, frame := f.zeroPage))
      && (forall p: nat :: !(p < n && p < Capacity) ==> Walk(t, p) == Walk(s, p))
      && (Agree(words, t) <==> forall p: nat :: p < n && p < Capacity ==> Bit(words, p))
  {
    MapRangeEffect(s, 0, n, f);
    LowRange(n);
    hide MapRange, Walk, Nested, SomeRun, InRange;
  }

  lemma LowRange(n: nat)
    ensures forall p: nat :: InRange(p, 0, n) <==> p < n && p < Capacity
  {
    forall p: nat
      ensures InRange(p, 0, n) <==> p < n && p < Capacity
    {
      if p < n && p < Capacity {
        assert p % Capacity == p;
      }
      if InRange(p, 0, n) {
        var q: nat :| 0 <= q < n && q % Capacity == p;
        assert q % Capacity <= q;
      }
    }
  }

  // ----- sequences of allocations -----

  datatype Request = Request(amount: nat, flags: Flags)

  /** One call of alloc4KPages: bitmap and tables before and after, and the position it used. */
  ghost predicate Allocated(w1: seq<Word>, s1: Space, w2: seq<Word>, s2: Space, q: Request, start: nat) {
    && s2 == MapRange(s1, start, q.amount, q.flags)
    && if SomeRun(w1, q.amount) then FirstFit(w1, q.amount, start) && RangeSet(w1, w2, start, q.amount)
       else start == 0 && w2 == w1
  }

  /** A run exists for the request, or the low pages that would be remapped instead are allocated. */
  ghost predicate Served(words: seq<Word>, q: Request) {
    && 64 * |words| == Capacity
    && (SomeRun(words, q.amount) || forall p: nat :: p < q.amount && p < Capacity ==> Bit(words, p))
  }

  /** Bitmaps and tables before each of the calls and after the last. */
  ghost predicate Calls(w: seq<seq<Word>>, s: seq<Space>, r: seq<Request>, starts: seq<nat>) {
    && |w| == |s| == |r| + 1 && |starts| == |r|
    && forall i :: 0 <= i < |r| ==> Allocated(w[i], s[i], w[i + 1], s[i + 1], r[i], starts[i])
  }

  /** A call keeps bitmap and tables in agreement exactly when its request is served. */
  lemma CallAgrees(w1: seq<Word>, s1: Space, w2: seq<Word>, s2: Space, q: Request, start: nat)
    requires Nested(s1) && Agree(w1, s1) && Allocated(w1, s1, w2, s2, q, start)
    ensures Nested(s2) && (Agree(w2, s2) <==> Served(w1, q))
    ensures SomeRun(w1, q.amount) ==>
      forall p: nat :: Walk(s1, p).present ==> Walk(s2, p) == Walk(s1, p)
  {
    hide MapRange, Walk, Nested, SomeRun, FirstFit, RangeSet;
    if SomeRun(w1, q.amount) {
      AllocationAgrees(w1, w2, s1, start, q.amount, q.flags);
    } else {
      FailedSearchRemapsLowPages(w1, s1, q.amount, q.flags);
    }
  }

  lemma {:induction false} StaysNested(
    w: seq<seq<Word>>, s: seq<Space>, r: seq<Request>, starts: seq<nat>, i: nat)
    requires Calls(w, s, r, starts) && Nested(s[0]) && i < |s|
    ensures Nested(s[i])
  {
    if i > 0 {
      StaysNested(w, s, r, starts, i - 1);
      assert Allocated(w[i - 1], s[i - 1], w[i], s[i], r[i - 1], starts[i - 1]);
      MapRangeEffect(s[i - 1], starts[i - 1], r[i - 1].amount, r[i - 1].flags);
    }
  }

  lemma {:induction false} AgreesSoFar(
    w: seq<seq<Word>>, s: seq<Space>, r: seq<Request>, starts: seq<nat>, i: nat)
    requires Calls(w, s, r, starts) && Nested(s[0]) && Agree(w[0], s[0]) && i < |s|
    requires forall k :: 0 <= k < i ==> Served(w[k], r[k])
    ensures Agree(w[i], s[i])
  {
    if i > 0 {
      AgreesSoFar(w, s, r, starts, i - 1);
      StaysNested(w, s, r, starts, i - 1);
      CallAgrees(w[i - 1], s[i - 1], w[i], s[i], r[i - 1], starts[i - 1]);
    }
  }

  /** Over any sequence of allocations, bits and walk agree all the time if and only if every request
      was served. */
  lemma AgreementOverRuns(w: seq<seq<Word>>, s: seq<Space>, r: seq<Request>, starts: seq<nat>)
    requires Calls(w, s, r, starts) && Nested(s[0]) && Agree(w[0], s[0])
    ensures (forall i :: 0 <= i < |w| ==> Agree(w[i], s[i])) <==> (forall i :: 0 <= i < |r| ==> Served(w[i], r[i]))
  {
    hide Agree, Served, Nested, Allocated;
    if forall i :: 0 <= i < |r| ==> Served(w[i], r[i]) {
      forall i: nat | i < |w|
        ensures Agree(w[i], s[i])
      {
        AgreesSoFar(w, s, r, starts, i);
      }
    }
    if forall i :: 0 <= i < |w| ==> Agree(w[i], s[i]) {
      forall i: nat | i < |r|
        ensures Served(w[i], r[i])
      {
        StaysNested(w, s, r, starts, i);
        CallAgrees(w[i], s[i], w[i + 1], s[i + 1], r[i], starts[i]);
      }
    }
  }

  /** As long as every search finds its run, a page once mapped keeps its translation for ever. */
  lemma {:induction false} MappedPagesStay(
    w: seq<seq<Word>>, s: seq<Space>, r: seq<Request>, starts: seq<nat>, i: nat, j: nat, p: nat)
    requires Calls(w, s, r, starts) && Nested(s[0]) && Agree(w[0], s[0])
    requires i <= j < |s| && (forall k :: 0 <= k < |r| ==> SomeRun(w[k], r[k].amount))
    requires Walk(s[i], p).present
    ensures Walk(s[j], p) == Walk(s[i], p)
    decreases j
  {
    if i < j {
      MappedPagesStay(w, s, r, starts, i, j - 1, p);
      RunsServe(w, s, r, starts, j - 1);
      StaysNested(w, s, r, starts, j - 1);
      hide Agree, Walk, Nested, Allocated;
      CallAgrees(w[j - 1], s[j - 1], w[j], s[j], r[j - 1], starts[j - 1]);
    }
  }

  /** Every entry lets user code through, and every mapped page is the zero page. */
  ghost predicate Open(s: Space, zeroPage: nat) {
    && (forall d :: d in s.dirs ==> s.dirs[d].user)
    && (forall t :: t in s.tables ==> s.tables[t].user)
    && (forall p :: p in s.pages ==> s.pages[p].user && s.pages[p].frame == zeroPage)
  }

  lemma {:induction false} StaysOpen(s: Space, start: nat, n: nat, f: Flags)
    requires Open(s, f.zeroPage)
    ensures Open(MapRange(s, start, n, f), f.zeroPage)
  {
    if n > 0 {
      StaysOpen(s, start, n - 1, f);
    }
  }

  /** Over any sequence of allocations, served or not, user code reaches every mapped page, and finds
      the zero page there. */
  lemma {:induction false} MappedPagesAreOpen(
    w: seq<seq<Word>>, s: seq<Space>, r: seq<Request>, starts: seq<nat>, zeroPage: nat, i: nat)
    requires Calls(w, s, r, starts) && Nested(s[0]) && Open(s[0], zeroPage) && i < |s|
    requires forall k :: 0 <= k < |r| ==> r[k].flags.zeroPage == zeroPage
    ensures Nested(s[i]) && Open(s[i], zeroPage)
    ensures forall p: nat :: Walk(s[i], p).present ==> MayUse(s[i], p) && Walk(s[i], p).frame == zeroPage
  {
    if i > 0 {
      MappedPagesAreOpen(w, s, r, starts, zeroPage, i - 1);
      StaysNested(w, s, r, starts, i);
      assert Allocated(w[i - 1], s[i - 1], w[i], s[i], r[i - 1], starts[i - 1]);
      StaysOpen(s[i - 1], starts[i - 1], r[i - 1].amount, r[i - 1].flags);
    }
  }

  lemma {:induction false} RunsServe(
    w: seq<seq<Word>>, s: seq<Space>, r: seq<Request>, starts: seq<nat>, i: nat)
    requires Calls(w, s, r, starts) && Nested(s[0]) && Agree(w[0], s[0]) && i < |s|
    requires forall k :: 0 <= k < |r| ==> SomeRun(w[k], r[k].amount)
    ensures Agree(w[i], s[i])
  {
    if i > 0 {
      RunsServe(w, s, r, starts, i - 1);
      StaysNested(w, s, r, starts, i - 1);
      CallAgrees(w[i - 1], s[i - 1], w[i], s[i], r[i - 1], starts[i - 1]);
    }
  }

  class X64Pages {
    const pdpt: array<Entry>
    /** _pageDirs; null where no directory has been created. */
    const pageDirs: array<array?<Entry>>
    /** _pageTables, with the pointer rows of all directories in place from the start. */
    const pageTables: array2<array?<Entry>>
    const bitmap: Bitmap
    const zeroPage: nat

    ghost var space: Space
    /** The slot of each table in memory: 0 for the PDPT, 1 + d for directory d, 1000 + t for table t. */
    ghost var owner: map<object, nat>
    ghost var Repr: set<object>

    /** The tables before the constructor's own allocation. */
    constructor Blank(zeroPage: nat)
      ensures Valid() && fresh(Repr) && fresh(bitmap.Repr) && this.zeroPage == zeroPage
      ensures space == Space(map[], map[], map[])
      ensures forall w :: 0 <= w < |bitmap.words| ==> bitmap.words[w] == 0
    {
      this.zeroPage := zeroPage;
      var top := new Entry[512](_ => Empty);
      pdpt := top;
      var dirs := new array?<Entry>[512](_ => null);
      pageDirs := dirs;
      var tables := new array?<Entry>[512, 512]((_, _) => null);
      pageTables := tables;
      var bits := new Bitmap(2048, 1024);
      bitmap := bits;
      space := Space(map[], map[], map[]);
      owner := map[top := 0];
      Repr := {this, top, dirs, tables};
      new;
      BlankShows();
      hide Shows;
    }

    lemma BlankShows()
      requires Frame() && space == Space(map[], map[], map[])
      requires forall d :: 0 <= d < 512 ==> pageDirs[d] == null && !pdpt[d].present
      requires forall i, j :: 0 <= i < 512 && 0 <= j < 512 ==> pageTables[i, j] == null
      ensures Shows()
    {
    }

    /** The constructor: 128 pages are allocated up front, so bitmap and tables agree from the start.
        Its first writes to the PML4 and PDPT are repeated by that allocation. */
    static method Create(zeroPage: nat) returns (pages: X64Pages)
      ensures pages.Valid() && fresh(pages.Repr) && fresh(pages.bitmap.Repr)
      ensures Agree(pages.bitmap.words, pages.space)
      ensures forall p: nat :: if p < 128 then
                Walk(pages.space, p) ==
                  Entry(present := true, writable := true, user := true,
                        writeThrough := false, cacheDisabled := false, frame := zeroPage)
                else !Walk(pages.space, p).present
      ensures forall p: nat :: p < 128 ==> MayUse(pages.space, p) && MayWrite(pages.space, p)
    {
      pages := new X64Pages.Blank(zeroPage);
      pages.Preallocate(128);
    }

    method Preallocate(amount: nat)
      requires Valid() && amount == 128 && space == Space(map[], map[], map[])
      requires forall w :: 0 <= w < |bitmap.words| ==> bitmap.words[w] == 0
      modifies Repr, bitmap.Repr
      ensures Valid() && fresh(Repr - old(Repr)) && fresh(bitmap.Repr - old(bitmap.Repr))
      ensures Agree(bitmap.words, space)
      ensures forall p: nat :: if p < amount then
                Walk(space, p) ==
                  Entry(present := true, writable := true, user := true,
                        writeThrough := false, cacheDisabled := false, frame := zeroPage)
                else !Walk(space, p).present
      ensures forall p: nat :: p < amount ==> MayUse(space, p) && MayWrite(space, p)
    {
      EmptyBitmap(bitmap.words, amount);
      ghost var words0, space0 := bitmap.words, space;
      hide Shows, Agree, FirstFit, SomeRun;
      var _, start := Alloc4KPages(amount, true, false, false);
      AllocationAgrees(words0, bitmap.words, space0, start, amount, Flags(true, false, false, zeroPage));
      RangeBelowCapacity(start, amount);
      forall p: nat | p < amount
        ensures MayUse(space, p) && MayWrite(space, p)
      {
        UserAccess(space0, start, amount, Flags(true, false, false, zeroPage), p);
        WriteAccess(space0, start, amount, Flags(true, false, false, zeroPage), p);
      }
    }

    ghost predicate Frame()
      reads this
    {
      && this in Repr && pdpt in Repr && pageDirs in Repr && pageTables in Repr
      && pdpt.Length == 512 && pageDirs.Length == 512 && pageTables.Length0 == 512 && pageTables.Length1 == 512
      && (forall o :: o in owner ==> o in Repr)
      && pdpt in owner && owner[pdpt] == 0
    }

    ghost predicate DirOk(d: nat)
      requires Frame() && d < 512
      reads this, pdpt, pageDirs
    {
      var dir := pageDirs[d];
      && (d in space.dirs <==> dir != null)
      && (dir == null ==> !pdpt[d].present)
      && (dir != null ==> dir in owner && owner[dir] == 1 + d && dir.Length == 512 && pdpt[d] == space.dirs[d])
    }

    ghost predicate TableOk(t: nat)
      requires Frame() && t / 512 < 512 && DirOk(t / 512)
      reads this, Repr
    {
      var dir, table := pageDirs[t / 512], pageTables[t / 512, t % 512];
      && (t in space.tables <==> table != null)
      && (dir != null ==> dir in Repr && if t in space.tables then dir[t % 512] == space.tables[t] else !dir[t % 512].present)
      && (table != null ==> table in owner && owner[table] == 1000 + t && table.Length == 512)
    }

    ghost predicate PageOk(p: nat)
      requires Frame() && p < Capacity && DirOk(p / 512 / 512) && TableOk(p / 512)
      reads this, Repr
    {
      var table := pageTables[p / 512 / 512, p / 512 % 512];
      table != null ==> if p in space.pages then table[p % 512] == space.pages[p] else !table[p % 512].present
    }

    /** The tables in memory hold exactly the entries of the space. */
    ghost predicate Shows()
      reads this, Repr
    {
      && Frame() && Nested(space)
      && (forall d: nat :: d < 512 ==> DirOk(d))
      && (forall t: nat :: t / 512 < 512 ==> TableOk(t))
      && (forall p: nat :: p < Capacity ==> PageOk(p))
    }

    ghost predicate Valid()
      reads this, Repr, bitmap, bitmap.Repr
    {
      Shows() && bitmap.Repr !! Repr && bitmap.Valid() && bitmap.size == Capacity
    }

    /** The walk over the tables in memory. */
    function WalkTables(p: nat): Entry
      requires Shows() && p < Capacity
      reads this, Repr
    {
      assert DirOk(p / 512 / 512) && TableOk(p / 512) && PageOk(p);
      var dir := pageDirs[p / 512 / 512];
      if !pdpt[p / 512 / 512].present || dir == null then Empty else
      var table := pageTables[p / 512 / 512, p / 512 % 512];
      if !dir[p / 512 % 512].present || table == null then Empty else
      if !table[p % 512].present then Empty else table[p % 512]
    }

    lemma WalkTablesIsWalk(p: nat)
      requires Shows() && p < Capacity
      ensures WalkTables(p) == Walk(space, p)
    {
      assert DirOk(p / 512 / 512) && TableOk(p / 512) && PageOk(p);
      assert p / 262144 == p / 512 / 512;
    }

    method CreateDir(d: nat, f: Flags)
      requires Shows() && d < 512 && pageDirs[d] == null
      modifies this`space, this`owner, this`Repr, pdpt, pageDirs
      ensures Shows() && fresh(Repr - old(Repr))
      ensures space == old(space).(dirs := old(space).dirs[d := Upper(f)])
    {
      var dir := new Entry[512](_ => Empty);
      LinkDir(d, dir, f);
      forall p: nat | p < Capacity
        ensures PageOk(p)
      {
        assert old(DirOk(p / 512 / 512)) && old(TableOk(p / 512)) && old(PageOk(p));
        assert DirOk(p / 512 / 512) && TableOk(p / 512);
      }
    }

    /** Hangs an empty directory into its slot and its PDPT entry. */
    method LinkDir(d: nat, dir: array<Entry>, f: Flags)
      requires Shows() && d < 512 && pageDirs[d] == null
      requires dir !in Repr && dir.Length == 512 && forall k :: 0 <= k < 512 ==> !dir[k].present
      modifies this`space, this`owner, this`Repr, pdpt, pageDirs
      ensures Frame() && Nested(space) && Repr == old(Repr) + {dir}
      ensures forall e: nat :: e < 512 ==> DirOk(e)
      ensures forall t: nat :: t / 512 < 512 ==> TableOk(t)
      ensures space == old(space).(dirs := old(space).dirs[d := Upper(f)])
    {
      hide Nested, PageOk;
      assert DirOk(d);
      NestedDir(space, d, f);
      pageDirs[d] := dir;
      pdpt[d] := Upper(f);
      owner := owner[dir := 1 + d];
      Repr := Repr + {dir};
      space := space.(dirs := space.dirs[d := Upper(f)]);
      forall e: nat | e < 512
        ensures DirOk(e)
      {
        assert old(DirOk(e));
      }
      forall t: nat | t / 512 < 512
        ensures TableOk(t)
      {
        assert old(DirOk(t / 512)) && old(TableOk(t));
      }
    }

    method CreateTable(i: nat, j: nat, f: Flags)
      requires Shows() && i < 512 && j < 512 && pageDirs[i] != null && pageTables[i, j] == null
      modifies this`space, this`owner, this`Repr, pageTables, pageDirs[i]
      ensures Shows() && fresh(Repr - old(Repr))
      ensures space == old(space).(tables := old(space).tables[512 * i + j := Upper(f)])
    {
      var table := new Entry[512](_ => Empty);
      LinkTable(i, j, table, f);
      forall p: nat | p < Capacity
        ensures PageOk(p)
      {
        assert old(DirOk(i)) && old(DirOk(p / 512 / 512)) && old(TableOk(p / 512)) && old(PageOk(p));
        assert DirOk(p / 512 / 512) && TableOk(p / 512);
        assert p / 512 == 512 * (p / 512 / 512) + p / 512 % 512;
        assert p in space.pages ==> p / 512 in old(space).tables;
      }
    }

    /** Hangs an empty table into its slot and its directory entry. */
    method LinkTable(i: nat, j: nat, table: array<Entry>, f: Flags)
      requires Shows() && i < 512 && j < 512 && pageDirs[i] != null && pageTables[i, j] == null
      requires table !in Repr && table.Length == 512
      modifies this`space, this`owner, this`Repr, pageTables, pageDirs[i]
      ensures Frame() && Nested(space) && Repr == old(Repr) + {table}
      ensures forall d: nat :: d < 512 ==> DirOk(d)
      ensures forall t: nat :: t / 512 < 512 ==> TableOk(t)
      ensures forall a: nat, b: nat :: a < 512 && b < 512 ==>
                pageTables[a, b] == if a == i && b == j then table else old(pageTables[a, b])
      ensures space == old(space).(tables := old(space).tables[512 * i + j := Upper(f)])
    {
      hide Nested, PageOk;
      ghost var t := 512 * i + j;
      assert t / 512 == i && t % 512 == j;
      assert DirOk(i) && TableOk(t);
      NestedTable(space, t, f);
      pageTables[i, j] := table;
      var dir := pageDirs[i];
      dir[j] := Upper(f);
      owner := owner[table := 1000 + t];
      Repr := Repr + {table};
      space := space.(tables := space.tables[t := Upper(f)]);
      forall e: nat | e < 512
        ensures DirOk(e)
      {
        assert old(DirOk(e));
      }
      forall u: nat | u / 512 < 512
        ensures TableOk(u)
      {
        assert old(DirOk(u / 512)) && old(TableOk(u));
      }
    }

    method WriteLeaf(i: nat, j: nat, k: nat, f: Flags)
      requires Shows() && i < 512 && j < 512 && k < 512 && pageDirs[i] != null && pageTables[i, j] != null
      modifies this`space, pageTables[i, j]
      ensures Shows()
      ensures space == old(space).(pages := old(space).pages[262144 * i + 512 * j + k := Leaf(f)])
    {
      ghost var p := 262144 * i + 512 * j + k;
      assert p / 512 == 512 * i + j && p % 512 == k && p / 512 / 512 == i && p / 512 % 512 == j;
      assert DirOk(i) && TableOk(p / 512);
      var table := pageTables[i, j];
      table[k] := Leaf(f);
      space := space.(pages := space.pages[p := Leaf(f)]);
      forall e: nat | e < 512
        ensures DirOk(e)
      {
        assert old(DirOk(e));
      }
      forall u: nat | u / 512 < 512
        ensures TableOk(u)
      {
        assert old(DirOk(u / 512)) && old(TableOk(u));
      }
      forall q: nat | q < Capacity
        ensures PageOk(q)
      {
        assert old(DirOk(q / 512 / 512)) && old(TableOk(q / 512)) && old(PageOk(q));
      }
    }

    method EnsureDir(i: nat, f: Flags)
      requires Shows() && i < 512
      modifies Repr
      ensures Shows() && fresh(Repr - old(Repr)) && pageDirs[i] != null
      ensures space == if i in old(space).dirs then old(space) else old(space).(dirs := old(space).dirs[i := Upper(f)])
    {
      assert DirOk(i);
      if pageDirs[i] == null {
        CreateDir(i, f);
      }
      assert DirOk(i);
    }

    method EnsureTable(i: nat, j: nat, f: Flags)
      requires Shows() && i < 512 && j < 512 && pageDirs[i] != null
      modifies Repr
      ensures Shows() && fresh(Repr - old(Repr)) && pageDirs[i] != null && pageTables[i, j] != null
      ensures space == if 512 * i + j in old(space).tables then old(space)
                       else old(space).(tables := old(space).tables[512 * i + j := Upper(f)])
    {
      ghost var t := 512 * i + j;
      assert t / 512 == i && t % 512 == j;
      assert DirOk(i) && TableOk(t);
      if pageTables[i, j] == null {
        CreateTable(i, j, f);
      }
      assert DirOk(i) && TableOk(t);
    }

    method EnsureLeaf(i: nat, j: nat, k: nat, f: Flags)
      requires Shows() && i < 512 && j < 512 && k < 512 && pageDirs[i] != null && pageTables[i, j] != null
      modifies Repr
      ensures Shows() && Repr == old(Repr)
      ensures space == old(space).(pages := old(space).pages[262144 * i + 512 * j + k := Leaf(f)])
    {
      ghost var t := 512 * i + j;
      assert t / 512 == i && t % 512 == j;
      assert DirOk(i) && TableOk(t);
      WriteLeaf(i, j, k, f);
    }

    /** The loop body of alloc4KPages for the page number bitmapIndex. */
    method EnterPage(bitmapIndex: nat, f: Flags)
      requires Shows()
      modifies Repr
      ensures Shows() && fresh(Repr - old(Repr))
      ensures space == MapPage(old(space), bitmapIndex % Capacity, f)
    {
      hide *;
      var i, j, k := bitmapIndex / 262144 % 512, bitmapIndex / 512 % 512, bitmapIndex % 512;
      Indices(bitmapIndex, i, j, k);
      ghost var s0 := space;
      Framed();
      EnsureDir(i, f);
      ghost var s1 := space;
      Framed();
      EnsureTable(i, j, f);
      ghost var s2 := space;
      Framed();
      EnsureLeaf(i, j, k, f);
      ThreeLevels(s0, s1, s2, 262144 * i + 512 * j + k, i, 512 * i + j, f);
    }

    lemma Framed()
      requires Shows()
      ensures pageDirs.Length == 512 && pageTables.Length0 == 512 && pageTables.Length1 == 512
    {
    }

    /** The loop of alloc4KPages. */
    method MapAll(start: nat, amount: nat, f: Flags)
      requires Shows()
      modifies Repr
      ensures Shows() && fresh(Repr - old(Repr))
      ensures space == MapRange(old(space), start, amount, f)
    {
      hide Shows;
      var bitmapIndex: nat, left: nat := start, amount;
      while left > 0
        invariant bitmapIndex + left == start + amount && left <= amount
        invariant Shows() && fresh(Repr - old(Repr))
        invariant space == MapRange(old(space), start, amount - left, f)
      {
        EnterPage(bitmapIndex, f);
        left := left - 1;
        bitmapIndex := bitmapIndex + 1;
      }
    }

    /** alloc4KPages. start is the position that findFree reported; the value returned is, as in the
        source, the address just past the range. */
    method Alloc4KPages(amount: nat, rw: bool, pwt: bool, pcd: bool) returns (address: nat, ghost start: nat)
      requires Valid() && amount < WordSize
      modifies Repr, bitmap.Repr
      ensures Valid() && fresh(Repr - old(Repr)) && fresh(bitmap.Repr - old(bitmap.Repr))
      ensures Allocated(old(bitmap.words), old(space), bitmap.words, space, Request(amount, Flags(rw, pwt, pcd, zeroPage)), start)
      ensures forall p: nat :: InRange(p, start, amount) ==>
                Walk(space, p) ==
                Entry(present := true, writable := rw, user := true,
                      writeThrough := pwt, cacheDisabled := pcd, frame := zeroPage)
      ensures forall d :: d in space.dirs && d !in old(space).dirs ==>
                space.dirs[d] ==
                Entry(present := true, writable := rw, user := true,
                      writeThrough := pwt, cacheDisabled := pcd, frame := space.dirs[d].frame)
      ensures forall t :: t in space.tables && t !in old(space).tables ==>
                space.tables[t] ==
                Entry(present := true, writable := rw, user := true,
                      writeThrough := pwt, cacheDisabled := pcd, frame := space.tables[t].frame)
      ensures address == 4096 * (start + amount) % WordSize
      ensures old(Agree(bitmap.words, space)) ==>
        (Agree(bitmap.words, space) <==> Served(old(bitmap.words), Request(amount, Flags(rw, pwt, pcd, zeroPage))))
    {
      ghost var words0, space0, flags := bitmap.words, space, Flags(rw, pwt, pcd, zeroPage);
      assert Nested(space);
      var bitmapIndex := bitmap.FindFree(amount);
      start := bitmapIndex;
      ghost var words1 := bitmap.words;
      hide SomeRun, FirstFit, RangeSet, Agree, Served, Shows, Nested;
      MapAll(bitmapIndex, amount, Flags(rw, pwt, pcd, zeroPage));
      assert Allocated(words0, space0, words1, space, Request(amount, flags), start);
      LeavesGranted(space0, start, amount, flags);
      UpperGranted(space0, start, amount, flags);
      hide Allocated;
      if Agree(words0, space0) {
        CallAgrees(words0, space0, words1, space, Request(amount, flags), start);
      }
      address := 4096 * (bitmapIndex + amount) % WordSize;
    }
  }

  lemma NestedDir(s: Space, d: nat, f: Flags)
    requires Nested(s) && d < 512
    ensures Nested(s.(dirs := s.dirs[d := Upper(f)]))
    ensures d !in s.dirs ==> forall t :: t in s.tables ==> t / 512 != d
  {
  }

  lemma NestedTable(s: Space, t: nat, f: Flags)
    requires Nested(s) && t / 512 in s.dirs && t / 512 < 512
    ensures Nested(s.(tables := s.tables[t := Upper(f)]))
  {
  }

  /** Creating what is missing level by level is MapPage. */
  lemma ThreeLevels(s0: Space, s1: Space, s2: Space, p: nat, d: nat, t: nat, f: Flags)
    requires p / 262144 == d && p / 512 == t
    requires s1 == if d in s0.dirs then s0 else s0.(dirs := s0.dirs[d := Upper(f)])
    requires s2 == if t in s1.tables then s1 else s1.(tables := s1.tables[t := Upper(f)])
    ensures s2.(pages := s2.pages[p := Leaf(f)]) == MapPage(s0, p, f)
  {
  }

  lemma Indices(n: nat, i: nat, j: nat, k: nat)
    requires i == n / 262144 % 512 && j == n / 512 % 512 && k == n % 512
    ensures n % Capacity == 262144 * i + 512 * j + k
    ensures (n % Capacity) / 262144 == i && (n % Capacity) / 512 == 512 * i + j
    ensures (512 * i + j) / 512 == i && (512 * i + j) % 512 == j
  {
    var a, b := n / 512, n / 262144;
    assert a / 512 == b;
    assert a == 512 * b + j;
    var c := b / 512;
    assert b == 512 * c + i;
    Quotient(n, c, Capacity, 262144 * i + 512 * j + k);
    Quotient(n % Capacity, i, 262144, 512 * j + k);
    Quotient(n % Capacity, 512 * i + j, 512, k);
  }
}
