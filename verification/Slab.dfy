/** The slab allocator: pages cut into objects of one size, chained through the first word of each
    object that has not been handed out. Memory is a map from the addresses of words (multiples of
    eight) to their values; the heap hands out pages that are page aligned and never the same twice
    (HeapSearch.ResultsNeverOverlap). One CPU's cache is modelled. Request4KPage gets a real
    descriptor, where the source writes through a null one. */
module Slab {
  import opened Options
  import opened Powers

  const BlockSize: seq<nat> := [8, 16, 24, 32, 48, 64, 96, 128, 192, 256, 512, 768, 1024, 1536, 2048, 4096]

  function SizeOf(c: nat): nat
    requires c < 16
  {
    BlockSize[c]
  }

  /** Objects in a page of class c: (page size - reserved) / size. */
  function ObjectsOf(c: nat): nat
    requires c < 16
  {
    (4096 - 4096 % SizeOf(c)) / SizeOf(c)
  }

  function SlotAddress(base: nat, slot: nat, size: nat): nat {
    MulMonotone(0, slot, size);
    base + slot * size
  }

  lemma SizesFit(c: nat)
    requires c < 16
    ensures 8 <= SizeOf(c) <= 4096 && SizeOf(c) % 8 == 0 && ObjectsOf(c) >= 1
    ensures ObjectsOf(c) * SizeOf(c) <= 4096 < (ObjectsOf(c) + 1) * SizeOf(c)
    ensures c > 0 ==> SizeOf(c - 1) < SizeOf(c) <= 2 * SizeOf(c - 1)
  {
    var size := SizeOf(c);
    DivMod(4096, size);
    Quotient(4096 - 4096 % size, 4096 / size, size, 0);
  }

  lemma SlotOrder(base: nat, s: nat, t: nat, size: nat)
    requires s < t
    ensures SlotAddress(base, s, size) + size <= SlotAddress(base, t, size)
    ensures base <= SlotAddress(base, s, size)
    ensures SlotAddress(base, s + 1, size) == SlotAddress(base, s, size) + size
  {
    MulMonotone(s + 1, t, size);
    MulMonotone(0, s, size);
  }

  lemma SlotInside(base: nat, s: nat, c: nat)
    requires c < 16 && s <= ObjectsOf(c)
    ensures base <= SlotAddress(base, s, SizeOf(c)) <= base + 4096
    ensures s < ObjectsOf(c) ==> SlotAddress(base, s, SizeOf(c)) + SizeOf(c) <= base + 4096
  {
    SizesFit(c);
    MulMonotone(0, s, SizeOf(c));
    MulMonotone(s, ObjectsOf(c), SizeOf(c));
    if s < ObjectsOf(c) {
      MulMonotone(s + 1, ObjectsOf(c), SizeOf(c));
    }
  }

  /** A page being handed out: where it is, the next object, how many are gone. */
  datatype SlabPage = SlabPage(index: nat, base: nat, freelist: nat, inuse: nat, objects: nat)

  /** An object handed out: the page it came from, its size class and its place. */
  datatype Object = Object(index: nat, sizeClass: nat, slot: nat)

  /** What Allocate hands back: an object, or whole pages straight from the kernel heap. */
  datatype Grant = Small(address: nat) | Large(address: nat)

  /** ALIGN_UP(size, page size) / page size; the sum wraps at 64 bits. */
  function PagesFor(size: nat): nat {
    (size + 4095) % 0x1_0000_0000_0000_0000 / 4096
  }

  /** It is the least number of pages that holds size bytes, unless the sum wraps. */
  lemma PagesForIsCeiling(size: nat)
    requires 0 < size < 0x1_0000_0000_0000_0000
    ensures 4096 * (PagesFor(size) - 1) < size <= 4096 * PagesFor(size) <==> size <= 0x1_0000_0000_0000_0000 - 4096
  {
    if size > 0x1_0000_0000_0000_0000 - 4096 {
      Quotient(size + 4095, 1, 0x1_0000_0000_0000_0000, size + 4095 - 0x1_0000_0000_0000_0000);
    }
  }

  ghost predicate Supplies(supply: nat -> nat) {
    && (forall i: nat :: supply(i) % 4096 == 0)
    && (forall i: nat, j: nat :: supply(i) == supply(j) ==> i == j)
  }

  ghost predicate Proper(o: Object) {
    o.sizeClass < 16 && o.slot < ObjectsOf(o.sizeClass)
  }

  function AddressOf(supply: nat -> nat, o: Object): nat
    requires o.sizeClass < 16
  {
    SlotAddress(supply(o.index), o.slot, SizeOf(o.sizeClass))
  }

  /** Pages do not overlap. */
  lemma PagesApart(supply: nat -> nat, i: nat, j: nat)
    requires Supplies(supply) && i != j
    ensures supply(i) + 4096 <= supply(j) || supply(j) + 4096 <= supply(i)
  {
    assert supply(i) != supply(j);
  }

  lemma WholeWords(base: nat, slot: nat, words: nat)
    requires base % 8 == 0
    ensures (base + slot * (8 * words)) % 8 == 0
  {
    assert base + slot * (8 * words) == 8 * (base / 8 + slot * words);
  }

  /** An object is a run of whole words. */
  lemma ObjectsAreWords(supply: nat -> nat, o: Object)
    requires Supplies(supply) && Proper(o)
    ensures AddressOf(supply, o) % 8 == 0 && SizeOf(o.sizeClass) % 8 == 0
  {
    SizesFit(o.sizeClass);
    assert supply(o.index) % 4096 == 0;
    WholeWords(supply(o.index), o.slot, SizeOf(o.sizeClass) / 8);
    assert SizeOf(o.sizeClass) == 8 * (SizeOf(o.sizeClass) / 8);
  }

  /** Different objects do not overlap: either their pages differ, or they are different slots. */
  lemma ObjectsApart(supply: nat -> nat, a: Object, b: Object)
    requires Supplies(supply) && a != b && Proper(a) && Proper(b)
    requires a.index == b.index ==> a.sizeClass == b.sizeClass
    ensures AddressOf(supply, a) + SizeOf(a.sizeClass) <= AddressOf(supply, b)
            || AddressOf(supply, b) + SizeOf(b.sizeClass) <= AddressOf(supply, a)
  {
    hide SlotAddress, SizeOf, ObjectsOf;
    SlotInside(supply(a.index), a.slot, a.sizeClass);
    SlotInside(supply(b.index), b.slot, b.sizeClass);
    if a.index != b.index {
      PagesApart(supply, a.index, b.index);
    } else if a.slot < b.slot {
      SlotOrder(supply(a.index), a.slot, b.slot, SizeOf(a.sizeClass));
    } else {
      SlotOrder(supply(a.index), b.slot, a.slot, SizeOf(a.sizeClass));
    }
  }

  // ----- the chain in memory -----

  /** Object i of the page links to object i + 1. */
  ghost predicate Linked(memory: map<nat, nat>, base: nat, i: nat, size: nat) {
    SlotAddress(base, i, size) in memory && memory[SlotAddress(base, i, size)] == SlotAddress(base, i + 1, size)
  }

  /** Only the bytes from low up to high may differ. */
  ghost predicate SameOutside(m1: map<nat, nat>, m2: map<nat, nat>, low: nat, high: nat) {
    forall a: nat :: !(low <= a < high) ==> (a in m1 <==> a in m2) && (a in m1 ==> m1[a] == m2[a])
  }

  /** Memory once the first n objects of the page at base are linked. */
  ghost function Chain(memory: map<nat, nat>, base: nat, size: nat, n: nat): map<nat, nat> {
    if n == 0 then memory
    else Chain(memory, base, size, n - 1)[SlotAddress(base, n - 1, size) := SlotAddress(base, n, size)]
  }

  /** Later links do not overwrite earlier ones, and nothing outside the page changes. */
  lemma {:induction false} ChainLinks(memory: map<nat, nat>, base: nat, c: nat, n: nat)
    requires c < 16 && n < ObjectsOf(c)
    ensures forall i: nat :: i < n ==> Linked(Chain(memory, base, SizeOf(c), n), base, i, SizeOf(c))
    ensures SameOutside(memory, Chain(memory, base, SizeOf(c), n), base, base + 4096)
  {
    hide SlotAddress, SizeOf, ObjectsOf;
    var size := SizeOf(c);
    if n > 0 {
      ChainLinks(memory, base, c, n - 1);
      SizesFit(c);
      SlotInside(base, n - 1, c);
      var m, was := Chain(memory, base, size, n), Chain(memory, base, size, n - 1);
      forall i: nat | i < n
        ensures Linked(m, base, i, size)
      {
        if i < n - 1 {
          SlotOrder(base, i, n - 1, size);
          assert Linked(was, base, i, size);
        }
      }
    }
  }

  /** The objects of page p that are still to come are chained, in order. */
  ghost predicate Chained(memory: map<nat, nat>, p: SlabPage, c: nat)
    requires c < 16
  {
    && (p.inuse < p.objects ==> p.freelist == SlotAddress(p.base, p.inuse, SizeOf(c)))
    && (forall i: nat :: p.inuse <= i < p.objects - 1 ==> Linked(memory, p.base, i, SizeOf(c)))
  }

  /** The bytes from low up to high do not differ. */
  ghost predicate SameInside(m1: map<nat, nat>, m2: map<nat, nat>, low: nat, high: nat) {
    forall a: nat :: low <= a < high ==> (a in m1 <==> a in m2) && (a in m1 ==> m1[a] == m2[a])
  }

  /** The contents of these objects do not differ. */
  ghost predicate Untouched(supply: nat -> nat, objects: set<Object>, m1: map<nat, nat>, m2: map<nat, nat>) {
    forall o :: o in objects ==>
      Proper(o) && SameInside(m1, m2, AddressOf(supply, o), AddressOf(supply, o) + SizeOf(o.sizeClass))
  }

  lemma UntouchedTwice(supply: nat -> nat, objects: set<Object>, m1: map<nat, nat>, m2: map<nat, nat>, m3: map<nat, nat>)
    requires Untouched(supply, objects, m1, m2) && Untouched(supply, objects, m2, m3)
    ensures Untouched(supply, objects, m1, m3)
  {
    hide AddressOf, SizeOf, Proper;
    forall o | o in objects
      ensures Proper(o) && o.sizeClass < 16
    {
      ProperClass(o);
    }
  }

  lemma ProperClass(o: Object)
    ensures Proper(o) ==> o.sizeClass < 16
  {
  }

  lemma FewerUntouched(supply: nat -> nat, few: set<Object>, many: set<Object>, m1: map<nat, nat>, m2: map<nat, nat>)
    requires few <= many && Untouched(supply, many, m1, m2)
    ensures Untouched(supply, few, m1, m2)
  {
  }

  /** Address a lies in one of the pages from .. to. */
  ghost predicate InPages(supply: nat -> nat, from: nat, to: nat, a: nat) {
    exists i: nat :: from <= i < to && supply(i) <= a < supply(i) + 4096
  }

  /** Only the pages from .. to may differ. */
  ghost predicate SameButPages(supply: nat -> nat, m1: map<nat, nat>, m2: map<nat, nat>, from: nat, to: nat) {
    forall a: nat :: !InPages(supply, from, to, a) ==> (a in m1 <==> a in m2) && (a in m1 ==> m1[a] == m2[a])
  }

  lemma OnePage(supply: nat -> nat, m1: map<nat, nat>, m2: map<nat, nat>, i: nat)
    requires SameOutside(m1, m2, supply(i), supply(i) + 4096)
    ensures SameButPages(supply, m1, m2, i, i + 1)
  {
    var next := i + 1;
    forall a: nat
      ensures InPages(supply, i, next, a) <==> supply(i) <= a < supply(i) + 4096
    {
    }
  }

  lemma NothingWritten(supply: nat -> nat, m: map<nat, nat>, i: nat)
    ensures SameButPages(supply, m, m, i, i)
  {
  }

  lemma MorePages(
    supply: nat -> nat, m1: map<nat, nat>, m2: map<nat, nat>, m3: map<nat, nat>, from: nat, mid: nat, to: nat)
    requires from <= mid <= to && SameButPages(supply, m1, m2, from, mid) && SameButPages(supply, m2, m3, mid, to)
    ensures SameButPages(supply, m1, m3, from, to)
  {
    forall a: nat | !InPages(supply, from, to, a)
      ensures !InPages(supply, from, mid, a) && !InPages(supply, mid, to, a)
    {
    }
    hide InPages;
  }

  /** Only object o and the pages from .. to may differ. */
  ghost predicate SameButObject(
    supply: nat -> nat, m1: map<nat, nat>, m2: map<nat, nat>, from: nat, to: nat, o: Object)
    requires o.sizeClass < 16
  {
    forall a: nat ::
      !InPages(supply, from, to, a) && !(AddressOf(supply, o) <= a < AddressOf(supply, o) + SizeOf(o.sizeClass)) ==>
      (a in m1 <==> a in m2) && (a in m1 ==> m1[a] == m2[a])
  }

  lemma PagesThenObject(
    supply: nat -> nat, m1: map<nat, nat>, m2: map<nat, nat>, m3: map<nat, nat>, from: nat, to: nat, o: Object)
    requires o.sizeClass < 16 && SameButPages(supply, m1, m2, from, to)
    requires SameOutside(m2, m3, AddressOf(supply, o), AddressOf(supply, o) + SizeOf(o.sizeClass))
    ensures SameButObject(supply, m1, m3, from, to, o)
  {
    hide InPages, AddressOf, SizeOf;
  }

  /** The range lies in another page, or among the objects of page p that are gone. */
  ghost predicate Harmless(p: SlabPage, c: nat, low: nat, high: nat)
    requires c < 16
  {
    high <= SlotAddress(p.base, p.inuse, SizeOf(c)) || p.base + 4096 <= low
  }

  lemma ChainKept(m1: map<nat, nat>, m2: map<nat, nat>, p: SlabPage, c: nat, low: nat, high: nat)
    requires c < 16 && p.objects == ObjectsOf(c) && p.inuse <= p.objects
    requires Chained(m1, p, c) && SameOutside(m1, m2, low, high) && Harmless(p, c, low, high)
    ensures Chained(m2, p, c)
  {
    hide SlotAddress, SizeOf, ObjectsOf;
    forall i: nat | p.inuse <= i < p.objects - 1
      ensures Linked(m2, p.base, i, SizeOf(c))
    {
      SizesFit(c);
      SlotInside(p.base, i, c);
      if p.inuse < i {
        SlotOrder(p.base, p.inuse, i, SizeOf(c));
      }
      assert Linked(m1, p.base, i, SizeOf(c));
    }
  }

  // ----- no page is given up before all its objects are handed out -----

  /** A page of class c just taken from the supply. */
  function NewPage(supply: nat -> nat, index: nat, c: nat): SlabPage
    requires c < 16
  {
    SlabPage(index, supply(index), supply(index), 0, ObjectsOf(c))
  }

  /** The first n objects of page i, cut for class c, have been handed out. */
  ghost predicate HandedOut(live: set<Object>, i: nat, c: nat, n: nat) {
    forall s: nat :: s < n ==> Object(i, c, s) in live
  }

  /** Page i serves class c: it is the page in use, or all its objects have been handed out. */
  ghost predicate Serves(pages: seq<Option<SlabPage>>, live: set<Object>, i: nat, c: nat)
    requires |pages| == 16
  {
    c < 16 && HandedOut(live, i, c,
      if pages[c].Some? && pages[c].value.index == i then pages[c].value.inuse else ObjectsOf(c))
  }

  ghost predicate ServesSome(pages: seq<Option<SlabPage>>, live: set<Object>, i: nat)
    requires |pages| == 16
  {
    exists c: nat :: Serves(pages, live, i, c)
  }

  /** Object o was drawn from class c, whose page was p before and is q after, with the numbers of pages
      taken. It is the next object of the page in use, or the first of a new page if there is none left;
      if it is the last of its page, the next page has been taken already. */
  ghost predicate Drawn(p: Option<SlabPage>, before: nat, q: Option<SlabPage>, after: nat, o: Object)
    requires o.sizeClass < 16
  {
    var room := p.Some? && p.value.inuse < p.value.objects;
    var last := o.slot + 1 == ObjectsOf(o.sizeClass);
    && o.index == (if room then p.value.index else before)
    && o.slot == (if room then p.value.inuse else 0)
    && after == before + (if room then 0 else 1) + (if last then 1 else 0)
    && q.Some?
    && q.value.index == (if last then after - 1 else o.index)
    && q.value.inuse == (if last then 0 else o.slot + 1)
  }

  /** Every page taken serves some class. */
  ghost predicate NoWaste(pages: seq<Option<SlabPage>>, live: set<Object>, taken: nat)
    requires |pages| == 16
  {
    forall i: nat :: i < taken ==> ServesSome(pages, live, i)
  }

  /** A new page wastes nothing if the class had none, or one without objects left. */
  lemma RefillWastesNothing(
    supply: nat -> nat, pages: seq<Option<SlabPage>>, live: set<Object>, taken: nat, c: nat)
    requires |pages| == 16 && c < 16 && NoWaste(pages, live, taken)
    requires pages[c].Some? ==> pages[c].value.inuse >= pages[c].value.objects == ObjectsOf(c)
    ensures NoWaste(pages[c := Some(NewPage(supply, taken, c))], live, taken + 1)
  {
    hide ObjectsOf;
    var after := pages[c := Some(NewPage(supply, taken, c))];
    forall i: nat | i < taken + 1
      ensures ServesSome(after, live, i)
    {
      if i == taken {
        assert Serves(after, live, i, c);
      } else {
        assert ServesSome(pages, live, i);
        var d: nat :| Serves(pages, live, i, d);
        assert Serves(after, live, i, d);
      }
    }
  }

  lemma PopWastesNothing(
    pages: seq<Option<SlabPage>>, live: set<Object>, taken: nat, c: nat, p: SlabPage, q: SlabPage)
    requires |pages| == 16 && c < 16 && pages[c] == Some(p) && NoWaste(pages, live, taken)
    requires q.index == p.index && q.inuse == p.inuse + 1
    ensures NoWaste(pages[c := Some(q)], live + {Object(p.index, c, p.inuse)}, taken)
  {
    hide ObjectsOf;
    var after, more := pages[c := Some(q)], live + {Object(p.index, c, p.inuse)};
    forall i: nat | i < taken
      ensures ServesSome(after, more, i)
    {
      assert ServesSome(pages, live, i);
      var d: nat :| Serves(pages, live, i, d);
      assert Serves(after, more, i, d);
    }
  }

  class SlabAllocator {
    const supply: nat -> nat
    var taken: nat                       // pages requested so far
    var memory: map<nat, nat>            // words, by byte address
    var cpuPage: seq<Option<SlabPage>>   // cpu_slab[...].page of each cache
    ghost var live: set<Object>          // everything handed out

    ghost predicate PageOk(c: nat)
      requires |cpuPage| == 16 && c < 16
      reads this
    {
      cpuPage[c].Some? ==>
        var p := cpuPage[c].value;
        && p.index < taken && p.base == supply(p.index)
        && p.objects == ObjectsOf(c) && p.inuse <= p.objects
        && Chained(memory, p, c)
        && (forall d: nat :: d < 16 && d != c && cpuPage[d].Some? ==> cpuPage[d].value.index != p.index)
    }

    ghost predicate LiveOk(o: Object)
      requires |cpuPage| == 16
      reads this
    {
      && o.index < taken && Proper(o)
      && (forall c: nat :: c < 16 && cpuPage[c].Some? && cpuPage[c].value.index == o.index ==>
            c == o.sizeClass && o.slot < cpuPage[c].value.inuse)
    }

    ghost predicate Valid()
      reads this
    {
      && Supplies(supply) && |cpuPage| == 16
      && (forall c: nat :: c < 16 ==> PageOk(c))
      && (forall o :: o in live ==> LiveOk(o))
      && (forall a, b :: a in live && b in live && a.index == b.index ==> a.sizeClass == b.sizeClass)
    }

    constructor (supply: nat -> nat)
      requires Supplies(supply)
      ensures Valid() && live == {} && this.supply == supply && taken == 0
      ensures |cpuPage| == 16 && NoWaste(cpuPage, live, taken)
    {
      this.supply := supply;
      taken, memory, live := 0, map[], {};
      cpuPage := seq(16, _ => None);
    }

    /** Over any history: objects handed out are pairwise disjoint, and each lies inside one page. */
    lemma LiveObjectsApart(a: Object, b: Object)
      requires Valid() && a in live && b in live
      ensures Proper(a) && Proper(b)
      ensures a != b ==>
        || AddressOf(supply, a) + SizeOf(a.sizeClass) <= AddressOf(supply, b)
        || AddressOf(supply, b) + SizeOf(b.sizeClass) <= AddressOf(supply, a)
      ensures supply(a.index) <= AddressOf(supply, a) && AddressOf(supply, a) + SizeOf(a.sizeClass) <= supply(a.index) + 4096
    {
      assert LiveOk(a) && LiveOk(b);
      hide SlotAddress, SizeOf, ObjectsOf;
      if a != b {
        ObjectsApart(supply, a, b);
      }
      SlotInside(supply(a.index), a.slot, a.sizeClass);
    }

    /** Request4KPage: a new page, its objects chained by their addresses, stepping a pointer. */
    method Request4KPage(c: nat) returns (page: SlabPage)
      requires Supplies(supply) && c < 16
      modifies this`taken, this`memory
      ensures taken == old(taken) + 1
      ensures page == NewPage(supply, old(taken), c)
      ensures Chained(memory, page, c)
      ensures SameOutside(old(memory), memory, page.base, page.base + 4096)
      ensures memory == Chain(old(memory), page.base, SizeOf(c), ObjectsOf(c) - 1)
    {
      var size, base := SizeOf(c), supply(taken);
      SizesFit(c);
      page := SlabPage(taken, base, base, 0, ObjectsOf(c));
      taken := taken + 1;
      var addr: nat, i: nat := base, 0;
      while i < page.objects - 1
        invariant i <= page.objects - 1 && addr == SlotAddress(base, i, size) && taken == old(taken) + 1
        invariant memory == Chain(old(memory), base, size, i)
      {
        SlotOrder(base, i, i + 1, size);
        memory := memory[addr := addr + size];
        addr := addr + size;
        i := i + 1;
      }
      ChainLinks(old(memory), base, c, i);
    }

    /** SetPageSlub: the same chain on a page the caller mapped, computing each address afresh. */
    method SetPageSlub(c: nat, index: nat, virt: nat) returns (page: SlabPage)
      requires c < 16
      modifies this`memory
      ensures page == SlabPage(index, virt, virt, 0, ObjectsOf(c))
      ensures Chained(memory, page, c)
      ensures SameOutside(old(memory), memory, virt, virt + 4096)
      ensures memory == Chain(old(memory), virt, SizeOf(c), ObjectsOf(c) - 1)
    {
      SizesFit(c);
      page := SlabPage(index, virt, virt, 0, ObjectsOf(c));
      var i: nat := 0;
      while i < page.objects - 1
        invariant i <= page.objects - 1
        invariant memory == Chain(old(memory), virt, SizeOf(c), i)
      {
        memory := memory[SlotAddress(virt, i, SizeOf(c)) := SlotAddress(virt, i + 1, SizeOf(c))];
        i := i + 1;
      }
      ChainLinks(old(memory), virt, c, i);
    }

    /** Writes within an object that has been handed out are harmless to every page in use. */
    lemma LiveWritesHarmless(c: nat, o: Object, low: nat, high: nat)
      requires Supplies(supply) && |cpuPage| == 16 && LiveOk(o) && c < 16 && cpuPage[c].Some?
      requires var p := cpuPage[c].value; p.base == supply(p.index)
      requires AddressOf(supply, o) <= low <= high <= AddressOf(supply, o) + SizeOf(o.sizeClass)
      requires cpuPage[c].value.inuse <= ObjectsOf(c)
      ensures Harmless(cpuPage[c].value, c, low, high)
    {
      hide SizeOf, ObjectsOf, SlotAddress;
      var p := cpuPage[c].value;
      SlotInside(supply(o.index), o.slot, o.sizeClass);
      SlotInside(p.base, p.inuse, c);
      if p.index == o.index {
        SlotOrder(p.base, o.slot, p.inuse, SizeOf(c));
      } else {
        PagesApart(supply, p.index, o.index);
      }
    }

    /** A client stores anywhere in an object it holds, a byte or more: the word that contains the
        address takes some new value, and no chain notices. */
    method ClientWrite(ghost o: Object, address: nat, value: nat)
      requires Valid() && o in live && Proper(o)
      requires AddressOf(supply, o) <= address < AddressOf(supply, o) + SizeOf(o.sizeClass)
      modifies this`memory
      ensures Valid() && memory == old(memory)[address - address % 8 := value]
    {
      assert LiveOk(o);
      ghost var was, word := memory, address - address % 8;
      ObjectsAreWords(supply, o);
      WordOfObject(AddressOf(supply, o), SizeOf(o.sizeClass), address);
      memory := memory[address - address % 8 := value];
      assert LiveOk(o);
      forall c: nat | c < 16
        ensures PageOk(c)
      {
        assert old(PageOk(c));
        if cpuPage[c].Some? {
          LiveWritesHarmless(c, o, word, word + 8);
          ChainKept(was, memory, cpuPage[c].value, c, word, word + 8);
        }
      }
      assert forall x :: x in live ==> old(LiveOk(x));
    }

    /** A new page becomes the page of class c. */
    method Refill(c: nat)
      requires Valid() && c < 16
      modifies this`taken, this`memory, this`cpuPage
      ensures Valid() && |cpuPage| == 16 && cpuPage[c].Some?
      ensures cpuPage == old(cpuPage)[c := Some(NewPage(supply, old(taken), c))] && taken == old(taken) + 1
      ensures cpuPage[c].value.inuse == 0 < cpuPage[c].value.objects
      ensures SameOutside(old(memory), memory, supply(old(taken)), supply(old(taken)) + 4096)
      ensures Untouched(supply, live, old(memory), memory)
    {
      hide SlotAddress, SizeOf, ObjectsOf, Chained, SameOutside, SameInside, Chain, AddressOf;
      ghost var was, pages := memory, cpuPage;
      SizesFit(c);
      var page := Request4KPage(c);
      cpuPage := cpuPage[c := Some(page)];
      forall d: nat | d < 16 && pages[d].Some?
        ensures pages[d].value.index < page.index
      {
        assert old(PageOk(d));
      }
      forall d: nat | d < 16
        ensures PageOk(d)
      {
        assert old(PageOk(d));
        if d != c && pages[d].Some? {
          NewPageHarmless(was, pages[d].value, d, page.index);
        }
      }
      assert forall o :: o in live ==> old(LiveOk(o));
      forall o | o in live
        ensures Proper(o) && SameInside(was, memory, AddressOf(supply, o), AddressOf(supply, o) + SizeOf(o.sizeClass))
      {
        OldObjectKept(was, o, page.index);
      }
    }

    lemma OldObjectKept(was: map<nat, nat>, o: Object, index: nat)
      requires Supplies(supply) && Proper(o) && o.index != index
      requires SameOutside(was, memory, supply(index), supply(index) + 4096)
      ensures SameInside(was, memory, AddressOf(supply, o), AddressOf(supply, o) + SizeOf(o.sizeClass))
    {
      hide SlotAddress, SizeOf, ObjectsOf;
      SlotInside(supply(o.index), o.slot, o.sizeClass);
      PagesApart(supply, o.index, index);
    }

    lemma NewPageHarmless(was: map<nat, nat>, p: SlabPage, c: nat, index: nat)
      requires Supplies(supply) && c < 16 && p.index != index && p.base == supply(p.index)
      requires p.objects == ObjectsOf(c) && p.inuse <= p.objects
      requires Chained(was, p, c) && SameOutside(was, memory, supply(index), supply(index) + 4096)
      ensures Chained(memory, p, c)
    {
      hide SizeOf, ObjectsOf, SlotAddress;
      PagesApart(supply, p.index, index);
      SlotInside(p.base, p.inuse, c);
      ChainKept(was, memory, p, c, supply(index), supply(index) + 4096);
    }

    /** Takes the object at the head of the chain. The link read from the last object of a page is
        whatever its memory holds; that page is never used again. */
    method Pop(c: nat) returns (address: nat, ghost o: Object)
      requires Valid() && c < 16 && cpuPage[c].Some? && cpuPage[c].value.inuse < cpuPage[c].value.objects
      modifies this`cpuPage, this`live
      ensures Valid() && |cpuPage| == 16 && cpuPage[c].Some?
      ensures o !in old(live) && live == old(live) + {o}
      ensures Proper(o) && o.sizeClass == c && address == AddressOf(supply, o)
      ensures var p, q := old(cpuPage)[c].value, cpuPage[c].value;
        && address == p.freelist && o == Object(p.index, c, p.inuse)
        && cpuPage == old(cpuPage)[c := Some(q)] && q == p.(freelist := q.freelist, inuse := p.inuse + 1)
    {
      assert PageOk(c);
      var page := cpuPage[c].value;
      o := Object(page.index, c, page.inuse);
      assert o in live ==> LiveOk(o);
      address := page.freelist;
      ghost var was := page;
      page := page.(freelist := if address in memory then memory[address] else 0, inuse := page.inuse + 1);
      NextInChain(memory, was, page, c);
      cpuPage := cpuPage[c := Some(page)];
      live := live + {o};
      forall d: nat | d < 16
        ensures PageOk(d)
      {
        assert old(PageOk(d));
      }
      forall x | x in live
        ensures LiveOk(x)
      {
        if x != o {
          assert old(LiveOk(x));
        } else {
          assert forall d: nat :: d < 16 ==> old(PageOk(d));
        }
      }
      forall x | x in live && x.index == o.index
        ensures x.sizeClass == c
      {
        if x != o {
          assert old(LiveOk(x));
        }
      }
    }

    /** memset((void*)address, 0, cache->size) */
    method Clear(address: nat, c: nat, ghost o: Object)
      requires Valid() && o in live && Proper(o)
      requires address == AddressOf(supply, o) && c == o.sizeClass
      modifies this`memory
      ensures Valid()
      ensures forall k: nat :: 8 * k < SizeOf(o.sizeClass) ==>
                AddressOf(supply, o) + 8 * k in memory && memory[AddressOf(supply, o) + 8 * k] == 0
      ensures Untouched(supply, live - {o}, old(memory), memory)
      ensures SameOutside(old(memory), memory, address, address + SizeOf(c))
    {
      hide *;
      ghost var was := memory;
      ClearBounds(o);
      ghost var a, size := AddressOf(supply, o), SizeOf(o.sizeClass);
      var n: nat := 0;
      while 8 * n < SizeOf(c)
        invariant Valid() && 8 * n <= size && Proper(o)
        invariant Zeroed(memory, a, n) && SameOutside(was, memory, a, a + size)
      {
        ghost var before := memory;
        WordFits(a, n, size);
        ClientWrite(o, address + 8 * n, 0);
        ZeroNext(was, before, a, n, size);
        n := n + 1;
      }
      ZeroedWords(memory, a, n, size);
      OthersUndisturbed(was, o);
    }

    lemma ClearBounds(o: Object)
      requires Valid() && o in live
      ensures Proper(o) && o.sizeClass < 16 && AddressOf(supply, o) % 8 == 0 && SizeOf(o.sizeClass) % 8 == 0
      ensures Zeroed(memory, AddressOf(supply, o), 0)
      ensures SameOutside(memory, memory, AddressOf(supply, o), AddressOf(supply, o) + SizeOf(o.sizeClass))
    {
      assert LiveOk(o);
      hide SlotAddress, SizeOf, ObjectsOf;
      ObjectsAreWords(supply, o);
    }

    lemma OthersUndisturbed(was: map<nat, nat>, o: Object)
      requires Valid() && o in live && Proper(o)
      requires SameOutside(was, memory, AddressOf(supply, o), AddressOf(supply, o) + SizeOf(o.sizeClass))
      ensures Untouched(supply, live - {o}, was, memory)
    {
      hide SlotAddress, SizeOf, ObjectsOf, Valid;
      forall x | x in live - {o}
        ensures Proper(x) && SameInside(was, memory, AddressOf(supply, x), AddressOf(supply, x) + SizeOf(x.sizeClass))
      {
        LiveObjectsApart(x, o);
      }
    }

    /** The smallest size class that fits. */
    method FindCache(size: nat) returns (c: nat)
      requires size <= 4096
      ensures c < 16 && size <= SizeOf(c) && forall d: nat :: d < c ==> SizeOf(d) < size
    {
      c := 0;
      while BlockSize[c] < size
        invariant c < 16 && forall d: nat :: d < c ==> SizeOf(d) < size
        decreases 16 - c
      {
        c := c + 1;
      }
    }

    /** The first test of Allocate: a new page only if there is none with an object left. */
    method EnsureRoom(c: nat)
      requires Valid() && c < 16
      modifies this`taken, this`memory, this`cpuPage
      ensures Valid() && |cpuPage| == 16 && cpuPage[c].Some? && cpuPage[c].value.inuse < cpuPage[c].value.objects
      ensures old(cpuPage[c].Some? && cpuPage[c].value.inuse < cpuPage[c].value.objects) ==>
        cpuPage == old(cpuPage) && taken == old(taken)
      ensures !old(cpuPage[c].Some? && cpuPage[c].value.inuse < cpuPage[c].value.objects) ==>
        cpuPage == old(cpuPage)[c := Some(NewPage(supply, old(taken), c))] && taken == old(taken) + 1
      ensures old(NoWaste(cpuPage, live, taken)) ==> NoWaste(cpuPage, live, taken)
      ensures Untouched(supply, live, old(memory), memory)
      ensures SameButPages(supply, old(memory), memory, old(taken), taken)
    {
      hide *;
      CacheFacts(c);
      NothingWritten(supply, memory, taken);
      if cpuPage[c] == None || cpuPage[c].value.inuse >= cpuPage[c].value.objects {
        Refill(c);
        OnePage(supply, old(memory), memory, old(taken));
        if old(NoWaste(cpuPage, live, taken)) {
          RefillWastesNothing(supply, old(cpuPage), live, old(taken), c);
        }
      }
    }

    /** Allocate up to the zeroing: the next object of the page in use, or the first of a new page if
        there is none left. When it is the last of its page, the next page is taken at once. */
    method TakeObject(c: nat) returns (address: nat, ghost o: Object)
      requires Valid() && c < 16
      modifies this`taken, this`memory, this`cpuPage, this`live
      ensures Valid() && o !in old(live) && live == old(live) + {o} && Proper(o)
      ensures o.sizeClass == c && address == AddressOf(supply, o) && |cpuPage| == |old(cpuPage)| == 16
      ensures Drawn(old(cpuPage)[c], old(taken), cpuPage[c], taken, o)
      ensures old(cpuPage)[c].Some? && old(cpuPage)[c].value.inuse < old(cpuPage)[c].value.objects ==>
        address == old(cpuPage)[c].value.freelist
      ensures forall d: nat :: d < 16 && d != c ==> cpuPage[d] == old(cpuPage)[d]
      ensures old(NoWaste(cpuPage, live, taken)) ==> NoWaste(cpuPage, live, taken)
      ensures Untouched(supply, old(live), old(memory), memory)
      ensures SameButPages(supply, old(memory), memory, old(taken), taken)
    {
      hide Valid, SameButPages, SameOutside, Untouched, NoWaste, Proper, AddressOf, ObjectsOf, SizeOf, SlotAddress;
      CacheFacts(c);
      ghost var objects, m0 := live, memory;
      EnsureRoom(c);
      CacheFacts(c);
      ghost var m1, pages := memory, cpuPage;
      address, o := Pop(c);
      CacheFacts(c);
      if old(NoWaste(cpuPage, live, taken)) {
        PopWastesNothing(pages, objects, taken, c, pages[c].value, cpuPage[c].value);
      }
      ghost var popped, t := cpuPage, taken;
      NothingWritten(supply, memory, taken);
      if cpuPage[c].value.inuse == cpuPage[c].value.objects {
        Refill(c);
        OnePage(supply, m1, memory, t);
        if old(NoWaste(cpuPage, live, taken)) {
          RefillWastesNothing(supply, popped, live, t, c);
        }
      }
      FewerUntouched(supply, objects, live, m1, memory);
      UntouchedTwice(supply, objects, m0, m1, memory);
      MorePages(supply, m0, m1, memory, old(taken), t, taken);
    }

    /** Allocate: a request above a page is passed on to the kernel heap, whose answer for n pages is
        heap(n); any other gets an object of the smallest sufficient class, all zero. Objects handed
        out before keep their contents. The object is the next one of the page in use, and the first
        of a new page only if there is none left; when it is the last of its page, the next page is
        taken at once. */
    method Allocate(size: nat, heap: nat -> nat) returns (g: Grant, ghost o: Object)
      requires Valid() && size < 0x1_0000_0000_0000_0000
      modifies this`taken, this`memory, this`cpuPage, this`live
      ensures Valid() && |cpuPage| == 16
      ensures size > 4096 ==> g == Large(heap(PagesFor(size)))
      ensures size > 4096 ==> live == old(live) && taken == old(taken) && memory == old(memory) && cpuPage == old(cpuPage)
      ensures size <= 4096 ==>
        && o !in old(live) && live == old(live) + {o} && Proper(o)
        && size <= SizeOf(o.sizeClass) && (forall d: nat :: d < o.sizeClass ==> SizeOf(d) < size)
        && g == Small(AddressOf(supply, o))
        && (forall k: nat :: 8 * k < SizeOf(o.sizeClass) ==>
              AddressOf(supply, o) + 8 * k in memory && memory[AddressOf(supply, o) + 8 * k] == 0)
      ensures old(|cpuPage|) == 16
      ensures size <= 4096 ==>
        && Drawn(old(cpuPage)[o.sizeClass], old(taken), cpuPage[o.sizeClass], taken, o)
        && (forall d: nat :: d < 16 && d != o.sizeClass ==> cpuPage[d] == old(cpuPage)[d])
      ensures old(NoWaste(cpuPage, live, taken)) ==> NoWaste(cpuPage, live, taken)
      ensures Untouched(supply, old(live), old(memory), memory)
      ensures size <= 4096 ==> SameButObject(supply, old(memory), memory, old(taken), taken, o)
    {
      hide *;
      CacheFacts(0);
      if size > 4096 {
        o := Object(0, 0, 0);
        g := Large(heap(PagesFor(size)));
        return;
      }
      var c := FindCache(size);
      ghost var m0, objects := memory, live;
      var address;
      address, o := TakeObject(c);
      ghost var m1 := memory;
      Clear(address, c, o);
      assert objects == live - {o};
      UntouchedTwice(supply, objects, m0, m1, memory);
      PagesThenObject(supply, m0, m1, memory, old(taken), taken, o);
      g := Small(address);
    }

    lemma CacheFacts(c: nat)
      requires Valid() && c < 16
      ensures |cpuPage| == 16 && Untouched(supply, live, memory, memory)
      ensures cpuPage[c].Some? ==> cpuPage[c].value.objects == ObjectsOf(c) && cpuPage[c].value.inuse <= ObjectsOf(c)
    {
      assert PageOk(c);
      assert forall o :: o in live ==> LiveOk(o);
    }
  }

  /** The first n words from a on are zero. */
  ghost predicate Zeroed(memory: map<nat, nat>, a: nat, n: nat) {
    forall k: nat :: k < n ==> a + 8 * k in memory && memory[a + 8 * k] == 0
  }

  lemma WordFits(a: nat, n: nat, size: nat)
    requires 8 * n < size && size % 8 == 0 && a % 8 == 0
    ensures 8 * (n + 1) <= size && (a + 8 * n) % 8 == 0
  {
  }

  /** The word around a byte of an object lies in the object. */
  lemma WordOfObject(a: nat, size: nat, address: nat)
    requires a % 8 == 0 && size % 8 == 0 && a <= address < a + size
    ensures a <= address - address % 8 && address - address % 8 + 8 <= a + size
  {
  }

  lemma ZeroNext(was: map<nat, nat>, before: map<nat, nat>, a: nat, n: nat, size: nat)
    requires 8 * n < size && Zeroed(before, a, n) && SameOutside(was, before, a, a + size)
    ensures Zeroed(before[a + 8 * n := 0], a, n + 1) && SameOutside(was, before[a + 8 * n := 0], a, a + size)
  {
  }

  lemma ZeroedWords(memory: map<nat, nat>, a: nat, n: nat, size: nat)
    requires Zeroed(memory, a, n) && 8 * n >= size
    ensures forall k: nat :: 8 * k < size ==> a + 8 * k in memory && memory[a + 8 * k] == 0
  {
    forall k: nat | 8 * k < size
      ensures a + 8 * k in memory && memory[a + 8 * k] == 0
    {
      assert k < n;
    }
  }

  lemma NextInChain(memory: map<nat, nat>, p: SlabPage, q: SlabPage, c: nat)
    requires c < 16 && p.inuse < p.objects && Chained(memory, p, c)
    requires q == p.(freelist := if p.freelist in memory then memory[p.freelist] else 0, inuse := p.inuse + 1)
    ensures Chained(memory, q, c)
  {
    if p.inuse < p.objects - 1 {
      assert Linked(memory, p.base, p.inuse, SizeOf(c));
    }
  }
}
