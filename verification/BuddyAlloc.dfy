/** The buddy allocator on its descriptor table and its eleven intrusive queues. Every method is
    proved to perform the zone transition of the same meaning; what follows for whole runs is in
    BuddyRuns.dfy.

    Where the source cannot be taken literally, the evident intent is modelled: split scales its
    offset twice and drops the FREE flag of the half it frees, the coalescing loop shifts by a byte
    size, has its alignment tests inverted and never compares the orders of the two blocks. The
    older ExpandPage has the right arithmetic for split. Deviations.dfy says what the literal
    tests would do. */
module BuddyAllocator {
  import opened Options
  import opened Powers
  import opened BuddyZone
  import opened BuddyRuns
  import opened Align
  import opened Words
  import opened PageQueues
  import opened Sequences

  ghost predicate Queued(z: Zone, f: nat) {
    exists k: nat :: Free(z, f, k)
  }

  datatype Fields = Fields(address: nat, order: nat, free: bool)

  /** The descriptors agree with zone z: the first descriptors of live blocks, and no others, are not
      flagged free. The block in hand, if any, may still be flagged free. */
  ghost predicate Described(t: seq<Fields>, base: nat, z: Zone, hand: int) {
    && |t| == z.n
    && (forall f :: 0 <= f < |t| ==> t[f].address == base + 4096 * f)
    && (forall f: nat, k: nat :: Free(z, f, k) ==> f < |t| && t[f].order == k && t[f].free)
    && (forall f :: f in z.live ==> f < |t| && t[f].order == z.live[f])
    && (forall f :: f in z.live && f != hand ==> f < |t| && !t[f].free)
    && (forall f: nat :: f < |t| && f !in z.live ==> t[f].free)
  }

  /** A descriptor on no queue has no links. */
  ghost predicate Detached(loose: set<nat>, z: Zone) {
    forall f: nat :: f < z.n && !Queued(z, f) ==> f in loose
  }

  ghost predicate Disjoint(s: seq<Page>, t: seq<Page>) {
    forall i :: 0 <= i < |s| ==> s[i] !in t
  }

  /** The zone while initialisation has queued the first i of m blocks. */
  ghost function Filled(m: nat, i: nat): Zone {
    Zone(MaxPages * m, seq(MaxOrder, _ => []) + [TopBlocks(i)], map[])
  }

  /** The first i blocks have been initialised. */
  ghost predicate Ready(t: seq<Fields>, loose: set<nat>, base: nat, i: nat) {
    && (forall f :: 0 <= f < |t| && f < 1024 * i ==> t[f] == InitialFields(base, f))
    && (forall f: nat :: f < |t| && f < 1024 * i && f % 1024 != 0 ==> f in loose)
  }

  ghost function InitialFields(base: nat, f: nat): Fields {
    Fields(base + 4096 * f, if f % 1024 == 0 then MaxOrder else 0, true)
  }

  lemma ReadyNext(t0: seq<Fields>, l0: set<nat>, t1: seq<Fields>, l1: set<nat>, l2: set<nat>, base: nat, i: nat)
    requires Ready(t0, l0, base, i) && |t0| == |t1| && 1024 * i + 1024 <= |t0|
    requires forall f :: 0 <= f < 1024 * i ==> t1[f] == t0[f]
    requires forall f :: 1024 * i <= f < 1024 * i + 1024 ==> t1[f] == Fields(base + 4096 * f, 0, true)
    requires forall f: nat :: 1024 * i <= f < 1024 * i + 1024 || f in l0 ==> f in l1
    requires forall f: nat :: f in l1 && f % 1024 != 0 ==> f in l2
    ensures Ready(t1[1024 * i := t1[1024 * i].(order := MaxOrder)], l2, base, i + 1)
  {
    var t2 := t1[1024 * i := t1[1024 * i].(order := MaxOrder)];
    forall f: nat | f < 1024 * i + 1024
      ensures t2[f] == InitialFields(base, f) && (f % 1024 != 0 ==> f in l2)
    {
      if 1024 * i <= f {
        var r := f - 1024 * i;
        assert f == i * 1024 + r && f % 1024 == r;
      }
    }
  }

  method NewQueues() returns (qs: seq<PageQueue>)
    ensures |qs| == MaxOrder + 1 && Distinct(qs) && fresh(qs)
    ensures forall k :: 0 <= k < |qs| ==> qs[k].Valid() && qs[k].contents == []
  {
    qs := [];
    while |qs| < MaxOrder + 1
      invariant |qs| <= MaxOrder + 1 && Distinct(qs) && fresh(qs)
      invariant forall k :: 0 <= k < |qs| ==> qs[k].Valid() && qs[k].contents == []
    {
      var q := new PageQueue();
      qs := qs + [q];
    }
  }

  class BuddyAlloc {
    /** Physical address of frame 0 of the zone. */
    const base: nat
    /** The descriptor table: pages[f] describes frame f. */
    const pages: seq<Page>
    /** m_pageLists, one queue per order. */
    const queues: seq<PageQueue>

    ghost var zone: Zone

    ghost predicate Tables()
      reads this
    {
      && base % (4096 * 1024) == 0
      && Distinct(pages) && Distinct(queues)
      && |queues| == MaxOrder + 1 && |pages| == zone.n
    }

    /** BuddyInit over a raw descriptor table: every 4 MiB block is initialised and its first
        descriptor queued at the top order. */
    constructor (base: nat, pages: seq<Page>)
      requires base % (4096 * 1024) == 0 && |pages| % 1024 == 0 && Distinct(pages)
      modifies pages
      ensures this.base == base && this.pages == pages && fresh(queues)
      ensures Valid() && zone == Initial(|pages| / 1024) && Ordinary(|pages|)
    {
      var qs := NewQueues();
      this.base, this.pages, this.queues := base, pages, qs;
      zone := Filled(|pages| / 1024, 0);
      new;
      var i := 0;
      while i < |pages| / 1024
        invariant 0 <= i <= |pages| / 1024 && fresh(queues)
        invariant zone == Filled(|pages| / 1024, i)
        invariant Linked() && Ready(Table(), Loose(), base, i) && Ordinary(1024 * i)
      {
        InitBlock(i);
        i := i + 1;
      }
      assert zone == Initial(|pages| / 1024);
      InitialInv(|pages| / 1024);
      InitialDescribed(Table(), Loose(), base, |pages| / 1024);
    }

    /** None of the first n descriptors is flagged as the kernel's or as swapped out. */
    ghost predicate Ordinary(n: nat)
      reads pages
    {
      n <= |pages| && forall f :: 0 <= f < n ==> !pages[f].kmem && !pages[f].swap
    }

    ghost predicate InTable(q: seq<nat>) {
      forall i :: 0 <= i < |q| ==> q[i] < |pages|
    }

    ghost function PagesOf(q: seq<nat>): (r: seq<Page>)
      requires InTable(q)
      ensures |r| == |q| && forall i :: 0 <= i < |q| ==> r[i] == pages[q[i]]
    {
      seq(|q|, i requires 0 <= i < |q| => pages[q[i]])
    }

    /** Each queue object holds the descriptors that the zone lists, in the same order. */
    ghost predicate Linked()
      reads this, queues, pages
    {
      && Tables() && |zone.queues| == MaxOrder + 1
      && (forall k :: 0 <= k < |queues| ==> InTable(zone.queues[k]))
      && (forall k :: 0 <= k < |queues| ==> queues[k].contents == PagesOf(zone.queues[k]))
      && (forall k :: 0 <= k < |queues| ==> queues[k].Valid())
    }

    /** What the descriptor table says, links aside. */
    ghost function Table(): (t: seq<Fields>)
      reads pages
      ensures |t| == |pages|
      ensures forall f :: 0 <= f < |t| ==> t[f] == Fields(pages[f].address, pages[f].order, pages[f].free)
    {
      seq(|pages|, f requires 0 <= f < |pages| reads pages => Fields(pages[f].address, pages[f].order, pages[f].free))
    }

    /** The frames whose descriptors have no links. */
    ghost function Loose(): (s: set<nat>)
      reads pages
      ensures forall f :: f in s ==> f < |pages|
    {
      set f: nat | f < |pages| && pages[f].next == null && pages[f].previous == null
    }

    ghost predicate Holding(hand: int)
      reads this, queues, pages
    {
      Inv(zone) && Linked() && Described(Table(), base, zone, hand) && Detached(Loose(), zone)
    }

    ghost predicate Valid()
      reads this, queues, pages
    {
      Holding(-1)
    }

    lemma Parts(hand: int)
      requires Holding(hand)
      ensures Inv(zone) && Linked() && Described(Table(), base, zone, hand) && Detached(Loose(), zone)
      ensures |zone.queues| == |queues| == MaxOrder + 1 && |pages| == zone.n && base % (4096 * 1024) == 0
    {
    }

    lemma Whole(hand: int)
      requires Inv(zone) && Linked() && Described(Table(), base, zone, hand) && Detached(Loose(), zone)
      ensures Holding(hand) && (hand == -1 ==> Valid())
    {
    }

    /** Descriptor of a block held or queued in the zone; what pageOf and pointer arithmetic reach. */
    function FrameOf(page: Page): nat
      reads page
      requires page.address >= base
    {
      (page.address - base) / 4096
    }

    lemma QueuedPage(k: nat, f: nat)
      requires Linked() && k <= MaxOrder && f < |pages|
      ensures pages[f] in queues[k].contents <==> Free(zone, f, k)
    {
      var q := zone.queues[k];
      if pages[f] in queues[k].contents {
        var i :| 0 <= i < |q| && pages[q[i]] == pages[f];
      }
      if Free(zone, f, k) {
        var i :| 0 <= i < |q| && q[i] == f;
        assert queues[k].contents[i] == pages[f];
      }
    }

    lemma InTables(k: nat)
      requires Linked() && k <= MaxOrder
      ensures forall i :: 0 <= i < |queues[k].contents| ==> queues[k].contents[i] in pages
    {
    }

    lemma QueuedPages(k: nat)
      requires Linked() && k <= MaxOrder
      ensures forall f: nat :: f < |pages| ==> (pages[f] in queues[k].contents <==> Free(zone, f, k))
    {
      forall f: nat | f < |pages|
        ensures pages[f] in queues[k].contents <==> Free(zone, f, k)
      {
        QueuedPage(k, f);
      }
    }

    lemma QueuesApart(j: nat, k: nat)
      requires Inv(zone) && Linked() && j <= MaxOrder && k <= MaxOrder && j != k
      ensures queues[j] != queues[k]
      ensures Disjoint(queues[j].contents, queues[k].contents)
    {
      forall i | 0 <= i < |queues[j].contents|
        ensures queues[j].contents[i] !in queues[k].contents
      {
        var f := zone.queues[j][i];
        assert Free(zone, f, j);
        QueuedPage(k, f);
        if Free(zone, f, k) {
          SameStart(zone, f, j, k);
        }
      }
    }

    ghost predicate Apart(k: nat)
      reads this, queues
      requires k < |queues|
    {
      forall j :: 0 <= j < |queues| && j != k ==> queues[j] != queues[k] && Disjoint(queues[j].contents, queues[k].contents)
    }

    /** target is the zone with queue k replaced by q; the live blocks may differ. */
    ghost predicate Requeued(target: Zone, k: nat, q: seq<nat>)
      reads this
    {
      target.n == zone.n && k < |zone.queues| && target.queues == zone.queues[k := q]
    }

    /** Linked, but for the contents of queue k. */
    ghost predicate LinkedBut(k: nat)
      reads this, queues, pages, if k < |queues| then queues[k].contents else []
    {
      && Tables() && |zone.queues| == MaxOrder + 1 && k <= MaxOrder
      && (forall j :: 0 <= j < |queues| ==> InTable(zone.queues[j]))
      && (forall j :: 0 <= j < |queues| && j != k ==> queues[j].contents == PagesOf(zone.queues[j]))
      && (forall j :: 0 <= j < |queues| ==> queues[j].Valid())
    }

    /** The zone follows what happened on queue k. */
    ghost method Requeue(k: nat, q: seq<nat>, target: Zone)
      requires LinkedBut(k) && InTable(q) && |queues| == MaxOrder + 1 && k <= MaxOrder
      requires queues[k].contents == PagesOf(q) && Requeued(target, k, q)
      modifies this`zone
      ensures zone == target && Linked()
    {
      zone := target;
    }

    lemma QueueContents(k: nat)
      requires Linked() && k <= MaxOrder
      ensures |queues| == |zone.queues| == MaxOrder + 1
      ensures InTable(zone.queues[k]) && queues[k].contents == PagesOf(zone.queues[k])
    {
    }

    lemma PagesOfTail(q: seq<nat>)
      requires InTable(q) && q != []
      ensures InTable(q[1..]) && PagesOf(q[1..]) == PagesOf(q)[1..]
    {
    }

    lemma PagesOfMore(q: seq<nat>, f: nat)
      requires InTable(q) && f < |pages|
      ensures InTable(q + [f]) && PagesOf(q + [f]) == PagesOf(q) + [pages[f]]
    {
    }

    /** Pop on queue k, which leaves the other queues well linked. */
    method PopFrom(k: nat) returns (page: Page)
      requires Linked() && k <= MaxOrder && Apart(k) && queues[k].contents != []
      modifies queues[k], queues[k].contents`next, queues[k].contents`previous
      ensures page == old(queues[k].contents)[0] && queues[k].contents == old(queues[k].contents)[1..]
      ensures LinkedBut(k)
      ensures Table() == old(Table())
      ensures forall g: nat :: g in old(Loose()) && pages[g] !in old(queues[k].contents) ==> g in Loose()
      ensures forall g: nat :: g < |pages| && pages[g] == page ==> g in Loose()
    {
      var p := queues[k].Pop();
      page := p;
      forall j | 0 <= j < |queues|
        ensures queues[j].Valid() && (j != k ==> queues[j].contents == old(queues[j].contents))
      {
        if j != k {
          queues[j].StaysValid();
        }
      }
    }

    method PopAt(k: nat, ghost target: Zone) returns (page: Page)
      requires Linked() && k <= MaxOrder && zone.queues[k] != [] && Apart(k)
      requires Requeued(target, k, zone.queues[k][1..])
      modifies this`zone, queues[k], queues[k].contents`next, queues[k].contents`previous
      ensures zone == target && Linked() && Table() == old(Table())
      ensures page == pages[old(zone).queues[k][0]] && old(zone).queues[k][0] in Loose()
      ensures forall g :: g in old(Loose()) && !Free(old(zone), g, k) ==> g in Loose()
    {
      QueuedPages(k);
      QueueContents(k);
      PagesOfTail(zone.queues[k]);
      hide Linked, LinkedBut, PageQueue.Valid, Table, Loose;
      page := PopFrom(k);
      Requeue(k, zone.queues[k][1..], target);
    }

    lemma PagesOfDropped(q: seq<nat>, i: nat, r: seq<nat>)
      requires i < |q| && InTable(q) && Dropped(q, i, r)
      ensures InTable(r) && Dropped(PagesOf(q), i, PagesOf(r))
    {
    }

    lemma PagesOfRest(q: seq<nat>, f: nat) returns (i: nat)
      requires InTable(q) && Distinct(q) && f in q
      ensures i < |q| && q[i] == f && Dropped(q, i, Remove(q, f))
      ensures InTable(Remove(q, f)) && Dropped(PagesOf(q), i, PagesOf(Remove(q, f)))
    {
      i := RemoveDrops(q, f);
      hide *;
      PagesOfDropped(q, i, Remove(q, f));
    }

    lemma SameDrop(s: seq<Page>, i: nat, r1: seq<Page>, r2: seq<Page>)
      requires i < |s| && Dropped(s, i, r1) && Dropped(s, i, r2)
      ensures r1 == r2
    {
    }

    method TakeAwayFrom(k: nat, page: Page, ghost i: nat)
      requires Linked() && k <= MaxOrder && Apart(k)
      requires i < |queues[k].contents| && page == queues[k].contents[i]
      modifies queues[k], queues[k].contents`next, queues[k].contents`previous
      ensures Dropped(old(queues[k].contents), i, queues[k].contents)
      ensures LinkedBut(k)
      ensures page.next == null && page.previous == null
    {
      queues[k].TakeAway(page, i);
      forall j | 0 <= j < |queues|
        ensures queues[j].Valid() && (j != k ==> queues[j].contents == old(queues[j].contents))
      {
        if j != k {
          queues[j].StaysValid();
        }
      }
    }

    method TakeAwayAt(k: nat, page: Page, ghost f: nat, ghost target: Zone)
      requires Linked() && k <= MaxOrder && Apart(k) && Distinct(zone.queues[k])
      requires Free(zone, f, k) && page == pages[f]
      requires Requeued(target, k, Remove(zone.queues[k], f))
      modifies this`zone, queues[k], queues[k].contents`next, queues[k].contents`previous
      ensures zone == target && Linked() && Table() == old(Table())
      ensures f in Loose()
      ensures forall g :: g in old(Loose()) && !Free(old(zone), g, k) ==> g in Loose()
    {
      QueuedPages(k);
      ghost var was := queues[k].contents;
      ghost var i := PagesOfRest(zone.queues[k], f);
      QueueContents(k);
      TakeAwayFrom(k, page, i);
      SameDrop(was, i, queues[k].contents, PagesOf(Remove(zone.queues[k], f)));
      Requeue(k, Remove(zone.queues[k], f), target);
    }

    /** Push on queue k, which leaves the other queues well linked. */
    method PushOn(k: nat, page: Page)
      requires Linked() && k <= MaxOrder && Apart(k)
      requires page.next == null && page.previous == null
      requires forall j :: 0 <= j < |queues| ==> page !in queues[j].contents
      modifies queues[k], page`next, page`previous, queues[k].contents`next, queues[k].contents`previous
      ensures queues[k].contents == old(queues[k].contents) + [page]
      ensures LinkedBut(k)
      ensures Table() == old(Table())
      ensures forall g: nat :: g in old(Loose()) && pages[g] != page && pages[g] !in old(queues[k].contents) ==> g in Loose()
    {
      queues[k].Push(page);
      forall j | 0 <= j < |queues|
        ensures queues[j].Valid() && (j != k ==> queues[j].contents == old(queues[j].contents))
      {
        if j != k {
          queues[j].StaysValid();
        }
      }
    }

    method PushAt(k: nat, page: Page, ghost f: nat, ghost target: Zone)
      requires Linked() && k <= MaxOrder && Apart(k)
      requires f < |pages| && page == pages[f] && f in Loose()
      requires forall j :: 0 <= j < |queues| ==> page !in queues[j].contents
      requires Requeued(target, k, zone.queues[k] + [f])
      modifies this`zone, queues[k], page`next, page`previous
      modifies queues[k].contents`next, queues[k].contents`previous
      ensures zone == target && Linked() && Table() == old(Table())
      ensures forall g :: g in old(Loose()) && g != f && !Free(old(zone), g, k) ==> g in Loose()
    {
      QueuedPages(k);
      QueueContents(k);
      PagesOfMore(zone.queues[k], f);
      assert pages[f].next == null && pages[f].previous == null;
      hide Linked, LinkedBut, PageQueue.Valid, Table, Loose;
      PushOn(k, page);
      Requeue(k, zone.queues[k] + [f], target);
    }

    /** Facts that let a queue operation on queue k be carried out without touching the others. */
    lemma ReadyFor(k: nat)
      requires Inv(zone) && Linked() && k <= MaxOrder
      ensures Apart(k)
      ensures forall f: nat :: f < |pages| && !Queued(zone, f) ==>
                forall j :: 0 <= j < |queues| ==> pages[f] !in queues[j].contents
    {
      forall j | 0 <= j < |queues| && j != k
        ensures queues[j] != queues[k] && Disjoint(queues[j].contents, queues[k].contents)
      {
        QueuesApart(j, k);
      }
      forall f: nat, j: nat | f < |pages| && !Queued(zone, f) && j < |queues|
        ensures pages[f] !in queues[j].contents
      {
        QueuedPage(j, f);
      }
    }

    /** BuddyInit's inner loop. */
    method ClearBlock(i: nat)
      requires Linked() && 1024 * i + 1024 <= |pages| && zone == Filled(|pages| / 1024, i) && Ordinary(1024 * i)
      modifies pages
      ensures Linked() && zone == old(zone)
      ensures forall f :: 0 <= f < 1024 * i ==> Table()[f] == old(Table()[f])
      ensures forall f :: 1024 * i <= f < 1024 * i + 1024 ==> Table()[f] == Fields(base + 4096 * f, 0, true)
      ensures forall f: nat :: 1024 * i <= f < 1024 * i + 1024 || f in old(Loose()) ==> f in Loose()
      ensures Ordinary(1024 * i + 1024)
    {
      hide Linked;
      FilledQueues(|pages| / 1024, i);
      var j := 0;
      while j < 1024
        invariant 0 <= j <= 1024 && zone == old(zone) && Linked()
        invariant forall f :: 0 <= f < 1024 * i ==> Table()[f] == old(Table()[f])
        invariant forall f :: 1024 * i <= f < 1024 * i + j ==> Table()[f] == Fields(base + 4096 * f, 0, true)
        invariant forall f: nat :: 1024 * i <= f < 1024 * i + j || f in old(Loose()) ==> f in Loose()
        invariant Ordinary(1024 * i + j)
      {
        ClearPage(1024 * i + j);
        j := j + 1;
      }
    }

    /** The Add at the end of a block. */
    method QueueTop(i: nat)
      requires Linked() && 1024 * i < |pages| && zone == Filled(|pages| / 1024, i) && 1024 * i in Loose()
      modifies this`zone, queues, pages`next, pages`previous
      ensures zone == Filled(|pages| / 1024, i + 1) && Linked() && Table() == old(Table())
      ensures forall f: nat :: f in old(Loose()) && f % 1024 != 0 ==> f in Loose()
      ensures forall n :: old(Ordinary(n)) ==> Ordinary(n)
    {
      hide Linked, Table, Loose, Filled, PageQueue.Valid;
      FilledQueues(|pages| / 1024, i);
      FilledApart(i);
      InTables(MaxOrder);
      QueueContents(MaxOrder);
      PushAt(MaxOrder, pages[1024 * i], 1024 * i, Filled(|pages| / 1024, i + 1));
    }

    /** One block of BuddyInit: clear the descriptors, mark the first, Add it. */
    method InitBlock(i: nat)
      requires Linked() && Ready(Table(), Loose(), base, i) && 1024 * i + 1024 <= |pages| && Ordinary(1024 * i)
      requires zone == Filled(|pages| / 1024, i)
      modifies this`zone, queues, pages
      ensures zone == Filled(|pages| / 1024, i + 1) && Linked() && Ready(Table(), Loose(), base, i + 1)
      ensures Ordinary(1024 * i + 1024)
    {
      hide *;
      ghost var t0, l0 := Table(), Loose();
      ClearBlock(i);
      ghost var t1, l1 := Table(), Loose();
      SetTopOrder(1024 * i);
      QueueTop(i);
      ReadyNext(t0, l0, t1, l1, Loose(), base, i);
    }

    lemma FilledApart(i: nat)
      requires Linked() && zone == Filled(|pages| / 1024, i) && 1024 * i < |pages|
      ensures Apart(MaxOrder)
      ensures forall j :: 0 <= j < |queues| ==> pages[1024 * i] !in queues[j].contents
    {
      FilledQueues(|pages| / 1024, i);
      forall j: nat | j < |queues|
        ensures pages[1024 * i] !in queues[j].contents
      {
        QueuedPage(j, 1024 * i);
      }
    }

    method SetTopOrder(f: nat)
      requires Linked() && f < |pages|
      modifies pages`order
      ensures Linked() && Table() == old(Table())[f := old(Table())[f].(order := MaxOrder)]
      ensures Loose() == old(Loose()) && forall n :: old(Ordinary(n)) ==> Ordinary(n)
    {
      pages[f].order := MaxOrder;
      forall j | 0 <= j < |queues|
        ensures queues[j].Valid()
      {
        queues[j].StaysValid();
      }
    }

    method ClearPage(f: nat)
      requires Linked() && f < |pages| && !Queued(zone, f)
      modifies pages[f]
      ensures Linked() && Table() == old(Table())[f := Fields(base + 4096 * f, 0, true)]
      ensures Loose() == old(Loose()) + {f} && !pages[f].kmem && !pages[f].swap
    {
      forall j: nat | j < |queues|
        ensures pages[f] !in queues[j].contents
      {
        QueuedPage(j, f);
      }
      pages[f].Clear(base + 4096 * f);
      forall j | 0 <= j < |queues|
        ensures queues[j].Valid()
      {
        queues[j].StaysValid();
      }
    }

    /** Takes the head of queue k into the allocator's hands. */
    method TakeHead(k: nat, ghost f: nat) returns (page: Page)
      requires Valid() && k <= MaxOrder && zone.queues[k] != [] && f == zone.queues[k][0]
      modifies this`zone, queues, pages`next, pages`previous
      ensures zone == Checkout(old(zone), f, k)
      ensures f < |pages| && page == pages[f] && Live(zone, f, k) && Holding(f) && page.free
    {
      ReadyFor(k);
      CheckoutDescribed(Table(), Loose(), base, zone, f, k);
      TableOrder(f);
      page := PopAt(k, Checkout(zone, f, k));
    }

    /** Halves the block in hand and returns the descriptor of its upper half. */
    method SplitPage(page: Page, ghost f: nat, ghost k: nat) returns (upper: Page)
      requires Linked() && Described(Table(), base, zone, f)
      requires f + Pow2(k) < |pages| && page == pages[f] && page.order == k + 1 && page.free
      modifies pages`order, pages`free, pages`address
      ensures Linked() && Loose() == old(Loose())
      ensures upper == pages[f + Pow2(k)] && page.free
      ensures Table() == old(Table())[f := old(Table())[f].(order := k)]
                                     [f + Pow2(k) := Fields(base + 4096 * (f + Pow2(k)), k, true)]
    {
      assert page.address == Table()[f].address;
      assert FrameOf(page) == f;
      var i := FrameOf(page) + Pow2(page.order - 1);
      assert i == f + Pow2(k);
      var r := page.Split(pages[i]);
      upper := r;
      forall j | 0 <= j < |queues|
        ensures queues[j].Valid()
      {
        queues[j].StaysValid();
      }
    }

    lemma SplitRequeues(f: nat, k: nat)
      requires k < |zone.queues|
      ensures Requeued(Split(zone, f, k), k, zone.queues[k] + [f + Pow2(k)])
    {
    }

    lemma LiveNotFree(f: nat)
      requires Valid() && f < |pages|
      ensures f in zone.live <==> !pages[f].free
      ensures Inv(zone) && (f !in zone.live ==> GiveBack(zone, f) == zone)
    {
      TableOrder(f);
    }

    lemma TableOrder(f: nat)
      requires f < |pages|
      ensures Table()[f] == Fields(pages[f].address, pages[f].order, pages[f].free)
    {
    }

    lemma PageOfFrame(f: nat)
      requires f < |pages|
      ensures (base + 4096 * f - base) / 4096 < |pages| && PageOf(base + 4096 * f) == pages[f]
    {
    }

    /** Queues a detached descriptor for which the table is ready; the zone becomes target. */
    method PushFree(k: nat, page: Page, ghost f: nat, ghost target: Zone, ghost hand: int)
      requires Inv(zone) && Linked() && k <= MaxOrder && |zone.queues| == |queues| == MaxOrder + 1
      requires f < |pages| == zone.n && page == pages[f] && f in Loose() && !Queued(zone, f)
      requires Requeued(target, k, zone.queues[k] + [f]) && Inv(target) && Described(Table(), base, target, hand)
      requires forall g: nat :: g < zone.n && !Queued(target, g) ==> g in Loose() && g != f && !Queued(zone, g)
      modifies this`zone, queues, pages`next, pages`previous
      ensures zone == target && Holding(hand) && (hand == -1 ==> Valid())
    {
      hide Valid, Holding, Inv, Linked, Described, Detached, Queued, Table, Loose;
      ghost var loose, was := Loose(), zone;
      ReadyFor(k);
      InTables(k);
      PushAt(k, page, f, target);
      StillDetached(loose, Loose(), was, zone, f, k);
      Whole(hand);
    }

    /** One turn of the split loop: the upper half goes to the tail of its queue. */
    method SplitOff(page: Page, k: nat, ghost f: nat)
      requires Holding(f) && Live(zone, f, k + 1) && f < |pages| && page == pages[f] && page.free
      modifies this`zone, queues, pages`next, pages`previous, pages`order, pages`free, pages`address
      ensures k < MaxOrder && zone == Split(old(zone), f, k) && Live(zone, f, k) && Holding(f) && page.free
    {
      hide *;
      Parts(f);
      SplitDescribed(Table(), Loose(), base, zone, f, k);
      SplitRequeues(f, k);
      TableOrder(f);
      var upper := SplitPage(page, f, k);
      PushFree(k, upper, f + Pow2(k), Split(zone, f, k), f);
    }

    /** pageOf: the descriptor of the frame at a physical address of the zone. */
    function PageOf(address: nat): Page
      requires base <= address && (address - base) / 4096 < |pages|
    {
      pages[(address - base) / 4096]
    }

    /** The block in hand and its detached buddy become one block, on the descriptor of the lower. */
    method Fuse(page: Page, buddy: Page, ghost f: nat, ghost k: nat) returns (result: Page)
      requires Linked() && |Table()| == zone.n && Aligned(f, k) && k < MaxOrder
      requires f < |pages| && page == pages[f] && Buddy(f, k) < |pages| && buddy == pages[Buddy(f, k)]
      requires Table()[f] == Fields(base + 4096 * f, k, true)
      requires Table()[Buddy(f, k)] == Fields(base + 4096 * Buddy(f, k), k, true)
      modifies pages`order
      ensures Linked() && Loose() == old(Loose())
      ensures Head(f, k + 1) < |pages| && result == pages[Head(f, k + 1)]
      ensures Table() == old(Table())[Head(f, k + 1) := old(Table())[Head(f, k + 1)].(order := k + 1)]
    {
      hide Buddy, Head, Aligned, Pow2;
      TableOrder(f);
      TableOrder(Buddy(f, k));
      OneSizeApart(f, k);
      var r := page.Merge(buddy);
      result := r;
      forall j | 0 <= j < |queues|
        ensures queues[j].Valid()
      {
        queues[j].StaysValid();
      }
    }

    lemma OneSizeApart(f: nat, k: nat)
      requires base % (4096 * 1024) == 0 && Aligned(f, k) && k < MaxOrder
      ensures var size, here, there := 4096 * Pow2(k), base + 4096 * f, base + 4096 * Buddy(f, k);
        && Buddy(f, k) != f && (here + size == there || there + size == here)
        && Head(f, k + 1) == if here % (2 * size) == 0 then f else Buddy(f, k)
    {
      BuddyPair(f, k);
      AddressAligned(base, f, k);
      HeadUnique(f, f, k + 1);
    }

    /** The free buddy leaves its queue. */
    method TakeBuddy(buddy: Page, k: nat, ghost f: nat)
      requires Holding(f) && Live(zone, f, k) && f < |pages| && Table()[f].free
      requires k < MaxOrder && Aligned(f, k) && Free(zone, Buddy(f, k), k)
      requires Buddy(f, k) < |pages| && buddy == pages[Buddy(f, k)]
      modifies this`zone, queues, pages`next, pages`previous
      ensures zone == Merge(old(zone), f, k)
      ensures Linked() && Table() == old(Table()) && Detached(Loose(), zone)
    {
      MergeDescribed(Table(), Loose(), base, zone, f, k);
      ReadyFor(k);
      TakeAwayAt(k, buddy, Buddy(f, k), Merge(zone, f, k));
    }

    /** One turn of the coalescing loop. */
    method Absorb(page: Page, buddy: Page, k: nat, ghost f: nat) returns (result: Page)
      requires Holding(f) && Live(zone, f, k) && f < |pages| && page == pages[f] && Table()[f].free
      requires k < MaxOrder && Aligned(f, k) && Free(zone, Buddy(f, k), k)
      requires Buddy(f, k) < |pages| && buddy == pages[Buddy(f, k)]
      modifies this`zone, queues, pages`next, pages`previous, pages`order
      ensures zone == Merge(old(zone), f, k)
      ensures var h := Head(f, k + 1);
        h < |pages| && result == pages[h] && result.free && Live(zone, h, k + 1) && Holding(h)
        && result.order == k + 1 && Aligned(h, k + 1)
    {
      MergeDescribed(Table(), Loose(), base, zone, f, k);
      TakeBuddy(buddy, k, f);
      result := Fuse(page, buddy, f, k);
      LiveOrder(zone, Head(f, k + 1), k + 1);
      assert result.order == Table()[Head(f, k + 1)].order;
    }

    /** The block in hand goes to the tail of its queue. */
    method Queue(page: Page, k: nat, ghost f: nat)
      requires Holding(f) && Live(zone, f, k) && f < |pages| && page == pages[f] && page.free
      requires k <= MaxOrder && Aligned(f, k) && (k < MaxOrder ==> !Free(zone, Buddy(f, k), k))
      modifies this`zone, queues, pages`next, pages`previous
      ensures zone == Release(old(zone), f, k) && Valid()
    {
      assert Table()[f].free;
      Parts(f);
      hide Valid, Holding, Inv, Linked, Described, Detached, Queued, Table, Loose;
      ReleaseDescribed(Table(), Loose(), base, zone, f, k);
      PushFree(k, page, f, Release(zone, f, k), -1);
    }

    method WriteFree(page: Page, value: bool, ghost f: nat)
      requires Linked() && f < |pages| && page == pages[f]
      modifies page`free
      ensures Linked() && Loose() == old(Loose())
      ensures Table() == old(Table())[f := old(Table())[f].(free := value)]
    {
      page.free := value;
      forall j | 0 <= j < |queues|
        ensures queues[j].Valid()
      {
        queues[j].StaysValid();
      }
    }

    /** Sets or clears the FREE flag of the block in hand. */
    method SetFree(page: Page, value: bool, ghost f: nat)
      requires Holding(f) && f < |pages| && page == pages[f] && f in zone.live
      modifies page`free
      ensures Holding(f) && Table() == old(Table())[f := old(Table())[f].(free := value)]
      ensures !value ==> Valid()
    {
      FlagDescribed(Table(), base, zone, f, value);
      WriteFree(page, value, f);
    }

    /** The search loop: the smallest order that is large enough and has a free block. */
    method FindOrder(size: nat, ghost k: nat) returns (ord: nat)
      requires Linked() && k <= MaxOrder && size == Pow2(k)
      ensures ord == FitOrder(zone, k) && queues[ord].size == |zone.queues[ord]|
    {
      ord := 0;
      while ord < MaxOrder && !(Pow2(ord) >= size && queues[ord].size != 0)
        invariant 0 <= ord <= MaxOrder
        invariant forall j :: k <= j < ord && j < |zone.queues| ==> zone.queues[j] == []
      {
        PowersOrdered(k, ord);
        ord := ord + 1;
      }
      PowersOrdered(k, ord);
      FitOrderIs(zone, k, ord);
    }

    /** The split loop. */
    method SplitTo(page: Page, from: nat, size: nat, ghost k: nat, ghost f: nat)
      requires Holding(f) && Live(zone, f, from) && f < |pages| && page == pages[f] && page.free
      requires k <= from <= MaxOrder && size == Pow2(k) && |zone.queues| == MaxOrder + 1
      modifies this`zone, queues, pages`next, pages`previous, pages`order, pages`free, pages`address
      ensures zone == SplitDown(old(zone), f, from, k)
      ensures Holding(f) && Live(zone, f, k)
    {
      hide Holding;
      var ord := from;
      while Pow2(ord) > size
        invariant k <= ord <= from && Holding(f) && Live(zone, f, ord) && |zone.queues| == MaxOrder + 1 && page.free
        invariant SplitDown(zone, f, ord, k) == SplitDown(old(zone), f, from, k)
      {
        PowersOrdered(k, ord);
        ord := ord - 1;
        SplitOff(page, ord, f);
      }
      PowersOrdered(k, ord);
    }

    method AllocatePhysMemory4KPages(amount: nat) returns (page: Page?)
      requires Valid() && amount < WordSize
      modifies this`zone, queues, pages`next, pages`previous, pages`order, pages`free, pages`address
      ensures Valid() && zone == Alloc(old(zone), amount).0
      ensures Alloc(old(zone), amount).1 == None ==> page == null
      ensures var r := Alloc(old(zone), amount).1;
        r.Some? ==> r.value < |pages| && page == pages[r.value] && page.order == CeilLog2(amount) && !page.free
    {
      if amount == 0 || amount > MaxPages {
        return null;
      }
      var size := AlignTwoExponent(amount);
      ghost var k := CeilLog2(amount);
      SizeIsPower(amount);
      var ord := FindOrder(size, k);
      if queues[ord].size == 0 {
        return null;
      }
      page := TakeBlock(ord, size, k, zone.queues[ord][0]);
    }

    /** Takes the head of queue ord and cuts it down to order k. */
    method TakeBlock(ord: nat, size: nat, ghost k: nat, ghost f: nat) returns (page: Page)
      requires Valid() && k <= ord <= MaxOrder && size == Pow2(k) && |zone.queues| == MaxOrder + 1
      requires zone.queues[ord] != [] && f == zone.queues[ord][0]
      modifies this`zone, queues, pages`next, pages`previous, pages`order, pages`free, pages`address
      ensures Valid() && zone == SplitDown(Checkout(old(zone), f, ord), f, ord, k)
      ensures f < |pages| && page == pages[f] && page.order == k && !page.free
    {
      page := TakeHead(ord, f);
      SplitTo(page, ord, size, k, f);
      assert Table()[f].order == k;
      SetFree(page, false, f);
      assert !Table()[f].free && Table()[f].order == k;
    }

    /** pageOf on the address of the other half, and the test of its descriptor. */
    method FreeBuddyOf(block: Page, ghost f: nat, ghost k: nat) returns (buddy: Page?)
      requires Holding(f) && Live(zone, f, k) && f < |pages| && block == pages[f] && k < MaxOrder
      ensures Aligned(f, k) && Buddy(f, k) < |pages|
      ensures buddy == if Free(zone, Buddy(f, k), k) then pages[Buddy(f, k)] else null
    {
      hide Holding, Inv, Linked, Described, Detached, Table, Loose, Live, Free, Buddy, Aligned, PageOf;
      Parts(f);
      BuddyAddress(Table(), base, zone, f, k);
      TableOrder(f);
      TableOrder(Buddy(f, k));
      PageOfFrame(Buddy(f, k));
      var size := block.Size();
      assert size == 4096 * Pow2(k);
      hide Pow2;
      var address := if block.address % (2 * size) == 0 then block.address + size else block.address - size;
      buddy := PageOf(address);
      if !buddy.free || buddy.order != block.order {
        buddy := null;
      }
    }

    /** The coalescing loop and the final push. */
    method CoalesceAndQueue(page: Page, ghost f: nat, ghost o: nat)
      requires Holding(f) && Live(zone, f, o) && f < |pages| && page == pages[f] && page.free
      requires page.order == o <= MaxOrder && Aligned(f, o) && |zone.queues| == MaxOrder + 1
      modifies this`zone, queues, pages`next, pages`previous, pages`order
      ensures Valid() && zone == Coalesce(old(zone), f, o)
    {
      hide *;
      ghost var g: nat, k: nat := f, o;
      var block := page;
      var buddy := BuddyToMerge(block, g, k);
      while buddy != null
        invariant Holding(g) && Live(zone, g, k) && g < |pages| && block == pages[g] && block.free
        invariant block.order == k <= MaxOrder && Aligned(g, k) && |zone.queues| == MaxOrder + 1
        invariant Coalesce(zone, g, k) == Coalesce(old(zone), f, o)
        invariant k < MaxOrder && Free(zone, Buddy(g, k), k) <==> buddy != null
        invariant buddy != null ==> Buddy(g, k) < |pages| && buddy == pages[Buddy(g, k)]
        decreases MaxOrder - block.order
      {
        CoalesceUnfolds(zone, g, k);
        block := Absorb(block, buddy, block.order, g);
        g, k := Head(g, k + 1), k + 1;
        buddy := BuddyToMerge(block, g, k);
      }
      CoalesceUnfolds(zone, g, k);
      Queue(block, block.order, g);
    }

    /** The loop's test: the order is below the bound and the buddy is free. */
    method BuddyToMerge(block: Page, ghost f: nat, ghost k: nat) returns (buddy: Page?)
      requires Holding(f) && Live(zone, f, k) && f < |pages| && block == pages[f] && block.order == k
      requires Aligned(f, k)
      ensures k < MaxOrder && Free(zone, Buddy(f, k), k) <==> buddy != null
      ensures buddy != null ==> Buddy(f, k) < |pages| && buddy == pages[Buddy(f, k)]
    {
      hide *;
      buddy := null;
      if block.order < MaxOrder {
        buddy := FreeBuddyOf(block, f, k);
      }
    }

    /** Any descriptor of the table may be passed: only the first one of a live block is not flagged
        free, so a second free, or one of a page inside a block, changes nothing. */
    method FreePhysMemory4KPages(page: Page, ghost f: nat)
      requires Valid() && f < |pages| && page == pages[f]
      modifies this`zone, queues, pages`next, pages`previous, pages`order, pages`free
      ensures Valid()
      ensures zone == if old(page.kmem || page.swap) then old(zone) else GiveBack(old(zone), f)
      ensures old(page.kmem || page.swap) || f !in old(zone).live ==> Table() == old(Table())
    {
      TableOrder(f);
      LiveNotFree(f);
      if page.free || page.kmem || page.swap {
        return;
      }
      LiveOrder(zone, f, zone.live[f]);
      assert page.order == Table()[f].order;
      SetFree(page, true, f);
      assert page.order == Table()[f].order;
      CoalesceAndQueue(page, f, zone.live[f]);
    }

    // ----- what a caller gets -----

    lemma ValidInv()
      requires Valid()
      ensures Inv(zone) && |zone.queues| == MaxOrder + 1 && |pages| == zone.n
    {
    }

    /** Freeing what an allocation returned brings back the same live and free blocks. */
    method AllocateAndFree(amount: nat) returns (page: Page?)
      requires Valid() && Ordinary(|pages|) && amount < WordSize
      modifies this`zone, queues, pages`next, pages`previous, pages`order, pages`free, pages`address
      ensures Valid() && Ordinary(|pages|)
      ensures zone.live == old(zone).live && forall f: nat, k: nat :: Free(zone, f, k) <==> Free(old(zone), f, k)
    {
      hide Valid, Inv, Alloc, GiveBack, Free, Table, TakenFrom, FitOrder, CeilLog2;
      ghost var z := zone;
      ValidInv();
      AllocIsBestFit(z, amount);
      page := AllocatePhysMemory4KPages(amount);
      if page != null {
        FreeUndoesAlloc(z, amount);
        FreePhysMemory4KPages(page, Alloc(z, amount).1.value);
      }
    }

    /** One call on one of the allocator's own pages. */
    method Perform(op: Op)
      requires Valid() && Ordinary(|pages|) && (op.AllocOp? ==> op.amount < WordSize)
      modifies this`zone, queues, pages`next, pages`previous, pages`order, pages`free, pages`address
      ensures Valid() && Ordinary(|pages|)
      ensures Inv(old(zone)) && zone == Step(old(zone), op)
    {
      hide Valid, Inv, Alloc, GiveBack, Free, Table;
      ValidInv();
      match op {
        case AllocOp(amount) => var _ := AllocatePhysMemory4KPages(amount);
        case FreeOp(f) =>
          OutsideIsNotLive(zone, f);
          if f < |pages| {
            FreePhysMemory4KPages(pages[f], f);
          }
      }
    }

    /** Initialisation followed by any sequence of calls on the allocator's own pages runs the zone
        through the same sequence: no free is refused for a flag. */
    static method PerformAll(base: nat, pages: seq<Page>, ops: seq<Op>) returns (a: BuddyAlloc)
      requires base % (4096 * 1024) == 0 && |pages| % 1024 == 0 && Distinct(pages)
      requires forall i :: 0 <= i < |ops| && ops[i].AllocOp? ==> ops[i].amount < WordSize
      modifies pages
      ensures a.pages == pages && fresh(a.queues) && fresh(a) && a.Valid() && a.Ordinary(|pages|)
      ensures a.zone == Run(|pages| / 1024, ops)
    {
      hide *;
      RunUnfolds(|pages| / 1024, []);
      a := new BuddyAlloc(base, pages);
      var i := 0;
      while i < |ops|
        invariant 0 <= i <= |ops| && a.pages == pages && fresh(a.queues) && fresh(a) && a.Valid() && a.Ordinary(|pages|)
        invariant a.zone == Run(|pages| / 1024, ops[..i])
      {
        RunUnfolds(|pages| / 1024, ops[..i + 1]);
        assert ops[..i + 1][..i] == ops[..i];
        a.Perform(ops[i]);
        i := i + 1;
      }
      assert ops[..i] == ops;
    }
  }

  lemma OutsideIsNotLive(z: Zone, f: nat)
    requires Inv(z)
    ensures f >= z.n ==> GiveBack(z, f) == z
  {
    assert f in z.live ==> Block(z, f, z.live[f]);
  }

  lemma RunUnfolds(m: nat, ops: seq<Op>)
    ensures ops == [] ==> Run(m, ops) == Initial(m)
    ensures ops != [] ==> Run(m, ops) == Step(Run(m, ops[..|ops| - 1]), ops[|ops| - 1])
  {
  }

  /** After a push on queue k, frames on no queue are still without links. */
  lemma StillDetached(l0: set<nat>, l1: set<nat>, z: Zone, w: Zone, f: nat, k: nat)
    requires w.n == z.n
    requires forall g: nat :: g < z.n && !Queued(w, g) ==> g in l0 && g != f && !Queued(z, g)
    requires forall g :: g in l0 && g != f && !Free(z, g, k) ==> g in l1
    ensures Detached(l1, w)
  {
  }

  lemma RemoveDrops(q: seq<nat>, f: nat) returns (i: nat)
    requires Distinct(q) && f in q
    ensures i < |q| && q[i] == f && Dropped(q, i, Remove(q, f))
  {
    i :| 0 <= i < |q| && q[i] == f;
    RemoveAt(q, i);
    hide Remove, Distinct;
  }

  // ----- the descriptors follow the zone through each transition -----

  lemma StillUnqueued(z: Zone, w: Zone, f: nat)
    requires forall g: nat, j: nat :: Free(z, g, j) && g != f ==> Free(w, g, j)
    ensures forall g: nat :: g != f && !Queued(w, g) ==> !Queued(z, g)
  {
    forall g: nat | g != f && Queued(z, g)
      ensures Queued(w, g)
    {
      var j: nat :| Free(z, g, j);
      assert Free(w, g, j);
    }
  }

  lemma CheckoutDescribed(t: seq<Fields>, loose: set<nat>, base: nat, z: Zone, f: nat, k: nat)
    requires Inv(z) && Free(z, f, k) && Described(t, base, z, -1) && Detached(loose, z)
    ensures var w := Checkout(z, f, k);
      && Inv(w) && w.n == z.n && Live(w, f, k) && Described(t, base, w, f) && f < |t| && t[f].free
      && forall g: nat :: g < z.n && !Queued(w, g) ==> g == f || (g in loose && !Queued(z, g))
  {
    CheckoutKeeps(z, f, k);
    StillUnqueued(z, Checkout(z, f, k), f);
  }

  lemma SplitDescribed(t: seq<Fields>, loose: set<nat>, base: nat, z: Zone, f: nat, k: nat)
    requires Inv(z) && Live(z, f, k + 1) && Described(t, base, z, f) && Detached(loose, z)
    ensures k < MaxOrder && f + Pow2(k) < z.n && t[f].order == k + 1
    ensures var w, b := Split(z, f, k), f + Pow2(k);
      && Inv(w) && w.n == z.n && Live(w, f, k)
      && Described(t[f := t[f].(order := k)][b := Fields(base + 4096 * b, k, true)], base, w, f)
      && !Queued(z, b) && b in loose
      && forall g: nat :: g < z.n && !Queued(w, g) ==> g in loose && g != b && !Queued(z, g)
  {
    SplitKeeps(z, f, k);
    UpperUnused(z, f, k);
    LiveOrder(z, f, k + 1);
    hide Inv, Described, Detached;
    var w, b := Split(z, f, k), f + Pow2(k);
    StillUnqueued(z, w, b);
    SplitTable(t, base, z, f, k);
    DetachedFrames(loose, z);
    assert Free(w, b, k);
  }

  lemma DetachedFrames(loose: set<nat>, z: Zone)
    requires Detached(loose, z)
    ensures forall g: nat :: g < z.n && !Queued(z, g) ==> g in loose
  {
  }

  /** The upper half of a block in hand is on no queue and in no one's hands. */
  lemma UpperUnused(z: Zone, f: nat, k: nat)
    requires Inv(z) && Live(z, f, k + 1)
    ensures var b := f + Pow2(k); b < z.n && !Queued(z, b) && b !in z.live
    ensures forall j: nat :: !Free(z, f, j)
  {
    SplitHalves(z, f, k);
    var b := f + Pow2(k);
    if b in z.live {
      assert Block(z, b, z.live[b]);
    }
    forall j: nat
      ensures !Free(z, b, j)
    {
      assert !Block(z, b, j);
    }
  }

  lemma SplitTable(t: seq<Fields>, base: nat, z: Zone, f: nat, k: nat)
    requires Described(t, base, z, f) && Live(z, f, k + 1) && k < |z.queues|
    requires var b := f + Pow2(k); b < z.n && !Queued(z, b) && b !in z.live
    requires forall g: nat, j: nat :: Free(Split(z, f, k), g, j) <==> Free(z, g, j) || (g == f + Pow2(k) && j == k)
    requires forall j: nat :: !Free(z, f, j)
    ensures t[f].order == k + 1
    ensures var b := f + Pow2(k);
      Described(t[f := t[f].(order := k)][b := Fields(base + 4096 * b, k, true)], base, Split(z, f, k), f)
  {
    assert forall g: nat, j: nat :: Free(z, g, j) ==> Queued(z, g);
    hide Free;
  }

  lemma MergeDescribed(t: seq<Fields>, loose: set<nat>, base: nat, z: Zone, f: nat, k: nat)
    requires Inv(z) && Live(z, f, k) && k < MaxOrder && Aligned(f, k) && Free(z, Buddy(f, k), k)
    requires Described(t, base, z, f) && Detached(loose, z) && f < |t| && t[f].free
    ensures var w, h, b := Merge(z, f, k), Head(f, k + 1), Buddy(f, k);
      && Inv(w) && w.n == z.n && h < |t| && b < |t| && Live(w, h, k + 1)
      && t[f] == Fields(base + 4096 * f, k, true) && t[b] == Fields(base + 4096 * b, k, true)
      && (h == f || h == b)
      && Described(t[h := t[h].(order := k + 1)], base, w, h)
      && forall g: nat :: g < z.n && !Queued(w, g) ==> g == b || (g in loose && !Queued(z, g))
  {
    var w, h, b := Merge(z, f, k), Head(f, k + 1), Buddy(f, k);
    MergeParent(z, f, k);
    MergeKeeps(z, f, k);
    StillUnqueued(z, w, b);
    assert Block(z, b, k);
  }

  lemma ReleaseDescribed(t: seq<Fields>, loose: set<nat>, base: nat, z: Zone, f: nat, k: nat)
    requires Inv(z) && Live(z, f, k) && k <= MaxOrder && Aligned(f, k) && (k < MaxOrder ==> !Free(z, Buddy(f, k), k))
    requires Described(t, base, z, f) && Detached(loose, z) && f < |t| && t[f].free
    ensures var w := Release(z, f, k);
      && Inv(w) && w.n == z.n && Described(t, base, w, -1)
      && !Queued(z, f) && f in loose
      && forall g: nat :: g < z.n && !Queued(w, g) ==> g in loose && g != f && !Queued(z, g)
  {
    var w := Release(z, f, k);
    ReleaseKeeps(z, f, k);
    StillUnqueued(z, w, f);
    assert !Queued(z, f);
    assert Queued(w, f) by {
      assert Free(w, f, k);
    }
  }

  /** Alignment of an address is alignment of its frame, because the zone starts on a 4 MiB
      boundary. */
  lemma AddressAligned(base: nat, f: nat, k: nat)
    requires base % (4096 * 1024) == 0 && k < MaxOrder
    ensures (base + 4096 * f) % (2 * (4096 * Pow2(k))) == 0 <==> Aligned(f, k + 1)
  {
    var B := BaseFrame(base);
    var p := Pow2(k + 1);
    AlignedLower(B, k + 1, 10);
    SumMod(B, f, p);
    ScaledMod(B + f, p);
    SameBytes(base, B, f, k);
  }

  lemma SameBytes(base: nat, B: nat, f: nat, k: nat)
    requires base == 4096 * B
    ensures base + 4096 * f == 4096 * (B + f) && 2 * (4096 * Pow2(k)) == 4096 * Pow2(k + 1)
  {
  }

  lemma BaseFrame(base: nat) returns (B: nat)
    requires base % (4096 * 1024) == 0
    ensures base == 4096 * B && Aligned(B, 10)
  {
    B := 1024 * (base / (4096 * 1024));
    assert Pow2(10) == 1024;
  }

  lemma FilledQueues(m: nat, i: nat)
    ensures forall k :: 0 <= k < MaxOrder ==> Filled(m, i).queues[k] == []
    ensures forall f: nat, k: nat :: Free(Filled(m, i), f, k) <==> k == MaxOrder && f % 1024 == 0 && f < 1024 * i
    ensures forall f: nat :: Queued(Filled(m, i), f) <==> f % 1024 == 0 && f < 1024 * i
    ensures Filled(m, i + 1) ==
              Filled(m, i).(queues := Filled(m, i).queues[MaxOrder := Filled(m, i).queues[MaxOrder] + [1024 * i]])
  {
    var z := Filled(m, i);
    forall f: nat, k: nat
      ensures Free(z, f, k) <==> k == MaxOrder && f % 1024 == 0 && f < 1024 * i
    {
      if f % 1024 == 0 && f < 1024 * i {
        assert z.queues[MaxOrder][f / 1024] == f;
      }
    }
    forall f: nat
      ensures Queued(z, f) <==> f % 1024 == 0 && f < 1024 * i
    {
      assert f % 1024 == 0 && f < 1024 * i ==> Free(z, f, MaxOrder);
    }
  }

  lemma InitialDescribed(t: seq<Fields>, loose: set<nat>, base: nat, m: nat)
    requires |t| == 1024 * m
    requires Ready(t, loose, base, m)
    ensures Described(t, base, Initial(m), -1) && Detached(loose, Initial(m))
  {
    FilledQueues(m, m);
    assert Initial(m) == Filled(m, m);
  }

  lemma FlagDescribed(t: seq<Fields>, base: nat, z: Zone, f: nat, value: bool)
    requires Inv(z) && Described(t, base, z, f) && f in z.live && f < |t|
    ensures Described(t[f := t[f].(free := value)], base, z, f)
    ensures !value ==> Described(t[f := t[f].(free := value)], base, z, -1)
  {
  }

  /** The loop's address arithmetic finds the buddy, and its descriptor's flag and order tell whether
      the buddy is a free block of the same size. */
  lemma BuddyAddress(t: seq<Fields>, base: nat, z: Zone, f: nat, k: nat)
    requires base % (4096 * 1024) == 0
    requires Inv(z) && Live(z, f, k) && k < MaxOrder && Described(t, base, z, f)
    ensures f < |t| && t[f].order == k && Aligned(f, k) && Buddy(f, k) < |t|
    ensures var size := 4096 * Pow2(k);
            var address := if t[f].address % (2 * size) == 0 then t[f].address + size else t[f].address - size;
            address == base + 4096 * Buddy(f, k)
    ensures t[Buddy(f, k)].free && t[Buddy(f, k)].order == k <==> Free(z, Buddy(f, k), k)
  {
    LiveOrder(z, f, k);
    BuddyInZone(z, f, k);
    AddressAligned(base, f, k);
    var b := Buddy(f, k);
    if t[b].free && t[b].order == k {
      var j := BuddyBlock(z, f, k);
    }
  }

  lemma BuddyInZone(z: Zone, f: nat, k: nat)
    requires Inv(z) && Live(z, f, k) && k < MaxOrder && Aligned(f, k)
    ensures Buddy(f, k) < z.n && Buddy(f, k) != f
  {
    LiveOrder(z, f, k);
    BuddyPair(f, k);
    var h := Head(f, k + 1);
    HeadUnique(f, h, k + 1);
    AlignedInside(h, k + 1, z.n);
    HeadUnique(Buddy(f, k), h, k + 1);
  }

  /** Some block of the zone starts at the buddy: none reaches over both halves. */
  lemma BuddyBlock(z: Zone, f: nat, k: nat) returns (j: nat)
    requires Inv(z) && Live(z, f, k) && k < MaxOrder && Aligned(f, k)
    ensures Block(z, Buddy(f, k), j)
  {
    var b := Buddy(f, k);
    BuddyInZone(z, f, k);
    BuddyPair(f, k);
    assert InSomeBlock(z, b);
    j :| Covers(z, b, j);
    BlockCoversItsHead(z, f, k);
    if j > k {
      CoverSpreads(z, b, f, k + 1, j);
    } else {
      AlignedLower(b, j, k);
      HeadUnique(b, b, j);
    }
  }

  lemma CoalesceUnfolds(z: Zone, f: nat, k: nat)
    requires k <= MaxOrder && |z.queues| == MaxOrder + 1 && Aligned(f, k)
    ensures k < MaxOrder && Free(z, Buddy(f, k), k) ==>
      && Aligned(Head(f, k + 1), k + 1) && |Merge(z, f, k).queues| == MaxOrder + 1
      && Coalesce(z, f, k) == Coalesce(Merge(z, f, k), Head(f, k + 1), k + 1)
    ensures !(k < MaxOrder && Free(z, Buddy(f, k), k)) ==> Coalesce(z, f, k) == Release(z, f, k)
  {
    HeadUnique(f, f, k + 1);
  }

  lemma SizeIsPower(amount: nat)
    requires 0 < amount <= MaxPages
    ensures CeilLog2(amount) <= MaxOrder && AlignTwoExponent(amount) == Pow2(CeilLog2(amount))
  {
    OrderInRange(amount);
    AlignTwoExponentIsCeiling(amount);
  }

  lemma PowersOrdered(j: nat, k: nat)
    ensures Pow2(j) <= Pow2(k) <==> j <= k
    ensures Pow2(j) < Pow2(k) <==> j < k
  {
    if j < k {
      Pow2Monotone(j, k);
    } else if k < j {
      Pow2Monotone(k, j);
    }
  }

  lemma {:induction false} FitOrderIs(z: Zone, k: nat, ord: nat)
    requires k <= ord <= MaxOrder && |z.queues| == MaxOrder + 1
    requires forall j :: k <= j < ord ==> z.queues[j] == []
    requires ord < MaxOrder ==> z.queues[ord] != []
    ensures FitOrder(z, k) == ord
    decreases ord - k
  {
    if k < ord {
      FitOrderIs(z, k + 1, ord);
    }
  }

  lemma SumMod(m: nat, f: nat, p: nat)
    requires p > 0 && m % p == 0
    ensures (m + f) % p == f % p
  {
    DivMod(m, p);
    DivMod(f, p);
    var q := m / p + f / p;
    assert m + f == q * p + f % p;
    Quotient(m + f, q, p, f % p);
  }

  lemma ScaledMod(x: nat, p: nat)
    requires p > 0
    ensures (4096 * x) % (4096 * p) == 4096 * (x % p)
  {
    DivMod(x, p);
    var q := x / p;
    assert 4096 * x == q * (4096 * p) + 4096 * (x % p);
    Quotient(4096 * x, q, 4096 * p, 4096 * (x % p));
  }
}
