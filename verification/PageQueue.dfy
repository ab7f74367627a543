/** Page descriptors and the intrusive first-in-first-out queue that links them. */
module PageQueues {
  import opened Powers
  import opened Sequences

  class Page {
    var next: Page?
    var previous: Page?
    var order: nat
    // the flag bits the allocator looks at
    var free: bool
    var kmem: bool
    var swap: bool
    var address: nat

    /** BuddyInit's descriptor: zeroed, then flagged free and given its address. */
    method Clear(address: nat)
      modifies this
      ensures this.address == address && free && !kmem && !swap && order == 0
      ensures next == null && previous == null
    {
      next, previous, order := null, null, 0;
      free, kmem, swap := true, false, false;
      this.address := address;
    }

    /** Page4K::split on the two descriptors it writes: null unless this one is flagged free; otherwise
        it keeps the lower half and upper becomes the free upper half. */
    method Split(upper: Page) returns (newPage: Page?)
      requires upper != this && (free ==> order > 0)
      modifies this`order, upper`order, upper`free, upper`address
      ensures free == old(free)
      ensures !free ==> newPage == null && order == old(order) && upper.order == old(upper.order)
      ensures !free ==> upper.free == old(upper.free) && upper.address == old(upper.address)
      ensures free ==> newPage == upper && order == old(order) - 1
      ensures free ==> upper.order == order && upper.free && upper.address == address + 4096 * Pow2(order)
    {
      if !free {
        return null;
      }
      order := order - 1;
      upper.order := order;
      upper.free := true;
      upper.address := address + 4096 * Pow2(order);
      newPage := upper;
    }

    function Size(): nat
      reads this`order
    {
      4096 * Pow2(order)
    }

    /** Page4K::merge: nothing unless both halves are free and one size apart; otherwise the half on
        the larger alignment takes over the pair. */
    method Merge(other: Page) returns (result: Page?)
      requires other != this
      modifies this`order, other`order
      ensures old(free && other.free && (address + Size() == other.address || other.address + Size() == address)) ==>
        && result == (if address % (2 * old(Size())) == 0 then this else other)
        && result.order == old(result.order) + 1
        && (result != this ==> order == old(order)) && (result != other ==> other.order == old(other.order))
      ensures !old(free && other.free && (address + Size() == other.address || other.address + Size() == address)) ==>
        result == null && order == old(order) && other.order == old(other.order)
    {
      if !(free && other.free) || !(address + Size() == other.address || other.address + Size() == address) {
        return null;
      }
      result := if address % (2 * Size()) == 0 then this else other;
      result.order := result.order + 1;
    }
  }

  ghost function At(s: seq<Page>, i: int): Page? {
    if 0 <= i < |s| then s[i] else null
  }

  lemma DropAt(s: seq<Page>, i: nat) returns (r: seq<Page>)
    requires i < |s|
    ensures Dropped(s, i, r)
  {
    r := s[..i] + s[i + 1..];
  }

  lemma NeighboursAfterDrop(s: seq<Page>, i: nat, r: seq<Page>, j: nat)
    requires i < |s| && Dropped(s, i, r) && j < |r|
    ensures var o := if j < i then j else j + 1;
      && r[j] == s[o] && o != i
      && At(r, j + 1) == At(s, if o + 1 == i then i + 1 else o + 1)
      && At(r, j - 1) == At(s, if o - 1 == i then i - 1 else o - 1)
  {
  }

  lemma EndsAfterDrop(s: seq<Page>, i: nat, r: seq<Page>)
    requires i < |s| && Dropped(s, i, r)
    ensures |r| == |s| - 1 && At(r, 0) == (if i == 0 then At(s, 1) else s[0])
    ensures At(r, |r| - 1) == (if i == |s| - 1 then At(s, i - 1) else s[|s| - 1])
  {
  }

  lemma DroppedDistinct(s: seq<Page>, i: nat, r: seq<Page>)
    requires i < |s| && Dropped(s, i, r) && Distinct(s)
    ensures Distinct(r)
  {
    forall j, k | 0 <= j < k < |r|
      ensures r[j] != r[k]
    {
      assert r[j] == s[if j < i then j else j + 1] && r[k] == s[if k < i then k else k + 1];
    }
  }

  /** The elements of s but element i are linked as if it were not there. */
  ghost predicate Rerouted(s: seq<Page>, i: nat)
    reads s
  {
    && (forall j {:trigger s[j].next} :: 0 <= j < |s| && j != i ==>
          s[j].next == At(s, if j + 1 == i then i + 1 else j + 1))
    && (forall j {:trigger s[j].previous} :: 0 <= j < |s| && j != i ==>
          s[j].previous == At(s, if j - 1 == i then i - 1 else j - 1))
  }

  /** Every element is linked to its neighbours. */
  ghost predicate LinkedUp(s: seq<Page>)
    reads s
  {
    && (forall j {:trigger s[j].next} :: 0 <= j < |s| ==> s[j].next == At(s, j + 1))
    && (forall j {:trigger s[j].previous} :: 0 <= j < |s| ==> s[j].previous == At(s, j - 1))
  }

  lemma LinksAfter(s: seq<Page>, i: nat, r: seq<Page>)
    requires i < |s| && Dropped(s, i, r) && Rerouted(s, i)
    ensures LinkedUp(r)
  {
    forall j: nat | j < |r|
      ensures r[j].next == At(r, j + 1) && r[j].previous == At(r, j - 1)
    {
      NeighboursAfterDrop(s, i, r, j);
      hide At, Dropped;
      assert r[j] == s[if j < i then j else j + 1];
    }
  }

  class PageQueue {
    ghost var contents: seq<Page>
    var head: Page?
    var tail: Page?
    var size: nat

    /** Both chains of links spell out the contents, forwards and backwards. */
    ghost predicate Valid()
      reads this, contents
    {
      && size == |contents|
      && Distinct(contents)
      && head == At(contents, 0)
      && tail == At(contents, |contents| - 1)
      && (forall i {:trigger contents[i].next} :: 0 <= i < |contents| ==> contents[i].next == At(contents, i + 1))
      && (forall i {:trigger contents[i].previous} :: 0 <= i < |contents| ==> contents[i].previous == At(contents, i - 1))
    }

    /** A queue stays well linked when other code touched neither it nor the links of its pages. */
    twostate lemma StaysValid()
      requires old(Valid()) && unchanged(this)
      requires forall i :: 0 <= i < |contents| ==>
                 contents[i].next == old(contents[i].next) && contents[i].previous == old(contents[i].previous)
      ensures Valid()
    {
    }

    constructor ()
      ensures Valid() && contents == []
    {
      contents, head, tail, size := [], null, null, 0;
    }

    /** The source does not clear the links of a pushed page, so it has to come without those that
        are not overwritten; Deviations.PushNeedsDetachedPage says that nothing less will do. */
    method Push(page: Page)
      requires Valid() && page !in contents
      requires page.next == null && (contents == [] ==> page.previous == null)
      modifies this, page`next, page`previous, contents`next, contents`previous
      ensures Valid() && contents == old(contents) + [page]
    {
      if size == 0 {
        head, tail := page, page;
      } else {
        tail.next := page;
        page.previous := tail;
        tail := page;
      }
      size := size + 1;
      contents := contents + [page];
    }

    /** The links of the removed page are cleared here; the source leaves them stale, which breaks
        the queue the page is pushed on next (Deviations.PushNeedsDetachedPage). */
    method Pop() returns (page: Page?)
      requires Valid()
      modifies this, contents`next, contents`previous
      ensures Valid()
      ensures old(contents) == [] ==> page == null && contents == []
      ensures old(contents) != [] ==>
        && page == old(contents)[0] && contents == old(contents)[1..]
        && page.next == null && page.previous == null
    {
      if size == 0 {
        return null;
      }
      page := head;
      head := head.next;
      if head != null {
        head.previous := null;
      } else {
        tail := null;
      }
      page.next := null;
      size := size - 1;
      contents := contents[1..];
    }

    /** The pages but page i are linked as if it were not there. */
    ghost predicate Bypassed(i: nat)
      reads this, contents
    {
      && i < |contents| && Distinct(contents)
      && head == (if i == 0 then At(contents, 1) else contents[0])
      && tail == (if i == |contents| - 1 then At(contents, i - 1) else contents[|contents| - 1])
      && Rerouted(contents, i)
    }

    ghost method Drop(i: nat)
      requires Bypassed(i) && size == |contents| - 1
      modifies this`contents
      ensures Valid() && Dropped(old(contents), i, contents)
    {
      hide *;
      var was := contents;
      BypassedParts(i);
      contents := DropAt(was, i);
      DroppedDistinct(was, i, contents);
      EndsAfterDrop(was, i, contents);
      LinksAfter(was, i, contents);
      Whole();
    }

    lemma BypassedParts(i: nat)
      requires Bypassed(i)
      ensures i < |contents| && Distinct(contents) && Rerouted(contents, i)
      ensures head == (if i == 0 then At(contents, 1) else contents[0])
      ensures tail == (if i == |contents| - 1 then At(contents, i - 1) else contents[|contents| - 1])
    {
    }

    lemma Whole()
      requires size == |contents| && Distinct(contents) && LinkedUp(contents)
      requires head == At(contents, 0) && tail == At(contents, |contents| - 1)
      ensures Valid()
    {
    }

    /** Takes a page out from the head, the middle or the tail. */
    method TakeAway(page: Page, ghost i: nat)
      requires Valid() && i < |contents| && contents[i] == page
      modifies this, contents`next, contents`previous
      ensures Valid() && Dropped(old(contents), i, contents)
      ensures page.next == null && page.previous == null
    {
      Unlink(page, i);
      hide *;
      size := size - 1;
      Drop(i);
    }

    /** The neighbours of the page are linked to each other, or the queue's ends move past it. */
    method Unlink(page: Page, ghost i: nat)
      requires Valid() && i < |contents| && contents[i] == page
      modifies this`head, this`tail, contents`next, contents`previous
      ensures Bypassed(i) && size == |contents| && size > 0
      ensures page.next == null && page.previous == null
    {
      if page.previous != null {
        page.previous.next := page.next;
      } else {
        head := page.next;
      }
      if page.next != null {
        page.next.previous := page.previous;
      } else {
        tail := page.previous;
      }
      page.next, page.previous := null, null;
    }
  }
}
