/** Where the source's text and its evident intent part ways: what the text does, on exactly which
    inputs that is what was meant, and inputs on which it is not. The other modules model the intent;
    each of them names the lemma here that says so. */
module Deviations {
  import opened Options
  import opened Powers
  import opened Sequences
  import opened Words
  import opened Bitmaps
  import opened BuddyZone
  import opened BuddyRuns
  import opened Paging
  import BuddyAllocator
  import UserPages

  // ----- bitmap -----

  /** `1 << n` on a 32-bit int: the count is taken modulo 32 by the processor, and the sign bit is
      extended when the result meets a 64-bit word. */
  function WrittenMask(n: nat): nat
    requires n < 64
  {
    if n % 32 == 31 then WordSize - 0x8000_0000 else Pow2(n % 32)
  }

  /** The literal mask is the wanted one for bits 0 to 30 only. */
  lemma WrittenMaskIsRight(n: nat)
    requires n < 64
    ensures WrittenMask(n) == Mask(n) <==> n < 31
  {
    if n >= 32 {
      HighMask(n);
    } else if n == 31 {
      WordPowers();
      Pow2Monotone(n, 32);
    }
  }

  lemma HighMask(n: nat)
    requires 32 <= n < 64
    ensures WrittenMask(n) != Mask(n)
  {
    WordPowers();
    hide Pow2;
    if n == 63 {
    } else if n % 32 < 31 {
      Pow2Monotone(n % 32, n);
    }
  }

  /** One turn of clearAll: its bit branch does not count down. cleared collects the positions; touched
      says which of them the bit branch clears, whatever its mask is. */
  datatype ClearLoop = ClearLoop(pos: nat, amount: nat, cleared: set<nat>)

  function ClearTurn(c: ClearLoop, touched: nat -> set<nat>): ClearLoop {
    if c.pos % 64 == 0 && c.amount >= 64 then
      ClearLoop(c.pos + 64, c.amount - 64, c.cleared + Range(c.pos, c.pos + 64))
    else
      ClearLoop(c.pos + 1, c.amount, c.cleared + touched(c.pos))
  }

  function Range(low: nat, high: nat): set<nat> {
    set x: nat | x < high && Between(low, x, high)
  }

  predicate Between(low: nat, x: nat, high: nat) {
    low <= x < high
  }

  /** The loop state after n turns, or earlier when the loop ends. */
  function ClearTurns(c: ClearLoop, touched: nat -> set<nat>, n: nat): ClearLoop
    decreases n
  {
    if n == 0 || c.amount == 0 then c else ClearTurns(ClearTurn(c, touched), touched, n - 1)
  }

  function WordUp(pos: nat): nat {
    (pos + 63) / 64 * 64
  }

  lemma NextInWord(pos: nat)
    ensures pos <= WordUp(pos) && (pos % 64 != 0 ==> pos < WordUp(pos) == WordUp(pos + 1))
  {
  }

  lemma {:induction false} AmountMod(c: ClearLoop, touched: nat -> set<nat>, n: nat)
    ensures var d := ClearTurns(c, touched, n);
      d.amount % 64 == c.amount % 64 && (c.amount % 64 != 0 ==> d.pos >= c.pos + n)
    decreases n
  {
    if n > 0 && c.amount > 0 {
      AmountMod(ClearTurn(c, touched), touched, n - 1);
    }
  }

  lemma {:induction false} ClearEnds(c: ClearLoop, touched: nat -> set<nat>) returns (n: nat)
    requires c.amount % 64 == 0
    ensures ClearTurns(c, touched, n).amount == 0
    decreases c.amount, WordUp(c.pos) - c.pos
  {
    n := 0;
    NextInWord(c.pos);
    hide WordUp;
    if c.amount > 0 {
      n := ClearEnds(ClearTurn(c, touched), touched);
      n := n + 1;
    }
  }

  /** Bits up to the next word, then whole words: the bit branch adds nothing if there are none. */
  lemma {:induction false} ClearOutcome(c: ClearLoop, touched: nat -> set<nat>, n: nat)
    requires c.amount % 64 == 0 && c.amount > 0 && ClearTurns(c, touched, n).amount == 0
    ensures var d := ClearTurns(c, touched, n);
      && d.pos == WordUp(c.pos) + c.amount
      && c.cleared + Range(WordUp(c.pos), WordUp(c.pos) + c.amount) <= d.cleared
      && (c.pos % 64 == 0 ==> d.cleared == c.cleared + Range(c.pos, c.pos + c.amount))
    decreases n
  {
    var d := ClearTurn(c, touched);
    if d.amount > 0 {
      ClearOutcome(d, touched, n - 1);
    }
  }

  /** clearAll as written ends exactly when a multiple of 64 is asked for; otherwise it runs past every
      bound. When it ends it has not left a bitmap of whole words that holds the range, and has cleared
      exactly the range if and only if that starts on a word or is empty. None of this depends on
      whether the mask is the intended one. */
  lemma ClearAllAsWritten(pos: nat, amount: nat, touched: nat -> set<nat>, size: nat)
    requires size % 64 == 0 && pos + amount <= size
    ensures (exists n: nat :: ClearTurns(ClearLoop(pos, amount, {}), touched, n).amount == 0) <==> amount % 64 == 0
    ensures amount % 64 != 0 ==> ClearTurns(ClearLoop(pos, amount, {}), touched, size).pos >= size
    ensures forall n: nat :: ClearTurns(ClearLoop(pos, amount, {}), touched, n).amount == 0 ==>
              && ClearTurns(ClearLoop(pos, amount, {}), touched, n).pos <= size
              && (ClearTurns(ClearLoop(pos, amount, {}), touched, n).cleared == Range(pos, pos + amount)
                  <==> pos % 64 == 0 || amount == 0)
  {
    var c := ClearLoop(pos, amount, {});
    hide *;
    if amount % 64 == 0 {
      var n := ClearEnds(c, touched);
    }
    AmountMod(c, touched, size);
    forall n: nat
      ensures ClearTurns(c, touched, n).amount == 0 ==>
        && amount % 64 == 0 && ClearTurns(c, touched, n).pos <= size
        && (ClearTurns(c, touched, n).cleared == Range(pos, pos + amount) <==> pos % 64 == 0 || amount == 0)
    {
      ClearVerdict(c, touched, size, n);
    }
  }

  lemma ClearVerdict(c: ClearLoop, touched: nat -> set<nat>, size: nat, n: nat)
    requires size % 64 == 0 && c.pos + c.amount <= size && c.cleared == {}
    ensures ClearTurns(c, touched, n).amount == 0 ==>
      && c.amount % 64 == 0 && ClearTurns(c, touched, n).pos <= size
      && (ClearTurns(c, touched, n).cleared == Range(c.pos, c.pos + c.amount) <==> c.pos % 64 == 0 || c.amount == 0)
  {
    AmountMod(c, touched, n);
    if ClearTurns(c, touched, n).amount == 0 && c.amount > 0 {
      ClearOutcome(c, touched, n);
      hide ClearTurns;
      if c.pos % 64 != 0 {
        assert c.pos + c.amount in Range(WordUp(c.pos), WordUp(c.pos) + c.amount);
        assert c.pos + c.amount !in Range(c.pos, c.pos + c.amount);
      }
    }
  }

  /** One index of at() as written masks with the row length (or count) itself. It is the intended
      remainder exactly for multiples of twice that; otherwise it is 0, or lies outside. */
  lemma WrittenIndex(w: nat, k: nat)
    ensures And(w, Pow2(k)) == w % Pow2(k) <==> w % Pow2(k + 1) == 0
    ensures And(w, Pow2(k)) == 0 || And(w, Pow2(k)) == Pow2(k)
  {
    MaskedPower(w, k);
    DivTwiceUp(w, Pow2(k));
    ShiftIsDivision(w, k);
  }

  /** at() reaches the word it should, in a bitmap of 2^k rows of 2^j words, for word 0 and no other:
      the row number is masked in the same way. With 2048 words in each of 1024 rows that leaves the
      first 64 pages. */
  lemma WrittenCell(w: nat, j: nat, k: nat)
    requires w < Pow2(j) * Pow2(k)
    ensures And(w, Pow2(j)) == PlaceOf(w, Pow2(j)) && And(RowOf(w, Pow2(j)), Pow2(k)) == PlaceOf(RowOf(w, Pow2(j)), Pow2(k))
            <==> w == 0
  {
    var row := RowOf(w, Pow2(j));
    WrittenIndex(w, j);
    WrittenIndex(row, k);
    RowInRange(w, Pow2(j), Pow2(k));
    hide And, Pow2;
    LowestWord(w, row, j, k);
  }

  lemma LowestWord(w: nat, row: nat, j: nat, k: nat)
    requires row == w / Pow2(j) < Pow2(k)
    ensures w % Pow2(j + 1) == 0 && row % Pow2(k + 1) == 0 <==> w == 0
  {
    Pow2Monotone(k, k + 1);
    Quotient(row, 0, Pow2(k + 1), row);
    if row == 0 {
      DivMod(w, Pow2(j));
      Pow2Monotone(j, j + 1);
      Quotient(w, 0, Pow2(j + 1), w);
    }
    if w == 0 {
      Quotient(w, 0, Pow2(j), 0);
      Quotient(w, 0, Pow2(j + 1), 0);
    }
  }

  lemma {:induction false} MaskedPower(w: nat, k: nat)
    ensures And(w, Pow2(k)) == if BitN(w, k) then Pow2(k) else 0
    decreases k
  {
    if k > 0 {
      MaskedPower(w / 2, k - 1);
    } else {
      assert And(w / 2, 0) == 0;
    }
  }

  lemma DivTwiceUp(w: nat, p: nat)
    requires p > 0
    ensures w % (2 * p) == w % p + p * ((w / p) % 2)
  {
    DivMod(w, p);
    var q := w / p;
    assert w == (q / 2) * (2 * p) + (p * (q % 2) + w % p) by {
      assert q == 2 * (q / 2) + q % 2;
    }
    Quotient(w, q / 2, 2 * p, p * (q % 2) + w % p);
  }

  /** Position 0 is also what findFree returns when it finds nothing: the caller cannot tell, except
      by knowing whether the run at 0 was clear. Any other result is a success. */
  lemma ZeroIsAmbiguous(words: seq<Word>, amount: nat, start: nat)
    requires if SomeRun(words, amount) then FirstFit(words, amount, start) else start == 0
    ensures SomeRun(words, amount) <==> start > 0 || ClearRun(words, 0, amount)
  {
    if ClearRun(words, 0, amount) {
      assert SomeRun(words, amount);
    }
  }

  // ----- page-table entries -----

  /** address() keeps the page offset bits in a field that starts at bit 12, so the processor shifts
      them once more: the entry points where it should for address 0 and for no other page. */
  lemma AddressFieldIsRight(addr: Word)
    requires addr % 4096 == 0 && addr < 0x1_0000_0000_0000
    ensures 4096 * (And(addr, PAGE_FRAME) % 0x100_0000_0000) == addr <==> addr == 0
  {
    AlignedAddress(addr);
    hide And;
    var b := addr / 4096;
    assert addr == 4096 * b;
    FortyBits();
    if (4096 * b) % 0x100_0000_0000 == b {
      var p: nat := 0x100_0000_0000;
      assert 4096 * b == (4096 * b) / p * p + b;
      assert 4095 * b == (4096 * b) / p * p;
      Quotient(4095 * b, (4096 * b) / p, p, 0);
      OddFactor(4095, b, 40);
    }
  }

  lemma FortyBits()
    ensures Pow2(40) == 0x100_0000_0000
  {
    WordPowers();
    assert Pow2(8) == 256;
    Pow2Sum(8, 32);
  }

  /** A power of two that divides an odd multiple of b divides b. */
  lemma {:induction false} OddFactor(odd: nat, b: nat, k: nat)
    requires odd % 2 == 1 && (odd * b) % Pow2(k) == 0
    ensures b % Pow2(k) == 0
    decreases k
  {
    if k > 0 {
      var p, c := Pow2(k - 1), b / 2;
      var x := odd * b;
      DivTwice(x, p);
      OddProduct(odd, b);
      assert x / 2 == odd * c;
      OddFactor(odd, c, k - 1);
      DivTwice(b, p);
    }
  }

  lemma OddProduct(odd: nat, b: nat)
    requires odd % 2 == 1
    ensures (odd * b) % 2 == b % 2
    ensures b % 2 == 0 ==> (odd * b) / 2 == odd * (b / 2)
  {
    var o, c := odd / 2, b / 2;
    assert odd == 2 * o + 1;
    assert odd * b == 2 * (o * b) + b;
    assert b % 2 == 0 ==> odd * b == 2 * (odd * c);
  }

  /** The translation as written, `entry & PAGE_FRAME + offset`, on an entry mapped present and
      writable: right for the first four bytes of the page only. */
  lemma TranslatesFourBytes(e: Word, off: nat)
    requires off < 4096 && e % 4096 == 3
    ensures And(e, PAGE_FRAME + off) == And(e, PAGE_FRAME) + off <==> off < 4
  {
    PrecedenceSlip(e, off);
    hide And;
    assert Pow2(2) == 4;
    AndCommutes(3, off);
    AndLow(off, 2);
    LowBelow(off, 2);
  }

  lemma {:induction false} AndCommutes(a: nat, b: nat)
    ensures And(a, b) == And(b, a)
  {
    if a != 0 && b != 0 {
      AndCommutes(a / 2, b / 2);
    }
  }

  /** The address that alloc4KPages returns is the one past its range: it is mapped exactly when that
      page exists and belonged to an earlier allocation. */
  lemma ReturnedPageIsNotOurs(w1: seq<Word>, w2: seq<Word>, s: UserPages.Space, start: nat, n: nat, f: UserPages.Flags)
    requires UserPages.Nested(s) && UserPages.Agree(w1, s)
    requires FirstFit(w1, n, start) && RangeSet(w1, w2, start, n)
    ensures UserPages.Walk(UserPages.MapRange(s, start, n, f), start + n).present
            <==> start + n < UserPages.Capacity && Bit(w1, start + n)
  {
    UserPages.AllocationAgrees(w1, w2, s, start, n, f);
  }

  // ----- the page queue -----

  /** A queue and the links of all pages, by descriptor number; a null link is absent. */
  datatype Links = Links(head: Option<nat>, tail: Option<nat>, size: nat, next: map<nat, nat>, previous: map<nat, nat>)

  ghost predicate Spells(q: Links, s: seq<nat>) {
    && Distinct(s) && q.size == |s|
    && q.head == (if s == [] then None else Some(s[0]))
    && q.tail == (if s == [] then None else Some(s[|s| - 1]))
    && (forall i :: 0 <= i < |s| ==> LinkedAt(q, s, i))
  }

  ghost predicate LinkedAt(q: Links, s: seq<nat>, i: nat)
    requires i < |s|
  {
    && (if i + 1 < |s| then s[i] in q.next && q.next[s[i]] == s[i + 1] else s[i] !in q.next)
    && (if i > 0 then s[i] in q.previous && q.previous[s[i]] == s[i - 1] else s[i] !in q.previous)
  }

  function PushWritten(q: Links, page: nat): Links
    requires q.size > 0 ==> q.tail.Some?
  {
    if q.size == 0 then q.(head := Some(page), tail := Some(page), size := 1)
    else q.(next := q.next[q.tail.value := page], previous := q.previous[page := q.tail.value],
            tail := Some(page), size := q.size + 1)
  }

  function PopWritten(q: Links): Links
    requires q.size > 0 && q.head.Some?
  {
    var page := q.head.value;
    if page in q.next then
      q.(head := Some(q.next[page]), previous := q.previous - {q.next[page]}, size := q.size - 1)
    else
      q.(head := None, tail := None, size := q.size - 1)
  }

  /** push does not clear the links of the page: the queue is one longer, and still a queue, exactly
      when the page came without a next page (and, into an empty queue, without a previous one). */
  lemma PushNeedsDetachedPage(q: Links, s: seq<nat>, page: nat)
    requires Spells(q, s) && page !in s
    ensures Spells(PushWritten(q, page), s + [page]) <==> page !in q.next && (s == [] ==> page !in q.previous)
  {
    var r, t := PushWritten(q, page), s + [page];
    if page !in q.next && (s == [] ==> page !in q.previous) {
      forall i | 0 <= i < |t|
        ensures LinkedAt(r, t, i)
      {
        assert i < |s| ==> LinkedAt(q, s, i);
      }
    } else {
      assert !LinkedAt(r, t, |s|);
    }
  }

  /** The older list's Add links the new node behind the last one but does not make it the last. */
  function AddWritten(q: Links, node: nat): Links
    requires q.size > 0 ==> q.tail.Some?
  {
    if q.size == 0 then q.(head := Some(node), tail := Some(node), size := 1)
    else q.(next := q.next[q.tail.value := node], previous := q.previous[node := q.tail.value], size := q.size + 1)
  }

  /** So it appends to an empty list only. */
  lemma OldAddForgetsTheTail(q: Links, s: seq<nat>, node: nat)
    requires Spells(q, s) && node !in s && node !in q.next && node !in q.previous
    ensures Spells(AddWritten(q, node), s + [node]) <==> s == []
  {
    if s == [] {
      assert LinkedAt(AddWritten(q, node), [node], 0);
    }
  }

  /** pop leaves the next link of the page it returns. Pushed on another queue afterwards, as split
      and free do, the page spoils that queue exactly when it had company in the first. */
  lemma PoppedPageSpoilsQueues(q: Links, s: seq<nat>, other: Links, o: seq<nat>)
    requires Spells(q, s) && s != [] && Spells(other, o) && s[0] !in o
    requires other.next == PopWritten(q).next && other.previous == PopWritten(q).previous
    ensures Spells(PopWritten(q), s[1..])
    ensures Spells(PushWritten(other, s[0]), o + [s[0]]) <==> |s| == 1
  {
    assert LinkedAt(q, s, 0);
    PushNeedsDetachedPage(other, o, s[0]);
    var r, t := PopWritten(q), s[1..];
    forall i | 0 <= i < |t|
      ensures LinkedAt(r, t, i)
    {
      assert LinkedAt(q, s, i + 1);
    }
  }

  /** The test before takeAway, previous || next, sees every queued page but the only one of its
      queue; that one stays queued while its block is merged away. */
  lemma TakeAwayGuard(q: Links, s: seq<nat>, i: nat)
    requires Spells(q, s) && i < |s|
    ensures s[i] in q.previous || s[i] in q.next <==> |s| > 1
  {
    assert LinkedAt(q, s, i);
  }

  // ----- split, merge and the coalescing loop -----

  /** split adds an offset in descriptors that was already scaled to bytes: the descriptor it fills in
      is that of a frame beyond the block, whatever the size of a descriptor from two bytes up. */
  lemma SplitReachesOutside(f: nat, k: nat, descriptor: nat)
    requires Aligned(f, k + 1) && descriptor >= 2
    ensures f + Pow2(k) * descriptor >= f + Pow2(k + 1)
    ensures Head(f + Pow2(k) * descriptor, k + 1) != f
  {
    MulMonotone(2, descriptor, Pow2(k));
    HeadUnique(f + Pow2(k) * descriptor, f, k + 1);
  }

  /** The other half as the loop computes it: `address % (1 << (size * 2))`, the count modulo 32. */
  function WrittenOther(address: nat, size: nat): int {
    if address % Pow2(2 * size % 32) != 0 then address + size else address - size
  }

  /** The same with the modulus that was meant but the branches as they stand, as in merge. */
  function InvertedOther(address: nat, size: nat): int
    requires size > 0
  {
    if address % (2 * size) != 0 then address + size else address - size
  }

  /** The written address is the buddy's exactly for upper halves; with the modulus repaired and the
      branches left as they are it never is. The half that merge keeps is always the upper one, on
      which no block of the next order can start. */
  lemma WrittenBuddy(base: nat, f: nat, k: nat)
    requires base % (4096 * 1024) == 0 && k < MaxOrder && Aligned(f, k)
    ensures var size, address, buddy := 4096 * Pow2(k), base + 4096 * f, base + 4096 * Buddy(f, k);
      && (WrittenOther(address, size) == buddy <==> !Aligned(f, k + 1))
      && InvertedOther(address, size) != buddy
      && (address % (2 * size) != 0 <==> Head(f, k + 1) != f)
  {
    var size := 4096 * Pow2(k);
    BuddyAllocator.AddressAligned(base, f, k);
    BuddyPair(f, k);
    HeadUnique(f, f, k + 1);
    HeadUnique(f, Head(f, k + 1), k + 1);
    Quotient(2 * size, 256 * Pow2(k), 32, 0);
    assert Pow2(0) == 1;
  }

  ghost predicate FreeBelow(z: Zone, b: nat, k: nat) {
    exists j: nat :: j < k && Free(z, b, j)
  }

  /** The loop asks whether the buddy's first descriptor is flagged free but not for its order. That is
      the right question exactly unless a smaller free block starts there. */
  lemma FlagTestAlone(t: seq<BuddyAllocator.Fields>, base: nat, z: Zone, f: nat, k: nat)
    requires Inv(z) && Live(z, f, k) && k < MaxOrder && Aligned(f, k) && BuddyAllocator.Described(t, base, z, f)
    ensures Buddy(f, k) < |t|
    ensures t[Buddy(f, k)].free <==> Free(z, Buddy(f, k), k) || FreeBelow(z, Buddy(f, k), k)
    ensures (t[Buddy(f, k)].free <==> Free(z, Buddy(f, k), k)) <==> !FreeBelow(z, Buddy(f, k), k)
  {
    var b := Buddy(f, k);
    BuddyAllocator.BuddyInZone(z, f, k);
    BuddyPair(f, k);
    var j := BuddyAllocator.BuddyBlock(z, f, k);
    BlockCoversItsHead(z, b, j);
    if j > k {
      CoverSpreads(z, b, f, k + 1, j);
      BlockCoversItsHead(z, f, k);
    }
    if FreeBelow(z, b, k) {
      var i: nat :| i < k && Free(z, b, i);
      SameStart(z, b, i, j);
    }
  }

  /** In that case the merge would swallow the rest of the buddy, where another block begins. */
  lemma WrongMergeSwallows(z: Zone, b: nat, j: nat, k: nat) returns (x: nat)
    requires Inv(z) && Free(z, b, j) && j < k <= MaxOrder && Aligned(b, k)
    ensures b < x < b + Pow2(k)
    ensures exists g: nat, i: nat :: g != b && Holds(z, g, i, x)
  {
    x := b + Pow2(j);
    Pow2Monotone(j, k);
    assert Block(z, b, j);
    AlignedInside(b, k, z.n);
    BlocksTileTheZone(z);
    assert Held(z, x);
    var g: nat, i: nat :| Holds(z, g, i, x);
    if g == b {
      SameStart(z, b, i, j);
    }
  }

  /** Zone z holds one 4 MiB block cut up by `allocate 2 pages`, whose block still is at frame 0. */
  ghost predicate OnePairOut(z: Zone) {
    && Inv(z) && |z.queues| == MaxOrder + 1 && z.queues[0] == [] && z.queues[1] == [2] && z.live == map[0 := 1]
  }

  lemma FirstPair(z: Zone)
    requires z == Initial(1)
    ensures OnePairOut(Alloc(z, 2).0)
  {
    InitialInv(1);
    var amount: nat := 2;
    AllocIsBestFit(z, amount);
    assert CeilLog2(amount) == 1;
    EmptyBelow(z, 1);
  }

  lemma EmptyBelow(z: Zone, k: nat)
    requires z == Initial(1) && k <= MaxOrder
    ensures |z.queues| == MaxOrder + 1 && FitOrder(z, k) == MaxOrder && z.queues[MaxOrder] == [0]
    decreases MaxOrder - k
  {
    if k < MaxOrder {
      EmptyBelow(z, k + 1);
    }
  }

  lemma TwoSingles(z: Zone)
    requires OnePairOut(z)
    ensures var a := Alloc(z, 1).0;
            && Inv(a) && |a.queues| == MaxOrder + 1 && Alloc(z, 1).1 == Some(2)
            && var b := Alloc(a, 1).0;
               && Inv(b) && Alloc(a, 1).1 == Some(3) && |b.queues| == MaxOrder + 1
               && b.queues[0] == [] && b.live == map[0 := 1, 2 := 0, 3 := 0]
  {
    var amount: nat := 1;
    assert CeilLog2(amount) == 0;
    AllocIsBestFit(z, amount);
    assert FitOrder(z, 0) == 1;
    var a := Alloc(z, amount).0;
    assert a.queues[0] == [3];
    AllocIsBestFit(a, amount);
    assert FitOrder(a, 0) == 0;
  }

  /** Such a state is four calls away: with frames 0-1 and 3 in use and frame 2 free, freeing frames
      0-1 would merge them with frames 2-3. */
  lemma SmallBuddyRun()
    ensures var z := Run(1, [AllocOp(2), AllocOp(1), AllocOp(1), FreeOp(2)]);
      Live(z, 0, 1) && Live(z, 3, 0) && Free(z, 2, 0) && Aligned(0, 1) && Buddy(0, 1) == 2
  {
    var r0, r1, r2, r3 := [AllocOp(2)], [AllocOp(2), AllocOp(1)], [AllocOp(2), AllocOp(1), AllocOp(1)],
                          [AllocOp(2), AllocOp(1), AllocOp(1), FreeOp(2)];
    hide Alloc, GiveBack, Inv;
    var z0 := Run(1, []);
    FirstPair(z0);
    assert r0[..0] == [] && r1[..1] == r0 && r2[..2] == r1 && r3[..3] == r2;
    var z1 := Run(1, r0);
    assert z1 == Alloc(z0, 2).0;
    TwoSingles(z1);
    var z2 := Run(1, r1);
    assert z2 == Alloc(z1, 1).0;
    var z3 := Run(1, r2);
    assert z3 == Alloc(z2, 1).0;
    assert Run(1, r3) == GiveBack(z3, 2);
    FreeSingle(z3);
  }

  lemma FreeSingle(z: Zone)
    requires Inv(z) && |z.queues| == MaxOrder + 1 && z.queues[0] == [] && z.live == map[0 := 1, 2 := 0, 3 := 0]
    ensures Aligned(0, 1) && Buddy(0, 1) == 2
    ensures var w := GiveBack(z, 2);
      Live(w, 0, 1) && Live(w, 3, 0) && Free(w, 2, 0)
  {
    var k: nat := 0;
    assert Aligned(2, k) && Buddy(2, k) == 3;
    assert !Free(z, 3, k);
    assert Coalesce(z, 2, k) == Release(z, 2, k);
    assert Release(z, 2, k).queues[0] == [2];
  }
}
