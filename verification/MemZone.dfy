/** Addresses and descriptors: the sparse section map, the blocks that BuddyInit hands to the
    allocator, and the descriptor that ExpandPage reaches. */
module MemZone {
  import opened Powers
  import opened Words
  import opened BuddyZone
  import opened BuddyAllocator
  import opened PageQueues

  /** sectionOf: the section number is truncated to 32 bits. */
  function SectionId(address: nat): nat {
    address / 0x4000_0000 % 0x1_0000_0000
  }

  /** pageOf: the product wraps at 32 bits, the difference at 64, and the result is cut to 32. */
  function SectionOffset(address: nat): nat {
    (address / 4096 - SectionId(address) * 262_144 % 0x1_0000_0000) % 0x1_0000_0000_0000_0000 % 0x1_0000_0000
  }

  /** All that truncation cancels out: the offset is the frame number within its 1 GiB section. */
  lemma OffsetIsFrameInSection(address: Word)
    ensures SectionOffset(address) == address / 4096 % 262_144
  {
    var f, q := address / 4096, address / 0x4000_0000;
    var sid, r := SectionId(address), f % 262_144;
    assert f == 262_144 * q + r;
    CancelTruncation(q / 0x1_0000_0000, sid, r);
  }

  lemma CancelTruncation(h: nat, sid: nat, r: nat)
    requires h < 4 && sid < 0x1_0000_0000 && r < 262_144
    ensures var f := 262_144 * (0x1_0000_0000 * h + sid) + r;
      (f - sid * 262_144 % 0x1_0000_0000) % 0x1_0000_0000_0000_0000 % 0x1_0000_0000 == r
  {
    var f := 262_144 * (0x1_0000_0000 * h + sid) + r;
    var x, m := sid * 262_144 % 0x1_0000_0000, sid * 262_144 / 0x1_0000_0000;
    assert f - x == 0x1_0000_0000 * (262_144 * h + m) + r;
    assert 0 <= f - x < 0x1_0000_0000_0000_0000;
  }

  /** Below 2^62, section and offset make up the frame number, so two addresses have the same descriptor
      only if they are in the same frame. */
  lemma DescriptorsAreFrames(a: Word, b: Word)
    requires SectionId(a) == SectionId(b) && SectionOffset(a) == SectionOffset(b)
    requires a < 0x4000_0000_0000_0000 && b < 0x4000_0000_0000_0000
    ensures a / 4096 == 262_144 * SectionId(a) + SectionOffset(a) && a / 4096 == b / 4096
  {
    FrameParts(a);
    FrameParts(b);
    hide SectionOffset, SectionId;
  }

  lemma FrameParts(a: Word)
    requires a < 0x4000_0000_0000_0000
    ensures a / 4096 == 262_144 * SectionId(a) + SectionOffset(a)
  {
    OffsetIsFrameInSection(a);
    hide SectionOffset;
    Quotient(a / 0x4000_0000, 0, 0x1_0000_0000, a / 0x4000_0000);
    Groups(a, a / 4096);
  }

  /** ExpandPage adds 2^k descriptors to reach the upper half. For a block of order k + 1 aligned to
      its size this is pageOf of the upper half's address, in the same section and 4 MiB block. */
  lemma ExpandReachesUpperHalf(address: Word, k: nat)
    requires k < MaxOrder && address % 4096 == 0 && Aligned(address / 4096, k + 1)
    ensures var upper := address + 4096 * Pow2(k);
      && upper < WordSize
      && SectionId(upper) == SectionId(address)
      && SectionOffset(upper) == SectionOffset(address) + Pow2(k)
      && upper / 0x40_0000 == address / 0x40_0000
  {
    var f, p := address / 4096, Pow2(k);
    UpperHalfInside(f, k, 1024);
    UpperHalfInside(f, k, 262_144);
    UpperAddress(address, f, p);
    OffsetIsFrameInSection(address);
    OffsetIsFrameInSection(address + 4096 * p);
  }

  lemma UpperAddress(address: Word, f: nat, p: nat)
    requires address == 4096 * f && f % 262_144 + p < 262_144 && f % 1024 + p < 1024
    ensures var upper := address + 4096 * p;
      && upper < WordSize && upper / 4096 == f + p && SectionId(upper) == SectionId(address)
      && upper / 4096 % 262_144 == f % 262_144 + p && upper / 0x40_0000 == address / 0x40_0000
  {
    UpperFits(address, f, p);
    SameGroup(f, p, 1024);
    SameGroup(f, p, 262_144);
    Groups(address, f);
    Groups(address + 4096 * p, f + p);
  }

  lemma Groups(address: nat, f: nat)
    requires address / 4096 == f
    ensures address / 0x4000_0000 == f / 262_144 && address / 0x40_0000 == f / 1024
  {
  }

  lemma UpperFits(address: Word, f: nat, p: nat)
    requires address == 4096 * f && f % 262_144 + p < 262_144
    ensures address + 4096 * p < WordSize
  {
  }

  /** The upper half stays inside the group of n frames, for any n that is a multiple of 1024. */
  lemma UpperHalfInside(f: nat, k: nat, n: nat)
    requires k < MaxOrder && Aligned(f, k + 1) && n > 0 && n % 1024 == 0
    ensures f % n + Pow2(k) < n
  {
    hide Aligned;
    DivMod(f, n);
    var q, r := f / n, f % n;
    GroupAligned(n, q, k + 1);
    RestAligned(q * n, r, f, k + 1);
    AlignedInside(r, k + 1, n);
  }

  lemma RestAligned(m: nat, r: nat, f: nat, j: nat)
    requires f == m + r && Aligned(m, j) && Aligned(f, j)
    ensures Aligned(r, j)
  {
    SumMod(m, r, Pow2(j));
  }

  lemma GroupAligned(n: nat, q: nat, j: nat)
    requires n % 1024 == 0 && j <= MaxOrder
    ensures q * n >= 0 && Aligned(q * n, j)
  {
    var m := n / 1024;
    MulMonotone(0, q, n);
    MulMonotone(0, q, m);
    assert q * n == (q * m) * 1024 by {
      assert n == m * 1024;
    }
    TopPower();
    Quotient(q * n, q * m, 1024, 0);
    AlignedLower(q * n, j, MaxOrder);
  }

  lemma TopPower()
    ensures Pow2(MaxOrder) == 1024
  {
  }

  lemma SameGroup(f: nat, p: nat, n: nat)
    requires n > 0 && f % n + p < n
    ensures (f + p) / n == f / n && (f + p) % n == f % n + p
  {
    DivMod(f, n);
    Quotient(f + p, f / n, n, f % n + p);
  }

  // ----- descriptors in their sections -----

  /** The section array holds a descriptor for the address; what pageOf returns. */
  ghost predicate Reaches(sections: nat -> seq<Page>, address: nat, page: Page) {
    SectionOffset(address) < |sections(SectionId(address))| && sections(SectionId(address))[SectionOffset(address)] == page
  }

  /** The allocator's descriptor table is what pageOf reaches, frame by frame. */
  ghost predicate Backed(a: BuddyAlloc, sections: nat -> seq<Page>) {
    forall f: nat :: f < |a.pages| ==> Reaches(sections, a.base + 4096 * f, a.pages[f])
  }

  /** After initialisation and any number of splits, merges, allocations and frees: for every block that
      can be cut, the descriptor that ExpandPage reaches by adding 2^k within the section's array is the
      one that pageOf and the allocator find for the upper half's address, and it already holds that
      address. */
  lemma ExpandedDescriptorReady(a: BuddyAlloc, sections: nat -> seq<Page>, hand: int, f: nat, k: nat)
    requires a.Holding(hand) && Backed(a, sections) && a.base + 4096 * |a.pages| <= WordSize
    requires Block(a.zone, f, k + 1)
    ensures k < MaxOrder && f + Pow2(k) < |a.pages|
    ensures var address, upper := a.base + 4096 * f, a.base + 4096 * (f + Pow2(k));
      && Reaches(sections, address, a.pages[f])
      && SectionOffset(address) + Pow2(k) < |sections(SectionId(address))|
      && sections(SectionId(address))[SectionOffset(address) + Pow2(k)] == a.pages[f + Pow2(k)]
      && Reaches(sections, upper, a.pages[f + Pow2(k)])
      && (upper - a.base) / 4096 < |a.pages| && a.PageOf(upper) == a.pages[f + Pow2(k)]
      && a.pages[f + Pow2(k)].address == upper
  {
    hide *;
    a.Parts(hand);
    BlockShape(a.zone, f, k);
    var address: Word, b := a.base + 4096 * f, f + Pow2(k);
    FrameAligned(a.base, f, k + 1);
    ExpandReachesUpperHalf(address, k);
    BackedAt(a, sections, f);
    BackedAt(a, sections, b);
    SectionHolds(sections, address, a.pages[f]);
    SectionHolds(sections, address + 4096 * Pow2(k), a.pages[b]);
    a.PageOfFrame(b);
    a.TableOrder(b);
    TableAddress(a.Table(), a.base, a.zone, hand, b);
  }

  lemma BlockShape(z: Zone, f: nat, k: nat)
    requires Inv(z) && Block(z, f, k + 1)
    ensures k < MaxOrder && Aligned(f, k + 1) && f + Pow2(k) < z.n && f < z.n
  {
    InsideZone(z, f, k + 1);
    Pow2Monotone(k, k + 1);
  }

  lemma FrameAligned(base: nat, f: nat, j: nat)
    requires base % (4096 * 1024) == 0 && j <= MaxOrder && Aligned(f, j)
    ensures (base + 4096 * f) % 4096 == 0 && Aligned((base + 4096 * f) / 4096, j)
  {
    var B := BaseFrame(base);
    AlignedLower(B, j, MaxOrder);
    SumMod(B, f, Pow2(j));
    Quotient(base + 4096 * f, B + f, 4096, 0);
  }

  lemma BackedAt(a: BuddyAlloc, sections: nat -> seq<Page>, f: nat)
    requires Backed(a, sections) && f < |a.pages|
    ensures Reaches(sections, a.base + 4096 * f, a.pages[f])
  {
  }

  lemma SectionHolds(sections: nat -> seq<Page>, address: nat, page: Page)
    requires Reaches(sections, address, page)
    ensures SectionOffset(address) < |sections(SectionId(address))|
    ensures sections(SectionId(address))[SectionOffset(address)] == page
  {
  }

  lemma TableAddress(t: seq<Fields>, base: nat, z: Zone, hand: int, f: nat)
    requires Described(t, base, z, hand) && f < |t|
    ensures t[f].address == base + 4096 * f
  {
  }

  // ----- BuddyInit -----

  const BlockSize: nat := 4_194_304

  /** ALIGN_UP and ALIGN_DOWN to 4 MiB. */
  function AlignUp(a: nat): nat {
    (a + 4_194_303) / 4_194_304 * 4_194_304
  }

  function AlignDown(a: nat): nat {
    a / 4_194_304 * 4_194_304
  }

  /** & ~(align - 1) on a 64-bit word is this rounding. */
  lemma AlignmentMask(a: Word, k: nat)
    requires k <= 64
    ensures Pow2(k) - 1 < WordSize
    ensures And(a, Not(Pow2(k) - 1)) == a / Pow2(k) * Pow2(k)
  {
    WordPowers();
    if k < 64 {
      Pow2Monotone(k, 64);
    }
    SplitMask(k);
    ShrBelow(a, k);
    hide And, Shr, Low, Pow2;
    MaskedSplit(a, Not(Pow2(k) - 1), k);
  }

  lemma MaskedSplit(a: nat, mask: nat, k: nat)
    requires k <= 64 && Shr(mask, k) == Ones(64 - k) && Low(mask, k) == 0 && Shr(a, k) < Pow2(64 - k)
    ensures And(a, mask) == a / Pow2(k) * Pow2(k)
  {
    hide And, Shr, Low, Pow2;
    AndSplit(a, mask, k);
    AndOnes(Shr(a, k), 64 - k);
    AndZero(Low(a, k));
    ShiftIsDivision(And(a, mask), k);
    ShiftIsDivision(a, k);
    DivMod(And(a, mask), Pow2(k));
  }

  lemma SplitMask(k: nat)
    requires k <= 64 && Pow2(k) - 1 < WordSize
    ensures Shr(Not(Pow2(k) - 1), k) == Ones(64 - k) && Low(Not(Pow2(k) - 1), k) == 0
  {
    WordPowers();
    Pow2Sum(64 - k, k);
    hide Shr, Low;
    var p, q := Pow2(k), Pow2(64 - k);
    ComplementOfOnes(p, q, Not(p - 1));
    ShiftIsDivision(Not(p - 1), k);
  }

  lemma ComplementOfOnes(p: nat, q: nat, c: nat)
    requires p > 0 && q > 0 && c == q * p - 1 - (p - 1)
    ensures c / p == q - 1 && c % p == 0
  {
    assert c == (q - 1) * p + 0;
    Quotient(c, q - 1, p, 0);
  }

  lemma {:induction false} ShrBelow(a: nat, k: nat)
    requires k <= 64 && a < Pow2(64)
    ensures Shr(a, k) < Pow2(64 - k)
  {
    ShrShr(a, k, 64 - k);
    LowBelow(a, 64);
    LowBelow(Shr(a, k), 64 - k);
  }

  /** The block addresses that BuddyInit's loop adds for one memory range. */
  method InitRange(start: nat, end: nat) returns (blocks: seq<nat>)
    requires start + 4_194_304 <= WordSize && end < WordSize
    ensures forall b: nat :: b in blocks <==> b % 4_194_304 == 0 && start <= b && b + 8_388_608 <= end
    ensures forall i, j :: 0 <= i < j < |blocks| ==> blocks[i] < blocks[j]
  {
    var addrEnd, current := AlignDown(end), AlignUp(start);
    blocks := [];
    // addrEnd - BlockSize wraps below zero, which the second test excludes
    while addrEnd > 4_194_304 && current < addrEnd - 4_194_304
      invariant current % 4_194_304 == 0 && current >= AlignUp(start)
      invariant forall b: nat :: b in blocks <==>
                  b % 4_194_304 == 0 && start <= b < current && b + 2 * 4_194_304 <= addrEnd
      invariant forall i, j :: 0 <= i < j < |blocks| ==> blocks[i] < blocks[j]
      invariant forall i :: 0 <= i < |blocks| ==> blocks[i] < current
      decreases addrEnd - current
    {
      blocks := blocks + [current];
      current := current + 4_194_304;
    }
  }

  /** The comparison with addrEnd - 4 MiB is one block too strict: the last whole block of a range is
      never added, so a range is covered completely exactly when it holds no whole block at all. */
  lemma LastBlockIsLost(start: nat, end: nat, blocks: seq<nat>)
    requires forall b: nat :: b in blocks <==> b % 4_194_304 == 0 && start <= b && b + 8_388_608 <= end
    ensures (forall b: nat :: b % 4_194_304 == 0 && start <= b && b + 4_194_304 <= end ==> b in blocks)
            <==> (start + 4_194_303) / 4_194_304 * 4_194_304 + 4_194_304 > end
  {
    if AlignUp(start) + 4_194_304 <= end {
      var last := AlignDown(end) - 4_194_304;
      assert last % 4_194_304 == 0 && start <= last && last + 4_194_304 <= end && last !in blocks;
    } else {
      assert forall b: nat :: b % 4_194_304 == 0 && start <= b ==> b >= AlignUp(start);
    }
  }
}
