/** The buddy allocator as mathematics: which blocks exist, how they tile the zone, and why the
    fully coalesced free set is unique. The class in BuddyAlloc.dfy is proved to run these
    transitions on its descriptors and queues.

    A zone has n page frames, a multiple of 2^10. queues[k] lists the free blocks of order k in
    queue order, by first frame; live maps the first frame of each allocated block to its order. */
module BuddyZone {
  import opened Options
  import opened Powers
  import opened Sequences

  const MaxOrder: nat := 10
  const MaxPages: nat := 1024

  datatype Zone = Zone(n: nat, queues: seq<seq<nat>>, live: map<nat, nat>)

  predicate Free(z: Zone, f: nat, k: nat) {
    k < |z.queues| && f in z.queues[k]
  }

  predicate Live(z: Zone, f: nat, k: nat) {
    f in z.live && z.live[f] == k
  }

  predicate Block(z: Zone, f: nat, k: nat) {
    Free(z, f, k) || Live(z, f, k)
  }

  /** The order-k block that would hold frame x is a block of the zone. */
  predicate Covers(z: Zone, x: nat, k: nat) {
    Block(z, Head(x, k), k)
  }

  ghost predicate WellFormed(z: Zone) {
    && z.n % MaxPages == 0
    && |z.queues| == MaxOrder + 1
    && (forall k :: 0 <= k < |z.queues| ==> Distinct(z.queues[k]))
    && (forall f: nat, k: nat :: Block(z, f, k) ==> k <= MaxOrder && Aligned(f, k) && f < z.n)
  }

  ghost predicate InSomeBlock(z: Zone, x: nat) {
    exists k: nat :: Covers(z, x, k)
  }

  ghost predicate CoveredOnce(z: Zone) {
    && (forall x: nat :: x < z.n ==> InSomeBlock(z, x))
    && (forall x: nat, j: nat, k: nat :: Covers(z, x, j) && Covers(z, x, k) ==> j == k)
  }

  /** Free and live blocks tile the zone: no frame lost, none in two blocks. */
  ghost predicate Tiled(z: Zone) {
    && CoveredOnce(z)
    && (forall f: nat, k: nat :: Free(z, f, k) ==> f !in z.live)
  }

  /** No two buddies of one order below the top are both free. */
  ghost predicate Coalesced(z: Zone) {
    forall f: nat, k: nat :: k < MaxOrder && Free(z, f, k) && Aligned(f, k) ==> !Free(z, Buddy(f, k), k)
  }

  ghost predicate Inv(z: Zone) {
    WellFormed(z) && Tiled(z) && Coalesced(z)
  }

  // ----- transitions -----

  function Remove(q: seq<nat>, f: nat): seq<nat> {
    if q == [] then [] else if q[0] == f then q[1..] else [q[0]] + Remove(q[1..], f)
  }

  lemma {:induction false} RemoveIsExact(q: seq<nat>, f: nat)
    requires Distinct(q)
    ensures forall g :: g in Remove(q, f) <==> g in q && g != f
    ensures Distinct(Remove(q, f))
  {
    if q != [] {
      RemoveIsExact(q[1..], f);
      var r := Remove(q[1..], f);
      assert forall i :: 0 <= i < |r| ==> r[i] in r;
      assert q[0] !in r;
    }
  }

  lemma {:induction false} RemoveAt(q: seq<nat>, i: nat)
    requires Distinct(q) && i < |q|
    ensures Remove(q, q[i]) == q[..i] + q[i + 1..]
  {
    if i > 0 {
      assert q[0] != q[i] && q[1..][i - 1] == q[i];
      RemoveAt(q[1..], i - 1);
      assert q[..i] == [q[0]] + q[1..][..i - 1];
      assert q[i + 1..] == q[1..][i..];
    } else {
      assert q[..0] == [];
    }
  }

  /** A free block leaves its queue and is in the allocator's hands. */
  function Checkout(z: Zone, f: nat, k: nat): Zone
    requires k < |z.queues|
  {
    z.(queues := z.queues[k := Remove(z.queues[k], f)], live := z.live[f := k])
  }

  /** The block in hand goes to the tail of the queue of its order. */
  function Release(z: Zone, f: nat, k: nat): Zone
    requires k < |z.queues|
  {
    z.(queues := z.queues[k := z.queues[k] + [f]], live := z.live - {f})
  }

  /** The block in hand, of order k + 1, keeps its lower half; the upper half becomes free. */
  function Split(z: Zone, f: nat, k: nat): Zone
    requires k < |z.queues|
  {
    z.(queues := z.queues[k := z.queues[k] + [f + Pow2(k)]], live := z.live[f := k])
  }

  /** The block in hand absorbs its free buddy. */
  function Merge(z: Zone, f: nat, k: nat): Zone
    requires k < |z.queues| && Aligned(f, k)
  {
    z.(queues := z.queues[k := Remove(z.queues[k], Buddy(f, k))],
       live := (z.live - {f})[Head(f, k + 1) := k + 1])
  }

  /** z2 is z1 with the order-(k+1) block at f replaced by its two halves. */
  ghost predicate Halved(z1: Zone, z2: Zone, f: nat, k: nat)
    requires Aligned(f, k + 1) && Aligned(f, k)
  {
    var b := Buddy(f, k);
    && z1.n == z2.n
    && Block(z1, f, k + 1) && !Block(z2, f, k + 1)
    && !Block(z1, f, k) && !Block(z1, b, k) && Block(z2, f, k) && Block(z2, b, k)
    && (forall g: nat, j: nat ::
          !(g == f && j == k + 1) && !(g == f && j == k) && !(g == b && j == k)
          ==> (Block(z1, g, j) <==> Block(z2, g, j)))
  }

  lemma HalvesCoverTheSame(z1: Zone, z2: Zone, f: nat, k: nat)
    requires Aligned(f, k + 1) && Aligned(f, k) && Halved(z1, z2, f, k)
    ensures CoveredOnce(z1) <==> CoveredOnce(z2)
  {
    var b := Buddy(f, k);
    HeadUnique(f, f, k + 1);
    forall x: nat
      ensures Head(x, k + 1) == f <==> Head(x, k) == f || Head(x, k) == b
    {
      ParentSplits(x, f, k);
    }
    if CoveredOnce(z1) {
      forall x: nat | x < z2.n
        ensures InSomeBlock(z2, x)
      {
        assert InSomeBlock(z1, x);
        var j: nat :| Covers(z1, x, j);
        assert Covers(z2, x, if j == k + 1 && Head(x, k + 1) == f then k else j);
      }
      forall x: nat, i: nat, j: nat | Covers(z2, x, i) && Covers(z2, x, j)
        ensures i == j
      {
        var inside := Head(x, k + 1) == f;
        assert Covers(z1, x, if inside && i == k then k + 1 else i);
        assert Covers(z1, x, if inside && j == k then k + 1 else j);
      }
    }
    if CoveredOnce(z2) {
      forall x: nat | x < z1.n
        ensures InSomeBlock(z1, x)
      {
        assert InSomeBlock(z2, x);
        var j: nat :| Covers(z2, x, j);
        assert Covers(z1, x, if j == k && Head(x, k + 1) == f then k + 1 else j);
      }
      forall x: nat, i: nat, j: nat | Covers(z1, x, i) && Covers(z1, x, j)
        ensures i == j
      {
        var inside := Head(x, k + 1) == f;
        assert Covers(z2, x, if inside && i == k + 1 then k else i);
        assert Covers(z2, x, if inside && j == k + 1 then k else j);
      }
    }
  }

  lemma BlockCoversItsHead(z: Zone, f: nat, k: nat)
    requires WellFormed(z) && Block(z, f, k)
    ensures Covers(z, f, k)
  {
    HeadUnique(f, f, k);
  }

  /** Two blocks that share their first frame are one block. */
  lemma SameStart(z: Zone, f: nat, j: nat, k: nat)
    requires WellFormed(z) && CoveredOnce(z) && Block(z, f, j) && Block(z, f, k)
    ensures j == k
  {
    BlockCoversItsHead(z, f, j);
    BlockCoversItsHead(z, f, k);
  }

  lemma BlocksUnchanged(z1: Zone, z2: Zone)
    requires z1.n == z2.n && forall f: nat, k: nat :: Block(z1, f, k) <==> Block(z2, f, k)
    ensures CoveredOnce(z1) ==> CoveredOnce(z2)
  {
    forall x: nat, k: nat
      ensures Covers(z1, x, k) <==> Covers(z2, x, k)
    {
    }
    if CoveredOnce(z1) {
      forall x: nat | x < z2.n
        ensures InSomeBlock(z2, x)
      {
        assert InSomeBlock(z1, x);
        var k: nat :| Covers(z1, x, k);
        assert Covers(z2, x, k);
      }
    }
  }

  lemma CheckoutKeeps(z: Zone, f: nat, k: nat)
    requires Inv(z) && Free(z, f, k)
    ensures Inv(Checkout(z, f, k)) && Live(Checkout(z, f, k), f, k)
    ensures forall g: nat, j: nat :: Free(Checkout(z, f, k), g, j) <==> Free(z, g, j) && !(g == f && j == k)
  {
    var w := Checkout(z, f, k);
    RemoveIsExact(z.queues[k], f);
    assert forall g: nat, j: nat :: Free(w, g, j) <==> Free(z, g, j) && !(g == f && j == k);
    forall g: nat, j: nat | Free(z, g, j) && g == f
      ensures j == k
    {
      SameStart(z, f, j, k);
    }
    BlocksUnchanged(z, w);
  }

  lemma ReleaseKeeps(z: Zone, f: nat, k: nat)
    requires Inv(z) && Live(z, f, k) && (k < MaxOrder ==> !Free(z, Buddy(f, k), k))
    ensures k <= MaxOrder && Inv(Release(z, f, k)) && Free(Release(z, f, k), f, k)
    ensures forall g: nat, j: nat :: Free(Release(z, f, k), g, j) <==> Free(z, g, j) || (g == f && j == k)
  {
    assert Block(z, f, k);
    var w := Release(z, f, k);
    assert f !in z.queues[k] by {
      assert Free(z, f, k) ==> f !in z.live;
    }
    assert forall g: nat, j: nat :: Free(w, g, j) <==> Free(z, g, j) || (g == f && j == k);
    BlocksUnchanged(z, w);
    BuddyPair(f, k);
    forall g: nat, j: nat | j < MaxOrder && Free(w, g, j) && Aligned(g, j)
      ensures !Free(w, Buddy(g, j), j)
    {
      BuddyPair(g, j);
    }
  }

  lemma SplitHalves(z: Zone, f: nat, k: nat)
    requires Inv(z) && Live(z, f, k + 1)
    ensures k < MaxOrder && Aligned(f, k) && Buddy(f, k) == f + Pow2(k) && f + Pow2(k) < z.n
    ensures !Block(z, f, k) && forall j: nat :: !Block(z, Buddy(f, k), j)
  {
    assert Block(z, f, k + 1);
    AlignedLower(f, k, k + 1);
    var b := Buddy(f, k);
    BuddyPair(f, k);
    ParentSplits(b, f, k);
    HeadUnique(b, b, k);
    HeadUnique(f, f, k + 1);
    assert Covers(z, b, k + 1);
    forall j: nat | Block(z, b, j)
      ensures false
    {
      BlockCoversItsHead(z, b, j);
    }
    if Block(z, f, k) {
      SameStart(z, f, k, k + 1);
    }
    InsideZone(z, f, k + 1);
  }

  lemma SplitKeeps(z: Zone, f: nat, k: nat)
    requires Inv(z) && Live(z, f, k + 1)
    ensures k < MaxOrder && Inv(Split(z, f, k)) && Live(Split(z, f, k), f, k)
    ensures forall g: nat, j: nat :: Free(Split(z, f, k), g, j) <==> Free(z, g, j) || (g == f + Pow2(k) && j == k)
  {
    SplitHalves(z, f, k);
    var w := Split(z, f, k);
    var b := Buddy(f, k);
    assert forall g: nat, j: nat :: Free(w, g, j) <==> Free(z, g, j) || (g == b && j == k);
    assert !Free(z, f, k + 1);
    BuddyPair(f, k);
    assert Halved(z, w, f, k);
    HalvesCoverTheSame(z, w, f, k);
    assert !Free(z, b, k) && !Live(z, b, z.live[f]);
    assert b !in z.live by {
      if b in z.live {
        assert Block(z, b, z.live[b]);
      }
    }
    forall g: nat, j: nat | j < MaxOrder && Free(w, g, j) && Aligned(g, j)
      ensures !Free(w, Buddy(g, j), j)
    {
      BuddyPair(g, j);
      assert !Free(z, f, k);
    }
  }

  lemma MergeParent(z: Zone, f: nat, k: nat)
    requires Inv(z) && Live(z, f, k) && k < MaxOrder && Free(z, Buddy(f, k), k)
    ensures var b, h := Buddy(f, k), Head(f, k + 1);
            && Aligned(h, k) && Aligned(h, k + 1) && h < z.n
            && ((h == f && Buddy(h, k) == b) || (h == b && Buddy(h, k) == f))
            && !Block(z, h, k + 1) && b !in z.live
            && forall j: nat :: j != k ==> !Block(z, f, j) && !Block(z, b, j)
  {
    var b, h := Buddy(f, k), Head(f, k + 1);
    BuddyPair(f, k);
    HeadUnique(f, h, k + 1);
    assert Block(z, f, k) && Block(z, b, k);
    if Block(z, h, k + 1) {
      SameStart(z, h, k, k + 1);
    }
    forall j: nat | j != k
      ensures !Block(z, f, j) && !Block(z, b, j)
    {
      if Block(z, f, j) {
        SameStart(z, f, j, k);
      }
      if Block(z, b, j) {
        SameStart(z, b, j, k);
      }
    }
  }

  lemma MergeKeeps(z: Zone, f: nat, k: nat)
    requires Inv(z) && Live(z, f, k) && k < MaxOrder && Free(z, Buddy(f, k), k)
    ensures var w := Merge(z, f, k);
            && Inv(w) && Live(w, Head(f, k + 1), k + 1)
            && forall g: nat, j: nat :: Free(w, g, j) <==> Free(z, g, j) && !(g == Buddy(f, k) && j == k)
  {
    var w := Merge(z, f, k);
    var b, h := Buddy(f, k), Head(f, k + 1);
    MergeParent(z, f, k);
    RemoveIsExact(z.queues[k], b);
    assert forall g: nat, j: nat :: Free(w, g, j) <==> Free(z, g, j) && !(g == b && j == k);
    assert forall g: nat, j: nat :: Live(w, g, j) <==> (g == h && j == k + 1) || (Live(z, g, j) && g != f);
    assert Halved(w, z, h, k);
    HalvesCoverTheSame(w, z, h, k);
    forall g: nat, j: nat | Free(w, g, j)
      ensures g !in w.live
    {
      assert Free(z, g, j) && g !in z.live;
      assert Block(z, g, j);
    }
  }

  lemma InsideZone(z: Zone, f: nat, k: nat)
    requires WellFormed(z) && Block(z, f, k)
    ensures f + Pow2(k) <= z.n
  {
    AlignedInside(f, k, z.n);
  }

  lemma AlignedInside(f: nat, k: nat, n: nat)
    requires k <= MaxOrder && Aligned(f, k) && f < n && n % MaxPages == 0
    ensures f + Pow2(k) <= n
  {
    assert Pow2(MaxOrder) == MaxPages;
    AlignedLower(n, k, MaxOrder);
    var p := Pow2(k);
    DivMod(f, p);
    DivMod(n, p);
    MultiplesApart(f / p, n / p, p);
  }
}
