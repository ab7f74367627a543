/** Whole allocations and frees as compositions of the zone transitions, and the theorems about
    every run of them. */
module BuddyRuns {
  import opened Options
  import opened Powers
  import opened BuddyZone

  // ----- the operations -----

  /** The smallest order from k up whose queue holds a block; the top order when there is none. */
  function FitOrder(z: Zone, k: nat): (r: nat)
    requires k <= MaxOrder && |z.queues| == MaxOrder + 1
    ensures k <= r <= MaxOrder
    ensures forall j :: k <= j < r ==> z.queues[j] == []
    ensures r < MaxOrder ==> z.queues[r] != []
    decreases MaxOrder - k
  {
    if k == MaxOrder || z.queues[k] != [] then k else FitOrder(z, k + 1)
  }

  /** Halve the block in hand from order ord down to order k. */
  function SplitDown(z: Zone, f: nat, ord: nat, k: nat): Zone
    requires k <= ord < |z.queues|
    decreases ord
  {
    if ord == k then z else SplitDown(Split(z, f, ord - 1), f, ord - 1, k)
  }

  function Alloc(z: Zone, amount: nat): (Zone, Option<nat>)
    requires |z.queues| == MaxOrder + 1
  {
    if amount == 0 || amount > MaxPages then (z, None) else
      OrderInRange(amount);
      var k := CeilLog2(amount);
      var ord := FitOrder(z, k);
      if z.queues[ord] == [] then (z, None) else
        var f := z.queues[ord][0];
        (SplitDown(Checkout(z, f, ord), f, ord, k), Some(f))
  }

  /** Absorb free buddies as long as there are any, then queue the block. */
  function Coalesce(z: Zone, f: nat, k: nat): Zone
    requires k <= MaxOrder && |z.queues| == MaxOrder + 1 && Aligned(f, k)
    decreases MaxOrder - k
  {
    if k < MaxOrder && Free(z, Buddy(f, k), k) then
      HeadUnique(f, f, k + 1);
      Coalesce(Merge(z, f, k), Head(f, k + 1), k + 1)
    else Release(z, f, k)
  }

  function GiveBack(z: Zone, f: nat): Zone
    requires Inv(z)
  {
    if f !in z.live then z else
      assert Block(z, f, z.live[f]);
      Coalesce(z, f, z.live[f])
  }

  lemma OrderInRange(amount: nat)
    requires 0 < amount <= MaxPages
    ensures CeilLog2(amount) <= MaxOrder
  {
    assert Pow2(MaxOrder) == MaxPages;
    if CeilLog2(amount) > MaxOrder {
      Pow2Monotone(MaxOrder, CeilLog2(amount));
    }
  }

  // ----- allocation -----

  /** What a successful allocation does to the queues: the head of queue ord is gone, and each order
      from k up to ord gained one remainder. */
  ghost predicate SplitQueues(z: Zone, w: Zone, f: nat, ord: nat, k: nat) {
    && |w.queues| == |z.queues| && ord < |z.queues|
    && forall j :: 0 <= j < |z.queues| ==>
         w.queues[j] == if k <= j < ord then z.queues[j] + [f + Pow2(j)] else z.queues[j]
  }

  lemma {:induction false} SplitDownFills(z: Zone, f: nat, ord: nat, k: nat)
    requires k <= ord < |z.queues|
    ensures SplitQueues(z, SplitDown(z, f, ord, k), f, ord, k)
    ensures SplitDown(z, f, ord, k).n == z.n
    ensures f in z.live && z.live[f] == ord ==> SplitDown(z, f, ord, k).live == z.live[f := k]
    decreases ord
  {
    hide *;
    SplitDownUnfolds(z, f, ord, k);
    if ord == k {
      NothingSplit(z, f, k);
    } else {
      var s := Split(z, f, ord - 1);
      SplitFills(z, f, ord - 1);
      SplitDownFills(s, f, ord - 1, k);
      FillsCompose(z, s, SplitDown(s, f, ord - 1, k), f, ord, k);
      assert z.live[f := ord - 1][f := k] == z.live[f := k];
    }
  }

  lemma SplitDownUnfolds(z: Zone, f: nat, ord: nat, k: nat)
    requires k <= ord < |z.queues|
    ensures ord == k ==> SplitDown(z, f, ord, k) == z
    ensures k < ord ==> SplitDown(z, f, ord, k) == SplitDown(Split(z, f, ord - 1), f, ord - 1, k)
  {
    hide Pow2;
  }

  lemma NothingSplit(z: Zone, f: nat, k: nat)
    requires k < |z.queues|
    ensures SplitQueues(z, z, f, k, k)
    ensures f in z.live && z.live[f] == k ==> z.live == z.live[f := k]
  {
    hide Pow2;
  }

  lemma SplitFills(z: Zone, f: nat, k: nat)
    requires k + 1 < |z.queues|
    ensures SplitQueues(z, Split(z, f, k), f, k + 1, k)
    ensures |Split(z, f, k).queues| == |z.queues|
    ensures Split(z, f, k).n == z.n && Split(z, f, k).live == z.live[f := k]
  {
    hide Pow2;
  }

  lemma FillsCompose(z: Zone, s: Zone, w: Zone, f: nat, ord: nat, k: nat)
    requires k < ord && SplitQueues(z, s, f, ord, ord - 1) && SplitQueues(s, w, f, ord - 1, k)
    ensures SplitQueues(z, w, f, ord, k)
  {
    hide Pow2;
  }

  lemma {:induction false} SplitDownKeeps(z: Zone, f: nat, ord: nat, k: nat)
    requires Inv(z) && Live(z, f, ord) && k <= ord
    ensures ord < |z.queues| && Inv(SplitDown(z, f, ord, k))
    decreases ord
  {
    LiveOrder(z, f, ord);
    if ord > k {
      SplitKeeps(z, f, ord - 1);
      SplitDownKeeps(Split(z, f, ord - 1), f, ord - 1, k);
    }
  }

  lemma LiveOrder(z: Zone, f: nat, k: nat)
    requires WellFormed(z) && Live(z, f, k)
    ensures k <= MaxOrder && k < |z.queues| && Aligned(f, k) && f < z.n
  {
    assert Block(z, f, k);
  }

  /** Best fit: the block comes from the head of the smallest sufficient non-empty queue, has order
      ceil(log2 amount), leaves one remainder in every order between, and nothing else changes. */
  lemma AllocIsBestFit(z: Zone, amount: nat)
    requires Inv(z)
    ensures var (w, r) := Alloc(z, amount);
      && Inv(w) && w.n == z.n
      && (r == None ==> w == z && (0 < amount <= MaxPages ==>
            forall j :: CeilLog2(amount) <= j <= MaxOrder ==> z.queues[j] == []))
      && (r.Some? ==>
            && 0 < amount <= MaxPages
            && CeilLog2(amount) <= MaxOrder
            && TakenFrom(z, w, r.value, FitOrder(z, CeilLog2(amount)), CeilLog2(amount)))
  {
    hide *;
    ElevenQueues(z);
    AllocUnfolds(z, amount);
    if 0 < amount <= MaxPages {
      var k := CeilLog2(amount);
      var ord := FitOrder(z, k);
      if z.queues[ord] != [] {
        TakeAndSplit(z, ord, k);
      }
    }
  }

  lemma ElevenQueues(z: Zone)
    requires Inv(z)
    ensures |z.queues| == MaxOrder + 1
  {
  }

  lemma AllocUnfolds(z: Zone, amount: nat)
    requires |z.queues| == MaxOrder + 1
    ensures !(0 < amount <= MaxPages) ==> Alloc(z, amount) == (z, None)
    ensures 0 < amount <= MaxPages ==>
      && CeilLog2(amount) <= MaxOrder
      && var k := CeilLog2(amount);
         var ord := FitOrder(z, k);
         Alloc(z, amount) ==
           if z.queues[ord] == [] then (z, None)
           else (SplitDown(Checkout(z, z.queues[ord][0], ord), z.queues[ord][0], ord, k), Some(z.queues[ord][0]))
  {
    if 0 < amount <= MaxPages {
      OrderInRange(amount);
    }
  }

  /** w is z after the head f of queue ord was cut down to order k and handed out. */
  ghost predicate TakenFrom(z: Zone, w: Zone, f: nat, ord: nat, k: nat) {
    && ord < |z.queues| && z.queues[ord] != [] && f == z.queues[ord][0]
    && f !in z.live && w.live == z.live[f := k]
    && SplitQueues(z.(queues := z.queues[ord := z.queues[ord][1..]]), w, f, ord, k)
  }

  lemma TakeAndSplit(z: Zone, ord: nat, k: nat)
    requires Inv(z) && k <= ord <= MaxOrder && z.queues[ord] != []
    ensures var f := z.queues[ord][0];
            var w := SplitDown(Checkout(z, f, ord), f, ord, k);
            Inv(w) && w.n == z.n && TakenFrom(z, w, f, ord, k)
  {
    var f := z.queues[ord][0];
    assert Free(z, f, ord);
    CheckoutKeeps(z, f, ord);
    var c := Checkout(z, f, ord);
    SplitDownKeeps(c, f, ord, k);
    SplitDownFills(c, f, ord, k);
    assert c.queues == z.queues[ord := z.queues[ord][1..]];
    assert z.live[f := ord][f := k] == z.live[f := k];
  }

  // ----- freeing -----

  lemma {:induction false} CoalesceKeeps(z: Zone, f: nat, k: nat)
    requires Inv(z) && Live(z, f, k)
    ensures k <= MaxOrder && Aligned(f, k)
    ensures Inv(Coalesce(z, f, k)) && Coalesce(z, f, k).n == z.n
    ensures Coalesce(z, f, k).live == z.live - {f}
    decreases MaxOrder - k
  {
    assert Block(z, f, k);
    if k < MaxOrder && Free(z, Buddy(f, k), k) {
      MergeKeeps(z, f, k);
      MergeParent(z, f, k);
      CoalesceKeeps(Merge(z, f, k), Head(f, k + 1), k + 1);
      assert (z.live - {f})[Head(f, k + 1) := k + 1] - {Head(f, k + 1)} == z.live - {f};
    } else {
      ReleaseKeeps(z, f, k);
    }
  }

  lemma FreeKeeps(z: Zone, f: nat)
    requires Inv(z)
    ensures Inv(GiveBack(z, f)) && GiveBack(z, f).n == z.n && GiveBack(z, f).live == z.live - {f}
  {
    if f in z.live {
      assert Block(z, f, z.live[f]);
      CoalesceKeeps(z, f, z.live[f]);
    }
  }

  // ----- the free set is canonical -----

  ghost predicate LiveFrame(z: Zone, x: nat) {
    exists k: nat :: Live(z, Head(x, k), k)
  }

  ghost predicate FreeFrame(z: Zone, x: nat) {
    x < z.n && !LiveFrame(z, x)
  }

  ghost predicate AllFree(z: Zone, f: nat, k: nat) {
    forall x: nat :: f <= x < f + Pow2(k) ==> FreeFrame(z, x)
  }

  /** (f, k) is an aligned block of frames none of which is live, and no larger one holds it. This
      mentions only the live blocks. */
  ghost predicate Maximal(z: Zone, f: nat, k: nat) {
    && k <= MaxOrder && Aligned(f, k) && AllFree(z, f, k)
    && (k < MaxOrder ==> !AllFree(z, Head(f, k + 1), k + 1))
  }

  lemma FreeBlockIsAllFree(z: Zone, f: nat, k: nat)
    requires Inv(z) && Free(z, f, k)
    ensures AllFree(z, f, k)
  {
    assert Block(z, f, k);
    InsideZone(z, f, k);
    forall x: nat | f <= x < f + Pow2(k)
      ensures FreeFrame(z, x)
    {
      HeadUnique(x, f, k);
      assert Covers(z, x, k);
      if LiveFrame(z, x) {
        var j: nat :| Live(z, Head(x, j), j);
        assert Covers(z, x, j);
      }
    }
  }

  lemma CoverSpreads(z: Zone, x: nat, y: nat, i: nat, j: nat)
    requires i <= j && Head(x, i) == Head(y, i) && Covers(z, x, j)
    ensures Covers(z, y, j)
  {
    HeadHead(x, i, j);
    HeadHead(y, i, j);
  }

  lemma SomeCover(z: Zone, f: nat, k: nat) returns (i: nat)
    requires Inv(z) && AllFree(z, f, k)
    ensures Covers(z, f, i)
  {
    assert FreeFrame(z, f) && InSomeBlock(z, f);
    i :| Covers(z, f, i);
  }

  lemma LargerBlockIsFree(z: Zone, f: nat, k: nat, j: nat)
    requires Inv(z) && AllFree(z, f, k) && Covers(z, f, j)
    ensures Free(z, Head(f, j), j) && j <= MaxOrder
  {
    assert FreeFrame(z, f);
    assert Block(z, Head(f, j), j);
  }

  /** A region of free frames that no larger block reaches into is one free block: coalescing
      leaves nothing to merge, at any depth below it. */
  lemma {:induction false} FreeRegionIsBlock(z: Zone, f: nat, k: nat)
    requires Inv(z) && k <= MaxOrder && Aligned(f, k) && AllFree(z, f, k)
    requires forall j: nat :: j > k ==> !Covers(z, f, j)
    ensures Free(z, f, k)
    decreases k
  {
    var i := SomeCover(z, f, k);
    if i == k {
      LargerBlockIsFree(z, f, k, k);
      HeadUnique(f, f, k);
    } else {
      var k' := k - 1;
      HalvesUncovered(z, f, k');
      FreeRegionIsBlock(z, f, k');
      FreeRegionIsBlock(z, Buddy(f, k'), k');
    }
  }

  lemma HalvesUncovered(z: Zone, f: nat, k: nat)
    requires k < MaxOrder && Aligned(f, k + 1) && AllFree(z, f, k + 1)
    requires forall j: nat :: j > k ==> !Covers(z, f, j)
    ensures Aligned(f, k) && AllFree(z, f, k)
    ensures var b := Buddy(f, k);
      Aligned(b, k) && AllFree(z, b, k) && forall j: nat :: j > k ==> !Covers(z, b, j)
  {
    AlignedLower(f, k, k + 1);
    BuddyPair(f, k);
    var b := Buddy(f, k);
    forall j: nat | j > k
      ensures !Covers(z, b, j)
    {
      if Covers(z, b, j) {
        CoverSpreads(z, b, f, k + 1, j);
      }
    }
  }

  /** The free blocks are exactly the maximal aligned blocks of the free frames. */
  lemma FreeSetIsCanonical(z: Zone, f: nat, k: nat)
    requires Inv(z)
    ensures Free(z, f, k) <==> Maximal(z, f, k)
  {
    if Free(z, f, k) {
      FreeBlockIsMaximal(z, f, k);
    }
    if Maximal(z, f, k) {
      forall j: nat | j > k
        ensures !Covers(z, f, j)
      {
        if Covers(z, f, j) {
          LargerBlockFreesParent(z, f, k, j);
        }
      }
      FreeRegionIsBlock(z, f, k);
    }
  }

  lemma FreeBlockIsMaximal(z: Zone, f: nat, k: nat)
    requires Inv(z) && Free(z, f, k)
    ensures Maximal(z, f, k)
  {
    assert Block(z, f, k);
    FreeBlockIsAllFree(z, f, k);
    BlockCoversItsHead(z, f, k);
    if k < MaxOrder {
      var b := Buddy(f, k);
      BuddyPair(f, k);
      if AllFree(z, Head(f, k + 1), k + 1) {
        forall j: nat | j > k
          ensures !Covers(z, b, j)
        {
          if Covers(z, b, j) {
            CoverSpreads(z, b, f, k + 1, j);
          }
        }
        FreeRegionIsBlock(z, b, k);
      }
    }
  }

  lemma LargerBlockFreesParent(z: Zone, f: nat, k: nat, j: nat)
    requires Inv(z) && AllFree(z, f, k) && j > k && Covers(z, f, j)
    ensures Free(z, Head(f, j), j) && k < MaxOrder && j <= MaxOrder
    ensures AllFree(z, Head(f, k + 1), k + 1)
  {
    LargerBlockIsFree(z, f, k, j);
    FreeBlockIsAllFree(z, Head(f, j), j);
    var h := Head(f, k + 1);
    HeadHead(f, k + 1, j);
    HeadUnique(f, h, k + 1);
    SmallerRegion(z, h, k + 1, j);
  }

  lemma SmallerRegion(z: Zone, h: nat, i: nat, j: nat)
    requires i <= j && Aligned(h, i) && AllFree(z, Head(h, j), j)
    ensures AllFree(z, h, i)
  {
    forall x: nat | h <= x < h + Pow2(i)
      ensures FreeFrame(z, x)
    {
      HeadUnique(x, h, i);
      HeadHead(x, i, j);
      HeadUnique(x, Head(h, j), j);
    }
  }

  lemma MaximalDependsOnLive(z1: Zone, z2: Zone, f: nat, k: nat)
    requires z1.n == z2.n && forall x: nat :: LiveFrame(z1, x) <==> LiveFrame(z2, x)
    ensures Maximal(z1, f, k) <==> Maximal(z2, f, k)
  {
    assert forall x: nat :: FreeFrame(z1, x) <==> FreeFrame(z2, x);
    assert AllFree(z1, f, k) <==> AllFree(z2, f, k);
    var h := Head(f, k + 1);
    assert AllFree(z1, h, k + 1) <==> AllFree(z2, h, k + 1);
  }

  /** The free blocks depend only on which frames are live, not on the history. */
  lemma LiveFramesFixFreeBlocks(z1: Zone, z2: Zone)
    requires Inv(z1) && Inv(z2) && z1.n == z2.n
    requires forall x: nat :: LiveFrame(z1, x) <==> LiveFrame(z2, x)
    ensures forall f: nat, k: nat :: Free(z1, f, k) <==> Free(z2, f, k)
  {
    forall f: nat, k: nat
      ensures Free(z1, f, k) <==> Free(z2, f, k)
    {
      FreeSetIsCanonical(z1, f, k);
      FreeSetIsCanonical(z2, f, k);
      MaximalDependsOnLive(z1, z2, f, k);
    }
  }

  /** Allocating and freeing the result brings back the same free and live blocks. */
  lemma FreeUndoesAlloc(z: Zone, amount: nat)
    requires Inv(z) && Alloc(z, amount).1.Some?
    ensures Inv(Alloc(z, amount).0)
    ensures var w := GiveBack(Alloc(z, amount).0, Alloc(z, amount).1.value);
      && w.live == z.live
      && forall f: nat, k: nat :: Free(w, f, k) <==> Free(z, f, k)
  {
    AllocIsBestFit(z, amount);
    var (a, r) := Alloc(z, amount);
    FreeKeeps(a, r.value);
    var w := GiveBack(a, r.value);
    assert w.live == z.live;
    assert forall x: nat, k: nat :: Live(w, Head(x, k), k) <==> Live(z, Head(x, k), k);
    LiveFramesFixFreeBlocks(w, z);
  }

  /** Allocation is complete: it fails exactly when the amount is out of range or memory holds no
      aligned run of 2^ceil(log2 amount) free frames at all. */
  lemma AllocFailsOnlyWhenNothingFits(z: Zone, amount: nat)
    requires Inv(z)
    ensures Alloc(z, amount).1 == None <==>
      amount == 0 || amount > MaxPages ||
      forall f: nat :: Aligned(f, CeilLog2(amount)) ==> !AllFree(z, f, CeilLog2(amount))
  {
    if 0 < amount <= MaxPages {
      AllocIsBestFit(z, amount);
      var k := CeilLog2(amount);
      OrderInRange(amount);
      if Alloc(z, amount).1.Some? {
        var ord := FitOrder(z, k);
        var f := z.queues[ord][0];
        assert Free(z, f, ord) && Block(z, f, ord);
        AlignedLower(f, k, ord);
        FreeBlockIsAllFree(z, f, ord);
        if k < ord {
          Pow2Monotone(k, ord);
        }
        assert AllFree(z, f, k);
      } else {
        forall f: nat | Aligned(f, k)
          ensures !AllFree(z, f, k)
        {
          if AllFree(z, f, k) {
            NoBlockNoRegion(z, f, k);
          }
        }
      }
    }
  }

  lemma NoBlockNoRegion(z: Zone, f: nat, k: nat)
    requires Inv(z) && k <= MaxOrder && Aligned(f, k) && AllFree(z, f, k)
    ensures exists j, g :: k <= j <= MaxOrder && Free(z, g, j)
  {
    if j: nat :| j > k && Covers(z, f, j) {
      LargerBlockFreesParent(z, f, k, j);
      assert Block(z, Head(f, j), j);
    } else {
      FreeRegionIsBlock(z, f, k);
    }
  }

  // ----- tiling, as a statement about frames -----

  ghost predicate Holds(z: Zone, f: nat, k: nat, x: nat) {
    Block(z, f, k) && f <= x < f + Pow2(k)
  }

  ghost predicate Held(z: Zone, x: nat) {
    exists f: nat, k: nat :: Holds(z, f, k, x)
  }

  /** Every frame of the zone lies in exactly one block, free or live but not both, and every block
      is aligned to its own size and lies inside the zone. */
  lemma BlocksTileTheZone(z: Zone)
    requires Inv(z)
    ensures forall x: nat :: x < z.n ==> Held(z, x)
    ensures forall x: nat, f: nat, j: nat, g: nat, k: nat ::
              Holds(z, f, j, x) && Holds(z, g, k, x) ==> f == g && j == k
    ensures forall f: nat, k: nat :: !(Free(z, f, k) && Live(z, f, k))
    ensures forall f: nat, k: nat :: Block(z, f, k) ==> k <= MaxOrder && Aligned(f, k) && f + Pow2(k) <= z.n
  {
    forall x: nat, f: nat, k: nat
      ensures Holds(z, f, k, x) <==> Covers(z, x, k) && f == Head(x, k)
    {
      HeadUnique(x, f, k);
    }
    forall x: nat | x < z.n
      ensures Held(z, x)
    {
      assert InSomeBlock(z, x);
      var k: nat :| Covers(z, x, k);
      assert Holds(z, Head(x, k), k, x);
    }
    forall f: nat, k: nat | Block(z, f, k)
      ensures f + Pow2(k) <= z.n
    {
      InsideZone(z, f, k);
    }
  }

  // ----- runs -----

  datatype Op = AllocOp(amount: nat) | FreeOp(frame: nat)

  function TopBlocks(m: nat): (q: seq<nat>)
    ensures |q| == m && forall i :: 0 <= i < m ==> q[i] == MaxPages * i
  {
    if m == 0 then [] else TopBlocks(m - 1) + [MaxPages * (m - 1)]
  }

  /** The zone after initialisation: m free blocks of the top order. */
  function Initial(m: nat): Zone {
    Zone(MaxPages * m, seq(MaxOrder, _ => []) + [TopBlocks(m)], map[])
  }

  lemma InitialInv(m: nat)
    ensures Inv(Initial(m))
  {
    var z := Initial(m);
    assert Pow2(MaxOrder) == MaxPages;
    forall f: nat, k: nat | Block(z, f, k)
      ensures k == MaxOrder && Aligned(f, k) && f < z.n
    {
      assert Free(z, f, k);
      var i :| 0 <= i < m && z.queues[MaxOrder][i] == f;
      Quotient(f, i, MaxPages, 0);
    }
    forall x: nat | x < z.n
      ensures InSomeBlock(z, x)
    {
      HeadUnique(x, Head(x, MaxOrder), MaxOrder);
      assert z.queues[MaxOrder][x / MaxPages] == Head(x, MaxOrder);
      assert Covers(z, x, MaxOrder);
    }
  }

  function Step(z: Zone, op: Op): Zone
    requires Inv(z)
  {
    match op
    case AllocOp(amount) => Alloc(z, amount).0
    case FreeOp(f) => GiveBack(z, f)
  }

  function Run(m: nat, ops: seq<Op>): (z: Zone)
    ensures Inv(z) && z.n == MaxPages * m
  {
    InitialInv(m);
    if ops == [] then Initial(m) else
      var z := Run(m, ops[..|ops| - 1]);
      var op := ops[|ops| - 1];
      AllocIsBestFit(z, if op.AllocOp? then op.amount else 0);
      FreeKeeps(z, if op.FreeOp? then op.frame else 0);
      Step(z, op)
  }

  /** Whatever was allocated and freed on the way, two runs that end with the same frames live end
      with the same free blocks; and a run that freed everything is back at the initial blocks. */
  lemma RunsForgetTheirHistory(m: nat, ops1: seq<Op>, ops2: seq<Op>)
    requires forall x: nat :: LiveFrame(Run(m, ops1), x) <==> LiveFrame(Run(m, ops2), x)
    ensures forall f: nat, k: nat :: Free(Run(m, ops1), f, k) <==> Free(Run(m, ops2), f, k)
    ensures Run(m, ops1).live == map[] ==>
      forall f: nat, k: nat :: Free(Run(m, ops1), f, k) <==> k == MaxOrder && f % MaxPages == 0 && f < MaxPages * m
  {
    LiveFramesFixFreeBlocks(Run(m, ops1), Run(m, ops2));
    if Run(m, ops1).live == map[] {
      InitialInv(m);
      var z := Initial(m);
      LiveFramesFixFreeBlocks(Run(m, ops1), z);
      assert Pow2(MaxOrder) == MaxPages;
      forall f: nat, k: nat
        ensures Free(z, f, k) <==> k == MaxOrder && f % MaxPages == 0 && f < MaxPages * m
      {
        if f % MaxPages == 0 && f < MaxPages * m {
          assert z.queues[MaxOrder][f / MaxPages] == f;
        }
        assert Free(z, f, k) ==> Block(z, f, k);
      }
    }
  }
}
