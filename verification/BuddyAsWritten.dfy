/** The buddy allocator's loops as the text has them, on the descriptor table and the queues: when
    they end, and on exactly which inputs they do what BuddyAlloc.dfy does. The links of the queues
    are taken as repaired (Deviations.PushNeedsDetachedPage), and so is the offset in split
    (Deviations.SplitReachesOutside). */
module BuddyAsWritten {
  import opened Options
  import opened Powers
  import opened BuddyZone
  import opened BuddyRuns
  import opened BuddyAllocator
  import opened Deviations

  // ----- split and the allocation loop -----

  /** split: null for a page that is not flagged free; otherwise the upper half starts out without
      any flag. */
  function SplitText(t: seq<Fields>, p: nat): Option<seq<Fields>>
    requires p < |t| && t[p].order > 0 && p + Pow2(t[p].order - 1) < |t|
  {
    var j := t[p].order - 1;
    if !t[p].free then None
    else Some(t[p := t[p].(order := j)][p + Pow2(j) := Fields(t[p].address + 4096 * Pow2(j), j, false)])
  }

  /** The split loop; None when split returned null and that null was pushed. */
  function SplitLoop(t: seq<Fields>, z: Zone, p: nat, ord: nat, k: nat): (r: Option<(seq<Fields>, Zone)>)
    requires k <= ord < |z.queues| && p + Pow2(ord) <= |t| && t[p].order == ord
    ensures r.Some? ==> |r.value.0| == |t|
    decreases ord
  {
    if ord == k then Some((t, z)) else
      match SplitText(t, p)
      case None => None
      case Some(u) => SplitLoop(u, Split(z, p, ord - 1), p, ord - 1, k)
  }

  datatype Attempt = Refused | NullPushed | Took(page: nat, table: seq<Fields>, zone: Zone)

  /** allocatePhysMemory4KPages */
  function AllocText(t: seq<Fields>, z: Zone, amount: nat): Attempt
    requires |z.queues| == MaxOrder + 1 && Heads(t, z)
  {
    if amount == 0 || amount > MaxPages then Refused else
      OrderInRange(amount);
      var k := CeilLog2(amount);
      var ord := FitOrder(z, k);
      if z.queues[ord] == [] then Refused else
        var p := z.queues[ord][0];
        assert Free(z, p, ord);
        match SplitLoop(t, Checkout(z, p, ord), p, ord, k)
        case None => NullPushed
        case Some(r) => Took(p, r.0[p := r.0[p].(free := false)], r.1)
  }

  /** Each queued block fits into the table, and its first descriptor knows its order. */
  ghost predicate Heads(t: seq<Fields>, z: Zone) {
    forall g: nat, j: nat :: Free(z, g, j) ==> g + Pow2(j) <= |t| && t[g].order == j
  }

  /** Of the queued blocks only those that were never cut are flagged free. */
  ghost predicate OnlyWholeFlagged(t: seq<Fields>, z: Zone) {
    Heads(t, z) && forall g: nat, j: nat :: Free(z, g, j) ==> (t[g].free <==> j == MaxOrder)
  }

  /** Descriptor g is the upper half of one of the splits of p from order ord down to order k. */
  ghost predicate Remainder(g: nat, p: nat, ord: nat, k: nat) {
    exists j: nat :: k <= j < ord && g == UpperHalf(p, j)
  }

  function UpperHalf(p: nat, j: nat): nat {
    p + Pow2(j)
  }

  /** What the loop leaves when it goes through. */
  ghost predicate CutDown(t: seq<Fields>, u: seq<Fields>, p: nat, ord: nat, k: nat) {
    && |u| == |t| && p < |t| && u[p] == t[p].(order := k)
    && (forall j: nat :: k <= j < ord ==> UpperHalf(p, j) < |u| && u[UpperHalf(p, j)].order == j && !u[UpperHalf(p, j)].free)
    && (forall g: nat :: g < |t| && g != p && !Remainder(g, p, ord, k) ==> u[g] == t[g])
  }

  /** The split loop as written goes through if and only if the block already has the order asked for
      or is flagged free, that is, was not put on its queue by an earlier split. */
  lemma {:induction false} SplitLoopEnds(t: seq<Fields>, z: Zone, p: nat, ord: nat, k: nat)
    requires k <= ord < |z.queues| && p + Pow2(ord) <= |t| && t[p].order == ord
    ensures SplitLoop(t, z, p, ord, k).Some? <==> ord == k || t[p].free
    ensures SplitLoop(t, z, p, ord, k).Some? ==>
      && SplitLoop(t, z, p, ord, k).value.1 == SplitDown(z, p, ord, k)
      && CutDown(t, SplitLoop(t, z, p, ord, k).value.0, p, ord, k)
    decreases ord
  {
    if ord > k && t[p].free {
      var u := SplitText(t, p).value;
      SplitLoopEnds(u, Split(z, p, ord - 1), p, ord - 1, k);
      CutOnce(t, u, SplitLoop(t, z, p, ord, k).value.0, p, ord, k);
    }
  }

  lemma CutOnce(t: seq<Fields>, u: seq<Fields>, r: seq<Fields>, p: nat, ord: nat, k: nat)
    requires k < ord && p + Pow2(ord) <= |t| && t[p].order == ord && SplitText(t, p) == Some(u)
    requires CutDown(u, r, p, ord - 1, k)
    ensures CutDown(t, r, p, ord, k)
  {
    var b := UpperHalf(p, ord - 1);
    assert !Remainder(b, p, ord - 1, k) by {
      forall j: nat | k <= j < ord - 1
        ensures b != UpperHalf(p, j)
      {
        Pow2Monotone(j, ord - 1);
      }
    }
    assert Remainder(b, p, ord, k);
    forall g: nat | g < |t| && g != p && !Remainder(g, p, ord, k)
      ensures r[g] == t[g]
    {
      RemainderStays(g, p, ord, k);
    }
  }

  lemma RemainderStays(g: nat, p: nat, ord: nat, k: nat)
    requires k < ord
    ensures Remainder(g, p, ord - 1, k) ==> Remainder(g, p, ord, k)
  {
    if Remainder(g, p, ord - 1, k) {
      var j: nat :| k <= j < ord - 1 && g == UpperHalf(p, j);
      assert k <= j < ord;
    }
  }

  /** A request is met as written if no block is large enough (then it is refused, rightly), or the
      smallest sufficient block needs no cutting, or it is a whole 4 MiB block. */
  predicate Goes(z: Zone, amount: nat)
    requires |z.queues| == MaxOrder + 1
  {
    Alloc(z, amount).1 == None ||
    (OrderInRange(amount);
     FitOrder(z, CeilLog2(amount)) == CeilLog2(amount) || FitOrder(z, CeilLog2(amount)) == MaxOrder)
  }

  /** One request as written: it pushes a null exactly when it does not go; otherwise it does to the
      queues what the repaired allocator does, and again only whole blocks are flagged. */
  lemma AllocTextStep(t: seq<Fields>, z: Zone, amount: nat)
    requires Inv(z) && |t| == z.n && OnlyWholeFlagged(t, z)
    ensures var a, r := AllocText(t, z, amount), Alloc(z, amount);
      && (a.NullPushed? <==> !Goes(z, amount))
      && (a.Refused? <==> r.1 == None)
      && (a.Took? ==> Some(a.page) == r.1 && a.zone == r.0 && |a.table| == |t| && Inv(r.0)
                      && OnlyWholeFlagged(a.table, r.0))
  {
    if 0 < amount <= MaxPages {
      OrderInRange(amount);
      var k := CeilLog2(amount);
      var ord := FitOrder(z, k);
      if z.queues[ord] != [] {
        var p := z.queues[ord][0];
        assert Free(z, p, ord);
        var c := Checkout(z, p, ord);
        SplitLoopEnds(t, c, p, ord, k);
        if ord == k || ord == MaxOrder {
          TakeAndSplit(z, ord, k);
          var u := SplitLoop(t, c, p, ord, k).value.0;
          FlagsAfter(t, u, z, SplitDown(c, p, ord, k), p, ord, k);
        }
      }
    }
  }

  /** The blocks queued afterwards are those queued before, but for p, and the remainders. */
  lemma FlagsAfter(t: seq<Fields>, u: seq<Fields>, z: Zone, w: Zone, p: nat, ord: nat, k: nat)
    requires Inv(z) && Inv(w) && |t| == z.n == w.n && OnlyWholeFlagged(t, z) && CutDown(t, u, p, ord, k)
    requires k <= ord <= MaxOrder && TakenFrom(z, w, p, ord, k)
    ensures OnlyWholeFlagged(u[p := u[p].(free := false)], w)
  {
    var v := u[p := u[p].(free := false)];
    forall g: nat, j: nat | Free(w, g, j)
      ensures g + Pow2(j) <= |v| && v[g].order == j && (v[g].free <==> j == MaxOrder)
    {
      InsideZone(w, g, j);
      QueuedAfter(z, w, p, ord, k, g, j);
      if k <= j < ord && g == UpperHalf(p, j) {
        assert v[g] == u[UpperHalf(p, j)];
      } else {
        assert Free(z, g, j);
        assert u[g] == t[g];
      }
    }
  }

  lemma QueuedAfter(z: Zone, w: Zone, p: nat, ord: nat, k: nat, g: nat, j: nat)
    requires Inv(z) && Inv(w) && k <= ord <= MaxOrder && TakenFrom(z, w, p, ord, k) && Free(w, g, j)
    ensures g != p
    ensures (k <= j < ord && g == UpperHalf(p, j)) || (Free(z, g, j) && !Remainder(g, p, ord, k))
  {
    assert Live(w, p, k);
    if !(k <= j < ord && g == UpperHalf(p, j)) {
      if Remainder(g, p, ord, k) {
        var i: nat :| k <= i < ord && g == UpperHalf(p, i);
        assert w.queues[i][|w.queues[i]| - 1] == g;
        assert Free(w, g, i);
        SameStart(w, g, i, j);
      }
    }
  }

  // ----- runs of requests -----

  function Requests(amounts: seq<nat>): (ops: seq<Op>)
    ensures |ops| == |amounts| && forall i :: 0 <= i < |ops| ==> ops[i] == AllocOp(amounts[i])
  {
    seq(|amounts|, i requires 0 <= i < |amounts| => AllocOp(amounts[i]))
  }

  /** The descriptors as initialisation leaves them. */
  function FreshTable(m: nat): (t: seq<Fields>)
    ensures |t| == MaxPages * m
  {
    seq(MaxPages * m, f requires 0 <= f < MaxPages * m =>
      Fields(4096 * f, if f % MaxPages == 0 then MaxOrder else 0, true))
  }

  /** The table after a series of requests to a fresh zone; None once a null has been pushed. */
  ghost function RunText(m: nat, amounts: seq<nat>): (r: Option<seq<Fields>>)
    ensures r.Some? ==> |r.value| == MaxPages * m && OnlyWholeFlagged(r.value, Run(m, Requests(amounts)))
  {
    if amounts == [] then
      FreshFlagged(m);
      Some(FreshTable(m))
    else
      var before, amount := amounts[..|amounts| - 1], amounts[|amounts| - 1];
      var z := Run(m, Requests(before));
      RequestsPrefix(m, amounts);
      match RunText(m, before)
      case None => None
      case Some(t) =>
        AllocTextStep(t, z, amount);
        match AllocText(t, z, amount)
        case NullPushed => None
        case Refused => AllocIsBestFit(z, amount); Some(t)
        case Took(_, u, _) => Some(u)
  }

  lemma FreshFlagged(m: nat)
    ensures OnlyWholeFlagged(FreshTable(m), Run(m, Requests([])))
  {
    var z := Initial(m);
    InitialInv(m);
    assert Run(m, Requests([])) == z;
    forall g: nat, j: nat | Free(z, g, j)
      ensures j == MaxOrder && g + Pow2(j) <= MaxPages * m && g % MaxPages == 0
    {
      assert Block(z, g, j);
      InsideZone(z, g, j);
      assert Pow2(MaxOrder) == MaxPages;
    }
  }

  lemma RequestsPrefix(m: nat, amounts: seq<nat>)
    requires amounts != []
    ensures var before, amount := amounts[..|amounts| - 1], amounts[|amounts| - 1];
      Run(m, Requests(amounts)) == Alloc(Run(m, Requests(before)), amount).0
  {
    var ops := Requests(amounts);
    assert ops[..|ops| - 1] == Requests(amounts[..|amounts| - 1]);
  }

  lemma RunTextStep(m: nat, amounts: seq<nat>)
    requires amounts != []
    ensures var before, z := amounts[..|amounts| - 1], Run(m, Requests(amounts[..|amounts| - 1]));
      RunText(m, amounts).Some? <==> RunText(m, before).Some? && Goes(z, amounts[|amounts| - 1])
  {
    var before, amount := amounts[..|amounts| - 1], amounts[|amounts| - 1];
    if RunText(m, before).Some? {
      AllocTextStep(RunText(m, before).value, Run(m, Requests(before)), amount);
    }
  }

  /** Request i of the series goes, in its turn. */
  ghost predicate GoesInTurn(m: nat, amounts: seq<nat>, i: nat)
    requires i < |amounts|
  {
    Goes(Run(m, Requests(amounts[..i])), amounts[i])
  }

  /** A series of requests as written goes through if and only if each of them, in its turn, goes. */
  lemma {:induction false} RunTextGoes(m: nat, amounts: seq<nat>)
    ensures RunText(m, amounts).Some? <==> forall i :: 0 <= i < |amounts| ==> GoesInTurn(m, amounts, i)
    decreases |amounts|
  {
    hide *;
    if amounts == [] {
      EmptyRunGoes(m);
    } else {
      RunTextGoes(m, amounts[..|amounts| - 1]);
      RunTextStep(m, amounts);
      SameTurns(m, amounts);
    }
  }

  lemma EmptyRunGoes(m: nat)
    ensures RunText(m, []).Some?
  {
  }

  lemma SameTurns(m: nat, amounts: seq<nat>)
    requires amounts != []
    ensures var n := |amounts| - 1;
      && (forall i :: 0 <= i < n ==> (GoesInTurn(m, amounts[..n], i) <==> GoesInTurn(m, amounts, i)))
      && (GoesInTurn(m, amounts, n) <==> Goes(Run(m, Requests(amounts[..n])), amounts[n]))
  {
    hide Run, Goes;
    var before := amounts[..|amounts| - 1];
    forall i: nat | i < |before|
      ensures GoesInTurn(m, before, i) <==> GoesInTurn(m, amounts, i)
    {
      assert before[..i] == amounts[..i];
    }
  }

  /** The shortest series that does not: three single pages from one fresh 4 MiB block. The third one
      finds a block of two pages that the first one cut off. */
  lemma ThirdRequestFails()
    ensures RunText(1, [1, 1]).Some? && RunText(1, [1, 1, 1]) == None
  {
    var a: seq<nat>, b: seq<nat>, c: seq<nat> := [1], [1, 1], [1, 1, 1];
    assert a[..0] == [] && b[..1] == a && c[..2] == b;
    ThreeRuns(1, [], a, b);
    hide *;
    EmptyRunGoes(1);
    RunTextStep(1, a);
    RunTextStep(1, b);
    RunTextStep(1, c);
  }

  /** The zone before the first, the second and the third request. */
  lemma ThreeRuns(m: nat, e: seq<nat>, a: seq<nat>, b: seq<nat>)
    requires m == 1 && e == [] && a == [1] && b == [1, 1]
    ensures Goes(Run(m, Requests(e)), 1) && Goes(Run(m, Requests(a)), 1) && !Goes(Run(m, Requests(b)), 1)
  {
    assert a[..0] == e && b[..1] == a;
    RequestsPrefix(m, a);
    RequestsPrefix(m, b);
    assert Run(m, Requests(e)) == Initial(m);
    hide *;
    FirstSingle(Run(m, Requests(e)), 1);
    SecondSingle(Run(m, Requests(a)), 1);
    NoSingle(Run(m, Requests(b)), 1);
  }

  lemma FirstSingle(z: Zone, one: nat)
    requires z == Initial(1) && one == 1
    ensures |z.queues| == MaxOrder + 1 && Goes(z, one)
    ensures var w := Alloc(z, one).0;
      Inv(w) && |w.queues| == MaxOrder + 1 && w.queues[0] == [1] && w.queues[1] == [2]
  {
    InitialInv(1);
    AllocIsBestFit(z, one);
    assert CeilLog2(one) == 0;
    EmptyBelow(z, 0);
  }

  lemma SecondSingle(z: Zone, one: nat)
    requires Inv(z) && |z.queues| == MaxOrder + 1 && z.queues[0] == [1] && z.queues[1] == [2] && one == 1
    ensures Goes(z, one)
    ensures var w := Alloc(z, one).0;
      Inv(w) && |w.queues| == MaxOrder + 1 && w.queues[0] == [] && w.queues[1] == [2]
  {
    AllocIsBestFit(z, one);
    assert CeilLog2(one) == 0;
    assert FitOrder(z, 0) == 0;
  }

  lemma NoSingle(z: Zone, one: nat)
    requires Inv(z) && |z.queues| == MaxOrder + 1 && z.queues[0] == [] && z.queues[1] == [2] && one == 1
    ensures !Goes(z, one)
  {
    AllocIsBestFit(z, one);
    assert CeilLog2(one) == 0;
    assert FitOrder(z, 0) == 1;
  }

  // ----- merge and the coalescing loop -----

  ghost predicate Addressed(t: seq<Fields>, base: nat) {
    forall g :: 0 <= g < |t| ==> t[g].address == base + 4096 * g
  }

  /** merge's test: it refuses unless both pages are flagged free and one size apart. */
  predicate MergeRefuses(p: Fields, n: Fields) {
    !(p.free && n.free) || Distance(p.address, n.address) != 4096 * Pow2(p.order)
  }

  function Distance(a: nat, b: nat): nat {
    if a < b then b - a else a - b
  }

  /** The test before takeAway and takeAway itself, on queues with clean links: the only page of a
      queue has none and is left where it is. */
  function TakeAwayText(queues: seq<seq<nat>>, order: nat, n: nat): (r: seq<seq<nat>>)
    ensures |r| == |queues|
  {
    if order < |queues| && |queues[order]| > 1 && n in queues[order] then
      queues[order := Remove(queues[order], n)]
    else queues
  }

  /** How the loop of freePhysMemory4KPages ends: with the page queued, outside the descriptors of the
      zone or above the top order, or in a turn that changes nothing because merge refused. */
  datatype End = Ended(queues: seq<seq<nat>>) | Outside | Stuck

  /** The loop, with the address test as the text has it. */
  function FreeLoop(t: seq<Fields>, base: nat, queues: seq<seq<nat>>, p: nat): End
    requires p < |t| && Addressed(t, base)
    decreases p, if t[p].order <= 10 then 11 - t[p].order else 0
  {
    var o := t[p].order;
    if o >= 10 || o >= |queues| then
      if o < |queues| then Ended(queues[o := queues[o] + [p]]) else Outside
    else
      OtherIsBelow(t[p].address, o);
      var other := WrittenOther(t[p].address, 4096 * Pow2(o));
      if other < base then Outside
      else
        var n := p - Pow2(o);
        assert t[n].address == other;
        if !t[n].free then Ended(queues[o := queues[o] + [p]])
        else
          var q := TakeAwayText(queues, t[n].order, n);
          if MergeRefuses(t[p], t[n]) then Stuck
          else if t[p].address % (2 * (4096 * Pow2(o))) != 0 then FreeLoop(t[p := t[p].(order := o + 1)], base, q, p)
          else FreeLoop(t[n := t[n].(order := t[n].order + 1)], base, q, n)
  }

  /** The shift count 2 * size is a multiple of 32, so the test is of an address modulo 1. */
  lemma OtherIsBelow(address: nat, o: nat)
    ensures WrittenOther(address, 4096 * Pow2(o)) == address - 4096 * Pow2(o)
  {
    Quotient(2 * (4096 * Pow2(o)), 256 * Pow2(o), 32, 0);
    assert Pow2(0) == 1;
  }

  /** merge cannot refuse in the loop while the descriptors hold their addresses: it is called on two
      flagged pages whose distance is the size the address was computed with. */
  lemma {:induction false} NeverStuck(t: seq<Fields>, base: nat, queues: seq<seq<nat>>, p: nat)
    requires p < |t| && Addressed(t, base) && t[p].free
    ensures !FreeLoop(t, base, queues, p).Stuck?
    decreases p, if t[p].order <= 10 then 11 - t[p].order else 0
  {
    hide Pow2, WrittenOther, TakeAwayText;
    var o := t[p].order;
    if o < 10 && o < |queues| {
      OtherIsBelow(t[p].address, o);
      if p >= Pow2(o) && t[p - Pow2(o)].free {
        var n: nat := p - Pow2(o);
        var q := TakeAwayText(queues, t[n].order, n);
        assert !MergeRefuses(t[p], t[n]);
        if t[p].address % (2 * (4096 * Pow2(o))) != 0 {
          NeverStuck(t[p := t[p].(order := o + 1)], base, q, p);
        } else {
          NeverStuck(t[n := t[n].(order := t[n].order + 1)], base, q, n);
        }
      }
    }
  }

  /** p is a multiple of 2^e and of no higher power. */
  predicate Exactly(p: nat, e: nat) {
    Aligned(p, e) && !Aligned(p, e + 1)
  }

  /** The queues hold what they held, or less, and page p at order m, which as a block is misaligned or
      ends before frame f. */
  ghost predicate Stray(queues: seq<seq<nat>>, r: seq<seq<nat>>, f: nat, p: nat, m: nat) {
    && |r| == |queues| && m < |r| && p in r[m]
    && (forall g: nat, j: nat :: j < |r| && g in r[j] ==> g in queues[j] || (g == p && j == m))
    && (Aligned(p, m) ==> p + Pow2(m) <= f)
  }

  ghost predicate SomeStray(queues: seq<seq<nat>>, r: seq<seq<nat>>, f: nat) {
    exists p: nat, m: nat :: Stray(queues, r, f, p, m)
  }

  lemma {:induction false} RemoveIsPart(q: seq<nat>, f: nat)
    ensures forall g :: g in Remove(q, f) ==> g in q
  {
    if q != [] {
      RemoveIsPart(q[1..], f);
    }
  }

  lemma StrayStill(queues: seq<seq<nat>>, order: nat, n: nat, r: seq<seq<nat>>, f: nat)
    requires SomeStray(TakeAwayText(queues, order, n), r, f)
    ensures SomeStray(queues, r, f)
  {
    var p: nat, m: nat :| Stray(TakeAwayText(queues, order, n), r, f, p, m);
    if order < |queues| {
      RemoveIsPart(queues[order], n);
    }
    assert Stray(queues, r, f, p, m);
  }

  /** Once the loop is at a page below f that its blocks cannot reach f from, or at one whose order is
      above its alignment, it stays so and queues such a block. */
  lemma {:induction false} GoesAstray(t: seq<Fields>, base: nat, queues: seq<seq<nat>>, p: nat, f: nat, e: nat)
    requires p < |t| && Addressed(t, base) && t[p].free && base % (4096 * 1024) == 0 && |queues| == 11
    requires Exactly(p, e) && (t[p].order > e || p + Pow2(e) <= f)
    ensures var r := FreeLoop(t, base, queues, p); r.Ended? ==> SomeStray(queues, r.queues, f)
    decreases p, if t[p].order <= 10 then 11 - t[p].order else 0
  {
    hide *;
    var o, r := t[p].order, FreeLoop(t, base, queues, p);
    Turn(t, base, queues, p);
    if o >= 10 || p < Pow2(o) || !t[p - Pow2(o)].free {
      StrayHere(queues, p, o, f, e);
    } else {
      var n: nat := p - Pow2(o);
      var q, u := TakeAwayText(queues, t[n].order, n), NextTable(t, p);
      if Aligned(p, o + 1) {
        StepDown(p, o, e);
        GoesAstray(u, base, q, n, f, o);
      } else {
        GoesAstray(u, base, q, p, f, e);
      }
      if r.Ended? {
        StrayStill(queues, t[n].order, n, r.queues, f);
      }
    }
  }

  /** The table after a merge: the order of the page that carries on is one higher. */
  function NextTable(t: seq<Fields>, p: nat): (u: seq<Fields>)
    requires p < |t| && p >= Pow2(t[p].order)
    ensures |u| == |t|
  {
    var n: nat := p - Pow2(t[p].order);
    if Aligned(p, t[p].order + 1) then t[n := t[n].(order := t[n].order + 1)]
    else t[p := t[p].(order := t[p].order + 1)]
  }

  /** One turn of the loop on a flagged page, in terms of alignment. */
  lemma Turn(t: seq<Fields>, base: nat, queues: seq<seq<nat>>, p: nat)
    requires base % (4096 * 1024) == 0 && Addressed(t, base) && |queues| == 11 && p < |t| && t[p].free
    ensures var o, r := t[p].order, FreeLoop(t, base, queues, p);
      && (o >= 10 || p < Pow2(o) || !t[p - Pow2(o)].free ==>
            r.Ended? ==> o < |queues| && r.queues == queues[o := queues[o] + [p]])
      && (o < 10 && p >= Pow2(o) && t[p - Pow2(o)].free ==>
            && var n, u, q := p - Pow2(o), NextTable(t, p), TakeAwayText(queues, t[p - Pow2(o)].order, p - Pow2(o));
            && Addressed(u, base) && u[n].free && u[p].free
            && (Aligned(p, o + 1) ==> u[n].order == t[n].order + 1 && r == FreeLoop(u, base, q, n))
            && (!Aligned(p, o + 1) ==> u[p].order == o + 1 && r == FreeLoop(u, base, q, p)))
  {
    hide Aligned, Pow2, WrittenOther, TakeAwayText;
    var o := t[p].order;
    OtherIsBelow(t[p].address, o);
    if o < 10 {
      AddressAligned(base, p, o);
      assert p >= Pow2(o) && t[p - Pow2(o)].free ==> !MergeRefuses(t[p], t[p - Pow2(o)]);
    }
  }

  lemma StrayHere(queues: seq<seq<nat>>, p: nat, o: nat, f: nat, e: nat)
    requires Exactly(p, e) && (o > e || p + Pow2(e) <= f)
    ensures o < |queues| ==> SomeStray(queues, queues[o := queues[o] + [p]], f)
  {
    if o < |queues| {
      if o > e {
        if Aligned(p, o) {
          AlignedLower(p, e + 1, o);
        }
      } else if o < e {
        Pow2Monotone(o, e);
      }
      assert Stray(queues, queues[o := queues[o] + [p]], f, p, o);
    }
  }

  /** Below an aligned page, the page one size down has exactly that alignment. */
  lemma StepDown(p: nat, o: nat, e: nat)
    requires Exactly(p, e) && Aligned(p, o + 1) && p >= Pow2(o)
    ensures o < e && Pow2(o) <= Pow2(e) && Exactly(p - Pow2(o), o)
  {
    if e <= o {
      AlignedLower(p, e + 1, o + 1);
    } else {
      Pow2Monotone(o, e);
    }
    LowerNeighbour(p, o);
  }

  lemma LowerNeighbour(p: nat, o: nat)
    requires Aligned(p, o + 1) && p >= Pow2(o)
    ensures Exactly(p - Pow2(o), o)
  {
    DownOne(p, Pow2(o), p / (2 * Pow2(o)));
  }

  lemma DownOne(p: nat, h: nat, q: nat)
    requires h > 0 && p % (2 * h) == 0 && p >= h && q == p / (2 * h)
    ensures (p - h) % h == 0 && (p - h) % (2 * h) == h
  {
    DivMod(p, 2 * h);
    if q > 0 {
      var below: nat := q - 1;
      assert below * (2 * h) + 2 * h == q * (2 * h);
      Halves(below, h, p - h, 1);
    }
  }

  // ----- freeing a live block -----

  /** f is not covered by a stray block, so what holds it is neither that nor anything queued before. */
  lemma StrayLeavesAHole(z: Zone, f: nat, k: nat, r: seq<seq<nat>>)
    requires Inv(z) && Live(z, f, k) && SomeStray(z.queues, r, f)
    ensures !Inv(z.(queues := r, live := z.live - {f}))
  {
    var w := z.(queues := r, live := z.live - {f});
    if Inv(w) {
      assert Block(z, f, k);
      InsideZone(z, f, k);
      assert InSomeBlock(w, f);
      var j: nat :| Covers(w, f, j);
      HeadUnique(f, Head(f, j), j);
      assert Block(w, Head(f, j), j);
      NothingHoldsIt(z, f, k, r, Head(f, j), j);
    }
  }

  lemma NothingHoldsIt(z: Zone, f: nat, k: nat, r: seq<seq<nat>>, g: nat, j: nat)
    requires Inv(z) && Live(z, f, k) && SomeStray(z.queues, r, f)
    requires Aligned(g, j) && g <= f < g + Pow2(j)
    ensures !Block(z.(queues := r, live := z.live - {f}), g, j)
  {
    var p: nat, m: nat :| Stray(z.queues, r, f, p, m);
    assert Block(z, f, k);
    BlockCoversItsHead(z, f, k);
    HeadUnique(f, g, j);
    HeadUnique(f, f, k);
    if Block(z, g, j) {
      assert Covers(z, f, j);
      assert j == k && g == f;
      assert !Free(z, f, k);
    }
  }

  lemma ReleaseIffNoFreeBuddy(z: Zone, f: nat, k: nat)
    requires Inv(z) && Live(z, f, k)
    ensures k < |z.queues|
    ensures Inv(z.(queues := z.queues[k := z.queues[k] + [f]], live := z.live - {f}))
            <==> k == MaxOrder || (Aligned(f, k) && !Free(z, Buddy(f, k), k))
  {
    LiveOrder(z, f, k);
    var w := Release(z, f, k);
    assert w == z.(queues := z.queues[k := z.queues[k] + [f]], live := z.live - {f});
    if k < MaxOrder && Free(z, Buddy(f, k), k) {
      BuddyPair(f, k);
      assert Free(w, f, k) && Free(w, Buddy(f, k), k);
    } else {
      ReleaseKeeps(z, f, k);
    }
  }

  /** The page one size below f is not flagged free, and the buddy of f is not free. */
  predicate StopsAtOnce(t: seq<Fields>, z: Zone, f: nat, k: nat)
    requires f < |t| && Aligned(f, k)
  {
    f >= Pow2(k) && !t[f - Pow2(k)].free && !Free(z, Buddy(f, k), k)
  }

  /** Freeing a live block of order k as written, from the moment it is flagged: the zone is well
      formed afterwards, with the block no longer live, if and only if there is nothing to do, which is
      when k is the top order or the loop stops at once and rightly so. */
  lemma FreeLoopKeeps(t: seq<Fields>, base: nat, z: Zone, f: nat, k: nat)
    requires base % (4096 * 1024) == 0 && Inv(z) && Live(z, f, k) && Described(t, base, z, f)
    requires f < |t| && t[f].free
    ensures Aligned(f, k) && Addressed(t, base)
    ensures var e := FreeLoop(t, base, z.queues, f);
      (e.Ended? && Inv(z.(queues := e.queues, live := z.live - {f}))) <==> k == MaxOrder || StopsAtOnce(t, z, f, k)
  {
    LiveOrder(z, f, k);
    ReleaseIffNoFreeBuddy(z, f, k);
    var e := FreeLoop(t, base, z.queues, f);
    if k < MaxOrder {
      OtherIsBelow(t[f].address, k);
      if f >= Pow2(k) && t[f - Pow2(k)].free {
        FirstTurnStrays(t, base, z.queues, f, k);
        if e.Ended? {
          StrayLeavesAHole(z, f, k, e.queues);
        }
      }
    }
  }

  lemma FirstTurnStrays(t: seq<Fields>, base: nat, queues: seq<seq<nat>>, f: nat, k: nat)
    requires base % (4096 * 1024) == 0 && Addressed(t, base) && |queues| == 11
    requires f < |t| && t[f].free && t[f].order == k < MaxOrder && Aligned(f, k)
    requires f >= Pow2(k) && t[f - Pow2(k)].free
    ensures var e := FreeLoop(t, base, queues, f); e.Ended? ==> SomeStray(queues, e.queues, f)
  {
    var n: nat := f - Pow2(k);
    var q := TakeAwayText(queues, t[n].order, n);
    OtherIsBelow(t[f].address, k);
    AddressAligned(base, f, k);
    assert !MergeRefuses(t[f], t[n]);
    if Aligned(f, k + 1) {
      LowerNeighbour(f, k);
      GoesAstray(t[n := t[n].(order := t[n].order + 1)], base, q, n, f, k);
    } else {
      GoesAstray(t[f := t[f].(order := k + 1)], base, q, f, f, k);
    }
    var e := FreeLoop(t, base, queues, f);
    if e.Ended? {
      StrayStill(queues, t[n].order, n, e.queues, f);
    }
  }
}
