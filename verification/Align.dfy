/** Rounding helpers: alignTwoExponent, ALIGN_PAGE and PAGE_ORDER. */
module Align {
  import opened Powers
  import opened Words

  /** One smearing step, x |= x >> s. */
  function Smear(y: nat, s: nat): nat {
    Or(y, Shr(y, s))
  }

  /** The first n steps, by 1, 2, 4, ..., 2^(n-1). */
  function Smeared(y: nat, n: nat): nat {
    if n == 0 then y else Smear(Smeared(y, n - 1), Pow2(n - 1))
  }

  /** Rounding by n smearing steps on 64-bit words: the decrement and the increment wrap. */
  function RoundUp(x: nat, n: nat): nat
    requires x < WordSize
  {
    var y := if x == 0 then WordSize - 1 else x - 1;
    (Smeared(y, n) + 1) % WordSize
  }

  /** The shifts go up to 32. */
  function AlignTwoExponent(x: nat): nat
    requires x < WordSize
  {
    RoundUp(x, 6)
  }

  /** The older helper stops at 16. */
  function AlignPage(x: nat): nat
    requires x < WordSize
  {
    RoundUp(x, 5)
  }

  /** y has at most L bits and its top c bits are ones. */
  ghost predicate TopOnes(y: nat, L: nat, c: nat) {
    c <= L && Shr(y, L) == 0 && Shr(y, L - c) == Ones(c)
  }

  function Min(a: nat, b: nat): nat {
    if a < b then a else b
  }

  /** A step by c doubles the block of c leading ones, up to the length of the word. */
  lemma SmearStep(y: nat, L: nat, c: nat)
    requires TopOnes(y, L, c)
    ensures TopOnes(Smear(y, c), L, Min(2 * c, L))
  {
    StaysBelow(y, L, c);
    var d := Min(c, L - c);
    var m := L - c - d;
    OrSplit(y, Shr(y, c), m);
    var A, B := Shr(y, m), Shr(Shr(y, c), m);
    ShrShr(y, m, d);
    assert Shr(A, d) == Ones(c);
    ShrShr(y, c, m);
    ShrShr(y, L - c, c - d);
    OnesSplit(d, c - d);
    assert B == Ones(d);
    OrSplit(A, B, d);
    LowBelow(A, d);
    LowBelow(B, d);
    OrOnes(Low(A, d), d);
    OnesSplit(c, d);
    JoinUnique(Or(A, B), Ones(c + d), d);
  }

  lemma StaysBelow(y: nat, L: nat, c: nat)
    requires Shr(y, L) == 0
    ensures Shr(Smear(y, c), L) == 0
  {
    OrSplit(y, Shr(y, c), L);
    ShrSmaller(y, c);
    LowBelow(y, L);
    LowBelow(Shr(y, c), L);
  }

  lemma SmearAgain(y: nat, L: nat, c: nat)
    requires TopOnes(y, L, Min(c, L))
    ensures TopOnes(Smear(y, c), L, Min(2 * c, L))
  {
    if c <= L {
      SmearStep(y, L, c);
    } else {
      LowBelow(y, L);
      ShrSmaller(y, c);
      OrOnes(Shr(y, c), L);
    }
  }

  lemma {:induction false} SmearedOnes(y: nat, L: nat, n: nat)
    requires TopOnes(y, L, Min(1, L))
    ensures TopOnes(Smeared(y, n), L, Min(Pow2(n), L))
  {
    if n > 0 {
      SmearedOnes(y, L, n - 1);
      SmearAgain(Smeared(y, n - 1), L, Pow2(n - 1));
    }
  }

  lemma SmearedToOnes(y: nat, L: nat, n: nat)
    requires TopOnes(y, L, Min(1, L)) && L <= Pow2(n)
    ensures Smeared(y, n) == Ones(L)
  {
    SmearedOnes(y, L, n);
  }

  lemma LogBound(x: nat, k: nat)
    requires 0 < x
    ensures x <= Pow2(k) <==> CeilLog2(x) <= k
  {
    var L := CeilLog2(x);
    if k < L {
      Pow2Monotone(k, L);
    } else if L < k {
      Pow2Monotone(L, k);
    }
  }

  /** x - 1 has CeilLog2(x) bits, the top one of them set. */
  lemma {:induction false} TopBit(y: nat, L: nat)
    requires L > 0 && Pow2(L - 1) <= y < Pow2(L)
    ensures TopOnes(y, L, 1)
    decreases L
  {
    LowBelow(y, L);
    if L > 1 {
      TopBit(y / 2, L - 1);
    }
  }

  lemma CeilingBits(x: nat)
    requires x > 0
    ensures TopOnes(x - 1, CeilLog2(x), Min(1, CeilLog2(x)))
  {
    var L := CeilLog2(x);
    if x > 1 {
      LogBound(x, L - 1);
      TopBit(x - 1, L);
    }
  }

  /** n steps round up correctly for every x up to 2^(2^n) that does not reach the top bit. */
  lemma RoundUpIsCeiling(x: nat, n: nat)
    requires 1 <= x <= WordSize / 2 && CeilLog2(x) <= Pow2(n)
    ensures RoundUp(x, n) == Pow2(CeilLog2(x))
  {
    CeilingFits(x);
    SmearedBelow(x, n);
  }

  lemma SmearedBelow(x: nat, n: nat)
    requires x > 0 && CeilLog2(x) <= Pow2(n)
    ensures Smeared(x - 1, n) == Ones(CeilLog2(x))
  {
    CeilingBits(x);
    SmearedToOnes(x - 1, CeilLog2(x), n);
  }

  lemma CeilingFits(x: nat)
    requires 1 <= x <= WordSize / 2
    ensures Pow2(CeilLog2(x)) <= WordSize / 2 && CeilLog2(x) <= 63
  {
    WordPowers();
    CeilingIsLeast(x, 63);
  }

  lemma CeilingIsLeast(x: nat, k: nat)
    requires 0 < x <= Pow2(k)
    ensures Pow2(CeilLog2(x)) <= Pow2(k) && CeilLog2(x) <= k
  {
    LogBound(x, k);
    if CeilLog2(x) < k {
      Pow2Monotone(CeilLog2(x), k);
    }
  }

  lemma RoundUpWraps(x: nat, n: nat)
    requires x < WordSize && (x == 0 || (x > WordSize / 2 && n == 6))
    ensures RoundUp(x, n) == 0
  {
    WordPowers();
    if x == 0 {
      AllOnesStay(WordSize - 1, n);
    } else {
      assert Pow2(n) == 64;
      LogBound(x, 64);
      LogBound(x, 63);
      CeilingBits(x);
      hide Pow2, CeilLog2, TopOnes;
      SmearedToOnes(x - 1, 64, n);
    }
    hide *;
    AllOnesWrap(x, n);
  }

  lemma AllOnesWrap(x: nat, n: nat)
    requires x < WordSize && Smeared(if x == 0 then WordSize - 1 else x - 1, n) == Ones(64)
    ensures RoundUp(x, n) == 0
  {
    WordPowers();
    hide Smeared;
  }

  /** For 1 <= x <= 2^63 the result is the least power of two that is at least x. Above that it
      wraps to 0, and so it does for 0. */
  lemma AlignTwoExponentIsCeiling(x: nat)
    requires x < WordSize
    ensures 1 <= x <= WordSize / 2 ==>
      && AlignTwoExponent(x) == Pow2(CeilLog2(x)) >= x
      && forall k: nat :: x <= Pow2(k) ==> AlignTwoExponent(x) <= Pow2(k)
    ensures x == 0 || x > WordSize / 2 ==> AlignTwoExponent(x) == 0
  {
    if 1 <= x <= WordSize / 2 {
      CeilingFits(x);
      assert Pow2(6) == 64;
      RoundUpIsCeiling(x, 6);
      forall k: nat | x <= Pow2(k)
        ensures Pow2(CeilLog2(x)) <= Pow2(k)
      {
        CeilingIsLeast(x, k);
      }
    } else {
      RoundUpWraps(x, 6);
    }
  }

  // ----- the missing step -----

  /** Some bit of y from m up to, but not including, m + w is set. */
  ghost predicate SetWithin(y: nat, m: nat, w: nat) {
    exists i: nat :: m <= i < m + w && BitN(y, i)
  }

  lemma JoinWindows(y: nat, m: nat, w: nat)
    ensures SetWithin(y, m, 2 * w) <==> SetWithin(y, m, w) || SetWithin(y, m + w, w)
  {
    if SetWithin(y, m, 2 * w) {
      var i: nat :| m <= i < m + 2 * w && BitN(y, i);
      assert i < m + w || m + w <= i < m + w + w;
    }
    if SetWithin(y, m, w) {
      var i: nat :| m <= i < m + w && BitN(y, i);
      assert m <= i < m + 2 * w;
    }
    if SetWithin(y, m + w, w) {
      var i: nat :| m + w <= i < m + w + w && BitN(y, i);
      assert m <= i < m + 2 * w;
    }
  }

  /** n smearing steps set bit m exactly when one of the 2^n bits from m on was set. */
  lemma {:induction false} SmearedBit(y: nat, n: nat, m: nat)
    ensures BitN(Smeared(y, n), m) <==> SetWithin(y, m, Pow2(n))
    decreases n
  {
    if n == 0 {
      assert BitN(y, m) ==> m <= m < m + Pow2(0);
    } else {
      var s, w := Smeared(y, n - 1), Pow2(n - 1);
      SmearedBit(y, n - 1, m);
      SmearedBit(y, n - 1, m + w);
      hide BitN, Smeared, SetWithin, Pow2;
      OrBit(s, Shr(s, w), m);
      ShiftedBit(s, w, m);
      JoinWindows(y, m, w);
      SmearedStep(y, n);
    }
  }

  lemma SmearedStep(y: nat, n: nat)
    requires n > 0
    ensures Smeared(y, n) == Or(Smeared(y, n - 1), Shr(Smeared(y, n - 1), Pow2(n - 1))) && Pow2(n) == 2 * Pow2(n - 1)
  {
  }

  lemma ShiftedBit(a: nat, w: nat, m: nat)
    ensures BitN(Shr(a, w), m) <==> BitN(a, m + w)
  {
    ShrShr(a, w, m);
  }

  /** A number below 2^L is all ones exactly when its L bits are set. */
  lemma {:induction false} AllBitsSet(a: nat, L: nat)
    requires a < Pow2(L)
    ensures a == Ones(L) <==> forall m: nat :: m < L ==> BitN(a, m)
    decreases L
  {
    if L > 0 {
      AllBitsSet(a / 2, L - 1);
      assert BitN(a, 0) <==> a % 2 == 1;
      forall m: nat | m < L - 1
        ensures BitN(a / 2, m) <==> BitN(a, m + 1)
      {
      }
      if forall m: nat :: m < L ==> BitN(a, m) {
        forall m: nat | m < L - 1
          ensures BitN(a / 2, m)
        {
          assert BitN(a, m + 1);
        }
      }
      if a == Ones(L) {
        forall m: nat | m < L
          ensures BitN(a, m)
        {
          OnesBit(L, m);
        }
      }
    }
  }

  /** Each window of w bits of y that starts below bit L has a set bit. */
  ghost predicate NoGap(y: nat, L: nat, w: nat) {
    forall m: nat :: m < L ==> SetWithin(y, m, w)
  }

  /** A value as a 64-bit word. */
  function Wrapped(v: nat): nat {
    v % WordSize
  }

  /** n smearing steps round x correctly if and only if x - 1 has no gap of 2^n zeros below its top bit.
      (Above 2^63 the right result is 2^64, which wraps to 0.) */
  lemma RoundUpIsRight(x: nat, n: nat)
    requires 1 <= x < WordSize
    ensures RoundUp(x, n) == Wrapped(Pow2(CeilLog2(x))) <==> NoGap(x - 1, CeilLog2(x), Pow2(n))
  {
    hide *;
    var y: nat, L := x - 1, CeilLog2(x);
    RoundUpUnfolds(x, n);
    CeilingWithinWord(x);
    SmearedFits(y, L, n);
    SmearedToAllOnes(y, L, n);
    WrapsRight(Smeared(y, n), Pow2(L));
  }

  lemma RoundUpUnfolds(x: nat, n: nat)
    requires 1 <= x < WordSize
    ensures RoundUp(x, n) == Wrapped(Smeared(x - 1, n) + 1) && Ones(CeilLog2(x)) == Pow2(CeilLog2(x)) - 1
  {
  }

  lemma SmearedToAllOnes(y: nat, L: nat, n: nat)
    requires y < Pow2(L)
    ensures Smeared(y, n) == Ones(L) <==> NoGap(y, L, Pow2(n))
  {
    hide BitN, SetWithin, Smeared, Pow2;
    SmearedFits(y, L, n);
    AllBitsSet(Smeared(y, n), L);
    forall m: nat
      ensures BitN(Smeared(y, n), m) <==> SetWithin(y, m, Pow2(n))
    {
      SmearedBit(y, n, m);
    }
  }

  lemma WrapsRight(s: nat, p: nat)
    requires s < p <= WordSize
    ensures Wrapped(s + 1) == Wrapped(p) <==> s == p - 1
  {
  }

  /** ALIGN_PAGE has no step by 32, so it looks at windows of 32 bits. */
  lemma AlignPageIsRight(x: nat)
    requires 1 <= x < WordSize
    ensures AlignPage(x) == Wrapped(Pow2(CeilLog2(x))) <==> NoGap(x - 1, CeilLog2(x), 32)
  {
    FiveSteps();
    hide RoundUp, CeilLog2, Pow2, NoGap;
    RoundUpIsRight(x, 5);
  }

  lemma FiveSteps()
    ensures Pow2(5) == 32
  {
  }

  lemma CeilingWithinWord(x: nat)
    requires 1 <= x < WordSize
    ensures CeilLog2(x) <= 64 && x - 1 < Pow2(CeilLog2(x)) <= WordSize
    ensures CeilLog2(x) < 64 ==> Pow2(CeilLog2(x)) < WordSize
    ensures CeilLog2(x) == 64 ==> Pow2(CeilLog2(x)) == WordSize
  {
    WordPowers();
    LogBound(x, 64);
    if CeilLog2(x) < 64 {
      Pow2Monotone(CeilLog2(x), 64);
    }
  }

  lemma {:induction false} SmearedFits(y: nat, L: nat, n: nat)
    requires y < Pow2(L)
    ensures Smeared(y, n) < Pow2(L)
  {
    LowBelow(y, L);
    if n > 0 {
      SmearedFits(y, L, n - 1);
      LowBelow(Smeared(y, n - 1), L);
      StaysBelow(Smeared(y, n - 1), L, Pow2(n - 1));
    }
    LowBelow(Smeared(y, n), L);
  }

  /** 2^32 + 1 is rounded wrongly: bit 32 of 2^32 is alone, so bit 0 stays clear. */
  lemma AlignPageFails(x: nat)
    requires x == 0x1_0000_0001
    ensures AlignPage(x) != Wrapped(Pow2(CeilLog2(x)))
  {
    AlignPageIsRight(x);
    hide AlignPage, CeilLog2, Pow2;
    LonelyBit(x - 1, 32);
  }

  lemma LonelyBit(y: nat, k: nat)
    requires y == 0x1_0000_0000 && k == 32
    ensures !NoGap(y, CeilLog2(y + 1), 32)
  {
    WordPowers();
    LogBound(y + 1, k);
    hide CeilLog2, Pow2;
    forall i: nat
      ensures BitN(y, i) <==> i == k
    {
      PowerBit(k, i);
    }
    assert !SetWithin(y, 0, 32);
  }

  lemma AlignPageIsCeiling(x: nat)
    requires 1 <= x <= 0x1_0000_0000
    ensures AlignPage(x) == Pow2(CeilLog2(x))
  {
    WordPowers();
    assert Pow2(5) == 32;
    LogBound(x, 32);
    RoundUpIsCeiling(x, 5);
  }

  /** PAGE_ORDER; the order is a byte and wraps below zero. */
  method PageOrder(size: nat) returns (order: nat)
    ensures size > 0 ==> order <= 10 && Pow2(order) <= size && (order < 10 ==> size < Pow2(order + 1))
    ensures size == 0 ==> order == 255
  {
    order := 10;
    var m := 1024;
    assert Pow2(10) == 1024;
    while m > size
      invariant order <= 10 || (order == 255 && m == 0)
      invariant order <= 10 ==> m == Pow2(order)
      invariant order < 10 ==> size < Pow2(order + 1)
      invariant order == 255 ==> size == 0
      decreases m
    {
      m := m / 2;
      order := if order == 0 then 255 else order - 1;
    }
  }

  /** AllocatePhysMemory4K's composition: the block order that a request of x frames leads to. The
      block is large enough exactly for 1 to 1024 frames; a larger request is silently cut to 1024
      frames (or rejected, when the missing smearing step lets it wrap), and a request of 0 asks for
      order 255, which the allocator rejects. */
  method RequestOrder(x: nat) returns (order: nat)
    requires x < WordSize
    ensures order <= 10 && x <= Pow2(order) <==> 1 <= x <= 1024
    ensures 1 <= x <= 1024 ==> order == CeilLog2(x)
    ensures 1024 < x <= 0x1_0000_0000 ==> order == 10
    ensures order <= 10 || order == 255
    ensures x == 0 ==> order == 255
  {
    order := PageOrder(AlignPage(x));
    assert Pow2(10) == 1024;
    if x == 0 {
      RoundUpWraps(x, 5);
    } else if x <= 0x1_0000_0000 {
      AlignPageIsCeiling(x);
      OrderOfPower(CeilLog2(x), order);
      LogBound(x, 10);
    } else if order < 10 {
      Pow2Monotone(order, 10);
    }
  }

  lemma OrderOfPower(L: nat, order: nat)
    requires order <= 10 && Pow2(order) <= Pow2(L) && (order < 10 ==> Pow2(L) < Pow2(order + 1))
    ensures order == if L <= 10 then L else 10
  {
    if L < order {
      Pow2Monotone(L, order);
    } else if order < 10 && order + 1 < L {
      Pow2Monotone(order + 1, L);
    }
  }

  lemma {:induction false} AllOnesStay(y: nat, n: nat)
    requires y == Ones(64)
    ensures Smeared(y, n) == y
  {
    if n > 0 {
      AllOnesStay(y, n - 1);
      ShrSmaller(y, Pow2(n - 1));
      OrOnes(Shr(y, Pow2(n - 1)), 64);
    }
  }
}
