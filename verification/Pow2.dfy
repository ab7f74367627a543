/** Powers of two and aligned blocks: the arithmetic under the buddy allocator.
    A block of order k is 2^k consecutive frames that start at a multiple of 2^k. */
module Powers {

  function Pow2(k: nat): (p: nat)
    ensures p > 0
  {
    if k == 0 then 1 else 2 * Pow2(k - 1)
  }

  predicate Aligned(f: nat, k: nat) {
    f % Pow2(k) == 0
  }

  /** The first frame of the order-k block that holds frame x. */
  function Head(x: nat, k: nat): nat {
    var p := Pow2(k);
    FloorBound(x, p);
    (x / p) * p
  }

  lemma QuotientNonNegative(x: nat, p: nat)
    requires p > 0
    ensures x / p >= 0
  {
  }

  lemma FloorBound(x: nat, p: nat)
    requires p > 0
    ensures 0 <= (x / p) * p <= x
  {
    QuotientNonNegative(x, p);
    MulMonotone(0, x / p, p);
    assert x == (x / p) * p + x % p;
  }

  /** The other half of the order-(k+1) block whose one half starts at f. */
  function Buddy(f: nat, k: nat): nat
    requires Aligned(f, k)
  {
    if Aligned(f, k + 1) then f + Pow2(k) else
      HalfAlignment(f, k);
      f - Pow2(k)
  }

  /** The order a request of x frames is rounded up to. */
  function CeilLog2(x: nat): (k: nat)
    requires x > 0
    ensures x <= Pow2(k) < 2 * x
  {
    if x == 1 then 0 else 1 + CeilLog2((x + 1) / 2)
  }

  lemma {:induction false} Pow2Monotone(j: nat, k: nat)
    requires j < k
    ensures 2 * Pow2(j) <= Pow2(k)
    decreases k
  {
    if j < k - 1 {
      Pow2Monotone(j, k - 1);
    }
  }

  lemma MulMonotone(a: nat, b: nat, p: nat)
    requires a <= b
    ensures a * p <= b * p
  {
  }

  /** Two multiples of p are at least p apart. */
  lemma MultiplesApart(q: nat, m: nat, p: nat)
    requires q * p < m * p
    ensures q * p + p <= m * p
  {
    if m <= q {
      MulMonotone(m, q, p);
    } else {
      MulMonotone(q + 1, m, p);
    }
  }

  lemma DivMod(x: nat, p: nat)
    requires p > 0
    ensures x == (x / p) * p + x % p && x / p >= 0
  {
  }

  lemma Quotient(x: nat, q: nat, p: nat, r: nat)
    requires r < p && x == q * p + r
    ensures x / p == q && x % p == r
  {
    var d, m := x / p, x % p;
    assert x == d * p + m;
    if d != q {
      MulMonotone(if d < q then d + 1 else q + 1, if d < q then q else d, p);
    }
  }

  lemma HalfAlignment(f: nat, k: nat)
    requires Aligned(f, k)
    ensures f % Pow2(k + 1) == (if (f / Pow2(k)) % 2 == 0 then 0 else Pow2(k))
    ensures f % Pow2(k + 1) == 0 || (f % Pow2(k + 1) == Pow2(k) && f >= Pow2(k))
  {
    assert Pow2(k + 1) == 2 * Pow2(k);
    hide Pow2;
    OddOrEven(f, Pow2(k), f / Pow2(k));
  }

  lemma OddOrEven(f: nat, p: nat, q: nat)
    requires p > 0 && f == q * p
    ensures f % (2 * p) == (if q % 2 == 0 then 0 else p) && (q % 2 == 1 ==> f >= p)
  {
    HalfOf(q, q / 2, p);
    Quotient(f, q / 2, 2 * p, if q % 2 == 0 then 0 else p);
  }

  lemma HalfOf(q: nat, h: nat, p: nat)
    requires h == q / 2
    ensures q * p == h * (2 * p) + (if q % 2 == 0 then 0 else p) && h * (2 * p) >= 0
  {
    MulMonotone(0, h, 2 * p);
    if q % 2 == 0 {
      assert q == 2 * h;
    } else {
      assert q == 2 * h + 1;
    }
  }

  /** Head(x, k) is the one aligned start whose block holds x. */
  lemma HeadUnique(x: nat, f: nat, k: nat)
    ensures Aligned(Head(x, k), k) && Head(x, k) <= x < Head(x, k) + Pow2(k)
    ensures Aligned(f, k) && f <= x < f + Pow2(k) <==> f == Head(x, k)
  {
    var p := Pow2(k);
    assert x == (x / p) * p + x % p;
    Quotient(Head(x, k), x / p, p, 0);
    if Aligned(f, k) && f <= x < f + p {
      Quotient(x, f / p, p, x - f);
    }
  }

  lemma AlignedLower(f: nat, j: nat, k: nat)
    requires j <= k && Aligned(f, k)
    ensures Aligned(f, j)
    decreases k
  {
    if j < k {
      var p, q := Pow2(k - 1), f / Pow2(k);
      assert f == q * (2 * p);
      assert f == (2 * q) * p + 0;
      Quotient(f, 2 * q, p, 0);
      AlignedLower(f, j, k - 1);
    }
  }

  /** One order up, a block is the lower or the upper half of its parent. */
  lemma HeadUp(x: nat, k: nat)
    ensures Head(x, k + 1) == Head(Head(x, k), k + 1)
    ensures Head(x, k + 1) == Head(x, k) || Head(x, k + 1) + Pow2(k) == Head(x, k)
  {
    assert Pow2(k + 1) == 2 * Pow2(k);
    hide Pow2, Head;
    var h := Head(x, k);
    HeadUnique(x, h, k);
    HalfAlignment(h, k);
    var g := Head(h, k + 1);
    HeadIsFloor(h, k + 1);
    HeadUnique(h, g, k + 1);
    HeadUnique(x, g, k + 1);
  }

  lemma HeadIsFloor(x: nat, k: nat)
    ensures Head(x, k) == x - x % Pow2(k)
  {
    DivMod(x, Pow2(k));
  }

  lemma {:induction false} HeadHead(x: nat, j: nat, k: nat)
    requires j <= k
    ensures Head(Head(x, j), k) == Head(x, k)
    decreases k
  {
    if j == k {
      HeadUnique(x, Head(x, k), k);
      HeadUnique(Head(x, k), Head(x, k), k);
    } else {
      HeadHead(x, j, k - 1);
      HeadUp(x, k - 1);
      HeadUp(Head(x, j), k - 1);
    }
  }

  lemma BuddyAligned(f: nat, k: nat)
    requires Aligned(f, k)
    ensures Aligned(Buddy(f, k), k)
    ensures Aligned(f, k + 1) <==> !Aligned(Buddy(f, k), k + 1)
  {
    HalfAlignment(f, k);
    var p, w := Pow2(k), f / (2 * Pow2(k));
    DivMod(f, 2 * p);
    Halves(w, p, Buddy(f, k), if Aligned(f, k + 1) then 1 else 0);
  }

  lemma Halves(w: nat, p: nat, x: nat, half: nat)
    requires p > 0 && half < 2 && x == w * (2 * p) + half * p
    ensures x % p == 0 && x % (2 * p) == half * p
  {
    Quotient(x, w, 2 * p, half * p);
    assert x == (2 * w + half) * p + 0;
    Quotient(x, 2 * w + half, p, 0);
  }

  /** Buddies are each other's buddy, and their parent starts at the lower one. */
  lemma BuddyPair(f: nat, k: nat)
    requires Aligned(f, k)
    ensures var b := Buddy(f, k);
            && Aligned(b, k) && b != f && Buddy(b, k) == f
            && Head(f, k + 1) == Head(b, k + 1) == if f < b then f else b
  {
    BuddyAligned(f, k);
    var b := Buddy(f, k);
    var h := if f < b then f else b;
    HeadUnique(f, h, k + 1);
    HeadUnique(b, h, k + 1);
  }

  /** The parent block is the disjoint union of its two halves. */
  lemma ParentSplits(x: nat, f: nat, k: nat)
    requires Aligned(f, k)
    ensures Head(x, k + 1) == Head(f, k + 1) <==> Head(x, k) == f || Head(x, k) == Buddy(f, k)
  {
    var h := Head(x, k);
    BuddyPair(f, k);
    HeadUp(x, k);
    HeadUnique(x, h, k);
    HeadUnique(f, Head(f, k + 1), k + 1);
  }
}
