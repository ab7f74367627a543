/** Machine words as natural numbers, with the bitwise operators the kernel applies to them.
    Wrap-around at 2^64 is written out where it matters. */
module Words {
  import opened Powers

  const WordSize: nat := 0x1_0000_0000_0000_0000

  function Or(a: nat, b: nat): nat {
    if a == 0 then b else if b == 0 then a
    else (if a % 2 == 1 || b % 2 == 1 then 1 else 0) + 2 * Or(a / 2, b / 2)
  }

  function And(a: nat, b: nat): nat {
    if a == 0 || b == 0 then 0
    else (if a % 2 == 1 && b % 2 == 1 then 1 else 0) + 2 * And(a / 2, b / 2)
  }

  /** a >> k */
  function Shr(a: nat, k: nat): nat {
    if k == 0 then a else Shr(a / 2, k - 1)
  }

  /** The low k bits of a. */
  function Low(a: nat, k: nat): nat {
    if k == 0 then 0 else a % 2 + 2 * Low(a / 2, k - 1)
  }

  function Ones(k: nat): nat {
    Pow2(k) - 1
  }

  lemma {:induction false} Pow2Sum(j: nat, k: nat)
    ensures Pow2(j + k) == Pow2(j) * Pow2(k)
  {
    if j > 0 {
      Pow2Sum(j - 1, k);
      assert Pow2(j + k) == 2 * (Pow2(j - 1) * Pow2(k)) == (2 * Pow2(j - 1)) * Pow2(k);
    }
  }

  lemma WordPowers()
    ensures Pow2(12) == 4096 && Pow2(16) == 0x1_0000 && Pow2(32) == 0x1_0000_0000
    ensures Pow2(48) == 0x1_0000_0000_0000 && Pow2(63) == WordSize / 2 && Pow2(64) == WordSize
  {
    assert Pow2(8) == 256;
    Pow2Sum(8, 4);
    Pow2Sum(8, 8);
    Pow2Sum(16, 16);
    Pow2Sum(32, 16);
    Pow2Sum(32, 32);
    assert Pow2(64) == 2 * Pow2(63);
  }

  lemma OrHalf(a: nat, b: nat)
    ensures Or(a, b) / 2 == Or(a / 2, b / 2)
    ensures Or(a, b) % 2 == if a % 2 == 1 || b % 2 == 1 then 1 else 0
  {
  }

  lemma AndHalf(a: nat, b: nat)
    ensures And(a, b) / 2 == And(a / 2, b / 2)
    ensures And(a, b) % 2 == if a % 2 == 1 && b % 2 == 1 then 1 else 0
  {
  }

  lemma AndZero(a: nat)
    ensures And(a, 0) == 0
  {
  }

  /** The bitwise operators work on the low k bits and on the rest independently. */
  lemma {:induction false} OrSplit(a: nat, b: nat, k: nat)
    ensures Shr(Or(a, b), k) == Or(Shr(a, k), Shr(b, k))
    ensures Low(Or(a, b), k) == Or(Low(a, k), Low(b, k))
    decreases k
  {
    if k > 0 {
      OrHalf(a, b);
      OrSplit(a / 2, b / 2, k - 1);
      OrHalf(Low(a, k), Low(b, k));
    }
  }

  lemma {:induction false} AndSplit(a: nat, b: nat, k: nat)
    ensures Shr(And(a, b), k) == And(Shr(a, k), Shr(b, k))
    ensures Low(And(a, b), k) == And(Low(a, k), Low(b, k))
    decreases k
  {
    if k > 0 {
      AndHalf(a, b);
      AndHalf(Low(a, k), Low(b, k));
      AndSplit(a / 2, b / 2, k - 1);
      hide And;
    }
  }

  /** A word is determined by its low k bits and the rest. */
  lemma {:induction false} JoinUnique(a: nat, b: nat, k: nat)
    requires Shr(a, k) == Shr(b, k) && Low(a, k) == Low(b, k)
    ensures a == b
    decreases k
  {
    if k > 0 {
      JoinUnique(a / 2, b / 2, k - 1);
    }
  }

  lemma {:induction false} ShrShr(a: nat, j: nat, k: nat)
    ensures Shr(Shr(a, j), k) == Shr(a, j + k)
    decreases j
  {
    if j > 0 {
      ShrShr(a / 2, j - 1, k);
    }
  }

  /** Shifts and masks are division and remainder. */
  lemma {:induction false} ShiftIsDivision(a: nat, k: nat)
    ensures Shr(a, k) == a / Pow2(k) && Low(a, k) == a % Pow2(k)
    decreases k
  {
    if k > 0 {
      ShiftIsDivision(a / 2, k - 1);
      DivTwice(a, Pow2(k - 1));
    }
  }

  lemma DivTwice(a: nat, p: nat)
    requires p > 0
    ensures a / (2 * p) == (a / 2) / p
    ensures a % (2 * p) == a % 2 + 2 * ((a / 2) % p)
  {
    DivMod(a / 2, p);
    var q, r := (a / 2) / p, (a / 2) % p;
    assert a == q * (2 * p) + (a % 2 + 2 * r);
    Quotient(a, q, 2 * p, a % 2 + 2 * r);
  }

  lemma {:induction false} LowBelow(a: nat, k: nat)
    ensures Low(a, k) < Pow2(k)
    ensures a < Pow2(k) <==> Shr(a, k) == 0
    ensures a < Pow2(k) ==> Low(a, k) == a
    decreases k
  {
    if k > 0 {
      LowBelow(a / 2, k - 1);
    }
  }

  lemma {:induction false} ShrSmaller(a: nat, k: nat)
    ensures Shr(a, k) <= a
    decreases k
  {
    if k > 0 {
      ShrSmaller(a / 2, k - 1);
    }
  }

  lemma {:induction false} OnesSplit(c: nat, d: nat)
    ensures Shr(Ones(c + d), d) == Ones(c) && Low(Ones(c + d), d) == Ones(d)
    decreases d
  {
    if d > 0 {
      OnesSplit(c, d - 1);
      assert Ones(c + d) == 1 + 2 * Ones(c + d - 1);
    }
  }

  lemma {:induction false} OrOnes(a: nat, k: nat)
    requires a < Pow2(k)
    ensures Or(a, Ones(k)) == Or(Ones(k), a) == Ones(k)
  {
    if k > 0 {
      OrOnes(a / 2, k - 1);
    }
  }

  lemma {:induction false} AndOnes(a: nat, k: nat)
    requires a < Pow2(k)
    ensures And(a, Ones(k)) == a
  {
    if k > 0 {
      AndOnes(a / 2, k - 1);
    }
  }

  lemma {:induction false} AndLow(a: nat, k: nat)
    ensures And(a, Ones(k)) == Low(a, k)
    decreases k
  {
    if k > 0 {
      AndLow(a / 2, k - 1);
    }
  }

  // ----- single bits of 64-bit words -----

  type Word = w: nat | w < WordSize

  /** ~w on a 64-bit word. */
  function Not(w: Word): Word {
    WordSize - 1 - w
  }

  predicate BitN(a: nat, n: nat) {
    Shr(a, n) % 2 == 1
  }

  lemma OrBit(a: nat, b: nat, n: nat)
    ensures BitN(Or(a, b), n) <==> BitN(a, n) || BitN(b, n)
  {
    OrSplit(a, b, n);
    OrHalf(Shr(a, n), Shr(b, n));
  }

  lemma AndBit(a: nat, b: nat, n: nat)
    ensures BitN(And(a, b), n) <==> BitN(a, n) && BitN(b, n)
  {
    AndSplit(a, b, n);
    AndHalf(Shr(a, n), Shr(b, n));
  }

  lemma {:induction false} PowerBit(n: nat, m: nat)
    ensures BitN(Pow2(n), m) <==> m == n
    decreases m
  {
    if m > 0 && n > 0 {
      PowerBit(n - 1, m - 1);
    } else if m > 0 {
      LowBelow(0, m - 1);
    }
  }

  lemma {:induction false} OnesBit(k: nat, m: nat)
    requires m < k
    ensures BitN(Ones(k), m)
  {
    if m > 0 {
      OnesBit(k - 1, m - 1);
    }
  }

  lemma {:induction false} OnesMinusBit(k: nat, w: nat, m: nat)
    requires w <= Ones(k) && m < k
    ensures BitN(Ones(k) - w, m) <==> !BitN(w, m)
  {
    if m > 0 {
      OnesMinusBit(k - 1, w / 2, m - 1);
      assert (Ones(k) - w) / 2 == Ones(k - 1) - w / 2;
    }
  }

  lemma NotBit(w: Word, m: nat)
    requires m < 64
    ensures BitN(Not(w), m) <==> !BitN(w, m)
  {
    WordPowers();
    OnesMinusBit(64, w, m);
  }

  /** w & (1 << n) is non-zero exactly when bit n is set. */
  lemma {:induction false} TestIsBit(w: nat, n: nat)
    ensures And(w, Pow2(n)) != 0 <==> BitN(w, n)
    decreases n
  {
    if n > 0 {
      TestIsBit(w / 2, n - 1);
    } else {
      AndHalf(w, 1);
    }
  }

  lemma OrFits(a: Word, b: Word)
    ensures Or(a, b) < WordSize
  {
    WordPowers();
    OrSplit(a, b, 64);
    LowBelow(a, 64);
    LowBelow(b, 64);
    LowBelow(Or(a, b), 64);
  }

  lemma {:induction false} AndSmaller(a: nat, b: nat)
    ensures And(a, b) <= a
  {
    if a != 0 && b != 0 {
      AndSmaller(a / 2, b / 2);
    }
  }

  lemma AndFits(a: Word, b: Word)
    ensures And(a, b) < WordSize
  {
    AndSmaller(a, b);
  }
}
