/** ACPITimer::Sleep over an arbitrary trace of readings. The power-management timer counts ticks in a
    register of 24 or 32 bits (section 4.8.3.3 of the ACPI specification); tick(k) is the true, never
    wrapping count at the k-th reading, and the register shows its low bits. */
module Timer {
  import opened Powers
  import opened Words

  ghost predicate Monotone(tick: nat -> nat) {
    forall i: nat, j: nat :: i <= j ==> tick(i) <= tick(j)
  }

  /** 3579545 * milliseconds / 1000 in long arithmetic, then converted to an unsigned word. */
  function ClockOf(milliseconds: int): Word
    requires -0x8000_0000_0000_0000 <= 3579545 * milliseconds < 0x8000_0000_0000_0000
  {
    if milliseconds >= 0 then 3579545 * milliseconds / 1000
    else WordSize - 3579545 * -milliseconds / 1000
  }

  /** The wait is the last whole tick before the time is up; a negative time becomes a huge one. */
  lemma ClockIsTicks(milliseconds: int)
    requires -0x8000_0000_0000_0000 <= 3579545 * milliseconds < 0x8000_0000_0000_0000
    ensures var c := ClockOf(milliseconds);
      && (milliseconds >= 0 ==> 1000 * c <= 3579545 * milliseconds < 1000 * (c + 1))
      && (milliseconds < 0 ==>
            1000 * (0x1_0000_0000_0000_0000 - c) <= -3579545 * milliseconds < 1000 * (0x1_0000_0000_0000_0000 - c + 1))
  {
  }

  /** Some gap between neighbouring readings up to the n-th lasted a whole period or more. */
  ghost predicate Missed(tick: nat -> nat, n: nat, modulus: nat) {
    exists i: nat :: i < n && LongGap(tick, i, modulus)
  }

  ghost predicate LongGap(tick: nat -> nat, i: nat, modulus: nat) {
    tick(i + 1) - tick(i) >= modulus
  }

  /** What the loop adds for one pair of readings. */
  function Advance(last: nat, current: nat, modulus: nat): int {
    if current < last then modulus + current - last else current - last
  }

  /** The wrap-around case makes the advance the true gap modulo the period: never more than it, and
      exactly it when the gap is below one period. */
  lemma AdvanceIsGap(a: nat, b: nat, m: nat)
    requires a <= b && m > 0
    ensures Advance(a % m, b % m, m) == (b - a) % m
    ensures 0 <= (b - a) % m <= b - a && ((b - a) % m == b - a <==> b - a < m)
  {
    DivMod(a, m);
    DivMod(b, m);
    var step: nat := Advance(a % m, b % m, m);
    var whole := WholePeriods(a / m, a % m, b / m, b % m, m);
    Quotient(b - a, whole, m, step);
    MulMonotone(0, whole, m);
    if b - a < m {
      Quotient(b - a, 0, m, b - a);
    }
  }

  lemma WholePeriods(qa: nat, ra: nat, qb: nat, rb: nat, m: nat) returns (whole: nat)
    requires ra < m && rb < m && qa * m + ra <= qb * m + rb
    ensures qb * m + rb - (qa * m + ra) == whole * m + Advance(ra, rb, m)
  {
    var d := if rb < ra then 1 else 0;
    if qb < qa + d {
      MulMonotone(qb + 1, qa + d, m);
    }
    whole := qb - qa - d;
    assert whole * m == qb * m - qa * m - d * m;
  }

  /** What one more reading adds, as long as no period was missed. */
  lemma Reading(tick: nat -> nat, n: nat, modulus: nat)
    requires Monotone(tick) && modulus > 0
    ensures tick(n) <= tick(n + 1)
    ensures 0 <= Advance(tick(n) % modulus, tick(n + 1) % modulus, modulus) <= tick(n + 1) - tick(n)
    ensures Advance(tick(n) % modulus, tick(n + 1) % modulus, modulus) < modulus
    ensures !Missed(tick, n + 1, modulus) ==>
      !Missed(tick, n, modulus) && Advance(tick(n) % modulus, tick(n + 1) % modulus, modulus) == tick(n + 1) - tick(n)
  {
    hide Advance;
    AdvanceIsGap(tick(n), tick(n + 1), modulus);
    var missed := Missed(tick, n, modulus);
    assert LongGap(tick, n, modulus) || missed ==> Missed(tick, n + 1, modulus);
  }

  /** Sleep looks at readings 0, 1, 2, ... and gives up the count as soon as it reaches the clock; a
      trace that ends first leaves it waiting. Its counter never exceeds the true elapsed ticks, so it
      never returns early; unless a whole period went by between two readings (or the unsigned counter
      overflowed, which takes a negative argument) it returns at the first reading that is late
      enough. A timer of another register length is not waited for at all. */
  method Sleep(length: nat, extended: bool, milliseconds: int, ghost tick: nat -> nat, registers: seq<nat>)
    returns (returned: bool, n: nat)
    requires -0x8000_0000_0000_0000 <= 3579545 * milliseconds < 0x8000_0000_0000_0000
    requires Monotone(tick) && |registers| > 0
    requires forall k :: 0 <= k < |registers| ==> registers[k] == tick(k) % (if extended then 0x1_0000_0000 else 0x100_0000)
    ensures length != 4 ==> returned && n == 0
    ensures length == 4 && returned ==> n < |registers| && tick(n) - tick(0) >= ClockOf(milliseconds)
    ensures length == 4 && returned ==> 1000 * (tick(n) - tick(0) + 1) > 3579545 * milliseconds
    ensures length == 4 && milliseconds >= 0 && !Missed(tick, n, if extended then 0x1_0000_0000 else 0x100_0000) ==>
              && (forall k: nat :: k < n ==> tick(k) - tick(0) < ClockOf(milliseconds))
              && (!returned ==> n == |registers| - 1 && tick(n) - tick(0) < ClockOf(milliseconds))
  {
    hide ClockOf, Missed, LongGap, Monotone, Advance;
    n := 0;
    if length != 4 {
      return true, 0;
    }
    var modulus: nat := if extended then 0x1_0000_0000 else 0x100_0000;
    var clock := ClockOf(milliseconds);
    var counter: Word, last := 0, registers[0];
    ClockIsTicks(milliseconds);
    while counter < clock
      invariant n < |registers| && last == registers[n] && counter <= tick(n) - tick(0)
      invariant milliseconds >= 0 && !Missed(tick, n, modulus) ==> counter == tick(n) - tick(0)
      invariant milliseconds >= 0 && !Missed(tick, n, modulus) ==> forall k: nat :: k < n ==> tick(k) - tick(0) < clock
      decreases |registers| - n
    {
      if n == |registers| - 1 {
        return false, n;
      }
      var current := registers[n + 1];
      Reading(tick, n, modulus);
      counter := (counter + Advance(last, current, modulus)) % WordSize;
      last := current;
      n := n + 1;
    }
    returned := true;
  }
}
