/** utoa and itoa: numbers printed into a caller's buffer, least significant digit first and then
    reversed in place. */
module Sprintf {
  import opened Powers
  import opened Words

  const NUL: char := '\0'
  const DIGITS: string := "0123456789abcdefghijklmnopqrstuvwxyz"
  /** itoa's map, z to a, 9 to 0, 1 to 9, a to z, reads the same from its middle outwards, so a
      negative remainder finds its digit. */
  const MIRRORED: string := Mirror(DIGITS)

  // ----- what the text means -----

  function Value(c: char): nat {
    if '0' <= c <= '9' then (c - '0') as nat else if 'a' <= c <= 'z' then 10 + (c - 'a') as nat else 36
  }

  function Digit(v: nat): (c: char)
    requires v < 36
    ensures Value(c) == v
  {
    DIGITS[v]
  }

  /** The number a text denotes in positional notation. */
  function Parse(text: string, base: nat): nat {
    if text == [] then 0 else Parse(text[..|text| - 1], base) * base + Value(text[|text| - 1])
  }

  predicate Canonical(text: string, base: nat) {
    && text != [] && (forall i :: 0 <= i < |text| ==> Value(text[i]) < base)
    && (|text| > 1 ==> text[0] != '0')
  }

  function Quot(u: nat, base: nat): nat
    requires base >= 2
  {
    QuotientNonNegative(u, base);
    u / base
  }

  function Rem(u: nat, base: nat): nat
    requires base >= 2
  {
    u % base
  }

  lemma Shrinks(u: nat, base: nat)
    requires base >= 2
    ensures u == Quot(u, base) * base + Rem(u, base) && Rem(u, base) < base
    ensures 2 * Quot(u, base) <= u && (Quot(u, base) == 0 <==> u < base)
  {
    DivMod(u, base);
    MulMonotone(2, base, Quot(u, base));
    if u < base {
      Quotient(u, 0, base, u);
    }
  }

  /** The digits of u, most significant first. */
  function Numeral(u: nat, base: nat): (text: string)
    requires 2 <= base <= 36
    ensures |text| > 0
  {
    Shrinks(u, base);
    (if Quot(u, base) == 0 then [] else Numeral(Quot(u, base), base)) + [Digit(Rem(u, base))]
  }

  /** The numeral of u denotes u and has no leading zero. */
  lemma {:induction false} NumeralDenotes(u: nat, base: nat)
    requires 2 <= base <= 36
    ensures Parse(Numeral(u, base), base) == u && Canonical(Numeral(u, base), base)
    ensures u > 0 ==> Numeral(u, base)[0] != '0'
  {
    Shrinks(u, base);
    hide Quot, Rem, Digit, Value, Canonical;
    if Quot(u, base) != 0 {
      NumeralDenotes(Quot(u, base), base);
    }
    AppendDigit(if Quot(u, base) == 0 then [] else Numeral(Quot(u, base), base), Digit(Rem(u, base)), base);
  }

  lemma AppendDigit(high: string, c: char, base: nat)
    requires Value(c) < base && (high != [] ==> Canonical(high, base) && high[0] != '0')
    ensures Canonical(high + [c], base)
    ensures Parse(high + [c], base) == Parse(high, base) * base + Value(c)
    ensures high != [] || Value(c) > 0 ==> (high + [c])[0] != '0'
  {
    ParseAppend(high, c, base);
  }

  /** It has at most as many digits as u has bits, 64 for a word. */
  lemma {:induction false} NumeralLength(u: nat, base: nat, bits: nat)
    requires 2 <= base <= 36 && bits > 0 && u < Pow2(bits)
    ensures |Numeral(u, base)| <= bits
    decreases bits
  {
    hide Quot, Rem;
    Shrinks(u, base);
    if Quot(u, base) != 0 {
      assert bits > 1;
      NumeralLength(Quot(u, base), base, bits - 1);
    }
  }

  /** Conversely a canonical text is the numeral of what it denotes, so printing is a bijection. */
  lemma {:induction false} CanonicalIsNumeral(text: string, base: nat)
    requires 2 <= base <= 36 && Canonical(text, base)
    ensures Numeral(Parse(text, base), base) == text
    ensures text[0] != '0' ==> Parse(text, base) > 0
    decreases |text|
  {
    CanonicalParts(text, base);
    var n := |text| - 1;
    var high, c := text[..n], text[n];
    assert text == high + [c] && (n > 0 ==> high[0] == text[0]);
    hide *;
    if n > 0 {
      CanonicalIsNumeral(high, base);
    }
    LastDigitCounts(high, c, base);
  }

  lemma LastDigitCounts(high: string, c: char, base: nat)
    requires 2 <= base <= 36 && Value(c) < base && Digit(Value(c)) == c
    requires high != [] ==> Numeral(Parse(high, base), base) == high && Parse(high, base) > 0
    ensures Numeral(Parse(high + [c], base), base) == high + [c]
    ensures high != [] || Value(c) > 0 ==> Parse(high + [c], base) > 0
  {
    ParseAppend(high, c, base);
    hide *;
    NumeralStep(Parse(high, base), Value(c), base);
  }

  lemma ParseAppend(high: string, c: char, base: nat)
    ensures Parse(high + [c], base) == Parse(high, base) * base + Value(c)
    ensures high == [] ==> Parse(high, base) == 0 && high + [c] == [c]
  {
    assert (high + [c])[..|high|] == high;
  }

  lemma NumeralStep(high: nat, low: nat, base: nat)
    requires 2 <= base <= 36 && low < base
    ensures high * base + low >= high && (low > 0 ==> high * base + low > 0)
    ensures Numeral(high * base + low, base) == (if high == 0 then [] else Numeral(high, base)) + [Digit(low)]
  {
    QuotIs(high * base + low, high, base, low);
    MulMonotone(1, base, high);
    hide Quot, Rem, Digit;
  }

  lemma CanonicalParts(text: string, base: nat)
    requires base <= 36 && Canonical(text, base)
    ensures text != []
    ensures var n := |text| - 1;
      && Value(text[n]) < base && Digit(Value(text[n])) == text[n]
      && (n > 0 ==> Canonical(text[..n], base) && text[0] != '0')
      && (text[n] != '0' ==> Value(text[n]) > 0)
  {
    hide Digit, Value;
    DigitOfValue(text[|text| - 1]);
  }

  lemma QuotIs(u: nat, high: nat, base: nat, low: nat)
    requires base >= 2 && low < base && u == high * base + low
    ensures Quot(u, base) == high && Rem(u, base) == low
  {
    Quotient(u, high, base, low);
  }

  lemma DigitOfValue(c: char)
    requires Value(c) < 36
    ensures Digit(Value(c)) == c && (c != '0' ==> Value(c) > 0)
  {
  }

  // ----- the reversal -----

  function Reversed(s: string): (r: string)
    ensures |r| == |s|
  {
    if s == [] then [] else [s[|s| - 1]] + Reversed(s[..|s| - 1])
  }

  lemma {:induction false} ReversedAt(s: string, k: nat)
    requires k < |s|
    ensures Reversed(s)[k] == s[|s| - 1 - k]
  {
    if k > 0 {
      ReversedAt(s[..|s| - 1], k - 1);
    }
  }

  /** Swaps the ends inwards, as both printers finish. */
  method ReverseInPlace(buf: array<char>, first: nat, end: nat)
    requires first < end <= buf.Length
    modifies buf
    ensures buf[first..end] == Reversed(old(buf[first..end]))
    ensures forall k :: 0 <= k < first || end <= k < buf.Length ==> buf[k] == old(buf[k])
  {
    var dp, p := first, end - 1;
    while dp < p
      invariant first <= dp <= p + 1 && p < end && dp - first == end - 1 - p
      invariant forall k :: 0 <= k < buf.Length && !(first <= k < dp) && !(p < k < end) ==> buf[k] == old(buf[k])
      invariant forall k :: first <= k < dp || p < k < end ==> buf[k] == old(buf[first + end - 1 - k])
    {
      var c := buf[dp];
      buf[dp] := buf[p];
      dp := dp + 1;
      buf[p] := c;
      p := p - 1;
    }
    ghost var was, now := old(buf[first..end]), buf[first..end];
    assert forall k :: 0 <= k < |now| ==> now[k] == buf[first + k] && was[k] == old(buf[first + k]);
    IsReversed(was, now);
  }

  lemma IsReversed(s: string, r: string)
    requires |r| == |s| && forall k :: 0 <= k < |s| ==> r[k] == s[|s| - 1 - k]
    ensures r == Reversed(s)
  {
    forall k | 0 <= k < |s|
      ensures r[k] == Reversed(s)[k]
    {
      ReversedAt(s, k);
    }
  }

  // ----- the printers -----

  /** The buffer holds the text and its terminator; everything behind is as before. */
  ghost predicate Holds(now: string, was: string, text: string) {
    |now| == |was| && |text| < |now| && now == text + [NUL] + was[|text| + 1..]
  }

  /** Terminator and reversal. */
  method Finish(buf: array<char>, first: nat, n: nat)
    requires first < n < buf.Length
    modifies buf
    ensures buf[..n] == old(buf[..first]) + Reversed(old(buf[first..n]))
    ensures Holds(buf[..], old(buf[..]), buf[..n])
  {
    buf[n] := NUL;
    ReverseInPlace(buf, first, n);
    assert buf[..n] == buf[..first] + buf[first..n];
  }

  method Utoa(u: Word, buf: array<char>, base: int)
    requires buf.Length > if 2 <= base <= 36 then |Numeral(u, base)| else 0
    modifies buf
    ensures Holds(buf[..], old(buf[..]), if 2 <= base <= 36 then Numeral(u, base) else "")
  {
    if base < 2 || base > 36 {
      buf[0] := NUL;
      return;
    }
    var n := WriteDigits(u, buf, base);
    Finish(buf, 0, n);
  }

  lemma NumeralUnfolds(u: nat, base: nat)
    requires 2 <= base <= 36
    ensures Rem(u, base) < base
    ensures Quot(u, base) == 0 ==> Numeral(u, base) == [Digit(Rem(u, base))]
    ensures Quot(u, base) != 0 ==> Numeral(u, base) == Numeral(Quot(u, base), base) + [Digit(Rem(u, base))]
  {
  }

  lemma EmptyReversed()
    ensures Reversed("") == ""
  {
  }

  lemma ReversedNext(s: string, c: char) returns (t: string)
    ensures t == s + [c] && Reversed(t) == [c] + Reversed(s)
  {
    t := s + [c];
    assert t[..|t| - 1] == s;
  }

  /** The digit loop: the digits come out lowest first. */
  method WriteDigits(u: Word, buf: array<char>, base: nat) returns (n: nat)
    requires 2 <= base <= 36 && buf.Length > |Numeral(u, base)|
    modifies buf
    ensures n == |Numeral(u, base)| && Reversed(buf[..n]) == Numeral(u, base)
    ensures forall k :: n <= k < buf.Length ==> buf[k] == old(buf[k])
  {
    hide *;
    n := 0;
    var rest: nat := u;
    ghost var written := "";
    EmptyReversed();
    while true
      invariant n < buf.Length && n + |Numeral(rest, base)| == |Numeral(u, base)|
      invariant written == buf[..n] && Numeral(u, base) == Numeral(rest, base) + Reversed(written)
      invariant forall k :: n <= k < buf.Length ==> buf[k] == old(buf[k])
      decreases rest
    {
      Shrinks(rest, base);
      NumeralUnfolds(rest, base);
      buf[n] := Digit(Rem(rest, base));
      n := n + 1;
      written := ReversedNext(written, Digit(Rem(rest, base)));
      if Quot(rest, base) == 0 {
        assert buf[..n] == written;
        break;
      }
      rest := Quot(rest, base);
    }
  }

  // ----- itoa -----

  /** C's / and % on int: truncation towards zero. */
  function TruncQuot(d: int, base: nat): int
    requires base >= 2
  {
    if d >= 0 then Quot(d, base) else 0 - Quot(-d, base)
  }

  function TruncRem(d: int, base: nat): int
    requires base >= 2
  {
    if d >= 0 then Rem(d, base) else 0 - Rem(-d, base)
  }

  function Abs(d: int): nat {
    if d >= 0 then d else -d
  }

  /** The sign is printed in base 10 only. */
  function IntText(d: int, base: nat): string
    requires 2 <= base <= 36
  {
    (if d < 0 && base == 10 then "-" else "") + Numeral(Abs(d), base)
  }

  function ParseSigned(text: string, base: nat): int {
    if text != [] && text[0] == '-' then 0 - Parse(text[1..], base) else Parse(text, base)
  }

  /** Printed in base 10 a number reads back as itself, the most negative one included; in any other
      base as its absolute value. After the sign comes a numeral without a leading zero. */
  lemma IntTextDenotes(d: int, base: nat)
    requires 2 <= base <= 36
    ensures ParseSigned(IntText(d, base), base) == if base == 10 || d >= 0 then d else -d
    ensures var t := IntText(d, base);
      if d < 0 && base == 10 then t != [] && t[0] == '-' && Canonical(t[1..], base) && t[1] != '0'
      else Canonical(t, base)
  {
    hide Numeral, Parse, ParseSigned, Canonical, Value;
    NumeralDenotes(Abs(d), base);
    var t := Numeral(Abs(d), base);
    FirstIsDigit(t, base);
    SignReads(t, base);
    SignBefore(t);
  }

  lemma SignBefore(t: string)
    requires t != []
    ensures "" + t == t && ("-" + t)[0] == '-' && ("-" + t)[1..] == t && ("-" + t)[1] == t[0]
  {
  }

  lemma FirstIsDigit(text: string, base: nat)
    requires Canonical(text, base) && base <= 36
    ensures text != [] && text[0] != '-'
  {
    assert Value(text[0]) < base;
  }

  lemma SignReads(text: string, base: nat)
    requires text != [] && text[0] != '-'
    ensures ParseSigned("-" + text, base) == 0 - Parse(text, base) && ParseSigned("" + text, base) == Parse(text, base)
  {
    hide Parse;
    assert ("-" + text)[1..] == text && "" + text == text;
  }

  /** A text and its mirror image, sharing the first character. */
  function Mirror(s: string): string
    requires s != []
  {
    Reversed(s) + s[1..]
  }

  lemma MirrorAt(s: string, r: int)
    requires -|s| < r < |s|
    ensures |Mirror(s)| == 2 * |s| - 1 && Mirror(s)[|s| - 1 + r] == s[Abs(r)]
  {
    if r <= 0 {
      ReversedAt(s, |s| - 1 + r);
    }
  }

  lemma MirroredDigit(r: int)
    requires -36 < r < 36
    ensures |MIRRORED| == 71 && MIRRORED[35 + r] == Digit(Abs(r))
  {
    hide Mirror;
    MirrorAt(DIGITS, r);
  }

  lemma SignedStep(d: int, base: nat)
    requires 2 <= base <= 36
    ensures Abs(TruncQuot(d, base)) == Quot(Abs(d), base) && Abs(TruncRem(d, base)) == Rem(Abs(d), base)
    ensures -36 < TruncRem(d, base) < 36
    ensures TruncQuot(d, base) == 0 <==> Quot(Abs(d), base) == 0
  {
    hide Quot, Rem;
    Shrinks(Abs(d), base);
  }

  method Itoa(d: int, buf: array<char>, base: int)
    requires -0x8000_0000 <= d < 0x8000_0000
    requires buf.Length > if 2 <= base <= 36 then |IntText(d, base)| else 0
    modifies buf
    ensures Holds(buf[..], old(buf[..]), if 2 <= base <= 36 then IntText(d, base) else "")
  {
    if base < 2 || base > 36 {
      buf[0] := NUL;
      return;
    }
    var first := 0;
    if d < 0 && base == 10 {
      buf[0] := '-';
      first := 1;
    }
    var n := WriteSignedDigits(d, buf, first, base);
    assert buf[n..] == old(buf[n..]) && buf[..first] == if d < 0 && base == 10 then "-" else "";
    hide Numeral, Holds, Reversed, Abs;
    ghost var digits := buf[..];
    Finish(buf, first, n);
    SameTail(buf[..], digits, old(buf[..]), buf[..n]);
  }

  lemma SameTail(now: string, mid: string, was: string, text: string)
    requires Holds(now, mid, text) && |mid| == |was| && mid[|text|..] == was[|text|..]
    ensures Holds(now, was, text)
  {
    assert mid[|text| + 1..] == mid[|text|..][1..];
    assert was[|text| + 1..] == was[|text|..][1..];
  }

  method WriteSignedDigits(d: int, buf: array<char>, first: nat, base: nat) returns (n: nat)
    requires 2 <= base <= 36 && buf.Length > first + |Numeral(Abs(d), base)|
    modifies buf
    ensures n == first + |Numeral(Abs(d), base)| && Reversed(buf[first..n]) == Numeral(Abs(d), base)
    ensures forall k :: 0 <= k < first || n <= k < buf.Length ==> buf[k] == old(buf[k])
  {
    hide *;
    n := first;
    var rest := d;
    ghost var written := "";
    EmptyReversed();
    while true
      invariant first <= n < buf.Length && n + |Numeral(Abs(rest), base)| == first + |Numeral(Abs(d), base)|
      invariant written == buf[first..n] && Numeral(Abs(d), base) == Numeral(Abs(rest), base) + Reversed(written)
      invariant forall k :: 0 <= k < first || n <= k < buf.Length ==> buf[k] == old(buf[k])
      decreases Abs(rest)
    {
      Shrinks(Abs(rest), base);
      NumeralUnfolds(Abs(rest), base);
      SignedStep(rest, base);
      MirroredDigit(TruncRem(rest, base));
      buf[n] := MIRRORED[35 + TruncRem(rest, base)];
      n := n + 1;
      written := ReversedNext(written, Digit(Rem(Abs(rest), base)));
      if TruncQuot(rest, base) == 0 {
        assert buf[first..n] == written;
        break;
      }
      rest := TruncQuot(rest, base);
    }
  }
}
