/** Std::Bitmap<uint64_t> and its two-level, lazily allocated variant.

    Both variants share findFree, setAll and clearAll, which reach the words only through at(). The
    class below has rows of words that are allocated on first use; the flat Bitmap is the case of a
    single row. `1 << n` is read as a shift of a whole word (Deviations.WrittenMaskIsRight says when
    the 32-bit literal does the same), clearAll with the missing decrement
    (Deviations.ClearAllAsWritten), and the row and word indices of at() with % in place of &
    (Deviations.WrittenIndex). New rows are taken to be zeroed. */
module Bitmaps {
  import opened Powers
  import opened Words

  const AllOnes: Word := 0xFFFF_FFFF_FFFF_FFFF

  /** 1 << n on a whole word. */
  function Mask(n: nat): Word
    requires n < 64
  {
    MaskFits(n);
    Pow2(n)
  }

  lemma MaskFits(n: nat)
    requires n < 64
    ensures Pow2(n) < WordSize
  {
    WordPowers();
    Pow2Monotone(n, 64);
  }

  predicate BitOf(w: Word, n: nat)
    requires n < 64
  {
    And(w, Mask(n)) != 0
  }

  function SetBit(w: Word, n: nat): Word
    requires n < 64
  {
    OrFits(w, Mask(n));
    Or(w, Mask(n))
  }

  function ClearBit(w: Word, n: nat): Word
    requires n < 64
  {
    AndFits(w, Not(Mask(n)));
    And(w, Not(Mask(n)))
  }

  // ----- words -----

  /** Writing one bit changes that bit only; the constants have no bit and every bit. */
  lemma WordBits(w: Word, n: nat, m: nat)
    requires n < 64 && m < 64
    ensures BitOf(SetBit(w, n), m) <==> BitOf(w, m) || m == n
    ensures BitOf(ClearBit(w, n), m) <==> BitOf(w, m) && m != n
  {
    TestIsBit(w, m);
    TestIsBit(SetBit(w, n), m);
    TestIsBit(ClearBit(w, n), m);
    OrBit(w, Mask(n), m);
    AndBit(w, Not(Mask(n)), m);
    PowerBit(n, m);
    NotBit(Mask(n), m);
  }

  /** Bit n of a word is the binary digit of weight 2^n. */
  lemma BitsAreBinary(w: Word, n: nat)
    requires n < 64
    ensures BitOf(w, n) <==> w / Pow2(n) % 2 == 1
    ensures BitOf(SetBit(w, n), n) && !BitOf(ClearBit(w, n), n)
  {
    TestIsBit(w, n);
    ShiftIsDivision(w, n);
    WordBits(w, n, n);
  }

  lemma ConstantBits(m: nat)
    requires m < 64
    ensures !BitOf(0, m) && BitOf(AllOnes, m)
  {
    WordPowers();
    TestIsBit(0, m);
    TestIsBit(AllOnes, m);
    OnesBit(64, m);
    LowBelow(0, m);
  }

  // ----- the flat view -----

  predicate Bit(words: seq<Word>, pos: nat)
    requires pos < 64 * |words|
  {
    BitOf(words[pos / 64], pos % 64)
  }

  ghost predicate ClearRun(words: seq<Word>, pos: nat, amount: nat) {
    pos + amount <= 64 * |words| && forall i :: pos <= i < pos + amount ==> !Bit(words, i)
  }

  ghost predicate SomeRun(words: seq<Word>, amount: nat) {
    exists pos: nat :: ClearRun(words, pos, amount)
  }

  /** The lowest start of a clear run of the asked length. */
  ghost predicate FirstFit(words: seq<Word>, amount: nat, pos: nat) {
    ClearRun(words, pos, amount) && forall p: nat :: p < pos ==> !ClearRun(words, p, amount)
  }

  /** w2 is w1 with exactly the bits pos .. pos+amount set. */
  ghost predicate RangeSet(w1: seq<Word>, w2: seq<Word>, pos: nat, amount: nat) {
    && |w1| == |w2|
    && forall i: nat :: i < 64 * |w1| ==> (Bit(w2, i) <==> Bit(w1, i) || pos <= i < pos + amount)
  }

  ghost predicate RangeCleared(w1: seq<Word>, w2: seq<Word>, pos: nat, amount: nat) {
    && |w1| == |w2|
    && forall i: nat :: i < 64 * |w1| ==> (Bit(w2, i) <==> Bit(w1, i) && !(pos <= i < pos + amount))
  }

  lemma StoreSetsBit(w1: seq<Word>, pos: nat)
    requires pos < 64 * |w1|
    ensures RangeSet(w1, w1[pos / 64 := SetBit(w1[pos / 64], pos % 64)], pos, 1)
  {
    var w2 := w1[pos / 64 := SetBit(w1[pos / 64], pos % 64)];
    forall i: nat | i < 64 * |w1|
      ensures Bit(w2, i) <==> Bit(w1, i) || i == pos
    {
      WordBits(w1[pos / 64], pos % 64, i % 64);
    }
  }

  lemma StoreClearsBit(w1: seq<Word>, pos: nat)
    requires pos < 64 * |w1|
    ensures RangeCleared(w1, w1[pos / 64 := ClearBit(w1[pos / 64], pos % 64)], pos, 1)
  {
    var w2 := w1[pos / 64 := ClearBit(w1[pos / 64], pos % 64)];
    forall i: nat | i < 64 * |w1|
      ensures Bit(w2, i) <==> Bit(w1, i) && i != pos
    {
      WordBits(w1[pos / 64], pos % 64, i % 64);
    }
  }

  lemma StoreWholeWord(w1: seq<Word>, pos: nat)
    requires pos < 64 * |w1| && pos % 64 == 0
    ensures RangeSet(w1, w1[pos / 64 := AllOnes], pos, 64)
    ensures RangeCleared(w1, w1[pos / 64 := 0], pos, 64)
  {
    forall i: nat | i < 64 * |w1|
      ensures Bit(w1[pos / 64 := AllOnes], i) <==> Bit(w1, i) || pos <= i < pos + 64
      ensures Bit(w1[pos / 64 := 0], i) <==> Bit(w1, i) && !(pos <= i < pos + 64)
    {
      ConstantBits(i % 64);
    }
  }

  lemma WholeWords(words: seq<Word>, pos: nat)
    requires pos < 64 * |words| && pos % 64 == 0
    ensures words[pos / 64] == 0 ==> forall i :: pos <= i < pos + 64 ==> !Bit(words, i)
    ensures words[pos / 64] == AllOnes ==> forall i :: pos <= i < pos + 64 ==> Bit(words, i)
  {
    forall i | pos <= i < pos + 64
      ensures words[pos / 64] == 0 ==> !Bit(words, i)
      ensures words[pos / 64] == AllOnes ==> Bit(words, i)
    {
      ConstantBits(i % 64);
    }
  }

  /** Adjacent ranges add up. */
  lemma EmptyRange(w: seq<Word>, start: nat)
    ensures RangeSet(w, w, start, 0) && RangeCleared(w, w, start, 0)
  {
  }

  lemma RangesJoin(w0: seq<Word>, w1: seq<Word>, w2: seq<Word>, start: nat, mid: nat, n: nat)
    requires start <= mid
    ensures RangeSet(w0, w1, start, mid - start) && RangeSet(w1, w2, mid, n) ==> RangeSet(w0, w2, start, mid + n - start)
    ensures RangeCleared(w0, w1, start, mid - start) && RangeCleared(w1, w2, mid, n) ==>
              RangeCleared(w0, w2, start, mid + n - start)
  {
  }

  // ----- the scan -----

  /** State of findFree's scan: a clear run of `free` bits ends at pos and cannot be extended to the
      left, and no run of the asked length ends before it. */
  ghost predicate Scanned(words: seq<Word>, amount: nat, pos: nat, free: nat) {
    && free <= pos <= 64 * |words|
    && ClearRun(words, pos - free, free)
    && (pos - free == 0 || Bit(words, pos - free - 1))
    && (forall p: nat :: p + amount < pos - free ==> !ClearRun(words, p, amount))
  }

  /** Inside a word the scan only ever stands in one with both set and clear bits. */
  ghost predicate InMixedWord(words: seq<Word>, pos: nat) {
    pos % 64 != 0 ==> pos < 64 * |words| && words[pos / 64] != 0 && words[pos / 64] != AllOnes
  }

  lemma ScanStart(words: seq<Word>, amount: nat)
    ensures Scanned(words, amount, 0, 0) && InMixedWord(words, 0)
    ensures amount == 0 ==> FirstFit(words, amount, 0) && SomeRun(words, amount) && RangeSet(words, words, 0, 0)
  {
    assert amount == 0 ==> ClearRun(words, 0, 0);
  }

  lemma ScanSetBits(words: seq<Word>, amount: nat, pos: nat, free: nat, n: nat)
    requires Scanned(words, amount, pos, free) && free < amount && 0 < n && pos + n <= 64 * |words|
    requires forall i :: pos <= i < pos + n ==> Bit(words, i)
    ensures Scanned(words, amount, pos + n, 0)
  {
    forall p: nat | p + amount < pos + n
      ensures !ClearRun(words, p, amount)
    {
      if p + amount > pos {
        assert Bit(words, if p <= pos then pos else p);
      } else if p < pos - free {
        if p + amount >= pos - free {
          assert Bit(words, pos - free - 1);
        }
      }
    }
  }

  lemma ScanClearBits(words: seq<Word>, amount: nat, pos: nat, free: nat, n: nat)
    requires Scanned(words, amount, pos, free) && pos + n <= 64 * |words|
    requires forall i :: pos <= i < pos + n ==> !Bit(words, i)
    ensures Scanned(words, amount, pos + n, free + n)
  {
  }

  /** What each branch of the loop does to the state of the scan. */
  lemma ScanStep(words: seq<Word>, amount: nat, pos: nat, free: nat)
    requires Scanned(words, amount, pos, free) && free < amount && pos < 64 * |words| && InMixedWord(words, pos)
    ensures var data := words[pos / 64];
      if data == AllOnes then pos + 64 <= 64 * |words| && Scanned(words, amount, pos + 64, 0) && InMixedWord(words, pos + 64)
      else if data == 0 then
        pos + 64 <= 64 * |words| && Scanned(words, amount, pos + 64, free + 64) && InMixedWord(words, pos + 64)
      else Scanned(words, amount, pos + 1, if BitOf(data, pos % 64) then 0 else free + 1) && InMixedWord(words, pos + 1)
  {
    var data := words[pos / 64];
    if data == AllOnes {
      WholeWords(words, pos);
      ScanSetBits(words, amount, pos, free, 64);
    } else if data == 0 {
      WholeWords(words, pos);
      ScanClearBits(words, amount, pos, free, 64);
    } else if BitOf(data, pos % 64) {
      ScanSetBits(words, amount, pos, free, 1);
    } else {
      ScanClearBits(words, amount, pos, free, 1);
    }
  }

  lemma ScanEnds(words: seq<Word>, amount: nat, pos: nat, free: nat)
    requires Scanned(words, amount, pos, free)
    ensures free >= amount ==> free <= pos && FirstFit(words, amount, pos - free) && SomeRun(words, amount)
    ensures free >= amount ==> pos - free + amount <= 64 * |words|
    ensures free < amount && pos == 64 * |words| ==> !SomeRun(words, amount)
  {
    forall p: nat | p < pos - free
      ensures !ClearRun(words, p, amount)
    {
      if p + amount >= pos - free {
        assert Bit(words, pos - free - 1);
      }
    }
  }

  // ----- rows -----

  /** at(): the row and the place in it of word w. */
  function RowOf(w: nat, rowWords: nat): nat
    requires rowWords > 0
  {
    QuotientNonNegative(w, rowWords);
    w / rowWords
  }

  function PlaceOf(w: nat, rowWords: nat): nat
    requires rowWords > 0
  {
    w % rowWords
  }

  /** Position to (row, place, bit) is a bijection on the whole capacity. */
  lemma PositionsAreCells(rowWords: nat, rowCount: nat)
    requires rowWords > 0
    ensures forall p: nat :: p / 64 < rowCount * rowWords ==>
              RowOf(p / 64, rowWords) < rowCount && PlaceOf(p / 64, rowWords) < rowWords
    ensures forall p: nat :: p == 64 * (RowOf(p / 64, rowWords) * rowWords + PlaceOf(p / 64, rowWords)) + p % 64
    ensures forall p: nat, q: nat ::
              (RowOf(p / 64, rowWords) == RowOf(q / 64, rowWords)
               && PlaceOf(p / 64, rowWords) == PlaceOf(q / 64, rowWords) && p % 64 == q % 64) ==> p == q
    ensures forall r: nat, c: nat, b: nat :: r < rowCount && c < rowWords && b < 64 ==>
              CellReached(rowWords, rowCount, r, c, b)
  {
    forall p: nat
      ensures p == 64 * (RowOf(p / 64, rowWords) * rowWords + PlaceOf(p / 64, rowWords)) + p % 64
    {
      DivMod(p / 64, rowWords);
    }
    forall w: nat | w < rowCount * rowWords
      ensures RowOf(w, rowWords) < rowCount
    {
      RowInRange(w, rowWords, rowCount);
    }
    forall v: nat, w: nat | RowOf(v, rowWords) == RowOf(w, rowWords) && PlaceOf(v, rowWords) == PlaceOf(w, rowWords)
      ensures v == w
    {
      SameCell(v, w, rowWords);
    }
    forall r: nat, c: nat, b: nat | r < rowCount && c < rowWords && b < 64
      ensures CellReached(rowWords, rowCount, r, c, b)
    {
      ReachCell(rowWords, rowCount, r, c, b);
    }
  }

  lemma ReachCell(rowWords: nat, rowCount: nat, r: nat, c: nat, b: nat)
    requires r < rowCount && c < rowWords && b < 64
    ensures CellReached(rowWords, rowCount, r, c, b)
  {
    var w := CellWord(rowWords, rowCount, r, c);
    var p: nat := 64 * w + b;
    assert p / 64 == w && p % 64 == b;
    hide RowOf, PlaceOf;
    assert p / 64 < rowCount * rowWords && RowOf(p / 64, rowWords) == r;
  }

  lemma CellWord(rowWords: nat, rowCount: nat, r: nat, c: nat) returns (w: nat)
    requires r < rowCount && c < rowWords
    ensures w < rowCount * rowWords && RowOf(w, rowWords) == r && PlaceOf(w, rowWords) == c
  {
    MulMonotone(0, r, rowWords);
    w := r * rowWords + c;
    Quotient(w, r, rowWords, c);
    MulMonotone(r + 1, rowCount, rowWords);
  }

  ghost predicate CellReached(rowWords: nat, rowCount: nat, r: nat, c: nat, b: nat)
    requires rowWords > 0
  {
    exists p: nat :: p / 64 < rowCount * rowWords
                     && RowOf(p / 64, rowWords) == r && PlaceOf(p / 64, rowWords) == c && p % 64 == b
  }

  lemma RowInRange(w: nat, rowWords: nat, rowCount: nat)
    requires rowWords > 0 && w < rowCount * rowWords
    ensures RowOf(w, rowWords) < rowCount
  {
    DivMod(w, rowWords);
    if RowOf(w, rowWords) >= rowCount {
      MulMonotone(rowCount, RowOf(w, rowWords), rowWords);
    }
  }

  lemma SameCell(v: nat, w: nat, rowWords: nat)
    requires rowWords > 0
    requires RowOf(v, rowWords) == RowOf(w, rowWords) && PlaceOf(v, rowWords) == PlaceOf(w, rowWords)
    ensures v == w
  {
    DivMod(v, rowWords);
    DivMod(w, rowWords);
  }

  class Bitmap {
    /** _size, in bits. */
    const size: nat
    const rowWords: nat
    /** _data; a null row has not been touched yet. */
    const rows: array<array?<Word>>

    /** The words in order, whether their row exists or not. */
    ghost var words: seq<Word>
    ghost var Repr: set<object>

    ghost predicate Valid()
      reads this, Repr
      ensures Valid() ==> this in Repr
    {
      && this in Repr && rows in Repr
      && rowWords > 0 && |words| == rows.Length * rowWords && size == 64 * |words|
      && (forall r :: 0 <= r < rows.Length && rows[r] != null ==> rows[r] in Repr && rows[r].Length == rowWords)
      && (forall r, s :: 0 <= r < s < rows.Length && rows[r] != null ==> rows[r] != rows[s])
      && (forall w: nat :: w < |words| ==> RowOf(w, rowWords) < rows.Length && words[w] == Cell(w))
    }

    ghost function Cell(w: nat): Word
      reads this, rows
      reads if rowWords > 0 && RowOf(w, rowWords) < rows.Length && rows[RowOf(w, rowWords)] != null
            then {rows[RowOf(w, rowWords)]} else {}
      requires rowWords > 0 && RowOf(w, rowWords) < rows.Length
    {
      var row := rows[RowOf(w, rowWords)];
      if row == null || PlaceOf(w, rowWords) >= row.Length then 0 else row[PlaceOf(w, rowWords)]
    }

    /** Two-level bitmap: rowCount rows of rowWords words, only the first of them allocated. With
        rowCount 1 this is the flat Bitmap of 64 * rowWords bits. */
    constructor (rowWords: nat, rowCount: nat)
      requires rowWords > 0 && rowCount > 0
      ensures Valid() && fresh(Repr) && this.rowWords == rowWords && rows.Length == rowCount
      ensures forall w :: 0 <= w < |words| ==> words[w] == 0
      ensures size == 64 * (rowCount * rowWords) && rows[0] != null && forall r :: 0 < r < rowCount ==> rows[r] == null
    {
      var table := new array?<Word>[rowCount](_ => null);
      var first := new Word[rowWords](_ => 0);
      table[0] := first;
      this.rowWords, this.rows := rowWords, table;
      size := 64 * (rowCount * rowWords);
      words := seq(rowCount * rowWords, _ => 0);
      Repr := {this, table, first};
      new;
      forall w: nat | w < |words|
        ensures RowOf(w, rowWords) < rows.Length
      {
        RowInRange(w, rowWords, rowCount);
      }
    }

    /** The row of at(pos), allocated on first use; the bits do not change. */
    method Touch(pos: nat) returns (row: array<Word>)
      requires Valid() && pos < size
      modifies Repr
      ensures Valid() && fresh(Repr - old(Repr)) && words == old(words)
      ensures RowOf(pos / 64, rowWords) < rows.Length && row == rows[RowOf(pos / 64, rowWords)]
      ensures forall r :: 0 <= r < rows.Length && (r != RowOf(pos / 64, rowWords) || old(rows[r]) != null) ==>
                rows[r] == old(rows[r])
      ensures PlaceOf(pos / 64, rowWords) < row.Length && row[PlaceOf(pos / 64, rowWords)] == words[pos / 64]
    {
      var r := RowOf(pos / 64, rowWords);
      assert words[pos / 64] == Cell(pos / 64);
      if rows[r] == null {
        var fresh_row := new Word[rowWords](_ => 0);
        rows[r] := fresh_row;
        Repr := Repr + {fresh_row};
      }
      row := rows[r];
    }

    /** Reads the word that at(pos) refers to. */
    method Load(pos: nat) returns (data: Word)
      requires Valid() && pos < size
      modifies Repr
      ensures Valid() && fresh(Repr - old(Repr)) && words == old(words)
      ensures data == words[pos / 64]
    {
      var row := Touch(pos);
      data := row[PlaceOf(pos / 64, rowWords)];
    }

    /** Writes the word that at(pos) refers to. */
    method Store(pos: nat, data: Word)
      requires Valid() && pos < size
      modifies Repr
      ensures Valid() && fresh(Repr - old(Repr)) && words == old(words)[pos / 64 := data]
    {
      var row := Touch(pos);
      row[PlaceOf(pos / 64, rowWords)] := data;
      words := words[pos / 64 := data];
      forall w: nat | w < |words|
        ensures words[w] == Cell(w)
      {
        if w != pos / 64 && RowOf(w, rowWords) == RowOf(pos / 64, rowWords)
           && PlaceOf(w, rowWords) == PlaceOf(pos / 64, rowWords) {
          SameCell(w, pos / 64, rowWords);
        }
      }
    }

    method Set(pos: nat)
      requires Valid() && pos < size
      modifies Repr
      ensures Valid() && fresh(Repr - old(Repr)) && RangeSet(old(words), words, pos, 1)
    {
      StoreSetsBit(words, pos);
      var data := Load(pos);
      Store(pos, SetBit(data, pos % 64));
    }

    method Clear(pos: nat)
      requires Valid() && pos < size
      modifies Repr
      ensures Valid() && fresh(Repr - old(Repr)) && RangeCleared(old(words), words, pos, 1)
    {
      StoreClearsBit(words, pos);
      var data := Load(pos);
      Store(pos, ClearBit(data, pos % 64));
    }

    method Test(pos: nat) returns (b: bool)
      requires Valid() && pos < size
      modifies Repr
      ensures Valid() && fresh(Repr - old(Repr)) && words == old(words) && b == Bit(words, pos)
    {
      var data := Load(pos);
      b := BitOf(data, pos % 64);
    }

    /** setAll: whole words where possible, single bits elsewhere. */
    method SetAll(start: nat, count: nat)
      requires Valid() && start + count <= size
      modifies Repr
      ensures Valid() && fresh(Repr - old(Repr)) && RangeSet(old(words), words, start, count)
    {
      EmptyRange(words, start);
      assert size == 64 * |words|;
      hide Valid, RangeSet, RangeCleared;
      var pos: nat, amount: nat := start, count;
      while amount > 0
        invariant pos + amount == start + count && start <= pos && size == 64 * |words|
        invariant Valid() && fresh(Repr - old(Repr)) && RangeSet(old(words), words, start, pos - start)
      {
        ghost var was := words;
        if pos % 64 == 0 && amount >= 64 {
          StoreWholeWord(words, pos);
          Store(pos, AllOnes);
          RangesJoin(old(words), was, words, start, pos, 64);
          amount := amount - 64;
          pos := pos + 64;
        } else {
          StoreSetsBit(words, pos);
          var data := Load(pos);
          Store(pos, SetBit(data, pos % 64));
          RangesJoin(old(words), was, words, start, pos, 1);
          amount := amount - 1;
          pos := pos + 1;
        }
      }
    }

    /** clearAll, with the decrement that the source's bit branch lacks. */
    method ClearAll(start: nat, count: nat)
      requires Valid() && start + count <= size
      modifies Repr
      ensures Valid() && fresh(Repr - old(Repr)) && RangeCleared(old(words), words, start, count)
    {
      EmptyRange(words, start);
      assert size == 64 * |words|;
      hide Valid, RangeSet, RangeCleared;
      var pos: nat, amount: nat := start, count;
      while amount > 0
        invariant pos + amount == start + count && start <= pos && size == 64 * |words|
        invariant Valid() && fresh(Repr - old(Repr)) && RangeCleared(old(words), words, start, pos - start)
      {
        ghost var was := words;
        if pos % 64 == 0 && amount >= 64 {
          StoreWholeWord(words, pos);
          Store(pos, 0);
          RangesJoin(old(words), was, words, start, pos, 64);
          amount := amount - 64;
          pos := pos + 64;
        } else {
          StoreClearsBit(words, pos);
          var data := Load(pos);
          Store(pos, ClearBit(data, pos % 64));
          RangesJoin(old(words), was, words, start, pos, 1);
          amount := amount - 1;
          pos := pos + 1;
        }
      }
    }

    /** The scan of findFree. */
    method Scan(amount: nat) returns (pos: nat, free: nat)
      requires Valid() && size == 64 * |words|
      modifies Repr
      ensures Valid() && fresh(Repr - old(Repr)) && words == old(words)
      ensures Scanned(words, amount, pos, free) && (free >= amount || pos == size)
    {
      hide *;
      ScanStart(words, amount);
      pos, free := 0, 0;
      while free < amount && pos < size
        invariant Valid() && fresh(Repr - old(Repr)) && words == old(words) && size == 64 * |words|
        invariant pos <= size
        invariant Scanned(words, amount, pos, free)
        invariant InMixedWord(words, pos)
        decreases size - pos
      {
        var data := Load(pos);
        ScanStep(words, amount, pos, free);
        if data == AllOnes {
          free := 0;
          pos := pos + 64;
          continue;
        } else if data == 0 {
          free := free + 64;
          pos := pos + 64;
        } else {
          if BitOf(data, pos % 64) {
            free := 0;
          } else {
            free := free + 1;
          }
          pos := pos + 1;
        }
        if free >= amount {
          return;
        }
      }
    }

    /** findFree: true first fit although full and empty words are skipped whole. Position 0 also
        stands for failure. */
    method FindFree(amount: nat) returns (start: nat)
      requires Valid()
      modifies Repr
      ensures Valid() && fresh(Repr - old(Repr))
      ensures SomeRun(old(words), amount) ==> FirstFit(old(words), amount, start) && RangeSet(old(words), words, start, amount)
      ensures !SomeRun(old(words), amount) ==> start == 0 && words == old(words)
    {
      assert size == 64 * |words|;
      hide *;
      ScanStart(words, amount);
      if amount == 0 {
        return 0;
      }
      var pos, free := Scan(amount);
      ScanEnds(words, amount, pos, free);
      if free >= amount {
        SetAll(pos - free, amount);
        return pos - free;
      }
      return 0;
    }
  }
}
