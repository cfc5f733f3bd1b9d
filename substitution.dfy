/** The nonlinear bijection t of GOST R 34.12-2015 (section 4.1 of RFC 8891):
    eight 4-bit S-boxes applied to the eight nibbles of a word. */
module Substitution {
  import opened Words

  /** A 4-bit value: a nibble of a word, and an index into or an entry of an S-box. */
  type Nibble = n: int | 0 <= n < 16

  /** `S_BOXES`: row i is the permutation pi_i' applied to nibble i (bits 4i..4i+3),
      in a table of eight rows of sixteen nibbles. */
  function SBoxes(): (table: seq<seq<Nibble>>)
    ensures |table| == 8
    ensures forall i :: 0 <= i < 8 ==> |table[i]| == 16
  {
    [
      [12, 4, 6, 2, 10, 5, 11, 9, 14, 8, 13, 7, 0, 3, 15, 1],
      [6, 8, 2, 3, 9, 10, 5, 12, 1, 14, 4, 7, 11, 13, 0, 15],
      [11, 3, 5, 8, 2, 15, 10, 13, 14, 1, 7, 4, 12, 9, 6, 0],
      [12, 8, 2, 1, 13, 4, 15, 6, 7, 0, 10, 5, 3, 14, 9, 11],
      [7, 15, 5, 10, 8, 1, 6, 13, 0, 9, 3, 14, 11, 4, 2, 12],
      [5, 13, 15, 6, 9, 2, 12, 10, 11, 7, 8, 1, 4, 3, 14, 0],
      [8, 14, 2, 5, 6, 9, 1, 12, 15, 4, 11, 0, 13, 10, 3, 7],
      [1, 7, 14, 13, 0, 5, 8, 3, 4, 15, 10, 6, 9, 12, 11, 2]]
  }

  /** The inverse of each row of SBoxes; it exists only to prove that t is a bijection. */
  ghost const InverseSBoxes: seq<seq<Nibble>> := [
    [12, 15, 3, 13, 1, 5, 2, 11, 9, 7, 4, 6, 0, 10, 8, 14],
    [14, 8, 2, 3, 10, 6, 0, 11, 1, 4, 5, 12, 7, 13, 9, 15],
    [15, 9, 4, 1, 11, 2, 14, 10, 3, 13, 6, 0, 12, 7, 8, 5],
    [9, 3, 2, 12, 5, 11, 7, 8, 1, 14, 10, 15, 0, 4, 13, 6],
    [8, 5, 14, 10, 13, 2, 6, 0, 4, 9, 3, 12, 15, 7, 11, 1],
    [15, 11, 5, 13, 12, 0, 3, 9, 10, 4, 7, 8, 6, 1, 14, 2],
    [11, 6, 2, 14, 9, 3, 4, 15, 0, 5, 13, 10, 7, 12, 1, 8],
    [4, 0, 15, 7, 8, 5, 11, 1, 6, 12, 10, 14, 13, 3, 2, 9]]

  /** The inverse table has eight rows of sixteen entries, as SBoxes has. */
  lemma TablesShape()
    ensures |InverseSBoxes| == 8
    ensures forall i :: 0 <= i < 8 ==> |InverseSBoxes[i]| == 16
  {
  }

  /** Each row of SBoxes and the same row of InverseSBoxes undo each other. */
  lemma RowsInverse(i: int, x: Nibble)
    requires 0 <= i < 8
    ensures |SBoxes()[i]| == 16 && |InverseSBoxes[i]| == 16
    ensures InverseSBoxes[i][SBoxes()[i][x]] == x
    ensures SBoxes()[i][InverseSBoxes[i][x]] == x
  {
    var table := SBoxes();  // unfold the table once for the case split below
    assert i == 0 || i == 1 || i == 2 || i == 3 || i == 4 || i == 5 || i == 6 || i == 7;
    assert x == 0 || x == 1 || x == 2 || x == 3 || x == 4 || x == 5 || x == 6 || x == 7 ||
      x == 8 || x == 9 || x == 10 || x == 11 || x == 12 || x == 13 || x == 14 || x == 15;
  }

  /** Every row of SBoxes is a permutation of 0..15: every nibble occurs in it, and no two inputs collide. */
  lemma SBoxRowIsPermutation(i: int)
    requires 0 <= i < 8
    ensures |SBoxes()[i]| == 16
    ensures forall y: Nibble :: y in SBoxes()[i]
    ensures forall x: Nibble, y: Nibble :: x != y ==> SBoxes()[i][x] != SBoxes()[i][y]
  {
    RowsInverse(i, 0);
    forall y: Nibble ensures y in SBoxes()[i] {
      RowsInverse(i, y);
      assert SBoxes()[i][InverseSBoxes[i][y]] == y;
    }
    forall x: Nibble, y: Nibble | x != y ensures SBoxes()[i][x] != SBoxes()[i][y] {
      RowsInverse(i, x);
      RowsInverse(i, y);
    }
  }

  /** The eight nibbles of a word, least significant first: nibble i is `(a >> 4i) & 0xF`. */
  function Nibbles(a: Word): (ns: seq<Nibble>)
    ensures |ns| == 8
  {
    [(a & 0xF) as int, ((a >> 4) & 0xF) as int, ((a >> 8) & 0xF) as int, ((a >> 12) & 0xF) as int,
     ((a >> 16) & 0xF) as int, ((a >> 20) & 0xF) as int, ((a >> 24) & 0xF) as int, ((a >> 28) & 0xF) as int]
  }

  /** A nibble as a word, `(uint32_t)n`; looked up in a table so that no integer is converted to a bit-vector. */
  function NibbleWord(n: Nibble): (w: Word)
    ensures w < 16 && w as int == n
  {
    assert n == 0 || n == 1 || n == 2 || n == 3 || n == 4 || n == 5 || n == 6 || n == 7 ||
      n == 8 || n == 9 || n == 10 || n == 11 || n == 12 || n == 13 || n == 14 || n == 15;
    [0x0, 0x1, 0x2, 0x3, 0x4, 0x5, 0x6, 0x7, 0x8, 0x9, 0xA, 0xB, 0xC, 0xD, 0xE, 0xF][n]
  }

  /** A word below 16 is the table entry at its own value. */
  lemma NibbleWordOfValue(w: Word)
    requires w < 16
    ensures NibbleWord(w as int) == w
  {
    var n := NibbleWord(w as int);
    assert n as int == w as int;
  }

  /** The word whose nibble i is ns[i]: the `result |= S << (4 * i)` accumulation of t. */
  function Assemble(ns: seq<Nibble>): Word
    requires |ns| == 8
  {
    NibbleWord(ns[0]) | (NibbleWord(ns[1]) << 4) | (NibbleWord(ns[2]) << 8) | (NibbleWord(ns[3]) << 12) |
    (NibbleWord(ns[4]) << 16) | (NibbleWord(ns[5]) << 20) | (NibbleWord(ns[6]) << 24) | (NibbleWord(ns[7]) << 28)
  }

  /** The bit-level core of NibblesOfAssemble: or-ing eight 4-bit values into their slots keeps each readable. */
  lemma SlotsReadBack(w0: Word, w1: Word, w2: Word, w3: Word, w4: Word, w5: Word, w6: Word, w7: Word)
    requires w0 < 16 && w1 < 16 && w2 < 16 && w3 < 16 && w4 < 16 && w5 < 16 && w6 < 16 && w7 < 16
    ensures var x := w0 | (w1 << 4) | (w2 << 8) | (w3 << 12) | (w4 << 16) | (w5 << 20) | (w6 << 24) | (w7 << 28);
      x & 0xF == w0 && (x >> 4) & 0xF == w1 && (x >> 8) & 0xF == w2 && (x >> 12) & 0xF == w3 &&
      (x >> 16) & 0xF == w4 && (x >> 20) & 0xF == w5 && (x >> 24) & 0xF == w6 && (x >> 28) & 0xF == w7
  {
  }

  /** The bit-level core of AssembleOfNibbles: a word is the or of its eight nibbles in their slots. */
  lemma SlotsCover(a: Word)
    ensures a == (a & 0xF) | (((a >> 4) & 0xF) << 4) | (((a >> 8) & 0xF) << 8) | (((a >> 12) & 0xF) << 12) |
      (((a >> 16) & 0xF) << 16) | (((a >> 20) & 0xF) << 20) | (((a >> 24) & 0xF) << 24) | (((a >> 28) & 0xF) << 28)
  {
  }

  /** Splitting the or of eight 4-bit values in their slots gives back the values. */
  lemma NibblesOfSlots(w0: Word, w1: Word, w2: Word, w3: Word, w4: Word, w5: Word, w6: Word, w7: Word)
    requires w0 < 16 && w1 < 16 && w2 < 16 && w3 < 16 && w4 < 16 && w5 < 16 && w6 < 16 && w7 < 16
    ensures Nibbles(w0 | (w1 << 4) | (w2 << 8) | (w3 << 12) | (w4 << 16) | (w5 << 20) | (w6 << 24) | (w7 << 28))
      == [w0 as int, w1 as int, w2 as int, w3 as int, w4 as int, w5 as int, w6 as int, w7 as int]
  {
    SlotsReadBack(w0, w1, w2, w3, w4, w5, w6, w7);
  }

  /** Splitting an assembled word gives back its nibbles. */
  lemma NibblesOfAssemble(ns: seq<Nibble>)
    requires |ns| == 8
    ensures Nibbles(Assemble(ns)) == ns
  {
    NibblesOfSlots(NibbleWord(ns[0]), NibbleWord(ns[1]), NibbleWord(ns[2]), NibbleWord(ns[3]),
                   NibbleWord(ns[4]), NibbleWord(ns[5]), NibbleWord(ns[6]), NibbleWord(ns[7]));
    NibbleWordValues(ns);
  }

  /** The values of the words NibbleWord makes of ns are ns. */
  lemma NibbleWordValues(ns: seq<Nibble>)
    requires |ns| == 8
    ensures [NibbleWord(ns[0]) as int, NibbleWord(ns[1]) as int, NibbleWord(ns[2]) as int, NibbleWord(ns[3]) as int,
             NibbleWord(ns[4]) as int, NibbleWord(ns[5]) as int, NibbleWord(ns[6]) as int, NibbleWord(ns[7]) as int] == ns
  {
    assert ns == [ns[0], ns[1], ns[2], ns[3], ns[4], ns[5], ns[6], ns[7]];
  }

  /** Assembling the nibbles of a word gives back the word. */
  lemma AssembleOfNibbles(a: Word)
    ensures Assemble(Nibbles(a)) == a
  {
    NibbleWordOfValue(a & 0xF); NibbleWordOfValue((a >> 4) & 0xF);
    NibbleWordOfValue((a >> 8) & 0xF); NibbleWordOfValue((a >> 12) & 0xF);
    NibbleWordOfValue((a >> 16) & 0xF); NibbleWordOfValue((a >> 20) & 0xF);
    NibbleWordOfValue((a >> 24) & 0xF); NibbleWordOfValue((a >> 28) & 0xF);
    SlotsCover(a);
  }

  /** Replaces nibble i by its image under row i of the given table. */
  function SubstituteWith(table: seq<seq<Nibble>>, ns: seq<Nibble>): (r: seq<Nibble>)
    requires |table| == 8 && (forall i :: 0 <= i < 8 ==> |table[i]| == 16) && |ns| == 8
    ensures |r| == 8
  {
    [table[0][ns[0]], table[1][ns[1]], table[2][ns[2]], table[3][ns[3]],
     table[4][ns[4]], table[5][ns[5]], table[6][ns[6]], table[7][ns[7]]]
  }

  /** `t`: substitutes every nibble of a through its S-box, so nibble i of the
      result is row i of SBoxes() applied to nibble i of a. */
  function T(a: Word): (r: Word)
    ensures forall i {:trigger Nibbles(r)[i]} :: 0 <= i < 8 ==> Nibbles(r)[i] == SBoxes()[i][Nibbles(a)[i]]
  {
    var ns := SubstituteWith(SBoxes(), Nibbles(a));
    NibblesOfAssemble(ns);
    Assemble(ns)
  }

  /** The inverse of t, built from InverseSBoxes in the same way. */
  ghost function TInverse(b: Word): Word
  {
    TablesShape();
    Assemble(SubstituteWith(InverseSBoxes, Nibbles(b)))
  }

  /** Substituting through SBoxes and then InverseSBoxes, or the other way
      round, gives back the nibbles. */
  lemma SubstitutionsCancel(ns: seq<Nibble>)
    requires |ns| == 8
    ensures SubstituteWith(InverseSBoxes, SubstituteWith(SBoxes(), ns)) == ns
    ensures SubstituteWith(SBoxes(), SubstituteWith(InverseSBoxes, ns)) == ns
  {
    RowsInverse(0, ns[0]); RowsInverse(1, ns[1]); RowsInverse(2, ns[2]); RowsInverse(3, ns[3]);
    RowsInverse(4, ns[4]); RowsInverse(5, ns[5]); RowsInverse(6, ns[6]); RowsInverse(7, ns[7]);
    assert ns == [ns[0], ns[1], ns[2], ns[3], ns[4], ns[5], ns[6], ns[7]];
  }

  /** TInverse undoes t. */
  lemma TInverseOfT(a: Word)
    ensures TInverse(T(a)) == a
  {
    TablesShape();
    var ns := Nibbles(a);
    NibblesOfAssemble(SubstituteWith(SBoxes(), ns));
    SubstitutionsCancel(ns);
    AssembleOfNibbles(a);
  }

  /** t undoes TInverse, so t is onto as well as one-to-one: a bijection on words. */
  lemma TOfTInverse(b: Word)
    ensures T(TInverse(b)) == b
  {
    TablesShape();
    var ms := Nibbles(b);
    NibblesOfAssemble(SubstituteWith(InverseSBoxes, ms));
    SubstitutionsCancel(ms);
    AssembleOfNibbles(b);
  }
}
