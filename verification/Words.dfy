/** A bit map packed in 64-bit words, as src/clack.c keeps its window: bit b is bit b % 64 of word
    b / 64. */
module Words {

  const SIZE := 64

  function Half(w: bv64): bv64 { w >> 1 }
  function Twice(w: bv64): bv64 { w << 1 }
  predicate Odd(w: bv64) { w & 1 == 1 }
  function Both(a: bv64, b: bv64): bv64 { a & b }
  function Either(a: bv64, b: bv64): bv64 { a | b }
  function Less(a: bv64, b: bv64): bv64 { a & !b }

  /** 1 shifted left i times. */
  function One(i: nat): bv64 { if i == 0 then 1 else Twice(One(i - 1)) }

  /** w shifted right i times. */
  function Right(w: bv64, i: nat): bv64
    decreases i
  {
    if i == 0 then w else Right(Half(w), i - 1)
  }

  /** Bit i of a word: shifted down, the last bit. */
  predicate Bit(w: bv64, i: nat) { Odd(Right(w, i)) }

  /** Bit i of a word set or cleared. */
  function Put(w: bv64, i: nat, on: bool): bv64 { if on then Either(w, One(i)) else Less(w, One(i)) }

  // ---- a bit is where its mask is ----

  lemma MaskStep(w: bv64, o: bv64)
    ensures Both(w, Twice(o)) != 0 <==> Both(Half(w), o) != 0
  {
  }

  lemma MaskLast(w: bv64)
    ensures Both(w, 1) != 0 <==> Odd(w)
  {
  }

  lemma {:induction false} BitIsMask(w: bv64, i: nat)
    ensures Bit(w, i) <==> Both(w, One(i)) != 0
    decreases i
  {
    hide Half;
    hide Twice;
    hide Odd;
    hide Both;
    if i == 0 {
      MaskLast(w);
    } else {
      BitIsMask(Half(w), i - 1);
      MaskStep(w, One(i - 1));
    }
  }

  lemma ApartStep(a: bv64, b: bv64)
    ensures Both(a, b) == 0 ==> Both(Twice(a), Twice(b)) == 0
    ensures Both(1, Twice(a)) == 0 && Both(Twice(a), 1) == 0
  {
  }

  lemma {:induction false} MasksApart(i: nat, j: nat)
    requires i != j
    ensures Both(One(i), One(j)) == 0
    decreases i
  {
    hide Twice;
    hide Both;
    if i == 0 {
      ApartStep(One(j - 1), 0);
    } else if j == 0 {
      ApartStep(One(i - 1), 0);
    } else {
      MasksApart(i - 1, j - 1);
      ApartStep(One(i - 1), One(j - 1));
    }
  }

  lemma {:induction false} ZeroStays(i: nat, j: nat)
    requires One(i) == 0 && i <= j
    ensures One(j) == 0
    decreases j
  {
    if i < j { ZeroStays(i, j - 1); }
  }

  lemma TopMask()
    ensures One(63) == 0x8000_0000_0000_0000
  {
    assert One(8) == 0x100;
    assert One(16) == 0x1_0000;
    assert One(24) == 0x100_0000;
    assert One(32) == 0x1_0000_0000;
    assert One(40) == 0x100_0000_0000;
    assert One(48) == 0x1_0000_0000_0000;
    assert One(56) == 0x100_0000_0000_0000;
  }

  /** No mask of a word's own bits is shifted out. */
  lemma MaskIsThere(i: nat)
    requires i < SIZE
    ensures One(i) != 0
  {
    hide One;
    TopMask();
    if One(i) == 0 { ZeroStays(i, 63); }
  }

  lemma Itself(m: bv64)
    ensures Both(m, m) == m
  {
  }

  /** The mask of bit i has that bit and no other. */
  lemma OneBit(i: nat, j: nat)
    requires i < SIZE && j < SIZE
    ensures Bit(One(i), j) <==> i == j
  {
    hide Bit;
    hide Both;
    hide One;
    BitIsMask(One(i), j);
    if i != j {
      MasksApart(i, j);
    } else {
      MaskIsThere(i);
      Itself(One(i));
    }
  }

  lemma HalfOf(a: bv64, b: bv64)
    ensures Half(Either(a, b)) == Either(Half(a), Half(b)) && (Odd(Either(a, b)) <==> Odd(a) || Odd(b))
  {
  }

  lemma HalfLess(a: bv64, b: bv64)
    ensures Half(Less(a, b)) == Less(Half(a), Half(b)) && (Odd(Less(a, b)) <==> Odd(a) && !Odd(b))
  {
  }

  lemma {:induction false} BitOf(a: bv64, b: bv64, j: nat)
    ensures Bit(Either(a, b), j) <==> Bit(a, j) || Bit(b, j)
    ensures Bit(Less(a, b), j) <==> Bit(a, j) && !Bit(b, j)
    decreases j
  {
    hide Half;
    hide Odd;
    hide Either;
    hide Less;
    HalfOf(a, b);
    HalfLess(a, b);
    if j > 0 { BitOf(Half(a), Half(b), j - 1); }
  }

  /** Putting a bit changes that bit of the word and no other. */
  lemma PutBit(w: bv64, i: nat, on: bool, j: nat)
    requires i < SIZE && j < SIZE
    ensures Bit(Put(w, i, on), j) <==> if i == j then on else Bit(w, j)
  {
    hide Bit;
    hide Either;
    hide Less;
    hide One;
    OneBit(i, j);
    BitOf(w, One(i), j);
  }

  lemma {:induction false} NoBit(i: nat)
    ensures !Bit(0, i)
  {
    if i > 0 { NoBit(i - 1); }
  }

  // ---- a map of bits ----

  function Bits(ws: seq<bv64>): (bits: seq<bool>)
    ensures |bits| == SIZE * |ws|
  {
    seq(SIZE * |ws|, b requires 0 <= b < SIZE * |ws| => Bit(ws[b / SIZE], b % SIZE))
  }

  /** Putting bit b of the map changes that bit and no other. */
  lemma PutBits(ws: seq<bv64>, b: nat, on: bool)
    requires b < SIZE * |ws|
    ensures Bits(ws[b / SIZE := Put(ws[b / SIZE], b % SIZE, on)]) == Bits(ws)[b := on]
  {
    hide Bit;
    hide Put;
    var ws' := ws[b / SIZE := Put(ws[b / SIZE], b % SIZE, on)];
    forall c | 0 <= c < SIZE * |ws| ensures Bits(ws')[c] == Bits(ws)[b := on][c] {
      if c / SIZE == b / SIZE { PutBit(ws[b / SIZE], b % SIZE, on, c % SIZE); }
    }
  }

  lemma NoBits(ws: seq<bv64>)
    requires forall i :: 0 <= i < |ws| ==> ws[i] == 0
    ensures forall b :: 0 <= b < |Bits(ws)| ==> !Bits(ws)[b]
  {
    hide Bit;
    forall b | 0 <= b < |Bits(ws)| ensures !Bits(ws)[b] { NoBit(b % SIZE); }
  }
}
