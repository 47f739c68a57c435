/** CRC-32 as the dump tools compute it (cli/perfdump.c and cli/perfload.c, the same code in both):
    a table of 256 words and a byte at a time - against the definition bit by bit, least
    significant bit first (section 8 of RFC 1952). */
module Crc {
  import opened Bytes

  const POLY: bv32 := 0xEDB88320

  function Xor(a: bv32, b: bv32): bv32 { a ^ b }
  function Half(a: bv32): bv32 { a >> 1 }
  predicate Odd(a: bv32) { a & 1 == 1 }

  function Word(b: byte): bv32 { (b as bv8) as bv32 }

  // ---- the definition ----

  /** One bit of the message: the polynomial goes in when it differs from the register's last bit. */
  function BitIn(c: bv32, bit: bool): bv32 { if Odd(c) != bit then Xor(POLY, Half(c)) else Half(c) }

  /** The k low bits of w, the lowest first. */
  function BitsIn(c: bv32, w: bv32, k: nat): bv32
    decreases k
  {
    if k == 0 then c else BitsIn(BitIn(c, Odd(w)), Half(w), k - 1)
  }

  function Serial(c: bv32, bs: seq<byte>): bv32 {
    if bs == [] then c else BitsIn(Serial(c, bs[..|bs| - 1]), Word(bs[|bs| - 1]), 8)
  }

  lemma {:induction false} SerialConcat(c: bv32, a: seq<byte>, b: seq<byte>)
    ensures Serial(c, a + b) == Serial(Serial(c, a), b)
  {
    hide BitsIn;
    if b == [] {
      assert a + b == a;
    } else {
      SerialConcat(c, a, b[..|b| - 1]);
      assert (a + b)[..|a + b| - 1] == a + b[..|b| - 1];
    }
  }

  // ---- the table ----

  /** One turn of the register. */
  function Turn(c: bv32): bv32 { if Odd(c) then Xor(POLY, Half(c)) else Half(c) }

  function Turns(c: bv32, k: nat): bv32
    decreases k
  {
    if k == 0 then c else Turns(Turn(c), k - 1)
  }

  function Shift(w: bv32, k: nat): bv32
    decreases k
  {
    if k == 0 then w else Shift(Half(w), k - 1)
  }

  predicate LowClear(h: bv32, k: nat)
    decreases k
  {
    k == 0 || (!Odd(h) && LowClear(Half(h), k - 1))
  }

  lemma XorHalf(c: bv32, w: bv32)
    ensures Half(Xor(c, w)) == Xor(Half(c), Half(w))
    ensures Odd(Xor(c, w)) <==> Odd(c) != Odd(w)
  {
  }

  lemma XorAssoc(a: bv32, b: bv32, c: bv32)
    ensures Xor(Xor(a, b), c) == Xor(a, Xor(b, c))
  {
  }

  lemma XorComm(a: bv32, b: bv32)
    ensures Xor(a, b) == Xor(b, a)
  {
  }

  lemma XorSwap(a: bv32, b: bv32, c: bv32)
    ensures Xor(a, Xor(b, c)) == Xor(b, Xor(a, c))
  {
    hide Xor;
    XorAssoc(a, b, c);
    XorAssoc(b, a, c);
    XorComm(a, b);
  }

  /** Without its last bit, a word only moves. */
  lemma TurnSplits(h: bv32, l: bv32)
    requires !Odd(h)
    ensures Turn(Xor(h, l)) == Xor(Half(h), Turn(l))
  {
    hide Xor;
    hide Half;
    hide Odd;
    XorHalf(h, l);
    XorSwap(POLY, Half(h), Half(l));
  }

  lemma BitTurns(c: bv32, w: bv32)
    ensures Xor(BitIn(c, Odd(w)), Half(w)) == Turn(Xor(c, w))
  {
    hide Xor;
    hide Half;
    hide Odd;
    XorHalf(c, w);
    XorAssoc(POLY, Half(c), Half(w));
  }

  /** Feeding bits is turning their sum, but for the bits not yet used. */
  lemma {:induction false} BitsTurn(c: bv32, w: bv32, k: nat)
    ensures Xor(BitsIn(c, w, k), Shift(w, k)) == Turns(Xor(c, w), k)
    decreases k
  {
    hide Xor;
    hide Half;
    hide Odd;
    hide Turn;
    hide BitIn;
    if k > 0 {
      BitTurns(c, w);
      BitsTurn(BitIn(c, Odd(w)), Half(w), k - 1);
    }
  }

  lemma {:induction false} TurnsSplit(h: bv32, l: bv32, k: nat)
    requires LowClear(h, k)
    ensures Turns(Xor(h, l), k) == Xor(Shift(h, k), Turns(l, k))
    decreases k
  {
    hide Xor;
    hide Half;
    hide Odd;
    hide Turn;
    if k > 0 {
      TurnSplits(h, l);
      TurnsSplit(Half(h), Turn(l), k - 1);
    }
  }

  // ---- a byte at a time ----

  function Mask(k: nat): bv32 { if k == 0 then 0 else (Mask(k - 1) << 1) | 1 }

  lemma MaskDown(h: bv32, m: bv32)
    requires h & ((m << 1) | 1) == 0
    ensures !Odd(h) && Half(h) & m == 0
  {
  }

  lemma {:induction false} MaskClears(h: bv32, k: nat)
    requires h & Mask(k) == 0
    ensures LowClear(h, k)
    decreases k
  {
    hide Odd;
    hide Half;
    if k > 0 {
      MaskDown(h, Mask(k - 1));
      MaskClears(Half(h), k - 1);
    }
  }

  lemma Halves(w: bv32)
    ensures Half(Half(Half(Half(Half(Half(Half(Half(w)))))))) == w >> 8
  {
  }

  lemma Shift8(w: bv32)
    ensures Shift(w, 8) == w >> 8
  {
    hide Half;
    Halves(w);
    assert Shift(w, 8) == Shift(Half(Half(Half(Half(w)))), 4);
  }

  lemma Mask8()
    ensures Mask(8) == 0xFF
  {
    assert Mask(4) == 0xF;
    assert Mask(6) == 0x3F;
  }

  function High(x: bv32): bv32 { x & 0xFFFF_FF00 }
  function Low(x: bv32): bv32 { x & 0xFF }

  lemma HighLow(x: bv32)
    ensures Xor(High(x), Low(x)) == x && High(x) & 0xFF == 0
  {
  }

  lemma HighDown(c: bv32, w: bv32)
    requires w >> 8 == 0
    ensures High(Xor(c, w)) >> 8 == c >> 8
  {
  }

  lemma WordIsByte(b: byte)
    ensures Word(b) >> 8 == 0
  {
  }

  lemma XorZero(a: bv32)
    ensures Xor(a, 0) == a
  {
  }

  /** What the table holds for an index. */
  function Entry(i: bv32): bv32 { Turns(i, 8) }

  function Index(c: bv32, b: byte): bv32 { Low(Xor(c, Word(b))) }

  /** One table look-up and a shift is eight turns of the register with the byte's eight bits. */
  lemma TableIsSerial(c: bv32, b: byte)
    ensures Xor(Entry(Index(c, b)), c >> 8) == BitsIn(c, Word(b), 8)
  {
    hide Xor;
    hide High;
    hide Low;
    hide Turns;
    hide BitsIn;
    hide Shift;
    hide Word;
    hide LowClear;
    var w := Word(b);
    var x := Xor(c, w);
    WordIsByte(b);
    Shift8(w);
    BitsTurn(c, w, 8);
    XorZero(BitsIn(c, w, 8));
    HighLow(x);
    Mask8();
    MaskClears(High(x), 8);
    TurnsSplit(High(x), Low(x), 8);
    Shift8(High(x));
    HighDown(c, w);
    XorComm(c >> 8, Entry(Low(x)));
  }

  // ---- the code ----

  function Not(c: bv32): bv32 { !c }

  lemma NotNot(c: bv32)
    ensures Not(Not(c)) == c
  {
  }

  /** The CRC of more bytes behind those of a CRC; a CRC starts from 0. */
  function Update(crc: bv32, bs: seq<byte>): bv32 { Not(Serial(Not(crc), bs)) }

  /** A running CRC does not care how its input was cut. */
  lemma UpdateConcat(crc: bv32, a: seq<byte>, b: seq<byte>)
    ensures Update(crc, a + b) == Update(Update(crc, a), b)
  {
    hide Serial;
    hide Not;
    SerialConcat(Not(crc), a, b);
    NotNot(Serial(Not(crc), a));
  }

  ghost predicate IsTable(tab: array<bv32>)
    reads tab
  {
    tab.Length == 256 && forall i: byte :: tab[i] == Entry(Word(i))
  }

  /** The table: each index, turned eight times. */
  method FillTable(tab: array<bv32>)
    requires tab.Length == 256
    modifies tab
    ensures IsTable(tab)
  {
    hide Turn;
    hide Word;
    for i := 0 to 256
      invariant forall j: byte :: j < i ==> tab[j] == Entry(Word(j))
    {
      var c := Word(i);
      for k := 0 to 8
        invariant Turns(c, 8 - k) == Entry(Word(i))
      {
        c := Turn(c);
      }
      tab[i] := c;
    }
  }

  lemma WordBack(v: bv8)
    ensures ((v as int) as bv8) == v
  {
  }

  /** The table index as the number it is. */
  function Slot(c: bv32, b: byte): (j: byte)
    ensures Word(j) == Index(c, b)
  {
    var x := Xor(c, Word(b));
    var v := Low(x) as bv8;
    WordBack(v);
    v as int
  }

  /** The CRC of `bs` behind `crc`, with the table. */
  method CrcUpdate(tab: array<bv32>, crc: bv32, bs: seq<byte>) returns (r: bv32)
    requires IsTable(tab)
    ensures r == Update(crc, bs)
  {
    hide Entry;
    hide BitsIn;
    hide Xor;
    hide Not;
    hide Index;
    hide Slot;
    hide Word;
    var c := Not(crc);
    for i := 0 to |bs|
      invariant c == Serial(Not(crc), bs[..i])
    {
      assert bs[..i + 1][..i] == bs[..i];
      TableIsSerial(c, bs[i]);
      c := Xor(tab[Slot(c, bs[i])], c >> 8);
    }
    assert bs[..|bs|] == bs;
    r := Not(c);
  }

  // ---- the published check value ----

  function Four(c: bv32, w: bv32): bv32 {
    BitIn(BitIn(BitIn(BitIn(c, Odd(w)), Odd(w >> 1)), Odd(w >> 2)), Odd(w >> 3))
  }

  lemma Halved(w: bv32)
    ensures Half(w) == w >> 1 && Half(Half(w)) == w >> 2 && Half(Half(Half(w))) == w >> 3
    ensures Half(Half(Half(Half(w)))) == w >> 4
  {
  }

  lemma FourBits(c: bv32, w: bv32, k: nat)
    requires k >= 4
    ensures BitsIn(c, w, k) == BitsIn(Four(c, w), w >> 4, k - 4)
  {
    hide BitIn;
    hide Half;
    hide Odd;
    Halved(w);
    var a := BitIn(BitIn(c, Odd(w)), Odd(w >> 1));
    assert BitsIn(c, w, k) == BitsIn(a, w >> 2, k - 2);
    assert BitsIn(a, w >> 2, k - 2) == BitsIn(BitIn(BitIn(a, Odd(w >> 2)), Odd(Half(w >> 2))), Half(Half(w >> 2)), k - 4);
  }

  lemma EightBits(c: bv32, w: bv32)
    ensures BitsIn(c, w, 8) == Four(Four(c, w), w >> 4)
  {
    hide Four;
    FourBits(c, w, 8);
    FourBits(Four(c, w), w >> 4, 4);
  }

  /** The register after each digit. */
  lemma Digits()
    ensures Four(Four(0xFFFFFFFF, 0x31), 0x3) == 0x7C231048
    ensures Four(Four(0x7C231048, 0x32), 0x3) == 0xB0ACBB32
    ensures Four(Four(0xB0ACBB32, 0x33), 0x3) == 0x77B79C2D
    ensures Four(Four(0x77B79C2D, 0x34), 0x3) == 0x641C1F5C
    ensures Four(Four(0x641C1F5C, 0x35), 0x3) == 0x340AC5E3
    ensures Four(Four(0x340AC5E3, 0x36), 0x3) == 0xF68D2C9E
    ensures Four(Four(0xF68D2C9E, 0x37), 0x3) == 0xAFFC9660
    ensures Four(Four(0xAFFC9660, 0x38), 0x3) == 0x651F2550
    ensures Four(Four(0x651F2550, 0x39), 0x3) == 0x340BC6D9
  {
  }

  lemma DigitWords()
    ensures Word(0x31) == 0x31 && Word(0x32) == 0x32 && Word(0x33) == 0x33 && Word(0x34) == 0x34 && Word(0x35) == 0x35
    ensures Word(0x36) == 0x36 && Word(0x37) == 0x37 && Word(0x38) == 0x38 && Word(0x39) == 0x39
  {
  }

  /** The register behind the digits s and one more. */
  lemma OneDigit(s: seq<byte>, b: byte, c: bv32, c': bv32)
    requires Serial(0xFFFF_FFFF, s) == c && Four(Four(c, Word(b)), Word(b) >> 4) == c'
    ensures Serial(0xFFFF_FFFF, s + [b]) == c'
  {
    hide Four;
    hide BitsIn;
    hide Word;
    EightBits(c, Word(b));
    assert (s + [b])[..|s|] == s;
  }

  lemma NoDigits()
    ensures Serial(0xFFFF_FFFF, []) == 0xFFFF_FFFF
  {
  }

  lemma ThreeDigits()
    ensures Serial(0xFFFF_FFFF, [0x31, 0x32, 0x33]) == 0x77B79C2D
  {
    Digits();
    DigitWords();
    hide Four;
    hide Word;
    hide Serial;
    NoDigits();
    OneDigit([], 0x31, 0xFFFFFFFF, 0x7C231048);
    assert [] + [0x31] == [0x31];
    OneDigit([0x31], 0x32, 0x7C231048, 0xB0ACBB32);
    assert [0x31] + [0x32] == [0x31, 0x32];
    OneDigit([0x31, 0x32], 0x33, 0xB0ACBB32, 0x77B79C2D);
    assert [0x31, 0x32] + [0x33] == [0x31, 0x32, 0x33];
  }

  lemma SixDigits()
    ensures Serial(0xFFFF_FFFF, [0x31, 0x32, 0x33, 0x34, 0x35, 0x36]) == 0xF68D2C9E
  {
    ThreeDigits();
    Digits();
    DigitWords();
    hide Four;
    hide Word;
    hide Serial;
    OneDigit([0x31, 0x32, 0x33], 0x34, 0x77B79C2D, 0x641C1F5C);
    assert [0x31, 0x32, 0x33] + [0x34] == [0x31, 0x32, 0x33, 0x34];
    OneDigit([0x31, 0x32, 0x33, 0x34], 0x35, 0x641C1F5C, 0x340AC5E3);
    assert [0x31, 0x32, 0x33, 0x34] + [0x35] == [0x31, 0x32, 0x33, 0x34, 0x35];
    OneDigit([0x31, 0x32, 0x33, 0x34, 0x35], 0x36, 0x340AC5E3, 0xF68D2C9E);
    assert [0x31, 0x32, 0x33, 0x34, 0x35] + [0x36] == [0x31, 0x32, 0x33, 0x34, 0x35, 0x36];
  }

  lemma NineDigits()
    ensures Serial(0xFFFF_FFFF, [0x31, 0x32, 0x33, 0x34, 0x35, 0x36, 0x37, 0x38, 0x39]) == 0x340BC6D9
  {
    SixDigits();
    Digits();
    DigitWords();
    hide Four;
    hide Word;
    hide Serial;
    OneDigit([0x31, 0x32, 0x33, 0x34, 0x35, 0x36], 0x37, 0xF68D2C9E, 0xAFFC9660);
    assert [0x31, 0x32, 0x33, 0x34, 0x35, 0x36] + [0x37] == [0x31, 0x32, 0x33, 0x34, 0x35, 0x36, 0x37];
    OneDigit([0x31, 0x32, 0x33, 0x34, 0x35, 0x36, 0x37], 0x38, 0xAFFC9660, 0x651F2550);
    assert [0x31, 0x32, 0x33, 0x34, 0x35, 0x36, 0x37] + [0x38] == [0x31, 0x32, 0x33, 0x34, 0x35, 0x36, 0x37, 0x38];
    OneDigit([0x31, 0x32, 0x33, 0x34, 0x35, 0x36, 0x37, 0x38], 0x39, 0x651F2550, 0x340BC6D9);
    assert [0x31, 0x32, 0x33, 0x34, 0x35, 0x36, 0x37, 0x38] + [0x39] == [0x31, 0x32, 0x33, 0x34, 0x35, 0x36, 0x37, 0x38, 0x39];
  }

  /** The CRC-32 of the digits 1 to 9 is the check value that goes with its definition. */
  lemma CheckValue()
    ensures Update(0, [0x31, 0x32, 0x33, 0x34, 0x35, 0x36, 0x37, 0x38, 0x39]) == 0xCBF43926
  {
    NineDigits();
    hide Serial;
  }
}
