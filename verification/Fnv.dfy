/** FNV-1a, 64 bits (src/fnv1a.h). */
module Fnv {
  import opened Bytes

  const BASIS: bv64 := 14695981039346656037

  function Wide(b: byte): bv64 { (b as bv8) as bv64 }

  /** By the prime, modulo 2^64. */
  function Times(x: bv64): bv64 { x * 1099511628211 }

  function Xor(h: bv64, v: bv64): bv64 { h ^ v }

  function Fold1(h: bv64, b: byte): bv64 { Times(Xor(h, Wide(b))) }

  function Fold(h: bv64, bs: seq<byte>): bv64 {
    if bs == [] then h else Fold1(Fold(h, bs[..|bs| - 1]), bs[|bs| - 1])
  }

  /** A running hash does not care how its input was cut. */
  lemma {:induction false} FoldConcat(h: bv64, a: seq<byte>, b: seq<byte>)
    ensures Fold(h, a + b) == Fold(Fold(h, a), b)
  {
    hide Fold1;
    if b == [] {
      assert a + b == a;
    } else {
      FoldConcat(h, a, b[..|b| - 1]);
      assert (a + b)[..|a + b| - 1] == a + b[..|b| - 1];
    }
  }

  /** The loop folds the bytes one by one. */
  method More(h: bv64, bs: seq<byte>) returns (r: bv64)
    ensures r == Fold(h, bs)
  {
    hide Fold1;
    r := h;
    for i := 0 to |bs|
      invariant r == Fold(h, bs[..i])
    {
      assert bs[..i + 1][..i] == bs[..i];
      r := Fold1(r, bs[i]);
    }
    assert bs[..|bs|] == bs;
  }

  /** The prime has an inverse, so a product says which number it is of. */
  lemma TimesApart(x: bv64, y: bv64)
    requires Times(x) == Times(y)
    ensures x == y
  {
    hide Undone;
    Undo(x);
    Undo(y);
  }

  function Undone(x: bv64): bv64 { x * 0xCE965057AFF6957B }

  lemma Undo(x: bv64)
    ensures Undone(x * 1099511628211) == x
  {
  }

  lemma XorApart(h: bv64, v: bv64, w: bv64)
    ensures Xor(h, v) == Xor(h, w) ==> v == w
    ensures Xor(v, h) == Xor(w, h) ==> v == w
  {
  }

  lemma ByteBack(b: nat)
    requires b < 256
    ensures (b as bv8) as nat == b
  {
    assert b % 256 == b;
  }

  lemma Narrow(x: bv8, y: bv8)
    requires x as bv64 == y as bv64
    ensures x == y
  {
  }

  lemma WideApart(b: byte, c: byte)
    requires Wide(b) == Wide(c)
    ensures b == c
  {
    Narrow(b as bv8, c as bv8);
    ByteBack(b);
    ByteBack(c);
  }

  /** One byte's fold loses nothing: with the hash before it says the byte, with the byte the hash. */
  lemma FoldApart(h: bv64, g: bv64, b: byte, c: byte)
    requires Fold1(h, b) == Fold1(g, c)
    ensures h == g <==> b == c
  {
    hide Wide;
    hide Times;
    hide Xor;
    TimesApart(Xor(h, Wide(b)), Xor(g, Wide(c)));
    XorApart(h, Wide(b), Wide(c));
    XorApart(Wide(b), h, g);
    if h == g { WideApart(b, c); }
  }

  /** Two messages that differ in one byte only hash apart. */
  lemma {:induction false} OneByteApart(p: seq<byte>, b: byte, c: byte, q: seq<byte>)
    ensures Fold(BASIS, p + [b] + q) == Fold(BASIS, p + [c] + q) <==> b == c
    decreases |q|
  {
    hide Fold1;
    var x, y := p + [b] + q, p + [c] + q;
    if q == [] {
      assert x[..|p|] == p && y[..|p|] == p && |x| == |p| + 1;
      if Fold(BASIS, x) == Fold(BASIS, y) { FoldApart(Fold(BASIS, p), Fold(BASIS, p), b, c); }
    } else {
      var n := |q| - 1;
      OneByteApart(p, b, c, q[..n]);
      assert x[..|x| - 1] == p + [b] + q[..n] && y[..|y| - 1] == p + [c] + q[..n];
      if Fold(BASIS, x) == Fold(BASIS, y) {
        FoldApart(Fold(BASIS, p + [b] + q[..n]), Fold(BASIS, p + [c] + q[..n]), q[n], q[n]);
      }
    }
  }

  /** The published values of FNV-1a for the empty message, "a" and "foobar". */
  lemma KnownValues()
    ensures Fold(BASIS, []) == 0xCBF29CE484222325
    ensures Fold(BASIS, [0x61]) == 0xAF63DC4C8601EC8C
    ensures Fold(BASIS, [0x66, 0x6F, 0x6F, 0x62, 0x61, 0x72]) == 0x85944171F73967E8
  {
    assert [0x61][..0] == [];
    assert Fold1(BASIS, 0x61) == 0xAF63DC4C8601EC8C;
    SixBytes();
    hide Fold1;
    var m: seq<byte> := [0x66, 0x6F, 0x6F, 0x62, 0x61, 0x72];
    assert m[..1][..0] == [] && m[..2][..1] == m[..1] && m[..3][..2] == m[..2];
    assert m[..4][..3] == m[..3] && m[..5][..4] == m[..4] && m[..6] == m;
    assert Fold(BASIS, m[..1]) == Fold1(BASIS, 0x66);
    assert Fold(BASIS, m[..2]) == Fold1(Fold1(BASIS, 0x66), 0x6F);
    assert Fold(BASIS, m[..3]) == Fold1(Fold1(Fold1(BASIS, 0x66), 0x6F), 0x6F);
    assert Fold(BASIS, m[..4]) == Fold1(Fold(BASIS, m[..3]), 0x62);
    assert Fold(BASIS, m[..5]) == Fold1(Fold(BASIS, m[..4]), 0x61);
  }

  lemma SixBytes()
    ensures Fold1(Fold1(Fold1(Fold1(Fold1(Fold1(BASIS, 0x66), 0x6F), 0x6F), 0x62), 0x61), 0x72) == 0x85944171F73967E8
  {
  }
}
