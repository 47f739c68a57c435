/** Bytes and the two byte orders of the wire and file formats (src/clcodec.h, src/walfmt.h and
    the put/get helpers of each format). */
module Bytes {

  type byte = x: int | 0 <= x < 256

  function Pow256(n: nat): (p: nat)
    ensures p >= 1
  {
    if n == 0 then 1 else 256 * Pow256(n - 1)
  }

  /** The low n bytes of v, least significant first: a longer value is cut, as a cast cuts it. */
  function Le(v: nat, n: nat): (b: seq<byte>)
    ensures |b| == n
    decreases n
  {
    if n == 0 then [] else [v % 256] + Le(v / 256, n - 1)
  }

  function UnLe(b: seq<byte>): nat {
    if b == [] then 0 else b[0] + 256 * UnLe(b[1..])
  }

  /** The low n bytes of v, most significant first. */
  function Be(v: nat, n: nat): (b: seq<byte>)
    ensures |b| == n
    decreases n
  {
    if n == 0 then [] else Be(v / 256, n - 1) + [v % 256]
  }

  function UnBe(b: seq<byte>): nat {
    if b == [] then 0 else 256 * UnBe(b[..|b| - 1]) + b[|b| - 1]
  }

  lemma {:induction false} LeRound(v: nat, n: nat)
    requires v < Pow256(n)
    ensures UnLe(Le(v, n)) == v
    decreases n
  {
    if n > 0 {
      LeRound(v / 256, n - 1);
      assert Le(v, n)[1..] == Le(v / 256, n - 1);
    }
  }

  lemma {:induction false} UnLeRound(b: seq<byte>)
    ensures UnLe(b) < Pow256(|b|) && Le(UnLe(b), |b|) == b
  {
    if b != [] {
      UnLeRound(b[1..]);
      assert UnLe(b) % 256 == b[0] && UnLe(b) / 256 == UnLe(b[1..]);
      assert b == [b[0]] + b[1..];
    }
  }

  lemma {:induction false} BeRound(v: nat, n: nat)
    requires v < Pow256(n)
    ensures UnBe(Be(v, n)) == v
    decreases n
  {
    if n > 0 {
      BeRound(v / 256, n - 1);
      assert Be(v, n)[..n - 1] == Be(v / 256, n - 1);
    }
  }

  lemma Sizes()
    ensures Pow256(1) == 0x100 && Pow256(2) == 0x1_0000 && Pow256(4) == 0x1_0000_0000
    ensures Pow256(8) == 0x1_0000_0000_0000_0000
  {
    assert Pow256(3) == 0x100_0000;
    assert Pow256(5) == 0x100_0000_0000;
    assert Pow256(6) == 0x1_0000_0000_0000;
    assert Pow256(7) == 0x100_0000_0000_0000;
  }

  /** The i-th byte stands for 256^i. */
  lemma {:induction false} LeDigit(v: nat, n: nat, i: nat)
    requires i < n
    ensures Le(v, n)[i] == v / Pow256(i) % 256
    decreases n
  {
    if i > 0 {
      LeDigit(v / 256, n - 1, i - 1);
      DivTwice(v, Pow256(i - 1));
    }
  }

  /** And in the other order, the i-th from the end. */
  lemma {:induction false} BeDigit(v: nat, n: nat, i: nat)
    requires i < n
    ensures Be(v, n)[n - 1 - i] == v / Pow256(i) % 256
    decreases n
  {
    if i > 0 {
      BeDigit(v / 256, n - 1, i - 1);
      DivTwice(v, Pow256(i - 1));
    }
  }

  lemma DivTwice(v: nat, b: nat)
    requires b > 0
    ensures v / 256 / b == v / (256 * b)
  {
    var x := v / 256;
    var q := x / b;
    var m := q * b;
    Floored(x, b);
    assert 256 * m <= v < 256 * m + 256 * b;
    Regrouped(q, b);
    Quotient(v, 256 * b, q, v - 256 * m);
  }

  lemma Floored(x: nat, b: nat)
    requires b > 0
    ensures x / b * b <= x < x / b * b + b
  {
  }

  lemma Regrouped(q: nat, b: nat)
    ensures 256 * (q * b) == q * (256 * b)
  {
  }

  lemma Scaled(a: nat, b: nat, c: nat)
    ensures b <= c ==> a * b <= a * c
  {
  }

  lemma Quotient(v: nat, a: nat, q: nat, r: nat)
    requires a > 0 && v == q * a + r && r < a
    ensures v / a == q
  {
    var d := v / a;
    assert v == d * a + v % a && v % a < a;
    Scaled(a, d + 1, q);
    Scaled(a, q + 1, d);
  }
}
