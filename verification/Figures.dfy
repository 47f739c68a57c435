/** One collection's figures over the fleet (src/clfleet.c): an accumulator fed this node's block and
    one block per live peer, and what its result means when the blocks count sets of keys. */
module Figures {
  import opened Options

  datatype Basis = Sum | Fullest | AtLeast | PerK

  /** A member's figures for the collection. */
  datatype Block = Block(entries: nat, expired: nat, hits: nat, misses: nat, stores: nat, removes: nat)

  datatype Fleet = Fleet(basis: Basis, members: nat, reporting: nat, entries: nat, expired: nat, copies: nat,
                         hits: nat, misses: nat, stores: nat, removes: nat)

  // ---- totals ----

  function Reports(peers: seq<Option<Block>>): seq<Block> {
    if peers == [] then []
    else
      var front, p := Reports(peers[..|peers| - 1]), peers[|peers| - 1];
      if p.Some? then front + [p.value] else front
  }

  function Plus(a: Block, b: Block): Block {
    Block(a.entries + b.entries, a.expired + b.expired, a.hits + b.hits, a.misses + b.misses, a.stores + b.stores,
          a.removes + b.removes)
  }

  function Totals(bs: seq<Block>): Block {
    if bs == [] then Block(0, 0, 0, 0, 0, 0) else Plus(Totals(bs[..|bs| - 1]), bs[|bs| - 1])
  }

  /** The most entries, and the most expired, of any member. */
  datatype Peak = Peak(entries: nat, expired: nat)

  function Higher(p: Peak, b: Block): Peak {
    Peak(if b.entries > p.entries then b.entries else p.entries, if b.expired > p.expired then b.expired else p.expired)
  }

  function Peaks(bs: seq<Block>): Peak {
    if bs == [] then Peak(0, 0) else Higher(Peaks(bs[..|bs| - 1]), bs[|bs| - 1])
  }

  /** What the copies are divided by: K, cut down to the number reporting, and never below 1. */
  function Divisor(k: int, reporting: nat): (d: nat)
    ensures d >= 1
  {
    if k < 1 || reporting < 1 then 1 else if k > reporting then reporting else k
  }

  function Rounded(n: nat, d: nat): nat
    requires d >= 1
  {
    (n + d / 2) / d
  }

  /** The figures of these blocks. */
  function FiguresOf(basis: Basis, members: nat, bs: seq<Block>, k: int): Fleet {
    var t, p, d := Totals(bs), Peaks(bs), Divisor(k, |bs|);
    var held := match basis
      case Sum => Peak(t.entries, t.expired)
      case PerK => Peak(Rounded(t.entries, d), Rounded(t.expired, d))
      case _ => p;
    Fleet(basis, members, |bs|, held.entries, held.expired, t.entries, t.hits, t.misses, t.stores, t.removes)
  }

  /** From this node's block and those the peers report. */
  function Figures(basis: Basis, own: Block, peers: seq<Option<Block>>, k: int): Fleet {
    FiguresOf(basis, 1 + |peers|, [own] + Reports(peers), k)
  }

  // ---- the accumulator ----

  class Accumulator {
    var f: Fleet
    var emax: nat
    var xmax: nat
    var xsum: nat

    /** It has been fed these blocks. */
    ghost predicate Fed(basis: Basis, members: nat, bs: seq<Block>)
      reads this
    {
      && f.basis == basis && f.members == members && f.reporting == |bs|
      && Totals(bs) == Block(f.copies, xsum, f.hits, f.misses, f.stores, f.removes)
      && Peaks(bs) == Peak(emax, xmax)
    }

    constructor Begin(basis: Basis, own: Block)
      ensures Fed(basis, 1, [own])
    {
      f := Fleet(basis, 1, 1, 0, 0, own.entries, own.hits, own.misses, own.stores, own.removes);
      emax := own.entries;
      xmax, xsum := own.expired, own.expired;
      OneMore([], own);
      assert [] + [own] == [own];
    }

    /** A live peer, with or without a block for the collection. */
    method Member(c: Option<Block>, ghost bs: seq<Block>)
      requires Fed(f.basis, f.members, bs)
      modifies this
      ensures Fed(old(f.basis), old(f.members) + 1, if c.Some? then bs + [c.value] else bs)
    {
      hide Totals;
      hide Peaks;
      f := f.(members := f.members + 1);
      if c.None? { return; }
      var b := c.value;
      OneMore(bs, b);
      f := f.(reporting := f.reporting + 1, copies := f.copies + b.entries, hits := f.hits + b.hits,
              misses := f.misses + b.misses, stores := f.stores + b.stores, removes := f.removes + b.removes);
      if b.entries > emax { emax := b.entries; }
      xsum := xsum + b.expired;
      if b.expired > xmax { xmax := b.expired; }
    }

    method Finish(k: int, ghost bs: seq<Block>) returns (out: Fleet)
      requires Fed(f.basis, f.members, bs)
      ensures out == FiguresOf(f.basis, f.members, bs, k)
    {
      hide Totals;
      hide Peaks;
      hide Rounded;
      out := f;
      match f.basis {
        case Fullest => out := out.(entries := emax, expired := xmax);
        case AtLeast => out := out.(entries := emax, expired := xmax);
        case PerK =>
          var d := k;
          if d > out.reporting { d := out.reporting; }
          if d < 1 { d := 1; }
          out := out.(entries := Rounded(out.copies, d), expired := Rounded(xsum, d));
        case Sum => out := out.(entries := out.copies, expired := xsum);
      }
    }
  }

  lemma OneMore(bs: seq<Block>, b: Block)
    ensures Totals(bs + [b]) == Plus(Totals(bs), b) && Peaks(bs + [b]) == Higher(Peaks(bs), b)
  {
    assert (bs + [b])[..|bs|] == bs;
  }

  /** The whole of it: this node's block, then every live peer. */
  method Walk(basis: Basis, own: Block, peers: seq<Option<Block>>, k: int) returns (out: Fleet)
    ensures out == Figures(basis, own, peers, k)
  {
    hide Totals;
    hide Peaks;
    var a := new Accumulator.Begin(basis, own);
    assert [own] + Reports([]) == [own];
    for i := 0 to |peers|
      invariant fresh(a) && a.Fed(basis, 1 + i, [own] + Reports(peers[..i]))
    {
      assert peers[..i + 1][..i] == peers[..i];
      var c := peers[i];
      ghost var bs := [own] + Reports(peers[..i]);
      a.Member(c, bs);
      assert c.Some? ==> bs + [c.value] == [own] + (Reports(peers[..i]) + [c.value]);
    }
    assert peers[..|peers|] == peers;
    out := a.Finish(k, [own] + Reports(peers));
  }

  // ---- the order of the peers ----

  lemma Swap(t: Block, p: Peak, a: Block, b: Block)
    ensures Plus(Plus(t, a), b) == Plus(Plus(t, b), a) && Higher(Higher(p, a), b) == Higher(Higher(p, b), a)
  {
  }

  /** Any block could have been the last one added. */
  lemma {:induction false} AnyLast(bs: seq<Block>, i: nat)
    requires i < |bs|
    ensures Totals(bs) == Plus(Totals(bs[..i] + bs[i + 1..]), bs[i])
    ensures Peaks(bs) == Higher(Peaks(bs[..i] + bs[i + 1..]), bs[i])
    decreases |bs|
  {
    hide Plus;
    hide Higher;
    var k := |bs| - 1;
    var rest := bs[..i] + bs[i + 1..];
    if i == k {
      assert rest == bs[..k];
    } else {
      AnyLast(bs[..k], i);
      var most := rest[..k - 1];
      assert bs[..k][..i] + bs[..k][i + 1..] == most && rest[k - 1] == bs[k];
      Swap(Totals(most), Peaks(most), bs[i], bs[k]);
    }
  }

  lemma Taken<T>(a: seq<T>, i: nat)
    requires i < |a|
    ensures multiset(a) == multiset(a[..i] + a[i + 1..]) + multiset{a[i]}
  {
    assert a == a[..i] + ([a[i]] + a[i + 1..]);
  }

  lemma BothTaken<T>(a: seq<T>, i: nat, b: seq<T>, j: nat)
    requires i < |a| && j < |b| && a[i] == b[j] && multiset(a) == multiset(b)
    ensures multiset(a[..i] + a[i + 1..]) == multiset(b[..j] + b[j + 1..])
  {
    Taken(a, i);
    Taken(b, j);
    var a', b' := multiset(a[..i] + a[i + 1..]), multiset(b[..j] + b[j + 1..]);
    assert a' == (a' + multiset{a[i]}) - multiset{a[i]};
    assert b' == (b' + multiset{a[i]}) - multiset{a[i]};
  }

  /** Totals and peaks depend on which blocks there are, not on their order. */
  lemma {:induction false} SameBlocks(a: seq<Block>, b: seq<Block>)
    requires multiset(a) == multiset(b)
    ensures Totals(a) == Totals(b) && Peaks(a) == Peaks(b) && |a| == |b|
    decreases |a|
  {
    hide Plus;
    hide Higher;
    assert |multiset(a)| == |a| && |multiset(b)| == |b|;
    if a != [] {
      assert a[0] in multiset(a);
      var i :| 0 <= i < |b| && b[i] == a[0];
      BothTaken(a, 0, b, i);
      SameBlocks(a[..0] + a[1..], b[..i] + b[i + 1..]);
      AnyLast(a, 0);
      AnyLast(b, i);
    }
  }

  lemma {:induction false} ReportsCount(a: seq<Option<Block>>, x: Block)
    ensures multiset(Reports(a))[x] == multiset(a)[Some(x)]
  {
    if a != [] {
      var front := a[..|a| - 1];
      ReportsCount(front, x);
      assert a == front + [a[|a| - 1]];
    }
  }

  lemma ReportsSame(a: seq<Option<Block>>, b: seq<Option<Block>>)
    requires multiset(a) == multiset(b)
    ensures multiset(Reports(a)) == multiset(Reports(b))
  {
    hide Reports;
    forall x: Block ensures multiset(Reports(a))[x] == multiset(Reports(b))[x] {
      ReportsCount(a, x);
      ReportsCount(b, x);
    }
  }

  /** No figure depends on the order in which the peers are walked. */
  lemma OrderDoesNotMatter(basis: Basis, own: Block, a: seq<Option<Block>>, b: seq<Option<Block>>, k: int)
    requires multiset(a) == multiset(b)
    ensures Figures(basis, own, a, k) == Figures(basis, own, b, k)
  {
    hide Reports;
    hide Rounded;
    hide Totals;
    hide Peaks;
    ReportsSame(a, b);
    SameBlocks([own] + Reports(a), [own] + Reports(b));
    assert |a| == |multiset(a)| && |b| == |multiset(b)|;
  }

  // ---- what the figures mean ----

  /** Members' sets of keys: their sizes together, the keys held anywhere, and how many hold a key. */
  function Copies<K>(ss: seq<set<K>>): nat {
    if ss == [] then 0 else Copies(ss[..|ss| - 1]) + |ss[|ss| - 1]|
  }

  function Held<K>(ss: seq<set<K>>): set<K> {
    if ss == [] then {} else Held(ss[..|ss| - 1]) + ss[|ss| - 1]
  }

  function Holders<K(==)>(ss: seq<set<K>>, x: K): nat {
    if ss == [] then 0 else Holders(ss[..|ss| - 1], x) + if x in ss[|ss| - 1] then 1 else 0
  }

  function Without<K(==)>(ss: seq<set<K>>, x: K): (r: seq<set<K>>)
    ensures |r| == |ss|
  {
    if ss == [] then [] else Without(ss[..|ss| - 1], x) + [ss[|ss| - 1] - {x}]
  }

  /** Taking a key away takes one copy from each of its holders, and changes nothing else. */
  lemma {:induction false} TakeKey<K>(ss: seq<set<K>>, x: K, y: K)
    ensures Copies(ss) == Copies(Without(ss, x)) + Holders(ss, x)
    ensures Held(Without(ss, x)) == Held(ss) - {x}
    ensures y != x ==> Holders(Without(ss, x), y) == Holders(ss, y)
    decreases |ss|
  {
    if ss != [] {
      var front, last, rest := ss[..|ss| - 1], ss[|ss| - 1], Without(ss, x);
      TakeKey(front, x, y);
      assert rest[..|ss| - 1] == Without(front, x) && rest[|ss| - 1] == last - {x};
    }
  }

  lemma {:induction false} NoCopies<K>(ss: seq<set<K>>)
    requires Held(ss) == {}
    ensures Copies(ss) == 0
  {
    if ss != [] {
      assert Held(ss) == Held(ss[..|ss| - 1]) + ss[|ss| - 1];
      NoCopies(ss[..|ss| - 1]);
    }
  }

  lemma {:induction false} HeldOnce<K>(ss: seq<set<K>>, x: K)
    ensures Holders(ss, x) >= 1 <==> x in Held(ss)
  {
    if ss != [] { HeldOnce(ss[..|ss| - 1], x); }
  }

  /** Counting the copies by key: between lo and hi of each. */
  lemma {:induction false} CopiesBetween<K(!new)>(ss: seq<set<K>>, lo: nat, hi: nat)
    requires forall x :: x in Held(ss) ==> lo <= Holders(ss, x) <= hi
    ensures lo * |Held(ss)| <= Copies(ss) <= hi * |Held(ss)|
    decreases |Held(ss)|
  {
    hide Copies;
    hide Held;
    hide Holders;
    hide Without;
    if Held(ss) == {} {
      NoCopies(ss);
    } else {
      var x :| x in Held(ss);
      var rest := Without(ss, x);
      TakeKey(ss, x, x);
      forall y | y in Held(rest) ensures lo <= Holders(rest, y) <= hi { TakeKey(ss, x, y); }
      CopiesBetween(rest, lo, hi);
      OneTimes(lo, |Held(rest)|);
      OneTimes(hi, |Held(rest)|);
    }
  }

  /** Every reporting member's block counts the keys it holds. */
  ghost predicate CountKeys<K>(bs: seq<Block>, ss: seq<set<K>>) {
    |bs| == |ss| && forall i :: 0 <= i < |bs| ==> bs[i].entries == |ss[i]|
  }

  lemma {:induction false} TotalIsCopies<K>(bs: seq<Block>, ss: seq<set<K>>)
    requires CountKeys(bs, ss)
    ensures Totals(bs).entries == Copies(ss)
    decreases |bs|
  {
    if bs != [] { TotalIsCopies(bs[..|bs| - 1], ss[..|ss| - 1]); }
  }

  /** The sum is the number of keys if and only if every key has one holder. */
  lemma SumIsExact<K(!new)>(bs: seq<Block>, ss: seq<set<K>>, members: nat, k: int)
    requires CountKeys(bs, ss)
    ensures FiguresOf(Sum, members, bs, k).entries == |Held(ss)| <==>
      forall x :: x in Held(ss) ==> Holders(ss, x) == 1
  {
    TotalIsCopies(bs, ss);
    if forall x :: x in Held(ss) ==> Holders(ss, x) == 1 {
      CopiesBetween(ss, 1, 1);
    } else {
      var x :| x in Held(ss) && Holders(ss, x) != 1;
      var rest := Without(ss, x);
      HeldOnce(ss, x);
      TakeKey(ss, x, x);
      AtLeastOnce(rest);
      assert |Held(rest)| == |Held(ss)| - 1;
    }
  }

  lemma AtLeastOnce<K(!new)>(ss: seq<set<K>>)
    ensures Copies(ss) >= |Held(ss)|
  {
    forall x | x in Held(ss) ensures 1 <= Holders(ss, x) <= |ss| {
      HeldOnce(ss, x);
      HoldersBounded(ss, x);
    }
    CopiesBetween(ss, 1, |ss|);
  }

  lemma {:induction false} HoldersBounded<K>(ss: seq<set<K>>, x: K)
    ensures Holders(ss, x) <= |ss|
  {
    if ss != [] { HoldersBounded(ss[..|ss| - 1], x); }
  }

  /** With every key on K of the members, or on all when there are fewer, the quotient is the number of
      keys: rounding changes nothing. */
  lemma PerKIsExact<K(!new)>(bs: seq<Block>, ss: seq<set<K>>, members: nat, k: int)
    requires CountKeys(bs, ss) && k >= 1 && bs != []
    requires forall x :: x in Held(ss) ==> Holders(ss, x) == if k < |bs| then k else |bs|
    ensures FiguresOf(PerK, members, bs, k).entries == |Held(ss)|
  {
    var d, n := if k < |bs| then k else |bs|, |Held(ss)|;
    hide Totals;
    hide Peaks;
    hide Rounded;
    hide Holders;
    TotalIsCopies(bs, ss);
    CopiesBetween(ss, d, d);
    RoundedBack(n, d);
  }

  /** q is n / d rounded to the nearest, a half upwards. */
  predicate Nearest(q: nat, n: nat, d: nat) { 0 < 2 * (d * q - n) + d <= 2 * d }

  /** Otherwise it is the nearest whole number to the copies over that many, for the keys and for the
      expired alike; a K below 1, like nobody reporting, divides nothing. */
  lemma PerKIsNearest(bs: seq<Block>, members: nat, k: int)
    ensures var f, t := FiguresOf(PerK, members, bs, k), Totals(bs);
      var d := if k < 1 || bs == [] then 1 else if k < |bs| then k else |bs|;
      && f.copies == t.entries && f.reporting == |bs| && f.members == members
      && Nearest(f.entries, t.entries, d) && Nearest(f.expired, t.expired, d)
  {
    hide Totals;
    hide Peaks;
    hide Rounded;
    var t := Totals(bs);
    var d := if k < 1 || bs == [] then 1 else if k < |bs| then k else |bs|;
    RoundedIsNearest(t.entries, d);
    RoundedIsNearest(t.expired, d);
  }

  lemma RoundedIsNearest(n: nat, d: nat)
    requires d >= 1
    ensures Nearest(Rounded(n, d), n, d)
  {
    var q := (n + d / 2) / d;
    assert d * q <= n + d / 2 < d * q + d;
  }

  lemma RoundedBack(n: nat, d: nat)
    requires d >= 1
    ensures Rounded(d * n, d) == n
  {
    var q := (d * n + d / 2) / d;
    assert d * q <= d * n + d / 2 < d * q + d;
    if q < n {
      Below(d, q, n);
      assert false;
    } else if q > n {
      Below(d, n, q);
      assert false;
    }
  }

  lemma {:induction false} Below(d: nat, a: nat, b: nat)
    requires a < b
    ensures d * a + d <= d * b
    decreases b
  {
    OneTimes(d, b - 1);
    if a < b - 1 { Below(d, a, b - 1); }
  }

  lemma OneTimes(d: nat, n: nat)
    ensures d * (n + 1) == d * n + d
  {
  }

  lemma {:induction false} PeakIsSize<K>(bs: seq<Block>, ss: seq<set<K>>)
    requires CountKeys(bs, ss)
    ensures forall i :: 0 <= i < |ss| ==> |ss[i]| <= Peaks(bs).entries && ss[i] <= Held(ss)
    ensures bs != [] ==> exists i :: 0 <= i < |ss| && |ss[i]| == Peaks(bs).entries
    decreases |bs|
  {
    if bs != [] {
      var k := |bs| - 1;
      PeakIsSize(bs[..k], ss[..k]);
      assert forall i :: 0 <= i < k ==> ss[..k][i] == ss[i];
      assert |ss[k]| == bs[k].entries;
    }
  }

  lemma {:induction false} Smaller<K>(a: set<K>, b: set<K>)
    requires a <= b
    ensures |a| <= |b| && (|a| == |b| ==> a == b)
  {
    if a != {} {
      var x :| x in a;
      Smaller(a - {x}, b - {x});
      assert (a - {x}) + {x} == a && (b - {x}) + {x} == b;
    }
  }

  /** The fullest member's count never exceeds the number of keys, and is it if and only if some
      member holds every key. */
  lemma FullestIsExact<K(!new)>(bs: seq<Block>, ss: seq<set<K>>, members: nat, k: int)
    requires CountKeys(bs, ss) && bs != []
    ensures FiguresOf(Fullest, members, bs, k).entries <= |Held(ss)|
    ensures FiguresOf(AtLeast, members, bs, k).entries <= |Held(ss)|
    ensures FiguresOf(Fullest, members, bs, k).entries == |Held(ss)| <==>
      exists i :: 0 <= i < |ss| && ss[i] == Held(ss)
  {
    hide Peaks;
    hide Totals;
    hide Held;
    PeakIsSize(bs, ss);
    var i :| 0 <= i < |ss| && |ss[i]| == Peaks(bs).entries;
    Smaller(ss[i], Held(ss));
  }

  // ---- every other figure ----

  /** The sum of one figure over this node and the peers that report. */
  function SumOver(own: Block, peers: seq<Option<Block>>, of: Block -> nat): nat {
    if peers == [] then of(own)
    else (if peers[0].Some? then of(peers[0].value) else 0) + SumOver(own, peers[1..], of)
  }

  function Reporting(peers: seq<Option<Block>>): nat {
    if peers == [] then 0 else (if peers[0].Some? then 1 else 0) + Reporting(peers[1..])
  }

  lemma {:induction false} ReportsFirst(peers: seq<Option<Block>>)
    requires peers != []
    ensures Reports(peers) == (if peers[0].Some? then [peers[0].value] else []) + Reports(peers[1..])
    decreases |peers|
  {
    var n := |peers| - 1;
    if n > 0 {
      ReportsFirst(peers[..n]);
      assert peers[..n][1..] == peers[1..][..n - 1];
    } else {
      assert Reports(peers[..n]) == [] && Reports(peers[1..]) == [];
    }
  }

  lemma {:induction false} TotalsFirst(b: Block, bs: seq<Block>)
    ensures Totals([b] + bs) == Plus(b, Totals(bs))
    decreases |bs|
  {
    if bs == [] {
      assert [b] + bs == [b] && [b][..0] == [];
      assert Totals([b]) == Plus(Totals([]), b);
    } else {
      var n := |bs| - 1;
      TotalsFirst(b, bs[..n]);
      assert ([b] + bs)[..n + 1] == [b] + bs[..n];
    }
  }

  lemma {:induction false} TotalsAre(own: Block, peers: seq<Option<Block>>)
    ensures var t, bs := Totals([own] + Reports(peers)), Reports(peers);
      && |bs| == Reporting(peers)
      && t.entries == SumOver(own, peers, (b: Block) => b.entries) && t.expired == SumOver(own, peers, (b: Block) => b.expired)
      && t.hits == SumOver(own, peers, (b: Block) => b.hits) && t.misses == SumOver(own, peers, (b: Block) => b.misses)
      && t.stores == SumOver(own, peers, (b: Block) => b.stores) && t.removes == SumOver(own, peers, (b: Block) => b.removes)
    decreases |peers|
  {
    hide Totals;
    TotalsFirst(own, Reports(peers));
    if peers == [] {
      NoTotals();
    } else {
      TotalsAre(own, peers[1..]);
      TotalsFirst(own, Reports(peers[1..]));
      ReportsFirst(peers);
      hide Reports;
      if peers[0].Some? { TotalsFirst(peers[0].value, Reports(peers[1..])); }
      else { assert [] + Reports(peers[1..]) == Reports(peers[1..]); }
    }
  }

  lemma NoTotals()
    ensures Totals([]) == Block(0, 0, 0, 0, 0, 0)
  {
  }

  lemma {:induction false} PeaksAreMost(bs: seq<Block>)
    ensures forall i :: 0 <= i < |bs| ==> bs[i].entries <= Peaks(bs).entries && bs[i].expired <= Peaks(bs).expired
    ensures bs != [] ==> exists i :: 0 <= i < |bs| && bs[i].entries == Peaks(bs).entries
    ensures bs != [] ==> exists i :: 0 <= i < |bs| && bs[i].expired == Peaks(bs).expired
  {
    if bs != [] { PeaksAreMost(bs[..|bs| - 1]); }
  }

  /** Each event is counted over this node and every reporting peer, whatever the basis; entries and
      expired are the sum of them, or the most of any. */
  lemma FiguresAre(basis: Basis, own: Block, peers: seq<Option<Block>>, k: int)
    ensures var f := Figures(basis, own, peers, k);
      && f.basis == basis && f.members == 1 + |peers| && f.reporting == 1 + Reporting(peers)
      && f.copies == SumOver(own, peers, (b: Block) => b.entries)
      && f.hits == SumOver(own, peers, (b: Block) => b.hits) && f.misses == SumOver(own, peers, (b: Block) => b.misses)
      && f.stores == SumOver(own, peers, (b: Block) => b.stores) && f.removes == SumOver(own, peers, (b: Block) => b.removes)
      && (basis == Sum ==> f.entries == f.copies && f.expired == SumOver(own, peers, (b: Block) => b.expired))
      && (basis == Fullest || basis == AtLeast ==>
           var bs := [own] + Reports(peers);
           && (forall i :: 0 <= i < |bs| ==> bs[i].entries <= f.entries && bs[i].expired <= f.expired)
           && (exists i :: 0 <= i < |bs| && bs[i].entries == f.entries)
           && (exists i :: 0 <= i < |bs| && bs[i].expired == f.expired))
  {
    hide Totals;
    hide Peaks;
    hide Reports;
    hide Rounded;
    TotalsAre(own, peers);
    PeaksAreMost([own] + Reports(peers));
  }
}
