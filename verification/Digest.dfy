/** The config digest of src/clinit.c: settings and the set of collection names folded into one hash.
    Names are C strings - bytes other than zero. */
module Digest {
  import opened Bytes
  import opened Fnv

  const MAX_NAMES := 64

  type Name = s: seq<byte> | 0 !in s

  // ---- strcmp ----

  /** Not after, byte by byte: a prefix comes first. */
  predicate Leq(a: seq<byte>, b: seq<byte>) {
    if a == [] then true
    else if b == [] then false
    else a[0] < b[0] || (a[0] == b[0] && Leq(a[1..], b[1..]))
  }

  lemma {:induction false} LeqTotal(a: seq<byte>, b: seq<byte>)
    ensures Leq(a, b) || Leq(b, a)
  {
    if a != [] && b != [] { LeqTotal(a[1..], b[1..]); }
  }

  lemma {:induction false} LeqAntisymmetric(a: seq<byte>, b: seq<byte>)
    requires Leq(a, b) && Leq(b, a)
    ensures a == b
  {
    if a != [] && b != [] {
      LeqAntisymmetric(a[1..], b[1..]);
      assert a == [a[0]] + a[1..] && b == [b[0]] + b[1..];
    }
  }

  lemma {:induction false} LeqTransitive(a: seq<byte>, b: seq<byte>, c: seq<byte>)
    requires Leq(a, b) && Leq(b, c)
    ensures Leq(a, c)
  {
    if a != [] && a[0] == b[0] == c[0] { LeqTransitive(a[1..], b[1..], c[1..]); }
  }

  // ---- insertion sort ----

  predicate Sorted(s: seq<Name>) { forall i, j :: 0 <= i < j < |s| ==> Leq(s[i], s[j]) }

  /** From the back, past every greater name. */
  function Insert(s: seq<Name>, x: Name): (r: seq<Name>)
    ensures |r| == |s| + 1
  {
    if s == [] || Leq(s[|s| - 1], x) then s + [x]
    else Insert(s[..|s| - 1], x) + [s[|s| - 1]]
  }

  function Sort(s: seq<Name>): (r: seq<Name>)
    ensures |r| == |s|
  {
    if s == [] then [] else Insert(Sort(s[..|s| - 1]), s[|s| - 1])
  }

  lemma {:induction false} InsertKeeps(s: seq<Name>, x: Name)
    ensures multiset(Insert(s, x)) == multiset(s) + multiset{x}
    decreases |s|
  {
    hide Leq;
    if s != [] && !Leq(s[|s| - 1], x) {
      InsertKeeps(s[..|s| - 1], x);
      assert s == s[..|s| - 1] + [s[|s| - 1]];
    }
  }

  lemma {:induction false} SortKeeps(s: seq<Name>)
    ensures multiset(Sort(s)) == multiset(s)
  {
    hide Insert;
    if s != [] {
      SortKeeps(s[..|s| - 1]);
      InsertKeeps(Sort(s[..|s| - 1]), s[|s| - 1]);
      assert s == s[..|s| - 1] + [s[|s| - 1]];
    }
  }

  lemma InsertHolds(s: seq<Name>, x: Name, y: Name)
    requires y in Insert(s, x)
    ensures y == x || y in s
  {
    hide Insert;
    InsertKeeps(s, x);
    assert y in multiset(Insert(s, x));
    assert y in multiset(s) + multiset{x};
  }

  lemma {:induction false} InsertSorts(s: seq<Name>, x: Name)
    requires Sorted(s)
    ensures Sorted(Insert(s, x))
    decreases |s|
  {
    hide Leq;
    if s == [] || Leq(s[|s| - 1], x) {
      forall i | 0 <= i < |s| ensures Leq(s[i], x) {
        if i < |s| - 1 { LeqTransitive(s[i], s[|s| - 1], x); }
      }
    } else {
      var front, last := s[..|s| - 1], s[|s| - 1];
      InsertSorts(front, x);
      LeqTotal(last, x);
      var r := Insert(front, x);
      forall i | 0 <= i < |r| ensures Leq(r[i], last) {
        InsertHolds(front, x, r[i]);
        if r[i] != x { var j :| 0 <= j < |front| && front[j] == r[i]; assert s[j] == r[i]; }
      }
    }
  }

  lemma {:induction false} SortSorts(s: seq<Name>)
    ensures Sorted(Sort(s))
  {
    if s != [] {
      SortSorts(s[..|s| - 1]);
      InsertSorts(Sort(s[..|s| - 1]), s[|s| - 1]);
    }
  }

  lemma LastIsGreatest(s: seq<Name>, x: Name)
    requires Sorted(s) && s != [] && x in s
    ensures Leq(x, s[|s| - 1])
  {
    hide Leq;
    var i :| 0 <= i < |s| && s[i] == x;
    LeqTotal(x, x);
  }

  /** There is one way to have the same names in order. */
  lemma {:induction false} SortedIsUnique(a: seq<Name>, b: seq<Name>)
    requires Sorted(a) && Sorted(b) && multiset(a) == multiset(b)
    ensures a == b
    decreases |a|
  {
    hide Leq;
    assert |multiset(a)| == |a| && |multiset(b)| == |b|;
    if a != [] {
      var k := |a| - 1;
      var x, y := a[k], b[k];
      assert x in multiset(a) && y in multiset(b);
      LastIsGreatest(a, y);
      LastIsGreatest(b, x);
      LeqAntisymmetric(x, y);
      assert a == a[..k] + [x] && b == b[..k] + [y];
      LessOne(a[..k], b[..k], x);
      SortedIsUnique(a[..k], b[..k]);
    }
  }

  lemma LessOne(a: seq<Name>, b: seq<Name>, x: Name)
    requires multiset(a + [x]) == multiset(b + [x])
    ensures multiset(a) == multiset(b)
  {
    assert multiset(a) == multiset(a + [x]) - multiset{x};
    assert multiset(b) == multiset(b + [x]) - multiset{x};
  }

  /** Where the shifting stops is where the name belongs. */
  lemma {:induction false} InsertAt(s: seq<Name>, x: Name, j: nat)
    requires j <= |s| && (forall k :: j <= k < |s| ==> !Leq(s[k], x)) && (j > 0 ==> Leq(s[j - 1], x))
    ensures Insert(s, x) == s[..j] + [x] + s[j..]
    decreases |s|
  {
    hide Leq;
    if j == |s| {
      assert s[..j] == s && s[j..] == [];
    } else {
      var front := s[..|s| - 1];
      InsertAt(front, x, j);
      assert front[..j] == s[..j] && front[j..] + [s[|s| - 1]] == s[j..];
      assert (s[..j] + [x] + front[j..]) + [s[|s| - 1]] == s[..j] + [x] + (front[j..] + [s[|s| - 1]]);
    }
  }

  /** One name moved down to its place among those already sorted. */
  method Shift(a: array<Name>, i: nat)
    requires i < a.Length
    modifies a
    ensures a[..i + 1] == Insert(old(a[..i]), old(a[i]))
    ensures a[i + 1..] == old(a[i + 1..])
  {
    hide Leq;
    hide Insert;
    var tmp := a[i];
    ghost var was, p := a[..], a[..i];
    var j := i;
    while j > 0 && !Leq(a[j - 1], tmp)
      invariant 0 <= j <= i
      invariant forall k :: 0 <= k < j ==> a[k] == p[k]
      invariant forall k :: j <= k < i ==> a[k + 1] == p[k] && !Leq(p[k], tmp)
      invariant forall k :: i < k < a.Length ==> a[k] == was[k]
    {
      a[j] := a[j - 1];
      j := j - 1;
    }
    a[j] := tmp;
    InsertAt(p, tmp, j);
    Moved(a[..i + 1], p, tmp, j);
  }

  lemma Moved(now: seq<Name>, p: seq<Name>, x: Name, j: nat)
    requires j <= |p| && |now| == |p| + 1 && now[j] == x
    requires (forall k :: 0 <= k < j ==> now[k] == p[k]) && (forall k :: j <= k < |p| ==> now[k + 1] == p[k])
    ensures now == p[..j] + [x] + p[j..]
  {
    var r := p[..j] + [x] + p[j..];
    forall k | 0 <= k < |r| ensures now[k] == r[k] {
      if k > j { assert r[k] == p[k - 1] && now[(k - 1) + 1] == p[k - 1]; }
    }
  }

  method SortInPlace(a: array<Name>)
    modifies a
    ensures a[..] == Sort(old(a[..]))
  {
    hide Insert;
    ghost var was := a[..];
    if a.Length == 0 { return; }
    assert a[..1] == was[..1] && was[..1][..0] == [];
    OneSorted(was[..1]);
    for i := 1 to a.Length
      invariant a[..i] == Sort(was[..i]) && a[i..] == was[i..]
    {
      assert a[i] == a[i..][0] && was[..i + 1][..i] == was[..i];
      assert a[i + 1..] == a[i..][1..] && was[i + 1..] == was[i..][1..];
      Shift(a, i);
    }
    assert was[..a.Length] == was && a[..a.Length] == a[..];
  }

  lemma OneSorted(s: seq<Name>)
    requires |s| == 1
    ensures Sort(s) == s
  {
    assert s[..0] == [];
    assert Sort(s[..0]) == [];
    assert [] + [s[0]] == s;
  }

  // ---- the digest ----

  datatype Settings = Settings(mode: int, eager: int, wal: bool, replicas: int, algo: Name)

  function Low8(v: int): byte { v % 256 }

  /** The switches; the WAL flag and the copy factor only when set. */
  function Switches(in_: Settings): seq<byte> {
    [Low8(in_.mode), Low8(in_.eager)] + WalBytes(in_) + CopyBytes(in_)
  }

  function WalBytes(in_: Settings): Name { if in_.wal then [0x57, 1] else [] }

  function CopyBytes(in_: Settings): seq<byte> { if in_.replicas != 0 then [0x4B, Low8(in_.replicas)] else [] }

  /** What is hashed before the names. */
  function Header(in_: Settings): seq<byte> { Switches(in_) + in_.algo + [0] }

  function Joined(names: seq<Name>): seq<byte> {
    if names == [] then [] else Joined(names[..|names| - 1]) + names[|names| - 1] + [0]
  }

  /** The names beyond the 64th are left out. */
  function First(names: seq<Name>): seq<Name> { if |names| > MAX_NAMES then names[..MAX_NAMES] else names }

  /** Everything that is hashed. */
  function Message(in_: Settings, names: seq<Name>): seq<byte> { Header(in_) + Joined(Sort(First(names))) }

  method ConfigDigest(in_: Settings, names: seq<Name>) returns (h: bv64)
    ensures h == Fold(BASIS, Message(in_, names))
  {
    hide Sort;
    hide Fold;
    hide Header;
    h := More(BASIS, Header(in_));
    var n := if |names| > MAX_NAMES then MAX_NAMES else |names|;
    var a := new Name[n](i requires 0 <= i < n => names[i]);
    assert a[..] == First(names);
    SortInPlace(a);
    ghost var sorted := a[..];
    ghost var h0 := h;
    NothingFolded(h);
    for i := 0 to n
      invariant a[..] == sorted && h == Fold(h0, Joined(sorted[..i]))
    {
      assert sorted[..i + 1][..i] == sorted[..i];
      FoldConcat(h0, Joined(sorted[..i]), a[i] + [0]);
      assert Joined(sorted[..i]) + a[i] + [0] == Joined(sorted[..i]) + (a[i] + [0]);
      h := More(h, a[i] + [0]);
    }
    assert sorted[..n] == sorted;
    FoldConcat(BASIS, Header(in_), Joined(sorted));
  }

  lemma NothingFolded(h: bv64)
    ensures Fold(h, Joined([])) == h
  {
  }

  /** The names can be read back off the message. */
  lemma {:induction false} JoinedApart(a: seq<Name>, b: seq<Name>)
    requires Joined(a) == Joined(b)
    ensures a == b
    decreases |a|
  {
    if a == [] || b == [] {
      JoinedLength(a);
      JoinedLength(b);
    } else {
      var i, j := |a| - 1, |b| - 1;
      LastApart(Joined(a[..i]), a[i], Joined(b[..j]), b[j], a[..i], b[..j]);
      JoinedApart(a[..i], b[..j]);
      assert a == a[..i] + [a[i]] && b == b[..j] + [b[j]];
    }
  }

  lemma {:induction false} JoinedLength(a: seq<Name>)
    ensures |Joined(a)| >= |a| && (a != [] ==> Joined(a)[|Joined(a)| - 1] == 0)
  {
    if a != [] { JoinedLength(a[..|a| - 1]); }
  }

  /** The last name runs back from the final zero to the zero before it, or to the start. */
  lemma LastApart(p: seq<byte>, x: Name, q: seq<byte>, y: Name, a: seq<Name>, b: seq<Name>)
    requires p == Joined(a) && q == Joined(b) && p + x + [0] == q + y + [0]
    ensures p == q && x == y
  {
    var s := p + x;
    assert s == (p + x + [0])[..|s|] && q + y == (q + y + [0])[..|s|];
    JoinedLength(a);
    JoinedLength(b);
    hide Joined;
    NotLonger(p, x, q, y);
    NotLonger(q, y, p, x);
    assert p == s[..|p|] && q == s[..|q|] && x == s[|p|..] && y == s[|q|..];
  }

  lemma NotLonger(p: seq<byte>, x: Name, q: seq<byte>, y: Name)
    requires p + x == q + y && (q != [] ==> q[|q| - 1] == 0)
    ensures |q| <= |p|
  {
    assert q != [] ==> (q + y)[|q| - 1] == 0;
    assert forall i :: |p| <= i < |p + x| ==> (p + x)[i] == x[i - |p|];
  }

  /** What is hashed depends on which names there are and on nothing else about them: the same names
      in any order give the same digest, and - short of a collision of the hash - other names give
      another. With more than 64 names this holds of the first 64 given. */
  lemma DigestOfTheSet(in_: Settings, a: seq<Name>, b: seq<Name>)
    ensures Message(in_, a) == Message(in_, b) <==> multiset(First(a)) == multiset(First(b))
    ensures |a| <= 64 && |b| <= 64 ==> (Message(in_, a) == Message(in_, b) <==> multiset(a) == multiset(b))
    ensures |a| > 64 ==> Message(in_, a) == Message(in_, a[..64])
  {
    hide Sort;
    hide Joined;
    hide Header;
    var x, y := First(a), First(b);
    SortSorts(x);
    SortSorts(y);
    SortKeeps(x);
    SortKeeps(y);
    if multiset(x) == multiset(y) { SortedIsUnique(Sort(x), Sort(y)); }
    if Message(in_, a) == Message(in_, b) {
      assert Joined(Sort(x)) == Message(in_, a)[|Header(in_)|..];
      assert Joined(Sort(y)) == Message(in_, b)[|Header(in_)|..];
      JoinedApart(Sort(x), Sort(y));
    }
    assert |multiset(a)| == |a| && |multiset(b)| == |b|;
  }

  // ---- which settings hash alike ----

  /** A copy factor whose low byte is zero ends a string where none was meant to end. */
  predicate Splits(in_: Settings) { in_.replicas != 0 && Low8(in_.replicas) == 0 }

  /** Behind the mode and eager bytes the message is zero-ended strings: these. */
  function Strings(in_: Settings, names: seq<Name>): seq<Name> {
    (if Splits(in_) then [WalBytes(in_) + [0x4B], in_.algo] else [Prefix(in_)]) + Sort(First(names))
  }

  /** The optional switches and the algorithm's name, which run into each other. */
  function Prefix(in_: Settings): Name
    requires !Splits(in_)
  {
    WalBytes(in_) + CopyBytes(in_) + in_.algo
  }

  lemma {:induction false} JoinedConcat(a: seq<Name>, b: seq<Name>)
    ensures Joined(a + b) == Joined(a) + Joined(b)
    decreases |b|
  {
    if b == [] {
      assert a + b == a;
    } else {
      var k := |b| - 1;
      JoinedConcat(a, b[..k]);
      assert (a + b)[..|a| + k] == a + b[..k] && (a + b)[|a| + k] == b[k];
      assert Joined(a) + (Joined(b[..k]) + b[k] + [0]) == (Joined(a) + Joined(b[..k])) + b[k] + [0];
    }
  }

  lemma JoinedOne(x: Name)
    ensures Joined([x]) == x + [0]
  {
    assert [x][..0] == [];
    assert Joined([x]) == Joined([x][..0]) + x + [0];
  }

  lemma MessageIsStrings(in_: Settings, names: seq<Name>)
    ensures Message(in_, names) == [Low8(in_.mode), Low8(in_.eager)] + Joined(Strings(in_, names))
  {
    hide Sort;
    var sorted := Sort(First(names));
    if Splits(in_) {
      var w: Name := WalBytes(in_) + [0x4B];
      JoinedConcat([w, in_.algo], sorted);
      JoinedConcat([w], [in_.algo]);
      assert [w] + [in_.algo] == [w, in_.algo];
      JoinedOne(w);
      JoinedOne(in_.algo);
      hide Joined;
      assert Header(in_) == [Low8(in_.mode), Low8(in_.eager)] + (w + [0] + (in_.algo + [0]));
    } else {
      JoinedConcat([Prefix(in_)], sorted);
      JoinedOne(Prefix(in_));
      hide Joined;
      assert Header(in_) == [Low8(in_.mode), Low8(in_.eager)] + (Prefix(in_) + [0]);
    }
  }

  /** Two nodes hash the same bytes exactly when mode and eager agree and the strings behind them do. */
  lemma SettingsApart(a: Settings, as_: seq<Name>, b: Settings, bs: seq<Name>)
    ensures Message(a, as_) == Message(b, bs) <==>
      Low8(a.mode) == Low8(b.mode) && Low8(a.eager) == Low8(b.eager) && Strings(a, as_) == Strings(b, bs)
  {
    hide Sort;
    hide Joined;
    hide Strings;
    MessageIsStrings(a, as_);
    MessageIsStrings(b, bs);
    hide Message;
    if Message(a, as_) == Message(b, bs) {
      var m := Message(a, as_);
      assert m[0] == Low8(a.mode) && m[1] == Low8(a.eager) && m[2..] == Joined(Strings(a, as_));
      assert m[0] == Low8(b.mode) && m[1] == Low8(b.eager) && m[2..] == Joined(Strings(b, bs));
      JoinedApart(Strings(a, as_), Strings(b, bs));
    }
  }

  /** With copy factors of 0 to 255 - or any whose low byte is not zero - that is: the same mode and
      eager, the same names, and the same switches and algorithm run together. */
  lemma PrefixesApart(a: Settings, as_: seq<Name>, b: Settings, bs: seq<Name>)
    requires !Splits(a) && !Splits(b)
    ensures Message(a, as_) == Message(b, bs) <==>
      && Low8(a.mode) == Low8(b.mode) && Low8(a.eager) == Low8(b.eager) && Prefix(a) == Prefix(b)
      && multiset(First(as_)) == multiset(First(bs))
  {
    hide Sort;
    SettingsApart(a, as_, b, bs);
    hide Message;
    hide Prefix;
    var x, y := Sort(First(as_)), Sort(First(bs));
    assert Strings(a, as_) == [Prefix(a)] + x && Strings(b, bs) == [Prefix(b)] + y;
    assert ([Prefix(a)] + x)[1..] == x && ([Prefix(b)] + y)[1..] == y;
    SortSorts(First(as_));
    SortSorts(First(bs));
    SortKeeps(First(as_));
    SortKeeps(First(bs));
    if multiset(First(as_)) == multiset(First(bs)) { SortedIsUnique(x, y); }
  }

  predicate StartsWith(x: Name, b: byte) { x != [] && x[0] == b }

  /** When no algorithm's name begins with the letter of a switch, all the settings can be told apart. */
  lemma AllApart(a: Settings, as_: seq<Name>, b: Settings, bs: seq<Name>)
    requires !Splits(a) && !Splits(b)
    requires !StartsWith(a.algo, 0x57) && !StartsWith(a.algo, 0x4B)
    requires !StartsWith(b.algo, 0x57) && !StartsWith(b.algo, 0x4B)
    ensures Message(a, as_) == Message(b, bs) <==>
      && Low8(a.mode) == Low8(b.mode) && Low8(a.eager) == Low8(b.eager) && a.wal == b.wal
      && (a.replicas == 0 <==> b.replicas == 0) && Low8(a.replicas) == Low8(b.replicas)
      && a.algo == b.algo && multiset(First(as_)) == multiset(First(bs))
  {
    PrefixesApart(a, as_, b, bs);
    hide Message;
    PrefixParts(a, b);
  }

  lemma PrefixParts(a: Settings, b: Settings)
    requires !Splits(a) && !Splits(b)
    requires !StartsWith(a.algo, 0x57) && !StartsWith(a.algo, 0x4B)
    requires !StartsWith(b.algo, 0x57) && !StartsWith(b.algo, 0x4B)
    ensures Prefix(a) == Prefix(b) <==>
      a.wal == b.wal && (a.replicas == 0 <==> b.replicas == 0) && Low8(a.replicas) == Low8(b.replicas) && a.algo == b.algo
  {
    var x, y := CopyBytes(a) + a.algo, CopyBytes(b) + b.algo;
    assert Prefix(a) == WalBytes(a) + x && Prefix(b) == WalBytes(b) + y;
    CopyPart(a, b);
    NoWal(a);
    NoWal(b);
    hide CopyBytes;
    if Prefix(a) == Prefix(b) {
      assert a.wal ==> Prefix(a)[0] == 0x57;
      assert b.wal ==> Prefix(b)[0] == 0x57;
      assert x == Prefix(a)[|WalBytes(a)|..] && y == Prefix(b)[|WalBytes(b)|..];
    }
  }

  lemma NoWal(a: Settings)
    requires !StartsWith(a.algo, 0x57)
    ensures var x := CopyBytes(a) + a.algo; x != [] ==> x[0] != 0x57
  {
  }

  lemma CopyPart(a: Settings, b: Settings)
    requires !StartsWith(a.algo, 0x4B) && !StartsWith(b.algo, 0x4B)
    ensures CopyBytes(a) + a.algo == CopyBytes(b) + b.algo <==>
      (a.replicas == 0 <==> b.replicas == 0) && Low8(a.replicas) == Low8(b.replicas) && a.algo == b.algo
  {
    var x, y := CopyBytes(a) + a.algo, CopyBytes(b) + b.algo;
    assert a.replicas != 0 ==> x[0] == 0x4B && x[1] == Low8(a.replicas) && x[2..] == a.algo;
    assert b.replicas != 0 ==> y[0] == 0x4B && y[1] == Low8(b.replicas) && y[2..] == b.algo;
    assert a.replicas == 0 ==> x == a.algo;
    assert b.replicas == 0 ==> y == b.algo;
  }

  /** And when one does, they need not be: the WAL switch on, or its two bytes in front of the name. */
  lemma SwitchOrName(in_: Settings, names: seq<Name>)
    requires !in_.wal && in_.replicas == 0
    ensures var b := in_.(algo := [0x57, 1] + in_.algo);
      Message(in_.(wal := true), names) == Message(b, names)
  {
    hide Sort;
    hide Joined;
    var a, b := in_.(wal := true), in_.(algo := [0x57, 1] + in_.algo);
    assert Header(a) == Header(b);
  }

  /** Beyond 64 names the order can matter: the same 65 names, the odd one last or first. */
  lemma SixtyFiveNames(in_: Settings)
    ensures var x: Name, y: Name := [1], [2];
      var a, b := seq(MAX_NAMES, i => x) + [y], [y] + seq(MAX_NAMES, i => x);
      multiset(a) == multiset(b) && Message(in_, a) != Message(in_, b)
  {
    hide Message;
    var x: Name, y: Name := [1], [2];
    var many := seq(MAX_NAMES, i => x);
    var a, b := many + [y], [y] + many;
    DigestOfTheSet(in_, a, b);
    assert First(a) == many && First(b)[0] == y;
    assert y in multiset(First(b)) && y !in First(a);
  }

  // ---- what the order and the message are ----

  /** Names go by the first byte in which they differ, and a prefix before what it is a prefix of. */
  lemma {:induction false} LeqMeans(a: seq<byte>, b: seq<byte>)
    ensures Leq(a, b) <==> a <= b || exists k :: 0 <= k < |a| && k < |b| && a[..k] == b[..k] && a[k] < b[k]
  {
    if a != [] && b != [] {
      LeqMeans(a[1..], b[1..]);
      assert a == [a[0]] + a[1..] && b == [b[0]] + b[1..];
      if a[0] < b[0] {
        assert a[..0] == b[..0];
      } else if a[0] == b[0] {
        assert a <= b <==> a[1..] <= b[1..];
        FirstAlike(a, b);
      } else {
        assert forall k :: 0 < k < |a| && k < |b| ==> a[..k][0] != b[..k][0];
      }
    }
  }

  lemma FirstAlike(a: seq<byte>, b: seq<byte>)
    requires a != [] && b != [] && a[0] == b[0]
    ensures (exists k :: 0 <= k < |a| && k < |b| && a[..k] == b[..k] && a[k] < b[k]) <==>
      (exists k :: 0 <= k < |a[1..]| && k < |b[1..]| && a[1..][..k] == b[1..][..k] && a[1..][k] < b[1..][k])
  {
    if k :| 0 <= k < |a| && k < |b| && a[..k] == b[..k] && a[k] < b[k] {
      assert k > 0;
      assert a[1..][..k - 1] == a[..k][1..] && b[1..][..k - 1] == b[..k][1..];
    }
    if k :| 0 <= k < |a[1..]| && k < |b[1..]| && a[1..][..k] == b[1..][..k] && a[1..][k] < b[1..][k] {
      assert a[..k + 1] == [a[0]] + a[1..][..k] && b[..k + 1] == [b[0]] + b[1..][..k];
    }
  }

  const A: Name := [0x61]
  const B: Name := [0x62]

  lemma SortTwo()
    ensures Sort([B, A]) == [A, B]
  {
    var s := [B, A];
    assert s[..1] == [B];
    OneSorted([B]);
    assert [B][..0] == [] && !Leq(B, A);
    assert Insert([], A) == [] + [A];
    assert Insert([B], A) == [A] + [B];
  }

  lemma JoinTwo()
    ensures Joined([A, B]) == [0x61, 0, 0x62, 0]
  {
    assert [A, B][..1] == [A] && [A][..0] == [];
    assert Joined([A]) == Joined([]) + A + [0];
  }

  /** The hashed bytes of two names, out of order, with both switches on; and of nothing at all. */
  lemma MessageExample(mode: byte, eager: byte, k: byte, algo: Name)
    requires k != 0
    ensures Message(Settings(mode, eager, true, k, algo), [B, A]) ==
      [mode, eager, 0x57, 1, 0x4B, k] + algo + [0, 0x61, 0, 0x62, 0]
    ensures Message(Settings(mode, eager, false, 0, algo), []) == [mode, eager] + algo + [0]
  {
    SortTwo();
    JoinTwo();
    hide Sort;
    hide Joined;
    assert Low8(mode) == mode && Low8(eager) == eager && Low8(k) == k;
    hide Low8;
    var s := Settings(mode, eager, true, k, algo);
    assert Header(s) == [mode, eager, 0x57, 1, 0x4B, k] + algo + [0];
    NoNames();
    assert Header(s.(wal := false, replicas := 0)) == [mode, eager] + algo + [0];
  }

  lemma NoNames()
    ensures Joined(Sort([])) == []
  {
  }
}
