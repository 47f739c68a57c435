/** The hold-check query of src/clhold.c: a collection and up to 256 keys, each with a request number. */
module Hold {
  import opened Bytes
  import opened Options

  const MAX_KEYS := 256
  const QUERY: byte := 48

  datatype Ask = Ask(req: nat, key: seq<byte>)

  function AskBytes(a: Ask): seq<byte> { Be(a.req, 4) + Be(|a.key|, 2) + a.key }

  function Asks(ks: seq<Ask>): seq<byte> {
    if ks == [] then [] else AskBytes(ks[0]) + Asks(ks[1..])
  }

  function Head(node: nat, col: seq<byte>): seq<byte> { [QUERY] + Be(node, 2) + [|col| % 256] + col }

  /** The whole query. */
  function Query(node: nat, col: seq<byte>, ks: seq<Ask>): seq<byte> { Head(node, col) + Be(|ks|, 2) + Asks(ks) }

  // ---- reading ----

  datatype Opened = Opened(node: nat, col: seq<byte>, cnt: nat, at: nat)

  function Open(p: seq<byte>): (r: Option<Opened>)
    ensures r.Some? ==> r.value.at <= |p|
  {
    if |p| < 6 || 6 + p[3] > |p| then None
    else
      var cl: nat := p[3];
      Some(Opened(UnBe(p[1..3]), p[4..4 + cl], UnBe(p[4 + cl..6 + cl]), 6 + cl))
  }

  /** The keys from `at` on: at most cnt, and none that is not wholly there. */
  function Keys(p: seq<byte>, at: nat, cnt: nat): (ks: seq<Ask>)
    requires at <= |p|
    ensures |ks| <= cnt
    decreases cnt
  {
    if cnt == 0 || at + 6 > |p| then []
    else
      var kl := UnBe(p[at + 4..at + 6]);
      if at + 6 + kl > |p| then []
      else [Ask(UnBe(p[at..at + 4]), p[at + 6..at + 6 + kl])] + Keys(p, at + 6 + kl, cnt - 1)
  }

  predicate Fits(a: Ask) { a.req < 0x1_0000_0000 && |a.key| < 0x1_0000 }

  predicate AllFit(ks: seq<Ask>) { forall i :: 0 <= i < |ks| ==> Fits(ks[i]) }

  lemma Sub(p: seq<byte>, at: nat, n: nat, i: nat, j: nat)
    requires i <= j <= n && at + n <= |p|
    ensures p[at..at + n][i..j] == p[at + i..at + j]
  {
    var q, a, b := p[at..at + n], p[at..at + n][i..j], p[at + i..at + j];
    assert |a| == |b|;
    forall k | 0 <= k < |a| ensures a[k] == b[k] {
      assert a[k] == q[i + k] == p[at + (i + k)] && b[k] == p[(at + i) + k];
    }
  }

  lemma AskBack(p: seq<byte>, at: nat, a: Ask)
    requires Fits(a) && at + 6 + |a.key| <= |p| && p[at..at + 6 + |a.key|] == AskBytes(a)
    ensures UnBe(p[at..at + 4]) == a.req && UnBe(p[at + 4..at + 6]) == |a.key| && p[at + 6..at + 6 + |a.key|] == a.key
  {
    hide Be;
    hide UnBe;
    Sizes();
    BeRound(a.req, 4);
    BeRound(|a.key|, 2);
    var s, n := AskBytes(a), 6 + |a.key|;
    Sub(p, at, n, 0, 4);
    Sub(p, at, n, 4, 6);
    Sub(p, at, n, 6, n);
    assert s[0..4] == Be(a.req, 4) && s[4..6] == Be(|a.key|, 2) && s[6..n] == a.key;
  }

  /** A frame that ends early inside a key's entry shows no further key. */
  lemma ShortAsk(p: seq<byte>, at: nat, a: Ask, cnt: nat)
    requires Fits(a) && at <= |p| < at + 6 + |a.key| && p[at..] <= AskBytes(a)
    ensures Keys(p, at, cnt) == []
  {
    hide Be;
    hide UnBe;
    if at + 6 <= |p| {
      Sizes();
      BeRound(|a.key|, 2);
      var s := AskBytes(a);
      assert p[at + 4..at + 6] == p[at..][4..6] == s[4..6] == Be(|a.key|, 2);
    }
  }

  /** From a frame cut anywhere, the keys read are the first of those written - all of them when it
      is whole. */
  lemma {:induction false} KeysBack(p: seq<byte>, at: nat, ks: seq<Ask>)
    requires AllFit(ks) && at <= |p| && p[at..] <= Asks(ks)
    ensures Keys(p, at, |ks|) <= ks
    ensures p[at..] == Asks(ks) ==> Keys(p, at, |ks|) == ks
    decreases |ks|
  {
    hide UnBe;
    hide Be;
    if ks != [] {
      var a, rest, more := ks[0], p[at..], Asks(ks[1..]);
      var s := AskBytes(a);
      var n := |s|;
      assert Fits(a) && n == 6 + |a.key|;
      assert rest <= s + more;
      hide AskBytes;
      hide Asks;
      if |rest| < n {
        assert rest == (s + more)[..|rest|] == s[..|rest|];
        ShortAsk(p, at, a, |ks|);
      } else {
        assert p[at..at + n] == rest[..n] == (s + more)[..n] == s;
        AskBack(p, at, a);
        assert p[at + n..] == rest[n..] && (s + more)[n..] == more;
        KeysBack(p, at + n, ks[1..]);
        assert ks == [a] + ks[1..];
      }
    }
  }

  lemma HeadBack(node: nat, col: seq<byte>, n: nat, rest: seq<byte>)
    requires node < 0x1_0000 && |col| < 256 && n < 0x1_0000
    ensures var p := Head(node, col) + Be(n, 2) + rest;
      Open(p) == Some(Opened(node, col, n, 6 + |col|)) && p[6 + |col|..] == rest
  {
    hide Be;
    hide UnBe;
    Sizes();
    BeRound(node, 2);
    BeRound(n, 2);
    var p := Head(node, col) + Be(n, 2) + rest;
    assert p == [QUERY] + Be(node, 2) + [|col|] + col + Be(n, 2) + rest;
    assert p[1..3] == Be(node, 2) && p[4..4 + |col|] == col && p[4 + |col|..6 + |col|] == Be(n, 2);
  }

  /** A query reads back as its node, its collection and exactly its keys; one cut short behind its
      header, as the same with the first of its keys. */
  lemma QueryBack(node: nat, col: seq<byte>, ks: seq<Ask>, m: nat)
    requires node < 0x1_0000 && |col| < 256 && AllFit(ks) && |ks| <= MAX_KEYS
    requires 6 + |col| <= m <= |Query(node, col, ks)|
    ensures var p := Query(node, col, ks)[..m];
      var o := Open(p);
      && o == Some(Opened(node, col, |ks|, 6 + |col|))
      && Keys(p, o.value.at, o.value.cnt) <= ks
      && (m == |Query(node, col, ks)| ==> Keys(p, o.value.at, o.value.cnt) == ks)
  {
    hide Be;
    hide Keys;
    hide Open;
    var b := Query(node, col, ks);
    var p, at := b[..m], 6 + |col|;
    assert |Head(node, col) + Be(|ks|, 2)| == at;
    assert b[at..] == Asks(ks) && p[at..] == b[at..][..m - at];
    assert p == Head(node, col) + Be(|ks|, 2) + p[at..];
    HeadBack(node, col, |ks|, p[at..]);
    KeysBack(p, at, ks);
  }

  // ---- the code ----

  class QueryWriter {
    const buf: array<byte>
    const cap: nat
    var len: nat
    var countAt: nat
    var n: nat
    ghost var node: nat
    ghost var col: seq<byte>
    ghost var asked: seq<Ask>

    /** The header, room for the count, and the keys accepted so far. */
    ghost predicate Valid()
      reads this, buf
    {
      && cap <= buf.Length && 4 <= countAt == 4 + |col| && countAt + 2 <= len <= cap
      && n == |asked| <= MAX_KEYS && |col| < 256 && AllFit(asked)
      && buf[..countAt] == Head(node, col) && buf[countAt + 2..len] == Asks(asked)
    }

    constructor (buf: array<byte>, cap: nat)
      requires cap <= buf.Length
      ensures this.buf == buf && this.cap == cap
    {
      this.buf, this.cap := buf, cap;
    }

    method Store(at: nat, src: seq<byte>)
      requires at + |src| <= buf.Length
      modifies buf
      ensures buf[..at] == old(buf[..at]) && buf[at..at + |src|] == src
      ensures buf[at + |src|..] == old(buf[at + |src|..])
    {
      for i := 0 to |src|
        invariant forall k :: 0 <= k < at ==> buf[k] == old(buf[k])
        invariant forall k :: 0 <= k < i ==> buf[at + k] == src[k]
        invariant forall k :: at + |src| <= k < buf.Length ==> buf[k] == old(buf[k])
      {
        buf[at + i] := src[i];
      }
    }

    /** A query for a collection: -1 when the header does not fit. */
    method Begin(node: nat, col: seq<byte>) returns (rc: int)
      requires cap <= buf.Length
      modifies this, buf
      ensures rc == 0 <==> |col| <= 255 && 6 + |col| <= cap
      ensures rc == 0 ==> Valid() && this.node == node && this.col == col && asked == []
    {
      if |col| > 255 || 4 + |col| + 2 > cap { return -1; }
      Store(0, Head(node, col));
      countAt := 4 + |col|;
      len := countAt + 2;
      n := 0;
      this.node, this.col, asked := node, col, [];
      rc := 0;
    }

    /** One more key: taken if and only if the count, its length and the buffer allow it. */
    method Add(a: Ask) returns (rc: int)
      requires Valid() && a.req < 0x1_0000_0000
      modifies this, buf
      ensures Valid() && node == old(node) && col == old(col)
      ensures rc == 0 <==> old(n) < MAX_KEYS && |a.key| <= 0xFFFF && old(len) + 6 + |a.key| <= cap
      ensures asked == if rc == 0 then old(asked) + [a] else old(asked)
    {
      hide Asks;
      hide AskBytes;
      if !(n < MAX_KEYS && |a.key| <= 0xFFFF && len + 6 + |a.key| <= cap) { return -1; }
      ghost var front, ks := buf[..countAt], buf[countAt + 2..len];
      AskSize(a);
      Store(len, AskBytes(a));
      ghost var end := len + 6 + |a.key|;
      assert buf[..countAt] == front by { assert buf[..len][..countAt] == buf[..countAt]; }
      assert buf[countAt + 2..end] == ks + AskBytes(a) by { Apart(buf[..], countAt + 2, len, end); }
      AsksEnd(asked, a);
      len := len + 6 + |a.key|;
      n := n + 1;
      asked := asked + [a];
      rc := 0;
    }

    /** The count goes in: the frame is the query of the keys accepted. */
    method End() returns (r: nat)
      requires Valid()
      modifies this, buf
      ensures r == |Query(node, col, asked)| <= buf.Length && buf[..r] == Query(node, col, asked)
      ensures node == old(node) && col == old(col) && asked == old(asked)
    {
      hide Asks;
      hide Head;
      ghost var front, ks := buf[..countAt], buf[countAt + 2..len];
      Store(countAt, Be(n, 2));
      Apart(buf[..], 0, countAt, countAt + 2);
      Apart(buf[..], 0, countAt + 2, len);
      assert buf[countAt + 2..len] == ks by { assert buf[countAt + 2..][..len - (countAt + 2)] == buf[countAt + 2..len]; }
      r := len;
    }

    static lemma Apart(b: seq<byte>, i: nat, j: nat, k: nat)
      requires i <= j <= k <= |b|
      ensures b[i..k] == b[i..j] + b[j..k]
    {
    }

    static lemma AskSize(a: Ask)
      ensures |AskBytes(a)| == 6 + |a.key|
    {
    }
  }

  lemma {:induction false} AsksEnd(ks: seq<Ask>, a: Ask)
    ensures Asks(ks + [a]) == Asks(ks) + AskBytes(a)
  {
    hide AskBytes;
    if ks == [] {
      assert Asks([a]) == AskBytes(a) + Asks([]);
    } else {
      AsksEnd(ks[1..], a);
      assert (ks + [a])[1..] == ks[1..] + [a];
      assert AskBytes(ks[0]) + (Asks(ks[1..]) + AskBytes(a)) == (AskBytes(ks[0]) + Asks(ks[1..])) + AskBytes(a);
    }
  }

  /** Read every key of a query. */
  method ReadQuery(p: seq<byte>) returns (o: Option<Opened>, ks: seq<Ask>)
    ensures o == Open(p) && ks == if o.Some? then Keys(p, o.value.at, o.value.cnt) else []
  {
    hide UnBe;
    o, ks := Open(p), [];
    if o.None? { return; }
    var at: nat, i: nat := o.value.at, 0;
    ghost var all := Keys(p, at, o.value.cnt);
    while true
      invariant 0 <= i <= o.value.cnt && at <= |p| && all == ks + Keys(p, at, o.value.cnt - i)
      decreases o.value.cnt - i
    {
      if i >= o.value.cnt || at + 6 > |p| { break; }
      var kl := UnBe(p[at + 4..at + 6]);
      if at + 6 + kl > |p| { break; }
      var a := Ask(UnBe(p[at..at + 4]), p[at + 6..at + 6 + kl]);
      assert ks + ([a] + Keys(p, at + 6 + kl, o.value.cnt - i - 1)) == (ks + [a]) + Keys(p, at + 6 + kl, o.value.cnt - i - 1);
      ks := ks + [a];
      at := at + 6 + kl;
      i := i + 1;
    }
  }

  /** Where everything lies in a query: its kind, the node, the length of the collection's name and the
      name, the number of keys, and for the first key its request, its length and itself. */
  lemma QueryLayout(node: nat, col: seq<byte>, ks: seq<Ask>)
    requires |col| < 256
    ensures var b, at := Query(node, col, ks), 6 + |col|;
      && |b| >= at && b[0] == 48 && b[1..3] == Be(node, 2) && b[3] == |col| && b[4..4 + |col|] == col
      && b[4 + |col|..at] == Be(|ks|, 2) && b[at..] == Asks(ks)
      && (ks != [] ==>
           && |b| >= at + 6 + |ks[0].key| && b[at..at + 4] == Be(ks[0].req, 4) && b[at + 4..at + 6] == Be(|ks[0].key|, 2)
           && b[at + 6..at + 6 + |ks[0].key|] == ks[0].key && b[at + 6 + |ks[0].key|..] == Asks(ks[1..]))
  {
    hide Be;
    var b := Query(node, col, ks);
    assert b == [QUERY] + Be(node, 2) + [|col|] + col + Be(|ks|, 2) + Asks(ks);
    if ks != [] {
      var a := ks[0];
      assert b == ([QUERY] + Be(node, 2) + [|col|] + col + Be(|ks|, 2)) + Be(a.req, 4) + Be(|a.key|, 2) + a.key + Asks(ks[1..]);
    }
  }

  /** The next key of a frame, when it is whole. */
  lemma NextKey(p: seq<byte>, at: nat, a: Ask, rest: seq<byte>, cnt: nat)
    requires Fits(a) && at <= |p| && p[at..] == AskBytes(a) + rest && cnt > 0
    ensures var next := at + 6 + |a.key|;
      next <= |p| && p[next..] == rest && Keys(p, at, cnt) == [a] + Keys(p, next, cnt - 1)
  {
    hide UnBe;
    hide Be;
    var n, tail := 6 + |a.key|, p[at..];
    assert |AskBytes(a)| == n;
    hide AskBytes;
    assert tail[..n] == AskBytes(a) && tail[n..] == rest;
    assert p[at..at + n] == tail[..n] && p[at + n..] == tail[n..];
    AskBack(p, at, a);
  }

  /** No more keys than the count says are read, whatever comes behind them. */
  lemma {:induction false} KeysOnly(p: seq<byte>, at: nat, ks: seq<Ask>, more: seq<byte>)
    requires AllFit(ks) && at <= |p| && p[at..] == Asks(ks) + more
    ensures Keys(p, at, |ks|) == ks
    decreases |ks|
  {
    hide AskBytes;
    if ks != [] {
      var rest := Asks(ks[1..]) + more;
      assert p[at..] == AskBytes(ks[0]) + rest;
      assert Fits(ks[0]);
      hide Asks;
      NextKey(p, at, ks[0], rest, |ks|);
      hide Keys;
      KeysOnly(p, at + 6 + |ks[0].key|, ks[1..], more);
      assert ks == [ks[0]] + ks[1..];
    }
  }
}
