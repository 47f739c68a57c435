/** The code of the frame lane (src/clane.c): one peer's queue and outbound connection, one inbound
    connection, and the queue to the cluster thread. Each method is proved against the steps of
    module Lane, the write function of module LaneWrite and the byte-by-byte receiver of LaneWire. */
module LaneCode {
  import opened Bytes
  import opened LaneWire
  import opened Lane
  import opened LaneWrite

  // ---- outbound ----

  class Peer {
    const hello: seq<byte>
    var queue: seq<Frame>
    var qbytes: int
    var woff: nat
    var hoff: nat
    var up: bool
    var next: nat
    var wire: seq<byte>        // the socket: what it has accepted
    ghost var done: seq<Frame>
    ghost var base: nat

    ghost function View(): Tx
      reads this
    {
      Tx(hello, queue, qbytes, woff, hoff, up, next, done, base, wire)
    }

    constructor (hello: seq<byte>)
      ensures View() == Start(hello)
    {
      this.hello := hello;
      queue, qbytes, woff, hoff, up, next, wire, done, base := [], 0, 0, 0, false, 0, [], [], 0;
    }

    /** Queue a frame, unless it is too long or the queue too full. */
    method SendFrame(data: Data, at: int) returns (ok: bool)
      modifies this
      ensures View() == Do(old(View()), Op.Send(data, at))
      ensures ok <==> |data| <= FRAME_MAX && old(qbytes) + |data| <= MAX_QUEUE
      ensures ok ==> |queue| == |old(queue)| + 1 && queue[..|old(queue)|] == old(queue)
      ensures ok ==> queue[|old(queue)|].data == data && queue[|old(queue)|].at == at && qbytes == old(qbytes) + |data|
      ensures !ok ==> View() == old(View())
    {
      ok := false;
      if |data| > FRAME_MAX { return; }
      if qbytes + |data| > MAX_QUEUE { return; }
      queue := queue + [Frame(next, at, data)];
      qbytes := qbytes + |data|;
      next := next + 1;
      ok := true;
    }

    /** A new connection carries nothing yet, and what is queued is all still to be sent. */
    method OpenLink(src: seq<byte>)
      requires TxOk(View()) && !up
      modifies this
      ensures View() == Do(old(View()), Op.Connect(src)) && TxOk(View())
      ensures up && wire == [] && hoff == 0 && woff == 0
      ensures queue == old(queue) && qbytes == old(qbytes) && done == old(done)
    {
      DoKeeps(View(), Op.Connect(src));
      hide TxOk;
      up, hoff := true, 0;
      base, wire := |done|, [];
    }

    /** What the broken connection had of the frame at the head is forgotten; the frame stays queued. */
    method CloseLink()
      requires TxOk(View())
      modifies this
      ensures View() == Do(old(View()), Op.Close) && TxOk(View())
      ensures !up && woff == 0
      ensures queue == old(queue) && qbytes == old(qbytes) && done == old(done) && wire == old(wire)
    {
      DoKeeps(View(), Op.Close);
      hide TxOk;
      up, woff, hoff := false, 0, 0;
    }

    /** Sends until there is nothing to send, the socket takes less than it is offered, or it fails;
        answers[i] is its answer to the i-th send. */
    method WriteSome(now: int, answers: seq<int>) returns (rc: int, left: seq<int>)
      requires Sending(View())
      modifies this
      ensures Sending(View()) && Written(View(), rc, left) == WriteAll(old(View()), now, answers)
    {
      Shape(View());
      hide TxOk;
      left := answers;
      ghost var all := WriteAll(View(), now, answers);
      while hoff < HELLO_LEN
        invariant Sending(View()) && hoff <= HELLO_LEN == |hello| && WriteAll(View(), now, left) == all
        decreases |left|
      {
        if left == [] { return 0, []; }
        var a := left[0];
        left := left[1..];
        if a < 0 { return if a == BLOCKED then 0 else -1, left; }
        var k := Least(a, HELLO_LEN - hoff);
        DoKeeps(View(), Op.Hello(k));
        wire := wire + hello[hoff..hoff + k];
        hoff := hoff + k;
      }
      rc, left := WriteQueue(now, left);
    }

    method WriteQueue(now: int, answers: seq<int>) returns (rc: int, left: seq<int>)
      requires Sending(View()) && hoff == HELLO_LEN
      modifies this
      ensures Sending(View()) && Written(View(), rc, left) == WriteFrames(old(View()), now, answers)
    {
      hide TxOk;
      hide Purged;
      hide OneWrite;
      left := answers;
      ghost var all := WriteFrames(View(), now, answers);
      while true
        invariant Sending(View()) && hoff == HELLO_LEN && WriteFrames(View(), now, left) == all
        decreases |left|
      {
        DropStale(now);
        if queue == [] || left == [] { return 0, left; }
        var a := left[0];
        left := left[1..];
        if a < 0 { return if a == BLOCKED then 0 else -1, left; }
        var whole := TakeAnswer(a);
        if !whole { return 0, left; }
      }
    }

    /** One send of what is left of the frame at the head: was that all of it? */
    method TakeAnswer(a: int) returns (whole: bool)
      requires Sending(View()) && hoff == HELLO_LEN && queue != [] && a >= 0
      modifies this
      ensures View() == OneWrite(old(View()), a) && (whole <==> !old(CutShort(View(), a)))
    {
      Shape(View());
      hide TxOk;
      hide Do;
      whole := Advance(Least(a, 4 + |queue[0].data| - woff));
    }

    /** k more bytes of the frame at the head are on the wire; with the last of them it leaves the queue. */
    method Advance(k: nat) returns (whole: bool)
      requires Can(View(), Op.Write(k))
      modifies this
      ensures View() == Do(old(View()), Op.Write(k)) && (whole <==> old(woff) + k == 4 + |old(queue)[0].data|)
    {
      hide Wire;
      var f := queue[0];
      wire := wire + Wire(f.data)[woff..woff + k];
      woff := woff + k;
      if woff < 4 + |f.data| { return false; }
      queue := queue[1..];
      qbytes := qbytes - |f.data|;
      woff := 0;
      done := done + [f];
      whole := true;
    }

    /** Removes frames older than MAX_AGE from the head, unless the head is partly sent. */
    method DropStale(now: int)
      requires Sending(View()) && hoff == HELLO_LEN
      modifies this
      ensures View() == Purged(old(View()), now)
    {
      hide TxOk;
      ghost var all := Purged(View(), now);
      while queue != [] && woff == 0 && now - queue[0].at > MAX_AGE
        invariant Sending(View()) && hoff == HELLO_LEN && Purged(View(), now) == all
        decreases |queue|
      {
        DoKeeps(View(), Op.Stale(now));
        qbytes := qbytes - |queue[0].data|;
        queue := queue[1..];
      }
    }
  }

  // ---- inbound ----

  class Inbound {
    const src: seq<byte>       // the address the connection came from
    const buf: array<byte>
    var have: nat
    var helloOk: bool
    var out: seq<Data>         // frames given to the queue
    var incoming: seq<byte>    // the socket: arrived and not yet read

    ghost predicate Valid()
      reads this, buf
    {
      && buf.Length == FRAME_MAX + 4 && have <= buf.Length
      && Short(helloOk, buf[..have])
    }

    ghost function View(): Rx
      reads this, buf
      requires have <= buf.Length
    {
      Rx(helloOk, buf[..have], out, false)
    }

    constructor (src: seq<byte>)
      ensures Valid() && View() == Fresh
    {
      this.src := src;
      buf := new byte[FRAME_MAX + 4];
      have, helloOk, out, incoming := 0, false, [], [];
    }

    /** recv: some bytes off the socket, behind those already there. */
    method Receive(r: nat)
      requires r <= |incoming| && have + r <= buf.Length
      modifies this`have, this`incoming, buf
      ensures incoming == old(incoming)[r..] && have == old(have) + r
      ensures buf[..have] == old(buf[..have]) + old(incoming)[..r]
    {
      ghost var was := buf[..have];
      for i := 0 to r
        invariant buf[..have + i] == was + incoming[..i]
        modifies buf
      {
        buf[have + i] := incoming[i];
        assert buf[..have + i + 1] == buf[..have + i] + [incoming[i]];
        assert incoming[..i + 1] == incoming[..i] + [incoming[i]];
      }
      incoming := incoming[r..];
      have := have + r;
    }

    /** Moves arrived bytes into the buffer until it holds `want`, which rc == 1 says, or none are left;
        then rc tells whether the peer had closed. */
    method Fill(want: nat, eof: bool) returns (rc: int, ghost n: nat)
      requires want <= buf.Length && have <= buf.Length
      modifies this`have, this`incoming, buf
      ensures n <= |old(incoming)| && incoming == old(incoming)[n..]
      ensures have == old(have) + n <= buf.Length && buf[..have] == old(buf[..have]) + old(incoming)[..n]
      ensures n > 0 ==> have <= want
      ensures rc == 1 <==> have >= want
      ensures have < want ==> incoming == [] && rc == if eof then -1 else 0
    {
      n := 0;
      ghost var was, sock := buf[..have], incoming;
      assert was == was + sock[..0];
      while have < want
        invariant n <= |sock| && incoming == sock[n..]
        invariant have == old(have) + n <= buf.Length && buf[..have] == was + sock[..n]
        invariant n > 0 ==> have <= want
        decreases |incoming|
      {
        if incoming == [] {
          return if eof then -1 else 0, n;
        }
        var r: nat :| 1 <= r <= |incoming| && r <= want - have;
        Receive(r);
        assert was + sock[..n] + sock[n..][..r] == was + sock[..n + r];
        n := n + r;
      }
      rc := 1;
    }

    /** Takes everything that has arrived, unless the byte-by-byte receiver gives up on the way; `eof`
        says that the peer has closed. */
    method Read(eof: bool) returns (rc: int, ghost n: nat)
      requires Valid()
      modifies this, buf
      ensures n <= |old(incoming)| && incoming == old(incoming)[n..]
      ensures var t := Feed(old(View()), old(incoming)[..n], src);
        && t.out == out && (t.dead ==> rc == -1)
        && (!t.dead ==> Valid() && View() == t && incoming == [] && rc == if eof then -1 else 0)
    {
      hide Feed;
      hide UnBe;
      n := 0;
      ghost var from, sock := View(), incoming;
      assert Feed(from, sock[..0], src) == from by { FeedNone(from, src); }
      rc := 1;
      while rc == 1
        invariant rc == 1 || rc == 0 || rc == -1
        invariant n <= |sock| && incoming == sock[n..]
        invariant Feed(from, sock[..n], src).out == out
        invariant Feed(from, sock[..n], src).dead ==> rc == -1
        invariant !Feed(from, sock[..n], src).dead ==> Valid() && View() == Feed(from, sock[..n], src)
        invariant !Feed(from, sock[..n], src).dead && rc <= 0 ==> incoming == [] && rc == if eof then -1 else 0
        decreases rc == 1, |incoming|
      {
        ghost var m;
        ghost var s := View();
        rc, m := ReadOne(eof);
        FeedConcat(from, sock[..n], sock[n..][..m], src);
        assert sock[..n] + sock[n..][..m] == sock[..n + m];
        n := n + m;
      }
    }

    static lemma FeedNone(s: Rx, src: seq<byte>)
      ensures Feed(s, [], src) == s
    {
    }

    /** The hello or one frame; 1 when it is complete. */
    method ReadOne(eof: bool) returns (rc: int, ghost n: nat)
      requires Valid()
      modifies this, buf
      ensures n <= |old(incoming)| && incoming == old(incoming)[n..]
      ensures -1 <= rc <= 1 && (rc == 1 ==> n > 0)
      ensures var t := Feed(old(View()), old(incoming)[..n], src);
        && t.out == out && (t.dead ==> rc == -1)
        && (!t.dead ==> Valid() && View() == t && (rc <= 0 ==> incoming == [] && rc == if eof then -1 else 0))
    {
      if !helloOk {
        rc, n := ReadHello(eof);
      } else {
        rc, n := ReadFrame(eof);
      }
    }

    method ReadHello(eof: bool) returns (rc: int, ghost n: nat)
      requires Valid() && !helloOk
      modifies this, buf
      ensures n <= |old(incoming)| && incoming == old(incoming)[n..]
      ensures -1 <= rc <= 1 && (rc == 1 ==> n > 0)
      ensures var t := Feed(old(View()), old(incoming)[..n], src);
        && t.out == out && (t.dead ==> rc == -1)
        && (!t.dead ==> Valid() && View() == t && (rc <= 0 ==> incoming == [] && rc == if eof then -1 else 0))
    {
      hide Feed;
      ghost var s := View();
      rc, n := Fill(HELLO_LEN, eof);
      ghost var bs := old(incoming)[..n];
      if rc <= 0 {
        Gathers(s, bs, src);
        return;
      }
      Decides(s, bs, src);
      if HelloGood(buf[..have], src) {
        helloOk, have := true, 0;
      } else {
        rc := -1;
      }
    }

    method ReadFrame(eof: bool) returns (rc: int, ghost n: nat)
      requires Valid() && helloOk
      modifies this, buf
      ensures n <= |old(incoming)| && incoming == old(incoming)[n..]
      ensures -1 <= rc <= 1 && (rc == 1 ==> n > 0)
      ensures var t := Feed(old(View()), old(incoming)[..n], src);
        && t.out == out && (t.dead ==> rc == -1)
        && (!t.dead ==> Valid() && View() == t && (rc <= 0 ==> incoming == [] && rc == if eof then -1 else 0))
    {
      hide Feed;
      hide FrameLen;
      ghost var s, sock := View(), incoming;
      rc, n := Fill(4, eof);
      if rc <= 0 {
        Gathers(s, sock[..n], src);
        return;
      }
      ghost var head := buf[..have];
      var len := FrameLen(buf[..have]);
      assert n == 0 ==> head == s.buf;
      if !LenGood(len) {
        BadLength(s, sock[..n], src);
        return -1, n;
      }
      ghost var m;
      rc, m := Fill(4 + len, eof);
      MoreOf(s.buf, sock, n, m);
      SameLength(head, sock[n..][..m]);
      n := n + m;
      assert buf[..have] == s.buf + sock[..n];
      if rc <= 0 {
        Gathers(s, sock[..n], src);
        return;
      }
      AllThere(s, sock[..n], src);
      out := out + [buf[4..4 + len]];
      have := 0;
    }

    static lemma SameLength(b: seq<byte>, more: seq<byte>)
      requires |b| >= 4
      ensures FrameLen(b + more) == FrameLen(b)
    {
      hide UnBe;
      assert (b + more)[..4] == b[..4];
    }

    static lemma MoreOf(b: seq<byte>, sock: seq<byte>, n: nat, m: nat)
      requires n + m <= |sock|
      ensures (b + sock[..n]) + sock[n..][..m] == b + sock[..n + m] && sock[n..][m..] == sock[n + m..]
    {
    }

    static lemma BadLength(s: Rx, bs: seq<byte>, src: seq<byte>)
      requires !s.dead && s.helloOk && |s.buf| < 4 == |s.buf + bs| && !LenGood(FrameLen(s.buf + bs))
      ensures Feed(s, bs, src).dead && Feed(s, bs, src).out == s.out
    {
      hide UnBe;
      hide Feed;
      Decides(s, bs, src);
    }

    static lemma AllThere(s: Rx, bs: seq<byte>, src: seq<byte>)
      requires !s.dead && s.helloOk && bs != [] && |s.buf + bs| >= 4
      requires LenGood(FrameLen(s.buf + bs)) && |s.buf + bs| == 4 + FrameLen(s.buf + bs)
      ensures Feed(s, bs, src) == s.(buf := [], out := s.out + [(s.buf + bs)[4..]])
    {
      hide UnBe;
      hide Feed;
      var front := bs[..|bs| - 1];
      assert |s.buf + front| >= 4 ==> (s.buf + front)[..4] == (s.buf + bs)[..4];
      Decides(s, bs, src);
    }
  }

  // ---- to the cluster thread ----

  class ThreadQueue {
    var items: seq<Arrival>
    var bytes: int

    constructor ()
      ensures items == [] && bytes == 0
    {
      items, bytes := [], 0;
    }

    ghost predicate Valid()
      reads this
    {
      0 <= bytes == RxQueued(items) <= MAX_RXQ
    }

    /** A whole frame arrived: kept at the end of the queue, or dropped when there is no room. */
    method Offer(a: Arrival) returns (kept: bool)
      requires Valid()
      modifies this
      ensures Valid() && items == (if kept then old(items) + [a] else old(items))
      ensures kept <==> RxQueued(old(items) + [a]) <= MAX_RXQ
    {
      RxQueuedEnds(items, a);
      kept := bytes + RX_HDR + |a.data| <= MAX_RXQ;
      if kept {
        items := items + [a];
        bytes := bytes + RX_HDR + |a.data|;
      }
    }

    /** The oldest frame, unless it is too big for the caller; it leaves the queue either way. */
    method TakeOne(cap: nat) returns (d: Data)
      requires Valid()
      modifies this
      ensures Valid() && items == (if old(items) == [] then [] else old(items)[1..])
      ensures d == if old(items) != [] && |old(items)[0].data| <= cap then old(items)[0].data else []
    {
      d := [];
      if items == [] { return; }
      var a := items[0];
      items := items[1..];
      bytes := bytes - RX_HDR - |a.data|;
      if |a.data| <= cap { d := a.data; }
    }
  }
}
