/** The frame lane of src/clane.c from one daemon to another: the sender's queue and partly written
    frame, the connections it makes one after the other, what the receiver takes off each of them
    in whatever pieces, and the queue to the receiver's cluster thread. */
module Lane {
  import opened Bytes
  import opened LaneWire

  const MAX_QUEUE := 4 * 0x10_0000
  const MAX_RXQ := 16 * 0x10_0000
  const MAX_AGE := 5000
  const RX_HDR := 28

  /** `id` numbers the frames as they are accepted. */
  datatype Frame = Frame(id: nat, at: int, data: Data)

  // ---- the sending end ----

  /** `done`: the frames wholly written, over all connections; `base`: how many of them before this
      connection; `wire`: what this connection was given. */
  datatype Tx = Tx(hello: seq<byte>, queue: seq<Frame>, qbytes: int, woff: nat, hoff: nat, up: bool,
                   next: nat, done: seq<Frame>, base: nat, wire: seq<byte>)

  datatype Op = Send(data: Data, at: int) | Connect(src: seq<byte>) | Hello(k: nat) | Stale(now: int)
              | Write(k: nat) | Close

  function Start(hello: seq<byte>): Tx { Tx(hello, [], 0, 0, 0, false, 0, [], 0, []) }

  predicate Can(t: Tx, op: Op) {
    match op
    case Send(_, _) => true
    case Connect(_) => !t.up
    case Hello(k) => t.up && t.hoff + k <= HELLO_LEN == |t.hello|
    case Stale(now) => t.up && t.hoff == HELLO_LEN && t.queue != [] && t.woff == 0 && now - t.queue[0].at > MAX_AGE
    case Write(k) => t.up && t.hoff == HELLO_LEN && t.queue != [] && t.woff + k <= 4 + |t.queue[0].data|
    case Close => true
  }

  function Do(t: Tx, op: Op): Tx
    requires Can(t, op)
  {
    match op
    case Send(d, at) =>
      if |d| > FRAME_MAX || t.qbytes + |d| > MAX_QUEUE then t
      else t.(queue := t.queue + [Frame(t.next, at, d)], qbytes := t.qbytes + |d|, next := t.next + 1)
    case Connect(_) => t.(up := true, hoff := 0, base := |t.done|, wire := [])
    case Hello(k) => t.(hoff := t.hoff + k, wire := t.wire + t.hello[t.hoff..t.hoff + k])
    case Stale(_) => t.(queue := t.queue[1..], qbytes := t.qbytes - |t.queue[0].data|)
    case Write(k) =>
      var w := Wire(t.queue[0].data);
      var off := t.woff + k;
      var t' := t.(wire := t.wire + w[t.woff..off]);
      if off < |w| then t'.(woff := off)
      else t'.(queue := t.queue[1..], qbytes := t.qbytes - |t.queue[0].data|, woff := 0, done := t.done + [t.queue[0]])
    case Close => t.(up := false, woff := 0, hoff := 0)
  }

  function Queued(fs: seq<Frame>): nat {
    if fs == [] then 0 else |fs[0].data| + Queued(fs[1..])
  }

  lemma {:induction false} QueuedEnds(fs: seq<Frame>, f: Frame)
    ensures Queued(fs + [f]) == Queued(fs) + |f.data|
  {
    if fs != [] {
      QueuedEnds(fs[1..], f);
      assert (fs + [f])[1..] == fs[1..] + [f];
    }
  }

  function Datas(fs: seq<Frame>): (ds: seq<Data>)
    ensures |ds| == |fs| && forall i :: 0 <= i < |fs| ==> ds[i] == fs[i].data
  {
    seq(|fs|, i requires 0 <= i < |fs| => fs[i].data)
  }

  /** Accepted in this order, none too long. */
  ghost predicate InOrder(fs: seq<Frame>, next: nat) {
    && (forall i :: 0 <= i < |fs| ==> fs[i].id < next && |fs[i].data| <= FRAME_MAX)
    && (forall i, j :: 0 <= i < j < |fs| ==> fs[i].id < fs[j].id)
  }

  ghost predicate QueueOk(queue: seq<Frame>, qbytes: int) { 0 <= qbytes == Queued(queue) <= MAX_QUEUE }

  ghost predicate OffsOk(queue: seq<Frame>, woff: nat, hoff: nat, up: bool) {
    && hoff <= HELLO_LEN
    && (woff > 0 ==> up && hoff == HELLO_LEN && queue != [] && woff < 4 + |queue[0].data|)
  }

  /** The part of the frame at the head of the queue that has been written. */
  function Part(queue: seq<Frame>, woff: nat): seq<byte>
    requires woff > 0 ==> queue != [] && woff < 4 + |queue[0].data|
  {
    if woff == 0 then [] else Wire(queue[0].data)[..woff]
  }

  /** The connection has been given the hello, then the frames `ds`, then `part` of another. */
  ghost predicate Given(hello: seq<byte>, hoff: nat, ds: seq<Data>, part: seq<byte>, wire: seq<byte>)
    requires hoff <= HELLO_LEN == |hello|
  {
    if hoff < HELLO_LEN then wire == hello[..hoff] && ds == [] && part == []
    else wire == Stream(hello, ds) + part
  }

  ghost predicate TxOk(t: Tx) {
    && |t.hello| == HELLO_LEN && t.base <= |t.done|
    && QueueOk(t.queue, t.qbytes) && OffsOk(t.queue, t.woff, t.hoff, t.up)
    && InOrder(t.done + t.queue, t.next)
    && (t.up ==> Given(t.hello, t.hoff, Datas(t.done[t.base..]), Part(t.queue, t.woff), t.wire))
  }

  lemma SendKeeps(t: Tx, op: Op)
    requires TxOk(t) && op.Send?
    ensures TxOk(Do(t, op))
  {
    hide Wire;
    var f := Frame(t.next, op.at, op.data);
    QueuedEnds(t.queue, f);
    assert t.done + (t.queue + [f]) == (t.done + t.queue) + [f];
  }

  lemma LinkOpKeeps(t: Tx, op: Op)
    requires TxOk(t) && Can(t, op) && (op.Connect? || op.Hello? || op.Close?)
    ensures TxOk(Do(t, op))
  {
    hide Wire;
    if op.Connect? {
      assert t.done[|t.done|..] == [];
    } else if op.Hello? {
      assert t.hello[..t.hoff] + t.hello[t.hoff..t.hoff + op.k] == t.hello[..t.hoff + op.k];
      if t.hoff == HELLO_LEN {
        assert t.wire + [] == t.wire;
      } else if t.hoff + op.k == HELLO_LEN {
        assert Datas(t.done[t.base..]) == [];
        assert t.hello[..HELLO_LEN] + [] + [] == Stream(t.hello, []) + [];
      }
    }
  }

  lemma PopOrder(done: seq<Frame>, queue: seq<Frame>, next: nat)
    requires queue != [] && InOrder(done + queue, next)
    ensures InOrder(done + queue[1..], next) && InOrder((done + [queue[0]]) + queue[1..], next)
  {
    assert (done + [queue[0]]) + queue[1..] == done + queue;
    var a, b := done + queue, done + queue[1..];
    assert forall i :: 0 <= i < |b| ==> b[i] == a[if i < |done| then i else i + 1];
  }

  lemma StaleKeeps(t: Tx, op: Op)
    requires TxOk(t) && Can(t, op) && op.Stale?
    ensures TxOk(Do(t, op))
  {
    hide Wire;
    hide InOrder;
    PopOrder(t.done, t.queue, t.next);
  }

  lemma WriteKeeps(t: Tx, op: Op)
    requires TxOk(t) && Can(t, op) && op.Write?
    ensures TxOk(Do(t, op))
  {
    hide Wire;
    hide InOrder;
    var w := Wire(t.queue[0].data);
    var off := t.woff + op.k;
    var ds := Datas(t.done[t.base..]);
    var s := Stream(t.hello, ds);
    assert Part(t.queue, t.woff) == w[..t.woff];
    assert (s + w[..t.woff]) + w[t.woff..off] == s + w[..off];
    PopOrder(t.done, t.queue, t.next);
    if off == |w| {
      var more := (t.done + [t.queue[0]])[t.base..];
      assert more == t.done[t.base..] + [t.queue[0]];
      assert Datas(more) == ds + [t.queue[0].data];
      StreamEnds(t.hello, ds, t.queue[0].data);
      assert w[..off] == w;
    }
  }

  lemma StreamEnds(h: seq<byte>, ds: seq<Data>, d: Data)
    ensures Stream(h, ds + [d]) == Stream(h, ds) + Wire(d)
  {
    hide Wire;
    assert (ds + [d])[..|ds|] == ds;
  }

  lemma DoKeeps(t: Tx, op: Op)
    requires TxOk(t) && Can(t, op)
    ensures TxOk(Do(t, op))
  {
    hide TxOk;
    hide Do;
    match op
    case Send(_, _) => SendKeeps(t, op);
    case Stale(_) => StaleKeeps(t, op);
    case Write(_) => WriteKeeps(t, op);
    case _ => LinkOpKeeps(t, op);
  }

  /** After a break - wherever in the frame at the head it came - the next connection carries the hello
      and then that frame from its first byte. */
  lemma CutFrameGoesAgain(t: Tx, src: seq<byte>, k: nat)
    requires TxOk(t) && t.queue != [] && k <= 4 + |t.queue[0].data|
    ensures var c := Do(t, Close);
      && Can(c, Connect(src)) && Can(Do(c, Connect(src)), Hello(HELLO_LEN))
      && var u := Do(Do(c, Connect(src)), Hello(HELLO_LEN));
         && u.queue == t.queue && u.done == t.done && Can(u, Write(k))
         && var w := Do(u, Write(k));
            && w.wire == t.hello + Wire(t.queue[0].data)[..k]
            && (k == 4 + |t.queue[0].data| ==> w.done == t.done + [t.queue[0]] && w.queue == t.queue[1..])
  {
    hide Wire;
    hide InOrder;
    hide Given;
    hide QueueOk;
    assert t.hello[..HELLO_LEN] == t.hello && [] + t.hello == t.hello;
  }

  // ---- sender, connections, receiver ----

  /** A connection: it carries the frames base..upto of those ever written; the receiver has taken
      `got` bytes of it. */
  datatype Link = Link(base: nat, upto: nat, wire: seq<byte>, src: seq<byte>, got: nat, rx: Rx)

  /** A frame at the receiver: the pos-th off a connection of ours, or one from another daemon. */
  datatype Arrival = Ours(link: nat, pos: nat, data: Data) | Foreign(data: Data)

  datatype Lane = Lane(tx: Tx, links: seq<Link>, rxq: seq<Arrival>, rxBytes: int, handed: seq<Arrival>)

  datatype Action = Sender(op: Op) | Recv(c: nat) | Other(data: Data) | Take(cap: nat)

  ghost predicate Enabled(s: Lane, act: Action) {
    match act
    case Sender(op) => Can(s.tx, op)
    case Recv(c) => c < |s.links| && s.links[c].got < |s.links[c].wire|
    case Other(_) => true
    case Take(_) => s.rxq != []
  }

  /** The queue to the cluster thread drops a frame it has no room for. */
  function Arrived(s: Lane, a: Arrival): Lane {
    if s.rxBytes + RX_HDR + |a.data| > MAX_RXQ then s
    else s.(rxq := s.rxq + [a], rxBytes := s.rxBytes + RX_HDR + |a.data|)
  }

  /** The connections after a step of the sender: a new one, or more on the last one. */
  function Linked(links: seq<Link>, op: Op, tx: Tx): seq<Link> {
    if op.Connect? then links + [Link(|tx.done|, |tx.done|, [], op.src, 0, Fresh)]
    else if links == [] then []
    else links[|links| - 1 := links[|links| - 1].(upto := |tx.done|, wire := tx.wire)]
  }

  ghost function Act(s: Lane, act: Action): Lane
    requires Enabled(s, act)
  {
    match act
    case Sender(op) =>
      var tx := Do(s.tx, op);
      s.(tx := tx, links := Linked(s.links, op, tx))
    case Recv(c) =>
      var l := s.links[c];
      var rx := Step(l.rx, l.wire[l.got], l.src);
      var s' := s.(links := s.links[c := l.(got := l.got + 1, rx := rx)]);
      if |rx.out| > |l.rx.out| then Arrived(s', Ours(c, |l.rx.out|, rx.out[|l.rx.out|])) else s'
    case Other(d) => Arrived(s, Foreign(d))
    case Take(cap) =>                        // one too big for the caller's buffer is lost
      s.(rxq := s.rxq[1..], rxBytes := s.rxBytes - RX_HDR - |s.rxq[0].data|,
         handed := if |s.rxq[0].data| <= cap then s.handed + [s.rxq[0]] else s.handed)
  }

  ghost predicate IsRun(states: seq<Lane>, run: seq<Action>) {
    && |states| == |run| + 1
    && |states[0].tx.hello| == HELLO_LEN && states[0] == Lane(Start(states[0].tx.hello), [], [], 0, [])
    && forall i :: 0 <= i < |run| ==> Enabled(states[i], run[i]) && states[i + 1] == Act(states[i], run[i])
  }

  /** The connection carries these frames, and perhaps part of one more. */
  ghost predicate Carries(wire: seq<byte>, hello: seq<byte>, ds: seq<Data>) {
    || (|wire| < HELLO_LEN && wire <= hello && ds == [])
    || exists rest, d :: |d| <= FRAME_MAX && rest <= Wire(d) && |rest| < 4 + |d| && wire == Stream(hello, ds) + rest
  }

  ghost predicate LinkOk(l: Link, hello: seq<byte>, done: seq<Frame>) {
    && l.base <= l.upto <= |done| && l.got <= |l.wire|
    && l.rx == Feed(Fresh, l.wire[..l.got], l.src)
    && Carries(l.wire, hello, Datas(done[l.base..l.upto]))
  }

  ghost predicate LinksOk(links: seq<Link>, tx: Tx) {
    && (forall i :: 0 <= i < |links| ==> LinkOk(links[i], tx.hello, tx.done))
    && (forall i, j :: 0 <= i < j < |links| ==> links[i].upto <= links[j].base)
    && (tx.up ==> links != [])
    && (links != [] ==> var l := links[|links| - 1]; l.wire == tx.wire && l.base == tx.base && l.upto == |tx.done|)
  }

  ghost predicate ArrivalOk(a: Arrival, links: seq<Link>) {
    a.Ours? ==> a.link < |links| && a.pos < |links[a.link].rx.out| && a.data == links[a.link].rx.out[a.pos]
  }

  predicate Before(a: Arrival, b: Arrival) { a.Ours? && b.Ours? && a.link == b.link ==> a.pos < b.pos }

  ghost predicate ArrivalsOk(q: seq<Arrival>, links: seq<Link>) {
    && (forall i :: 0 <= i < |q| ==> ArrivalOk(q[i], links))
    && (forall i, j :: 0 <= i < j < |q| ==> Before(q[i], q[j]))
  }

  function RxQueued(q: seq<Arrival>): nat {
    if q == [] then 0 else RX_HDR + |q[0].data| + RxQueued(q[1..])
  }

  lemma {:induction false} RxQueuedEnds(q: seq<Arrival>, a: Arrival)
    ensures RxQueued(q + [a]) == RxQueued(q) + RX_HDR + |a.data|
  {
    if q != [] {
      RxQueuedEnds(q[1..], a);
      assert (q + [a])[1..] == q[1..] + [a];
    }
  }

  ghost predicate Inv(s: Lane) {
    && TxOk(s.tx) && LinksOk(s.links, s.tx)
    && ArrivalsOk(s.handed + s.rxq, s.links)
    && 0 <= s.rxBytes == RxQueued(s.rxq) <= MAX_RXQ
  }

  // ---- what every step keeps ----

  /** What the sender knows of its connection is what the connection carries. */
  lemma GivenCarries(t: Tx)
    requires TxOk(t) && t.up
    ensures Carries(t.wire, t.hello, Datas(t.done[t.base..]))
  {
    hide Wire;
    if t.hoff == HELLO_LEN {
      var ds := Datas(t.done[t.base..]);
      var part := Part(t.queue, t.woff);
      if t.woff == 0 {
        var none: Data := [];
        assert part <= Wire(none) && |part| < 4 + |none|;
      } else {
        assert t.queue[0] == (t.done + t.queue)[|t.done|];
        assert part <= Wire(t.queue[0].data) && |part| < 4 + |t.queue[0].data|;
      }
    }
  }

  /** The sender writes on its newest connection only, and only adds to what it carries. */
  lemma OpGrows(t: Tx, op: Op)
    requires TxOk(t) && Can(t, op)
    ensures var u := Do(t, op);
      && u.hello == t.hello && t.done <= u.done && (op.Connect? || t.wire <= u.wire)
      && (op.Connect? ==> u.done == t.done && u.base == |t.done| && u.wire == [] && u.up)
      && (!op.Connect? ==> u.base == t.base)
      && (!t.up && !op.Connect? ==> u.done == t.done && u.wire == t.wire && !u.up)
      && (t.up && !u.up ==> u.done == t.done && u.wire == t.wire)
  {
    hide Wire;
    hide InOrder;
    hide QueueOk;
    hide Given;
  }

  lemma OldLinkOk(l: Link, hello: seq<byte>, done: seq<Frame>, done': seq<Frame>)
    requires LinkOk(l, hello, done) && done <= done'
    ensures LinkOk(l, hello, done')
  {
    assert done'[l.base..l.upto] == done[l.base..l.upto];
  }

  lemma NewestLinkOk(l: Link, t: Tx, u: Tx)
    requires LinkOk(l, t.hello, t.done) && TxOk(u) && u.up && u.hello == t.hello && u.base == l.base <= |u.done|
    requires l.wire == t.wire <= u.wire && t.done <= u.done
    ensures LinkOk(l.(upto := |u.done|, wire := u.wire), u.hello, u.done)
  {
    hide TxOk;
    hide Feed;
    hide Carries;
    GivenCarries(u);
    assert u.wire[..l.got] == t.wire[..l.got];
    assert u.done[l.base..|u.done|] == u.done[u.base..];
  }

  lemma LinksKeep(s: Lane, op: Op)
    requires TxOk(s.tx) && LinksOk(s.links, s.tx) && Can(s.tx, op)
    ensures LinksOk(Linked(s.links, op, Do(s.tx, op)), Do(s.tx, op))
  {
    hide TxOk;
    hide Do;
    hide Can;
    hide LinkOk;
    var t, u := s.tx, Do(s.tx, op);
    OpGrows(t, op);
    DoKeeps(t, op);
    var links := Linked(s.links, op, u);
    forall i | 0 <= i < |links| ensures LinkOk(links[i], u.hello, u.done) {
      if i < |s.links| { OldLinkOk(s.links[i], t.hello, t.done, u.done); }
      if op.Connect? {
        if i == |s.links| { NewLinkOk(links[i], u); }
      } else if i == |links| - 1 {
        if u.up {
          LinkBase(s.links[i], t.hello, t.done);
          NewestLinkOk(s.links[i], t, u);
        } else {
          assert links[i] == s.links[i];
        }
      }
    }
    forall i, j | 0 <= i < j < |links| ensures links[i].upto <= links[j].base {
      if op.Connect? && j == |s.links| { LinkBase(s.links[i], t.hello, t.done); }
    }
  }

  lemma LinkBase(l: Link, hello: seq<byte>, done: seq<Frame>)
    requires LinkOk(l, hello, done)
    ensures l.base <= l.upto <= |done|
  {
  }

  lemma NewLinkOk(l: Link, u: Tx)
    requires l.base == l.upto == |u.done| && l.wire == [] && l.got == 0 && l.rx == Fresh
    ensures LinkOk(l, u.hello, u.done)
  {
    assert u.done[l.base..l.upto] == [];
  }

  /** A byte off a connection: at most one more frame, and those before it as they were. */
  lemma StepGrows(rx: Rx, b: byte, src: seq<byte>)
    ensures var rx' := Step(rx, b, src); rx.out <= rx'.out && |rx'.out| <= |rx.out| + 1
  {
  }

  lemma SenderKeeps(s: Lane, op: Op)
    requires Inv(s) && Can(s.tx, op)
    ensures Inv(Act(s, Sender(op)))
  {
    hide TxOk;
    hide LinkOk;
    hide Do;
    hide Can;
    DoKeeps(s.tx, op);
    LinksKeep(s, op);
    var links := Linked(s.links, op, Do(s.tx, op));
    assert forall i :: 0 <= i < |s.links| ==> links[i].rx == s.links[i].rx;
  }

  lemma RecvLinks(s: Lane, c: nat)
    requires LinksOk(s.links, s.tx) && Enabled(s, Recv(c))
    ensures LinksOk(Act(s, Recv(c)).links, s.tx)
  {
    hide TxOk;
    hide Carries;
    hide Step;
    var l := s.links[c];
    FeedOne(Fresh, l.wire, l.got, l.src);
    assert LinkOk(l, s.tx.hello, s.tx.done);
    var l' := l.(got := l.got + 1, rx := Step(l.rx, l.wire[l.got], l.src));
    assert LinkOk(l', s.tx.hello, s.tx.done);
    hide LinkOk;
    assert Act(s, Recv(c)).links == s.links[c := l'];
  }

  /** What had arrived is still there when a connection is read further. */
  lemma ArrivalsGrow(q: seq<Arrival>, links: seq<Link>, c: nat, l: Link)
    requires ArrivalsOk(q, links) && c < |links| && links[c].rx.out <= l.rx.out
    ensures ArrivalsOk(q, links[c := l])
  {
    forall i | 0 <= i < |q| ensures ArrivalOk(q[i], links[c := l]) {
      assert ArrivalOk(q[i], links);
    }
  }

  lemma OneMoreArrival(q: seq<Arrival>, links: seq<Link>, c: nat, l: Link)
    requires ArrivalsOk(q, links) && c < |links| && links[c].rx.out <= l.rx.out
    requires |links[c].rx.out| < |l.rx.out|
    ensures ArrivalsOk(q + [Ours(c, |links[c].rx.out|, l.rx.out[|links[c].rx.out|])], links[c := l])
  {
    ArrivalsGrow(q, links, c, l);
    var a := Ours(c, |links[c].rx.out|, l.rx.out[|links[c].rx.out|]);
    forall i | 0 <= i < |q| ensures Before(q[i], a) {
      assert ArrivalOk(q[i], links);
    }
  }

  lemma RecvKeeps(s: Lane, c: nat)
    requires Inv(s) && Enabled(s, Recv(c))
    ensures Inv(Act(s, Recv(c)))
  {
    hide TxOk;
    hide LinksOk;
    hide Step;
    hide ArrivalsOk;
    var l := s.links[c];
    var rx := Step(l.rx, l.wire[l.got], l.src);
    var l' := l.(got := l.got + 1, rx := rx);
    StepGrows(l.rx, l.wire[l.got], l.src);
    RecvLinks(s, c);
    ArrivalsGrow(s.handed + s.rxq, s.links, c, l');
    if |rx.out| > |l.rx.out| {
      var a := Ours(c, |l.rx.out|, rx.out[|l.rx.out|]);
      OneMoreArrival(s.handed + s.rxq, s.links, c, l');
      RxQueuedEnds(s.rxq, a);
      assert s.handed + (s.rxq + [a]) == (s.handed + s.rxq) + [a];
    }
  }

  lemma OtherKeeps(s: Lane, act: Action)
    requires Inv(s) && Enabled(s, act) && (act.Other? || act.Take?)
    ensures Inv(Act(s, act))
  {
    hide TxOk;
    hide LinksOk;
    hide ArrivalOk;
    if act.Other? {
      var a := Foreign(act.data);
      RxQueuedEnds(s.rxq, a);
      assert s.handed + (s.rxq + [a]) == (s.handed + s.rxq) + [a];
      assert ArrivalOk(a, s.links) by { ForeignOk(a, s.links); }
    } else {
      TakeArrivals(s.handed, s.rxq, s.links);
    }
  }

  lemma ForeignOk(a: Arrival, links: seq<Link>)
    requires a.Foreign?
    ensures ArrivalOk(a, links)
  {
  }

  lemma TakeArrivals(handed: seq<Arrival>, rxq: seq<Arrival>, links: seq<Link>)
    requires ArrivalsOk(handed + rxq, links) && rxq != []
    ensures ArrivalsOk(handed + rxq[1..], links) && ArrivalsOk((handed + [rxq[0]]) + rxq[1..], links)
  {
    hide ArrivalOk;
    hide Before;
    assert (handed + [rxq[0]]) + rxq[1..] == handed + rxq;
    var a, b := handed + rxq, handed + rxq[1..];
    assert forall i :: 0 <= i < |b| ==> b[i] == a[if i < |handed| then i else i + 1];
  }

  lemma {:induction false} RunKeeps(states: seq<Lane>, run: seq<Action>, k: nat)
    requires IsRun(states, run) && k <= |run|
    ensures Inv(states[k])
  {
    hide LinkOk;
    hide Act;
    if k > 0 {
      hide Inv;
      RunKeeps(states, run, k - 1);
      var s, act := states[k - 1], run[k - 1];
      match act
      case Sender(op) => SenderKeeps(s, op);
      case Recv(c) => RecvKeeps(s, c);
      case _ => OtherKeeps(s, act);
    }
  }

  // ---- results ----

  ghost predicate Placed(s: Lane, a: Arrival) {
    a.Ours? && a.link < |s.links| && s.links[a.link].base + a.pos < |s.tx.done|
  }

  /** Which frame of the sender an arrival is. */
  ghost function Origin(s: Lane, a: Arrival): Frame
    requires Placed(s, a)
  {
    s.tx.done[s.links[a.link].base + a.pos]
  }

  lemma AllSendable(done: seq<Frame>, queue: seq<Frame>, next: nat, base: nat, upto: nat)
    requires InOrder(done + queue, next) && base <= upto <= |done|
    ensures Sendable(Datas(done[base..upto]))
  {
    var ds := Datas(done[base..upto]);
    forall i | 0 <= i < |ds| ensures |ds[i]| <= FRAME_MAX {
      assert ds[i] == (done + queue)[base + i].data;
    }
  }

  lemma OutIsPrefix(l: Link, hello: seq<byte>, done: seq<Frame>, queue: seq<Frame>, next: nat)
    requires LinkOk(l, hello, done) && |hello| == HELLO_LEN && InOrder(done + queue, next)
    ensures l.rx.out <= Datas(done[l.base..l.upto])
  {
    hide Wire;
    hide Feed;
    var ds := Datas(done[l.base..l.upto]);
    AllSendable(done, queue, next, l.base, l.upto);
    if |l.wire| < HELLO_LEN && l.wire <= hello {
      assert l.wire[..l.got] == hello[..l.got];
      HelloGathers(hello, l.got, l.src);
    } else {
      var rest, d :| |d| <= FRAME_MAX && rest <= Wire(d) && |rest| < 4 + |d| && l.wire == Stream(hello, ds) + rest;
      PrefixArrives(hello, ds, rest, d, l.src, l.got);
    }
  }

  lemma Within(s: Lane, a: Arrival)
    requires Inv(s) && a.Ours? && ArrivalOk(a, s.links)
    ensures Placed(s, a) && s.links[a.link].base + a.pos < s.links[a.link].upto && Origin(s, a).data == a.data
  {
    hide Feed;
    hide Carries;
    hide InOrder;
    hide Given;
    hide QueueOk;
    hide ArrivalsOk;
    var l := s.links[a.link];
    OutIsPrefix(l, s.tx.hello, s.tx.done, s.tx.queue, s.tx.next);
    assert LinkOk(l, s.tx.hello, s.tx.done);
    assert Datas(s.tx.done[l.base..l.upto])[a.pos] == s.tx.done[l.base + a.pos].data;
  }

  /** In every run - whatever the reads and writes were cut into, however often the connection broke
      and came back - a frame handed to the cluster thread is a whole frame the sender wrote. */
  lemma HandedIsWhole(states: seq<Lane>, run: seq<Action>, k: nat, i: nat)
    requires IsRun(states, run) && k <= |run| && i < |states[k].handed| && states[k].handed[i].Ours?
    ensures var s := states[k]; Placed(s, s.handed[i]) && Origin(s, s.handed[i]).data == s.handed[i].data
  {
    hide LinkOk;
    hide TxOk;
    RunKeeps(states, run, k);
    var s := states[k];
    assert (s.handed + s.rxq)[i] == s.handed[i];
    Within(s, s.handed[i]);
  }

  /** In every run no frame is handed on twice, and those off one connection - or off an earlier
      connection and then a later one - come in the order in which they were queued. */
  lemma AtMostOnce(states: seq<Lane>, run: seq<Action>, k: nat, i: nat, j: nat)
    requires IsRun(states, run) && k <= |run|
    requires i < j < |states[k].handed| && states[k].handed[i].Ours? && states[k].handed[j].Ours?
    ensures var s := states[k];
      var a, b := s.handed[i], s.handed[j];
      && Placed(s, a) && Placed(s, b)
      && Origin(s, a).id != Origin(s, b).id
      && (a.link <= b.link ==> Origin(s, a).id < Origin(s, b).id)
  {
    hide LinkOk;
    hide QueueOk;
    hide OffsOk;
    hide Given;
    RunKeeps(states, run, k);
    var s := states[k];
    var q := s.handed + s.rxq;
    var a, b := s.handed[i], s.handed[j];
    assert q[i] == a && q[j] == b;
    assert ArrivalOk(a, s.links) && ArrivalOk(b, s.links) && Before(a, b);
    Within(s, a);
    Within(s, b);
    var all := s.tx.done + s.tx.queue;
    assert Origin(s, a) == all[s.links[a.link].base + a.pos];
    assert Origin(s, b) == all[s.links[b.link].base + b.pos];
  }

  /** In every run, every connection ever made carries a hello, whole frames in queue order and at
      most part of one more at its end: a frame begun on a connection is never dropped on it. And
      both byte counts are what is queued, within their bounds. */
  lemma WireIsFrames(states: seq<Lane>, run: seq<Action>, k: nat, c: nat)
    requires IsRun(states, run) && k <= |run| && c < |states[k].links|
    ensures var s := states[k];
      && s.links[c].base <= s.links[c].upto <= |s.tx.done|
      && Carries(s.links[c].wire, s.tx.hello, Datas(s.tx.done[s.links[c].base..s.links[c].upto]))
    ensures states[k].tx.qbytes == Queued(states[k].tx.queue) <= MAX_QUEUE
    ensures states[k].rxBytes == RxQueued(states[k].rxq) <= MAX_RXQ
  {
    hide Carries;
    RunKeeps(states, run, k);
    assert LinkOk(states[k].links[c], states[k].tx.hello, states[k].tx.done);
  }

  /** A connection read to its end, at the end of a frame: in every run the receiver has handed on
      exactly the frames it carried if and only if it took the hello and none of them was empty. */
  lemma ReadToTheEnd(states: seq<Lane>, run: seq<Action>, k: nat, c: nat)
    requires IsRun(states, run) && k <= |run| && c < |states[k].links|
    requires var l := states[k].links[c];
      && l.base <= l.upto <= |states[k].tx.done| && l.got == |l.wire|
      && l.wire == Stream(states[k].tx.hello, Datas(states[k].tx.done[l.base..l.upto]))
    ensures var l, hello := states[k].links[c], states[k].tx.hello;
      var ds := Datas(states[k].tx.done[l.base..l.upto]);
      |hello| == HELLO_LEN && (l.rx.out == ds <==> ds == [] || (HelloGood(hello, l.src) && AllGood(ds)))
  {
    hide Feed;
    hide Carries;
    RunKeeps(states, run, k);
    var s := states[k];
    var l := s.links[c];
    var ds := Datas(s.tx.done[l.base..l.upto]);
    assert LinkOk(l, s.tx.hello, s.tx.done);
    assert l.wire[..l.got] == l.wire;
    AllSendable(s.tx.done, s.tx.queue, s.tx.next, l.base, l.upto);
    WholeFrames(s.tx.hello, ds, l.src);
  }
}
