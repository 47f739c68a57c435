/** One call of the lane's write function (src/clane.c), as a function of the sender's state and of
    what the socket answers to each send: a number of bytes, "would block", or an error. */
module LaneWrite {
  import opened LaneWire
  import opened Lane

  const BLOCKED := -1      // any lower answer is an error

  /** Where the call leaves the sender, what it returns, and the answers not asked for. */
  datatype Written = Written(tx: Tx, rc: int, left: seq<int>)

  ghost predicate Sending(t: Tx) { TxOk(t) && t.up }

  function Least(a: int, b: int): int { if a < b then a else b }

  predicate StaleHead(t: Tx, now: int) { t.queue != [] && t.woff == 0 && now - t.queue[0].at > MAX_AGE }

  lemma Shape(t: Tx)
    requires TxOk(t)
    ensures |t.hello| == HELLO_LEN && t.hoff <= HELLO_LEN
    ensures t.queue != [] ==> t.woff < 4 + |t.queue[0].data|
    ensures t.queue == [] ==> t.woff == 0
    ensures t.queue != [] ==> |t.queue[0].data| <= FRAME_MAX
  {
    assert t.queue != [] ==> (t.done + t.queue)[|t.done|] == t.queue[0];
  }

  /** Frames too old to begin are dropped from the head. */
  ghost function Purged(t: Tx, now: int): (u: Tx)
    requires Sending(t) && t.hoff == HELLO_LEN
    ensures Sending(u) && u.hoff == HELLO_LEN && |u.queue| <= |t.queue| && u.woff == t.woff && u.done == t.done
    ensures !StaleHead(u, now)
    decreases |t.queue|
  {
    if StaleHead(t, now) then DoKeeps(t, Stale(now)); Purged(Do(t, Stale(now)), now) else t
  }

  /** One more answer for the frame at the head. */
  ghost function OneWrite(p: Tx, a: int): (u: Tx)
    requires Sending(p) && p.hoff == HELLO_LEN && p.queue != [] && a >= 0
    ensures Sending(u) && u.hoff == HELLO_LEN
    ensures var rest := 4 + |p.queue[0].data| - p.woff;
      if a < rest then u.queue == p.queue && u.woff == p.woff + a && u.done == p.done
      else u.queue == p.queue[1..] && u.woff == 0 && u.done == p.done + [p.queue[0]]
  {
    Shape(p);
    var k := Least(a, 4 + |p.queue[0].data| - p.woff);
    DoKeeps(p, Write(k));
    Do(p, Write(k))
  }

  ghost predicate CutShort(p: Tx, a: int)
    requires p.queue != []
  {
    a < 4 + |p.queue[0].data| - p.woff
  }

  /** The frames: each in one answer, until one is cut short. */
  ghost function WriteFrames(t: Tx, now: int, answers: seq<int>): (w: Written)
    requires Sending(t) && t.hoff == HELLO_LEN
    ensures Sending(w.tx) && w.tx.hoff == HELLO_LEN
    decreases |answers|
  {
    var p := Purged(t, now);
    if p.queue == [] then Written(p, 0, answers)
    else if answers == [] then Written(p, 0, [])
    else if answers[0] < 0 then Written(p, if answers[0] == BLOCKED then 0 else -1, answers[1..])
    else if CutShort(p, answers[0]) then Written(OneWrite(p, answers[0]), 0, answers[1..])
    else WriteFrames(OneWrite(p, answers[0]), now, answers[1..])
  }

  ghost function OneHello(t: Tx, a: int): (u: Tx)
    requires Sending(t) && t.hoff < HELLO_LEN && a >= 0
    ensures Sending(u) && u.hoff == Least(t.hoff + a, HELLO_LEN) && u.queue == t.queue && u.woff == t.woff && u.done == t.done
  {
    Shape(t);
    var k := Least(a, HELLO_LEN - t.hoff);
    DoKeeps(t, Hello(k));
    Do(t, Hello(k))
  }

  /** The whole call: the rest of the hello first. */
  ghost function WriteAll(t: Tx, now: int, answers: seq<int>): (w: Written)
    requires Sending(t)
    ensures Sending(w.tx)
    decreases |answers|
  {
    Shape(t);
    if t.hoff == HELLO_LEN then WriteFrames(t, now, answers)
    else if answers == [] then Written(t, 0, [])
    else if answers[0] < 0 then Written(t, if answers[0] == BLOCKED then 0 else -1, answers[1..])
    else WriteAll(OneHello(t, answers[0]), now, answers[1..])
  }

  // ---- the call is a path of the sender's steps ----

  ghost predicate IsPath(ts: seq<Tx>, ops: seq<Op>, from: Tx, to: Tx) {
    && |ts| == |ops| + 1 && ts[0] == from && ts[|ops|] == to
    && forall i :: 0 <= i < |ops| ==> Can(ts[i], ops[i]) && ts[i + 1] == Do(ts[i], ops[i])
  }

  /** A step the writing code may take: only a frame of age at most MAX_AGE is begun. */
  ghost predicate FreshStep(t: Tx, op: Op, now: int) {
    match op
    case Write(_) => t.woff > 0 || (t.queue != [] && now - t.queue[0].at <= MAX_AGE)
    case Hello(_) => true
    case Stale(at) => at == now
    case _ => false
  }

  ghost predicate WritesFresh(ts: seq<Tx>, ops: seq<Op>, now: int)
    requires |ts| == |ops| + 1
  {
    forall i :: 0 <= i < |ops| ==> FreshStep(ts[i], ops[i], now)
  }

  ghost predicate Walks(ts: seq<Tx>, ops: seq<Op>, from: Tx, to: Tx, now: int) {
    IsPath(ts, ops, from, to) && WritesFresh(ts, ops, now)
  }

  lemma Nowhere(t: Tx, now: int)
    ensures Walks([t], [], t, t, now)
  {
  }

  lemma StepThen(t: Tx, op: Op, ts: seq<Tx>, ops: seq<Op>, to: Tx, now: int)
    requires Can(t, op) && FreshStep(t, op, now) && Walks(ts, ops, Do(t, op), to, now)
    ensures Walks([t] + ts, [op] + ops, t, to, now)
  {
    hide Do;
    hide Can;
    hide FreshStep;
    var ts', ops' := [t] + ts, [op] + ops;
    forall i | 0 <= i < |ops'|
      ensures Can(ts'[i], ops'[i]) && ts'[i + 1] == Do(ts'[i], ops'[i]) && FreshStep(ts'[i], ops'[i], now)
    {
      if i > 0 { assert ts'[i] == ts[i - 1] && ops'[i] == ops[i - 1] && ts'[i + 1] == ts[i]; }
    }
  }

  lemma {:induction false} PurgeIsPath(t: Tx, now: int, ts: seq<Tx>, ops: seq<Op>, to: Tx)
    returns (ts': seq<Tx>, ops': seq<Op>)
    requires Sending(t) && t.hoff == HELLO_LEN && Walks(ts, ops, Purged(t, now), to, now)
    ensures Walks(ts', ops', t, to, now)
    decreases |t.queue|
  {
    hide TxOk;
    hide Walks;
    ts', ops' := ts, ops;
    if StaleHead(t, now) {
      DoKeeps(t, Stale(now));
      ts', ops' := PurgeIsPath(Do(t, Stale(now)), now, ts, ops, to);
      StepThen(t, Stale(now), ts', ops', to, now);
      ts', ops' := [t] + ts', [Stale(now)] + ops';
    }
  }

  lemma {:induction false} FramesArePath(t: Tx, now: int, answers: seq<int>) returns (ts: seq<Tx>, ops: seq<Op>)
    requires Sending(t) && t.hoff == HELLO_LEN
    ensures Walks(ts, ops, t, WriteFrames(t, now, answers).tx, now)
    decreases |answers|
  {
    hide TxOk;
    hide Purged;
    hide Walks;
    var to := WriteFrames(t, now, answers).tx;
    var p := Purged(t, now);
    Shape(p);
    ts, ops := [p], [];
    Nowhere(p, now);
    if p.queue != [] && answers != [] && answers[0] >= 0 {
      var k := Least(answers[0], 4 + |p.queue[0].data| - p.woff);
      var u := OneWrite(p, answers[0]);
      if CutShort(p, answers[0]) {
        ts, ops := [u], [];
        Nowhere(u, now);
      } else {
        ts, ops := FramesArePath(u, now, answers[1..]);
      }
      StepThen(p, Write(k), ts, ops, to, now);
      ts, ops := [p] + ts, [Write(k)] + ops;
    }
    ts, ops := PurgeIsPath(t, now, ts, ops, to);
  }

  /** Whatever the socket answers, the call is a sequence of the sender's steps that begins no stale
      frame and drops none that is partly written. */
  lemma {:induction false} WriteIsPath(t: Tx, now: int, answers: seq<int>) returns (ts: seq<Tx>, ops: seq<Op>)
    requires Sending(t)
    ensures Walks(ts, ops, t, WriteAll(t, now, answers).tx, now)
    decreases |answers|
  {
    hide TxOk;
    Shape(t);
    if t.hoff == HELLO_LEN {
      ts, ops := FramesArePath(t, now, answers);
    } else if answers != [] && answers[0] >= 0 {
      var k := Least(answers[0], HELLO_LEN - t.hoff);
      ts, ops := WriteIsPath(OneHello(t, answers[0]), now, answers[1..]);
      StepThen(t, Hello(k), ts, ops, WriteAll(t, now, answers).tx, now);
      ts, ops := [t] + ts, [Hello(k)] + ops;
    } else {
      ts, ops := [t], [];
    }
  }

  // ---- what the return value means ----

  /** The call stopped because nothing is left to write, because the socket has no more answers or
      would block, or because it took less than the rest of a frame. */
  ghost predicate Stopped(w: Written, answers: seq<int>) {
    var used := |answers| - |w.left|;
    || (w.tx.hoff == HELLO_LEN && w.tx.queue == [])
    || w.left == []
    || (used > 0 && answers[used - 1] == BLOCKED)
    || (w.tx.queue != [] && (w.tx.woff > 0 || (used > 0 && answers[used - 1] == 0)))
  }

  ghost predicate Returns(w: Written, answers: seq<int>) {
    var used := |answers| - |w.left|;
    && 0 <= used && w.left == answers[used..] && (w.rc == 0 || w.rc == -1)
    && (w.rc == -1 <==> used > 0 && answers[used - 1] < BLOCKED)
    && (w.rc == 0 ==> Stopped(w, answers))
  }

  lemma LaterReturns(w: Written, answers: seq<int>)
    requires answers != [] && answers[0] >= 0 && Returns(w, answers[1..])
    ensures Returns(w, answers)
  {
    var used := |answers| - |w.left|;
    assert answers[1..][used - 1..] == answers[used..];
    if used > 1 { assert answers[1..][used - 2] == answers[used - 1]; }
  }

  lemma {:induction false} FramesReturn(t: Tx, now: int, answers: seq<int>)
    requires Sending(t) && t.hoff == HELLO_LEN
    ensures Returns(WriteFrames(t, now, answers), answers)
    decreases |answers|
  {
    hide TxOk;
    var p := Purged(t, now);
    if p.queue != [] && answers != [] && answers[0] >= 0 && !CutShort(p, answers[0]) {
      FramesReturn(OneWrite(p, answers[0]), now, answers[1..]);
      LaterReturns(WriteFrames(t, now, answers), answers);
    }
  }

  /** -1 exactly when the last answer asked for was an error; 0 only for one of the reasons above. */
  lemma {:induction false} ReturnMeans(t: Tx, now: int, answers: seq<int>)
    requires Sending(t)
    ensures Returns(WriteAll(t, now, answers), answers)
    decreases |answers|
  {
    hide TxOk;
    Shape(t);
    if t.hoff == HELLO_LEN {
      FramesReturn(t, now, answers);
    } else if answers != [] && answers[0] >= 0 {
      ReturnMeans(OneHello(t, answers[0]), now, answers[1..]);
      LaterReturns(WriteAll(t, now, answers), answers);
    }
  }

  // ---- a socket that takes everything ----

  /** The frames of a queue that are not too old; one already begun counts as fresh. */
  function FreshOnes(q: seq<Frame>, begun: bool, now: int): seq<Frame> {
    if q == [] then []
    else if begun || now - q[0].at <= MAX_AGE then [q[0]] + FreshOnes(q[1..], false, now)
    else FreshOnes(q[1..], false, now)
  }

  lemma {:induction false} PurgeKeepsFresh(t: Tx, now: int)
    requires Sending(t) && t.hoff == HELLO_LEN
    ensures FreshOnes(Purged(t, now).queue, t.woff > 0, now) == FreshOnes(t.queue, t.woff > 0, now)
    decreases |t.queue|
  {
    hide TxOk;
    if StaleHead(t, now) {
      DoKeeps(t, Stale(now));
      PurgeKeepsFresh(Do(t, Stale(now)), now);
    }
  }

  lemma {:induction false} FreshFramesGo(t: Tx, now: int, answers: seq<int>)
    requires Sending(t) && t.hoff == HELLO_LEN && |answers| >= |t.queue|
    requires forall i :: 0 <= i < |answers| ==> answers[i] >= 4 + FRAME_MAX
    ensures var w := WriteFrames(t, now, answers);
      w.rc == 0 && w.tx.queue == [] && w.tx.done == t.done + FreshOnes(t.queue, t.woff > 0, now)
    decreases |answers|
  {
    hide TxOk;
    hide OneWrite;
    hide Purged;
    var p := Purged(t, now);
    Shape(p);
    PurgeKeepsFresh(t, now);
    if p.queue == [] {
      assert t.done + [] == t.done;
    } else {
      var u := OneWrite(p, answers[0]);
      FreshFramesGo(u, now, answers[1..]);
      assert (p.done + [p.queue[0]]) + FreshOnes(u.queue, false, now)
          == p.done + ([p.queue[0]] + FreshOnes(u.queue, false, now));
    }
  }

  lemma NotBegun(t: Tx)
    requires TxOk(t) && t.hoff < HELLO_LEN
    ensures t.woff == 0
  {
  }

  /** With answers large and many enough, one call writes out the queue: the frames written are exactly
      the fresh ones, in order, and nothing is left. */
  lemma FreshAllGo(t: Tx, now: int, answers: seq<int>)
    requires Sending(t) && |answers| > |t.queue|
    requires forall i :: 0 <= i < |answers| ==> answers[i] >= 4 + FRAME_MAX
    ensures var w := WriteAll(t, now, answers);
      && w.rc == 0 && w.tx.hoff == HELLO_LEN && w.tx.queue == []
      && w.tx.done == t.done + FreshOnes(t.queue, t.woff > 0, now)
  {
    hide TxOk;
    Shape(t);
    if t.hoff < HELLO_LEN {
      NotBegun(t);
      FreshFramesGo(OneHello(t, answers[0]), now, answers[1..]);
    } else {
      FreshFramesGo(t, now, answers);
    }
  }
}
