/** What the frame lane does with what it is given (src/clane.c), over whole runs: the frames callers sent
    and those that came off the connections, read off the actions of the run alone, against what is
    queued, written, dropped and handed on. */
module LaneRuns {
  import opened Bytes
  import opened LaneWire
  import opened Lane

  // ---- the sender ----

  /** A send is taken when the frame is not too long and fits beside what waits. */
  predicate Takes(t: Tx, d: Data) { |d| <= FRAME_MAX && Queued(t.queue) + |d| <= MAX_QUEUE }

  /** The sends taken so far, in order. */
  function Sent(states: seq<Lane>, run: seq<Action>, k: nat): seq<Op>
    requires |states| == |run| + 1 && k <= |run|
  {
    if k == 0 then []
    else
      var front, act := Sent(states, run, k - 1), run[k - 1];
      if act.Sender? && act.op.Send? && Takes(states[k - 1].tx, act.op.data) then front + [act.op] else front
  }

  /** The frame is the send of its number: its bytes, its time. */
  ghost predicate IsSend(f: Frame, sent: seq<Op>) {
    f.id < |sent| && sent[f.id].Send? && f.data == sent[f.id].data && f.at == sent[f.id].at
  }

  ghost predicate AllSent(t: Tx, sent: seq<Op>) {
    t.next == |sent| && forall f :: f in t.done || f in t.queue ==> IsSend(f, sent)
  }

  /** Step k dropped frame `id` unwritten, because it was too old. */
  ghost predicate Drops(s: Lane, act: Action, id: nat) {
    && act.Sender? && act.op.Stale? && s.tx.queue != [] && s.tx.woff == 0
    && s.tx.queue[0].id == id && act.op.now - s.tx.queue[0].at > MAX_AGE
  }

  ghost predicate WasDropped(states: seq<Lane>, run: seq<Action>, k: nat, id: nat)
    requires |states| == |run| + 1 && k <= |run|
  {
    exists i :: 0 <= i < k && Drops(states[i], run[i], id)
  }

  ghost predicate Has(t: Tx, id: nat) { exists f :: (f in t.done || f in t.queue) && f.id == id }

  lemma SendStep(t: Tx, op: Op, sent: seq<Op>)
    requires TxOk(t) && Can(t, op) && AllSent(t, sent)
    ensures AllSent(Do(t, op), if op.Send? && Takes(t, op.data) then sent + [op] else sent)
  {
    hide Wire;
    hide InOrder;
    hide Given;
    var u := Do(t, op);
    var more := if op.Send? && Takes(t, op.data) then sent + [op] else sent;
    forall f | f in u.done || f in u.queue ensures IsSend(f, more) {
      if f in t.done || f in t.queue { assert IsSend(f, sent); }
    }
  }

  /** A step of a run, as the sender sees it. */
  lemma TxStep(states: seq<Lane>, run: seq<Action>, k: nat)
    requires IsRun(states, run) && 0 < k <= |run|
    ensures var s, act := states[k - 1], run[k - 1];
      && TxOk(s.tx) && (act.Sender? ==> Can(s.tx, act.op) && states[k].tx == Do(s.tx, act.op))
      && (!act.Sender? ==> states[k].tx == s.tx)
  {
    hide Do;
    hide TxOk;
    hide Can;
    RunKeeps(states, run, k - 1);
    hide LinksOk;
    hide ArrivalsOk;
  }

  /** In every run, each frame written or waiting carries the bytes and the time of the send it is numbered
      after, and a send is numbered exactly when length and queue allow it. */
  lemma {:induction false} SentIsQueued(states: seq<Lane>, run: seq<Action>, k: nat)
    requires IsRun(states, run) && k <= |run|
    ensures AllSent(states[k].tx, Sent(states, run, k))
  {
    if k > 0 {
      TxStep(states, run, k);
      SentIsQueued(states, run, k - 1);
      hide IsRun;
      hide Do;
      hide Can;
      hide TxOk;
      hide AllSent;
      var s, act := states[k - 1], run[k - 1];
      if act.Sender? { SendStep(s.tx, act.op, Sent(states, run, k - 1)); }
    }
  }

  /** So what the cluster thread is handed is, byte for byte, what a caller sent. */
  lemma HandedWasSent(states: seq<Lane>, run: seq<Action>, k: nat, i: nat)
    requires IsRun(states, run) && k <= |run| && i < |states[k].handed| && states[k].handed[i].Ours?
    ensures var s, sent := states[k], Sent(states, run, k);
      && Placed(s, s.handed[i]) && Origin(s, s.handed[i]).id < |sent|
      && var op := sent[Origin(s, s.handed[i]).id]; op.Send? && op.data == s.handed[i].data
  {
    HandedIsWhole(states, run, k, i);
    SentIsQueued(states, run, k);
    hide IsRun;
    hide Sent;
    assert Origin(states[k], states[k].handed[i]) in states[k].tx.done;
  }

  lemma KeptOrDropped(s: Lane, op: Op, id: nat)
    requires TxOk(s.tx) && Can(s.tx, op) && (Has(s.tx, id) || (op.Send? && Takes(s.tx, op.data) && id == s.tx.next))
    ensures Has(Do(s.tx, op), id) || Drops(s, Sender(op), id)
  {
    hide Wire;
    hide InOrder;
    hide Given;
    var t, u := s.tx, Do(s.tx, op);
    if Has(t, id) {
      var f :| (f in t.done || f in t.queue) && f.id == id;
      assert f in u.done || f in u.queue || (op.Stale? && f == t.queue[0]);
    } else {
      assert Frame(t.next, op.at, op.data) in u.queue;
    }
  }

  lemma StillDropped(states: seq<Lane>, run: seq<Action>, k: nat, id: nat)
    requires |states| == |run| + 1 && 0 < k <= |run|
    requires WasDropped(states, run, k - 1, id) || Drops(states[k - 1], run[k - 1], id)
    ensures WasDropped(states, run, k, id)
  {
    hide Drops;
  }

  /** No frame is lost on the way: each send taken is written, waits, or was dropped unwritten when it had
      waited too long. */
  lemma {:induction false} NoneIsLost(states: seq<Lane>, run: seq<Action>, k: nat, id: nat)
    requires IsRun(states, run) && k <= |run| && id < |Sent(states, run, k)|
    ensures Has(states[k].tx, id) || WasDropped(states, run, k, id)
  {
    if k > 0 {
      var s, act := states[k - 1], run[k - 1];
      TxStep(states, run, k);
      SentIsQueued(states, run, k - 1);
      if id < |Sent(states, run, k - 1)| { NoneIsLost(states, run, k - 1, id); }
      hide IsRun;
      hide Do;
      hide Can;
      hide TxOk;
      hide Has;
      hide Drops;
      hide WasDropped;
      if WasDropped(states, run, k - 1, id) {
        StillDropped(states, run, k, id);
      } else if act.Sender? {
        KeptOrDropped(s, act.op, id);
        if Drops(s, act, id) { StillDropped(states, run, k, id); }
      }
    }
  }

  // ---- the queue to the cluster thread ----

  /** What a step brings to the receiver's queue, if anything. */
  function Brought(s: Lane, s': Lane, act: Action): seq<Arrival> {
    match act
    case Recv(c) =>
      if c < |s.links| && c < |s'.links| && |s.links[c].rx.out| < |s'.links[c].rx.out|
      then [Ours(c, |s.links[c].rx.out|, s'.links[c].rx.out[|s.links[c].rx.out|])] else []
    case Other(d) => [Foreign(d)]
    case _ => []
  }

  /** Everything brought that fitted beside what waited then. */
  function Entered(states: seq<Lane>, run: seq<Action>, k: nat): seq<Arrival>
    requires |states| == |run| + 1 && k <= |run|
  {
    if k == 0 then []
    else
      var front, b := Entered(states, run, k - 1), Brought(states[k - 1], states[k], run[k - 1]);
      if b != [] && RxQueued(states[k - 1].rxq) + RX_HDR + |b[0].data| <= MAX_RXQ then front + b else front
  }

  /** The room each call for a frame gave, in order. */
  function Rooms(run: seq<Action>): seq<nat> {
    if run == [] then []
    else
      var front := Rooms(run[..|run| - 1]);
      match run[|run| - 1] case Take(cap) => front + [cap] case _ => front
  }

  /** Of these arrivals, each offered its room, those that fit. */
  function Fitting(all: seq<Arrival>, rooms: seq<nat>): seq<Arrival>
    requires |rooms| <= |all|
  {
    if rooms == [] then []
    else
      var n := |rooms| - 1;
      Fitting(all, rooms[..n]) + if |all[n].data| <= rooms[n] then [all[n]] else []
  }

  ghost predicate InTurn(s: Lane, entered: seq<Arrival>, rooms: seq<nat>) {
    && |rooms| <= |entered| && s.rxq == entered[|rooms|..] && s.handed == Fitting(entered, rooms)
  }

  lemma {:induction false} FittingGrows(all: seq<Arrival>, more: seq<Arrival>, rooms: seq<nat>)
    requires |rooms| <= |all|
    ensures Fitting(all + more, rooms) == Fitting(all, rooms)
    decreases |rooms|
  {
    if rooms != [] { FittingGrows(all, more, rooms[..|rooms| - 1]); }
  }

  lemma EntersInTurn(s: Lane, act: Action, entered: seq<Arrival>, rooms: seq<nat>)
    requires Enabled(s, act) && !act.Take? && InTurn(s, entered, rooms) && s.rxBytes == RxQueued(s.rxq)
    ensures var s' := Act(s, act);
      var b := Brought(s, s', act);
      InTurn(s', if b != [] && RxQueued(s.rxq) + RX_HDR + |b[0].data| <= MAX_RXQ then entered + b else entered, rooms)
  {
    hide Do;
    hide Can;
    hide Step;
    hide Fitting;
    hide RxQueued;
    var s' := Act(s, act);
    var b := Brought(s, s', act);
    FittingGrows(entered, b, rooms);
    assert (entered + b)[|rooms|..] == entered[|rooms|..] + b;
  }

  lemma LeavesInTurn(s: Lane, act: Action, entered: seq<Arrival>, rooms: seq<nat>)
    requires Enabled(s, act) && act.Take? && InTurn(s, entered, rooms)
    ensures InTurn(Act(s, act), entered, rooms + [act.cap])
  {
    assert (rooms + [act.cap])[..|rooms|] == rooms;
    assert s.rxq[0] == entered[|rooms|];
  }

  /** In every run the cluster thread is offered, in order and one at a time, exactly the frames that came
      off the connections and found room in its queue, and is handed those that fit its buffer. */
  lemma {:induction false} HandedInTurn(states: seq<Lane>, run: seq<Action>, k: nat)
    requires IsRun(states, run) && k <= |run|
    ensures var entered, rooms := Entered(states, run, k), Rooms(run[..k]);
      && |rooms| <= |entered| && states[k].rxq == entered[|rooms|..] && states[k].handed == Fitting(entered, rooms)
  {
    if k > 0 {
      HandedInTurn(states, run, k - 1);
      RunKeeps(states, run, k - 1);
      var s, act := states[k - 1], run[k - 1];
      assert run[..k][..k - 1] == run[..k - 1] && run[..k][k - 1] == act;
      hide TxOk;
      hide LinksOk;
      hide ArrivalsOk;
      hide Act;
      hide Enabled;
      hide Fitting;
      hide Brought;
      hide RxQueued;
      if act.Take? { LeavesInTurn(s, act, Entered(states, run, k - 1), Rooms(run[..k - 1])); }
      else { EntersInTurn(s, act, Entered(states, run, k - 1), Rooms(run[..k - 1])); }
    }
  }
}
